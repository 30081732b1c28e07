/** The allocator of std/mm.c over one byte buffer. */
module Heap {
  import opened HeapState
  import opened FreeLists
  import opened BlockChain
  import opened HeapAccounting
  import opened HeapBytes
  import opened HeapSteps
  import opened StalePointers
  import opened HeapSnapshots

  class Allocator {
    const mem: array<byte>        // the storage
    const base: nat               // its address
    const freeLists: array<int>   // head of each free list, or NULL
    var headers: Headers          // the headers in mem that belong to the chain, as read through its pointers
    var inUse: int
    ghost var blocks: set<int>    // addresses of the blocks in the chain
    ghost var listed: set<int>    // blocks on some free list
    ghost var chains: seq<seq<int>>

    ghost predicate Core()
      reads this, mem, freeLists
    {
      && freeLists.Length == FREE_LIST_COUNT && base % ALIGNMENT == 0
      && Sound(mem.Length, headers, blocks, listed, freeLists[..], chains)
      && Imaged(mem[..], base, headers)
    }

    /** In addition every free block is listed, no used one is, and the counter is exact. */
    ghost predicate Valid()
      reads this, mem, freeLists
    {
      && Core()
      && ListsFree(headers, blocks, listed)
      && inUse == Footprint(Live(headers, blocks))
    }

    /** mm_init on a buffer of n bytes at an address that is a multiple of 8: one free block covers it. */
    constructor (n: nat, base: nat)
      requires HEADER + ALIGNMENT <= n && n % ALIGNMENT == 0 && 0 < base && base % ALIGNMENT == 0
      ensures Valid() && Coalesced(headers, blocks) && this.base == base
      ensures LiveBlocks() == map[] && blocks == {0} && headers[0].size == n - HEADER && inUse == 0
      ensures mem.Length == n && fresh(mem) && fresh(freeLists)
    {
      mem := new byte[n];
      this.base := base;
      freeLists := new int[FREE_LIST_COUNT](_ => NULL);
      headers := map[];
      inUse := 0;
      blocks, listed := {}, {};
      chains := seq(FREE_LIST_COUNT, _ => []);
      new;
      StoreHeader(0, Header(n - HEADER, true, NULL, NULL, NULL, NULL));
      blocks := {0};
      FirstBlock(n, headers, freeLists[..], chains);
      ghost var h := headers;
      InsertFreeBlock(0);
      SameByShape(h, headers, blocks);
    }

    ghost function LiveBlocks(): map<int, nat>
      reads `headers, `blocks
    {
      Live(headers, blocks)
    }

    ghost function Snap(): Snapshot
      reads this, mem, freeLists
    {
      Snapshot(headers, blocks, mem[..], inUse, freeLists[..], chains)
    }

    // ---- stores ----

    /** Stores an 8-byte word, lowest byte first. */
    method PutWord(p: int, w: nat)
      requires 0 <= p && p + 8 <= mem.Length
      modifies mem
      ensures OnlyWithin(old(mem[..]), mem[..], p, p + 8) && WordAt(mem[..], p, w)
    {
      forall i | p <= i < p + 8 {
        mem[i] := ByteOf(w, i - p);
      }
    }

    /** Assigns the free bit; the other bits of its byte stay. */
    method PutBit(p: int, free: bool)
      requires 0 <= p < mem.Length
      modifies mem
      ensures OnlyWithin(old(mem[..]), mem[..], p, p + 1) && mem[p] % 2 == if free then 1 else 0
    {
      mem[p] := mem[p] - mem[p] % 2 + if free then 1 else 0;
    }

    /** The stores behind the magic. */
    method PutFields(a: int, hd: Header)
      requires MagicAt(mem[..], a)
      modifies mem
      ensures OnlyWithin(old(mem[..]), mem[..], a + 8, a + HEADER) && HeaderAt(mem[..], base, a, hd)
    {
      PutWord(a + 8, hd.size);
      ghost var m1 := mem[..];
      PutBit(a + FREE_BIT, hd.free);
      ghost var m2 := mem[..];
      PutWord(a + 24, Raw(base, hd.next));
      ghost var m3 := mem[..];
      PutWord(a + 32, Raw(base, hd.prev));
      ghost var m4 := mem[..];
      PutWord(a + 40, Raw(base, hd.nextFree));
      ghost var m5 := mem[..];
      PutWord(a + 48, Raw(base, hd.prevFree));
      FieldsStored(m1, m2, m3, m4, m5, mem[..], base, a, hd);
    }

    /** Stores all fields of a header in a place that overlaps no header of the chain. */
    method StoreHeader(a: int, hd: Header)
      requires 0 <= a && a + HEADER <= mem.Length && Imaged(mem[..], base, headers) && a !in headers
      requires forall k :: k in headers ==> Apart(k, a)
      modifies `headers, mem
      ensures headers == old(headers)[a := hd] && Imaged(mem[..], base, headers)
      ensures OnlyHeaders(old(mem[..]), mem[..], {a})
    {
      ghost var m := mem[..];
      mem[a], mem[a + 1], mem[a + 2], mem[a + 3] := 0xDE, 0x07, 0x0C, 0;
      PutFields(a, hd);
      ImageElsewhere(m, mem[..], base, headers, a, a + HEADER);
      headers := headers[a := hd];
      forall i | 0 <= i < |m| && mem[..][i] != m[i] ensures InHeader({a}, i) {
        assert a in {a} && a <= i < a + HEADER;
      }
    }

    /** Assigns one word of a header of the chain. */
    method SetWord(a: int, i: nat, hd: Header, ghost m: seq<byte>, ghost s: set<int>)
      requires a in headers && Spaced(headers) && Imaged(mem[..], base, headers) && IsWord(i)
      requires DiffersIn(base, headers[a], hd, i)
      requires OnlyFields(m, mem[..], s) && a in s
      modifies `headers, mem
      ensures headers == old(headers)[a := hd] && Imaged(mem[..], base, headers)
      ensures OnlyFields(m, mem[..], s)
    {
      assert HeaderAt(mem[..], base, a, headers[a]);
      ghost var m0 := mem[..];
      PutWord(a + 8 * i, Word(base, hd, i));
      WordStored(m0, mem[..], base, a, headers[a], hd, i);
      WithinFields(m, m0, mem[..], a, a + 8 * i, a + 8 * i + 8, s);
      forall k | k in headers && k != a ensures Apart(k, a) {}
      ImageReplaced(m0, mem[..], base, headers, a, hd);
      headers := headers[a := hd];
    }

    /** Assigns the free bit of a header of the chain. */
    method SetFree(a: int, free: bool, ghost m: seq<byte>, ghost s: set<int>)
      requires a in headers && Spaced(headers) && Imaged(mem[..], base, headers)
      requires OnlyFields(m, mem[..], s) && a in s
      modifies `headers, mem
      ensures headers == old(headers)[a := old(headers)[a].(free := free)] && Imaged(mem[..], base, headers)
      ensures OnlyFields(m, mem[..], s)
    {
      assert HeaderAt(mem[..], base, a, headers[a]);
      ghost var m0 := mem[..];
      PutBit(a + FREE_BIT, free);
      BitStored(m0, mem[..], base, a, headers[a], free);
      WithinFields(m, m0, mem[..], a, a + FREE_BIT, a + FREE_BIT + 1, s);
      forall k | k in headers && k != a ensures Apart(k, a) {}
      ImageReplaced(m0, mem[..], base, headers, a, headers[a].(free := free));
      headers := headers[a := headers[a].(free := free)];
    }

    method SetSize(a: int, size: nat, ghost m: seq<byte>, ghost s: set<int>)
      requires a in headers && Spaced(headers) && Imaged(mem[..], base, headers)
      requires OnlyFields(m, mem[..], s) && a in s
      modifies `headers, mem
      ensures headers == old(headers)[a := old(headers)[a].(size := size)] && Imaged(mem[..], base, headers)
      ensures OnlyFields(m, mem[..], s)
    {
      SetWord(a, 1, headers[a].(size := size), m, s);
    }

    method SetNext(a: int, next: int, ghost m: seq<byte>, ghost s: set<int>)
      requires a in headers && Spaced(headers) && Imaged(mem[..], base, headers)
      requires OnlyFields(m, mem[..], s) && a in s
      modifies `headers, mem
      ensures headers == old(headers)[a := old(headers)[a].(next := next)] && Imaged(mem[..], base, headers)
      ensures OnlyFields(m, mem[..], s)
    {
      SetWord(a, 3, headers[a].(next := next), m, s);
    }

    method SetPrev(a: int, prev: int, ghost m: seq<byte>, ghost s: set<int>)
      requires a in headers && Spaced(headers) && Imaged(mem[..], base, headers)
      requires OnlyFields(m, mem[..], s) && a in s
      modifies `headers, mem
      ensures headers == old(headers)[a := old(headers)[a].(prev := prev)] && Imaged(mem[..], base, headers)
      ensures OnlyFields(m, mem[..], s)
    {
      SetWord(a, 4, headers[a].(prev := prev), m, s);
    }

    method SetNextFree(a: int, nextFree: int, ghost m: seq<byte>, ghost s: set<int>)
      requires a in headers && Spaced(headers) && Imaged(mem[..], base, headers)
      requires OnlyFields(m, mem[..], s) && a in s
      modifies `headers, mem
      ensures headers == old(headers)[a := old(headers)[a].(nextFree := nextFree)] && Imaged(mem[..], base, headers)
      ensures OnlyFields(m, mem[..], s)
    {
      SetWord(a, 5, headers[a].(nextFree := nextFree), m, s);
    }

    method SetPrevFree(a: int, prevFree: int, ghost m: seq<byte>, ghost s: set<int>)
      requires a in headers && Spaced(headers) && Imaged(mem[..], base, headers)
      requires OnlyFields(m, mem[..], s) && a in s
      modifies `headers, mem
      ensures headers == old(headers)[a := old(headers)[a].(prevFree := prevFree)] && Imaged(mem[..], base, headers)
      ensures OnlyFields(m, mem[..], s)
    {
      SetWord(a, 6, headers[a].(prevFree := prevFree), m, s);
    }

    /** The stores of _split_block, in the order of the source. */
    method SplitStores(b: int, size: nat, a: int, ghost s: set<int>)
      requires Spaced(headers) && Imaged(mem[..], base, headers)
      requires Stored(mem.Length, headers, b) && a == b + HEADER + size && a !in headers
      requires forall k :: k in headers ==> Apart(k, a)
      requires b + HEADER + headers[b].size <= mem.Length && size + HEADER <= headers[b].size && a in s && b in s
      requires var x := headers[b].next; x != NULL ==> Stored(mem.Length, headers, x) && x in s && End(headers, b) <= x
      modifies `headers, mem
      ensures headers == Split(old(headers), b, size) && Imaged(mem[..], base, headers)
      ensures OnlyHeaders(old(mem[..]), mem[..], s)
    {
      ghost var h, m := headers, mem[..];
      StoreHeader(a, Header(headers[b].size - size - HEADER, true, headers[b].next, b, NULL, NULL));
      ghost var m1 := mem[..];
      SpacedMore(h, headers, a);
      if headers[a].next != NULL {
        SetPrev(headers[a].next, a, m1, s);
      }
      SetNext(b, a, m1, s);
      SetSize(b, size, m1, s);
      FieldsAreHeaders(m1, mem[..], s);
      OnlyHeadersTrans(m, m1, mem[..], {a}, s, s);
    }

    /** The stores of _remove_free_block. */
    method UnlinkStores(b: int, idx: int, ghost s: set<int>)
      requires Spaced(headers) && Imaged(mem[..], base, headers)
      requires Stored(mem.Length, headers, b) && 0 <= idx < freeLists.Length && b in s
      requires var p := headers[b].prevFree; p != NULL ==> Stored(mem.Length, headers, p) && p in s
      requires var n := headers[b].nextFree; n != NULL ==> Stored(mem.Length, headers, n) && n in s
      modifies `headers, mem, freeLists
      ensures headers == Unlink(old(headers), b) && Imaged(mem[..], base, headers)
      ensures OnlyFields(old(mem[..]), mem[..], s)
      ensures freeLists[..] == if old(headers)[b].prevFree == NULL
                               then old(freeLists[..])[idx := old(headers)[b].nextFree]
                               else old(freeLists[..])
    {
      ghost var m := mem[..];
      var p, n := headers[b].prevFree, headers[b].nextFree;
      if p != NULL {
        SetNextFree(p, n, m, s);
      } else {
        freeLists[idx] := n;
      }
      if n != NULL {
        SetPrevFree(n, p, m, s);
      }
      SetNextFree(b, NULL, m, s);
      SetPrevFree(b, NULL, m, s);
    }

    /** The stores of _insert_free_block. */
    method PushStores(b: int, idx: int, ghost s: set<int>)
      requires Spaced(headers) && Imaged(mem[..], base, headers)
      requires Stored(mem.Length, headers, b) && 0 <= idx < freeLists.Length && b in s
      requires var x := freeLists[idx]; x != NULL ==> Stored(mem.Length, headers, x) && x in s && x != b
      modifies `headers, mem, freeLists
      ensures headers == Push(old(headers), b, old(freeLists[idx])) && Imaged(mem[..], base, headers)
      ensures OnlyFields(old(mem[..]), mem[..], s)
      ensures freeLists[..] == old(freeLists[..])[idx := b]
    {
      ghost var m := mem[..];
      var head := freeLists[idx];
      SetFree(b, true, m, s);
      SetNextFree(b, head, m, s);
      SetPrevFree(b, NULL, m, s);
      if head != NULL {
        SetPrevFree(head, b, m, s);
      }
      freeLists[idx] := b;
    }

    /** The stores of _merge_with_next; what was the next header is no block of the chain any more. */
    method MergeStores(b: int, next: int, ghost s: set<int>)
      requires Spaced(headers) && Imaged(mem[..], base, headers)
      requires Stored(mem.Length, headers, b) && headers[b].next == next && next in headers && next != b && b in s
      requires var x := headers[next].next; x != NULL ==> x in headers && x in s && x != b && x != next
      modifies `headers, mem
      ensures headers == Merge(old(headers), b) && Imaged(mem[..], base, headers)
      ensures OnlyFields(old(mem[..]), mem[..], s)
    {
      ghost var m := mem[..];
      SetSize(b, headers[b].size + (HEADER + headers[next].size), m, s);
      SetNext(b, headers[next].next, m, s);
      if headers[b].next != NULL {
        SetPrev(headers[b].next, b, m, s);
      }
      ImageLess(mem[..], base, headers, next);
      headers := headers - {next};
    }

    /** The list a size belongs to. */
    method FreeListIndex(size: nat) returns (idx: int)
      ensures InClass(size, idx) && idx == ListOf(size)
    {
      idx := 0;
      var limit := ALIGNMENT;
      while idx < FREE_LIST_COUNT - 1 && size > limit
        invariant 0 <= idx < FREE_LIST_COUNT && limit == ClassLimit(idx)
        invariant idx == 0 || ClassLimit(idx - 1) < size
      {
        limit := limit * 2;
        idx := idx + 1;
      }
      ClassIsListOf(size, idx);
    }

    method RemoveFreeBlock(b: int)
      requires Core() && b in listed
      modifies `headers, `chains, `listed, mem, freeLists
      ensures Core() && SameShape(old(headers), headers)
      ensures listed == old(listed) - {b}
      ensures OnlyFields(old(mem[..]), mem[..], blocks)
    {
      TiledSpaced(mem.Length, headers, blocks);
      BlockStored(mem.Length, headers, blocks, b);
      var idx := FreeListIndex(headers[b].size);
      ghost var chains' := UnlinkSound(mem.Length, headers, blocks, listed, freeLists[..], chains, b, idx);
      UnlinkStores(b, idx, blocks);
      chains, listed := chains', listed - {b};
    }

    method InsertFreeBlock(b: int)
      requires Core() && b in blocks && b !in listed
      modifies `headers, `chains, `listed, mem, freeLists
      ensures Core() && SameShape(old(headers)[b := old(headers)[b].(free := true)], headers)
      ensures old(headers)[b].free ==> SameShape(old(headers), headers)
      ensures listed == old(listed) + {b}
      ensures OnlyFields(old(mem[..]), mem[..], blocks)
    {
      TiledSpaced(mem.Length, headers, blocks);
      BlockStored(mem.Length, headers, blocks, b);
      var idx := FreeListIndex(headers[b].size);
      ghost var chains' := PushSound(mem.Length, headers, blocks, listed, freeLists[..], chains, b, idx);
      PushStores(b, idx, blocks);
      chains, listed := chains', listed + {b};
    }

    method MergeWithNext(b: int)
      requires Core() && b in blocks && b !in listed
      requires headers[b].next in blocks && headers[b].next !in listed
      modifies `headers, `blocks, mem
      ensures Core() && IsMerge(old(headers), headers, old(blocks), b)
      ensures blocks == old(blocks) - {old(headers)[b].next}
      ensures OnlyFields(old(mem[..]), mem[..], blocks)
    {
      TiledSpaced(mem.Length, headers, blocks);
      MergeSound(mem.Length, headers, blocks, listed, freeLists[..], chains, b);
      var next := headers[b].next;
      assert NextOk(mem.Length, headers, blocks, b) && NextOk(mem.Length, headers, blocks, next);
      assert WellSized(headers[b], b, mem.Length) && WellSized(headers[next], next, mem.Length);
      MergeStores(b, next, blocks - {next});
      blocks := blocks - {next};
    }

    /** Gives the bytes of b beyond `size` back as a free block if they are worth a block. */
    method SplitBlock(b: int, size: nat)
      requires Core() && b in blocks && b !in listed
      requires size % ALIGNMENT == 0
      modifies `headers, `blocks, `chains, `listed, mem, freeLists
      ensures Core()
      ensures old(headers)[b].size < size + HEADER + MIN_SPLIT_SIZE ==>
                headers == old(headers) && blocks == old(blocks) && listed == old(listed) && mem[..] == old(mem[..])
      ensures old(headers)[b].size >= size + HEADER + MIN_SPLIT_SIZE ==>
                var a := b + HEADER + size;
                a !in old(blocks) && blocks == old(blocks) + {a} && listed == old(listed) + {a}
                && IsSplit(old(headers), headers, old(blocks), b, size)
      ensures OthersKept(old(headers), old(blocks), headers, blocks, b)
      ensures listed == old(listed) + (blocks - old(blocks))
      ensures headers[b].size == Trimmed(old(headers)[b].size, size)
      ensures blocks == old(blocks) + Rest(b, old(headers)[b].size, size)
      ensures OnlyHeaders(old(mem[..]), mem[..], blocks)
    {
      if headers[b].size < size + HEADER + MIN_SPLIT_SIZE {
        return;
      }
      TiledSpaced(mem.Length, headers, blocks);
      SplitSound(mem.Length, headers, blocks, listed, freeLists[..], chains, b, size);
      var a := b + HEADER + size;
      ghost var m := mem[..];
      SplitStores(b, size, a, blocks + {a});
      blocks := blocks + {a};
      ghost var h, m' := headers, mem[..];
      InsertFreeBlock(a);
      FieldsAreHeaders(m', mem[..], blocks);
      OnlyHeadersTrans(m, m', mem[..], blocks, blocks, blocks);
      assert headers[a].free && h[a].free;
    }

    method FindFreeBlock(size: nat) returns (block: int)
      requires Core()
      ensures block == NULL ==> forall b <- listed :: headers[b].size < size
      ensures block != NULL ==> 0 <= block && block in listed && headers[block].size >= size
      ensures block != NULL ==> FirstFit(headers, chains, size, block)
      ensures block != NULL && ListsFree(headers, blocks, listed) ==> GoodFit(headers, blocks, size, block)
    {
      hide GoodFit;
      hide ListsFree;
      var idx := FreeListIndex(size);
      forall l | 0 <= l < idx ensures TooSmall(headers, chains[l], |chains[l]|, size) {
        LowerLists(headers, freeLists[..], chains, listed, size, idx, l);
      }
      var i := idx;
      while i < FREE_LIST_COUNT
        invariant 0 <= i <= FREE_LIST_COUNT
        invariant forall l :: 0 <= l < i ==> TooSmall(headers, chains[l], |chains[l]|, size)
      {
        NodesOf(headers, freeLists[..], chains, listed, i);
        var current := freeLists[i];
        ghost var j, s := 0, chains[i];
        while current != NULL
          invariant 0 <= j <= |s| && current == if j < |s| then s[j] else NULL
          invariant TooSmall(headers, s, j, size)
          decreases |s| - j
        {
          assert NodeOk(headers, s, j);
          if headers[current].size >= size {
            assert Passed(headers, chains, size, i, j);
            if ListsFree(headers, blocks, listed) {
              FirstFitIsGood(headers, blocks, listed, freeLists[..], chains, size, current);
            }
            return current;
          }
          current := headers[current].nextFree;
          j := j + 1;
        }
        assert j == |s|;
        i := i + 1;
      }
      forall b | b in listed ensures headers[b].size < size {
        NoRoom(headers, freeLists[..], chains, listed, size, b);
      }
      return NULL;
    }

    /** Takes block off its list and marks it used. */
    method TakeBlock(block: int)
      requires Valid() && block in listed
      modifies `headers, `chains, `listed, mem, freeLists
      ensures Core() && listed == old(listed) - {block} && !headers[block].free
      ensures OthersKept(old(headers)[block := old(headers)[block].(free := false)], blocks, headers, blocks, block)
      ensures headers[block].size == old(headers)[block].size
      ensures old(Coalesced(headers, blocks)) ==>
                Coalesced(headers, blocks) && NotFree(headers, blocks, headers[block].next)
      ensures OnlyFields(old(mem[..]), mem[..], blocks)
    {
      ghost var h0, m0 := headers, mem[..];
      CoalescedAt(mem.Length, h0, blocks, block);
      RemoveFreeBlock(block);
      ghost var h1, m1 := headers, mem[..];
      TiledSpaced(mem.Length, headers, blocks);
      SetFree(block, false, m1, blocks);
      UsedSound(mem.Length, h1, headers, blocks, listed, freeLists[..], chains, block);
      OnlyFieldsTrans(m0, m1, mem[..], blocks, blocks, blocks);
    }

    /** Takes block off its list, marks it used and trims it. */
    method Carve(block: int, aligned: nat)
      requires Valid() && block in listed && aligned <= headers[block].size
      requires aligned % ALIGNMENT == 0
      modifies `headers, `blocks, `chains, `listed, mem, freeLists
      ensures Core() && ListsFree(headers, blocks, listed)
      ensures blocks == old(blocks) + Rest(block, old(headers)[block].size, aligned)
      ensures block in LiveBlocks() && block !in old(LiveBlocks())
      ensures LiveBlocks()[block] == Trimmed(old(headers)[block].size, aligned)
      ensures LiveBlocks() == old(LiveBlocks())[block := LiveBlocks()[block]]
      ensures Footprint(LiveBlocks()) == old(Footprint(LiveBlocks())) + HEADER + headers[block].size
      ensures OnlyHeaders(old(mem[..]), mem[..], blocks)
      ensures OthersKept(old(headers)[block := old(headers)[block].(free := false)], old(blocks), headers, blocks,
                         block)
      ensures old(Coalesced(headers, blocks)) ==> Coalesced(headers, blocks)
    {
      ghost var h0, blocks0, listed0, m0 := headers, blocks, listed, mem[..];
      TakeBlock(block);
      ghost var h1, m1 := headers, mem[..];
      SplitBlock(block, aligned);
      if h1[block].size >= aligned + HEADER + MIN_SPLIT_SIZE {
        SplitCoalesced(mem.Length, h1, headers, blocks0, block, aligned);
      }
      KeptTrans(h0[block := h0[block].(free := false)], blocks0, h1, headers, blocks, block);
      HandOut(h0, blocks0, listed0, headers, blocks, listed, block);
      FieldsAreHeaders(m0, m1, blocks0);
      OnlyHeadersTrans(m0, m1, mem[..], blocks0, blocks, blocks);
    }

    lemma HandedOut(h0: Headers, s0: set<int>, m0: seq<byte>, block: int, aligned: nat)
      requires Core() && ListsFree(headers, blocks, listed) && |m0| == mem.Length
      requires Tiled(mem.Length, h0, s0) && block in s0 && blocks == s0 + Rest(block, h0[block].size, aligned)
      requires OthersKept(h0[block := h0[block].(free := false)], s0, headers, blocks, block)
      requires OnlyHeaders(m0, mem[..], blocks)
      ensures Awakened(h0, m0, mem[..], block, Rest(block, h0[block].size, aligned))
    {
      HandingOutAwakens(mem.Length, base, h0, s0, m0, headers, blocks, listed, freeLists[..], chains, mem[..], block,
                        aligned);
    }

    /** mm_base_malloc, for any size_t. */
    method Malloc(size: nat) returns (ptr: int)
      requires Valid() && size < SIZE_LIMIT
      modifies this, mem, freeLists
      ensures Valid()
      ensures Allocates(old(Snap()), size, ptr, Snap())
      ensures ptr != NULL ==>
                var b := ptr - HEADER;
                && b in old(blocks) && old(headers)[b].free
                && GoodFit(old(headers), old(blocks), AlignUp(size), b)
                && blocks == old(blocks) + Rest(b, old(headers)[b].size, AlignUp(size))
                && Awakened(old(headers), old(mem[..]), mem[..], b, Rest(b, old(headers)[b].size, AlignUp(size)))
      ensures OnlyHeaders(old(mem[..]), mem[..], blocks)
      ensures PayloadsKept(old(mem[..]), mem[..], old(LiveBlocks()))
      ensures Guarded(old(headers), old(blocks), old(mem[..]), headers, blocks, mem[..], ptr - HEADER)
      ensures old(Coalesced(headers, blocks)) ==> Coalesced(headers, blocks)
      // only the block handed out can be too small
      ensures old(Ample(headers, blocks)) ==>
                (Ample(headers, blocks) <==> ptr == NULL || ALIGNMENT <= LiveBlocks()[ptr - HEADER])
    {
      hide Tiled;
      hide ListsHold;
      hide Imaged;
      hide Coalesced;
      hide FirstFit;
      hide PayloadsKept;
      hide Guarded;
      hide Allocates;
      hide Ample;
      hide OthersKept;
      hide Awakened;
      GuardedSame(mem.Length, headers, blocks, mem[..], NULL - HEADER);
      ghost var s, live := Snap(), LiveBlocks();
      StoresKeepLive(mem.Length, headers, blocks, mem[..], mem[..], live);
      if size == 0 {
        NoneAllocated(s, size);
        return NULL;
      }
      AlignUpRounds(size);
      var aligned := AlignUp(size);
      var block := FindFreeBlock(aligned);
      if block == NULL {
        NoneAllocated(s, size);
        return NULL;
      }
      ghost var h0, s0 := headers, blocks;
      hide GoodFit;
      Carve(block, aligned);
      HandedOut(h0, s0, old(mem[..]), block, aligned);
      inUse := inUse + (headers[block].size + HEADER);
      StoresKeepLive(mem.Length, headers, blocks, old(mem[..]), mem[..], live);
      KeptGuard(mem.Length, base, h0, s0, old(mem[..]), headers, blocks, mem[..], block, block);
      if Ample(h0, s0) {
        KeptAmple(h0, s0, headers, blocks, block);
      }
      FitAllocated(s, size, block, Snap());
      return block + HEADER;
    }

    /** Merges the free block after c into c. */
    method AbsorbNext(c: int)
      requires Core() && c in blocks && ListsExcept(headers, blocks, listed, c)
      requires headers[c].next in blocks && headers[headers[c].next].free
      modifies `headers, `blocks, `chains, `listed, mem, freeLists
      ensures Core() && ListsExcept(headers, blocks, listed, c)
      ensures IsMerge(old(headers), headers, old(blocks), c) && blocks == old(blocks) - {old(headers)[c].next}
      ensures c in blocks
      ensures LiveBlocks() == if old(headers)[c].free then old(LiveBlocks())
                              else old(LiveBlocks())[c := headers[c].size]
      ensures OnlyFields(old(mem[..]), mem[..], old(blocks))
      ensures Guarded(old(headers), old(blocks), old(mem[..]), headers, blocks, mem[..],
                      if old(headers)[c].free then NULL else old(headers)[c].next)
    {
      TiledSpaced(mem.Length, headers, blocks);
      assert NextOk(mem.Length, headers, blocks, c) && WellSized(headers[c], c, mem.Length);
      ghost var h, x := headers, headers[c].next;
      RemoveFreeBlock(headers[c].next);
      ghost var m := mem[..];
      assert HeaderAt(m, base, x, headers[x]) && ShapeOf(headers[x]) == ShapeOf(h[x]);
      MergeWithNext(c);
      OnlyFieldsTrans(old(mem[..]), m, mem[..], old(blocks), blocks, old(blocks));
      PlaceStays(m, mem[..], blocks, x);
      assert IsMerge(h, headers, old(blocks), c);
      MergeMeaning(mem.Length, h, headers, old(blocks), old(listed), c);
      MergeGuard(mem.Length, base, h, old(blocks), old(mem[..]), headers, mem[..], c);
    }

    /** Merges c into the free block before it. */
    method AbsorbIntoPrev(c: int) returns (p: int)
      requires Core() && c in blocks && ListsExcept(headers, blocks, listed, c)
      requires headers[c].prev in blocks && headers[headers[c].prev].free && headers[c].free
      modifies `headers, `blocks, `chains, `listed, mem, freeLists
      ensures p == old(headers)[c].prev && old(headers)[p].next == c
      ensures Core() && ListsExcept(headers, blocks, listed, p)
      ensures IsMerge(old(headers), headers, old(blocks), p) && blocks == old(blocks) - {c} && p in blocks
      ensures LiveBlocks() == old(LiveBlocks())
      ensures OnlyFields(old(mem[..]), mem[..], old(blocks))
      ensures Guarded(old(headers), old(blocks), old(mem[..]), headers, blocks, mem[..], NULL)
    {
      TiledSpaced(mem.Length, headers, blocks);
      assert PrevOk(headers, blocks, c) && WellSized(headers[c], c, mem.Length);
      NullIsNoBlock(mem.Length, headers, blocks);
      p := headers[c].prev;
      ghost var h := headers;
      RemoveFreeBlock(p);
      ghost var m := mem[..];
      assert HeaderAt(m, base, c, headers[c]) && ShapeOf(headers[c]) == ShapeOf(h[c]);
      MergeWithNext(p);
      OnlyFieldsTrans(old(mem[..]), m, mem[..], old(blocks), blocks, old(blocks));
      PlaceStays(m, mem[..], blocks, c);
      assert IsMerge(h, headers, old(blocks), p);
      AbsorbedMeaning(mem.Length, h, headers, old(blocks), old(listed), p, c);
      MergeGuard(mem.Length, base, h, old(blocks), old(mem[..]), headers, mem[..], p);
    }

    /** str_memset on the buffer: words first, then the remaining bytes. */
    method Fill(p: int, v: byte, n: nat)
      requires 0 <= p && p + n <= mem.Length
      modifies mem
      ensures forall k :: 0 <= k < mem.Length ==> mem[k] == if p <= k < p + n then v else old(mem[k])
    {
      var words, i := n / 4, 0;
      while i < words
        invariant 0 <= i <= words
        invariant forall k :: 0 <= k < mem.Length ==> mem[k] == if p <= k < p + 4 * i then v else old(mem[k])
      {
        var d := p + 4 * i;
        mem[d], mem[d + 1], mem[d + 2], mem[d + 3] := v, v, v, v;
        i := i + 1;
      }
      i := 0;
      while i < n % 4
        invariant 0 <= i <= n % 4
        invariant forall k :: 0 <= k < mem.Length ==> mem[k] == if p <= k < p + 4 * words + i then v else old(mem[k])
      {
        mem[p + 4 * words + i] := v;
        i := i + 1;
      }
    }

    /** str_memcpy between two disjoint places of the buffer. */
    method Copy(dst: int, src: int, n: nat)
      requires 0 <= dst && dst + n <= mem.Length && 0 <= src && src + n <= mem.Length
      requires dst + n <= src || src + n <= dst
      modifies mem
      ensures forall k :: 0 <= k < mem.Length ==>
                mem[k] == if dst <= k < dst + n then old(mem[k - dst + src]) else old(mem[k])
    {
      var words, i := n / 4, 0;
      while i < words
        invariant 0 <= i <= words
        invariant forall k :: 0 <= k < mem.Length ==>
                    mem[k] == if dst <= k < dst + 4 * i then old(mem[k - dst + src]) else old(mem[k])
      {
        var d, s := dst + 4 * i, src + 4 * i;
        mem[d], mem[d + 1], mem[d + 2], mem[d + 3] := mem[s], mem[s + 1], mem[s + 2], mem[s + 3];
        i := i + 1;
      }
      i := 0;
      while i < n % 4
        invariant 0 <= i <= n % 4
        invariant forall k :: 0 <= k < mem.Length ==>
                    mem[k] == if dst <= k < dst + 4 * words + i then old(mem[k - dst + src]) else old(mem[k])
      {
        mem[dst + 4 * words + i] := mem[src + 4 * words + i];
        i := i + 1;
      }
    }

    /** Merges the just freed block b with its free neighbours. */
    method Coalesce(b: int) returns (block: int)
      requires Core() && b in blocks && ListsExcept(headers, blocks, listed, b) && headers[b].free
      modifies `headers, `blocks, `chains, `listed, mem, freeLists
      ensures Core() && block in blocks && ListsExcept(headers, blocks, listed, block) && headers[block].free
      ensures LiveBlocks() == old(LiveBlocks()) && blocks <= old(blocks)
      ensures OnlyFields(old(mem[..]), mem[..], old(blocks))
      ensures Guarded(old(headers), old(blocks), old(mem[..]), headers, blocks, mem[..], NULL)
      ensures old(Loose(headers, blocks, b)) ==> Coalesced(headers, blocks)
      ensures old(Ample(headers, blocks)) ==> Ample(headers, blocks)
    {
      ghost var n, h0, s0, m0 := mem.Length, headers, blocks, mem[..];
      ghost var loose, ample := Loose(h0, s0, b), Ample(h0, s0);
      NullIsNoBlock(n, headers, blocks);
      assert NextOk(n, headers, blocks, b) && PrevOk(headers, blocks, b);
      GuardedSame(n, h0, s0, m0, NULL);
      hide Guarded;
      block := b;
      if headers[b].prev != NULL && headers[headers[b].prev].free {
        block := AbsorbIntoPrev(b);
        if loose {
          LooseAfterPrev(n, h0, headers, s0, block, b);
        }
        if ample {
          MergedAmple(h0, s0, headers, block);
        }
      }
      ghost var h1, s1, m1 := headers, blocks, mem[..];
      NullIsNoBlock(n, headers, blocks);
      assert NextOk(n, headers, blocks, block);
      assert loose ==> Loose(h1, s1, block) && NotFree(h1, s1, h1[block].prev);
      if headers[block].next != NULL && headers[headers[block].next].free {
        AbsorbNext(block);
        GuardedTrans(h0, s0, m0, h1, s1, m1, headers, blocks, mem[..], NULL);
        if loose {
          SettledAfterNext(n, h1, headers, s1, block);
        }
        if ample {
          MergedAmple(h1, s1, headers, block);
        }
      } else {
        CoalescedAt(n, headers, blocks, block);
      }
      OnlyFieldsTrans(m0, m1, mem[..], s0, s1, s0);
    }

    /** Coalesces the just freed block b and lists the result. */
    method Release(b: int)
      requires Core() && b in blocks && ListsExcept(headers, blocks, listed, b) && headers[b].free
      modifies `headers, `blocks, `chains, `listed, mem, freeLists
      ensures Core() && ListsFree(headers, blocks, listed)
      ensures LiveBlocks() == old(LiveBlocks())
      ensures OnlyFields(old(mem[..]), mem[..], old(blocks))
      ensures Guarded(old(headers), old(blocks), old(mem[..]), headers, blocks, mem[..], NULL)
      ensures old(Loose(headers, blocks, b)) ==> Coalesced(headers, blocks)
      ensures old(Ample(headers, blocks)) ==> Ample(headers, blocks)
    {
      hide Guarded;
      ghost var h0, m0 := headers, mem[..];
      var block := Coalesce(b);
      ghost var h, m := headers, mem[..];
      InsertFreeBlock(block);
      SameByShape(h, headers, blocks);
      OnlyFieldsTrans(m0, m, mem[..], old(blocks), blocks, old(blocks));
      FieldStoresGuard(mem.Length, base, h, headers, blocks, m, mem[..]);
      GuardedTrans(h0, old(blocks), m0, h, blocks, m, headers, blocks, mem[..], NULL);
    }

    predicate PtrInHeap(ptr: int) {
      HEADER <= ptr < mem.Length
    }

    /** The test of free and realloc: the bytes in front of ptr look like the header of a used block. */
    predicate Accepts(ptr: int)
      reads mem
    {
      PtrInHeap(ptr) && Passes(mem[..], ptr - HEADER)
    }

    /** The test takes ptr for the payload of a live block, and it is not. */
    ghost predicate Misleads(ptr: int)
      reads this, mem
    {
      Accepts(ptr) && ptr - HEADER !in LiveBlocks()
    }

    /** The payload address of a live block is accepted, that of a free one is not; NULL and addresses outside are
        not. */
    lemma TestOfChain(ptr: int)
      requires Valid()
      ensures ptr - HEADER in LiveBlocks() ==> Accepts(ptr)
      ensures ptr - HEADER in blocks && Accepts(ptr) ==> ptr - HEADER in LiveBlocks()
      ensures ptr == NULL || ptr < HEADER || ptr >= mem.Length ==> !Accepts(ptr)
    {
      var b := ptr - HEADER;
      if b in blocks {
        assert WellSized(headers[b], b, mem.Length);
        ChainDecides(mem[..], base, headers, b);
      }
    }

    lemma NothingTouched()
      requires Valid()
      ensures PayloadsKept(mem[..], mem[..], LiveBlocks())
    {
      StoresKeepLive(mem.Length, headers, blocks, mem[..], mem[..], LiveBlocks());
    }

    /** Fills the payload of the live block b and marks it free. */
    method Retire(b: int)
      requires Valid() && b in LiveBlocks()
      modifies `headers, `inUse, mem
      ensures Core() && ListsExcept(headers, blocks, listed, b) && headers[b].free
      ensures headers == old(headers)[b := old(headers)[b].(free := true)]
      ensures LiveBlocks() == old(LiveBlocks()) - {b} && inUse == Footprint(LiveBlocks())
      ensures old(Coalesced(headers, blocks)) ==> Loose(headers, blocks, b)
      ensures Filled(old(mem[..]), mem[..], old(headers), blocks, b)
      ensures Guarded(old(headers), blocks, old(mem[..]), headers, blocks, mem[..], NULL)
      ensures forall k {:trigger MagicAt(mem[..], k)} :: k in blocks ==> MagicAt(mem[..], k)
    {
      ghost var n, h0, m0 := mem.Length, headers, mem[..];
      TiledSpaced(n, headers, blocks);
      BlockStored(n, headers, blocks, b);
      Fill(b + HEADER, SPARE, headers[b].size);
      ghost var m1 := mem[..];
      PayloadApart(n, headers, blocks, b, b + HEADER, End(headers, b));
      ImageElsewhere(m0, m1, base, headers, b + HEADER, End(headers, b));
      inUse := inUse - (headers[b].size + HEADER);
      SetFree(b, true, m1, blocks);
      FieldsAreHeaders(m1, mem[..], blocks);
      UsedSound(n, h0, headers, blocks, listed, freeLists[..], chains, b);
      HandBack(h0, headers, blocks, listed, b);
      if Coalesced(h0, blocks) {
        FreedIsLoose(n, h0, headers, blocks, b);
      }
      ChainMagic(mem[..], base, headers);
      PayloadStoresGuard(n, base, h0, headers, blocks, m0, mem[..], b, true);
    }

    /** Frees the live block b. */
    method FreeBlock(b: int)
      requires Valid() && b in LiveBlocks()
      modifies this, mem, freeLists
      ensures Valid()
      ensures LiveBlocks() == old(LiveBlocks()) - {b}
      ensures AllSpare(mem[..], b + HEADER, b + HEADER + old(LiveBlocks())[b])
      ensures Guarded(old(headers), old(blocks), old(mem[..]), headers, blocks, mem[..], NULL)
      ensures forall k {:trigger MagicAt(mem[..], k)} :: k in old(blocks) ==> MagicAt(mem[..], k)
      ensures PayloadsKept(old(mem[..]), mem[..], LiveBlocks())
      ensures old(Coalesced(headers, blocks)) ==> Coalesced(headers, blocks)
      ensures old(Ample(headers, blocks)) ==> Ample(headers, blocks)
    {
      hide Tiled;
      hide ListsHold;
      hide Imaged;
      hide Coalesced;
      hide Loose;
      hide PayloadsKept;
      hide Guarded;
      ghost var n, h0, s0, m0, live := mem.Length, headers, blocks, mem[..], LiveBlocks();
      BlockStored(n, headers, blocks, b);
      Retire(b);
      ghost var h1, m1 := headers, mem[..];
      TiledSpaced(n, headers, blocks);
      Release(b);
      GuardedTrans(h0, s0, m0, h1, s0, m1, headers, blocks, mem[..], NULL);
      FilledKeeps(n, h0, s0, m0, m1, mem[..], b, live - {b});
      forall k | k in s0 ensures MagicAt(mem[..], k) {
        MagicStays(m1, mem[..], h1, s0, k);
      }
    }

    /** mm_base_free, for a pointer that does not mislead the test. */
    method Free(ptr: int) returns (ok: bool)
      requires Valid() && !Misleads(ptr)
      modifies this, mem, freeLists
      ensures Valid()
      ensures ok == old(Accepts(ptr)) == (ptr - HEADER in old(LiveBlocks()))
      ensures !ok ==> Snap() == old(Snap())
      ensures ok ==> LiveBlocks() == old(LiveBlocks()) - {ptr - HEADER}
      ensures ok ==> AllSpare(mem[..], ptr, ptr + old(LiveBlocks())[ptr - HEADER])
      // every freed pointer is refused until the memory around it is handed out
      ensures Guarded(old(headers), old(blocks), old(mem[..]), headers, blocks, mem[..], NULL)
      ensures ok ==> Sheltered(headers, blocks, mem[..], ptr - HEADER, NULL) && !Accepts(ptr)
      ensures forall k {:trigger MagicAt(mem[..], k)} :: k in old(blocks) ==> MagicAt(mem[..], k)
      ensures PayloadsKept(old(mem[..]), mem[..], LiveBlocks())
      ensures old(Coalesced(headers, blocks)) ==> Coalesced(headers, blocks)
      ensures old(Ample(headers, blocks)) ==> Ample(headers, blocks)
    {
      StoresKeepLive(mem.Length, headers, blocks, mem[..], mem[..], LiveBlocks());
      GuardedSame(mem.Length, headers, blocks, mem[..], NULL);
      TestOfChain(ptr);
      ChainMagic(mem[..], base, headers);
      if !PtrInHeap(ptr) {
        return false;
      }
      if !MagicAt(mem[..], ptr - HEADER) || FreeAt(mem[..], ptr - HEADER) {
        return false;
      }
      FreeBlock(ptr - HEADER);
      return true;
    }

    /** Trims the live block b; the accounting is left to the caller. */
    method TrimBlock(b: int, size: nat)
      requires Core() && ListsFree(headers, blocks, listed) && b in LiveBlocks() && size <= LiveBlocks()[b]
      requires size % ALIGNMENT == 0
      modifies `headers, `blocks, `chains, `listed, mem, freeLists
      ensures Core() && ListsFree(headers, blocks, listed)
      ensures b in LiveBlocks() && LiveBlocks()[b] == headers[b].size == Trimmed(old(LiveBlocks()[b]), size)
      ensures LiveBlocks() == old(LiveBlocks())[b := LiveBlocks()[b]]
      ensures Footprint(LiveBlocks()) + old(LiveBlocks()[b]) == old(Footprint(LiveBlocks())) + LiveBlocks()[b]
      ensures OnlyHeaders(old(mem[..]), mem[..], blocks)
      ensures Guarded(old(headers), old(blocks), old(mem[..]), headers, blocks, mem[..], NULL)
      ensures old(Ample(headers, blocks)) ==> (Ample(headers, blocks) <==> ALIGNMENT <= LiveBlocks()[b])
      ensures Coalesced(headers, blocks) <==> old(TrimsQuietly(headers, blocks, b, size))
    {
      ghost var n, h0, s0, l0 := mem.Length, headers, blocks, listed;
      SplitBlock(b, size);
      Resized(h0, s0, l0, headers, blocks, listed, b);
      assert h0[b := h0[b].(free := false)] == h0;
      KeptGuard(n, base, h0, s0, old(mem[..]), headers, blocks, mem[..], b, NULL);
      if Ample(h0, s0) {
        KeptAmple(h0, s0, headers, blocks, b);
      }
      if h0[b].size >= size + HEADER + MIN_SPLIT_SIZE {
        SplitCoalesced(n, h0, headers, s0, b, size);
      }
    }

    /** The in-place shrinking path of mm_realloc. */
    method ShrinkBlock(b: int, size: nat, ghost elem: nat)
      requires Valid() && b in LiveBlocks() && size <= LiveBlocks()[b]
      requires size == AlignUp(elem) && 0 < elem < SIZE_LIMIT
      modifies this, mem, freeLists
      ensures Valid()
      ensures Reallocated(old(LiveBlocks()), old(mem[..]), LiveBlocks(), mem[..], b + HEADER, elem, b + HEADER)
      ensures Moves(old(Snap()), b, elem, b + HEADER, Snap())
      ensures Guarded(old(headers), old(blocks), old(mem[..]), headers, blocks, mem[..], NULL)
      ensures old(Ample(headers, blocks)) ==> (Ample(headers, blocks) <==> ALIGNMENT <= LiveBlocks()[b])
      ensures Coalesced(headers, blocks) <==> old(TrimsQuietly(headers, blocks, b, size))
    {
      hide Guarded;
      AlignUpRounds(elem);
      BlockStored(mem.Length, headers, blocks, b);
      ghost var s := Snap();
      var oldSize := headers[b].size;
      TrimBlock(b, size);
      inUse := inUse - (oldSize - headers[b].size);
      StoresKeepLive(mem.Length, headers, blocks, old(mem[..]), mem[..], LiveBlocks());
      InPlace(old(LiveBlocks()), old(mem[..]), LiveBlocks(), mem[..], b, elem, LiveBlocks());
      MovedInPlace(s, b, elem, Snap());
    }

    /** The request makes mm_realloc trim the block where it is. */
    ghost predicate Shrinks(ptr: int, elem: nat)
      reads `headers, `blocks
    {
      elem != 0 && ptr != NULL && ptr - HEADER in LiveBlocks() && AlignUp(elem) <= LiveBlocks()[ptr - HEADER]
    }

    /** Lets the live block b absorb its free successor; the accounting is left to the caller. */
    method AnnexNext(b: int)
      requires Valid() && b in LiveBlocks() && headers[b].next in blocks && headers[headers[b].next].free
      modifies `headers, `blocks, `chains, `listed, mem, freeLists
      ensures Core() && ListsFree(headers, blocks, listed) && b in LiveBlocks()
      ensures LiveBlocks()[b] == old(headers[b].size + HEADER + headers[headers[b].next].size)
      ensures LiveBlocks() == old(LiveBlocks())[b := LiveBlocks()[b]]
      ensures Footprint(LiveBlocks()) + old(LiveBlocks()[b]) == old(Footprint(LiveBlocks())) + LiveBlocks()[b]
      ensures OnlyFields(old(mem[..]), mem[..], old(blocks))
      ensures Guarded(old(headers), old(blocks), old(mem[..]), headers, blocks, mem[..], old(headers)[b].next)
      ensures old(Coalesced(headers, blocks)) ==>
                Coalesced(headers, blocks) && NotFree(headers, blocks, headers[b].next)
      ensures old(Ample(headers, blocks)) ==> Ample(headers, blocks)
    {
      hide Guarded;
      ghost var n, h0, s0 := mem.Length, headers, blocks;
      AbsorbNext(b);
      AbsorbedFits(n, h0, headers, s0, blocks, listed, b);
      if Ample(h0, s0) {
        MergedAmple(h0, s0, headers, b);
      }
      if Coalesced(h0, s0) {
        GrownQuiet(n, h0, headers, s0, b);
      }
    }

    /** The in-place growing path of mm_realloc. */
    method GrowBlock(b: int, size: nat, ghost elem: nat)
      requires Valid() && b in LiveBlocks() && LiveBlocks()[b] < size
      requires size == AlignUp(elem) && 0 < elem < SIZE_LIMIT
      requires Extends(headers, blocks, b, size)
      modifies this, mem, freeLists
      ensures Valid()
      ensures Reallocated(old(LiveBlocks()), old(mem[..]), LiveBlocks(), mem[..], b + HEADER, elem, b + HEADER)
      ensures Moves(old(Snap()), b, elem, b + HEADER, Snap())
      ensures Guarded(old(headers), old(blocks), old(mem[..]), headers, blocks, mem[..], old(headers)[b].next)
      ensures old(Coalesced(headers, blocks)) ==> Coalesced(headers, blocks)
      ensures ALIGNMENT <= LiveBlocks()[b] && (old(Ample(headers, blocks)) ==> Ample(headers, blocks))
    {
      hide Tiled;
      hide ListsHold;
      hide Imaged;
      hide PayloadsKept;
      hide Coalesced;
      hide Guarded;
      AlignUpRounds(elem);
      ghost var n, h0, s0, live0, m0, s := mem.Length, headers, blocks, LiveBlocks(), mem[..], Snap();
      BlockStored(n, h0, s0, b);
      var oldSize := headers[b].size;
      AnnexNext(b);
      ghost var h1, s1, live1, m1 := headers, blocks, LiveBlocks(), mem[..];
      TrimBlock(b, size);
      GuardedTrans(h0, s0, m0, h1, s1, m1, headers, blocks, mem[..], h0[b].next);
      inUse := inUse + ((headers[b].size + HEADER) - (oldSize + HEADER));
      ghost var live2 := LiveBlocks();
      assert live2 == live0[b := live2[b]];
      FieldsAreHeaders(m0, m1, s0);
      GrownKeeps(n, h0, s0, headers, blocks, m0, m1, mem[..], b);
      InPlace(live0, m0, live2, mem[..], b, elem, live0);
      MovedInPlace(s, b, elem, Snap());
    }

    /** Copies the first k bytes of b's payload to c's. */
    method CopyPayload(b: int, c: int, k: nat)
      requires Valid() && b in LiveBlocks() && c in LiveBlocks() && b != c
      requires k <= LiveBlocks()[b] && k <= LiveBlocks()[c]
      modifies mem
      ensures Valid()
      ensures SameBytes(old(mem[..]), b + HEADER, mem[..], c + HEADER, k)
      ensures forall i :: 0 <= i < mem.Length && !(c + HEADER <= i < c + HEADER + k) ==> mem[i] == old(mem[i])
      ensures Guarded(headers, blocks, old(mem[..]), headers, blocks, mem[..], NULL)
    {
      ghost var n, h, m := mem.Length, headers, mem[..];
      LiveApart(n, headers, blocks, b, c);
      Copy(c + HEADER, b + HEADER, k);
      PayloadApart(n, headers, blocks, c, c + HEADER, c + HEADER + k);
      ImageElsewhere(m, mem[..], base, headers, c + HEADER, c + HEADER + k);
      assert mem[..][c + HEADER..c + HEADER + k] == m[b + HEADER..b + HEADER + k];
      assert h[c := h[c].(free := false)] == h;
      PayloadStoresGuard(n, base, h, h, blocks, m, mem[..], c, false);
    }

    /** The moving path of mm_realloc: allocate, copy what fits, free. */
    method MoveBlock(b: int, elem: nat) returns (ptr: int)
      requires Valid() && b in LiveBlocks() && elem <= SIZE_LIMIT - ALIGNMENT && LiveBlocks()[b] < elem
      requires !Snap().Roomy(b, elem)
      modifies this, mem, freeLists
      ensures Valid()
      ensures Moves(old(Snap()), b, elem, ptr, Snap())
      ensures ptr != NULL ==>
                && ptr - HEADER !in old(LiveBlocks())
                && Reallocated(old(LiveBlocks()), old(mem[..]), LiveBlocks(), mem[..], b + HEADER, elem, ptr)
      ensures Guarded(old(headers), old(blocks), old(mem[..]), headers, blocks, mem[..], ptr - HEADER)
      ensures old(Coalesced(headers, blocks)) ==> Coalesced(headers, blocks)
      ensures old(Ample(headers, blocks)) ==> Ample(headers, blocks)
      ensures ptr != NULL ==> ALIGNMENT <= LiveBlocks()[ptr - HEADER]
    {
      hide Tiled;
      hide ListsHold;
      hide Imaged;
      hide Coalesced;
      hide Guarded;
      hide Ample;
      hide Moves;
      hide Reallocated;
      hide PayloadsKept;
      hide SameBytes;
      ghost var n, h0, s0, live0, m0, s := mem.Length, headers, blocks, LiveBlocks(), mem[..], Snap();
      var oldSize := headers[b].size;
      ptr := Malloc(elem);
      if ptr == NULL {
        NoneMoved(s, b, elem);
        return;
      }
      AlignUpRounds(elem);
      ghost var s1, m1 := Snap(), mem[..];
      assert ALIGNMENT <= AlignUp(elem) <= LiveBlocks()[ptr - HEADER];
      assert live0[b] <= LiveBlocks()[ptr - HEADER];
      CopyPayload(b, ptr - HEADER, if oldSize < elem then oldSize else elem);
      ghost var h2, blocks2, m2 := headers, blocks, mem[..];
      FreeBlock(b);
      MovedKeeps(n, h2, blocks2, m0, m1, m2, mem[..], b, ptr - HEADER, live0, elem);
      GuardedTrans(h0, s0, m0, h2, blocks2, m1, h2, blocks2, m2, ptr - HEADER);
      GuardedTrans(h0, s0, m0, h2, blocks2, m2, headers, blocks, mem[..], ptr - HEADER);
      MovedElsewhere(s, b, elem, ptr, s1, Snap());
    }

    /** mm_realloc for a live block and a non-zero size. */
    method ReallocLive(b: int, elem: nat) returns (r: int)
      requires Valid() && b in LiveBlocks() && 0 < elem < SIZE_LIMIT
      modifies this, mem, freeLists
      ensures Valid()
      ensures Moves(old(Snap()), b, elem, r, Snap())
      ensures r != NULL ==> Reallocated(old(LiveBlocks()), old(mem[..]), LiveBlocks(), mem[..], b + HEADER, elem, r)
      ensures Guarded(old(headers), old(blocks), old(mem[..]), headers, blocks, mem[..],
                      UsedUp(old(Snap()), b + HEADER, elem, r))
      ensures old(Ample(headers, blocks)) ==>
                (Ample(headers, blocks) <==> r == NULL || ALIGNMENT <= LiveBlocks()[r - HEADER])
      ensures !(AlignUp(elem) <= old(LiveBlocks())[b]) && old(Coalesced(headers, blocks)) ==> Coalesced(headers, blocks)
      ensures AlignUp(elem) <= old(LiveBlocks())[b] ==>
                (Coalesced(headers, blocks) <==>
                 old(TrimsQuietly(headers, blocks, b, AlignUp(elem))))
    {
      hide Guarded;
      hide Moves;
      hide Reallocated;
      hide Coalesced;
      hide TrimsQuietly;
      ghost var n := mem.Length;
      BlockStored(n, headers, blocks, b);
      var oldSize, newSize := headers[b].size, AlignUp(elem);
      if newSize <= oldSize {
        ShrinkBlock(b, newSize, elem);
        return b + HEADER;
      }
      NullIsNoBlock(n, headers, blocks);
      assert NextOk(n, headers, blocks, b);
      var next := headers[b].next;
      if next != NULL && headers[next].free && oldSize + HEADER + headers[next].size >= newSize {
        GrowBlock(b, newSize, elem);
        return b + HEADER;
      }
      RoundedAbove(n, headers, blocks, b, elem);
      r := MoveBlock(b, elem);
    }

    /** mm_realloc. */
    method Realloc(ptr: int, elem: nat) returns (r: int)
      requires Valid() && elem < SIZE_LIMIT && !Misleads(ptr)
      modifies this, mem, freeLists
      ensures Valid()
      // no old block: a plain allocation
      ensures ptr == NULL ==>
                && Allocates(old(Snap()), elem, r, Snap())
                && PayloadsKept(old(mem[..]), mem[..], old(LiveBlocks()))
      // no new size: a plain free
      ensures ptr != NULL && elem == 0 ==>
                && r == NULL && LiveBlocks() == old(LiveBlocks()) - {ptr - HEADER}
                && PayloadsKept(old(mem[..]), mem[..], LiveBlocks())
      // a pointer that is not live is refused, a live block fails exactly when no path has room
      ensures ptr != NULL && elem != 0 ==>
                && Moves(old(Snap()), ptr - HEADER, elem, r, Snap())
                && (r != NULL ==> Reallocated(old(LiveBlocks()), old(mem[..]), LiveBlocks(), mem[..], ptr, elem, r))
      // only the memory that is used up can make a stale pointer pass
      ensures Guarded(old(headers), old(blocks), old(mem[..]), headers, blocks, mem[..],
                      UsedUp(old(Snap()), ptr, elem, r))
      // only the block answered can be too small
      ensures old(Ample(headers, blocks)) ==>
                (Ample(headers, blocks) <==> r == NULL || ALIGNMENT <= LiveBlocks()[r - HEADER])
      // only a trimmed block can end up before a free one
      ensures !old(Shrinks(ptr, elem)) && old(Coalesced(headers, blocks)) ==> Coalesced(headers, blocks)
      ensures old(Shrinks(ptr, elem)) ==>
                (Coalesced(headers, blocks) <==>
                 old(TrimsQuietly(headers, blocks, ptr - HEADER, AlignUp(elem))))
    {
      NothingTouched();
      TestOfChain(ptr);
      if ptr - HEADER !in LiveBlocks() {
        NoneMoved(Snap(), ptr - HEADER, elem);
      }
      NoneAllocated(Snap(), 0);
      GuardedSame(mem.Length, headers, blocks, mem[..], UsedUp(Snap(), ptr, elem, NULL));
      hide Valid;
      hide Core;
      hide Live;
      hide Coalesced;
      hide PayloadsKept;
      hide Guarded;
      hide Reallocated;
      hide Allocates;
      hide Moves;
      hide Extends;
      hide TrimsQuietly;
      hide Ample;
      hide AllSpare;
      hide Sheltered;
      hide OnlyHeaders;
      if ptr == NULL {
        if elem == 0 {
          return NULL;
        }
        AlignUpRounds(elem);
        r := Malloc(elem);
        return;
      }
      if elem == 0 {
        var _ := Free(ptr);
        return NULL;
      }
      if !PtrInHeap(ptr) {
        return NULL;
      }
      if !MagicAt(mem[..], ptr - HEADER) || FreeAt(mem[..], ptr - HEADER) {
        return NULL;
      }
      r := ReallocLive(ptr - HEADER, elem);
    }

    /** A user's store into the payload of a live block. */
    method Poke(ghost b: int, i: int, v: byte)
      requires Valid() && b in LiveBlocks() && b + HEADER <= i < b + HEADER + LiveBlocks()[b]
      modifies mem
      ensures Valid()
      ensures 0 <= i < mem.Length && mem[..] == old(mem[..])[i := v]
      ensures Guarded(headers, blocks, old(mem[..]), headers, blocks, mem[..], NULL)
    {
      ghost var m := mem[..];
      BlockStored(mem.Length, headers, blocks, b);
      mem[i] := v;
      PayloadApart(mem.Length, headers, blocks, b, i, i + 1);
      ImageElsewhere(m, mem[..], base, headers, i, i + 1);
      assert headers[b := headers[b].(free := false)] == headers;
      PayloadStoresGuard(mem.Length, base, headers, headers, blocks, m, mem[..], b, false);
    }
  }
}
