/** What the steps of the allocator of std/mm.c do to chain, free lists, live blocks and bytes. */
module HeapSteps {
  import opened Common
  import opened HeapState
  import opened FreeLists
  import opened BlockChain
  import opened HeapAccounting
  import opened HeapBytes

  const SPARE: byte := 0xDE   // freed payloads are filled with it

  /** The chain tiles the buffer and the lists hold exactly `listed`. */
  ghost predicate Sound(n: int, h: Headers, blocks: set<int>, listed: set<int>, heads: seq<int>,
                        chains: seq<seq<int>>) {
    Tiled(n, h, blocks) && h.Keys == blocks && listed <= blocks && ListsHold(h, heads, chains, listed)
  }

  /** The listed blocks are the free ones. */
  ghost predicate ListsFree(h: Headers, blocks: set<int>, listed: set<int>) {
    forall b <- blocks :: b in h && (b in listed <==> h[b].free)
  }

  /** The block after b is free, and the two together have room for `size` bytes. */
  ghost predicate Extends(h: Headers, blocks: set<int>, b: int, size: nat) {
    && b in h && h[b].next in h && h[b].next in blocks
    && h[h[b].next].free && size <= h[b].size + HEADER + h[h[b].next].size
  }

  /** Every block has at least one unit of payload. */
  ghost predicate Ample(h: Headers, blocks: set<int>) {
    forall b <- blocks :: b in h && ALIGNMENT <= h[b].size
  }

  /** All blocks but b keep their size and free bit; blocks that are new are free and not empty. */
  ghost predicate OthersKept(h: Headers, blocks: set<int>, h': Headers, blocks': set<int>, b: int)
    requires forall k <- blocks :: k in h
  {
    && blocks <= blocks'
    && (forall k <- blocks' :: k in h' && (k !in blocks ==> h'[k].free && MIN_SPLIT_SIZE <= h'[k].size))
    && (forall k <- blocks :: h'[k].free == h[k].free && (k != b ==> h'[k].size == h[k].size))
  }

  /** The size a block keeps when `want` bytes of it are asked for. */
  function Trimmed(size: nat, want: nat): nat {
    if size < want + HEADER + MIN_SPLIT_SIZE then size else want
  }

  /** The block that is cut off then, if any. */
  function Rest(b: int, size: nat, want: nat): set<int> {
    if size < want + HEADER + MIN_SPLIT_SIZE then {} else {b + HEADER + want}
  }

  /** There are no free neighbours, and none appear when b is trimmed to `size` bytes: nothing is cut off, or what is
      cut off touches no free block. */
  ghost predicate TrimsQuietly(h: Headers, blocks: set<int>, b: int, size: nat) {
    b in h && Coalesced(h, blocks) && (h[b].size < size + HEADER + MIN_SPLIT_SIZE || NotFree(h, blocks, h[b].next))
  }

  lemma KeptTrans(h: Headers, blocks: set<int>, h': Headers, h'': Headers, blocks'': set<int>, b: int)
    requires forall k <- blocks :: k in h
    requires OthersKept(h, blocks, h', blocks, b) && OthersKept(h', blocks, h'', blocks'', b)
    ensures OthersKept(h, blocks, h'', blocks'', b)
  {
  }

  /** Handing out or resizing b alone can leave at most b too small. */
  lemma KeptAmple(h: Headers, blocks: set<int>, h': Headers, blocks': set<int>, b: int)
    requires Ample(h, blocks) && b in blocks && OthersKept(h[b := h[b].(free := false)], blocks, h', blocks', b)
    ensures Ample(h', blocks') <==> ALIGNMENT <= h'[b].size
  {
  }

  lemma MergedAmple(h: Headers, blocks: set<int>, h': Headers, b: int)
    requires Ample(h, blocks) && b in blocks && h[b].next in blocks && IsMerge(h, h', blocks, b)
    ensures Ample(h', blocks - {h[b].next})
  {
    forall k | k in blocks - {h[b].next} ensures k in h' && ALIGNMENT <= h'[k].size {
      assert ShapeOf(h'[k]).size == h'[k].size;
    }
  }

  predicate Stored(n: int, h: Headers, a: int) {
    a in h && 0 <= a && a + HEADER <= n
  }

  lemma BlockStored(n: int, h: Headers, blocks: set<int>, b: int)
    requires Tiled(n, h, blocks) && b in blocks
    ensures Stored(n, h, b) && b + HEADER + h[b].size <= n
  {
    assert WellSized(h[b], b, n);
  }

  /** Everything about unlinking b from its list. */
  lemma UnlinkSound(n: int, h: Headers, blocks: set<int>, listed: set<int>, heads: seq<int>, chains: seq<seq<int>>,
                    b: int, i: int) returns (chains': seq<seq<int>>)
    requires Sound(n, h, blocks, listed, heads, chains) && b in listed && InClass(h[b].size, i)
    ensures var p := h[b].prevFree; p != NULL ==> Stored(n, h, p) && p in blocks
    ensures var x := h[b].nextFree; x != NULL ==> Stored(n, h, x) && x in blocks
    ensures SameShape(h, Unlink(h, b))
    ensures Sound(n, Unlink(h, b), blocks, listed - {b},
                  if h[b].prevFree == NULL then heads[i := h[b].nextFree] else heads, chains')
  {
    var j := Locate(h, heads, chains, listed, b, i);
    UnlinkKeepsLists(h, heads, chains, listed, b, i, j);
    NodesOf(h, heads, chains, listed, i);
    var s := chains[i];
    BlockStored(n, h, blocks, b);
    if 0 < j {
      BlockStored(n, h, blocks, s[j - 1]);
    }
    if j + 1 < |s| {
      BlockStored(n, h, blocks, s[j + 1]);
    }
    chains' := chains[i := Without(s, j)];
    assert h[b].prevFree == NULL <==> j == 0;
    TiledByShape(n, h, Unlink(h, b), blocks);
    assert heads[i := heads[i]] == heads;
  }

  /** Everything about pushing the unlisted block b onto its list. */
  lemma PushSound(n: int, h: Headers, blocks: set<int>, listed: set<int>, heads: seq<int>, chains: seq<seq<int>>,
                  b: int, i: int) returns (chains': seq<seq<int>>)
    requires Sound(n, h, blocks, listed, heads, chains) && b in blocks && b !in listed && InClass(h[b].size, i)
    ensures heads[i] != NULL ==> Stored(n, h, heads[i]) && heads[i] in blocks && heads[i] != b
    ensures SameShape(h[b := h[b].(free := true)], Push(h, b, heads[i]))
    ensures Sound(n, Push(h, b, heads[i]), blocks, listed + {b}, heads[i := b], chains')
  {
    BlockStored(n, h, blocks, b);
    PushKeepsLists(h, heads, chains, listed, b, i);
    NodesOf(h, heads, chains, listed, i);
    if chains[i] != [] {
      BlockStored(n, h, blocks, chains[i][0]);
    }
    chains' := chains[i := [b] + chains[i]];
    TiledByShape(n, h, Push(h, b, heads[i]), blocks);
  }

  /** Splitting an unlisted block keeps the lists; the new block is not on any of them yet. */
  lemma SplitSound(n: int, h: Headers, blocks: set<int>, listed: set<int>, heads: seq<int>, chains: seq<seq<int>>,
                   b: int, size: nat)
    requires Sound(n, h, blocks, listed, heads, chains) && b in blocks && b !in listed
    requires size % ALIGNMENT == 0 && size + HEADER + MIN_SPLIT_SIZE <= h[b].size
    ensures b + HEADER + size !in blocks && Stored(n, h, b) && b + HEADER + h[b].size <= n
    ensures forall k {:trigger k in blocks} :: k in blocks ==> Apart(k, b + HEADER + size)
    ensures h[b].next != NULL ==> Stored(n, h, h[b].next) && h[b].next in blocks && End(h, b) <= h[b].next
    ensures IsSplit(h, Split(h, b, size), blocks, b, size)
    ensures Sound(n, Split(h, b, size), blocks + {b + HEADER + size}, listed, heads, chains)
  {
    BlockStored(n, h, blocks, b);
    assert NextOk(n, h, blocks, b);
    if h[b].next != NULL {
      BlockStored(n, h, blocks, h[b].next);
    }
    SplitIsSplit(n, h, blocks, b, size);
    forall k | k in blocks ensures Apart(k, b + HEADER + size) {}
    SplitTiles(n, h, Split(h, b, size), blocks, b, size);
    ListsFrame(h, Split(h, b, size), heads, chains, listed);
  }

  lemma MergeSound(n: int, h: Headers, blocks: set<int>, listed: set<int>, heads: seq<int>, chains: seq<seq<int>>,
                   b: int)
    requires Sound(n, h, blocks, listed, heads, chains) && b in blocks && b !in listed
    requires h[b].next in blocks && h[b].next !in listed
    ensures Stored(n, h, b) && b != h[b].next
    ensures var x := h[h[b].next].next; x != NULL ==> Stored(n, h, x) && x in blocks && x != b
    ensures IsMerge(h, Merge(h, b), blocks, b)
    ensures Sound(n, Merge(h, b), blocks - {h[b].next}, listed, heads, chains)
  {
    BlockStored(n, h, blocks, b);
    var x := h[h[b].next].next;
    assert NextOk(n, h, blocks, h[b].next) && NextOk(n, h, blocks, b);
    if x != NULL {
      BlockStored(n, h, blocks, x);
      BlockStored(n, h, blocks, h[b].next);
    }
    MergeIsMerge(n, h, blocks, b);
    MergeTiles(n, h, Merge(h, b), blocks, b);
    ListsFrame(h, Merge(h, b), heads, chains, listed);
  }

  /** Changing the free bit of an unlisted block leaves the rest alone. */
  lemma UsedSound(n: int, h: Headers, h': Headers, blocks: set<int>, listed: set<int>, heads: seq<int>,
                  chains: seq<seq<int>>, b: int)
    requires Sound(n, h, blocks, listed, heads, chains) && b in blocks && b !in listed
    requires h' == h[b := h[b].(free := !h[b].free)]
    ensures Sound(n, h', blocks, listed, heads, chains)
  {
    TiledByShape(n, h, h', blocks);
    ListsFrame(h, h', heads, chains, listed);
  }

  /** The bytes of one payload lie in no header. */
  lemma PayloadApart(n: int, h: Headers, blocks: set<int>, b: int, lo: int, hi: int)
    requires Tiled(n, h, blocks) && b in blocks && b + HEADER <= lo <= hi <= End(h, b)
    ensures forall k {:trigger k in blocks} :: k in blocks ==> k + HEADER <= lo || hi <= k
  {
    forall k | k in blocks ensures k + HEADER <= lo || hi <= k {
      assert WellSized(h[k], k, n);
      assert k < b ==> Before(h, k, b);
      assert b < k ==> Before(h, b, k);
    }
  }

  /** No block of the first k nodes of s has room. */
  ghost predicate TooSmall(h: Headers, s: seq<int>, k: nat, size: nat) {
    forall j :: 0 <= j < k && j < |s| ==> s[j] in h && h[s[j]].size < size
  }

  /** No list before the i-th has a block with room, nor has the i-th one before its j-th node. */
  ghost predicate Passed(h: Headers, chains: seq<seq<int>>, size: nat, i: int, j: int) {
    && 0 <= i < |chains| && 0 <= j < |chains[i]| && TooSmall(h, chains[i], j, size)
    && forall l :: 0 <= l < i ==> TooSmall(h, chains[l], |chains[l]|, size)
  }

  /** b is the first block with room in the first list, in class order, that has one. */
  ghost predicate FirstFit(h: Headers, chains: seq<seq<int>>, size: nat, b: int) {
    b in h && size <= h[b].size && exists i, j :: Passed(h, chains, size, i, j) && chains[i][j] == b
  }

  /** Lists and sizes decide which block a search finds. */
  lemma FirstFitUnique(h: Headers, chains: seq<seq<int>>, size: nat, b: int, c: int)
    requires FirstFit(h, chains, size, b) && FirstFit(h, chains, size, c)
    ensures b == c
  {
    var i, j :| Passed(h, chains, size, i, j) && chains[i][j] == b;
    var k, l :| Passed(h, chains, size, k, l) && chains[k][l] == c;
  }

  /** Up to the powers of two that end the lists, c is no larger than any free block with room. */
  ghost predicate GoodFit(h: Headers, blocks: set<int>, size: nat, c: int) {
    c in h && forall b, k: nat {:trigger b in blocks, Pow2(k)} ::
      b in blocks && b in h && h[b].free && size <= h[b].size <= 8 * Pow2(k) && k < 31 ==> h[c].size <= 8 * Pow2(k)
  }

  lemma FitsAsWell(h: Headers, heads: seq<int>, chains: seq<seq<int>>, listed: set<int>, size: nat, c: int, b: int,
                   k: nat)
    requires ListsHold(h, heads, chains, listed) && FirstFit(h, chains, size, c) && b in listed && k < 31
    requires b in h && size <= h[b].size <= 8 * Pow2(k)
    ensures h[c].size <= 8 * Pow2(k)
  {
    var i, j :| Passed(h, chains, size, i, j) && chains[i][j] == c;
    assert Filed(h, chains, b);
    var l :| InClass(h[b].size, l) && b in chains[l];
    assert i <= l;
    NodesOf(h, heads, chains, listed, i);
    ListEnds(k);
    ClassesMonotone(h[b].size, 8 * Pow2(k), l, k);
    LimitIsPower(k);
    ClassLimitMonotone(i, k);
  }

  /** The first fit is a good fit. */
  lemma FirstFitIsGood(h: Headers, blocks: set<int>, listed: set<int>, heads: seq<int>, chains: seq<seq<int>>,
                       size: nat, c: int)
    requires ListsHold(h, heads, chains, listed) && FirstFit(h, chains, size, c) && ListsFree(h, blocks, listed)
    ensures GoodFit(h, blocks, size, c)
  {
    forall b, k: nat | b in blocks && b in h && h[b].free && size <= h[b].size <= 8 * Pow2(k) && k < 31
      ensures h[c].size <= 8 * Pow2(k)
    {
      FitsAsWell(h, heads, chains, listed, size, c, b, k);
    }
  }

  /** A good fit is less than twice as large as any free block with room that is not huge. */
  lemma GoodFitFactor(h: Headers, blocks: set<int>, size: nat, c: int, b: int)
    requires GoodFit(h, blocks, size, c) && b in blocks && b in h && h[b].free
    requires size <= h[b].size && 8 <= h[b].size <= 8 * Pow2(30)
    ensures h[c].size < 2 * h[b].size
  {
    var k := ListOf(h[b].size);
    InListOf(h[b].size);
    LimitIsPower(k);
    if k > 0 {
      LimitIsPower(k - 1);
    }
    if k == 31 {
      assert false;
    }
    assert b in blocks && Pow2(k) > 0;
  }

  /** Lists below the class of `size` hold only smaller blocks. */
  lemma LowerLists(h: Headers, heads: seq<int>, chains: seq<seq<int>>, listed: set<int>, size: nat, idx: int, l: int)
    requires ListsHold(h, heads, chains, listed) && InClass(size, idx) && 0 <= l < idx
    ensures TooSmall(h, chains[l], |chains[l]|, size)
  {
    NodesOf(h, heads, chains, listed, l);
    forall j | 0 <= j < |chains[l]| ensures h[chains[l][j]].size < size {
      if h[chains[l][j]].size >= size {
        ClassesMonotone(size, h[chains[l][j]].size, idx, l);
      }
    }
  }

  /** When no list has a block with room, no listed block has room. */
  lemma NoRoom(h: Headers, heads: seq<int>, chains: seq<seq<int>>, listed: set<int>, size: nat, b: int)
    requires ListsHold(h, heads, chains, listed) && b in listed
    requires forall l :: 0 <= l < FREE_LIST_COUNT ==> TooSmall(h, chains[l], |chains[l]|, size)
    ensures b in h && h[b].size < size
  {
    assert Filed(h, chains, b);
    var l :| InClass(h[b].size, l) && b in chains[l];
    assert TooSmall(h, chains[l], |chains[l]|, size);
  }

  /** Handing out the free block b: what is live afterwards. */
  lemma HandOut(h: Headers, blocks: set<int>, listed: set<int>, h': Headers, blocks': set<int>, listed': set<int>,
                b: int)
    requires ListsFree(h, blocks, listed) && listed' == (listed - {b}) + (blocks' - blocks)
    requires forall k <- blocks :: k in h
    requires b in blocks && h[b].free
    requires OthersKept(h[b := h[b].(free := false)], blocks, h', blocks', b)
    ensures Live(h', blocks') == Live(h, blocks)[b := h'[b].size] && b !in Live(h, blocks)
    ensures Footprint(Live(h', blocks')) == Footprint(Live(h, blocks)) + HEADER + h'[b].size
    ensures ListsFree(h', blocks', listed')
  {
    var live := Live(h, blocks);
    forall k | k in blocks' ensures k in h' && (k != b && !h'[k].free ==> k in live && live[k] == h'[k].size) {}
    forall k | k in live ensures k in blocks' && !h'[k].free {}
    LiveIs(h', blocks', live[b := h'[b].size]);
    FootprintAdd(live, b, h'[b].size);
    assert live - {b} == live;
  }

  /** Header stores alone leave every payload that stays live as it was. */
  lemma StoresKeepLive(n: int, h: Headers, blocks: set<int>, m: seq<byte>, m': seq<byte>, live: map<int, nat>)
    requires Tiled(n, h, blocks) && |m| == n && OnlyHeaders(m, m', blocks)
    requires forall c <- live :: c in Live(h, blocks) && Live(h, blocks)[c] == live[c]
    ensures PayloadsKept(m, m', live)
  {
    forall c | c in live ensures Kept(m, m', c, live[c]) {
      HeaderStoresKeep(n, h, blocks, m, m', c);
    }
  }

  /** The listed blocks are the free ones other than c. */
  ghost predicate ListsExcept(h: Headers, blocks: set<int>, listed: set<int>, c: int) {
    forall k <- blocks :: k in h && (k in listed <==> h[k].free && k != c)
  }

  /** What merging c with a free successor means for the user. */
  lemma MergeMeaning(n: int, h: Headers, h': Headers, blocks: set<int>, listed: set<int>, c: int)
    requires Tiled(n, h, blocks) && c in blocks && h[c].next in blocks && IsMerge(h, h', blocks, c)
    requires h[h[c].next].free && ListsExcept(h, blocks, listed, c)
    ensures ListsExcept(h', blocks - {h[c].next}, listed - {h[c].next}, c)
    ensures Live(h', blocks - {h[c].next}) ==
            if h[c].free then Live(h, blocks) else Live(h, blocks)[c := h'[c].size]
  {
    assert NextOk(n, h, blocks, c) && WellSized(h[c], c, n);
    forall k | k in blocks - {h[c].next}
      ensures k in h' && h'[k].free == h[k].free && (k != c ==> h'[k].size == h[k].size)
    {
      assert k in h' && ShapeOf(h'[k]).size == h'[k].size && ShapeOf(h'[k]).free == h'[k].free;
    }
    LiveIs(h', blocks - {h[c].next}, if h[c].free then Live(h, blocks) else Live(h, blocks)[c := h'[c].size]);
  }

  /** The same when c's predecessor p absorbs c. */
  lemma AbsorbedMeaning(n: int, h: Headers, h': Headers, blocks: set<int>, listed: set<int>, p: int, c: int)
    requires Tiled(n, h, blocks) && p in blocks && c in blocks && h[p].next == c && IsMerge(h, h', blocks, p)
    requires h[p].free && h[c].free && ListsExcept(h, blocks, listed, c)
    ensures ListsExcept(h', blocks - {c}, listed - {p}, p)
    ensures Live(h', blocks - {c}) == Live(h, blocks)
  {
    assert NextOk(n, h, blocks, p) && WellSized(h[p], p, n);
    forall k | k in blocks - {c} ensures k in h' && h'[k].free == h[k].free && (k != p ==> h'[k].size == h[k].size) {
      assert k in h' && ShapeOf(h'[k]).size == h'[k].size && ShapeOf(h'[k]).free == h'[k].free;
    }
    LiveIs(h', blocks - {c}, Live(h, blocks));
  }

  /** c may touch free blocks, but those touch no further ones. */
  ghost predicate Loose(h: Headers, blocks: set<int>, c: int)
    requires forall k <- blocks :: k in h
    requires c in blocks
  {
    && CoalescedBut(h, blocks, c)
    && (h[c].prev in blocks && h[h[c].prev].free ==> NotFree(h, blocks, h[h[c].prev].prev))
    && (h[c].next in blocks && h[h[c].next].free ==> NotFree(h, blocks, h[h[c].next].next))
  }

  /** Freeing a used block of a coalesced heap leaves it loose. */
  lemma FreedIsLoose(n: int, h: Headers, h': Headers, blocks: set<int>, b: int)
    requires Tiled(n, h, blocks) && b in blocks && !h[b].free && Coalesced(h, blocks)
    requires forall k <- blocks :: k in h' && ShapeOf(h'[k]) == ShapeOf(h[k]).(free := k == b || h[k].free)
    ensures Loose(h', blocks, b)
  {
    assert NextOk(n, h, blocks, b) && PrevOk(h, blocks, b) && WellSized(h[b], b, n);
    NullIsNoBlock(n, h, blocks);
    forall k | k in blocks
      ensures h'[k].free == (k == b || h[k].free) && h'[k].next == h[k].next && h'[k].prev == h[k].prev
    {
      assert ShapeOf(h'[k]).free == h'[k].free && ShapeOf(h'[k]).next == h'[k].next;
      assert ShapeOf(h'[k]).prev == h'[k].prev;
    }
    var p, x := h[b].prev, h[b].next;
    if p in blocks {
      assert PrevOk(h, blocks, p) && WellSized(h[p], p, n);
    }
    if x in blocks {
      assert NextOk(n, h, blocks, x) && WellSized(h[x], x, n);
    }
  }

  lemma LooseAfterPrev(n: int, h: Headers, h': Headers, blocks: set<int>, p: int, b: int)
    requires Tiled(n, h, blocks) && p in blocks && b in blocks && h[p].next == b && h[b].prev == p
    requires IsMerge(h, h', blocks, p) && h[p].free && Loose(h, blocks, b)
    ensures Loose(h', blocks - {b}, p) && NotFree(h', blocks - {b}, h'[p].prev)
  {
    MergeCoalesced(n, h, h', blocks, p);
    assert NextOk(n, h, blocks, b) && PrevOk(h, blocks, p) && NextOk(n, h, blocks, p) && WellSized(h[p], p, n);
    NullIsNoBlock(n, h, blocks);
    var x := h[b].next;
    assert h'[p].next == x by {
      assert ShapeOf(h'[p]).next == h[b].next;
    }
    if x in blocks {
      assert NextOk(n, h, blocks, x) && WellSized(h[b], b, n) && WellSized(h[x], x, n);
      assert ShapeOf(h'[x]).free == h[x].free && ShapeOf(h'[x]).next == h[x].next;
      if h[x].next in blocks {
        assert ShapeOf(h'[h[x].next]).free == h[h[x].next].free;
      }
    }
  }

  lemma SettledAfterNext(n: int, h: Headers, h': Headers, blocks: set<int>, b: int)
    requires Tiled(n, h, blocks) && b in blocks && h[b].next in blocks && h[h[b].next].free
    requires IsMerge(h, h', blocks, b) && Loose(h, blocks, b) && NotFree(h, blocks, h[b].prev)
    ensures Coalesced(h', blocks - {h[b].next})
  {
    MergeCoalesced(n, h, h', blocks, b);
    assert NextOk(n, h, blocks, b) && WellSized(h[b], b, n);
    MergeTiles(n, h, h', blocks, b);
    CoalescedAt(n, h', blocks - {h[b].next}, b);
  }

  /** Marking the live block b free: what is live afterwards. */
  lemma HandBack(h: Headers, h': Headers, blocks: set<int>, listed: set<int>, b: int)
    requires ListsFree(h, blocks, listed) && b in blocks && !h[b].free
    requires forall k <- blocks :: k in h' && h'[k] == if k == b then h[k].(free := true) else h[k]
    ensures ListsExcept(h', blocks, listed, b)
    ensures Live(h', blocks) == Live(h, blocks) - {b}
    ensures Footprint(Live(h, blocks)) == Footprint(Live(h', blocks)) + HEADER + h[b].size
  {
    forall k | k in blocks ensures k in h' && h'[k].size == h[k].size && (k != b ==> h'[k].free == h[k].free) {
      assert k in h';
    }
    var live := Live(h, blocks);
    LiveIs(h', blocks, live - {b});
    FootprintRemove(live, b);
  }

  /** Every byte from lo up to hi is the filler of freed memory. */
  ghost predicate AllSpare(m: seq<byte>, lo: int, hi: int) {
    0 <= lo && hi <= |m| && forall i :: lo <= i < hi ==> m[i] == SPARE
  }

  /** m1 is m with the payload of b filled, but for header fields. */
  ghost predicate Filled(m: seq<byte>, m1: seq<byte>, h: Headers, blocks: set<int>, b: int)
    requires b in h
  {
    && |m1| == |m|
    && forall i :: 0 <= i < |m| && m1[i] != (if b + HEADER <= i < End(h, b) then SPARE else m[i]) ==>
         InHeader(blocks, i)
  }

  /** Filling one payload and storing header fields keeps every other payload. */
  lemma FilledKeeps(n: int, h: Headers, blocks: set<int>, m: seq<byte>, m1: seq<byte>, m2: seq<byte>, b: int,
                    live: map<int, nat>)
    requires Tiled(n, h, blocks) && |m| == n && b in blocks
    requires Filled(m, m1, h, blocks, b) && OnlyFields(m1, m2, blocks)
    requires live == Live(h, blocks) - {b}
    ensures PayloadsKept(m, m2, live)
    ensures AllSpare(m2, b + HEADER, End(h, b))
  {
    FieldsAreHeaders(m1, m2, blocks);
    assert WellSized(h[b], b, n);
    forall i | b + HEADER <= i < End(h, b) ensures m2[i] == SPARE {
      PayloadsDisjoint(n, h, blocks, b, i);
    }
    forall c | c in live ensures Kept(m, m2, c, live[c]) {
      assert WellSized(h[c], c, n);
      forall i | c + HEADER <= i < End(h, c) ensures m2[i] == m[i] {
        PayloadsDisjoint(n, h, blocks, c, i);
      }
    }
  }

  /** Giving the live block b another size. */
  lemma Resized(h: Headers, blocks: set<int>, listed: set<int>, h': Headers, blocks': set<int>, listed': set<int>,
                b: int)
    requires ListsFree(h, blocks, listed) && listed' == listed + (blocks' - blocks)
    requires b in blocks && !h[b].free && OthersKept(h, blocks, h', blocks', b)
    ensures ListsFree(h', blocks', listed')
    ensures Live(h', blocks') == Live(h, blocks)[b := h'[b].size]
    ensures Footprint(Live(h', blocks')) + h[b].size == Footprint(Live(h, blocks)) + h'[b].size
  {
    var live := Live(h, blocks);
    forall k | k in blocks' ensures k in h' && (k != b && !h'[k].free ==> k in live && live[k] == h'[k].size) {}
    forall k | k in live ensures k in blocks' && !h'[k].free {}
    LiveIs(h', blocks', live[b := h'[b].size]);
    FootprintAdd(live, b, h'[b].size);
    FootprintRemove(live, b);
  }

  /** Stores into the payload of b keep every other payload. */
  lemma PayloadStoresKeep(n: int, h: Headers, blocks: set<int>, m: seq<byte>, m': seq<byte>, b: int,
                          live: map<int, nat>)
    requires Tiled(n, h, blocks) && |m| == |m'| == n && b in blocks
    requires forall i :: 0 <= i < n && !(b + HEADER <= i < End(h, b)) ==> m'[i] == m[i]
    requires forall c <- live :: c != b && c in Live(h, blocks) && Live(h, blocks)[c] == live[c]
    ensures PayloadsKept(m, m', live)
  {
    forall c | c in live ensures Kept(m, m', c, live[c]) {
      assert WellSized(h[c], c, n);
      forall i | c + HEADER <= i < End(h, c) ensures m'[i] == m[i] {
        PayloadsDisjoint(n, h, blocks, c, i);
      }
    }
  }

  /** Absorbing the free successor of a used block of a coalesced heap. */
  lemma GrownQuiet(n: int, h: Headers, h': Headers, blocks: set<int>, b: int)
    requires Tiled(n, h, blocks) && Coalesced(h, blocks) && b in blocks && !h[b].free
    requires h[b].next in blocks && h[h[b].next].free && IsMerge(h, h', blocks, b)
    ensures Coalesced(h', blocks - {h[b].next}) && NotFree(h', blocks - {h[b].next}, h'[b].next)
  {
    CoalescedAt(n, h, blocks, b);
    MergeCoalesced(n, h, h', blocks, b);
    MergeTiles(n, h, h', blocks, b);
    assert ShapeOf(h'[b]).free == h[b].free;
    CoalescedAt(n, h', blocks - {h[b].next}, b);
  }

  lemma AbsorbedFits(n: int, h: Headers, h': Headers, blocks: set<int>, blocks': set<int>, listed': set<int>, b: int)
    requires Tiled(n, h, blocks) && b in blocks && !h[b].free && h[b].next in blocks && h[h[b].next].free
    requires IsMerge(h, h', blocks, b) && blocks' == blocks - {h[b].next} && ListsExcept(h', blocks', listed', b)
    ensures b in blocks' && !h'[b].free && h'[b].size == h[b].size + HEADER + h[h[b].next].size
    ensures ListsFree(h', blocks', listed')
    ensures b in Live(h, blocks)
    ensures Footprint(Live(h, blocks)[b := h'[b].size]) + h[b].size == Footprint(Live(h, blocks)) + h'[b].size
  {
    assert ShapeOf(h'[b]).free == h'[b].free && ShapeOf(h'[b]).size == h'[b].size;
    var live := Live(h, blocks);
    FootprintAdd(live, b, h'[b].size);
    FootprintRemove(live, b);
  }

  /** Header stores of the old tiling and then of the new one keep what was live. */
  lemma GrownKeeps(n: int, h: Headers, blocks: set<int>, h': Headers, blocks': set<int>,
                   m: seq<byte>, m1: seq<byte>, m2: seq<byte>, b: int)
    requires Tiled(n, h, blocks) && Tiled(n, h', blocks') && |m| == n
    requires OnlyHeaders(m, m1, blocks) && OnlyHeaders(m1, m2, blocks')
    requires b in Live(h, blocks) && b in Live(h', blocks') && h[b].size <= h'[b].size
    requires Live(h', blocks') == Live(h, blocks)[b := h'[b].size]
    ensures PayloadsKept(m, m2, Live(h, blocks))
  {
    var live, live' := Live(h, blocks), Live(h', blocks');
    forall c | c in live ensures Kept(m, m2, c, live[c]) {
      HeaderStoresKeep(n, h, blocks, m, m1, c);
      assert c in live' && live[c] <= live'[c];
      HeaderStoresKeep(n, h', blocks', m1, m2, c);
    }
  }

  /** m' holds at q the k bytes that m holds at p. */
  ghost predicate SameBytes(m: seq<byte>, p: int, m': seq<byte>, q: int, k: nat) {
    0 <= p && p + k <= |m| && 0 <= q && q + k <= |m'| && m'[q..q + k] == m[p..p + k]
  }

  lemma LiveApart(n: int, h: Headers, blocks: set<int>, b: int, c: int)
    requires Tiled(n, h, blocks) && b in blocks && c in blocks && b != c
    ensures 0 <= b && End(h, b) <= n && 0 <= c && End(h, c) <= n
    ensures End(h, b) <= c || End(h, c) <= b
  {
    assert WellSized(h[b], b, n) && WellSized(h[c], c, n);
    assert b < c ==> Before(h, b, c);
    assert c < b ==> Before(h, c, b);
  }

  /** The live block behind ptr became the one behind r: it has room for `elem` bytes, holds the
      first bytes of the old one, and no other live block changed. */
  ghost predicate Reallocated(live: map<int, nat>, m: seq<byte>, live': map<int, nat>, m': seq<byte>, ptr: int,
                              elem: nat, r: int)
    requires ptr - HEADER in live
  {
    var b, c := ptr - HEADER, r - HEADER;
    && c in live' && (c == b || c !in live)
    && AlignUp(elem) <= live'[c] < AlignUp(elem) + HEADER + MIN_SPLIT_SIZE
    && live' == (live - {b})[c := live'[c]]
    && SameBytes(m, ptr, m', r, Min(Min(live[b], elem), live'[c]))
    && PayloadsKept(m, m', live - {b})
  }

  /** Keeping more bytes keeps fewer. */
  lemma KeptLess(m: seq<byte>, m': seq<byte>, c: int, size: nat, k: nat)
    requires Kept(m, m', c, size) && k <= size
    ensures SameBytes(m, c + HEADER, m', c + HEADER, k)
  {
  }

  lemma InPlace(live: map<int, nat>, m: seq<byte>, live': map<int, nat>, m': seq<byte>, b: int, elem: nat,
                kept: map<int, nat>)
    requires b in live && b in live' && live' == live[b := live'[b]]
    requires AlignUp(elem) <= live'[b] < AlignUp(elem) + HEADER + MIN_SPLIT_SIZE
    requires PayloadsKept(m, m', kept) && kept.Keys == live.Keys
    requires b in kept && forall c <- kept :: c != b ==> kept[c] == live[c]
    requires Min(Min(live[b], elem), live'[b]) <= kept[b]
    ensures Reallocated(live, m, live', m', b + HEADER, elem, b + HEADER)
  {
    var k := Min(Min(live[b], elem), live'[b]);
    assert Kept(m, m', b, kept[b]);
    KeptLess(m, m', b, kept[b], k);
    forall c | c in live - {b} ensures Kept(m, m', c, (live - {b})[c]) {
      assert c in kept && Kept(m, m', c, kept[c]);
    }
    assert live' == (live - {b})[b := live'[b]];
  }

  /** A block smaller than the rounded size is smaller than the size itself. */
  lemma RoundedAbove(n: int, h: Headers, blocks: set<int>, b: int, elem: nat)
    requires Tiled(n, h, blocks) && b in blocks && elem < SIZE_LIMIT && h[b].size < AlignUp(elem)
    ensures h[b].size < elem <= SIZE_LIMIT - ALIGNMENT
  {
    AlignUpRounds(elem);
    assert WellSized(h[b], b, n);
  }

  lemma NullNotLive(n: int, h: Headers, blocks: set<int>)
    requires Tiled(n, h, blocks)
    ensures NULL - HEADER !in blocks
  {
    assert NULL - HEADER in blocks ==> WellSized(h[NULL - HEADER], NULL - HEADER, n);
  }

  lemma KeptThrough(m: seq<byte>, m1: seq<byte>, m2: seq<byte>, m3: seq<byte>,
                    live: map<int, nat>, live1: map<int, nat>, live2: map<int, nat>)
    requires PayloadsKept(m, m1, live1) && PayloadsKept(m1, m2, live) && PayloadsKept(m2, m3, live2)
    requires forall d <- live :: d in live1 && d in live2 && live1[d] == live2[d] == live[d]
    ensures PayloadsKept(m, m3, live)
  {
    forall d | d in live ensures Kept(m, m3, d, live[d]) {
      assert Kept(m, m1, d, live1[d]);
      assert Kept(m1, m2, d, live[d]);
      assert Kept(m2, m3, d, live2[d]);
    }
  }

  /** What the moving path does to the bytes: m -> (malloc) m1 -> (copy) m2 -> (free) m3. */
  lemma MovedKeeps(n: int, h: Headers, blocks: set<int>, m: seq<byte>, m1: seq<byte>, m2: seq<byte>, m3: seq<byte>,
                   b: int, c: int, live: map<int, nat>, elem: nat)
    requires Tiled(n, h, blocks) && |m1| == |m2| == n && c in Live(h, blocks) && c !in live && b in live
    requires Live(h, blocks) == live[c := Live(h, blocks)[c]] && live[b] <= h[c].size
    requires PayloadsKept(m, m1, live) && PayloadsKept(m2, m3, Live(h, blocks) - {b})
    requires forall i :: 0 <= i < n && !(c + HEADER <= i < c + HEADER + live[b]) ==> m2[i] == m1[i]
    requires SameBytes(m1, b + HEADER, m2, c + HEADER, live[b])
    requires live[b] <= elem && AlignUp(elem) <= h[c].size < AlignUp(elem) + HEADER + MIN_SPLIT_SIZE
    ensures Reallocated(live, m, Live(h, blocks) - {b}, m3, b + HEADER, elem, c + HEADER)
  {
    var live1 := Live(h, blocks);
    assert live1 - {b} == (live - {b})[c := live1[c]];
    PayloadStoresKeep(n, h, blocks, m1, m2, c, live - {b});
    KeptThrough(m, m1, m2, m3, live - {b}, live, live1 - {b});
    assert Kept(m, m1, b, live[b]);
    assert Kept(m2, m3, c, (live1 - {b})[c]);
    KeptLess(m, m1, b, live[b], live[b]);
    KeptLess(m2, m3, c, live1[c], live[b]);
  }

  lemma SameByShape(h: Headers, h': Headers, blocks: set<int>)
    requires forall k <- blocks :: k in h && k in h' && ShapeOf(h'[k]) == ShapeOf(h[k])
    ensures Live(h', blocks) == Live(h, blocks)
    ensures Coalesced(h', blocks) == Coalesced(h, blocks)
  {
    forall k | k in blocks
      ensures k in h' && h'[k].free == h[k].free && h'[k].size == h[k].size && h'[k].next == h[k].next
    {
      assert k in h' && ShapeOf(h'[k]).size == h'[k].size && ShapeOf(h'[k]).free == h'[k].free;
      assert ShapeOf(h'[k]).next == h'[k].next;
    }
    LiveIs(h', blocks, Live(h, blocks));
  }

  /** The buffer as mm_init first describes it, before the block is listed. */
  lemma FirstBlock(n: int, h: Headers, heads: seq<int>, chains: seq<seq<int>>)
    requires HEADER + ALIGNMENT <= n && n % ALIGNMENT == 0
    requires h == map[0 := Header(n - HEADER, true, NULL, NULL, NULL, NULL)]
    requires |heads| == |chains| == FREE_LIST_COUNT
    requires forall i :: 0 <= i < FREE_LIST_COUNT ==> heads[i] == NULL && chains[i] == []
    ensures Sound(n, h, {0}, {}, heads, chains) && Coalesced(h, {0})
    ensures Live(h, {0}) == map[] && Footprint(map[]) == 0
  {
    assert WellSized(h[0], 0, n) && NextOk(n, h, {0}, 0) && PrevOk(h, {0}, 0);
    forall i | 0 <= i < FREE_LIST_COUNT ensures ListOk(h, heads[i], chains[i], i, {}) {
      assert chains[i] == [];
    }
  }
}
