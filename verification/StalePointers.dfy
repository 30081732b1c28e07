/** Why a pointer that was freed is refused until the memory around it is handed out again. */
module StalePointers {
  import opened HeapState
  import opened BlockChain
  import opened HeapAccounting
  import opened HeapBytes
  import opened HeapSteps

  /** Place b is the header of the free block f, or a place for a header in the payload of f. */
  predicate Shelters(h: Headers, f: int, b: int) {
    f in h && h[f].free && (b == f || f + HEADER <= b) && b + HEADER <= End(h, f)
  }

  /** The bytes at b read as the header of a free block. */
  predicate Stale(m: seq<byte>, b: int) {
    MagicAt(m, b) && FreeAt(m, b)
  }

  /** So they do, and a free block other than c shelters them. */
  ghost predicate Sheltered(h: Headers, blocks: set<int>, m: seq<byte>, b: int, c: int) {
    Stale(m, b) && exists f :: f in blocks && f != c && Shelters(h, f, b)
  }

  /** What is sheltered by a block other than c stays sheltered, and what ceases to be live becomes so. */
  ghost predicate Guarded(h: Headers, blocks: set<int>, m: seq<byte>, h': Headers, blocks': set<int>, m': seq<byte>,
                          c: int) {
    && (forall b {:trigger Sheltered(h, blocks, m, b, c)} :: Sheltered(h, blocks, m, b, c) ==>
          Sheltered(h', blocks', m', b, NULL))
    && (forall b :: b in Live(h, blocks) && b !in Live(h', blocks') ==> Sheltered(h', blocks', m', b, NULL))
  }

  /** The free block g takes in what f was. */
  predicate Covers(h: Headers, h': Headers, f: int, g: int)
    requires f in h
  {
    g in h' && h'[g].free && (g == f || g + HEADER <= f) && End(h, f) <= End(h', g)
  }

  /** One place: if its bytes stay while it is no header of the chain, it is sheltered by whatever covers its block. */
  lemma Moved(n: int, base: nat, h: Headers, h': Headers, blocks': set<int>, m: seq<byte>, m': seq<byte>,
              f: int, g: int, b: int)
    requires Tiled(n, h', blocks') && Imaged(m', base, h') && g in blocks' && |m| == |m'| == n
    requires Stale(m, b) && Shelters(h, f, b) && Covers(h, h', f, g)
    requires b !in blocks' ==> Stale(m', b)
    ensures Sheltered(h', blocks', m', b, NULL)
  {
    assert WellSized(h'[g], g, n);
    if b in blocks' {
      assert WellSized(h'[b], b, n);
      assert g < b ==> Before(h', g, b);
      assert HeaderAt(m', base, b, h'[b]);
    }
    assert Shelters(h', g, b);
  }

  /** Header stores do not reach the payload of a free block that g covers. */
  lemma PayloadStays(n: int, h: Headers, blocks: set<int>, m: seq<byte>, h': Headers, blocks': set<int>, m': seq<byte>,
                     f: int, g: int, i: int)
    requires Tiled(n, h, blocks) && Tiled(n, h', blocks') && OnlyHeaders(m, m', blocks + blocks') && |m| == n
    requires f in blocks && g in blocks' && Covers(h, h', f, g) && f + HEADER <= i < End(h, f)
    ensures 0 <= i < n && m'[i] == m[i]
  {
    assert WellSized(h'[g], g, n) && WellSized(h[f], f, n);
    PayloadsDisjoint(n, h, blocks, f, i);
    PayloadsDisjoint(n, h', blocks', g, i);
    assert !InHeader(blocks + blocks', i);
  }

  /** Header stores of the old and the new tiling: every free block but c must be covered, and one that is no block
      of the chain any more must still read as free. */
  lemma StoresGuard(n: int, base: nat, h: Headers, blocks: set<int>, m: seq<byte>,
                    h': Headers, blocks': set<int>, m': seq<byte>, c: int)
    requires Tiled(n, h, blocks) && Tiled(n, h', blocks') && Imaged(m', base, h') && |m| == n
    requires OnlyHeaders(m, m', blocks + blocks')
    requires forall f <- blocks :: h[f].free && f != c ==>
               (f !in blocks' ==> Stale(m', f)) && exists g :: g in blocks' && Covers(h, h', f, g)
    requires forall b :: b in Live(h, blocks) ==> b in Live(h', blocks')
    ensures Guarded(h, blocks, m, h', blocks', m', c)
  {
    forall b | Sheltered(h, blocks, m, b, c) ensures Sheltered(h', blocks', m', b, NULL) {
      var f :| f in blocks && f != c && Shelters(h, f, b);
      var g :| g in blocks' && Covers(h, h', f, g);
      if b !in blocks' && b != f {
        forall i | b <= i < b + HEADER ensures m'[i] == m[i] {
          PayloadStays(n, h, blocks, m, h', blocks', m', f, g, i);
        }
      }
      Moved(n, base, h, h', blocks', m, m', f, g, b);
    }
  }

  /** Handing out the free block c, or trimming a live block: all other free blocks stay as they are. */
  lemma KeptGuard(n: int, base: nat, h: Headers, blocks: set<int>, m: seq<byte>,
                  h': Headers, blocks': set<int>, m': seq<byte>, b: int, c: int)
    requires Tiled(n, h, blocks) && Tiled(n, h', blocks') && Imaged(m', base, h') && |m| == n && b in blocks
    requires OnlyHeaders(m, m', blocks') && OthersKept(h[b := h[b].(free := false)], blocks, h', blocks', b)
    requires h[b].free ==> b == c
    ensures Guarded(h, blocks, m, h', blocks', m', c)
  {
    assert blocks + blocks' == blocks';
    forall f | f in blocks && h[f].free && f != c ensures f in blocks' && Covers(h, h', f, f) {}
    forall k | k in Live(h, blocks) ensures k in Live(h', blocks') {
      assert k in blocks';
    }
    StoresGuard(n, base, h, blocks, m, h', blocks', m', c);
  }

  /** Merging b with its successor x: if b is free it covers both, else x is used up. */
  lemma MergeGuard(n: int, base: nat, h: Headers, blocks: set<int>, m: seq<byte>, h': Headers, m': seq<byte>, b: int)
    requires Tiled(n, h, blocks) && b in blocks && h[b].next in blocks && IsMerge(h, h', blocks, b)
    requires var blocks' := blocks - {h[b].next}; Tiled(n, h', blocks') && Imaged(m', base, h')
    requires |m| == n && OnlyFields(m, m', blocks) && h[h[b].next].free && Stale(m', h[b].next)
    ensures Guarded(h, blocks, m, h', blocks - {h[b].next}, m', if h[b].free then NULL else h[b].next)
  {
    var x := h[b].next;
    var blocks' := blocks - {x};
    FieldsAreHeaders(m, m', blocks);
    assert blocks + blocks' == blocks;
    assert NextOk(n, h, blocks, b) && WellSized(h[b], b, n);
    forall k | k in blocks' ensures k in h' && h'[k].free == h[k].free && h[k].size <= h'[k].size {
      assert ShapeOf(h'[k]).free == h'[k].free && ShapeOf(h'[k]).size == h'[k].size;
    }
    assert h'[b].size == h[b].size + HEADER + h[x].size by {
      assert ShapeOf(h'[b]).size == h'[b].size;
    }
    var c := if h[b].free then NULL else x;
    forall f | f in blocks && h[f].free && f != c ensures exists g :: g in blocks' && Covers(h, h', f, g) {
      assert Covers(h, h', f, if f == x then b else f);
    }
    StoresGuard(n, base, h, blocks, m, h', blocks', m', c);
  }

  /** Stores that leave sizes, order and free bits alone. */
  lemma FieldStoresGuard(n: int, base: nat, h: Headers, h': Headers, blocks: set<int>, m: seq<byte>, m': seq<byte>)
    requires Tiled(n, h, blocks) && Tiled(n, h', blocks) && Imaged(m', base, h')
    requires |m| == n && OnlyFields(m, m', blocks)
    requires forall k <- blocks :: k in h && k in h' && ShapeOf(h'[k]) == ShapeOf(h[k])
    ensures Guarded(h, blocks, m, h', blocks, m', NULL)
  {
    FieldsAreHeaders(m, m', blocks);
    assert blocks + blocks == blocks;
    forall k | k in blocks ensures k in h' && h'[k].free == h[k].free && h[k].size == h'[k].size {
      assert ShapeOf(h'[k]).free == h'[k].free && ShapeOf(h'[k]).size == h'[k].size;
    }
    forall f | f in blocks && h[f].free ensures Covers(h, h', f, f) {}
    StoresGuard(n, base, h, blocks, m, h', blocks, m', NULL);
  }

  /** Stores into the payload of the live block x, which may become free. */
  lemma PayloadStoresGuard(n: int, base: nat, h: Headers, h': Headers, blocks: set<int>, m: seq<byte>, m': seq<byte>,
                           x: int, free: bool)
    requires Tiled(n, h, blocks) && x in blocks && !h[x].free && h' == h[x := h[x].(free := free)]
    requires Tiled(n, h', blocks) && Imaged(m', base, h') && |m| == |m'| == n
    requires forall i :: 0 <= i < n && m'[i] != m[i] ==> InHeader(blocks, i) || x + HEADER <= i < End(h, x)
    ensures Guarded(h, blocks, m, h', blocks, m', NULL)
  {
    forall b | Sheltered(h, blocks, m, b, NULL) ensures Sheltered(h', blocks, m', b, NULL) {
      var f :| f in blocks && f != NULL && Shelters(h, f, b);
      if b != f {
        forall i | b <= i < b + HEADER ensures m'[i] == m[i] {
          PayloadsDisjoint(n, h, blocks, f, i);
        }
      }
      assert Covers(h, h', f, f);
      Moved(n, base, h, h', blocks, m, m', f, f, b);
    }
    if free {
      NullIsNoBlock(n, h, blocks);
      assert WellSized(h[x], x, n);
      assert HeaderAt(m', base, x, h'[x]);
      assert Shelters(h', x, x);
    }
  }

  lemma GuardedTrans(h: Headers, blocks: set<int>, m: seq<byte>, h1: Headers, blocks1: set<int>, m1: seq<byte>,
                     h2: Headers, blocks2: set<int>, m2: seq<byte>, c: int)
    requires Guarded(h, blocks, m, h1, blocks1, m1, c) && Guarded(h1, blocks1, m1, h2, blocks2, m2, NULL)
    ensures Guarded(h, blocks, m, h2, blocks2, m2, c)
  {
  }

  lemma GuardedSame(n: int, h: Headers, blocks: set<int>, m: seq<byte>, c: int)
    requires Tiled(n, h, blocks)
    ensures Guarded(h, blocks, m, h, blocks, m, c)
  {
    NullIsNoBlock(n, h, blocks);
  }

  /** What is sheltered fails the test, and is no live block. */
  lemma ShelteredIsRefused(n: int, h: Headers, blocks: set<int>, m: seq<byte>, b: int)
    requires Tiled(n, h, blocks) && Sheltered(h, blocks, m, b, NULL)
    ensures !Passes(m, b) && b !in Live(h, blocks)
  {
    var f :| f in blocks && f != NULL && Shelters(h, f, b);
    assert b in blocks && f < b ==> Before(h, f, b);
  }

  // ---- handing out the block that shelters a place ----

  /** The header fields that are words are multiples of 8. */
  ghost predicate AlignedWords(base: nat, hd: Header) {
    forall i: nat {:trigger IsWord(i)} :: IsWord(i) ==> Word(base, hd, i) % ALIGNMENT == 0
  }

  lemma LinkAligned(n: int, base: nat, h: Headers, blocks: set<int>, k: int)
    requires Tiled(n, h, blocks) && base % ALIGNMENT == 0 && (k == NULL || k in blocks)
    ensures Raw(base, k) % ALIGNMENT == 0
  {
    assert k in blocks ==> WellSized(h[k], k, n);
  }

  /** Blocks and sizes are aligned, so all that a listed block's header holds is. */
  lemma ListedIsAligned(n: int, base: nat, h: Headers, blocks: set<int>, listed: set<int>, heads: seq<int>,
                        chains: seq<seq<int>>, a: int)
    requires Sound(n, h, blocks, listed, heads, chains) && a in listed && base % ALIGNMENT == 0
    ensures AlignedWords(base, h[a])
  {
    assert WellSized(h[a], a, n) && NextOk(n, h, blocks, a) && PrevOk(h, blocks, a);
    assert Filed(h, chains, a);
    var i :| InClass(h[a].size, i) && a in chains[i];
    assert ListOk(h, heads[i], chains[i], i, listed);
    var j :| 0 <= j < |chains[i]| && chains[i][j] == a;
    assert NodeOk(h, chains[i], j);
    LinkAligned(n, base, h, blocks, h[a].next);
    LinkAligned(n, base, h, blocks, h[a].prev);
    LinkAligned(n, base, h, blocks, h[a].nextFree);
    LinkAligned(n, base, h, blocks, h[a].prevFree);
  }

  /** The lowest bytes of the words in the header of a free block are multiples of 8, and the free bit is set. */
  lemma LowBytes(m: seq<byte>, base: nat, a: int, hd: Header)
    requires HeaderAt(m, base, a, hd) && hd.free && AlignedWords(base, hd)
    ensures MagicAt(m, a) && FreeAt(m, a)
    ensures m[a + 8] % 8 == m[a + 24] % 8 == m[a + 32] % 8 == m[a + 40] % 8 == m[a + 48] % 8 == 0
  {
    forall i: nat | IsWord(i) ensures m[a + 8 * i] % 8 == 0 {
      assert WordAt(m, a + 8 * i, Word(base, hd, i)) && ByteOf(Word(base, hd, i), 0) == Word(base, hd, i) % 256;
    }
    assert IsWord(1) && IsWord(3) && IsWord(4) && IsWord(5) && IsWord(6);
  }

  /** The header of a free block stored over a stale one: the test passes at the old place if and only if the old magic
      was there and the new header begins 8 or 16 bytes behind, so that its size or magic is where the free bit was. */
  lemma OverlappedPasses(m: seq<byte>, m': seq<byte>, base: nat, a: int, hd: Header, b: int)
    requires HeaderAt(m', base, a, hd) && hd.free && AlignedWords(base, hd)
    requires |m'| == |m| && FreeAt(m, b) && a % ALIGNMENT == b % ALIGNMENT == 0
    requires forall i :: b <= i < b + HEADER && !(a <= i < a + HEADER) ==> m'[i] == m[i]
    ensures Passes(m', b) <==> MagicAt(m, b) && (a == b + 8 || a == b + 16)
  {
    LowBytes(m', base, a, hd);
    hide HeaderAt;
    hide AlignedWords;
    if a < b < a + HEADER {
      var i := (b - a) / 8;
      assert b == a + 8 * i && 1 <= i <= 6;
    }
  }

  /** Where the test passes after the free block c was handed out: at a stale place in its payload if and only if what
      is cut off begins 8 or 16 bytes behind. */
  ghost predicate Awakened(h: Headers, m: seq<byte>, m': seq<byte>, c: int, rest: set<int>) {
    c in h && forall b {:trigger Passes(m', b)} ::
      c + HEADER <= b && b + HEADER <= End(h, c) && b % ALIGNMENT == 0 && FreeAt(m, b) ==>
        (Passes(m', b) <==> MagicAt(m, b) && (b + 8 in rest || b + 16 in rest))
  }

  lemma HandingOutAwakens(n: int, base: nat, h: Headers, blocks: set<int>, m: seq<byte>, h': Headers,
                          blocks': set<int>, listed': set<int>, heads': seq<int>, chains': seq<seq<int>>,
                          m': seq<byte>, c: int, want: nat)
    requires Tiled(n, h, blocks) && c in blocks && |m| == n && base % ALIGNMENT == 0
    requires Sound(n, h', blocks', listed', heads', chains') && Imaged(m', base, h')
    requires ListsFree(h', blocks', listed')
    requires blocks' == blocks + Rest(c, h[c].size, want) && OnlyHeaders(m, m', blocks')
    requires forall k <- blocks' :: k !in blocks ==> h'[k].free
    ensures Awakened(h, m, m', c, Rest(c, h[c].size, want))
  {
    var rest := Rest(c, h[c].size, want);
    forall b | c + HEADER <= b && b + HEADER <= End(h, c) && b % ALIGNMENT == 0 && FreeAt(m, b)
      ensures Passes(m', b) <==> MagicAt(m, b) && (b + 8 in rest || b + 16 in rest)
    {
      var a := c + HEADER + want;
      forall i | b <= i < b + HEADER && !(rest != {} && a <= i < a + HEADER) ensures m'[i] == m[i] {
        PayloadsDisjoint(n, h, blocks, c, i);
        assert !InHeader(blocks', i);
      }
      if rest != {} {
        assert a in blocks' && WellSized(h'[a], a, n);
        assert a in blocks ==> Before(h, c, a);
        ListedIsAligned(n, base, h', blocks', listed', heads', chains', a);
        assert HeaderAt(m', base, a, h'[a]);
        OverlappedPasses(m, m', base, a, h'[a], b);
      }
    }
  }
}
