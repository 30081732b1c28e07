/** Splitting and merging blocks of the address-ordered chain. */
module BlockChain {
  import opened HeapState

  /** b keeps `size` bytes; a free block covering the rest follows it. */
  function Split(h: Headers, b: int, size: nat): (h': Headers)
    requires b in h && size + HEADER <= h[b].size
    requires h[b].next != NULL ==> h[b].next in h && End(h, b) <= h[b].next
  {
    var a := b + HEADER + size;
    var h1 := h[a := Header(h[b].size - size - HEADER, true, h[b].next, b, NULL, NULL)];
    var h2 := if h[b].next != NULL then h1[h[b].next := h1[h[b].next].(prev := a)] else h1;
    h2[b := h2[b].(next := a, size := size)]
  }

  /** b absorbs its successor, which is no block of the chain any more. */
  function Merge(h: Headers, b: int): (h': Headers)
    requires b in h && h[b].next in h && b != h[b].next
    requires var x := h[h[b].next].next; x != NULL ==> x in h
  {
    var x := h[h[b].next];
    var h1 := h[b := h[b].(size := h[b].size + HEADER + x.size, next := x.next)];
    var h2 := if x.next != NULL then h1[x.next := h1[x.next].(prev := b)] else h1;
    h2 - {h[b].next}
  }

  /** What splitting b changes, block by block. */
  ghost predicate IsSplit(h: Headers, h': Headers, blocks: set<int>, b: int, size: nat)
    requires b in blocks && forall k <- blocks :: k in h
  {
    var a := b + HEADER + size;
    && a in h' && h[b].size == size + HEADER + h'[a].size
    && h'[a].free && h'[a].next == h[b].next && h'[a].prev == b
    && (forall k <- blocks :: k in h' && ShapeOf(h'[k]) == Shape(if k == b then size else h[k].size,
                                                               h[k].free,
                                                               if k == b then a else h[k].next,
                                                               if k == h[b].next then a else h[k].prev))
  }

  /** What merging b with its successor changes, block by block. */
  ghost predicate IsMerge(h: Headers, h': Headers, blocks: set<int>, b: int)
    requires b in blocks && (forall k <- blocks :: k in h) && h[b].next in blocks
  {
    var a := h[b].next;
    forall k <- blocks :: k != a ==>
      k in h' && ShapeOf(h'[k]) == Shape(if k == b then h[b].size + HEADER + h[a].size else h[k].size,
                                         h[k].free,
                                         if k == b then h[a].next else h[k].next,
                                         if k == h[a].next then b else h[k].prev)
  }

  /** No block of s changed its free-list links. */
  ghost predicate SameLinks(h: Headers, h': Headers, s: set<int>) {
    forall k <- s :: k in h && k in h' && h'[k].nextFree == h[k].nextFree && h'[k].prevFree == h[k].prevFree
  }

  lemma NullIsNoBlock(n: int, h: Headers, blocks: set<int>)
    requires Tiled(n, h, blocks)
    ensures NULL !in blocks
  {
    assert NULL in blocks ==> WellSized(h[NULL], NULL, n);
  }

  lemma SplitIsSplit(n: int, h: Headers, blocks: set<int>, b: int, size: nat)
    requires Tiled(n, h, blocks) && h.Keys == blocks && b in blocks && size + HEADER <= h[b].size
    ensures h[b].next != NULL ==> h[b].next in h && End(h, b) <= h[b].next
    ensures IsSplit(h, Split(h, b, size), blocks, b, size)
    ensures Split(h, b, size).Keys == blocks + {b + HEADER + size}
    ensures SameLinks(h, Split(h, b, size), blocks)
    ensures b + HEADER + size !in blocks
    ensures forall k {:trigger Apart(k, b + HEADER + size)} :: k in blocks ==> Apart(k, b + HEADER + size)
  {
    assert WellSized(h[b], b, n) && NextOk(n, h, blocks, b);
    var a := b + HEADER + size;
    assert End(h, b) == b + HEADER + h[b].size;
    NullIsNoBlock(n, h, blocks);
    forall k | k in blocks ensures Apart(k, a) {
      assert WellSized(h[k], k, n);
      assert k < b ==> Before(h, k, b);
      assert b < k ==> Before(h, b, k);
    }
  }

  lemma MergeIsMerge(n: int, h: Headers, blocks: set<int>, b: int)
    requires Tiled(n, h, blocks) && h.Keys == blocks && b in blocks && h[b].next in blocks
    ensures b < h[b].next
    ensures h[h[b].next].next != NULL ==> h[h[b].next].next in blocks
    ensures IsMerge(h, Merge(h, b), blocks, b)
    ensures SameLinks(h, Merge(h, b), blocks - {h[b].next})
    ensures Merge(h, b).Keys == blocks - {h[b].next}
  {
    assert NextOk(n, h, blocks, b) && NextOk(n, h, blocks, h[b].next) && WellSized(h[b], b, n);
    var a := h[b].next;
    NullIsNoBlock(n, h, blocks);
    assert NextOk(n, h, blocks, a) && WellSized(h[a], a, n);
    assert h[a].next != NULL ==> h[a].next == End(h, a) && h[a].next in blocks;
  }

  lemma SplitApart(n: int, h: Headers, h': Headers, blocks: set<int>, b: int, size: nat, x: int, y: int)
    requires Tiled(n, h, blocks) && b in blocks && IsSplit(h, h', blocks, b, size)
    requires var blocks' := blocks + {b + HEADER + size}; x in blocks' && y in blocks'
    requires x < y
    ensures x in h' && Before(h', x, y)
  {
    var a := b + HEADER + size;
    if x in blocks && y in blocks {
      assert Before(h, x, y);
    } else if x !in blocks {
      assert b < y;
      assert Before(h, b, y);
    } else if x < b {
      assert Before(h, x, b);
    } else {
      assert b == x || Before(h, b, x);
    }
  }

  /** Splitting a tiled buffer leaves it tiled by one more block. */
  lemma SplitTiles(n: int, h: Headers, h': Headers, blocks: set<int>, b: int, size: nat)
    requires Tiled(n, h, blocks) && b in blocks && IsSplit(h, h', blocks, b, size)
    requires size % ALIGNMENT == 0 && size + HEADER + MIN_SPLIT_SIZE <= h[b].size
    ensures Tiled(n, h', blocks + {b + HEADER + size})
  {
    var a, blocks' := b + HEADER + size, blocks + {b + HEADER + size};
    assert WellSized(h[b], b, n) && NextOk(n, h, blocks, b);
    forall k | k in blocks' ensures WellSized(h'[k], k, n) {
      assert k != a ==> WellSized(h[k], k, n);
    }
    forall k | k in blocks' ensures NextOk(n, h', blocks', k) && PrevOk(h', blocks', k) {
      if k == a {
        assert a == End(h', b);
      } else {
        assert NextOk(n, h, blocks, k) && PrevOk(h, blocks, k);
      }
    }
    forall x, y | x in blocks' && y in blocks' && x < y ensures Before(h', x, y) {
      SplitApart(n, h, h', blocks, b, size, x, y);
    }
  }

  lemma MergeApart(n: int, h: Headers, h': Headers, blocks: set<int>, b: int, x: int, y: int)
    requires Tiled(n, h, blocks) && b in blocks && h[b].next in blocks && IsMerge(h, h', blocks, b)
    requires x in blocks && y in blocks && x < y && x != h[b].next && y != h[b].next
    ensures Before(h', x, y)
  {
    assert NextOk(n, h, blocks, b) && Before(h, x, y) && WellSized(h[y], y, n);
    if x == b {
      var a := h[b].next;
      assert a < y ==> Before(h, a, y);
    }
  }

  lemma MergeLinks(n: int, h: Headers, h': Headers, blocks: set<int>, b: int, k: int)
    requires Tiled(n, h, blocks) && b in blocks && h[b].next in blocks && IsMerge(h, h', blocks, b)
    requires k in blocks && k != h[b].next
    ensures WellSized(h'[k], k, n)
    ensures NextOk(n, h', blocks - {h[b].next}, k) && PrevOk(h', blocks - {h[b].next}, k)
  {
    var a := h[b].next;
    assert NextOk(n, h, blocks, b) && NextOk(n, h, blocks, a) && WellSized(h[a], a, n) && WellSized(h[b], b, n);
    assert WellSized(h[k], k, n) && NextOk(n, h, blocks, k) && PrevOk(h, blocks, k);
    assert End(h', b) == End(h, a) && b < a;
    assert k != b ==> h[k].next != a;
  }

  /** Merging a block into its predecessor leaves the buffer tiled by one block less. */
  lemma MergeTiles(n: int, h: Headers, h': Headers, blocks: set<int>, b: int)
    requires Tiled(n, h, blocks) && b in blocks && h[b].next in blocks && IsMerge(h, h', blocks, b)
    ensures Tiled(n, h', blocks - {h[b].next})
  {
    var a, blocks' := h[b].next, blocks - {h[b].next};
    assert WellSized(h[b], b, n) && NextOk(n, h, blocks, b);
    forall k | k in blocks' ensures WellSized(h'[k], k, n) && NextOk(n, h', blocks', k) && PrevOk(h', blocks', k) {
      MergeLinks(n, h, h', blocks, b, k);
    }
    forall x, y | x in blocks' && y in blocks' && x < y ensures Before(h', x, y) {
      MergeApart(n, h, h', blocks, b, x, y);
    }
  }

  // ---- neighbours ----

  /** Free neighbours can only meet at b. */
  ghost predicate CoalescedBut(h: Headers, blocks: set<int>, b: int)
    requires forall k <- blocks :: k in h
  {
    forall k <- blocks :: h[k].free && k != b && h[k].next in blocks && h[k].next != b ==> !h[h[k].next].free
  }

  /** k is no free block. */
  ghost predicate NotFree(h: Headers, blocks: set<int>, k: int)
    requires forall k <- blocks :: k in h
  {
    k in blocks ==> !h[k].free
  }

  lemma CoalescedAt(n: int, h: Headers, blocks: set<int>, b: int)
    requires Tiled(n, h, blocks) && b in blocks
    ensures Coalesced(h, blocks) <==>
            CoalescedBut(h, blocks, b) && (h[b].free ==> NotFree(h, blocks, h[b].prev) && NotFree(h, blocks, h[b].next))
  {
    assert PrevOk(h, blocks, b) && NextOk(n, h, blocks, b) && WellSized(h[b], b, n);
    NullIsNoBlock(n, h, blocks);
    forall k | k in blocks && h[k].next == b ensures h[b].prev == k {
      assert NextOk(n, h, blocks, k);
    }
  }

  /** Splitting a used block puts a free one before its successor: that is harmless exactly when
      the successor is not free. */
  lemma SplitCoalesced(n: int, h: Headers, h': Headers, blocks: set<int>, b: int, size: nat)
    requires Tiled(n, h, blocks) && b in blocks && IsSplit(h, h', blocks, b, size) && !h[b].free
    requires b + HEADER + size !in blocks
    ensures Coalesced(h', blocks + {b + HEADER + size}) <==> Coalesced(h, blocks) && NotFree(h, blocks, h[b].next)
  {
    var a, blocks' := b + HEADER + size, blocks + {b + HEADER + size};
    assert WellSized(h[b], b, n) && NextOk(n, h, blocks, b);
    if Coalesced(h', blocks') {
      assert a in blocks' && h'[a].next == h[b].next;
      forall k | k in blocks && h[k].free && h[k].next in blocks ensures !h[h[k].next].free {
        assert k in blocks' && h'[k].next == h[k].next;
      }
    }
    if Coalesced(h, blocks) && NotFree(h, blocks, h[b].next) {
      forall k | k in blocks' && h'[k].free && h'[k].next in blocks' ensures !h'[h'[k].next].free {
        if k != a {
          assert NextOk(n, h, blocks, k) && k != b && h'[k].next == h[k].next;
        }
      }
    }
  }

  /** Merging leaves free neighbours only around the merged block. */
  lemma MergeCoalesced(n: int, h: Headers, h': Headers, blocks: set<int>, b: int)
    requires Tiled(n, h, blocks) && b in blocks && h[b].next in blocks && IsMerge(h, h', blocks, b)
    requires CoalescedBut(h, blocks, b) || CoalescedBut(h, blocks, h[b].next)
    ensures CoalescedBut(h', blocks - {h[b].next}, b)
    ensures b in h' && (NotFree(h, blocks, h[b].prev) ==> NotFree(h', blocks - {h[b].next}, h'[b].prev))
    ensures NotFree(h, blocks, h[h[b].next].next) ==> NotFree(h', blocks - {h[b].next}, h'[b].next)
  {
    var a, blocks' := h[b].next, blocks - {h[b].next};
    assert NextOk(n, h, blocks, b) && NextOk(n, h, blocks, a) && PrevOk(h, blocks, b) && WellSized(h[a], a, n);
    NullIsNoBlock(n, h, blocks);
    forall k | k in blocks' && h'[k].free && k != b && h'[k].next in blocks' && h'[k].next != b
      ensures !h'[h'[k].next].free
    {
      assert h'[k].next == h[k].next;
    }
  }

  /** A used block of 128 bytes in front of a free one: trimming it to 64 puts two free blocks side by side. */
  lemma TrimLeavesTwoFree()
    ensures var h := map[0 := Header(128, false, 184, NULL, NULL, NULL), 184 := Header(64, true, NULL, 0, NULL, NULL)];
      && Tiled(304, h, {0, 184}) && Coalesced(h, {0, 184})
      && !Coalesced(Split(h, 0, 64), {0, 120, 184})
  {
    var h := map[0 := Header(128, false, 184, NULL, NULL, NULL), 184 := Header(64, true, NULL, 0, NULL, NULL)];
    var h' := Split(h, 0, 64);
    assert h'[120].free && h'[120].next == 184 && h'[184].free;
  }
}
