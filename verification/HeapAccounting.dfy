/** What a tiled buffer means to the user of the heap: live blocks, their payloads, and byte counts. */
module HeapAccounting {
  import opened HeapState

  /** Size of every block handed out and not yet freed, by header address. */
  ghost function Live(h: Headers, blocks: set<int>): (live: map<int, nat>) {
    map b | b in blocks && b in h && !h[b].free :: h[b].size
  }

  lemma LiveIs(h: Headers, blocks: set<int>, live: map<int, nat>)
    requires forall k :: k in live <==> k in blocks && k in h && !h[k].free
    requires forall k :: k in live ==> live[k] == h[k].size
    ensures Live(h, blocks) == live
  {
    var l := Live(h, blocks);
    forall k ensures k in l <==> k in live {}
    forall k | k in l ensures l[k] == live[k] {}
    assert l == live;
  }

  /** Header plus payload bytes of all entries. */
  ghost function Footprint(live: map<int, nat>): nat {
    if exists b :: b in live then
      var b :| b in live;
      HEADER + live[b] + Footprint(live - {b})
    else 0
  }

  lemma {:induction false} FootprintRemove(live: map<int, nat>, b: int)
    requires b in live
    ensures Footprint(live) == HEADER + live[b] + Footprint(live - {b})
    decreases |live|
  {
    var c :| c in live && Footprint(live) == HEADER + live[c] + Footprint(live - {c});
    if c != b {
      FootprintRemove(live - {c}, b);
      FootprintRemove(live - {b}, c);
      assert live - {c} - {b} == live - {b} - {c};
    }
  }

  lemma FootprintAdd(live: map<int, nat>, b: int, size: nat)
    ensures Footprint(live[b := size]) == HEADER + size + Footprint(live - {b})
  {
    FootprintRemove(live[b := size], b);
    assert live[b := size] - {b} == live - {b};
  }

  /** The address order from block b on, following next. */
  ghost function Chain(n: int, h: Headers, blocks: set<int>, b: int): (s: seq<int>)
    requires Tiled(n, h, blocks) && b in blocks
    decreases n - b
  {
    assert WellSized(h[b], b, n) && NextOk(n, h, blocks, b);
    [b] + if h[b].next == NULL then [] else Chain(n, h, blocks, h[b].next)
  }

  /** Bytes of the blocks in s, with their headers. */
  ghost function Bytes(h: Headers, s: seq<int>): nat {
    if s == [] then 0 else HEADER + (if s[0] in h then h[s[0]].size else 0) + Bytes(h, s[1..])
  }

  /** The blocks at or after b. */
  ghost function Tail(blocks: set<int>, b: int): set<int> {
    set c | c in blocks && b <= c
  }

  lemma TailStep(n: int, h: Headers, blocks: set<int>, b: int)
    requires Tiled(n, h, blocks) && b in blocks
    ensures WellSized(h[b], b, n) && NextOk(n, h, blocks, b)
    ensures Tail(blocks, b) == {b} + if h[b].next == NULL then {} else Tail(blocks, h[b].next)
    ensures h[b].next != NULL ==> b !in Tail(blocks, h[b].next)
  {
    assert WellSized(h[b], b, n) && NextOk(n, h, blocks, b);
    forall c | c in blocks ensures b < c ==> h[b].next != NULL && h[b].next <= c {
      assert WellSized(h[c], c, n);
      assert b < c ==> Before(h, b, c);
    }
  }

  /** Following next from any block visits exactly the blocks at or after it and covers the rest of the buffer. */
  lemma {:induction false} ChainCovers(n: int, h: Headers, blocks: set<int>, b: int)
    requires Tiled(n, h, blocks) && b in blocks
    ensures forall c :: c in Chain(n, h, blocks, b) <==> c in Tail(blocks, b)
    ensures Bytes(h, Chain(n, h, blocks, b)) == n - b
    decreases n - b
  {
    TailStep(n, h, blocks, b);
    var next, s := h[b].next, Chain(n, h, blocks, b);
    if next != NULL {
      ChainCovers(n, h, blocks, next);
      assert s[1..] == Chain(n, h, blocks, next);
    }
  }

  /** Conservation: the chain from the first header visits every block once and its headers and
      payloads add up to the whole buffer. */
  lemma WholeBuffer(n: int, h: Headers, blocks: set<int>)
    requires Tiled(n, h, blocks)
    ensures forall c :: c in Chain(n, h, blocks, 0) <==> c in blocks
    ensures Bytes(h, Chain(n, h, blocks, 0)) == n
  {
    ChainCovers(n, h, blocks, 0);
    forall c | c in blocks ensures 0 <= c {
      assert WellSized(h[c], c, n);
    }
  }

  /** Blocks of the chain that are in use. */
  ghost function InUse(h: Headers, s: seq<int>): seq<int> {
    if s == [] then [] else (if s[0] in h && !h[s[0]].free then [s[0]] else []) + InUse(h, s[1..])
  }

  lemma LiveStep(h: Headers, blocks: set<int>, b: int)
    requires b in h && b !in blocks && forall c <- blocks :: c in h
    ensures Footprint(Live(h, {b} + blocks)) ==
            Footprint(Live(h, blocks)) + if h[b].free then 0 else HEADER + h[b].size
  {
    if h[b].free {
      assert Live(h, {b} + blocks) == Live(h, blocks);
    } else {
      assert Live(h, {b} + blocks) == Live(h, blocks)[b := h[b].size];
      FootprintAdd(Live(h, blocks), b, h[b].size);
      assert Live(h, blocks) - {b} == Live(h, blocks);
    }
  }

  lemma {:induction false} UsedFrom(n: int, h: Headers, blocks: set<int>, b: int)
    requires Tiled(n, h, blocks) && b in blocks
    ensures Bytes(h, InUse(h, Chain(n, h, blocks, b))) == Footprint(Live(h, Tail(blocks, b)))
    decreases n - b
  {
    TailStep(n, h, blocks, b);
    var next, s := h[b].next, Chain(n, h, blocks, b);
    var u, v := InUse(h, s), InUse(h, s[1..]);
    assert h[b].free ==> u == v;
    assert !h[b].free ==> u[0] == b && u[1..] == v;
    if next == NULL {
      LiveStep(h, {}, b);
      assert {b} + {} == Tail(blocks, b);
      assert s[1..] == [] && Live(h, {}) == map[];
    } else {
      LiveStep(h, Tail(blocks, next), b);
      assert s[1..] == Chain(n, h, blocks, next);
      UsedFrom(n, h, blocks, next);
    }
  }

  /** The used part of the chain is what the allocation counter has to show. */
  lemma UsedBytes(n: int, h: Headers, blocks: set<int>)
    requires Tiled(n, h, blocks)
    ensures Bytes(h, InUse(h, Chain(n, h, blocks, 0))) == Footprint(Live(h, blocks))
  {
    WholeBuffer(n, h, blocks);
    forall c | c in blocks ensures 0 <= c {
      assert WellSized(h[c], c, n);
    }
    UsedFrom(n, h, blocks, 0);
    assert Tail(blocks, 0) == blocks;
  }

  /** i lies in some block's header. */
  ghost predicate InHeader(blocks: set<int>, i: int) {
    exists b :: b in blocks && b <= i < b + HEADER
  }

  /** Payload bytes never lie in a header, nor in another block's payload. */
  lemma PayloadsDisjoint(n: int, h: Headers, blocks: set<int>, b: int, i: int)
    requires Tiled(n, h, blocks) && b in blocks && b + HEADER <= i < End(h, b)
    ensures 0 <= i < n && !InHeader(blocks, i)
    ensures forall c :: c in blocks && c != b ==> !(c <= i < End(h, c))
  {
    assert WellSized(h[b], b, n);
    forall c | c in blocks && c != b ensures !(c <= i < End(h, c)) {
      assert WellSized(h[c], c, n);
      assert c < b ==> Before(h, c, b);
      assert b < c ==> Before(h, b, c);
    }
  }

  /** When neighbours are never both free and nothing is live, the heap is one free block again. */
  lemma EmptyHeapIsWhole(n: int, h: Headers, blocks: set<int>)
    requires Tiled(n, h, blocks) && Coalesced(h, blocks)
    ensures Live(h, blocks) == map[] <==> blocks == {0} && h[0].free
    ensures Live(h, blocks) == map[] ==> h[0].size == n - HEADER
  {
    assert NextOk(n, h, blocks, 0) && WellSized(h[0], 0, n);
    if Live(h, blocks) == map[] {
      forall b | b in blocks ensures h[b].free {
        assert b !in Live(h, blocks);
      }
      forall b | b in blocks ensures b == 0 {
        assert WellSized(h[b], b, n);
        assert 0 < b ==> Before(h, 0, b);
      }
    }
  }

  /** m' differs from m only inside the headers of `blocks`. */
  ghost predicate OnlyHeaders(m: seq<byte>, m': seq<byte>, blocks: set<int>) {
    |m'| == |m| && forall i :: 0 <= i < |m| && m'[i] != m[i] ==> InHeader(blocks, i)
  }

  lemma OnlyHeadersTrans(m: seq<byte>, m': seq<byte>, m'': seq<byte>, s: set<int>, s': set<int>, t: set<int>)
    requires OnlyHeaders(m, m', s) && OnlyHeaders(m', m'', s') && s <= t && s' <= t
    ensures OnlyHeaders(m, m'', t)
  {
    forall i | 0 <= i < |m| && m''[i] != m[i] ensures InHeader(t, i) {
      if m'[i] != m[i] {
        assert InHeader(s, i);
      } else {
        assert InHeader(s', i);
      }
    }
  }

  /** The first `size` payload bytes of block c are the same in both. */
  ghost predicate Kept(m: seq<byte>, m': seq<byte>, c: int, size: nat) {
    && |m| == |m'| && 0 <= c && c + HEADER + size <= |m|
    && forall i :: c + HEADER <= i < c + HEADER + size ==> m'[i] == m[i]
  }

  /** Every live payload holds the same bytes in both. */
  ghost predicate PayloadsKept(m: seq<byte>, m': seq<byte>, live: map<int, nat>) {
    forall c {:trigger Kept(m, m', c, live[c])} :: c in live ==> Kept(m, m', c, live[c])
  }

  /** Stores to the headers of a tiled buffer touch no payload of it. */
  lemma HeaderStoresKeep(n: int, h: Headers, blocks: set<int>, m: seq<byte>, m': seq<byte>, c: int)
    requires Tiled(n, h, blocks) && c in blocks && |m| == n && OnlyHeaders(m, m', blocks)
    ensures Kept(m, m', c, h[c].size)
  {
    assert WellSized(h[c], c, n);
    forall i | c + HEADER <= i < End(h, c) ensures m'[i] == m[i] {
      PayloadsDisjoint(n, h, blocks, c, i);
    }
  }
}
