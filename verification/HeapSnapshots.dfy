/** The heap between two requests, and what an allocation and a resize do to it. */
module HeapSnapshots {
  import opened HeapState
  import opened BlockChain
  import opened HeapAccounting
  import opened HeapBytes
  import opened HeapSteps

  /** The heap between two requests. */
  datatype Snapshot = Snapshot(headers: Headers, blocks: set<int>, bytes: seq<byte>, inUse: int, heads: seq<int>,
                               lists: seq<seq<int>>) {
    ghost function Live(): map<int, nat> {
      HeapAccounting.Live(headers, blocks)
    }

    ghost function FreeBlocks(): set<int> {
      set b | b in blocks && b in headers && headers[b].free
    }

    /** Some free block has room for the rounded size. */
    ghost predicate Room(size: nat) {
      exists b :: b in blocks && b in headers && headers[b].free && AlignUp(size) <= headers[b].size
    }

    /** Block b has room for the rounded size, alone or with a free block behind it. */
    ghost predicate Roomy(b: int, size: nat) {
      b in headers && (AlignUp(size) <= headers[b].size || Extends(headers, blocks, b, AlignUp(size)))
    }

    /** The test of free and realloc. */
    predicate Accepts(ptr: int) {
      HEADER <= ptr < |bytes| && Passes(bytes, ptr - HEADER)
    }
  }

  /** The blocks tile the buffer, the lists hold exactly the free ones, and the counter is exact. */
  ghost predicate Whole(s: Snapshot) {
    && Sound(|s.bytes|, s.headers, s.blocks, s.FreeBlocks(), s.heads, s.lists)
    && s.inUse == Footprint(s.Live())
  }

  /** No two neighbours are both free. */
  ghost predicate Sparse(s: Snapshot) {
    Coalesced(s.headers, s.blocks)
  }

  /** Block c, with `given` bytes, is what b becomes: b trimmed, b extended and trimmed, or the first fit. */
  ghost predicate Resizes(s: Snapshot, b: int, size: nat, c: int, given: nat) {
    var h, want := s.headers, AlignUp(size);
    && b in h
    && if want <= h[b].size then c == b && given == Trimmed(h[b].size, want)
       else if Extends(h, s.blocks, b, want) then
         c == b && given == Trimmed(h[b].size + HEADER + h[h[b].next].size, want)
       else FirstFit(h, s.lists, want, c) && given == Trimmed(h[c].size, want)
  }

  /** The free block that is used up when realloc answers p, if any. */
  ghost function UsedUp(s: Snapshot, ptr: int, size: nat, p: int): int {
    var b := ptr - HEADER;
    if ptr == NULL then p - HEADER
    else if size == 0 || (b in s.headers && AlignUp(size) <= s.headers[b].size) then NULL
    else if Extends(s.headers, s.blocks, b, AlignUp(size)) then s.headers[b].next
    else p - HEADER
  }

  /** The first fit is handed out, if something is asked for and there is room; else nothing changes. */
  ghost predicate Allocates(s: Snapshot, size: nat, p: int, s': Snapshot) {
    && (p != NULL <==> size != 0 && s.Room(size))
    && if p == NULL then s' == s
       else
         var c := p - HEADER;
         && c !in s.Live() && FirstFit(s.headers, s.lists, AlignUp(size), c)
         && s'.Live() == s.Live()[c := Trimmed(s.headers[c].size, AlignUp(size))]
  }

  /** A live block is resized: in place if it is roomy there, else elsewhere if there is room, else not at all. */
  ghost predicate Moves(s: Snapshot, b: int, size: nat, p: int, s': Snapshot) {
    && (p != NULL <==> b in s.Live() && (s.Roomy(b, size) || s.Room(size)))
    && if p == NULL then s' == s
       else
         var c := p - HEADER;
         && (c == b <==> s.Roomy(b, size)) && (c == b || c !in s.Live()) && c in s'.Live()
         && Resizes(s, b, size, c, s'.Live()[c])
         && s'.Live() == (s.Live() - {b})[c := s'.Live()[c]]
  }

  lemma NoneAllocated(s: Snapshot, size: nat)
    requires size == 0 || !s.Room(size)
    ensures Allocates(s, size, NULL, s)
  {
  }

  lemma FitAllocated(s: Snapshot, size: nat, c: int, s': Snapshot)
    requires size != 0 && 0 <= c && c in s.FreeBlocks() && FirstFit(s.headers, s.lists, AlignUp(size), c)
    requires s'.Live() == s.Live()[c := Trimmed(s.headers[c].size, AlignUp(size))]
    ensures Allocates(s, size, c + HEADER, s')
  {
  }

  lemma NoneMoved(s: Snapshot, b: int, size: nat)
    requires b !in s.Live() || !(s.Roomy(b, size) || s.Room(size))
    ensures Moves(s, b, size, NULL, s)
  {
  }

  lemma MovedInPlace(s: Snapshot, b: int, size: nat, s': Snapshot)
    requires 0 <= b && b in s.Live() && s.Roomy(b, size) && b in s'.Live() && s'.Live() == s.Live()[b := s'.Live()[b]]
    requires Resizes(s, b, size, b, s'.Live()[b])
    ensures Moves(s, b, size, b + HEADER, s')
  {
    assert s.Live()[b := s'.Live()[b]] == (s.Live() - {b})[b := s'.Live()[b]];
  }

  lemma MovedElsewhere(s: Snapshot, b: int, size: nat, p: int, s1: Snapshot, s': Snapshot)
    requires p != NULL && Allocates(s, size, p, s1)
    requires b in s.Live() && !s.Roomy(b, size) && s'.Live() == s1.Live() - {b}
    ensures Moves(s, b, size, p, s')
  {
    assert s.Live()[p - HEADER := s1.Live()[p - HEADER]] - {b} == (s.Live() - {b})[p - HEADER := s1.Live()[p - HEADER]];
  }
}
