/** The stack-slot allocator of std/stackmap.c: first fit over a bitmap of packed 64-bit words. */
module StackMap {
  import opened Common
  import opened Words

  const CELLS: nat := 64       // CELLS_PER_BLOCK
  const DEFAULT: nat := 8196   // STACK_MAP_DEFAULT

  /** As many words as the cells need. */
  function Blocks(cells: nat): (r: nat)
    ensures cells <= CELLS * r < cells + CELLS
  {
    (cells + (CELLS - 1)) / CELLS
  }

  predicate Cell(words: seq<Word>, i: nat)
    requires i < CELLS * |words|
  {
    TestBit(words[i / CELLS], i % CELLS)
  }

  /** The cells whose bit is set. */
  function Taken(words: seq<Word>): set<nat> {
    set i: nat | i < CELLS * |words| && Cell(words, i)
  }

  /** The cells from start up to start + n. */
  function Interval(start: nat, n: nat): (cells: set<nat>)
    ensures forall i: nat :: i in cells <==> start <= i < start + n
  {
    if n == 0 then {} else Interval(start, n - 1) + {start + n - 1}
  }

  ghost predicate Fits(taken: set<nat>, start: nat, n: nat) {
    forall i: nat :: start <= i < start + n ==> i !in taken
  }

  lemma SetCell(words: seq<Word>, idx: nat)
    requires idx < CELLS * |words|
    ensures Taken(words[idx / CELLS := Or(words[idx / CELLS], OneBit(idx % CELLS))]) == Taken(words) + {idx}
  {
    var w := words[idx / CELLS];
    var words' := words[idx / CELLS := Or(w, OneBit(idx % CELLS))];
    forall i: nat | i < CELLS * |words| ensures Cell(words', i) <==> Cell(words, i) || i == idx {
      OrBits(w, OneBit(idx % CELLS), i % CELLS);
      OneBitAt(idx % CELLS, i % CELLS);
    }
  }

  lemma ClearCell(words: seq<Word>, idx: nat)
    requires idx < CELLS * |words|
    ensures Taken(words[idx / CELLS := AndNot(words[idx / CELLS], OneBit(idx % CELLS))]) == Taken(words) - {idx}
  {
    var w := words[idx / CELLS];
    var words' := words[idx / CELLS := AndNot(w, OneBit(idx % CELLS))];
    forall i: nat | i < CELLS * |words| ensures Cell(words', i) <==> Cell(words, i) && i != idx {
      AndNotBits(w, OneBit(idx % CELLS), i % CELLS);
      OneBitAt(idx % CELLS, i % CELLS);
    }
  }

  /** Appending zero words takes no cell. */
  lemma GrowWords(words: seq<Word>, words': seq<Word>)
    requires |words| <= |words'| && words'[..|words|] == words
    requires forall i :: |words| <= i < |words'| ==> words'[i] == 0
    ensures Taken(words') == Taken(words)
  {
    forall i: nat | i < CELLS * |words'| ensures Cell(words', i) <==> i < CELLS * |words| && Cell(words, i) {
      if i < CELLS * |words| {
        assert words'[i / CELLS] == words'[..|words|][i / CELLS];
      } else {
        ZeroBits(i % CELLS);
      }
    }
  }

  /** start is the lowest place from base on with n free cells below the size. */
  ghost predicate FirstFit(taken: set<nat>, base: nat, size: nat, n: nat, start: nat) {
    && base <= start && start + n <= size && Fits(taken, start, n)
    && forall s: nat :: base <= s < start ==> !Fits(taken, s, n)
  }

  ghost predicate NoFit(taken: set<nat>, base: nat, size: nat, n: nat) {
    forall s: nat :: base <= s && s + n <= size ==> !Fits(taken, s, n)
  }

  /** The interval stack_map_free clears: the one that ends at offset if all its cells are taken,
      else the one that starts there; -1 for none. */
  function FreeStart(taken: set<nat>, base: nat, size: nat, offset: int, n: int): int {
    if n <= 0 || offset < 0 || offset >= size then -1
    else if offset - n >= base && Interval(offset - n, n) <= taken then offset - n
    else if offset >= base && offset + n <= size && Interval(offset, n) <= taken then offset
    else -1
  }

  class Map {
    var bitmap: array<Word>
    var bsize: nat
    var offset: int
    var lastOffset: int
    var baseOffset: nat

    /** Every set bit lies below the size and below the high-water mark; bits beyond the size are clear. */
    ghost predicate Valid()
      reads this, bitmap
    {
      && bitmap.Length == Blocks(bsize)
      && baseOffset < bsize
      && (forall i <- Taken(bitmap[..]) :: i < bsize && i < lastOffset)
    }

    ghost function Cells(): set<nat>
      reads this, bitmap
    {
      Taken(bitmap[..])
    }

    /** A zeroed structure, before stack_map_init. */
    constructor ()
      ensures fresh(bitmap)
    {
      bitmap := new Word[0];
      bsize, offset, lastOffset, baseOffset := 0, 0, 0, 0;
    }

    /** stack_map_init. */
    method Init(off: int) returns (ok: bool)
      modifies this
      ensures ok <==> off >= 0
      ensures ok ==> Valid() && fresh(bitmap) && Cells() == {}
      ensures ok ==> baseOffset == offset == lastOffset == off && bsize == off + DEFAULT
      ensures !ok ==> unchanged(this)
    {
      if off < 0 {
        return false;
      }
      baseOffset := off;
      offset := off;
      lastOffset := off;
      bsize := off + DEFAULT;
      bitmap := new Word[Blocks(bsize)](_ => 0);
      GrowWords([], bitmap[..]);
      return true;
    }

    /** _bit_test */
    method BitTest(idx: nat) returns (isSet: bool)
      requires idx < CELLS * bitmap.Length
      ensures isSet <==> idx in Cells()
    {
      return ShiftRight(bitmap[idx / CELLS], idx % CELLS) % 2 == 1;
    }

    /** _bit_set */
    method BitSet(idx: nat)
      requires idx < CELLS * bitmap.Length
      modifies bitmap
      ensures Cells() == old(Cells()) + {idx}
    {
      SetCell(bitmap[..], idx);
      ghost var words := bitmap[..];
      bitmap[idx / CELLS] := Or(bitmap[idx / CELLS], OneBit(idx % CELLS));
      assert bitmap[..] == words[idx / CELLS := Or(words[idx / CELLS], OneBit(idx % CELLS))];
    }

    /** _bit_clear */
    method BitClear(idx: nat)
      requires idx < CELLS * bitmap.Length
      modifies bitmap
      ensures Cells() == old(Cells()) - {idx}
    {
      ClearCell(bitmap[..], idx);
      ghost var words := bitmap[..];
      bitmap[idx / CELLS] := AndNot(bitmap[idx / CELLS], OneBit(idx % CELLS));
      assert bitmap[..] == words[idx / CELLS := AndNot(words[idx / CELLS], OneBit(idx % CELLS))];
    }

    /** The inner test loop of stack_map_alloc: the first taken cell of a candidate, if any. */
    method FirstTaken(start: nat, n: nat) returns (ok: bool, idx: nat)
      requires Valid() && start + n <= bsize
      ensures ok <==> Fits(Cells(), start, n)
      ensures !ok ==> start <= idx < start + n && idx in Cells()
    {
      idx := start;
      for j := 0 to n
        invariant forall i: nat :: start <= i < start + j ==> i !in Cells()
      {
        idx := start + j;
        var isSet := BitTest(idx);
        if isSet {
          return false, idx;
        }
      }
      return true, idx;
    }

    method SetInterval(start: nat, n: nat)
      requires start + n <= CELLS * bitmap.Length
      modifies bitmap
      ensures Cells() == old(Cells()) + Interval(start, n)
    {
      for j := 0 to n
        invariant Cells() == old(Cells()) + Interval(start, j)
      {
        BitSet(start + j);
      }
    }

    /** The search loop of stack_map_alloc: a taken cell rules out every candidate up to itself. */
    method Search(n: nat) returns (found: bool, i: nat)
      requires Valid() && n > 0
      ensures found ==> FirstFit(Cells(), baseOffset, bsize, n, i)
      ensures !found ==> NoFit(Cells(), baseOffset, bsize, n)
    {
      i := baseOffset;
      while i + n <= bsize
        invariant baseOffset <= i
        invariant forall s: nat :: baseOffset <= s < i ==> !Fits(Cells(), s, n)
        decreases bsize - i
      {
        var ok, idx := FirstTaken(i, n);
        if ok {
          return true, i;
        }
        i := idx + 1;
      }
      return false, i;
    }

    /** Takes an interval and moves the two marks. */
    method Occupy(start: nat, n: nat) returns (end: nat)
      requires Valid() && start + n <= bsize
      modifies `lastOffset, `offset, bitmap
      ensures Valid() && end == start + n && Cells() == old(Cells()) + Interval(start, n)
      ensures offset == end && lastOffset == Max(old(lastOffset), end)
    {
      SetInterval(start, n);
      end := start + n;
      lastOffset := Max(lastOffset, end);
      offset := end;
    }

    /** The reallocation in stack_map_alloc: the added words are zeroed, so no added cell is taken. */
    method Grow(newSize: nat)
      requires Valid() && bsize <= newSize
      modifies `bitmap, `bsize
      ensures Valid() && bsize == newSize && Cells() == old(Cells()) && fresh(bitmap)
    {
      var oldWords, from := Blocks(bsize), bitmap;
      bitmap := new Word[Blocks(newSize)](i requires 0 <= i reads from => if i < from.Length then from[i] else 0);
      GrowWords(from[..], bitmap[..]);
      bsize := newSize;
    }

    /** stack_map_alloc: the end of the interval, or -1. */
    method Alloc(n: int) returns (end: int)
      requires Valid()
      modifies this, bitmap
      ensures Valid() && baseOffset == old(baseOffset) && (bitmap == old(bitmap) || fresh(bitmap))
      ensures end == -1 <==> n <= 0
      ensures n <= 0 ==> unchanged(this) && Cells() == old(Cells())
      ensures n > 0 ==>
                var start := end - n;
                && baseOffset <= start && Fits(old(Cells()), start, n) && Cells() == old(Cells()) + Interval(start, n)
                && (if bsize == old(bsize) then FirstFit(old(Cells()), baseOffset, bsize, n, start)
                    else
                      && NoFit(old(Cells()), baseOffset, old(bsize), n)
                      && start == old(bsize) && bsize == start + Max(n, DEFAULT))
                && offset == end && lastOffset == Max(old(lastOffset), end)
    {
      if n <= 0 {
        return -1;
      }
      var found, place := Search(n);
      hide Taken;
      if found {
        end := Occupy(place, n);
        return;
      }
      var start := bsize;
      assert Fits(Cells(), start, n);
      hide NoFit;
      Grow(bsize + Max(n, DEFAULT));
      end := Occupy(start, n);
    }

    method AllTaken(start: nat, n: nat) returns (all: bool)
      requires Valid() && start + n <= bsize
      ensures all <==> Interval(start, n) <= Cells()
    {
      all := true;
      for i := 0 to n
        invariant all && Interval(start, i) <= Cells()
      {
        var isSet := BitTest(start + i);
        if !isSet {
          assert start + i in Interval(start, n);
          return false;
        }
      }
    }

    method ClearInterval(start: nat, n: nat)
      requires start + n <= CELLS * bitmap.Length
      modifies bitmap
      ensures Cells() == old(Cells()) - Interval(start, n)
    {
      for j := 0 to n
        invariant Cells() == old(Cells()) - Interval(start, j)
      {
        BitClear(start + j);
      }
    }

    /** The two attempts of stack_map_free: the interval ending at off, then the one starting there. */
    method Locate(off: nat, n: nat) returns (start: int)
      requires Valid() && n > 0 && off < bsize
      ensures start == FreeStart(Cells(), baseOffset, bsize, off, n)
    {
      var sequenceStart := off - n;
      var validSequence := sequenceStart >= 0 && sequenceStart >= baseOffset && sequenceStart + n <= bsize;
      var validOffset := off >= 0 && off >= baseOffset && off + n <= bsize;
      start := -1;
      if validSequence {
        var all := AllTaken(sequenceStart, n);
        if all {
          start := sequenceStart;
        }
      }
      if start < 0 && validOffset {
        var all := AllTaken(off, n);
        if all {
          start := off;
        }
      }
    }

    /** stack_map_free. */
    method Free(off: int, n: int) returns (ok: bool)
      requires Valid()
      modifies `offset, bitmap
      ensures Valid()
      ensures var start := FreeStart(old(Cells()), baseOffset, bsize, off, n);
              && (ok <==> start >= 0)
              && Cells() == old(Cells()) - (if ok then Interval(start, n) else {})
              && offset == if ok && start < old(offset) then start else old(offset)
    {
      if n <= 0 || off < 0 || off >= bsize {
        return false;
      }
      var start := Locate(off, n);
      if start < 0 {
        return false;
      }
      ClearInterval(start, n);
      if start < offset {
        offset := if start < baseOffset then baseOffset else start;
      }
      return true;
    }

    /** stack_map_set_base. */
    method SetBase(off: int) returns (ok: bool)
      requires Valid()
      modifies `baseOffset, `offset, `lastOffset
      ensures Valid() && (ok <==> 0 <= off < bsize)
      ensures baseOffset == if ok then off else old(baseOffset)
      ensures offset == if ok then Max(old(offset), off) else old(offset)
      ensures lastOffset == if ok then Max(old(lastOffset), off) else old(lastOffset)
    {
      if off < 0 || off >= bsize {
        return false;
      }
      baseOffset := off;
      if offset < baseOffset {
        offset := baseOffset;
      }
      if lastOffset < baseOffset {
        lastOffset := baseOffset;
      }
      return true;
    }
  }
}
