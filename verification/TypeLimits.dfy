/** Containers whose slots the search does not keep inside the stored size: unions, and structs laid out as in C. */
module TypeLimits {
  import opened TypeTable
  import opened TypeSlots

  /** A container of its own, not a copy, all of whose fields are leaves, with its size up to date. */
  ghost predicate Flat(tab: Table, p: int) {
    && p in tab.types && tab.types[p].p == NONE && tab.types[p].ptr == 0 && tab.types[p].body.Custom?
    && tab.types[p].body.size == tab.LayoutSize(tab.types[p].body)
    && forall c :: c in tab.types[p].body.children && tab.IsField(c) ==> IsLeaf(tab, c)
  }

  /** How many of the first n children are fields. */
  function FieldCount(tab: Table, children: seq<int>, n: nat): nat
    requires n <= |children|
  {
    if n == 0 then 0 else FieldCount(tab, children, n - 1) + (if tab.IsField(children[n - 1]) then 1 else 0)
  }

  lemma {:induction false} LastField(tab: Table, children: seq<int>, n: nat) returns (l: nat)
    requires n <= |children| && FieldCount(tab, children, n) > 0
    ensures l < n && tab.IsField(children[l])
    ensures FieldCount(tab, children, l) == FieldCount(tab, children, n) - 1
    ensures forall i :: l < i < n ==> !tab.IsField(children[i])
  {
    if tab.IsField(children[n - 1]) {
      l := n - 1;
    } else {
      l := LastField(tab, children, n - 1);
    }
  }

  // ---- unions ----

  lemma MultipleAtLeast(a: int, b: int)
    requires b > 0 && a > 0 && a % b == 0
    ensures a >= b
  {
  }

  /** What the search adds up is at least what the union takes the maximum of; with no more than one field they
      agree. */
  lemma {:induction false} SumAndMaximum(tab: Table, b: Body, prefix: nat, n: nat)
    requires b.Custom? && !b.multiple && PowerOfTwo(b.align) && n <= |b.children|
    ensures 0 <= tab.Extent(b, n) <= tab.Offset(prefix, b.align, b.children, n) - prefix
    ensures FieldCount(tab, b.children, n) > 0 ==> tab.Offset(prefix, b.align, b.children, n) - prefix >= b.align
    ensures FieldCount(tab, b.children, n) <= 1 ==>
              tab.Offset(prefix, b.align, b.children, n) - prefix == tab.Extent(b, n)
    ensures FieldCount(tab, b.children, n) == 0 ==> tab.Extent(b, n) == 0
  {
    if n > 0 {
      SumAndMaximum(tab, b, prefix, n - 1);
      var c := b.children[n - 1];
      if tab.IsField(c) {
        AlignRoundsUp(tab.MemSize(c), b.align);
        MultipleAtLeast(Align(tab.MemSize(c), b.align), b.align);
      }
    }
  }

  lemma {:induction false} ExtentEnds(tab: Table, b: Body, l: nat, n: nat)
    requires b.Custom? && l < n <= |b.children| && forall i :: l < i < n ==> !tab.IsField(b.children[i])
    ensures tab.Extent(b, n) == tab.Extent(b, l + 1)
  {
    if l + 1 < n {
      ExtentEnds(tab, b, l, n - 1);
    }
  }

  lemma OneField(tab: Table, rank: map<int, nat>, p: int, base: int)
    requires tab.Copies() && Ranked(tab, rank) && Flat(tab, p)
    requires !tab.types[p].body.multiple && PowerOfTwo(tab.types[p].body.align)
    requires FieldCount(tab, tab.types[p].body.children, |tab.types[p].body.children|) <= 1
    ensures Ordered(Slots(tab, rank, p, base), base, base + tab.MemSize(p))
  {
    var b := tab.types[p].body;
    var prefix := tab.Prefix(b);
    assert forall c :: c in b.children && tab.IsField(c) ==> Within(tab, c, p);
    FieldsTile(tab, rank, rank[p], b, base, |b.children|);
    SumAndMaximum(tab, b, prefix, |b.children|);
    OrderedJoins(VtableSlot(tab, p, base), Fields(tab, rank, rank[p], b, base, |b.children|).0, base, base + prefix,
                 base + tab.MemSize(p));
  }

  lemma ManyFields(tab: Table, rank: map<int, nat>, p: int, base: int)
    requires tab.Copies() && Ranked(tab, rank) && Flat(tab, p)
    requires !tab.types[p].body.multiple && PowerOfTwo(tab.types[p].body.align)
    requires FieldCount(tab, tab.types[p].body.children, |tab.types[p].body.children|) > 1
    ensures !Ordered(Slots(tab, rank, p, base), base, base + tab.MemSize(p))
  {
    var b := tab.types[p].body;
    var prefix, n := tab.Prefix(b), |b.children|;
    var l := LastField(tab, b.children, n);
    var c := b.children[l];
    SumAndMaximum(tab, b, prefix, l);
    AlignRoundsUp(tab.MemSize(c), b.align);
    ExtentEnds(tab, b, l, n);
    var at := tab.Offset(prefix, b.align, b.children, l);
    assert at + tab.MemSize(c) > tab.MemSize(p);
    var before, after := LeavesOfField(tab, rank, p, l, base);
    assert Slots(tab, rank, p, base)[|before|] == Slot(base + at, tab.MemSize(c), c, c);
  }

  /** The slots of a union of leaves lie inside it exactly when it has no more than one field. */
  lemma UnionSlots(tab: Table, rank: map<int, nat>, p: int, base: int)
    requires tab.Copies() && Ranked(tab, rank) && Flat(tab, p)
    requires !tab.types[p].body.multiple && PowerOfTwo(tab.types[p].body.align)
    ensures var children := tab.types[p].body.children;
      Ordered(Slots(tab, rank, p, base), base, base + tab.MemSize(p)) <==> FieldCount(tab, children, |children|) <= 1
  {
    var b := tab.types[p].body;
    var n := |b.children|;
    if FieldCount(tab, b.children, n) <= 1 {
      OneField(tab, rank, p, base);
    } else {
      ManyFields(tab, rank, p, base);
    }
  }

  // ---- structs laid out as in C ----

  /** Every field begins, without padding, at a multiple of its size. */
  predicate Unpadded(tab: Table, b: Body, n: nat)
    requires b.Custom? && n <= |b.children|
  {
    forall k :: 0 <= k < n && tab.IsField(b.children[k]) ==>
        (tab.Prefix(b) + tab.Extent(b, k)) % tab.MemSize(b.children[k]) == 0
  }

  ghost predicate PowerSizes(tab: Table, children: seq<int>) {
    forall c :: c in children && tab.IsField(c) ==> PowerOfTwo(tab.MemSize(c))
  }

  lemma Fixed(x: int, y: int, b: int)
    requires b > 0 && x % b == 0 && y % b == 0 && x <= y < x + b
    ensures x == y
  {
    var q, r := x / b, y / b;
    assert x == b * q && y == b * r;
    assert b * (r - q) < b;
    if r > q {
      AtLeastOnce(b, r - q);
    }
  }

  lemma AlignFixed(x: int, b: int)
    requires PowerOfTwo(b)
    ensures b > 0 && (Align(x, b) == x <==> x % b == 0)
  {
    AlignRoundsUp(x, b);
    if x % b == 0 {
      Fixed(x, Align(x, b), b);
    }
  }

  lemma Whole(b: int)
    requires b > 0
    ensures b % b == 0
  {
  }

  lemma PadOne(s: seq<Slot>, slot: Slot, base: int, lo: int, off: int, sum: int, unpadded: bool)
    requires PowerOfTwo(slot.size) && slot.size > 0 && off >= sum && (off == sum <==> unpadded) && lo <= off
    requires Ordered(s, base + lo, base + off) && slot.off == base + Align(off, slot.size)
    ensures Align(slot.size, slot.size) == slot.size && Align(off, slot.size) >= off
    ensures Align(off, slot.size) == sum <==> unpadded && sum % slot.size == 0
    ensures Ordered(s + [slot], base + lo, base + Align(off, slot.size) + slot.size)
  {
    hide Align;
    AlignFixed(off, slot.size);
    AlignRoundsUp(off, slot.size);
    Whole(slot.size);
    AlignFixed(slot.size, slot.size);
    OrderedJoins(s, [slot], base + lo, base + off, base + Align(off, slot.size) + slot.size);
  }

  lemma NoFields(tab: Table, b: Body, base: int)
    requires b.Custom?
    ensures Unpadded(tab, b, 0) && Ordered([], base + tab.Prefix(b), base + tab.Prefix(b))
  {
  }

  lemma UnpaddedNext(tab: Table, b: Body, n: nat)
    requires b.Custom? && 0 < n <= |b.children| && !tab.IsField(b.children[n - 1])
    ensures Unpadded(tab, b, n) <==> Unpadded(tab, b, n - 1)
  {
  }

  lemma UnpaddedStep(tab: Table, b: Body, n: nat)
    requires b.Custom? && 0 < n <= |b.children| && tab.IsField(b.children[n - 1])
    ensures Unpadded(tab, b, n) <==>
              && Unpadded(tab, b, n - 1)
              && (tab.Prefix(b) + tab.Extent(b, n - 1)) % tab.MemSize(b.children[n - 1]) == 0
  {
  }

  /** The search pads each field to its own size, the stored size is the bare sum: they agree up to n exactly without
      padding. */
  lemma {:induction false} PaddingCounts(tab: Table, rank: map<int, nat>, p: int, base: int, n: nat)
    requires tab.Copies() && Ranked(tab, rank) && Flat(tab, p)
    requires var b := tab.types[p].body;
             b.multiple && b.align == NONE && n <= |b.children| && PowerSizes(tab, b.children)
    requires forall c :: c in tab.types[p].body.children && tab.IsField(c) ==> Below(rank, c, rank[p])
    ensures var b := tab.types[p].body;
      var (s, end) := Fields(tab, rank, rank[p], b, base, n);
      && tab.Extent(b, n) >= 0 && end >= tab.Prefix(b) + tab.Extent(b, n)
      && (end == tab.Prefix(b) + tab.Extent(b, n) <==> Unpadded(tab, b, n))
      && Ordered(s, base + tab.Prefix(b), base + end)
      && (s != [] ==> s[|s| - 1].off + s[|s| - 1].size == base + end)
      && (s == [] ==> end == tab.Prefix(b) && tab.Extent(b, n) == 0)
  {
    hide Align;
    hide Unpadded;
    hide Ordered;
    hide PowerOfTwo;
    hide Table.Prefix;
    hide Table.LayoutSize;
    var b := tab.types[p].body;
    if n == 0 {
      NoFields(tab, b, base);
    } else {
      PaddingCounts(tab, rank, p, base, n - 1);
      var c := b.children[n - 1];
      if tab.IsField(c) {
        var (s, off) := Fields(tab, rank, rank[p], b, base, n - 1);
        var size := tab.MemSize(c);
        var slot := Slot(base + Align(off, size), size, c, c);
        assert Slots(tab, rank, c, base + Align(off, size)) == [slot];
        PadOne(s, slot, base, tab.Prefix(b), off, tab.Prefix(b) + tab.Extent(b, n - 1), Unpadded(tab, b, n - 1));
        UnpaddedStep(tab, b, n);
      } else {
        UnpaddedNext(tab, b, n);
      }
    }
  }

  lemma WordTiles(tab: Table, p: int, base: int)
    requires p in tab.types
    ensures Ordered(VtableSlot(tab, p, base), base, base + tab.Prefix(tab.types[p].body))
  {
  }

  /** Slots whose last one ends at end lie below hi exactly when end does. */
  lemma EndDecides(word: seq<Slot>, s: seq<Slot>, lo: int, mid: int, end: int, hi: int)
    requires Ordered(word, lo, mid) && Ordered(s, mid, end) && lo <= mid <= end && mid <= hi
    requires if s == [] then end == mid else s[|s| - 1].off + s[|s| - 1].size == end
    ensures Ordered(word + s, lo, hi) <==> end <= hi
  {
    OrderedJoins(word, s, lo, mid, end);
    if s != [] {
      assert (word + s)[|word| + |s| - 1] == s[|s| - 1];
    }
  }

  /** The slots of a struct laid out as in C lie inside it exactly when none of its fields needed padding. */
  lemma LikeCSlots(tab: Table, rank: map<int, nat>, p: int, base: int)
    requires tab.Copies() && Ranked(tab, rank) && Flat(tab, p)
    requires var b := tab.types[p].body; b.multiple && b.align == NONE && PowerSizes(tab, b.children)
    ensures Ordered(Slots(tab, rank, p, base), base, base + tab.MemSize(p)) <==>
              Unpadded(tab, tab.types[p].body, |tab.types[p].body.children|)
  {
    hide Unpadded;
    hide Ordered;
    hide VtableSlot;
    hide Table.Prefix;
    hide Fields;
    var b := tab.types[p].body;
    var n := |b.children|;
    assert forall c :: c in b.children && tab.IsField(c) ==> Within(tab, c, p);
    PaddingCounts(tab, rank, p, base, n);
    var (s, end) := Fields(tab, rank, rank[p], b, base, n);
    WordTiles(tab, p, base);
    EndDecides(VtableSlot(tab, p, base), s, base, base + tab.Prefix(b), base + end, base + tab.MemSize(p));
  }
}
