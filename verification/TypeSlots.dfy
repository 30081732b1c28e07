/** The leaf slots of a type: what TPTB_find_type_init_slot finds for 0, 1, 2, ... */
module TypeSlots {
  import opened TypeTable

  /** Where a leaf lies, its width, its type (NONE for a vtable word), and the type it was reached through. */
  datatype Slot = Slot(off: int, size: int, kind: int, owner: int)

  /** C division. */
  function Div(a: int, b: Width): int {
    if a >= 0 then a / b else -((-a) / b)
  }

  /** The type whose elements or children are searched for the leaves of id. */
  function Scan(tab: Table, id: int): int
    requires tab.Copies() && id in tab.types
  {
    if tab.types[id].p != NONE then tab.Resolve(id) else id
  }

  predicate IsLeaf(tab: Table, id: int) {
    id in tab.types && (tab.types[id].ptr != 0 || tab.types[id].body.Primitive?)
  }

  /** Child c lies inside id by value, and is searched with it. */
  predicate Within(tab: Table, c: int, id: int)
    requires tab.Copies()
  {
    && id in tab.types && !IsLeaf(tab, id) && Scan(tab, id) in tab.types
    && var b := tab.types[Scan(tab, id)].body;
       || (b.Array? && c == b.element && tab.MemSize(c) > 0)
       || (b.Custom? && c in b.children && tab.IsField(c))
  }

  /** A rank that falls from every type to what lies inside it: no type contains itself by value. */
  ghost predicate Ranked(tab: Table, rank: map<int, nat>)
    requires tab.Copies()
  {
    && (forall id :: id in tab.types ==> id in rank)
    && forall c, id {:trigger Within(tab, c, id)} :: Within(tab, c, id) ==>
         c in rank && id in rank && rank[c] < rank[id]
  }

  function Owned(s: seq<Slot>, owner: int): (r: seq<Slot>)
    ensures |r| == |s|
    ensures forall i :: 0 <= i < |s| ==> r[i] == s[i].(owner := owner)
  {
    seq(|s|, i requires 0 <= i < |s| => s[i].(owner := owner))
  }

  /** The hidden slot of a vtable pointer. */
  function VtableSlot(tab: Table, scan: int, base: int): seq<Slot>
    requires scan in tab.types
  {
    if tab.SlotCount(tab.types[scan].body) != 0 then [Slot(base, tab.conf.full, NONE, scan)] else []
  }

  /** All slots of a type placed at base, in the order of the search. */
  ghost function Slots(tab: Table, rank: map<int, nat>, id: int, base: int): seq<Slot>
    requires tab.Copies() && Ranked(tab, rank)
    decreases if id in rank then rank[id] + 1 else 0, 0, 0
  {
    if id !in tab.types then []
    else if IsLeaf(tab, id) then [Slot(base, tab.MemSize(id), id, id)]
    else
      var scan := Scan(tab, id);
      if scan !in tab.types then []
      else match tab.types[scan].body
        case Array(element, _) =>
          if tab.MemSize(element) <= 0 then []
          else
            assert Within(tab, element, id);
            Repeats(tab, rank, rank[id], scan, element, base, Div(tab.MemSize(id), tab.MemSize(element)))
        case Custom(_, _, _, _, children) =>
          var b := tab.types[scan].body;
          assert forall c :: c in children && tab.IsField(c) ==> Within(tab, c, id);
          VtableSlot(tab, scan, base) + Fields(tab, rank, rank[id], b, base, |children|).0
        case _ => []
  }

  ghost predicate Below(rank: map<int, nat>, c: int, bound: nat) {
    c in rank && rank[c] < bound
  }

  /** The slots of the first n elements of an array. */
  ghost function Repeats(tab: Table, rank: map<int, nat>, bound: nat, scan: int, element: int, base: int,
                         n: int): seq<Slot>
    requires tab.Copies() && Ranked(tab, rank) && Below(rank, element, bound)
    decreases bound, 1, if n < 0 then 0 else n
  {
    if n <= 0 then []
    else
      Repeats(tab, rank, bound, scan, element, base, n - 1)
      + Owned(Slots(tab, rank, element, base + (n - 1) * tab.MemSize(element)), scan)
  }

  /** The slots of the first n children of a container, and where the next child is to begin. */
  ghost function Fields(tab: Table, rank: map<int, nat>, bound: nat, b: Body, base: int, n: nat): (seq<Slot>, int)
    requires tab.Copies() && Ranked(tab, rank) && b.Custom? && n <= |b.children|
    requires forall c :: c in b.children && tab.IsField(c) ==> Below(rank, c, bound)
    decreases bound, 1, n
  {
    if n == 0 then ([], tab.Prefix(b))
    else
      var (s, off) := Fields(tab, rank, bound, b, base, n - 1);
      var c := b.children[n - 1];
      if !tab.IsField(c) || off < 0 then (s, off)
      else
        assert Below(rank, c, bound);
        var size := tab.MemSize(c);
        var at := if b.align == NONE then Align(off, size) else off;
        (s + Slots(tab, rank, c, base + at), if b.align == NONE then at + size else at + Align(size, b.align))
  }

  lemma {:induction false} RepeatsPrefix(tab: Table, rank: map<int, nat>, bound: nat, scan: int, element: int,
                                         base: int, m: int, n: int)
    requires tab.Copies() && Ranked(tab, rank) && Below(rank, element, bound) && m <= n
    ensures Repeats(tab, rank, bound, scan, element, base, m) <= Repeats(tab, rank, bound, scan, element, base, n)
    decreases n - m
  {
    if m < n {
      RepeatsPrefix(tab, rank, bound, scan, element, base, m, n - 1);
    }
  }

  lemma {:induction false} FieldsPrefix(tab: Table, rank: map<int, nat>, bound: nat, b: Body, base: int, m: nat, n: nat)
    requires tab.Copies() && Ranked(tab, rank) && b.Custom? && m <= n <= |b.children|
    requires forall c :: c in b.children && tab.IsField(c) ==> Below(rank, c, bound)
    ensures Fields(tab, rank, bound, b, base, m).0 <= Fields(tab, rank, bound, b, base, n).0
    decreases n - m
  {
    if m < n {
      FieldsPrefix(tab, rank, bound, b, base, m, n - 1);
    }
  }

  // ---- the slots tile the type ----

  /** Slots of positive width, one after the other, all between lo and hi. */
  ghost predicate Ordered(s: seq<Slot>, lo: int, hi: int) {
    && (forall i :: 0 <= i < |s| ==> s[i].size > 0 && lo <= s[i].off && s[i].off + s[i].size <= hi)
    && forall i, j :: 0 <= i < j < |s| ==> s[i].off + s[i].size <= s[j].off
  }

  lemma OrderedJoins(a: seq<Slot>, b: seq<Slot>, lo: int, mid: int, hi: int)
    requires lo <= mid <= hi && Ordered(a, lo, mid) && Ordered(b, mid, hi)
    ensures Ordered(a + b, lo, hi)
  {
  }

  lemma OrderedWithin(s: seq<Slot>, lo: int, hi: int, lo': int, hi': int)
    requires Ordered(s, lo, hi) && lo' <= lo && hi <= hi'
    ensures Ordered(s, lo', hi')
  {
  }

  /** The containers in a type are structs with a power-of-two alignment, and every stored size is up to date. */
  ghost predicate Laid(tab: Table, rank: map<int, nat>, id: int)
    requires tab.Copies() && Ranked(tab, rank)
    decreases if id in rank then rank[id] + 1 else 0
  {
    id in tab.types && !IsLeaf(tab, id) && Scan(tab, id) in tab.types ==>
      var b := tab.types[Scan(tab, id)].body;
      && (b.Array? && tab.MemSize(b.element) > 0 ==>
            assert Within(tab, b.element, id);
            Laid(tab, rank, b.element))
      && (b.Custom? ==>
            && b.multiple && PowerOfTwo(b.align) && tab.MemSize(id) == tab.LayoutSize(b)
            && forall c :: c in b.children && tab.IsField(c) ==>
                 assert Within(tab, c, id);
                 Laid(tab, rank, c))
  }

  /** The offset the search carries along is the offset of the layout. */
  lemma {:induction false} FieldsOffset(tab: Table, rank: map<int, nat>, bound: nat, b: Body, base: int, n: nat)
    requires tab.Copies() && Ranked(tab, rank) && b.Custom? && n <= |b.children| && PowerOfTwo(b.align)
    requires forall c :: c in b.children && tab.IsField(c) ==> Below(rank, c, bound)
    ensures Fields(tab, rank, bound, b, base, n).1 == tab.Offset(tab.Prefix(b), b.align, b.children, n) >= tab.Prefix(b)
    decreases n
  {
    PowerPositive(b.align);
    if n != 0 {
      FieldsOffset(tab, rank, bound, b, base, n - 1);
      tab.RoomFits(b.children[n - 1], b.align);
    }
  }

  /** Slots 0, 1, 2, ... lie one behind the other inside the type. */
  lemma {:induction false} SlotsTile(tab: Table, rank: map<int, nat>, id: int, base: int)
    requires tab.Copies() && Ranked(tab, rank) && Laid(tab, rank, id)
    ensures Ordered(Slots(tab, rank, id, base), base, base + tab.MemSize(id))
    decreases if id in rank then rank[id] + 1 else 0, 0, 0
  {
    if id in tab.types && !IsLeaf(tab, id) && Scan(tab, id) in tab.types {
      var scan := Scan(tab, id);
      var b := tab.types[scan].body;
      if b.Array? && tab.MemSize(b.element) > 0 {
        assert Within(tab, b.element, id);
        var n := Div(tab.MemSize(id), tab.MemSize(b.element));
        RepeatsTile(tab, rank, rank[id], scan, b.element, base, n);
        if n > 0 {
          assert n * tab.MemSize(b.element) <= tab.MemSize(id);
        }
      } else if b.Custom? {
        assert forall c :: c in b.children && tab.IsField(c) ==> Within(tab, c, id);
        FieldsTile(tab, rank, rank[id], b, base, |b.children|);
        FieldsOffset(tab, rank, rank[id], b, base, |b.children|);
        tab.ExtentIsOffset(b, |b.children|);
        OrderedJoins(VtableSlot(tab, scan, base), Fields(tab, rank, rank[id], b, base, |b.children|).0,
                     base, base + tab.Prefix(b), base + tab.MemSize(id));
      }
    }
  }

  lemma Times(n: int, size: int)
    requires n > 0 && size > 0
    ensures n * size == (n - 1) * size + size && (n - 1) * size >= 0
  {
  }

  lemma {:induction false} RepeatsTile(tab: Table, rank: map<int, nat>, bound: nat, scan: int, element: int,
                                       base: int, n: int)
    requires tab.Copies() && Ranked(tab, rank) && Below(rank, element, bound)
    requires tab.MemSize(element) > 0 && Laid(tab, rank, element)
    ensures Ordered(Repeats(tab, rank, bound, scan, element, base, n), base,
                    base + (if n < 0 then 0 else n) * tab.MemSize(element))
    decreases bound, 1, if n < 0 then 0 else n
  {
    hide Slots;
    hide Laid;
    if n > 0 {
      var size := tab.MemSize(element);
      var mid := base + (n - 1) * size;
      RepeatsTile(tab, rank, bound, scan, element, base, n - 1);
      SlotsTile(tab, rank, element, mid);
      assert Ordered(Owned(Slots(tab, rank, element, mid), scan), mid, mid + size);
      Times(n, size);
      OrderedJoins(Repeats(tab, rank, bound, scan, element, base, n - 1), Owned(Slots(tab, rank, element, mid), scan),
                   base, mid, base + n * size);
    }
  }

  lemma {:induction false} FieldsTile(tab: Table, rank: map<int, nat>, bound: nat, b: Body, base: int, n: nat)
    requires tab.Copies() && Ranked(tab, rank) && b.Custom? && n <= |b.children|
    requires forall c :: c in b.children && tab.IsField(c) ==> Below(rank, c, bound) && Laid(tab, rank, c)
    requires PowerOfTwo(b.align)
    ensures Ordered(Fields(tab, rank, bound, b, base, n).0, base + tab.Prefix(b),
                    base + tab.Offset(tab.Prefix(b), b.align, b.children, n))
    decreases bound, 1, n + 1
  {
    hide Slots;
    hide Laid;
    hide Table.Prefix;
    hide PowerOfTwo;
    if n != 0 {
      FieldsTile(tab, rank, bound, b, base, n - 1);
      FieldsOffset(tab, rank, bound, b, base, n - 1);
      PowerPositive(b.align);
      var (s, off) := Fields(tab, rank, bound, b, base, n - 1);
      var c := b.children[n - 1];
      if tab.IsField(c) {
        FieldJoins(tab, rank, bound, b, s, base, off, c);
      }
    }
  }

  lemma FieldJoins(tab: Table, rank: map<int, nat>, bound: nat, b: Body, s: seq<Slot>, base: int, off: int, c: int)
    requires tab.Copies() && Ranked(tab, rank) && b.Custom? && PowerOfTwo(b.align)
    requires Below(rank, c, bound) && Laid(tab, rank, c) && tab.IsField(c)
    requires off >= tab.Prefix(b) && Ordered(s, base + tab.Prefix(b), base + off)
    ensures Ordered(s + Slots(tab, rank, c, base + off), base + tab.Prefix(b), base + off + tab.Room(c, b.align))
    decreases bound, 1, 0
  {
    hide Table.Prefix;
    hide Table.Room;
    hide Slots;
    hide Laid;
    hide Ranked;
    tab.RoomFits(c, b.align);
    SlotsTile(tab, rank, c, base + off);
    var end := base + off + tab.Room(c, b.align);
    OrderedWithin(Slots(tab, rank, c, base + off), base + off, base + off + tab.MemSize(c), base + off, end);
    OrderedJoins(s, Slots(tab, rank, c, base + off), base + tab.Prefix(b), base + off, end);
  }

  /** The leaves of a field stand together among the leaves of the fields. */
  lemma LeavesAmongFields(tab: Table, rank: map<int, nat>, bound: nat, b: Body, base: int, k: nat)
    returns (before: seq<Slot>, after: seq<Slot>)
    requires tab.Copies() && Ranked(tab, rank) && b.Custom? && PowerOfTwo(b.align)
    requires forall c :: c in b.children && tab.IsField(c) ==> Below(rank, c, bound)
    requires k < |b.children| && tab.IsField(b.children[k])
    ensures var at := base + tab.Offset(tab.Prefix(b), b.align, b.children, k);
            Fields(tab, rank, bound, b, base, |b.children|).0 == before + Slots(tab, rank, b.children[k], at) + after
  {
    hide Slots;
    hide PowerOfTwo;
    FieldsOffset(tab, rank, bound, b, base, k);
    FieldsPrefix(tab, rank, bound, b, base, k + 1, |b.children|);
    PowerPositive(b.align);
    var all := Fields(tab, rank, bound, b, base, |b.children|).0;
    before := Fields(tab, rank, bound, b, base, k).0;
    var upTo := Fields(tab, rank, bound, b, base, k + 1).0;
    assert upTo == before + Slots(tab, rank, b.children[k], base + tab.Offset(tab.Prefix(b), b.align, b.children, k));
    after := all[|upTo|..];
    assert all == upTo + after;
  }

  /** The leaves of a field stand together among the slots of a struct. */
  lemma LeavesOfField(tab: Table, rank: map<int, nat>, id: int, k: nat, base: int)
    returns (before: seq<Slot>, after: seq<Slot>)
    requires tab.Copies() && Ranked(tab, rank)
    requires id in tab.types && !IsLeaf(tab, id) && Scan(tab, id) in tab.types
    requires var b := tab.types[Scan(tab, id)].body;
      b.Custom? && PowerOfTwo(b.align) && k < |b.children| && tab.IsField(b.children[k])
    ensures var b := tab.types[Scan(tab, id)].body;
      Slots(tab, rank, id, base)
      == before + Slots(tab, rank, b.children[k], base + tab.Offset(tab.Prefix(b), b.align, b.children, k)) + after
  {
    var scan := Scan(tab, id);
    var b := tab.types[scan].body;
    assert forall c :: c in b.children && tab.IsField(c) ==> Within(tab, c, id);
    hide Table.Offset;
    hide PowerOfTwo;
    var a, rest := LeavesAmongFields(tab, rank, rank[id], b, base, k);
    var w := VtableSlot(tab, scan, base);
    var c := Slots(tab, rank, b.children[k], base + tab.Offset(tab.Prefix(b), b.align, b.children, k));
    assert Slots(tab, rank, id, base) == w + Fields(tab, rank, rank[id], b, base, |b.children|).0;
    assert w + (a + c + rest) == (w + a) + c + rest;
    before, after := w + a, rest;
  }

  // ---- what a slot can be ----

  /** The slot is a word for a pointer or a vtable, and as wide as its token says for a primitive type. */
  predicate OfKind(tab: Table, kind: int, size: int) {
    if kind == NONE || (kind in tab.types && tab.types[kind].ptr != 0) then size == tab.conf.full
    else
      && kind in tab.types && tab.types[kind].body.Primitive?
      && size == match tab.types[kind].body.token
                 case Wide => tab.conf.full
                 case Half => tab.conf.half
                 case Quarter => tab.conf.quarter
                 case I8 => tab.conf.eighth
                 case Narrow => tab.conf.eighth
  }

  predicate OfWidth(tab: Table, s: seq<Slot>) {
    forall i :: 0 <= i < |s| ==>
        && OfKind(tab, s[i].kind, s[i].size)
        && s[i].size in {tab.conf.full, tab.conf.half, tab.conf.quarter, tab.conf.eighth}
  }

  /** Every slot has the width of its kind, one of the four configured ones. */
  lemma {:induction false} LeafWidths(tab: Table, rank: map<int, nat>, id: int, base: int)
    requires tab.Copies() && Ranked(tab, rank)
    ensures OfWidth(tab, Slots(tab, rank, id, base))
    decreases if id in rank then rank[id] + 1 else 0, 0, 0
  {
    if id in tab.types && !IsLeaf(tab, id) && Scan(tab, id) in tab.types {
      var scan := Scan(tab, id);
      var b := tab.types[scan].body;
      if b.Array? && tab.MemSize(b.element) > 0 {
        assert Within(tab, b.element, id);
        RepeatWidths(tab, rank, rank[id], scan, b.element, base, Div(tab.MemSize(id), tab.MemSize(b.element)));
      } else if b.Custom? {
        assert forall c :: c in b.children && tab.IsField(c) ==> Within(tab, c, id);
        FieldWidths(tab, rank, rank[id], b, base, |b.children|);
      }
    }
  }

  lemma {:induction false} RepeatWidths(tab: Table, rank: map<int, nat>, bound: nat, scan: int, element: int,
                                        base: int, n: int)
    requires tab.Copies() && Ranked(tab, rank) && Below(rank, element, bound)
    ensures OfWidth(tab, Repeats(tab, rank, bound, scan, element, base, n))
    decreases bound, 1, if n < 0 then 0 else n
  {
    hide Slots;
    hide OfKind;
    if n > 0 {
      RepeatWidths(tab, rank, bound, scan, element, base, n - 1);
      LeafWidths(tab, rank, element, base + (n - 1) * tab.MemSize(element));
    }
  }

  lemma {:induction false} FieldWidths(tab: Table, rank: map<int, nat>, bound: nat, b: Body, base: int, n: nat)
    requires tab.Copies() && Ranked(tab, rank) && b.Custom? && n <= |b.children|
    requires forall c :: c in b.children && tab.IsField(c) ==> Below(rank, c, bound)
    ensures OfWidth(tab, Fields(tab, rank, bound, b, base, n).0)
    decreases bound, 1, n
  {
    if n != 0 {
      FieldWidths(tab, rank, bound, b, base, n - 1);
      var (s, off) := Fields(tab, rank, bound, b, base, n - 1);
      var c := b.children[n - 1];
      hide Slots;
      hide OfKind;
      hide Align;
      hide Table.Prefix;
      if tab.IsField(c) && off >= 0 {
        LeafWidths(tab, rank, c, base + if b.align == NONE then Align(off, tab.MemSize(c)) else off);
      }
    }
  }
}
