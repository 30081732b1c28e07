/** What the slots of arrays and containers are: those of their elements and fields, and the vtable word. */
module TypeElements {
  import opened TypeTable
  import opened TypeSlots

  // ---- slots do not depend on where the type lies ----

  /** The same slots, d bytes further on. */
  predicate Moved(s: seq<Slot>, t: seq<Slot>, d: int) {
    |s| == |t| && forall i :: 0 <= i < |s| ==> t[i] == s[i].(off := s[i].off + d)
  }

  lemma MovedJoins(s: seq<Slot>, t: seq<Slot>, s': seq<Slot>, t': seq<Slot>, d: int)
    requires Moved(s, s', d) && Moved(t, t', d)
    ensures Moved(s + t, s' + t', d)
  {
  }

  lemma {:induction false} SlotsMove(tab: Table, rank: map<int, nat>, id: int, base: int, d: int)
    requires tab.Copies() && Ranked(tab, rank)
    ensures Moved(Slots(tab, rank, id, base), Slots(tab, rank, id, base + d), d)
    decreases if id in rank then rank[id] + 1 else 0, 0, 0
  {
    if id in tab.types && !IsLeaf(tab, id) && Scan(tab, id) in tab.types {
      var scan := Scan(tab, id);
      var b := tab.types[scan].body;
      if b.Array? && tab.MemSize(b.element) > 0 {
        assert Within(tab, b.element, id);
        RepeatsMove(tab, rank, rank[id], scan, b.element, base, d, Div(tab.MemSize(id), tab.MemSize(b.element)));
      } else if b.Custom? {
        assert forall c :: c in b.children && tab.IsField(c) ==> Within(tab, c, id);
        FieldsMove(tab, rank, rank[id], b, base, d, |b.children|);
        MovedJoins(VtableSlot(tab, scan, base), Fields(tab, rank, rank[id], b, base, |b.children|).0,
                   VtableSlot(tab, scan, base + d), Fields(tab, rank, rank[id], b, base + d, |b.children|).0, d);
      }
    }
  }

  lemma {:induction false} RepeatsMove(tab: Table, rank: map<int, nat>, bound: nat, scan: int, element: int,
                                       base: int, d: int, n: int)
    requires tab.Copies() && Ranked(tab, rank) && Below(rank, element, bound)
    ensures Moved(Repeats(tab, rank, bound, scan, element, base, n),
                  Repeats(tab, rank, bound, scan, element, base + d, n), d)
    decreases bound, 1, if n < 0 then 0 else n
  {
    hide Slots;
    if n > 0 {
      RepeatsMove(tab, rank, bound, scan, element, base, d, n - 1);
      var at := base + (n - 1) * tab.MemSize(element);
      var at' := base + d + (n - 1) * tab.MemSize(element);
      SlotsMove(tab, rank, element, at, d);
      assert at + d == at';
      MovedJoins(Repeats(tab, rank, bound, scan, element, base, n - 1), Owned(Slots(tab, rank, element, at), scan),
                 Repeats(tab, rank, bound, scan, element, base + d, n - 1),
                 Owned(Slots(tab, rank, element, at'), scan), d);
    }
  }

  lemma {:induction false} FieldsMove(tab: Table, rank: map<int, nat>, bound: nat, b: Body, base: int, d: int, n: nat)
    requires tab.Copies() && Ranked(tab, rank) && b.Custom? && n <= |b.children|
    requires forall c :: c in b.children && tab.IsField(c) ==> Below(rank, c, bound)
    ensures Moved(Fields(tab, rank, bound, b, base, n).0, Fields(tab, rank, bound, b, base + d, n).0, d)
    ensures Fields(tab, rank, bound, b, base, n).1 == Fields(tab, rank, bound, b, base + d, n).1
    decreases bound, 1, n
  {
    hide Slots;
    hide Align;
    hide Table.Prefix;
    if n != 0 {
      FieldsMove(tab, rank, bound, b, base, d, n - 1);
      var (s, off) := Fields(tab, rank, bound, b, base, n - 1);
      var c := b.children[n - 1];
      if tab.IsField(c) && off >= 0 {
        var at := if b.align == NONE then Align(off, tab.MemSize(c)) else off;
        SlotsMove(tab, rank, c, base + at, d);
        assert base + at + d == base + d + at;
        MovedJoins(s, Slots(tab, rank, c, base + at),
                   Fields(tab, rank, bound, b, base + d, n - 1).0, Slots(tab, rank, c, base + d + at), d);
      }
    }
  }

  // ---- copies ----

  lemma {:induction false} RepeatsBound(tab: Table, rank: map<int, nat>, bound: nat, bound': nat, scan: int,
                                        element: int, base: int, n: int)
    requires tab.Copies() && Ranked(tab, rank) && Below(rank, element, bound) && Below(rank, element, bound')
    ensures Repeats(tab, rank, bound, scan, element, base, n) == Repeats(tab, rank, bound', scan, element, base, n)
    decreases if n < 0 then 0 else n
  {
    hide Slots;
    if n > 0 {
      RepeatsBound(tab, rank, bound, bound', scan, element, base, n - 1);
    }
  }

  lemma {:induction false} FieldsBound(tab: Table, rank: map<int, nat>, bound: nat, bound': nat, b: Body, base: int,
                                       n: nat)
    requires tab.Copies() && Ranked(tab, rank) && b.Custom? && n <= |b.children|
    requires forall c :: c in b.children && tab.IsField(c) ==> Below(rank, c, bound) && Below(rank, c, bound')
    ensures Fields(tab, rank, bound, b, base, n) == Fields(tab, rank, bound', b, base, n)
  {
    hide Slots;
    hide Align;
    hide Table.Prefix;
    if n > 0 {
      FieldsBound(tab, rank, bound, bound', b, base, n - 1);
    }
  }

  /** A copy has the slots of what it is a copy of in the end, whatever its own entry lists. */
  lemma SlotsOfCopy(tab: Table, rank: map<int, nat>, id: int, base: int)
    requires tab.Copies() && Ranked(tab, rank) && id in tab.types && !IsLeaf(tab, id)
    requires tab.Resolve(id) in tab.types && !IsLeaf(tab, tab.Resolve(id))
    requires tab.types[tab.Resolve(id)].body.Array? ==> tab.MemSize(id) == tab.MemSize(tab.Resolve(id))
    ensures Slots(tab, rank, id, base) == Slots(tab, rank, tab.Resolve(id), base)
  {
    var root := tab.Resolve(id);
    var b := tab.types[root].body;
    if b.Array? && tab.MemSize(b.element) > 0 {
      assert Within(tab, b.element, id) && Within(tab, b.element, root);
      RepeatsBound(tab, rank, rank[id], rank[root], root, b.element, base,
                   Div(tab.MemSize(id), tab.MemSize(b.element)));
    } else if b.Custom? {
      assert forall c :: c in b.children && tab.IsField(c) ==> Within(tab, c, id) && Within(tab, c, root);
      FieldsBound(tab, rank, rank[id], rank[root], b, base, |b.children|);
    }
  }

  // ---- arrays ----

  /** The type is an array of elements of type e, which have a size. */
  predicate IsArrayOf(tab: Table, id: int, e: int)
    requires tab.Copies()
  {
    && id in tab.types && !IsLeaf(tab, id) && Scan(tab, id) in tab.types
    && tab.types[Scan(tab, id)].body.Array? && e == tab.types[Scan(tab, id)].body.element && tab.MemSize(e) > 0
  }

  lemma RowNext(n: nat, m: nat)
    requires n > 0
    ensures n * m == (n - 1) * m + m && (n - 1) * m >= 0
  {
  }

  /** The slots of n elements, m each: slot j of element k has the number k * m + j. */
  lemma {:induction false} RepeatSlots(tab: Table, rank: map<int, nat>, bound: nat, scan: int, element: int,
                                       base: int, n: nat)
    requires tab.Copies() && Ranked(tab, rank) && Below(rank, element, bound)
    ensures |Repeats(tab, rank, bound, scan, element, base, n)| == n * |Slots(tab, rank, element, 0)|
    decreases n
  {
    hide Slots;
    if n > 0 {
      var at := base + (n - 1) * tab.MemSize(element);
      RepeatSlots(tab, rank, bound, scan, element, base, n - 1);
      SlotsMove(tab, rank, element, 0, at);
      RowNext(n, |Slots(tab, rank, element, 0)|);
    }
  }

  /** The division counts the elements that fit. */
  lemma CountFits(total: int, size: Width, n: nat)
    requires total < (n + 1) * size && (n > 0 ==> n * size <= total)
    ensures n > 0 ==> Div(total, size) == n
    ensures n == 0 ==> Div(total, size) <= 0
  {
    if n > 0 {
      Quotient(total, size, n, total - n * size);
    } else if total >= 0 {
      Quotient(total, size, 0, total);
    }
  }

  /** An array has a slot for every slot of each of the n elements that fit into it, and no other. */
  lemma ArraySlotCount(tab: Table, rank: map<int, nat>, id: int, e: int, base: int, n: nat)
    requires tab.Copies() && Ranked(tab, rank) && IsArrayOf(tab, id, e)
    requires tab.MemSize(id) < (n + 1) * tab.MemSize(e) && (n > 0 ==> n * tab.MemSize(e) <= tab.MemSize(id))
    ensures |Slots(tab, rank, id, base)| == n * |Slots(tab, rank, e, 0)|
  {
    assert Within(tab, e, id);
    var scan := Scan(tab, id);
    CountFits(tab.MemSize(id), tab.MemSize(e), n);
    var d := Div(tab.MemSize(id), tab.MemSize(e));
    assert Slots(tab, rank, id, base) == Repeats(tab, rank, rank[id], scan, e, base, d);
    hide Slots;
    if n > 0 {
      RepeatSlots(tab, rank, rank[id], scan, e, base, n);
    }
  }

  lemma DivAtLeast(total: int, size: Width, n: nat)
    requires n > 0 && n * size <= total
    ensures Div(total, size) >= n
  {
    var q, r := total / size, total % size;
    DivMod(total, size, q, r);
    assert size * (n - q) == n * size - size * q;
    if q < n {
      AtLeastOnce(size, n - q);
    }
  }

  lemma {:induction false} RepeatSlotAt(tab: Table, rank: map<int, nat>, bound: nat, scan: int, element: int,
                                        base: int, n: nat, k: nat, j: nat)
    requires tab.Copies() && Ranked(tab, rank) && Below(rank, element, bound) && k < n
    requires j < |Slots(tab, rank, element, base + k * tab.MemSize(element))|
    ensures var m := |Slots(tab, rank, element, 0)|;
      var s := Repeats(tab, rank, bound, scan, element, base, n);
      && 0 <= k * m + j < |s|
      && s[k * m + j] == Slots(tab, rank, element, base + k * tab.MemSize(element))[j].(owner := scan)
  {
    RepeatSlots(tab, rank, bound, scan, element, base, k);
    RepeatsPrefix(tab, rank, bound, scan, element, base, k + 1, n);
    var first := Repeats(tab, rank, bound, scan, element, base, k);
    var next := Owned(Slots(tab, rank, element, base + k * tab.MemSize(element)), scan);
    assert Repeats(tab, rank, bound, scan, element, base, k + 1) == first + next;
    assert (first + next)[|first| + j] == next[j];
  }

  /** Slot j of element k lies where it lies in an element of its own at k times the size, and has the array as its
      owner. */
  lemma SlotOfElement(tab: Table, rank: map<int, nat>, id: int, e: int, base: int, k: nat, j: nat)
    requires tab.Copies() && Ranked(tab, rank) && IsArrayOf(tab, id, e)
    requires (k + 1) * tab.MemSize(e) <= tab.MemSize(id) && j < |Slots(tab, rank, e, base + k * tab.MemSize(e))|
    ensures var m := |Slots(tab, rank, e, 0)|;
      && 0 <= k * m + j < |Slots(tab, rank, id, base)|
      && Slots(tab, rank, id, base)[k * m + j]
         == Slots(tab, rank, e, base + k * tab.MemSize(e))[j].(owner := Scan(tab, id))
  {
    assert Within(tab, e, id);
    var scan := Scan(tab, id);
    var n := Div(tab.MemSize(id), tab.MemSize(e));
    assert Slots(tab, rank, id, base) == Repeats(tab, rank, rank[id], scan, e, base, n);
    hide Slots;
    hide Repeats;
    hide Div;
    DivAtLeast(tab.MemSize(id), tab.MemSize(e), k + 1);
    RepeatSlotAt(tab, rank, rank[id], scan, e, base, n, k, j);
  }

  /** A type parameter, a method, or a signature, and no pointer to one. */
  predicate Sizeless(tab: Table, id: int) {
    && id in tab.types && tab.types[id].ptr == 0
    && (tab.types[id].body.Generic? || tab.types[id].body.Method? || tab.types[id].body.Signature?)
  }

  /** Such a type has no size and no slot, nor has an array of it, whatever its length. */
  lemma SizelessHasNoSlots(tab: Table, rank: map<int, nat>, id: int, a: int, base: int)
    requires tab.Copies() && Ranked(tab, rank) && Sizeless(tab, id)
    requires a in tab.types && !IsLeaf(tab, a) && Scan(tab, a) in tab.types
    requires tab.types[Scan(tab, a)].body.Array? && tab.types[Scan(tab, a)].body.element == id
    ensures tab.MemSize(id) == NONE && !tab.IsField(id) && Slots(tab, rank, a, base) == []
    ensures tab.types[id].p == NONE ==> Slots(tab, rank, id, base) == []
  {
  }

  // ---- containers ----

  /** A virtual method among the children is given an index. */
  predicate HasVirtual(tab: Table, b: Body) {
    && b.Custom? && b.vtable
    && exists i :: 0 <= i < |b.children| && tab.InVtable(b.children[i]) && tab.types[b.children[i]].body.index >= NONE
  }

  lemma {:induction false} NoSlots(tab: Table, children: seq<int>, n: nat)
    requires n <= |children|
    ensures tab.Slots(children, n) == 0 <==>
              forall i :: 0 <= i < n && tab.InVtable(children[i]) ==> tab.types[children[i]].body.index < NONE
  {
    if n > 0 {
      NoSlots(tab, children, n - 1);
    }
  }

  /** The room in front of the fields is that of a word exactly when there is a virtual method. */
  lemma PrefixIsWord(tab: Table, b: Body)
    ensures tab.SlotCount(b) != 0 <==> HasVirtual(tab, b)
    ensures tab.Prefix(b) == if HasVirtual(tab, b) then tab.conf.full else 0
  {
    if b.Custom? {
      NoSlots(tab, b.children, |b.children|);
    }
  }

  /** The container is searched for the leaves of id. */
  predicate IsContainer(tab: Table, id: int)
    requires tab.Copies()
  {
    id in tab.types && !IsLeaf(tab, id) && Scan(tab, id) in tab.types && tab.types[Scan(tab, id)].body.Custom?
  }

  /** The first slot of a container with a virtual method is the word of its vtable. */
  lemma VtableWord(tab: Table, rank: map<int, nat>, id: int, base: int)
    requires tab.Copies() && Ranked(tab, rank) && IsContainer(tab, id)
    requires HasVirtual(tab, tab.types[Scan(tab, id)].body)
    ensures |Slots(tab, rank, id, base)| > 0
    ensures Slots(tab, rank, id, base)[0] == Slot(base, tab.conf.full, NONE, Scan(tab, id))
  {
    PrefixIsWord(tab, tab.types[Scan(tab, id)].body);
  }

  lemma {:induction false} AmongFields(tab: Table, rank: map<int, nat>, bound: nat, b: Body, base: int, n: nat, i: nat)
    returns (k: nat, j: nat)
    requires tab.Copies() && Ranked(tab, rank) && b.Custom? && n <= |b.children|
    requires forall c :: c in b.children && tab.IsField(c) ==> Below(rank, c, bound)
    requires i < |Fields(tab, rank, bound, b, base, n).0|
    ensures k < n && tab.IsField(b.children[k])
    ensures var off := Fields(tab, rank, bound, b, base, k).1;
      var at := if b.align == NONE then Align(off, tab.MemSize(b.children[k])) else off;
      && j < |Slots(tab, rank, b.children[k], base + at)|
      && Fields(tab, rank, bound, b, base, n).0[i] == Slots(tab, rank, b.children[k], base + at)[j]
  {
    hide Slots;
    hide Align;
    hide Table.Prefix;
    var s := Fields(tab, rank, bound, b, base, n - 1).0;
    if i < |s| {
      k, j := AmongFields(tab, rank, bound, b, base, n - 1, i);
    } else {
      k, j := n - 1, i - |s|;
    }
  }

  lemma ContainerSlots(tab: Table, rank: map<int, nat>, id: int, base: int)
    requires tab.Copies() && Ranked(tab, rank) && IsContainer(tab, id)
    ensures var b := tab.types[Scan(tab, id)].body;
      && id in rank && (forall c :: c in b.children && tab.IsField(c) ==> Below(rank, c, rank[id]))
      && |VtableSlot(tab, Scan(tab, id), base)| == (if HasVirtual(tab, b) then 1 else 0)
      && Slots(tab, rank, id, base)
         == VtableSlot(tab, Scan(tab, id), base) + Fields(tab, rank, rank[id], b, base, |b.children|).0
  {
    var b := tab.types[Scan(tab, id)].body;
    PrefixIsWord(tab, b);
    assert forall c :: c in b.children && tab.IsField(c) ==> Within(tab, c, id);
    hide HasVirtual;
  }

  /** Slot j of child k of a struct placed at base. */
  ghost predicate LeafOf(tab: Table, rank: map<int, nat>, b: Body, base: int, k: nat, j: nat, slot: Slot)
    requires tab.Copies() && Ranked(tab, rank) && b.Custom?
  {
    && k < |b.children| && tab.IsField(b.children[k])
    && var leaves := Slots(tab, rank, b.children[k],
                           base + tab.Offset(tab.Prefix(b), b.align, b.children, k));
       j < |leaves| && slot == leaves[j]
  }

  lemma AmongStruct(tab: Table, rank: map<int, nat>, bound: nat, b: Body, base: int, i: nat) returns (k: nat, j: nat)
    requires tab.Copies() && Ranked(tab, rank) && b.Custom? && PowerOfTwo(b.align)
    requires forall c :: c in b.children && tab.IsField(c) ==> Below(rank, c, bound)
    requires i < |Fields(tab, rank, bound, b, base, |b.children|).0|
    ensures LeafOf(tab, rank, b, base, k, j, Fields(tab, rank, bound, b, base, |b.children|).0[i])
  {
    hide Slots;
    hide Fields;
    hide Align;
    hide PowerOfTwo;
    hide Table.Prefix;
    hide Table.Offset;
    k, j := AmongFields(tab, rank, bound, b, base, |b.children|, i);
    FieldsOffset(tab, rank, bound, b, base, k);
    PowerPositive(b.align);
  }

  /** There is nothing else in a struct than that word and the leaves of its fields. */
  lemma SlotComesFrom(tab: Table, rank: map<int, nat>, id: int, base: int, i: nat) returns (k: nat, j: nat)
    requires tab.Copies() && Ranked(tab, rank) && IsContainer(tab, id)
    requires PowerOfTwo(tab.types[Scan(tab, id)].body.align) && i < |Slots(tab, rank, id, base)|
    ensures var b := tab.types[Scan(tab, id)].body;
      (HasVirtual(tab, b) && i == 0) || LeafOf(tab, rank, b, base, k, j, Slots(tab, rank, id, base)[i])
  {
    hide Slots;
    hide Fields;
    hide HasVirtual;
    hide VtableSlot;
    hide Ranked;
    hide PowerOfTwo;
    hide LeafOf;
    ContainerSlots(tab, rank, id, base);
    var b := tab.types[Scan(tab, id)].body;
    var n := |VtableSlot(tab, Scan(tab, id), base)|;
    k, j := 0, 0;
    if i >= n {
      k, j := AmongStruct(tab, rank, rank[id], b, base, i - n);
    }
  }
}
