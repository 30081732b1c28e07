/** The recursive search for a leaf slot, src/symtab/typetb.c. */
module TypeFind {
  import opened TypeTable
  import opened TypeSlots

  /** type_init_info_t */
  class SlotInfo {
    var curr: int
    var slot: Slot

    constructor ()
      ensures curr == 0 && slot == Slot(0, 0, 0, 0)
    {
      curr, slot := 0, Slot(0, 0, 0, 0);
    }
  }

  /** What a search for the target slot, coming upon the slots s, makes of a counter c and an answer a. */
  predicate Searched(c: int, a: Slot, s: seq<Slot>, target: int, found: bool, c': int, a': Slot) {
    if found
    then c <= target < c + |s| && c' == target + 1 && a' == s[target - c]
    else !(c <= target < c + |s|) && c' == c + |s| && a' == a
  }

  lemma SearchGoesOn(c: int, a: Slot, s: seq<Slot>, c': int, a': Slot, t: seq<Slot>, target: int, found: bool,
                     c'': int, a'': Slot)
    requires Searched(c, a, s, target, false, c', a')
    requires Searched(c', a', t, target, found, c'', a'')
    ensures Searched(c, a, s + t, target, found, c'', a'')
  {
  }

  lemma SearchStarts(c: int, a: Slot, target: int)
    ensures Searched(c, a, [], target, false, c, a)
  {
  }

  lemma SearchOwned(c: int, a: Slot, s: seq<Slot>, target: int, found: bool, c': int, a': Slot, owner: int)
    requires Searched(c, a, s, target, found, c', a')
    ensures Searched(c, a, Owned(s, owner), target, found, c', if found then a'.(owner := owner) else a')
  {
  }

  lemma SearchEnds(c: int, a: Slot, s: seq<Slot>, t: seq<Slot>, target: int, c': int, a': Slot)
    requires Searched(c, a, s, target, true, c', a') && s <= t
    ensures Searched(c, a, t, target, true, c', a')
  {
  }

  /** The slots c follow the slots word + s, and s + c is the beginning of all. */
  lemma SearchJoins(curr: int, slot: Slot, word: seq<Slot>, s: seq<Slot>, c: seq<Slot>, all: seq<Slot>, target: int,
                    curr1: int, slot1: Slot, found: bool, curr2: int, slot2: Slot)
    requires Searched(curr, slot, word + s, target, false, curr1, slot1)
    requires Searched(curr1, slot1, c, target, found, curr2, slot2) && s + c <= all
    ensures Searched(curr, slot, word + (s + c), target, found, curr2, slot2)
    ensures found ==> Searched(curr, slot, word + all, target, true, curr2, slot2)
  {
    hide Searched;
    SearchGoesOn(curr, slot, word + s, curr1, slot1, c, target, found, curr2, slot2);
    assert (word + s) + c == word + (s + c);
    if found {
      SearchEnds(curr, slot, word + (s + c), word + all, target, curr2, slot2);
    }
  }

  method ResolveParent(tab: Table, id: int) returns (c: int)
    requires tab.Copies()
    ensures c == tab.Resolve(id)
  {
    c := id;
    while c in tab.types && tab.types[c].p != NONE
      invariant tab.Resolve(c) == tab.Resolve(id)
      decreases if c in tab.types then c + 1 else 0
    {
      c := tab.types[c].p;
    }
  }

  method VtableSlotCount(tab: Table, b: Body) returns (slots: nat)
    ensures slots == tab.SlotCount(b)
  {
    if !b.Custom? || !b.vtable {
      return 0;
    }
    var fallback: nat := 0;
    slots := 0;
    var k := 0;
    while k < |b.children|
      invariant 0 <= k <= |b.children|
      invariant slots == tab.Slots(b.children, k) && fallback == tab.Fallback(b.children, k)
    {
      var c := b.children[k];
      k := k + 1;
      if c !in tab.types || !tab.types[c].body.Method? || !tab.types[c].body.inVtable {
        continue;
      }
      var index := tab.types[c].body.index;
      if index == NONE {
        index := fallback;
      }
      if index >= slots {
        slots := index + 1;
      }
      fallback := fallback + 1;
    }
  }

  // ---- TPTB_find_type_init_slot ----

  method FindTypeInitSlot(tab: Table, id: int, target: int, base: int, info: SlotInfo, ghost rank: map<int, nat>)
    returns (found: bool)
    requires tab.Copies() && Ranked(tab, rank)
    modifies info
    ensures Searched(old(info.curr), old(info.slot), Slots(tab, rank, id, base), target, found, info.curr, info.slot)
    decreases if id in rank then rank[id] + 1 else 0, 2
  {
    if id !in tab.types {
      return false;
    }
    var typeSize := tab.MemSize(id);
    if tab.types[id].ptr != 0 || tab.types[id].body.Primitive? {
      info.curr := info.curr + 1;
      if info.curr - 1 != target {
        return false;
      }
      info.slot := Slot(base, typeSize, id, id);
      return typeSize > 0;
    }
    var scan := id;
    if tab.types[id].p != NONE {
      scan := ResolveParent(tab, id);
    }
    if scan !in tab.types {
      return false;
    }
    match tab.types[scan].body {
      case Array(element, _) =>
        var size := tab.MemSize(element);
        if size <= 0 {
          return false;
        }
        assert Within(tab, element, id);
        found := FindInArray(tab, id, scan, element, target, base, info, rank);
      case Custom(_, _, _, _, children) =>
        assert forall c :: c in children && tab.IsField(c) ==> Within(tab, c, id);
        found := FindInContainer(tab, id, scan, target, base, info, rank);
      case _ =>
        found := false;
    }
  }

  /** The slots of one element more. */
  lemma RepeatsNext(tab: Table, rank: map<int, nat>, bound: nat, scan: int, element: int, base: int, m: nat, n: int)
    requires tab.Copies() && Ranked(tab, rank) && Below(rank, element, bound) && m < n
    ensures var s := Repeats(tab, rank, bound, scan, element, base, m);
      var c := Owned(Slots(tab, rank, element, base + m * tab.MemSize(element)), scan);
      && Repeats(tab, rank, bound, scan, element, base, m + 1) == s + c
      && s + c <= Repeats(tab, rank, bound, scan, element, base, n)
  {
    hide Slots;
    hide Ranked;
    RepeatsPrefix(tab, rank, bound, scan, element, base, m + 1, n);
  }

  method FindInArray(tab: Table, id: int, scan: int, element: int, target: int, base: int, info: SlotInfo,
                     ghost rank: map<int, nat>) returns (found: bool)
    requires tab.Copies() && Ranked(tab, rank)
    requires id in tab.types && !IsLeaf(tab, id) && scan == Scan(tab, id) && scan in tab.types
    requires tab.types[scan].body.Array? && element == tab.types[scan].body.element
    requires tab.MemSize(element) > 0 && Below(rank, element, rank[id])
    modifies info
    ensures Searched(old(info.curr), old(info.slot),
                     Repeats(tab, rank, rank[id], scan, element, base, Div(tab.MemSize(id), tab.MemSize(element))),
                     target, found, info.curr, info.slot)
    decreases rank[id] + 1, 1
  {
    assert id in rank;
    var size := tab.MemSize(element);
    var repeats := Div(tab.MemSize(id), size);
    assert Repeats(tab, rank, rank[id], scan, element, base, 0) == [];
    assert repeats <= 0 ==> Repeats(tab, rank, rank[id], scan, element, base, repeats) == [];
    hide *;
    SearchStarts(info.curr, info.slot, target);
    found := false;
    var repeat := 0;
    while repeat < repeats
      invariant 0 <= repeat && (repeat <= repeats || repeat == 0) && !found
      invariant Searched(old(info.curr), old(info.slot), Repeats(tab, rank, rank[id], scan, element, base, repeat),
                         target, false, info.curr, info.slot)
    {
      found := FindInElement(tab, id, scan, element, repeat, repeats, target, base, info,
                             old(info.curr), old(info.slot), rank);
      if found {
        return;
      }
      repeat := repeat + 1;
    }
  }

  /** One round of the loop over the elements. */
  method FindInElement(tab: Table, id: int, scan: int, element: int, m: nat, n: int, target: int, base: int,
                       info: SlotInfo, ghost curr: int, ghost slot: Slot, ghost rank: map<int, nat>)
    returns (found: bool)
    requires tab.Copies() && Ranked(tab, rank) && id in rank && Below(rank, element, rank[id]) && m < n
    requires Searched(curr, slot, Repeats(tab, rank, rank[id], scan, element, base, m), target, false,
                      info.curr, info.slot)
    modifies info
    ensures var k := if found then n else m + 1;
      Searched(curr, slot, Repeats(tab, rank, rank[id], scan, element, base, k), target, found, info.curr, info.slot)
    decreases rank[id] + 1, 0
  {
    assert element in rank && rank[element] < rank[id];
    hide *;
    ghost var c, a := info.curr, info.slot;
    ghost var s := Repeats(tab, rank, rank[id], scan, element, base, m);
    ghost var all := Repeats(tab, rank, rank[id], scan, element, base, n);
    RepeatsNext(tab, rank, rank[id], scan, element, base, m, n);
    var at := base + m * tab.MemSize(element);
    ghost var one := Slots(tab, rank, element, at);
    found := FindTypeInitSlot(tab, element, target, at, info, rank);
    SearchOwned(c, a, one, target, found, info.curr, info.slot, scan);
    if found {
      info.slot := info.slot.(owner := scan);
    }
    SearchGoesOn(curr, slot, s, c, a, Owned(one, scan), target, found, info.curr, info.slot);
    if found {
      SearchEnds(curr, slot, s + Owned(one, scan), all, target, info.curr, info.slot);
    }
  }

  /** The slots of one child more, and the place after it. */
  lemma FieldsNext(tab: Table, rank: map<int, nat>, bound: nat, b: Body, base: int, n: nat)
    requires tab.Copies() && Ranked(tab, rank) && b.Custom? && n < |b.children|
    requires forall c :: c in b.children && tab.IsField(c) ==> Below(rank, c, bound)
    ensures var (s, off) := Fields(tab, rank, bound, b, base, n);
      var (s', off') := Fields(tab, rank, bound, b, base, n + 1);
      var c, size := b.children[n], tab.MemSize(b.children[n]);
      && s' <= Fields(tab, rank, bound, b, base, |b.children|).0
      && (c !in tab.types ==> size <= 0)
      && if c !in tab.types || tab.types[c].body.Method? || size <= 0 || off < 0 then (s', off') == (s, off)
         else
           && c in rank && rank[c] < bound
           && var at := if b.align == NONE then Align(off, size) else off;
              s' == s + Slots(tab, rank, c, base + at)
              && off' == if b.align == NONE then at + size else at + Align(size, b.align)
  {
    hide Slots;
    hide Align;
    hide Ranked;
    FieldsPrefix(tab, rank, bound, b, base, n + 1, |b.children|);
  }

  /** The hidden slot of a vtable pointer comes first. */
  method FindVtableSlot(tab: Table, scan: int, target: int, base: int, info: SlotInfo) returns (found: bool)
    requires scan in tab.types
    modifies info
    ensures Searched(old(info.curr), old(info.slot), VtableSlot(tab, scan, base), target, found, info.curr, info.slot)
  {
    var slots := VtableSlotCount(tab, tab.types[scan].body);
    if slots != 0 {
      info.curr := info.curr + 1;
      if info.curr - 1 == target {
        info.slot := Slot(base, tab.conf.full, NONE, scan);
        return true;
      }
    }
    return false;
  }

  method FindInContainer(tab: Table, id: int, scan: int, target: int, base: int, info: SlotInfo,
                         ghost rank: map<int, nat>) returns (found: bool)
    requires tab.Copies() && Ranked(tab, rank)
    requires id in tab.types && !IsLeaf(tab, id) && scan == Scan(tab, id) && scan in tab.types
    requires tab.types[scan].body.Custom?
    requires forall c :: c in tab.types[scan].body.children && tab.IsField(c) ==> Below(rank, c, rank[id])
    modifies info
    ensures var b := tab.types[scan].body;
      Searched(old(info.curr), old(info.slot),
               VtableSlot(tab, scan, base) + Fields(tab, rank, rank[id], b, base, |b.children|).0,
               target, found, info.curr, info.slot)
    decreases rank[id] + 1, 1
  {
    var b := tab.types[scan].body;
    assert Fields(tab, rank, rank[id], b, base, 0) == ([], tab.Prefix(b));
    hide *;
    ghost var word := VtableSlot(tab, scan, base);
    found := FindVtableSlot(tab, scan, target, base, info);
    if found {
      SearchEnds(old(info.curr), old(info.slot), word,
                 word + Fields(tab, rank, rank[id], b, base, |b.children|).0, target, info.curr, info.slot);
      return;
    }
    assert word + [] == word;
    var offset: int := tab.Prefix(b);
    var k := 0;
    while k < |b.children|
      invariant 0 <= k <= |b.children| && !found
      invariant offset == Fields(tab, rank, rank[id], b, base, k).1
      invariant Searched(old(info.curr), old(info.slot), word + Fields(tab, rank, rank[id], b, base, k).0, target,
                         false, info.curr, info.slot)
    {
      found, offset := FindInChild(tab, id, b, k, offset, target, base, info,
                                   word, old(info.curr), old(info.slot), rank);
      if found {
        return;
      }
      k := k + 1;
    }
  }

  /** One round of the loop over the children. */
  method FindInChild(tab: Table, id: int, b: Body, k: nat, off: int, target: int, base: int, info: SlotInfo,
                     ghost word: seq<Slot>, ghost curr: int, ghost slot: Slot, ghost rank: map<int, nat>)
    returns (found: bool, offset: int)
    requires tab.Copies() && Ranked(tab, rank) && id in rank && b.Custom? && k < |b.children|
    requires forall c :: c in b.children && tab.IsField(c) ==> Below(rank, c, rank[id])
    requires off == Fields(tab, rank, rank[id], b, base, k).1
    requires Searched(curr, slot, word + Fields(tab, rank, rank[id], b, base, k).0, target, false, info.curr, info.slot)
    modifies info
    ensures var n := if found then |b.children| else k + 1;
      Searched(curr, slot, word + Fields(tab, rank, rank[id], b, base, n).0, target, found, info.curr, info.slot)
    ensures !found ==> offset == Fields(tab, rank, rank[id], b, base, k + 1).1
    decreases rank[id] + 1, 0
  {
    hide *;
    var child := b.children[k];
    var size := tab.MemSize(child);
    FieldsNext(tab, rank, rank[id], b, base, k);
    offset := off;
    if child in tab.types && tab.types[child].body.Method? {
      return false, offset;
    }
    if offset < 0 || size <= 0 {
      return false, offset;
    }
    if b.align == NONE {
      offset := Align(offset, size);
    }
    ghost var c, a := info.curr, info.slot;
    found := FindTypeInitSlot(tab, child, target, base + offset, info, rank);
    SearchJoins(curr, slot, word, Fields(tab, rank, rank[id], b, base, k).0, Slots(tab, rank, child, base + offset),
                Fields(tab, rank, rank[id], b, base, |b.children|).0, target, c, a, found, info.curr, info.slot);
    if b.align == NONE {
      offset := offset + size;
    } else {
      offset := offset + Align(size, b.align);
    }
  }
}
