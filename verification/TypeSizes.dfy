/** The sizes of containers: what a field adds to a struct, what a union takes, and what a variable comes to. */
module TypeSizes {
  import opened Common
  import opened TypeTable
  import opened TypeLimits
  import opened TypeMembers
  import opened TypeContainers
  import opened TypeCopies
  import opened TypeRuns
  import opened TypeBodies

  // ---- unions ----

  /** x is n bytes rounded up to a whole number of units of a. */
  predicate Rounded(n: int, a: int, x: int) {
    a > 0 && n <= x < n + a && x % a == 0
  }

  lemma AlignIsRounded(n: int, a: int)
    requires PowerOfTwo(a)
    ensures Rounded(n, a, Align(n, a)) && n <= Align(n, a)
  {
    AlignRoundsUp(n, a);
  }

  /** The extent of a union is at least that of every field, rounded, and is that of one of them; without fields it
      is 0. */
  lemma {:induction false} LargestField(tab: Table, b: Body, n: nat) returns (l: nat)
    requires b.Custom? && !b.multiple && PowerOfTwo(b.align) && n <= |b.children|
    ensures tab.Extent(b, n) >= 0
    ensures forall i :: 0 <= i < n && tab.IsField(b.children[i]) ==> tab.MemSize(b.children[i]) <= tab.Extent(b, n)
    ensures if l < n then tab.IsField(b.children[l]) && Rounded(tab.MemSize(b.children[l]), b.align, tab.Extent(b, n))
            else tab.Extent(b, n) == 0
  {
    hide Align;
    hide PowerOfTwo;
    hide Rounded;
    hide Table.MemSize;
    l := n;
    if n > 0 {
      l := LargestField(tab, b, n - 1);
      var c := b.children[n - 1];
      if tab.IsField(c) {
        AlignIsRounded(tab.MemSize(c), b.align);
        if tab.Extent(b, n - 1) <= Align(tab.MemSize(c), b.align) {
          l := n - 1;
        }
      } else if l == n - 1 {
        l := n;
      }
    }
  }

  /** A union is as large as its largest field, rounded up to its alignment, and the word of its vtable. */
  lemma UnionSize(tab: Table, p: int) returns (l: nat)
    requires Current(tab, p) && !tab.types[p].body.multiple && PowerOfTwo(tab.types[p].body.align)
    ensures var b := tab.types[p].body;
      var room := b.size - tab.Prefix(b);
      && (forall i :: 0 <= i < |b.children| && tab.IsField(b.children[i]) ==> tab.MemSize(b.children[i]) <= room)
      && if l < |b.children| then tab.IsField(b.children[l]) && Rounded(tab.MemSize(b.children[l]), b.align, room)
         else room == 0
  {
    l := LargestField(tab, tab.types[p].body, |tab.types[p].body.children|);
  }

  // ---- one field more ----

  lemma {:induction false} ExtentOfPrefix(tab: Table, b: Body, b': Body, n: nat)
    requires b.Custom? && b'.Custom? && b'.align == b.align && b'.multiple == b.multiple
    requires n <= |b.children| && b.children <= b'.children
    ensures tab.Extent(b', n) == tab.Extent(b, n)
  {
    if n > 0 {
      ExtentOfPrefix(tab, b, b', n - 1);
    }
  }

  lemma {:induction false} SlotsOfPrefix(tab: Table, a: seq<int>, a': seq<int>, n: nat)
    requires n <= |a| && a <= a'
    ensures tab.Slots(a', n) == tab.Slots(a, n) && tab.Fallback(a', n) == tab.Fallback(a, n)
  {
    if n > 0 {
      SlotsOfPrefix(tab, a, a', n - 1);
    }
  }

  lemma PrefixGrows(tab: Table, b: Body, c: int)
    requires b.Custom? && !tab.InVtable(c)
    ensures tab.Prefix(b.(children := b.children + [c])) == tab.Prefix(b)
  {
    hide Table.Index;
    SlotsOfPrefix(tab, b.children, b.children + [c], |b.children|);
  }

  /** A child that is not virtual takes its place behind the others. */
  lemma LayoutGrows(tab: Table, b: Body, c: int)
    requires b.Custom? && !tab.InVtable(c)
    ensures var b' := b.(children := b.children + [c]);
      && tab.LayoutSize(b') == tab.Extent(b', |b.children| + 1) + tab.Prefix(b)
      && tab.Extent(b', |b.children|) == tab.Extent(b, |b.children|)
  {
    hide Table.Extent;
    hide Table.Prefix;
    PrefixGrows(tab, b, c);
    ExtentOfPrefix(tab, b, b.(children := b.children + [c]), |b.children|);
  }

  /** What child c has for a size once it is added: the size that is given with it, if it has one of its own. */
  predicate TakesSize(t: TypeInfo, size: int) {
    size != NONE && t.ptr == 0 && (t.body.Custom? || t.body.Array?)
  }

  predicate NewName(st: State, p: int, name: Name) {
    name == Unnamed || First(st.Of(p), NONE, name, 0) == |st.Of(p)|
  }

  lemma AppendsChild(st: State, p: int, c: int, name: Name, size: int)
    requires Listed(st, p) && c in st.tab.types && c != p && NewName(st, p, name)
    ensures var st' := Added(st, p, c, name, size).1;
            st'.tab.IsCustom(p) && st'.Body(p).children == st.Body(p).children + [c]
  {
    AddNew(st, p, c, name, size);
  }

  lemma GivenSize(st: State, p: int, c: int, name: Name, size: int)
    requires st.tab.IsCustom(p) && c in st.tab.types && c != p && NewName(st, p, name)
    ensures var tab' := Added(st, p, c, name, size).1.tab;
      && tab'.MemSize(c) == (if TakesSize(st.tab.types[c], size) then size else st.tab.MemSize(c))
      && tab'.MemSize(c) == Joined(st.tab, p, c, size).MemSize(c)
      && tab'.IsField(c) == Joined(st.tab, p, c, size).IsField(c)
  {
    hide Table.LayoutSize;
  }

  lemma JoinedSizes(tab: Table, p: int, c: int, size: int, children: seq<int>)
    requires tab.IsCustom(p) && c in tab.types && c != p && p !in children
    requires TakesSize(tab.types[c], size) ==> c !in children
    ensures SameSizes(tab, Joined(tab, p, c, size), children)
  {
  }

  lemma PrefixFrame(tab: Table, tab': Table, b: Body)
    requires b.Custom? && tab'.conf == tab.conf && SameMethods(tab, tab', b.children)
    ensures tab'.Prefix(b) == tab.Prefix(b)
  {
    SlotsFrame(tab, tab', b.children, |b.children|);
  }

  /** How much the layout grows by a field of that size. */
  predicate GrowsBy(b: Body, w: int, grown: int)
    requires b.Custom?
  {
    if w <= 0 then grown == 0
    else if b.align == NONE then grown == w
    else Rounded(w, b.align, grown)
  }

  lemma RoomOfField(tab: Table, b: Body, c: int)
    requires b.Custom? && b.multiple && |b.children| > 0 && b.children[|b.children| - 1] == c
    requires c in tab.types && !tab.IsMethod(c)
    requires if b.align == NONE then tab.MemSize(c) > 0 ==> PowerOfTwo(tab.MemSize(c)) else PowerOfTwo(b.align)
    ensures GrowsBy(b, tab.MemSize(c), tab.Extent(b, |b.children|) - tab.Extent(b, |b.children| - 1))
  {
    hide PowerOfTwo;
    hide Align;
    if tab.MemSize(c) > 0 {
      if b.align == NONE {
        AlignFixed(tab.MemSize(c), tab.MemSize(c));
        Whole(tab.MemSize(c));
      } else {
        AlignIsRounded(tab.MemSize(c), b.align);
      }
    }
  }

  /** The layout before the child came, and its size now. */
  lemma JoinedLayout(st: State, p: int, c: int, name: Name, size: int)
    requires Listed(st, p) && Current(st.tab, p) && NewName(st, p, name)
    requires c in st.tab.types && c != p && !st.tab.IsMethod(c)
    requires TakesSize(st.tab.types[c], size) ==> c !in st.Body(p).children
    ensures var st', tab1 := Added(st, p, c, name, size).1, Joined(st.tab, p, c, size);
      var b := st.Body(p);
      && st'.tab == Relaid(tab1, p) && tab1.IsCustom(p) && c in tab1.types && !tab1.IsMethod(c)
      && tab1.types[p].body == b.(children := b.children + [c])
      && tab1.Extent(b, |b.children|) + tab1.Prefix(b) == b.size
      && tab1.MemSize(c) == (if TakesSize(st.tab.types[c], size) then size else st.tab.MemSize(c))
  {
    var b, tab1 := st.Body(p), Joined(st.tab, p, c, size);
    GivenSize(st, p, c, name, size);
    JoinedSizes(st.tab, p, c, size, b.children);
    JoinedKeepsMethods(st.tab, p, c, size, b.children);
    ExtentFrame(st.tab, tab1, b, b, |b.children|);
    PrefixFrame(st.tab, tab1, b);
    hide Table.Extent;
    hide Table.Prefix;
    hide SameSizes;
    hide SameMethods;
  }

  lemma RelaidSize(tab: Table, p: int)
    requires tab.IsCustom(p)
    ensures Relaid(tab, p).IsCustom(p) && Relaid(tab, p).types[p].body.size == tab.LayoutSize(tab.types[p].body)
  {
    hide Table.LayoutSize;
  }

  /** A child that is no method, added under a new name, makes a struct grow by its size, rounded up to the alignment,
      and by nothing if it has no size. */
  lemma FieldGrows(st: State, p: int, c: int, name: Name, size: int)
    requires Listed(st, p) && Current(st.tab, p) && st.Body(p).multiple && NewName(st, p, name)
    requires c in st.tab.types && c != p && !st.tab.IsMethod(c)
    requires TakesSize(st.tab.types[c], size) ==> c !in st.Body(p).children
    requires var w := if TakesSize(st.tab.types[c], size) then size else st.tab.MemSize(c);
             if st.Body(p).align == NONE then w > 0 ==> PowerOfTwo(w) else PowerOfTwo(st.Body(p).align)
    ensures var st' := Added(st, p, c, name, size).1;
      && st'.tab.IsCustom(p)
      && GrowsBy(st.Body(p), if TakesSize(st.tab.types[c], size) then size else st.tab.MemSize(c),
                 st'.Body(p).size - st.Body(p).size)
  {
    assert st.tab.IsCustom(p);
    hide Listed;
    hide Current;
    hide Added;
    hide Relaid;
    hide Joined;
    hide NewName;
    hide TakesSize;
    hide PowerOfTwo;
    hide Rounded;
    hide Table.Extent;
    hide Table.Prefix;
    hide Table.LayoutSize;
    hide Table.MemSize;
    var tab1 := Joined(st.tab, p, c, size);
    JoinedLayout(st, p, c, name, size);
    RelaidSize(tab1, p);
    LayoutGrows(tab1, st.Body(p), c);
    RoomOfField(tab1, tab1.types[p].body, c);
  }

  /** A struct has for every field the rounded room of its size, for every other child none, and nothing behind the
      last one. */
  lemma StructRooms(tab: Table, p: int, i: nat)
    requires Current(tab, p) && tab.types[p].body.multiple && PowerOfTwo(tab.types[p].body.align)
    requires i < |tab.types[p].body.children|
    ensures var b := tab.types[p].body;
      var c, prefix := b.children[i], tab.Prefix(b);
      && tab.Offset(prefix, b.align, b.children, 0) == prefix
      && tab.Offset(prefix, b.align, b.children, |b.children|) == b.size
      && GrowsBy(b, if tab.IsField(c) then tab.MemSize(c) else 0,
                 tab.Offset(prefix, b.align, b.children, i + 1) - tab.Offset(prefix, b.align, b.children, i))
  {
    var b := tab.types[p].body;
    PowerPositive(b.align);
    tab.ExtentIsOffset(b, |b.children|);
    hide PowerOfTwo;
    hide Align;
    hide Rounded;
    if tab.IsField(b.children[i]) {
      AlignIsRounded(tab.MemSize(b.children[i]), b.align);
    }
  }

  // ---- variables ----

  /** What the copy takes that is made or found. */
  function CopySize(tab: Table, d: Declaration, k: int): int
    requires d.Variable? && d.base in tab.types
  {
    if k in tab.types then tab.MemSize(k)
    else if d.ptr != 0 then tab.conf.full
    else tab.RawSize(tab.types[d.base].body, false)
  }

  /** The copy takes that much, and the struct is as it was. */
  lemma AnswerSized(st: State, id: nat, p: int, d: Declaration, size: int, k: int, st1: State, id1: nat)
    requires Allotted(st, id) && Held(st, id, p) && Current(st.tab, p) && d.Variable? && d.base in st.tab.types
    requires !st.tab.IsMethod(d.base) && CopyAnswered(st, id, d.base, d.ptr, k, st1, id1)
    requires size == NONE || d.ptr != 0
    ensures k in st1.tab.types && k != p && !st1.tab.IsMethod(k) && !TakesSize(st1.tab.types[k], size)
    ensures st1.Of(p) == st.Of(p) && st1.tab.IsCustom(p) && st1.Body(p) == st.Body(p)
    ensures Listed(st1, p) && Current(st1.tab, p)
    ensures st1.tab.MemSize(k) == CopySize(st.tab, d, k)
    ensures d.ptr != 0 && !st.Body(d.base).Generic? ==> st1.tab.MemSize(k) == st.tab.conf.full
  {
    AnswerJoins(st, id, p, d.base, d.ptr, k, st1, id1);
    if !st.Body(d.base).Generic? {
      CopyMeasures(st, id, d.base, d.ptr, k, st1, id1);
      CopyAllots(st, id, d.base, d.ptr, k, st1, id1);
      hide Allotted;
      hide Once;
      hide Numbered;
      hide Struct;
      if k !in st.tab.types {
        EnteredKeeps(st, p, k, CopyOf(st.tab, d.base, d.ptr));
      }
    }
  }

  /** What a variable under a new name makes of the size of a struct: room for a word if it is a pointer; for what the
      declared type takes, if a copy of it is made; and for what an old copy takes, if one is found. */
  ghost predicate VariableAdds(st: State, st': State, p: int, d: Declaration)
    requires d.Variable? && st.tab.IsCustom(p) && d.base in st.tab.types && st'.tab.IsCustom(p)
  {
    var b, b', n := st.Body(p), st'.Body(p), |st.Body(p).children|;
    && |b'.children| == n + 1
    && GrowsBy(b, CopySize(st.tab, d, b'.children[n]), b'.size - b.size)
    && (d.ptr != 0 && !st.Body(d.base).Generic? ==> GrowsBy(b, st.tab.conf.full, b'.size - b.size))
  }

  /** A variable appends a field to a struct. */
  lemma VariableGrows(st: State, id: nat, p: int, d: Declaration, size: int, k: int, st1: State, id1: nat)
    requires Allotted(st, id) && Held(st, id, p) && Struct(st, p) && d.Variable? && d.base in st.tab.types
    requires !st.tab.IsMethod(d.base) && CopyAnswered(st, id, d.base, d.ptr, k, st1, id1) && NewName(st, p, d.name)
    requires size >= NONE && (size == NONE || d.ptr != 0)
    ensures var st2 := Added(st1, p, k, d.name, size).1;
      st2.tab.IsCustom(p) && VariableAdds(st, st2, p, d)
  {
    AnswerSized(st, id, p, d, size, k, st1, id1);
    PowerPositive(st.Body(p).align);
    assert NewName(st1, p, d.name);
    hide NewName;
    hide Listed;
    hide Current;
    hide Added;
    hide GrowsBy;
    hide CopySize;
    hide CopyAnswered;
    hide Allotted;
    hide Held;
    hide PowerOfTwo;
    hide TakesSize;
    AppendsChild(st1, p, k, d.name, size);
    FieldGrows(st1, p, k, d.name, size);
  }

  /** It did, if the type was known, the name was new, and the container was a struct. */
  ghost predicate VariableGrew(st: State, st': State, p: int, d: Declaration)
    requires d.Variable?
  {
    Struct(st, p) && d.base in st.tab.types && NewName(st, p, d.name) ==>
      st'.tab.IsCustom(p) && VariableAdds(st, st', p, d)
  }

  /** So does every variable of a run. */
  lemma ReachedGrows(st0: State, id0: nat, st: State, id: nat, p: int, ds: seq<Declaration>, os: seq<Outcome>, k: nat,
                     copy: int, st1: State, id1: nat, size: int)
    requires k < |ds| && ds[k].Variable? && Reached(st0, id0, st, id, p, ds, os, k)
    requires size >= NONE && (size == NONE || ds[k].ptr != 0)
    requires CopyAnswered(st, id, ds[k].base, ds[k].ptr, copy, st1, id1)
    ensures VariableGrew(st, Added(st1, p, copy, ds[k].name, size).1, p, ds[k])
  {
    assert MayJoin(st, p, ds[k]);
    hide Added;
    hide VariableAdds;
    hide CopyAnswered;
    if Struct(st, p) && ds[k].base in st.tab.types && NewName(st, p, ds[k].name) {
      VariableGrows(st, id, p, ds[k], size, copy, st1, id1);
    }
  }

  /** The field a variable comes to at the end of a run: a pointer takes a word, and a new copy what the type it was
      made of took before the run, if that was left alone. */
  lemma FieldOfVariable(st0: State, st: State, p: int, ds: seq<Declaration>, os: seq<Outcome>, i: nat)
    requires st0.tab.Copies() && st.tab.Copies() && st.tab.conf == st0.tab.conf
    requires AllComeTo(st0, st, ds, os) && CopiesMeasured(st0, st, p, ds)
    requires i < |os| && ds[i].Variable? && ds[i].base in st0.tab.types && !st0.Body(ds[i].base).Generic?
    ensures os[i].Given? && os[i].child in st.tab.types
    ensures ds[i].ptr != 0 ==> st.tab.MemSize(os[i].child) == st0.tab.conf.full
    ensures ds[i].ptr == 0 && os[i].child !in st0.tab.types ==>
              var b := st.tab.types[os[i].child].p;
              && b in st0.tab.types && AskedFor(ds, b, 0) && st.tab.Resolve(b) == st0.tab.Resolve(ds[i].base)
              && (Untouched(st0.tab, p, ds, b) ==>
                    st.tab.MemSize(os[i].child) == st0.tab.RawSize(st0.Body(b), false))
  {
    hide AskedFor;
    hide Untouched;
    assert ComesTo(st0, st, ds[i], os[i]);
  }
}
