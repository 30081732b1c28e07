/** What containers built by adding children keep: the two member lists agree, sizes are current, methods are
    numbered. */
module TypeContainers {
  import opened Common
  import opened TypeTable
  import opened TypeMembers
  import opened TypeSlots

  ghost predicate Parallel(ms: seq<Member>, children: seq<int>) {
    |ms| == |children| && forall k :: 0 <= k < |ms| ==> ms[k].child == children[k]
  }

  ghost predicate DistinctNames(ms: seq<Member>) {
    forall i, j :: 0 <= i < j < |ms| && ms[i].name != Unnamed ==> ms[i].name != ms[j].name
  }

  /** No virtual method is a child twice. */
  ghost predicate Once(tab: Table, children: seq<int>) {
    forall i, j :: 0 <= i < j < |children| && tab.InVtable(children[i]) ==> children[i] != children[j]
  }

  /** The member list and the child list belong together. */
  ghost predicate Listed(st: State, p: int) {
    && st.tab.IsCustom(p)
    && Parallel(st.Of(p), st.Body(p).children)
    && DistinctNames(st.Of(p))
    && p !in st.Body(p).children
    && Once(st.tab, st.Body(p).children)
  }

  /** Every virtual method has an index. */
  ghost predicate Indexed(tab: Table, children: seq<int>) {
    forall i :: 0 <= i < |children| && tab.InVtable(children[i]) ==> Stored(tab, children[i]) >= 0
  }

  ghost predicate Container(st: State, p: int) {
    Listed(st, p) && Numbered(st.tab, st.Body(p).children)
  }

  /** A child of a container as a client sees it; slot: the index of a virtual method, or NONE. */
  datatype Entry = Entry(child: int, name: Name, slot: int)

  function View(st: State, p: int): seq<Entry> {
    var ms := st.Of(p);
    seq(|ms|, i requires 0 <= i < |ms| => Entry(ms[i].child, ms[i].name, Stored(st.tab, ms[i].child)))
  }

  /** The stored size is the one the fields ask for. */
  predicate Current(tab: Table, p: int) {
    tab.IsCustom(p) && tab.types[p].body.size == tab.LayoutSize(tab.types[p].body)
  }

  // ---- the layout looks at nothing but the children ----

  ghost predicate SameSizes(tab: Table, tab': Table, children: seq<int>) {
    && tab.conf == tab'.conf
    && forall c :: c in children ==> tab.IsField(c) == tab'.IsField(c) && tab.MemSize(c) == tab'.MemSize(c)
  }

  lemma {:induction false} SlotsFrame(tab: Table, tab': Table, children: seq<int>, n: nat)
    requires SameMethods(tab, tab', children) && n <= |children|
    ensures tab.Slots(children, n) == tab'.Slots(children, n) && tab.Fallback(children, n) == tab'.Fallback(children, n)
  {
    if n > 0 {
      SlotsFrame(tab, tab', children, n - 1);
    }
  }

  lemma {:induction false} ExtentFrame(tab: Table, tab': Table, b: Body, b': Body, n: nat)
    requires b.Custom? && b'.Custom? && b' == b.(size := b'.size)
    requires n <= |b.children| && SameSizes(tab, tab', b.children)
    ensures tab.Extent(b, n) == tab'.Extent(b', n)
  {
    if n > 0 {
      ExtentFrame(tab, tab', b, b', n - 1);
      assert b.children[n - 1] in b.children;
    }
  }

  lemma LayoutFrame(tab: Table, tab': Table, b: Body, b': Body)
    requires b.Custom? && b'.Custom? && b' == b.(size := b'.size)
    requires SameSizes(tab, tab', b.children) && SameMethods(tab, tab', b.children)
    ensures tab.LayoutSize(b) == tab'.LayoutSize(b')
  {
    ExtentFrame(tab, tab', b, b', |b.children|);
    SlotsFrame(tab, tab', b.children, |b.children|);
  }

  /** Recalculating the size changes nothing else, and makes it current. */
  lemma RelaidCurrent(tab: Table, p: int)
    requires tab.IsCustom(p) && p !in tab.types[p].body.children
    ensures Current(Relaid(tab, p), p)
    ensures Relaid(tab, p).types[p].body == tab.types[p].body.(size := Relaid(tab, p).types[p].body.size)
    ensures forall s: seq<int> :: SameMethods(tab, Relaid(tab, p), s)
    ensures forall id :: id != p && id in tab.types ==> Relaid(tab, p).types[id] == tab.types[id]
    ensures Relaid(tab, p).types.Keys == tab.types.Keys
  {
    var b := tab.types[p].body;
    LayoutFrame(tab, Relaid(tab, p), b, Relaid(tab, p).types[p].body);
  }

  // ---- adding a child ----

  /** The table just before the layout of p is recalculated for its new child c. */
  function Joined(tab: Table, p: int, c: int, size: int): Table
    requires tab.IsCustom(p) && c in tab.types && c != p
  {
    var tab1 := WithBody(tab, p, tab.types[p].body.(children := tab.types[p].body.children + [c]));
    if size != NONE && tab1.types[c].ptr == 0 then WithBody(tab1, c, Sized(tab1.types[c].body, size)) else tab1
  }

  lemma JoinedKeepsMethods(tab: Table, p: int, c: int, size: int, s: seq<int>)
    requires tab.IsCustom(p) && c in tab.types && c != p && p !in tab.types[p].body.children
    ensures SameMethods(tab, Joined(tab, p, c, size), s)
    ensures Joined(tab, p, c, size).IsCustom(p)
    ensures Joined(tab, p, c, size).types[p].body == tab.types[p].body.(children := tab.types[p].body.children + [c])
    ensures Joined(tab, p, c, size).types.Keys == tab.types.Keys
  {
  }

  /** Adding is refused, and nothing done, for what is not in the table, for a container and itself, and for what is no
      container; and when a method is to be replaced that is among the members only, it is refused half done. */
  lemma AddRefusedWhen(st: State, p: int, c: int, name: Name, size: int)
    ensures var (ok, st') := Added(st, p, c, name, size);
      if p == c || c !in st.tab.types || !st.tab.IsCustom(p) then !ok && st' == st
      else
        var k := First(st.Of(p), NONE, name, 0);
        !ok <==>
          && name != Unnamed && k < |st.Of(p)| && st.tab.InVtable(st.Of(p)[k].child) && st.tab.InVtable(c)
          && st.Of(p)[k].child !in st.Body(p).children
  {
    hide Table.LayoutSize;
  }

  lemma NextIsNew(tab: Table, children: seq<int>, c: int)
    requires Numbered(tab, children)
    ensures tab.InVtable(c) && Stored(tab, c) == Count(tab, children) ==> c !in children
  {
  }

  lemma OnceAppends(tab: Table, children: seq<int>, c: int)
    requires Once(tab, children)
    ensures Once(tab, children + [c]) <==> (tab.InVtable(c) ==> c !in children)
  {
    var more := children + [c];
    if tab.InVtable(c) && c in children {
      var i :| 0 <= i < |children| && children[i] == c;
      assert more[i] == more[|children|];
    }
  }

  lemma OnceBoth(tab: Table, tab': Table, s: seq<int>)
    requires SameMethods(tab, tab', s)
    ensures Once(tab, s) <==> Once(tab', s)
  {
  }

  lemma NumberedBoth(tab: Table, tab': Table, s: seq<int>)
    requires SameMethods(tab, tab', s)
    ensures Numbered(tab, s) <==> Numbered(tab', s)
  {
    assert SameMethods(tab', tab, s);
    if Numbered(tab, s) {
      NumberedFrame(tab, tab', s);
    }
    if Numbered(tab', s) {
      NumberedFrame(tab', tab, s);
    }
  }

  /** A child under a new name goes to the end of both lists; the methods stay numbered just when it brings the next
      index. */
  lemma AddNew(st: State, p: int, c: int, name: Name, size: int)
    requires Listed(st, p) && c in st.tab.types && c != p
    requires name == Unnamed || First(st.Of(p), NONE, name, 0) == |st.Of(p)|
    ensures var (ok, st') := Added(st, p, c, name, size);
      && ok
      && st'.tab.IsCustom(p) && st'.Body(p).children == st.Body(p).children + [c]
      && st'.Of(p) == st.Of(p) + [Member(c, name)]
      && Current(st'.tab, p)
      && SameMethods(st.tab, st'.tab, st.Body(p).children + [c])
      && (Listed(st', p) <==> (st.tab.InVtable(c) ==> c !in st.Body(p).children))
      && (Numbered(st.tab, st.Body(p).children) ==>
            (Container(st', p) <==> (st.tab.InVtable(c) ==> Stored(st.tab, c) == Count(st.tab, st.Body(p).children))))
  {
    hide Numbered;
    hide Current;
    hide Once;
    hide Table.LayoutSize;
    var children := st.Body(p).children;
    var tab2 := Joined(st.tab, p, c, size);
    var st' := Added(st, p, c, name, size).1;
    JoinedKeepsMethods(st.tab, p, c, size, children + [c]);
    RelaidCurrent(tab2, p);
    assert st'.tab == Relaid(tab2, p);
    assert SameMethods(tab2, st'.tab, children + [c]);
    OnceAppends(st.tab, children, c);
    OnceBoth(st.tab, st'.tab, children + [c]);
    NumberedBoth(st.tab, st'.tab, children + [c]);
    if Numbered(st.tab, children) {
      AppendNumbered(st.tab, children, c);
      NextIsNew(st.tab, children, c);
    }
  }

  lemma OnceReplaces(tab: Table, children: seq<int>, k: nat, c: int)
    requires Once(tab, children) && k < |children| && c !in children
    ensures Once(tab, children[k := c])
  {
  }

  /** Under a name that is taken nothing is added; one virtual method replaces another and takes over its index. */
  lemma AddTaken(st: State, p: int, c: int, name: Name, size: int)
    requires Listed(st, p) && c in st.tab.types && c != p && name != Unnamed
    requires st.tab.InVtable(c) ==> c !in st.Body(p).children
    requires First(st.Of(p), NONE, name, 0) < |st.Of(p)|
    ensures var k, (ok, st') := First(st.Of(p), NONE, name, 0), Added(st, p, c, name, size);
      && ok
      && Listed(st', p)
      && (Numbered(st.tab, st.Body(p).children) ==> Container(st', p))
      && if st.tab.InVtable(st.Of(p)[k].child) && st.tab.InVtable(c)
         then
           && st'.Body(p).children == st.Body(p).children[k := c]
           && st'.Of(p) == st.Of(p)[k := Member(c, name)]
           && Stored(st'.tab, c) == Stored(st.tab, st.Of(p)[k].child)
           && SameMethods(st.tab, st'.tab, st.Body(p).children)
           && Current(st'.tab, p)
         else st' == st
  {
    hide Current;
    hide Table.LayoutSize;
    hide Numbered;
    var ms, children := st.Of(p), st.Body(p).children;
    var k := First(ms, NONE, name, 0);
    var old_ := ms[k].child;
    if st.tab.InVtable(old_) && st.tab.InVtable(c) {
      assert children[k] == old_;
      var i := IndexOf(children, old_, 0);
      assert i == k;
      var tab1 := WithBody(st.tab, c, Method(st.Body(c).fId, true, st.Body(old_).index));
      var tab2 := WithBody(tab1, p, tab1.types[p].body.(children := children[i := c]));
      assert SameMethods(st.tab, tab1, children);
      RelaidCurrent(tab2, p);
      assert SameMethods(tab1, Relaid(tab2, p), children[k := c]);
      OnceReplaces(tab1, children, k, c);
      OnceBoth(tab1, Relaid(tab2, p), children[k := c]);
      if Numbered(st.tab, children) {
        NumberedFrame(st.tab, tab1, children);
        ReplaceNumbered(tab1, children, k, c);
        NumberedFrame(tab1, Relaid(tab2, p), children[k := c]);
      }
    }
  }

  /** An override takes over the index of the method it replaces, also when it is a child of another container as well,
      as a shared copy can be: that container stays numbered if and only if this is the index it had. */
  lemma OverrideElsewhere(st: State, p: int, c: int, name: Name, size: int, q: int)
    requires Listed(st, p) && c in st.tab.types && c != p && name != Unnamed
    requires st.tab.InVtable(c) && c !in st.Body(p).children && First(st.Of(p), NONE, name, 0) < |st.Of(p)|
    requires st.tab.InVtable(st.Of(p)[First(st.Of(p), NONE, name, 0)].child)
    requires q != p && Container(st, q) && c in st.Body(q).children
    ensures var old_, st' := st.Of(p)[First(st.Of(p), NONE, name, 0)].child, Added(st, p, c, name, size).1;
      && q in st'.tab.types && st'.Body(q) == st.Body(q) && st'.Of(q) == st.Of(q) && Listed(st', q)
      && (Container(st', q) <==> Stored(st.tab, old_) == Stored(st.tab, c))
  {
    hide Numbered;
    hide Current;
    hide Table.LayoutSize;
    AddTaken(st, p, c, name, size);
    var st' := Added(st, p, c, name, size).1;
    var children := st.Body(q).children;
    var k := IndexOf(children, c, 0);
    ReindexedNumbered(st.tab, st'.tab, children, k);
  }

  // ---- a new virtual method ----

  /** Making a method virtual that is no child yet leaves the container alone. */
  lemma MadeVirtual(st: State, p: int, c: int, name: Name)
    requires Listed(st, p) && st.tab.IsMethod(c) && c !in st.Body(p).children && name != Unnamed
    ensures var children, st' := st.Body(p).children, Virtual(st, p, c, name);
      && c != p && Listed(st', p) && SameMethods(st.tab, st'.tab, children) && st'.tab.InVtable(c)
      && st'.Of(p) == st.Of(p) && st'.Body(p) == st.Body(p) && st'.tab.types.Keys == st.tab.types.Keys
      && (Numbered(st.tab, children) ==>
            Numbered(st'.tab, children) && Count(st'.tab, children) == Next(st.tab, children, |children|)
            && Next(st.tab, children, |children|) == Count(st.tab, children))
      && (First(st.Of(p), NONE, name, 0) == |st.Of(p)| ==> Stored(st'.tab, c) == Next(st.tab, children, |children|))
  {
    hide Numbered;
    var children, st' := st.Body(p).children, Virtual(st, p, c, name);
    assert SameMethods(st.tab, st'.tab, children);
    OnceBoth(st.tab, st'.tab, children);
    if Numbered(st.tab, children) {
      NumberedFrame(st.tab, st'.tab, children);
      NextIsCount(st.tab, children);
    }
  }

  /** A fresh method that is made virtual and then added under the same name: either it is new and gets the next index,
      or it overrides a virtual method and gets that one's, or the name belongs to something else and nothing is added.
      Every other member keeps its place, its name and its index. */
  lemma VirtualThenAdded(st: State, p: int, c: int, name: Name)
    requires Listed(st, p) && st.tab.IsMethod(c) && c !in st.Body(p).children && name != Unnamed
    ensures var children, k := st.Body(p).children, First(st.Of(p), NONE, name, 0);
      var (ok, st') := Added(Virtual(st, p, c, name), p, c, name, NONE);
      && ok
      && Listed(st', p)
      && (Numbered(st.tab, children) ==>
            Container(st', p) && Next(st.tab, children, |children|) == Count(st.tab, children))
      && (Indexed(st.tab, children) ==> Indexed(st'.tab, st'.Body(p).children))
      && (forall d :: d in st'.Body(p).children ==> d in children || d == c)
      && View(st', p) ==
           if k == |st.Of(p)| then View(st, p) + [Entry(c, name, Next(st.tab, children, |children|))]
           else if st.tab.InVtable(st.Of(p)[k].child) then View(st, p)[k := Entry(c, name, View(st, p)[k].slot)]
           else View(st, p)
  {
    hide Numbered;
    hide Current;
    hide Table.LayoutSize;
    var ms, children := st.Of(p), st.Body(p).children;
    var st1 := Virtual(st, p, c, name);
    MadeVirtual(st, p, c, name);
    hide Virtual;
    hide Added;
    hide Once;
    var k := First(ms, NONE, name, 0);
    if k == |ms| {
      AddNew(st1, p, c, name, NONE);
    } else {
      AddTaken(st1, p, c, name, NONE);
    }
  }

  // ---- fields by name ----

  /** The loop of TPTB_get_child_offset_name from member k on. */
  function NameOffset(tab: Table, ms: seq<Member>, name: Name, align: int, k: nat, off: int): int
    requires k <= |ms|
    decreases |ms| - k
  {
    if k == |ms| then NONE else
    var c := ms[k].child;
    if c !in tab.types then NameOffset(tab, ms, name, align, k + 1, off)
    else if tab.types[c].body.Method? then
      if tab.InVtable(c) && tab.types[c].body.index != NONE && NameMatches(ms[k], name)
      then tab.types[c].body.index * tab.conf.full
      else NameOffset(tab, ms, name, align, k + 1, off)
    else
      var size := tab.MemSize(c);
      if size == NONE then NameOffset(tab, ms, name, align, k + 1, off)
      else if align == NONE then
        if NameMatches(ms[k], name) then Align(off, size)
        else NameOffset(tab, ms, name, align, k + 1, Align(off, size) + size)
      else
        if NameMatches(ms[k], name) then off else NameOffset(tab, ms, name, align, k + 1, off + Align(size, align))
  }

  /** TPTB_get_child_offset_name for a resolved container. */
  function OffsetOfName(st: State, p: int, name: Name): int {
    if p !in st.tab.types then NONE
    else if !st.tab.IsCustom(p) then 0
    else if p !in st.members then NONE
    else if !st.Body(p).multiple then st.tab.Prefix(st.Body(p))
    else NameOffset(st.tab, st.members[p], name, st.Body(p).align, 0, st.tab.Prefix(st.Body(p)))
  }

  /** No child has a size below "no size". */
  predicate Measured(tab: Table, children: seq<int>) {
    forall i :: 0 <= i < |children| ==> tab.MemSize(children[i]) >= NONE
  }

  lemma AlignZero(b: int)
    requires PowerOfTwo(b)
    ensures Align(0, b) == 0
  {
    AlignRoundsUp(0, b);
    assert Align(0, b) % b == Align(0, b);
  }

  /** The search passes a member of another name, and makes room for it. */
  lemma NamePasses(tab: Table, ms: seq<Member>, name: Name, align: int, i: nat, off: int)
    requires i < |ms| && !NameMatches(ms[i], name) && tab.MemSize(ms[i].child) >= NONE && PowerOfTwo(align)
    ensures NameOffset(tab, ms, name, align, i, off)
            == NameOffset(tab, ms, name, align, i + 1, off + tab.Room(ms[i].child, align))
  {
    PowerPositive(align);
    AlignZero(align);
  }

  lemma {:induction false} NameOffsetAt(tab: Table, ms: seq<Member>, children: seq<int>, prefix: nat, align: int,
                                        k: nat, i: nat)
    requires Parallel(ms, children) && DistinctNames(ms) && Measured(tab, children) && PowerOfTwo(align)
    requires i <= k < |ms| && ms[k].name != Unnamed && tab.IsField(children[k])
    ensures NameOffset(tab, ms, ms[k].name, align, i, tab.Offset(prefix, align, children, i))
            == tab.Offset(prefix, align, children, k)
    decreases k - i
  {
    if i == k {
      PowerPositive(align);
    } else {
      hide NameOffset;
      hide Table.Room;
      hide PowerOfTwo;
      assert ms[i].name != ms[k].name;
      NamePasses(tab, ms, ms[k].name, align, i, tab.Offset(prefix, align, children, i));
      NameOffsetAt(tab, ms, children, prefix, align, k, i + 1);
    }
  }

  /** A struct: its fields follow each other, padded to a power of two, and its size is current. */
  ghost predicate Struct(st: State, p: int) {
    && Listed(st, p) && Current(st.tab, p)
    && st.Body(p).multiple && PowerOfTwo(st.Body(p).align) && Measured(st.tab, st.Body(p).children)
  }

  /** A type other than p neither loses its size nor becomes virtual, and of the methods only c can change its index,
      when c is added. */
  lemma AddedSize(st: State, p: int, c: int, name: Name, size: int, d: int)
    requires Listed(st, p) && c in st.tab.types && c != p && size >= NONE && d != p
    requires st.tab.InVtable(c) ==> c !in st.Body(p).children
    ensures var tab' := Added(st, p, c, name, size).1.tab;
      && (d in tab'.types <==> d in st.tab.types)
      && (st.tab.MemSize(d) >= NONE ==> tab'.MemSize(d) >= NONE)
      && tab'.InVtable(d) == st.tab.InVtable(d)
      && (d != c || !st.tab.InVtable(c) ==> Stored(tab', d) == Stored(st.tab, d))
  {
    hide Numbered;
    hide Current;
    hide Once;
    hide Table.LayoutSize;
    var tab' := Added(st, p, c, name, size).1.tab;
    assert tab'.types.Keys == st.tab.types.Keys;
    if d in st.tab.types && d != c {
      assert tab'.types[d] == st.tab.types[d];
    }
  }

  lemma AddedKind(st: State, p: int, c: int, name: Name, size: int)
    requires st.tab.IsCustom(p) && p != c
    ensures var st' := Added(st, p, c, name, size).1;
      && st'.tab.IsCustom(p) && st'.Body(p).multiple == st.Body(p).multiple && st'.Body(p).align == st.Body(p).align
      && st'.Body(p).vtable == st.Body(p).vtable
  {
    hide Table.LayoutSize;
  }

  /** The container is laid out as it was, with a current size if it had one, and has a vtable if it had one or got
      one. */
  predicate Laid(st: State, st': State, p: int, virtual: bool) {
    && st.tab.IsCustom(p) && st'.tab.IsCustom(p)
    && st'.Body(p).align == st.Body(p).align && st'.Body(p).multiple == st.Body(p).multiple
    && st'.Body(p).vtable == (st.Body(p).vtable || virtual)
    && (Current(st.tab, p) ==> Current(st'.tab, p))
  }

  lemma LaidTrans(st: State, st1: State, st2: State, p: int, v: bool, v1: bool)
    requires Laid(st, st1, p, v) && Laid(st1, st2, p, v1)
    ensures Laid(st, st2, p, v || v1)
  {
  }

  /** Adding a child, virtual or not, keeps a struct a struct. */
  lemma AddKeepsStruct(st: State, p: int, c: int, name: Name, size: int)
    requires Struct(st, p) && c in st.tab.types && c != p && (st.tab.InVtable(c) ==> c !in st.Body(p).children)
    requires st.tab.MemSize(c) >= NONE && size >= NONE
    ensures Added(st, p, c, name, size).0 && Struct(Added(st, p, c, name, size).1, p)
  {
    hide Numbered;
    hide Current;
    hide Once;
    hide Table.LayoutSize;
    hide Table.MemSize;
    hide PowerOfTwo;
    var children := st.Body(p).children;
    forall d | d in children + [c] ensures Added(st, p, c, name, size).1.tab.MemSize(d) >= NONE {
      assert d in children ==>
               exists i :: 0 <= i < |children| && children[i] == d && st.tab.MemSize(children[i]) >= NONE;
      AddedSize(st, p, c, name, size, d);
    }
    AddedKind(st, p, c, name, size);
    hide Added;
    if name == Unnamed || First(st.Of(p), NONE, name, 0) == |st.Of(p)| {
      AddNew(st, p, c, name, size);
    } else {
      AddTaken(st, p, c, name, size);
    }
  }

  /** Member k is a field with a name. */
  predicate NamedField(st: State, p: int, k: nat)
    requires st.tab.IsCustom(p)
  {
    k < |st.Of(p)| && k < |st.Body(p).children| && st.Of(p)[k].name != Unnamed && st.tab.IsField(st.Body(p).children[k])
  }

  lemma OffsetByName(st: State, p: int, k: nat)
    requires Struct(st, p) && NamedField(st, p, k)
    ensures OffsetOfName(st, p, st.Of(p)[k].name)
            == st.tab.Offset(st.tab.Prefix(st.Body(p)), st.Body(p).align, st.Body(p).children, k)
  {
    NameOffsetAt(st.tab, st.Of(p), st.Body(p).children, st.tab.Prefix(st.Body(p)), st.Body(p).align, k, 0);
  }

  /** Fields found by name lie behind the vtable word, one after the other without overlap, inside the recalculated
      size. */
  lemma FieldsByName(st: State, p: int, i: nat, j: nat)
    requires Struct(st, p) && NamedField(st, p, i) && NamedField(st, p, j) && i < j
    ensures var a, b := OffsetOfName(st, p, st.Of(p)[i].name), OffsetOfName(st, p, st.Of(p)[j].name);
      && st.tab.Prefix(st.Body(p)) <= a
      && a + st.tab.MemSize(st.Body(p).children[i]) <= b
      && b + st.tab.MemSize(st.Body(p).children[j]) <= st.Body(p).size
  {
    var b := st.Body(p);
    var prefix := st.tab.Prefix(b);
    OffsetByName(st, p, i);
    OffsetByName(st, p, j);
    PowerPositive(b.align);
    st.tab.OffsetsGrow(prefix, b.align, b.children, 0, i);
    st.tab.OffsetsGrow(prefix, b.align, b.children, i, j);
    st.tab.OffsetsGrow(prefix, b.align, b.children, j, |b.children|);
    st.tab.ExtentIsOffset(b, |b.children|);
  }

  /** The slot search comes upon the leaves of a field where the field is found by name. */
  lemma LeavesOfNamedField(st: State, rank: map<int, nat>, p: int, k: nat, base: int)
    returns (before: seq<Slot>, after: seq<Slot>)
    requires Struct(st, p) && NamedField(st, p, k)
    requires st.tab.Copies() && Ranked(st.tab, rank) && st.tab.types[p].ptr == 0 && st.tab.types[p].p == NONE
    ensures var at := base + OffsetOfName(st, p, st.Of(p)[k].name);
            Slots(st.tab, rank, p, base) == before + Slots(st.tab, rank, st.Body(p).children[k], at) + after
  {
    OffsetByName(st, p, k);
    before, after := LeavesOfField(st.tab, rank, p, k, base);
  }

  // ---- enabling the vtable ----

  /** TPTB_enable_vtable for a container. */
  function Enabled(st: State, p: int): State
    requires st.tab.IsCustom(p)
  {
    st.(tab := Relaid(WithBody(st.tab, p, st.Body(p).(vtable := true)), p))
  }

  /** The end of the fields does not depend on size and vtable flag. */
  lemma {:induction false} ExtentSame(tab: Table, tab': Table, b: Body, b': Body, n: nat)
    requires b.Custom? && b'.Custom? && b' == b.(size := b'.size, vtable := b'.vtable) && n <= |b.children|
    requires SameSizes(tab, tab', b.children)
    ensures tab.Extent(b, n) == tab'.Extent(b', n)
  {
    if n > 0 {
      ExtentSame(tab, tab', b, b', n - 1);
      assert b.children[n - 1] in b.children;
    }
  }

  /** The container stays what it was, with a current size: one word more if it has virtual methods and had no
      vtable. */
  lemma EnabledKeeps(st: State, p: int)
    requires Listed(st, p)
    ensures var st' := Enabled(st, p);
      && Listed(st', p) && Current(st'.tab, p)
      && st'.Body(p) == st.Body(p).(vtable := true, size := st'.Body(p).size)
      && View(st', p) == View(st, p)
      && (Struct(st, p) ==> Struct(st', p))
      && (Container(st, p) ==> Container(st', p))
      && (Current(st.tab, p) ==>
            st'.Body(p).size - st'.tab.Prefix(st'.Body(p)) == st.Body(p).size - st.tab.Prefix(st.Body(p)))
      && st'.tab.types.Keys == st.tab.types.Keys
      && (forall d :: d in st.tab.types && d != p ==> st'.tab.types[d] == st.tab.types[d])
  {
    hide Numbered;
    hide PowerOfTwo;
    var b, children := st.Body(p), st.Body(p).children;
    var tab1 := WithBody(st.tab, p, b.(vtable := true));
    RelaidCurrent(tab1, p);
    var st' := Enabled(st, p);
    assert SameMethods(st.tab, st'.tab, children);
    OnceBoth(st.tab, st'.tab, children);
    NumberedBoth(st.tab, st'.tab, children);
    if Current(st.tab, p) {
      ExtentSame(st.tab, st'.tab, b, st'.Body(p), |children|);
    }
  }

  lemma {:induction false} OffsetShifts(tab: Table, tab': Table, prefix: nat, prefix': nat, align: int,
                                        children: seq<int>, n: nat)
    requires n <= |children| && SameSizes(tab, tab', children)
    ensures tab'.Offset(prefix', align, children, n) - prefix' == tab.Offset(prefix, align, children, n) - prefix
  {
    if n > 0 {
      OffsetShifts(tab, tab', prefix, prefix', align, children, n - 1);
      assert children[n - 1] in children;
    }
  }

  /** The fields of a struct move by the vtable word, if it is new. */
  lemma EnablingShifts(st: State, p: int, k: nat)
    requires Struct(st, p) && NamedField(st, p, k)
    ensures var st', name := Enabled(st, p), st.Of(p)[k].name;
      && NamedField(st', p, k)
      && OffsetOfName(st', p, name) - st'.tab.Prefix(st'.Body(p))
         == OffsetOfName(st, p, name) - st.tab.Prefix(st.Body(p))
  {
    hide Numbered;
    hide Current;
    hide PowerOfTwo;
    EnabledKeeps(st, p);
    var st' := Enabled(st, p);
    var b, b' := st.Body(p), st'.Body(p);
    OffsetByName(st, p, k);
    assert forall i :: 0 <= i < |b.children| ==> st'.tab.MemSize(b.children[i]) == st.tab.MemSize(b.children[i]);
    OffsetByName(st', p, k);
    OffsetShifts(st.tab, st'.tab, st.tab.Prefix(b), st'.tab.Prefix(b'), b.align, b.children, k);
  }

  // ---- lookup by function ----

  /** The first virtual child linked to the function, or the length. */
  function FirstLinked(tab: Table, children: seq<int>, f: int, k: nat): (r: nat)
    requires k <= |children|
    ensures k <= r <= |children|
    ensures r < |children| ==> tab.InVtable(children[r]) && tab.types[children[r]].body.fId == f
    ensures forall i :: k <= i < r && tab.InVtable(children[i]) ==> tab.types[children[i]].body.fId != f
    decreases |children| - k
  {
    if k == |children| || (tab.InVtable(children[k]) && tab.types[children[k]].body.fId == f) then k
    else FirstLinked(tab, children, f, k + 1)
  }

  /** TPTB_get_vtable_index */
  function LinkedIndex(tab: Table, p: int, f: int): int {
    if !tab.IsCustom(p) then NONE else
    var children := tab.types[p].body.children;
    var k := FirstLinked(tab, children, f, 0);
    if k == |children| then NONE else tab.Index(children[k], tab.Fallback(children, k))
  }

  /** The first virtual method linked to a function is found with its index, or if it has none with the number of
      virtual methods before it; without one nothing is found. */
  lemma LookupFindsIndex(st: State, p: int, f: int, k: nat)
    requires st.tab.IsCustom(p) && k <= |st.Body(p).children|
    requires k < |st.Body(p).children| ==>
               st.tab.InVtable(st.Body(p).children[k]) && st.tab.types[st.Body(p).children[k]].body.fId == f
    requires forall i :: 0 <= i < k && st.tab.InVtable(st.Body(p).children[i]) ==>
               st.tab.types[st.Body(p).children[i]].body.fId != f
    ensures LinkedIndex(st.tab, p, f)
            == if k == |st.Body(p).children| then NONE
               else if Stored(st.tab, st.Body(p).children[k]) != NONE then Stored(st.tab, st.Body(p).children[k])
               else |set i | 0 <= i < k && st.tab.InVtable(st.Body(p).children[i])|
  {
    FallbackCounts(st.tab, st.Body(p).children, k);
    assert FirstLinked(st.tab, st.Body(p).children, f, 0) == k;
  }

  /** In a numbered container every virtual method is found under its function with the index it carries,
      provided no other virtual method there is linked to that function. */
  lemma LookupFindsStored(st: State, p: int, k: nat)
    requires Container(st, p) && k < |st.Body(p).children| && st.tab.InVtable(st.Body(p).children[k])
    requires forall i :: 0 <= i < |st.Body(p).children| && i != k && st.tab.InVtable(st.Body(p).children[i]) ==>
               st.tab.types[st.Body(p).children[i]].body.fId != st.tab.types[st.Body(p).children[k]].body.fId
    ensures LinkedIndex(st.tab, p, st.tab.types[st.Body(p).children[k]].body.fId)
            == Stored(st.tab, st.Body(p).children[k])
  {
    var children := st.Body(p).children;
    var f := st.tab.types[children[k]].body.fId;
    assert FirstLinked(st.tab, children, f, 0) == k;
  }

  /** Adding a child leaves every other method as it is. */
  lemma AddNewElsewhere(st: State, p: int, c: int, name: Name, size: int, other: int)
    requires Container(st, p) && c in st.tab.types && c != p && other in st.tab.types && other != p
    requires name == Unnamed || First(st.Of(p), NONE, name, 0) == |st.Of(p)|
    ensures var st' := Added(st, p, c, name, size).1;
      && other in st'.tab.types
      && st'.tab.InVtable(other) == st.tab.InVtable(other) && Stored(st'.tab, other) == Stored(st.tab, other)
  {
    var tab2 := Joined(st.tab, p, c, size);
    JoinedKeepsMethods(st.tab, p, c, size, [other]);
    RelaidCurrent(tab2, p);
    assert SameMethods(st.tab, tab2, [other]);
    assert SameMethods(tab2, Relaid(tab2, p), [other]);
    assert [other][0] == other;
  }

  /** Two children that were numbered elsewhere, as the methods of two bases are, can carry the same index. */
  lemma TwoBasesCollide(st: State, p: int, a: int, b: int, na: Name, nb: Name)
    requires Container(st, p) && st.Of(p) == [] && a != p && b != p && a != b
    requires st.tab.InVtable(a) && st.tab.InVtable(b) && Stored(st.tab, a) == Stored(st.tab, b) == 0
    requires na != Unnamed && nb != Unnamed && na != nb
    ensures var st' := Added(Added(st, p, a, na, NONE).1, p, b, nb, NONE).1;
      st'.Body(p).children == [a, b] && !Numbered(st'.tab, [a, b])
  {
    assert st.Body(p).children == [];
    AddNew(st, p, a, na, NONE);
    var st1 := Added(st, p, a, na, NONE).1;
    assert [] + [a] == [a];
    AddNewElsewhere(st, p, a, na, NONE, b);
    assert Container(st1, p);
    AddNew(st1, p, b, nb, NONE);
    assert [a] + [b] == [a, b];
    var st2 := Added(st1, p, b, nb, NONE).1;
    assert st2.tab.InVtable([a, b][0]) && st2.tab.InVtable([a, b][1]);
  }
}
