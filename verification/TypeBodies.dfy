/** Bodies of containers: what becomes of the table and the container, declaration by declaration. */
module TypeBodies {
  import opened TypeTable
  import opened TypeMembers
  import opened TypeContainers
  import opened TypeCopies
  import opened TypeRuns

  // ---- one declaration after the other ----

  /** Whether a declaration can be made in the body of p: it names entries of the table or none, a virtual method can
      still join, and no variable is of the type of a method. */
  ghost predicate MayJoin(st: State, p: int, d: Declaration)
    requires st.tab.IsCustom(p)
  {
    match d
    case Existing(c, _, size) =>
      && c != p && size >= NONE && (c in st.tab.types || c < 0)
      && (st.tab.InVtable(c) ==> c !in st.Body(p).children && Stored(st.tab, c) >= 0)
    case Variable(b, _, _) => !st.tab.IsMethod(b) && (b in st.tab.types || b < 0)
    case NewVirtual(_, _, _) => true
  }

  /** The virtual methods among the declared types are told apart. */
  ghost predicate JoinOnce(tab: Table, ds: seq<Declaration>) {
    forall i, j :: 0 <= i < j < |ds| && ds[i].Existing? && ds[j].Existing? && tab.InVtable(ds[i].child) ==>
      ds[i].child != ds[j].child
  }

  /** The declaration brings no virtual method from elsewhere. */
  predicate Plain(tab: Table, d: Declaration) {
    d.Existing? ==> !tab.InVtable(d.child)
  }

  ghost predicate NothingInherited(tab: Table, ds: seq<Declaration>) {
    forall i {:trigger ds[i]} :: 0 <= i < |ds| ==> Plain(tab, ds[i])
  }

  /** The declarations from k on can still be made, and their types are in the vtable with the indices they had in
      st0. */
  ghost predicate Remain(st0: State, st: State, p: int, ds: seq<Declaration>, k: nat)
    requires st.tab.IsCustom(p)
  {
    forall i {:trigger ds[i]} :: k <= i < |ds| ==>
      && MayJoin(st, p, ds[i])
      && (ds[i].Existing? ==>
            && (ds[i].child in st.tab.types <==> ds[i].child in st0.tab.types)
            && st.tab.InVtable(ds[i].child) == st0.tab.InVtable(ds[i].child)
            && Stored(st.tab, ds[i].child) == Stored(st0.tab, ds[i].child))
      && (ds[i].Variable? ==>
            && (ds[i].base in st.tab.types <==> ds[i].base in st0.tab.types)
            && (ds[i].base in st0.tab.types ==>
                  SameKin(st0.tab.types[ds[i].base], st.tab.types[ds[i].base])))
  }

  /** What a declaration made in st0 comes to: its child is the one it names, or a copy of the type with that depth of
      indirection, or a new method of that name, scope and function. */
  ghost predicate ComesTo(st0: State, st: State, d: Declaration, o: Outcome)
    requires st0.tab.Copies() && st.tab.Copies()
  {
    match d
    case Existing(c, name, _) => o == if c in st0.tab.types then Given(c, name, Stored(st0.tab, c)) else Nothing
    case Variable(b, ptr, name) =>
      if b !in st0.tab.types then o == Nothing
      else
        && o.Given? && o.name == name && o.slot == NONE && o.child in st.tab.types && !st.tab.IsMethod(o.child)
        && (if st0.tab.types[b].body.Generic? then o.child == b
            else IsCopy(st.tab, o.child, ptr, st0.tab.Resolve(b)))
    case NewVirtual(f, scope, text) =>
      o.Fresh? && o.text == text && o.child !in st0.tab.types && IsMethodOf(st.tab, o.child, scope, text, f)
  }

  ghost predicate AllComeTo(st0: State, st: State, ds: seq<Declaration>, os: seq<Outcome>)
    requires st0.tab.Copies() && st.tab.Copies()
  {
    && |os| <= |ds|
    && (forall i {:trigger os[i]} :: 0 <= i < |os| ==> ComesTo(st0, st, ds[i], os[i]))
    && forall i, j :: 0 <= i < j < |os| && os[i].Fresh? && os[j].Fresh? ==> os[i].child < os[j].child
  }

  /** There is a new method. */
  ghost predicate AnyFresh(os: seq<Outcome>) {
    exists i :: 0 <= i < |os| && os[i].Fresh?
  }

  lemma OneMoreFresh(os: seq<Outcome>, o: Outcome)
    ensures AnyFresh(os + [o]) <==> AnyFresh(os) || o.Fresh?
  {
    var os' := os + [o];
    assert os'[|os|] == o;
    if i :| 0 <= i < |os| && os[i].Fresh? {
      assert os'[i] == os[i];
    }
  }

  /** A container whose fields follow each other, padded to a power of two, is a struct if its size is current. */
  lemma CurrentIsStruct(st: State, next: nat, p: int)
    requires Allotted(st, next) && Listed(st, p) && Current(st.tab, p)
    requires st.Body(p).multiple && PowerOfTwo(st.Body(p).align)
    ensures Struct(st, p)
  {
    assert forall c :: c in st.tab.types ==> InShape(st.tab, c);
  }

  /** Entry k was brought by a declaration. */
  ghost predicate Brought(os: seq<Outcome>, k: int) {
    exists i :: 0 <= i < |os| && !os[i].Nothing? && os[i].child == k
  }

  /** Nothing else is new. */
  ghost predicate AllBrought(st0: State, st: State, os: seq<Outcome>) {
    forall k {:trigger k in st.tab.types} :: k in st.tab.types && k !in st0.tab.types ==> Brought(os, k)
  }

  /** The declaration changes the entry e of the table. */
  predicate Touches(tab: Table, d: Declaration, e: int) {
    d.Existing? && e == TouchedBy(tab, d.child, d.size)
  }

  /** What no declaration touches is there unchanged. */
  ghost predicate RestStays(st0: State, st: State, p: int, ds: seq<Declaration>) {
    forall e {:trigger e in st0.tab.types} ::
      e in st0.tab.types && e != p && (forall i {:trigger ds[i]} :: 0 <= i < |ds| ==> !Touches(st0.tab, ds[i], e)) ==>
        e in st.tab.types && st.tab.types[e] == st0.tab.types[e]
  }

  /** Some variable asks for a copy of b with that depth of indirection. */
  ghost predicate AskedFor(ds: seq<Declaration>, b: int, ptr: int) {
    exists j :: 0 <= j < |ds| && ds[j].Variable? && ds[j].base == b && ds[j].ptr == ptr
  }

  /** No declaration changes the entry e. */
  ghost predicate Untouched(tab: Table, p: int, ds: seq<Declaration>, e: int) {
    e != p && forall i {:trigger ds[i]} :: 0 <= i < |ds| ==> !Touches(tab, ds[i], e)
  }

  /** A new copy, but one of a method, was asked for, and has the layout that what it was made of had before the run, if
      that was left alone. */
  ghost predicate CopiesMeasured(st0: State, st: State, p: int, ds: seq<Declaration>) {
    forall k {:trigger k in st.tab.types} ::
      k in st.tab.types && k !in st0.tab.types && st.tab.types[k].p != NONE && !st.tab.IsMethod(k) ==>
        var b := st.tab.types[k].p;
        && b in st0.tab.types && AskedFor(ds, b, st.tab.types[k].ptr)
        && (Untouched(st0.tab, p, ds, b) ==> SameLayout(st0.tab.types[b].body, st.tab.types[k].body))
  }

  /** A copy that came with the declaration is one of the type of the variable. */
  ghost predicate NewFrom(tab: Table, tab': Table, d: Declaration) {
    forall k {:trigger k in tab'.types} :: k in tab'.types && k !in tab.types && tab'.types[k].p != NONE ==>
      && d.Variable? && tab'.types[k].p == d.base && tab'.types[k].ptr == d.ptr && d.base in tab.types
      && SameLayout(tab.types[d.base].body, tab'.types[k].body)
  }

  /** Every entry but two is there unchanged. */
  ghost predicate AllBut(tab: Table, tab': Table, p: int, touched: int) {
    forall e {:trigger e in tab.types} :: e in tab.types && e != p && e != touched ==>
      e in tab'.types && tab'.types[e] == tab.types[e]
  }

  /** The only new entry, if any, is that of the outcome. */
  ghost predicate NewIs(tab: Table, tab': Table, o: Outcome) {
    && (forall d {:trigger d in tab'.types} :: d in tab'.types && d !in tab.types ==> !o.Nothing? && o.child == d)
    && (o.Fresh? ==> o.child !in tab.types)
  }

  /** One declaration was made of st. */
  ghost predicate Stepped(st: State, id: nat, st': State, id': nat, p: int, plain: bool, touched: int, o: Outcome) {
    && AllBut(st.tab, st'.tab, p, touched) && NewIs(st.tab, st'.tab, o)
    && Allotted(st', id') && Held(st', id', p) && id <= id' && Kept(st, id, st')
    && View(st', p) == Apply(View(st, p), o)
    && Laid(st, st', p, o.Fresh?)
    && (plain ==> Grown(st, id, st', id', p) && (Container(st, p) ==> Container(st', p)))
  }

  /** What the first k declarations make of st0. */
  ghost predicate Reached(st0: State, id0: nat, st: State, id: nat, p: int, ds: seq<Declaration>, os: seq<Outcome>,
                          k: nat) {
    && |os| == k <= |ds| && Allotted(st0, id0) && Allotted(st, id) && Held(st, id, p) && id0 <= id
    && Remain(st0, st, p, ds, k)
    && Kept(st0, id0, st) && AllComeTo(st0, st, ds, os) && AllBrought(st0, st, os) && RestStays(st0, st, p, ds)
    && CopiesMeasured(st0, st, p, ds)
    && View(st, p) == DeclareAll(View(st0, p), os)
    && Laid(st0, st, p, AnyFresh(os))
    && (NothingInherited(st0.tab, ds) ==>
          Grown(st0, id0, st, id, p) && (Container(st0, p) ==> Container(st, p)))
  }

  lemma GrownSelf(st: State, next: nat, p: int)
    requires Allotted(st, next) && (p in st.tab.types ==> st.tab.IsCustom(p) && st.tab.types[p].p == NONE)
    ensures Grown(st, next, st, next, p) && Kept(st, next, st)
  {
    PlainlyGrown(st, next, st, next, p);
  }

  lemma Begun(st: State, id: nat, p: int, ds: seq<Declaration>)
    requires Allotted(st, id) && Held(st, id, p) && forall d :: d in ds ==> MayJoin(st, p, d)
    ensures Reached(st, id, st, id, p, ds, [], 0)
  {
    hide Numbered;
    hide Grown;
    hide Allotted;
    GrownSelf(st, id, p);
  }

  lemma StillComesTo(st0: State, st: State, id: nat, st': State, id': nat, d: Declaration, o: Outcome)
    requires st0.tab.Copies() && Allotted(st, id) && Allotted(st', id') && Kept(st, id, st')
    requires ComesTo(st0, st, d, o)
    ensures ComesTo(st0, st', d, o)
  {
    KeptRoots(st, id, st', id');
    assert d.NewVirtual? || (d.Variable? && o.Given?) ==>
             o.child in st.tab.types && SameKin(st.tab.types[o.child], st'.tab.types[o.child]);
  }

  lemma OneMoreComesTo(st0: State, st: State, id: nat, st': State, id': nat, ds: seq<Declaration>, os: seq<Outcome>,
                       o: Outcome)
    requires Allotted(st, id) && Allotted(st', id') && Kept(st, id, st') && st0.tab.Copies()
    requires AllComeTo(st0, st, ds, os) && AllBrought(st0, st, os)
    requires |os| < |ds| && ComesTo(st0, st', ds[|os|], o)
    requires NewIs(st.tab, st'.tab, o)
    ensures AllComeTo(st0, st', ds, os + [o]) && AllBrought(st0, st', os + [o])
  {
    var os' := os + [o];
    assert os'[|os|] == o;
    forall i | 0 <= i < |os'| ensures ComesTo(st0, st', ds[i], os'[i]) {
      if i < |os| {
        assert ComesTo(st0, st, ds[i], os[i]) && os'[i] == os[i];
        StillComesTo(st0, st, id, st', id', ds[i], os[i]);
      }
    }
    forall i | 0 <= i < |os| && os[i].Fresh? ensures os[i].child < id {
      assert ComesTo(st0, st, ds[i], os[i]);
    }
    if o.Fresh? {
      assert o.child in st'.tab.types;
    }
    forall k | k in st'.tab.types && k !in st0.tab.types ensures Brought(os', k) {
      if k in st.tab.types {
        assert Brought(os, k);
        var i :| 0 <= i < |os| && !os[i].Nothing? && os[i].child == k;
        assert os'[i] == os[i];
      }
    }
  }

  lemma RestStillStays(st0: State, st: State, st': State, p: int, ds: seq<Declaration>, k: nat, touched: int)
    requires RestStays(st0, st, p, ds) && k < |ds| && (touched != NONE ==> Touches(st0.tab, ds[k], touched))
    requires NONE !in st0.tab.types && AllBut(st.tab, st'.tab, p, touched)
    ensures RestStays(st0, st', p, ds)
  {
  }

  lemma StillMeasured(st0: State, st: State, st': State, p: int, ds: seq<Declaration>, k: nat, touched: int)
    requires CopiesMeasured(st0, st, p, ds) && RestStays(st0, st, p, ds) && k < |ds|
    requires NewFrom(st.tab, st'.tab, ds[k]) && AllBut(st.tab, st'.tab, p, touched)
    requires p in st0.tab.types && st.tab.Copies() && (touched != NONE ==> Touches(st0.tab, ds[k], touched))
    requires ds[k].Variable? ==> (ds[k].base in st.tab.types <==> ds[k].base in st0.tab.types)
    ensures CopiesMeasured(st0, st', p, ds)
  {
    hide SameLayout;
    assert touched != NONE ==> touched in st0.tab.types;
    forall n | n in st'.tab.types && n !in st0.tab.types && st'.tab.types[n].p != NONE && !st'.tab.IsMethod(n)
      ensures st'.tab.types[n].p in st0.tab.types && AskedFor(ds, st'.tab.types[n].p, st'.tab.types[n].ptr)
      ensures Untouched(st0.tab, p, ds, st'.tab.types[n].p) ==>
                SameLayout(st0.tab.types[st'.tab.types[n].p].body, st'.tab.types[n].body)
    {
      if n in st.tab.types {
        assert st'.tab.types[n] == st.tab.types[n];
      }
    }
  }

  lemma StepReaches(st0: State, id0: nat, st: State, id: nat, st': State, id': nat, p: int, ds: seq<Declaration>,
                    os: seq<Outcome>, k: nat, touched: int, o: Outcome)
    requires Reached(st0, id0, st, id, p, ds, os, k) && k < |ds|
    requires Stepped(st, id, st', id', p, Plain(st0.tab, ds[k]), touched, o)
    requires touched != NONE ==> Touches(st0.tab, ds[k], touched)
    requires Remain(st0, st', p, ds, k + 1) && ComesTo(st0, st', ds[k], o) && NewFrom(st.tab, st'.tab, ds[k])
    ensures Reached(st0, id0, st', id', p, ds, os + [o], k + 1)
  {
    assert NONE !in st0.tab.types && st0.tab.Copies() && st.tab.Copies() && st'.tab.Copies();
    assert NothingInherited(st0.tab, ds) ==> Plain(st0.tab, ds[k]);
    assert p in st0.tab.types;
    assert ds[k].Variable? ==> (ds[k].base in st.tab.types <==> ds[k].base in st0.tab.types);
    hide CopiesMeasured;
    hide NewFrom;
    hide Allotted;
    hide Held;
    hide Kept;
    hide Grown;
    hide NothingInherited;
    hide Plain;
    hide Table.Copies;
    hide AnyFresh;
    hide Current;
    hide Container;
    hide ComesTo;
    hide AllBrought;
    hide AllComeTo;
    hide Apply;
    hide DeclareAll;
    hide View;
    hide Remain;
    hide RestStays;
    hide Touches;
    hide AllBut;
    hide NewIs;
    hide Laid;
    LaidTrans(st0, st, st', p, AnyFresh(os), o.Fresh?);
    KeptTrans(st0, id0, st, id, st');
    RestStillStays(st0, st, st', p, ds, k, touched);
    StillMeasured(st0, st, st', p, ds, k, touched);
    OneMoreComesTo(st0, st, id, st', id', ds, os, o);
    OneMore(View(st0, p), os, o);
    OneMoreFresh(os, o);
    if NothingInherited(st0.tab, ds) {
      GrownTrans(st0, id0, st, id, st', id', p);
    }
  }

  lemma ReachedIsHeld(st0: State, id0: nat, st: State, id: nat, p: int, ds: seq<Declaration>, os: seq<Outcome>, k: nat)
    requires Reached(st0, id0, st, id, p, ds, os, k)
    ensures Allotted(st, id) && Held(st, id, p)
  {
  }

  lemma HeldIsReady(st: State, next: nat, p: int)
    requires Allotted(st, next) && Held(st, next, p)
    ensures st.tab.Copies() && st.tab.Resolve(p) == p && st.tab.IsCustom(p) && p !in st.Body(p).children && p != NONE
    ensures st.tab.types[p].p == NONE
  {
  }

  // ---- an existing type ----

  /** What it comes to. */
  function ExistingOutcome(tab: Table, c: int, name: Name): Outcome {
    if c in tab.types then Given(c, name, Stored(tab, c)) else Nothing
  }

  /** Nothing was done. */
  lemma NothingStepped(st: State, id: nat, p: int, plain: bool, touched: int)
    requires Allotted(st, id) && Held(st, id, p)
    ensures Stepped(st, id, st, id, p, plain, touched, Nothing)
  {
    GrownSelf(st, id, p);
    hide Grown;
  }

  /** The others are as they were. */
  lemma TypeAlone(st: State, p: int, c: int, name: Name, size: int)
    requires st.tab.IsCustom(p) && c in st.tab.types && c != p && size >= NONE
    ensures var st' := Added(st, p, c, name, size).1;
      && AllBut(st.tab, st'.tab, p, TouchedBy(st.tab, c, size))
      && NewIs(st.tab, st'.tab, Given(c, name, Stored(st.tab, c)))
  {
    AddedShape(st, p, c, name, size);
    hide Added;
    hide SameKin;
    hide SameButSize;
  }

  /** The container is held as before. */
  lemma TypeHolds(st: State, id: nat, p: int, c: int, name: Name, size: int)
    requires Allotted(st, id) && Held(st, id, p) && MayJoin(st, p, Existing(c, name, size)) && c in st.tab.types
    ensures var st' := Added(st, p, c, name, size).1;
      Allotted(st', id) && Held(st', id, p) && Kept(st, id, st')
  {
    ExistingStep(st, p, c, name, size);
    ExistingAllots(st, p, c, name, size, id);
    var st' := Added(st, p, c, name, size).1;
    assert c < id && SameKin(st.tab.types[p], st'.tab.types[p]);
    assert st'.tab.types[p].p == NONE;
    hide Added;
    hide Listed;
    hide Indexed;
    hide SameKin;
    hide Laid;
    hide Container;
    hide View;
    hide Kept;
    hide Allotted;
  }

  lemma TypeStepped(st: State, id: nat, p: int, c: int, name: Name, size: int)
    requires Allotted(st, id) && Held(st, id, p) && MayJoin(st, p, Existing(c, name, size)) && c in st.tab.types
    ensures Stepped(st, id, Added(st, p, c, name, size).1, id, p, !st.tab.InVtable(c), TouchedBy(st.tab, c, size),
                    Given(c, name, Stored(st.tab, c)))
  {
    assert Listed(st, p) && Indexed(st.tab, st.Body(p).children) && st.tab.types[p].p == NONE;
    hide Added;
    hide Allotted;
    hide Held;
    hide Kept;
    hide Listed;
    hide Indexed;
    hide Grown;
    hide Container;
    hide View;
    hide Laid;
    hide AllBut;
    hide NewIs;
    hide TouchedBy;
    ExistingStep(st, p, c, name, size);
    TypeHolds(st, id, p, c, name, size);
    TypeAlone(st, p, c, name, size);
    if !st.tab.InVtable(c) {
      ExistingGrows(st, p, c, name, size, id);
    }
  }

  lemma ExistingStepped(st: State, id: nat, p: int, c: int, name: Name, size: int)
    requires Allotted(st, id) && Held(st, id, p) && MayJoin(st, p, Existing(c, name, size))
    ensures Stepped(st, id, Added(st, p, c, name, size).1, id, p, !st.tab.InVtable(c), TouchedBy(st.tab, c, size),
                    ExistingOutcome(st.tab, c, name))
  {
    hide Stepped;
    if c in st.tab.types {
      TypeStepped(st, id, p, c, name, size);
    } else {
      NothingStepped(st, id, p, !st.tab.InVtable(c), TouchedBy(st.tab, c, size));
    }
  }

  /** The later declarations are as they were if what they add is. */
  lemma RemainStays(st0: State, st: State, st': State, p: int, ds: seq<Declaration>, k: nat)
    requires st.tab.IsCustom(p) && st'.tab.IsCustom(p) && Remain(st0, st, p, ds, k) && st'.tab.Copies()
    requires forall d :: d in st.tab.types ==> d in st'.tab.types && SameKin(st.tab.types[d], st'.tab.types[d])
    requires forall i {:trigger ds[i]} :: k < i < |ds| && ds[i].Existing? ==>
               var d := ds[i].child;
               && st'.tab.InVtable(d) == st.tab.InVtable(d) && Stored(st'.tab, d) == Stored(st.tab, d)
               && (st'.tab.InVtable(d) ==> d !in st'.Body(p).children)
    ensures Remain(st0, st', p, ds, k + 1)
  {
    forall i | k < i < |ds| ensures MayJoin(st', p, ds[i]) {
      assert MayJoin(st, p, ds[i]);
    }
  }

  lemma PairedElsewhere(tab: Table, tab': Table, p: int, c: int, d: int)
    requires p in tab.types && c in tab.types && Paired(tab, tab', p, c) && tab.IsCustom(p)
    requires d == c ==> !tab.InVtable(c)
    ensures tab'.InVtable(d) == tab.InVtable(d) && Stored(tab', d) == Stored(tab, d)
    ensures d in tab.types ==> SameKin(tab.types[d], tab'.types[d])
  {
  }

  lemma ExistingRemains(st0: State, st: State, p: int, ds: seq<Declaration>, k: nat)
    requires k < |ds| && ds[k].Existing? && JoinOnce(st0.tab, ds) && st.tab.Copies()
    requires Listed(st, p) && Indexed(st.tab, st.Body(p).children) && Remain(st0, st, p, ds, k)
    ensures var st' := Added(st, p, ds[k].child, ds[k].name, ds[k].size).1;
      st'.tab.IsCustom(p) && Remain(st0, st', p, ds, k + 1)
  {
    var c, name, size := ds[k].child, ds[k].name, ds[k].size;
    var st' := Added(st, p, c, name, size).1;
    assert MayJoin(st, p, ds[k]);
    if c in st.tab.types {
      ExistingStep(st, p, c, name, size);
      AddedShape(st, p, c, name, size);
    }
    hide Added;
    hide View;
    hide Declare;
    hide Paired;
    forall d | d in st.tab.types ensures d in st'.tab.types && SameKin(st.tab.types[d], st'.tab.types[d]) {
      if c in st.tab.types && d != c {
        PairedElsewhere(st.tab, st'.tab, p, c, d);
      }
    }
    forall i | k < i < |ds| && ds[i].Existing?
      ensures var d := ds[i].child;
        && st'.tab.InVtable(d) == st.tab.InVtable(d) && Stored(st'.tab, d) == Stored(st.tab, d)
        && (st'.tab.InVtable(d) ==> d !in st'.Body(p).children)
    {
      assert MayJoin(st, p, ds[i]);
      if c in st.tab.types {
        PairedElsewhere(st.tab, st'.tab, p, c, ds[i].child);
      }
    }
    RemainStays(st0, st, st', p, ds, k);
  }

  lemma NoneIsNew(st: State, p: int, d: Declaration)
    requires st.tab.IsCustom(p) && d.Existing? && MayJoin(st, p, d)
    ensures NewFrom(st.tab, Added(st, p, d.child, d.name, d.size).1.tab, d)
  {
    if d.child in st.tab.types {
      AddedShape(st, p, d.child, d.name, d.size);
    }
    hide Added;
  }

  lemma ExistingReaches(st0: State, id0: nat, st: State, id: nat, p: int, ds: seq<Declaration>, os: seq<Outcome>,
                        k: nat)
    requires k < |ds| && ds[k].Existing? && JoinOnce(st0.tab, ds) && Reached(st0, id0, st, id, p, ds, os, k)
    ensures Reached(st0, id0, Added(st, p, ds[k].child, ds[k].name, ds[k].size).1, id, p, ds,
                    os + [ExistingOutcome(st.tab, ds[k].child, ds[k].name)], k + 1)
  {
    hide Numbered;
    hide Added;
    hide View;
    hide Apply;
    hide Grown;
    hide Stepped;
    hide AllBrought;
    assert MayJoin(st, p, ds[k]);
    ExistingRemains(st0, st, p, ds, k);
    ExistingStepped(st, id, p, ds[k].child, ds[k].name, ds[k].size);
    NoneIsNew(st, p, ds[k]);
    StepReaches(st0, id0, st, id, Added(st, p, ds[k].child, ds[k].name, ds[k].size).1, id, p, ds, os, k,
                TouchedBy(st.tab, ds[k].child, ds[k].size), ExistingOutcome(st.tab, ds[k].child, ds[k].name));
  }

  // ---- a new virtual method ----

  lemma VirtualStepped(st: State, id: nat, p: int, f: int, scope: int, text: string)
    requires Allotted(st, id) && Held(st, id, p)
    ensures Stepped(st, id, NewlyVirtual(st, p, id, scope, text, f), id + 1, p, true, NONE, Fresh(id, text))
  {
    hide Numbered;
    hide Current;
    hide Grown;
    VirtualStep(st, p, id, scope, text, f);
    VirtualElsewhere(st, p, id, scope, text, f);
    VirtualGrows(st, p, id, scope, text, f);
    hide NewlyVirtual;
  }

  /** A step that brings no virtual method from elsewhere leaves the later declarations as they were. */
  lemma PlainRemains(st0: State, st: State, id: nat, st': State, id': nat, p: int, ds: seq<Declaration>, k: nat)
    requires st.tab.IsCustom(p) && st'.tab.IsCustom(p) && Remain(st0, st, p, ds, k) && Framed(st, id, st', p)
    requires Allotted(st, id) && Allotted(st', id')
    requires forall i {:trigger ds[i]} :: k < i < |ds| && ds[i].Existing? && st.tab.InVtable(ds[i].child) ==>
               ds[i].child !in st'.Body(p).children
    ensures Remain(st0, st', p, ds, k + 1)
  {
    FramedKept(st, id, st', p);
    forall i | k < i < |ds| && ds[i].Existing?
      ensures var d := ds[i].child;
        && st'.tab.InVtable(d) == st.tab.InVtable(d) && Stored(st'.tab, d) == Stored(st.tab, d)
        && (st'.tab.InVtable(d) ==> d !in st'.Body(p).children)
    {
      assert MayJoin(st, p, ds[i]);
      if ds[i].child in st.tab.types {
        assert SameEntry(st.tab, st'.tab, ds[i].child, p);
      }
    }
    RemainStays(st0, st, st', p, ds, k);
  }

  /** The children that came with the outcome. */
  lemma AppliedChildren(st: State, id: nat, st': State, id': nat, p: int, plain: bool, touched: int, o: Outcome)
    requires Held(st, id, p) && Stepped(st, id, st', id', p, plain, touched, o)
    ensures forall d :: d in st'.Body(p).children ==> d in st.Body(p).children || (!o.Nothing? && d == o.child)
  {
    var es, es' := View(st, p), View(st', p);
    forall d | d in st'.Body(p).children
      ensures d in st.Body(p).children || (!o.Nothing? && d == o.child)
    {
      var j :| 0 <= j < |st'.Body(p).children| && st'.Body(p).children[j] == d;
      assert es'[j].child == d;
      assert j < |es| ==> es[j].child == st.Body(p).children[j];
    }
  }

  lemma PlainReaches(st0: State, id0: nat, st: State, id: nat, st': State, id': nat, p: int, ds: seq<Declaration>,
                     os: seq<Outcome>, k: nat, o: Outcome)
    requires Reached(st0, id0, st, id, p, ds, os, k) && k < |ds| && !ds[k].Existing?
    requires Stepped(st, id, st', id', p, true, NONE, o) && ComesTo(st0, st', ds[k], o)
    requires NewFrom(st.tab, st'.tab, ds[k])
    requires !o.Nothing? && o.child in st.tab.types ==> !st.tab.InVtable(o.child)
    ensures Reached(st0, id0, st', id', p, ds, os + [o], k + 1)
  {
    AppliedChildren(st, id, st', id', p, true, NONE, o);
    hide View;
    hide Apply;
    hide AllBrought;
    hide AllComeTo;
    hide ComesTo;
    hide DeclareAll;
    assert forall i :: k < i < |ds| && ds[i].Existing? ==> MayJoin(st, p, ds[i]);
    PlainRemains(st0, st, id, st', id', p, ds, k);
    StepReaches(st0, id0, st, id, st', id', p, ds, os, k, NONE, o);
  }

  lemma VirtualIsFrom(st: State, id: nat, p: int, d: Declaration)
    requires Allotted(st, id) && st.tab.IsCustom(p) && d.NewVirtual?
    ensures NewFrom(st.tab, NewlyVirtual(st, p, id, d.scope, d.text, d.f).tab, d)
  {
    VirtualElsewhere(st, p, id, d.scope, d.text, d.f);
    hide NewlyVirtual;
    hide Allotted;
    hide Kept;
  }

  lemma VirtualReaches(st0: State, id0: nat, st: State, id: nat, p: int, ds: seq<Declaration>, os: seq<Outcome>, k: nat)
    requires k < |ds| && ds[k].NewVirtual? && Reached(st0, id0, st, id, p, ds, os, k)
    ensures Reached(st0, id0, NewlyVirtual(st, p, id, ds[k].scope, ds[k].text, ds[k].f), id + 1, p, ds,
                    os + [Fresh(id, ds[k].text)], k + 1)
  {
    hide SameSort;
    hide SameButSize;
    hide NewlyVirtual;
    hide Stepped;
    hide NewFrom;
    VirtualStepped(st, id, p, ds[k].f, ds[k].scope, ds[k].text);
    VirtualElsewhere(st, p, id, ds[k].scope, ds[k].text, ds[k].f);
    assert id !in st0.tab.types;
    VirtualIsFrom(st, id, p, ds[k]);
    PlainReaches(st0, id0, st, id, NewlyVirtual(st, p, id, ds[k].scope, ds[k].text, ds[k].f), id + 1, p, ds, os, k,
                 Fresh(id, ds[k].text));
  }

  // ---- a variable ----

  function VariableOutcome(k: int, name: Name): Outcome {
    if k == NONE then Nothing else Given(k, name, NONE)
  }

  /** The answer to the request for a copy: the container is as it was, and the table has grown by a copy at most. */
  lemma AnswerGrows(st: State, id: nat, p: int, c: int, ptr: int, k: int, st': State, id': nat)
    requires Allotted(st, id) && Held(st, id, p) && !st.tab.IsMethod(c) && CopyAnswered(st, id, c, ptr, k, st', id')
    ensures Allotted(st', id') && id <= id' && Grown(st, id, st', id', p) && Held(st', id', p)
    ensures View(st', p) == View(st, p)
    ensures Laid(st, st', p, false) && (Container(st, p) ==> Container(st', p))
  {
    hide Numbered;
    hide Struct;
    if c !in st.tab.types || st.tab.types[c].body.Generic? {
      GrownSelf(st, id, p);
    } else {
      CopyAllots(st, id, c, ptr, k, st', id');
      CopyGrows(st, id, c, ptr, k, st', id', p);
      if k !in st.tab.types {
        EnteredKeeps(st, p, k, CopyOf(st.tab, c, ptr));
      }
    }
  }

  lemma AnswerAlone(st: State, id: nat, c: int, ptr: int, k: int, st': State, id': nat, name: Name, size: int)
    requires Allotted(st, id) && CopyAnswered(st, id, c, ptr, k, st', id')
    requires size == NONE || ptr != 0
    ensures AllBut(st.tab, st'.tab, NONE, NONE) && NewIs(st.tab, st'.tab, VariableOutcome(k, name))
    ensures st'.tab.IsMethod(k) || TouchedBy(st'.tab, k, size) == NONE
  {
    if c in st.tab.types && !st.tab.types[c].body.Generic? {
      CopyAllots(st, id, c, ptr, k, st', id');
    }
  }

  /** And the copy can be added. */
  lemma AnswerJoins(st: State, id: nat, p: int, c: int, ptr: int, k: int, st': State, id': nat)
    requires Allotted(st, id) && Held(st, id, p) && !st.tab.IsMethod(c) && CopyAnswered(st, id, c, ptr, k, st', id')
    ensures st'.tab.Copies() && (k == NONE <==> c !in st.tab.types) && (k == NONE ==> k !in st'.tab.types)
    ensures k in st.tab.types ==> !st.tab.InVtable(k)
    ensures c in st.tab.types ==>
              && k in st'.tab.types && !st'.tab.IsMethod(k) && k != p
              && (if st.tab.types[c].body.Generic? then k == c else IsCopy(st'.tab, k, ptr, st.tab.Resolve(c)))
  {
    if c in st.tab.types && !st.tab.types[c].body.Generic? {
      CopyAllots(st, id, c, ptr, k, st', id');
      RootIsKin(st, id, c);
      RootIsKin(st', id', k);
      assert st'.tab.Resolve(k) == st.tab.Resolve(c);
    }
  }

  lemma AloneTrans(tab: Table, tab1: Table, tab2: Table, p: int, o: Outcome)
    requires AllBut(tab, tab1, NONE, NONE) && AllBut(tab1, tab2, p, NONE) && NewIs(tab, tab1, o) && NewIs(tab1, tab2, o)
    requires !o.Fresh? && tab.Copies()
    ensures AllBut(tab, tab2, p, NONE) && NewIs(tab, tab2, o)
  {
  }

  lemma SteppedAfter(st: State, id: nat, st1: State, id1: nat, st2: State, p: int, o: Outcome)
    requires Allotted(st1, id1) && Grown(st, id, st1, id1, p) && View(st1, p) == View(st, p) && !o.Fresh?
    requires Laid(st, st1, p, false) && (Container(st, p) ==> Container(st1, p))
    requires AllBut(st.tab, st1.tab, NONE, NONE) && NewIs(st.tab, st1.tab, o)
    requires Stepped(st1, id1, st2, id1, p, true, NONE, o)
    ensures Stepped(st, id, st2, id1, p, true, NONE, o)
  {
    assert Allotted(st, id) && st.tab.Copies();
    hide Laid;
    hide AllBut;
    hide NewIs;
    hide Framed;
    hide Kept;
    hide Allotted;
    hide NewCopiesAgree;
    hide Regular;
    hide Single;
    hide AllGiven;
    hide Held;
    hide Container;
    hide View;
    hide Apply;
    GrownTrans(st, id, st1, id1, st2, id1, p);
    FramedKept(st, id, st2, p);
    LaidTrans(st, st1, st2, p, false, o.Fresh?);
    AloneTrans(st.tab, st1.tab, st2.tab, p, o);
  }

  lemma VariableStepped(st: State, id: nat, p: int, c: int, ptr: int, name: Name, size: int, k: int, st1: State,
                        id1: nat)
    requires Allotted(st, id) && Held(st, id, p) && !st.tab.IsMethod(c) && CopyAnswered(st, id, c, ptr, k, st1, id1)
    requires size >= NONE && (size == NONE || ptr != 0)
    ensures Stepped(st, id, Added(st1, p, k, name, size).1, id1, p, true, NONE, VariableOutcome(k, name))
  {
    AnswerGrows(st, id, p, c, ptr, k, st1, id1);
    AnswerJoins(st, id, p, c, ptr, k, st1, id1);
    AnswerAlone(st, id, c, ptr, k, st1, id1, name, size);
    HeldIsReady(st1, id1, p);
    assert MayJoin(st1, p, Existing(k, name, size));
    hide CopyAnswered;
    hide Grown;
    hide Laid;
    hide AllBut;
    hide NewIs;
    hide Container;
    hide View;
    hide Added;
    hide Stepped;
    hide Held;
    hide Allotted;
    hide TouchedBy;
    ExistingStepped(st1, id1, p, k, name, size);
    SteppedAfter(st, id, st1, id1, Added(st1, p, k, name, size).1, p, VariableOutcome(k, name));
  }

  /** The copy is still that copy when it was added. */
  lemma AddedComesTo(st0: State, st1: State, id1: nat, p: int, b: int, ptr: int, name: Name, size: int, k: int)
    requires Allotted(st1, id1) && st1.tab.IsCustom(p) && st0.tab.Copies() && b in st0.tab.types && size >= NONE
    requires k in st1.tab.types && !st1.tab.IsMethod(k) && k != p
    requires if st0.tab.types[b].body.Generic? then k == b else IsCopy(st1.tab, k, ptr, st0.tab.Resolve(b))
    ensures var st2 := Added(st1, p, k, name, size).1;
      && st2.tab.Copies() && ComesTo(st0, st2, Variable(b, ptr, name), VariableOutcome(k, name))
  {
    var st2 := Added(st1, p, k, name, size).1;
    ExistingAllots(st1, p, k, name, size, id1);
    hide Added;
    KeptRoots(st1, id1, st2, id1);
    KinSort(st1.tab.types[k], st2.tab.types[k]);
    hide SameKin;
  }

  lemma VariableComesTo(st0: State, id0: nat, st: State, id: nat, p: int, b: int, ptr: int, name: Name, size: int,
                        k: int, st1: State, id1: nat)
    requires Allotted(st0, id0) && Allotted(st, id) && Kept(st0, id0, st) && Held(st, id, p) && size >= NONE
    requires !st.tab.IsMethod(b) && (b in st.tab.types <==> b in st0.tab.types)
    requires CopyAnswered(st, id, b, ptr, k, st1, id1)
    ensures var st2 := Added(st1, p, k, name, size).1;
      && st2.tab.Copies() && ComesTo(st0, st2, Variable(b, ptr, name), VariableOutcome(k, name))
  {
    KeptRoots(st0, id0, st, id);
    AnswerGrows(st, id, p, b, ptr, k, st1, id1);
    AnswerJoins(st, id, p, b, ptr, k, st1, id1);
    HeldIsReady(st1, id1, p);
    hide CopyAnswered;
    hide Grown;
    hide Held;
    if b in st.tab.types {
      KinSort(st0.tab.types[b], st.tab.types[b]);
      hide SameKin;
      AddedComesTo(st0, st1, id1, p, b, ptr, name, size, k);
    }
  }

  /** The new entry, if there is one, is a copy of the type of the variable. */
  lemma CopyIsFrom(st: State, id: nat, p: int, d: Declaration, size: int, k: int, st1: State, id1: nat)
    requires Allotted(st, id) && Held(st, id, p) && d.Variable? && !st.tab.IsMethod(d.base)
    requires CopyAnswered(st, id, d.base, d.ptr, k, st1, id1) && size >= NONE && (size == NONE || d.ptr != 0)
    ensures NewFrom(st.tab, Added(st1, p, k, d.name, size).1.tab, d)
  {
    var tab2 := Added(st1, p, k, d.name, size).1.tab;
    AnswerJoins(st, id, p, d.base, d.ptr, k, st1, id1);
    AnswerGrows(st, id, p, d.base, d.ptr, k, st1, id1);
    HeldIsReady(st1, id1, p);
    if k in st1.tab.types {
      AnswerAlone(st, id, d.base, d.ptr, k, st1, id1, d.name, size);
      AddedShape(st1, p, k, d.name, size);
      if !st.tab.types[d.base].body.Generic? {
        CopyMeasures(st, id, d.base, d.ptr, k, st1, id1);
        CopyAllots(st, id, d.base, d.ptr, k, st1, id1);
      }
    }
    hide Added;
    hide Grown;
    hide Held;
    hide SameLayout;
  }

  lemma VariableReaches(st0: State, id0: nat, st: State, id: nat, p: int, ds: seq<Declaration>, os: seq<Outcome>,
                        k: nat, copy: int, st1: State, id1: nat, size: int)
    requires k < |ds| && ds[k].Variable? && Reached(st0, id0, st, id, p, ds, os, k)
    requires size >= NONE && (size == NONE || ds[k].ptr != 0)
    requires CopyAnswered(st, id, ds[k].base, ds[k].ptr, copy, st1, id1)
    ensures st1.tab.Copies() && st1.tab.Resolve(p) == p && st1.tab.IsCustom(p) && p !in st1.Body(p).children
    ensures Reached(st0, id0, Added(st1, p, copy, ds[k].name, size).1, id1, p, ds,
                    os + [VariableOutcome(copy, ds[k].name)], k + 1)
  {
    var b, ptr, name := ds[k].base, ds[k].ptr, ds[k].name;
    assert MayJoin(st, p, ds[k]);
    hide CopyAnswered;
    hide Stepped;
    hide Added;
    hide Grown;
    hide ComesTo;
    hide NewFrom;
    VariableComesTo(st0, id0, st, id, p, b, ptr, name, size, copy, st1, id1);
    VariableStepped(st, id, p, b, ptr, name, size, copy, st1, id1);
    AnswerJoins(st, id, p, b, ptr, copy, st1, id1);
    AnswerGrows(st, id, p, b, ptr, copy, st1, id1);
    HeldIsReady(st1, id1, p);
    CopyIsFrom(st, id, p, ds[k], size, copy, st1, id1);
    PlainReaches(st0, id0, st, id, Added(st1, p, copy, name, size).1, id1, p, ds, os, k, VariableOutcome(copy, name));
  }

  lemma Ended(st0: State, id0: nat, p: int, ds: seq<Declaration>)
    ensures forall st, id, os {:trigger Reached(st0, id0, st, id, p, ds, os, |ds|)} ::
              Reached(st0, id0, st, id, p, ds, os, |ds|) ==>
              && Allotted(st0, id0) && Allotted(st, id) && Held(st, id, p) && id0 <= id && |os| == |ds|
              && AllComeTo(st0, st, ds, os) && AllBrought(st0, st, os)
              && Kept(st0, id0, st) && RestStays(st0, st, p, ds) && CopiesMeasured(st0, st, p, ds)
              && View(st, p) == DeclareAll(View(st0, p), os)
              && Laid(st0, st, p, AnyFresh(os))
              && (NothingInherited(st0.tab, ds) ==>
                    Grown(st0, id0, st, id, p) && (Container(st0, p) ==> Container(st, p)))
  {
  }
}
