/** Definitions of containers, one after the other, each with one base or none. */
module TypeDefinitions {
  import opened Common
  import opened TypeTable
  import opened TypeMembers
  import opened TypeContainers
  import opened TypeCopies
  import opened TypeRuns
  import opened TypeBodies
  import opened TypeInherit
  import opened TypeFamilies

  // ---- names ----

  /** Entry e goes by that name in that scope. */
  predicate GoesBy(tab: Table, e: int, name: Name, scope: int) {
    && e in tab.types && !(tab.types[e].body.Method? && tab.types[e].body.fId != NONE)
    && name != Unnamed && tab.types[e].name == name && tab.types[e].scope in {scope, NONE}
  }

  /** The name refers to entry e in that scope. */
  predicate Refers(tab: Table, e: int, name: Name, scope: int, ptr: int) {
    GoesBy(tab, e, name, scope) && tab.types[e].ptr == ptr
  }

  ghost predicate Known(tab: Table, name: Name, scope: int) {
    exists e :: Refers(tab, e, name, scope, 0)
  }

  // ---- the whole definition ----

  /** The definition of a container: its name and layout, its base or NONE, and the declarations of its body, which are
      read when the container has got its id. */
  datatype Definition = Definition(name: Name, scope: int, align: int, multiple: bool, vtable: bool, base: int,
                                   body: int -> seq<Declaration>)

  /** The id a definition gets: none if its name is known. */
  ghost function Answer(st: State, next: nat, d: Definition): int {
    if Known(st.tab, d.name, d.scope) then NONE else next
  }

  /** The container as it is entered. */
  function ContainerOf(d: Definition): TypeInfo {
    TypeInfo(NONE, 0, d.name, d.scope, Custom(0, d.align, d.multiple, d.vtable, []))
  }

  lemma HeldIsCustom()
    ensures forall st, next, p {:trigger Held(st, next, p)} :: Held(st, next, p) ==> st.tab.IsCustom(p)
  {
  }

  lemma InheritedAre(st: State, base: int)
    ensures forall v :: v in Inherited(st, base) ==> st.tab.InVtable(v.child) && Stored(st.tab, v.child) == v.slot
  {
    forall v | v in Inherited(st, base) ensures st.tab.InVtable(v.child) && Stored(st.tab, v.child) == v.slot {
      VirtualsAre(View(st, base), v);
      VirtualChild(st, base, v);
    }
  }

  /** What the body of p may declare: new virtual methods, types of the table that are no virtual methods, and
      variables, also of the type p itself. */
  predicate MayDeclare(tab: Table, p: int, d: Declaration) {
    match d
    case Existing(c, _, size) => size >= NONE && !tab.InVtable(c) && (c in tab.types || c < 0)
    case Variable(b, _, _) => !tab.IsMethod(b) && (b in tab.types || b < 0 || b == p)
    case NewVirtual(_, _, _) => true
  }

  ghost predicate OwnOnly(tab: Table, p: int, ds: seq<Declaration>) {
    forall d :: d in ds ==> MayDeclare(tab, p, d)
  }

  /** All that was there is there unchanged, but for p. */
  ghost predicate SameElsewhere(st: State, st': State, p: int) {
    && st'.tab.conf == st.tab.conf
    && forall d :: d in st.tab.types && d != p ==> d in st'.tab.types && st'.tab.types[d] == st.tab.types[d]
  }

  /** A new container in the table. */
  lemma ContainerEntered(st: State, next: nat, d: Definition)
    requires Allotted(st, next)
    ensures var st' := Entered(st, next, ContainerOf(d));
      && Allotted(st', next + 1) && Grown(st, next, st', next + 1, next) && SameElsewhere(st, st', next)
  {
    EnteredAllots(st, next, ContainerOf(d));
    PlainlyGrown(st, next, Entered(st, next, ContainerOf(d)), next + 1, next);
  }

  /** After the inheritance the declarations can be made, and look as before. */
  lemma OwnReady(st0: State, st: State, p: int, ds: seq<Declaration>)
    requires OwnOnly(st0.tab, p, ds) && st.tab.IsCustom(p) && p >= 0 && p !in st0.tab.types
    requires SameElsewhere(st0, st, p) && st.tab.Copies()
    ensures JoinOnce(st.tab, ds) && NothingInherited(st.tab, ds)
    ensures forall d :: d in ds ==> MayJoin(st, p, d)
  {
    forall d | d in ds ensures Plain(st.tab, d) && MayJoin(st, p, d) {
      assert MayDeclare(st0.tab, p, d);
    }
    assert forall i :: 0 <= i < |ds| ==> ds[i] in ds;
  }

  /** What a container can rely on that inherits from the virtual entries vs and then declares with those outcomes. */
  lemma OverridesShareSlots(vs: seq<Entry>, es: seq<Entry>, os: seq<Outcome>)
    requires |es| == |vs| && forall j :: 0 <= j < |vs| ==> es[j].name == vs[j].name
    ensures Extends(vs, DeclareAll(es, os)) <==> forall j :: 0 <= j < |vs| ==> es[j].slot == vs[j].slot
    ensures Extends(vs, DeclareAll(es, os)) && InOrder(vs) && NoneGiven(os) ==> InOrder(DeclareAll(es, os))
  {
    RunExtends(es, os);
    if Extends(vs, DeclareAll(es, os)) && InOrder(vs) && NoneGiven(os) {
      OrderFrame(vs, es);
      RunInOrder(es, os);
    }
  }

  /** What is taken over in the table with p is what is taken over in the one without. */
  lemma TakenOverBefore(st0: State, next0: nat, st1: State, es: seq<Entry>, vs: seq<Entry>)
    requires Grown(st0, next0, st1, next0 + 1, next0) && st1.tab.types.Keys == st0.tab.types.Keys + {next0}
    requires st1.tab.IsCustom(next0) && st1.tab.types[next0].p == NONE
    requires AllTakenOver(st1, es, vs) && forall v :: v in vs ==> v.child in st0.tab.types
    ensures AllTakenOver(st0, es, vs)
  {
    FramedRoots(st0, next0, st1, next0 + 1, next0);
    forall j | 0 <= j < |es| ensures TakenOver(st0, es[j], vs[j]) {
      var e, v := es[j], vs[j];
      assert TakenOver(st1, e, v) && v in vs && SameEntry(st0.tab, st1.tab, v.child, next0);
      if e.child in st0.tab.types {
        assert SameEntry(st0.tab, st1.tab, e.child, next0);
      } else {
        assert e.child !in st1.tab.types;
      }
    }
  }

  // ---- the three stages of a definition ----

  /** A container p was entered into st0, giving st1; it inherited, giving st2; its body was declared, giving st3. */
  ghost predicate Defining(st0: State, st1: State, st2: State, next2: nat, st3: State, next3: nat, p: nat,
                           d: Definition, os: seq<Outcome>) {
    && Allotted(st0, p) && Regular(st0.tab) && OwnOnly(st0.tab, p, d.body(p)) && d.base != p
    && (st0.tab.IsCustom(d.base) ==> Held(st0, p, d.base) && Heritable(st0, d.base))
    && st1 == Entered(st0, p, ContainerOf(d)) && Held(st1, p + 1, p)
    && Inherits(st1, p + 1, st2, next2, p, d.base)
    && Bodied(st2, next2, st3, next3, p, d.body(p), os)
    && Laid(st2, st3, p, AnyFresh(os)) && Current(st3.tab, p)
  }

  lemma SameBase(st0: State, p: nat, d: Definition)
    requires Allotted(st0, p) && d.base != p
    requires st0.tab.IsCustom(d.base) ==> Held(st0, p, d.base) && Heritable(st0, d.base)
    ensures var st1 := Entered(st0, p, ContainerOf(d));
      && st1.tab.Copies() && Inherited(st1, d.base) == Inherited(st0, d.base)
      && (st1.tab.IsCustom(d.base) ==> Held(st1, p + 1, d.base) && Heritable(st1, d.base))
  {
    ContainerEntered(st0, p, d);
    var st1 := Entered(st0, p, ContainerOf(d));
    if st0.tab.IsCustom(d.base) {
      FramedView(st0, p, st1, p + 1, p, d.base);
      FramedHeritable(st0, p, st1, p + 1, p, d.base);
    }
  }

  /** The table grew in every stage. */
  lemma DefinedGrows(st0: State, st1: State, st2: State, next2: nat, st3: State, next3: nat, p: nat, d: Definition,
                     os: seq<Outcome>)
    requires Defining(st0, st1, st2, next2, st3, next3, p, d, os)
    ensures Grown(st0, p, st1, p + 1, p) && Grown(st1, p + 1, st2, next2, p) && Grown(st0, p, st3, next3, p)
  {
    hide Allotted;
    hide Held;
    hide Grown;
    hide OwnOnly;
    hide Heritable;
    hide Regular;
    hide Single;
    hide OnlyGrew;
    hide AllGiven;
    hide AllStandFor;
    hide View;
    hide Inherited;
    hide Laid;
    hide Current;
    hide AllComeTo;
    hide AllBrought;
    hide RestStays;
    hide CopiesMeasured;
    hide NothingInherited;
    hide DeclareAll;
    ContainerEntered(st0, p, d);
    InheritedAre(st1, d.base);
    InheritanceGrows(st1, p + 1, st2, next2, p, Inherited(st1, d.base));
    GrownTrans(st0, p, st1, p + 1, st2, next2, p);
    GrownTrans(st0, p, st2, next2, st3, next3, p);
  }

  /** What was taken over, seen from the table before. */
  lemma DefinedTakesOver(st0: State, st1: State, st2: State, next2: nat, st3: State, next3: nat, p: nat, d: Definition,
                         os: seq<Outcome>)
    requires Defining(st0, st1, st2, next2, st3, next3, p, d, os)
    ensures AllTakenOver(st0, View(st2, p), Inherited(st0, d.base))
  {
    SameBase(st0, p, d);
    ContainerEntered(st0, p, d);
    InheritedAre(st0, d.base);
    StandingIsTakenOver(st1, p + 1, st2, p, View(st2, p), Inherited(st1, d.base));
    TakenOverBefore(st0, p, st1, View(st2, p), Inherited(st0, d.base));
  }

  /** The copies that are there agree with what is inherited. */
  ghost predicate Agreeing(st: State, base: int)
    requires st.tab.Copies()
  {
    st.tab.IsCustom(base) ==> Faithful(st, base)
  }

  /** Every virtual method of the base has its slot if the copies that were there agree with it, and where nothing was
      copied twice only if they do; indices in order stay in order. */
  lemma DefinedSlots(st0: State, st1: State, st2: State, next2: nat, st3: State, next3: nat, p: nat, d: Definition,
                     os: seq<Outcome>)
    requires Defining(st0, st1, st2, next2, st3, next3, p, d, os)
    ensures Agreeing(st0, d.base) ==> Extends(Inherited(st0, d.base), View(st3, p))
    ensures Single(st0.tab) && Extends(Inherited(st0, d.base), View(st3, p)) ==> Agreeing(st0, d.base)
    ensures Extends(Inherited(st0, d.base), View(st3, p)) && InOrder(Inherited(st0, d.base)) ==>
              InOrder(View(st3, p)) && Container(st3, p)
  {
    var es, vs := View(st2, p), Inherited(st0, d.base);
    DefinedTakesOver(st0, st1, st2, next2, st3, next3, p, d, os);
    if st0.tab.IsCustom(d.base) {
      FaithfulSlots(st0, es, d.base);
    }
    OverridesShareSlots(vs, es, os);
    PlainOutcomes(st2, st3, d.body(p), os);
    if Extends(vs, View(st3, p)) && InOrder(vs) {
      OrderIsNumbering(st3, p);
    }
  }

  lemma NewIsFit(st0: State, st1: State, st2: State, next2: nat, st3: State, next3: nat, p: nat, d: Definition,
                 os: seq<Outcome>, s: set<int>)
    requires Defining(st0, st1, st2, next2, st3, next3, p, d, os) && Single(st3.tab)
    requires Family(st0, p, s) && (st0.tab.IsCustom(d.base) ==> d.base in s)
    ensures Fit(st3, next3, p)
  {
    SameBase(st0, p, d);
    DefinedSlots(st0, st1, st2, next2, st3, next3, p, d, os);
    if st0.tab.IsCustom(d.base) {
      assert Fit(st0, p, d.base);
      VirtualsInOrder(View(st0, d.base));
      StandingAreDifferent(st1, st2, d.base, View(st2, p));
    }
    NewHeritable(st2, next2, st3, next3, p, d.body(p), os);
    NewFaithful(st2, next2, st3, next3, p, d.body(p), os);
  }

  /** A container with a base of the family, or none, joins the family. */
  lemma DefinedFamily(st0: State, st1: State, st2: State, next2: nat, st3: State, next3: nat, p: nat, d: Definition,
                      os: seq<Outcome>, s: set<int>)
    requires Defining(st0, st1, st2, next2, st3, next3, p, d, os)
    requires Family(st0, p, s) && (st0.tab.IsCustom(d.base) ==> d.base in s)
    ensures Family(st3, next3, s + {p}) && SameViews(st0, st3, s)
  {
    assert p !in s by {
      assert p in s ==> Fit(st0, p, p);
    }
    DefinedGrows(st0, st1, st2, next2, st3, next3, p, d, os);
    FamilyStays(st0, p, st3, next3, p, s);
    NewIsFit(st0, st1, st2, next2, st3, next3, p, d, os, s);
  }

  /** What the declarations come to, seen from the table with nothing but the container entered. */
  lemma DefinedOutcomes(st0: State, st1: State, st2: State, next2: nat, st3: State, next3: nat, p: nat, d: Definition,
                        os: seq<Outcome>)
    requires Defining(st0, st1, st2, next2, st3, next3, p, d, os)
    ensures st1.tab.Copies() && AllComeTo(st1, st3, d.body(p), os)
  {
    ContainerEntered(st0, p, d);
    DefinedGrows(st0, st1, st2, next2, st3, next3, p, d, os);
    FramedKept(st1, p + 1, st2, p);
    KeptRoots(st1, p + 1, st2, next2);
    var ds := d.body(p);
    forall i | 0 <= i < |os| ensures ComesTo(st1, st3, ds[i], os[i]) {
      assert ComesTo(st2, st3, ds[i], os[i]) && ds[i] in ds && MayDeclare(st0.tab, p, ds[i]);
    }
  }

  /** Nothing is new but the container, what it inherited, and what its body brought. */
  ghost predicate NothingElse(st: State, st': State, p: int, inherited: seq<Entry>, os: seq<Outcome>) {
    forall k {:trigger k in st'.tab.types} :: k in st'.tab.types && k !in st.tab.types && k != p ==>
      (exists j :: 0 <= j < |inherited| && inherited[j].child == k) || Brought(os, k)
  }

  lemma DefinedNew(st0: State, st1: State, st2: State, next2: nat, st3: State, next3: nat, p: nat, d: Definition,
                   os: seq<Outcome>)
    requires Defining(st0, st1, st2, next2, st3, next3, p, d, os)
    ensures NothingElse(st0, st3, p, View(st2, p), os)
  {
    var es := View(st2, p);
    forall k | k in st3.tab.types && k !in st0.tab.types && k != p
      ensures (exists j :: 0 <= j < |es| && es[j].child == k) || Brought(os, k)
    {
      if k in st2.tab.types {
        var j :| 0 <= j < |st2.Body(p).children| && st2.Body(p).children[j] == k;
        assert es[j].child == k;
      }
    }
  }

  lemma DefinedKin(st0: State, st1: State, st2: State, next2: nat, st3: State, next3: nat, p: nat, d: Definition,
                   os: seq<Outcome>)
    requires Defining(st0, st1, st2, next2, st3, next3, p, d, os)
    ensures p !in st0.tab.types && p in st3.tab.types && SameKin(ContainerOf(d), st3.tab.types[p])
    ensures Held(st3, next3, p) && Laid(st1, st3, p, HasVtable(st0, d.base) || AnyFresh(os))
    ensures Current(st3.tab, p) && (d.multiple && PowerOfTwo(d.align) ==> Struct(st3, p))
  {
    assert SameEntry(st2.tab, st3.tab, p, p);
    LaidTrans(st1, st2, st3, p, HasVtable(st1, d.base), AnyFresh(os));
    hide Numbered;
    hide PowerOfTwo;
    if d.multiple && PowerOfTwo(d.align) {
      CurrentIsStruct(st3, next3, p);
    }
  }

  /** What the body does not touch is as it was. */
  lemma DefinedRest(st0: State, st1: State, st2: State, next2: nat, st3: State, next3: nat, p: nat, d: Definition,
                    os: seq<Outcome>)
    requires Defining(st0, st1, st2, next2, st3, next3, p, d, os)
    ensures RestStays(st0, st3, p, d.body(p))
  {
    var ds := d.body(p);
    forall e | e in st0.tab.types && e != p && (forall i :: 0 <= i < |ds| ==> !Touches(st0.tab, ds[i], e))
      ensures e in st3.tab.types && st3.tab.types[e] == st0.tab.types[e]
    {
      assert e in st2.tab.types && st2.tab.types[e] == st0.tab.types[e];
      forall i | 0 <= i < |ds| ensures !Touches(st2.tab, ds[i], e) {
        assert !Touches(st0.tab, ds[i], e);
      }
    }
  }

  /** What was new after the inheritance are methods. */
  lemma InheritedIsMethod(st1: State, next1: nat, st2: State, next2: nat, st3: State, next3: nat, p: int, base: int,
                          k: int)
    requires Inherits(st1, next1, st2, next2, p, base) && Grown(st2, next2, st3, next3, p)
    requires k !in st1.tab.types
    ensures k in st2.tab.types ==> st3.tab.IsMethod(k)
  {
    if k in st2.tab.types {
      InheritedAre(st1, base);
      var i :| 0 <= i < |st2.Body(p).children| && st2.Body(p).children[i] == k;
      var es, vs := View(st2, p), Inherited(st1, base);
      hide View;
      hide Inherited;
      assert es[i].child == k && StandsFor(st1, st2, es[i], vs[i]) && vs[i] in vs;
      assert SameEntry(st2.tab, st3.tab, k, p);
    }
  }

  /** What a variable asks for was there before the inheritance, and is what it was. */
  lemma BaseWasThere(st0: State, st1: State, st2: State, p: nat, d: Definition, b: int, ptr: int)
    requires OwnOnly(st0.tab, p, d.body(p)) && AskedFor(d.body(p), b, ptr) && b in st2.tab.types
    requires p !in st0.tab.types && st1 == Entered(st0, p, ContainerOf(d)) && st2.tab.IsCustom(p)
    requires OnlyGrew(st1, p + 1, st2, p) && st2.tab.Copies()
    ensures b in st1.tab.types
    ensures Untouched(st1.tab, p, d.body(p), b) ==>
              Untouched(st2.tab, p, d.body(p), b) && st2.tab.types[b] == st1.tab.types[b]
  {
    var ds := d.body(p);
    var j :| 0 <= j < |ds| && ds[j].Variable? && ds[j].base == b && ds[j].ptr == ptr;
    assert MayDeclare(st0.tab, p, ds[j]);
    if Untouched(st1.tab, p, ds, b) {
      forall i | 0 <= i < |ds| ensures !Touches(st2.tab, ds[i], b) {
        assert MayDeclare(st0.tab, p, ds[i]) && !Touches(st1.tab, ds[i], b);
      }
    }
  }

  /** Copies that came with the fields have the layout of what they were made of. */
  lemma DefinedMeasured(st0: State, st1: State, st2: State, next2: nat, st3: State, next3: nat, p: nat, d: Definition,
                        os: seq<Outcome>)
    requires Defining(st0, st1, st2, next2, st3, next3, p, d, os)
    ensures CopiesMeasured(st1, st3, p, d.body(p))
  {
    hide SameLayout;
    var ds := d.body(p);
    forall k | k in st3.tab.types && k !in st1.tab.types && st3.tab.types[k].p != NONE && !st3.tab.IsMethod(k)
      ensures st3.tab.types[k].p in st1.tab.types && AskedFor(ds, st3.tab.types[k].p, st3.tab.types[k].ptr)
      ensures Untouched(st1.tab, p, ds, st3.tab.types[k].p) ==>
                SameLayout(st1.tab.types[st3.tab.types[k].p].body, st3.tab.types[k].body)
    {
      InheritedIsMethod(st1, p + 1, st2, next2, st3, next3, p, d.base, k);
      var b := st3.tab.types[k].p;
      assert b in st2.tab.types && AskedFor(ds, b, st3.tab.types[k].ptr);
      BaseWasThere(st0, st1, st2, p, d, b, st3.tab.types[k].ptr);
    }
  }

  /** The entries are copies of the methods of the base. */
  ghost predicate AllCopies(st: State, st': State, es: seq<Entry>, vs: seq<Entry>)
    requires st.tab.Copies() && st'.tab.Copies()
  {
    && |es| == |vs|
    && forall j {:trigger es[j]} :: 0 <= j < |es| ==>
         && vs[j].child in st.tab.types
         && IsCopy(st'.tab, es[j].child, st.tab.types[vs[j].child].ptr, st.tab.Resolve(vs[j].child))
  }

  lemma DefinedCopies(st0: State, st1: State, st2: State, next2: nat, st3: State, next3: nat, p: nat, d: Definition,
                      os: seq<Outcome>)
    requires Defining(st0, st1, st2, next2, st3, next3, p, d, os)
    ensures AllCopies(st0, st3, View(st2, p), Inherited(st0, d.base))
  {
    hide SameSort;
    hide SameButSize;
    hide View;
    hide Inherited;
    hide Single;
    hide Regular;
    hide Laid;
    hide OwnOnly;
    SameBase(st0, p, d);
    ContainerEntered(st0, p, d);
    InheritedAre(st0, d.base);
    FramedRoots(st0, p, st1, p + 1, p);
    FramedRoots(st2, next2, st3, next3, p);
    var es, vs := View(st2, p), Inherited(st0, d.base);
    forall j | 0 <= j < |es|
      ensures vs[j].child in st0.tab.types
      ensures IsCopy(st3.tab, es[j].child, st0.tab.types[vs[j].child].ptr, st0.tab.Resolve(vs[j].child))
    {
      assert StandsFor(st1, st2, es[j], vs[j]) && vs[j] in vs;
    }
  }

  /** What a definition that is accepted comes to. Nothing that was there changes, but for sizes that the body gives,
      and nothing is new but what the definition asks for. The virtual methods of the base come first, in their order
      and under their names, and keep their place whatever overrides them. They keep the indices of the base too if, and
      where nothing was copied twice only if, the copies that were there agree with the base; indices in order stay in
      order. A family of containers grows by the new one. */
  ghost predicate Defines(st: State, st': State, next': nat, d: Definition, p: nat, inherited: seq<Entry>,
                          os: seq<Outcome>, family: set<int>)
    requires Allotted(st, p)
  {
    && Grown(st, p, st', next', p) && p !in st.tab.types && Held(st', next', p)
    && SameKin(ContainerOf(d), st'.tab.types[p])
    && CopiesMeasured(Entered(st, p, ContainerOf(d)), st', p, d.body(p))
    && RestStays(st, st', p, d.body(p)) && NothingElse(st, st', p, inherited, os)
    && Current(st'.tab, p) && Laid(Entered(st, p, ContainerOf(d)), st', p, HasVtable(st, d.base) || AnyFresh(os))
    && Entered(st, p, ContainerOf(d)).tab.Copies() && |os| == |d.body(p)|
    && AllComeTo(Entered(st, p, ContainerOf(d)), st', d.body(p), os)
    && AllCopies(st, st', inherited, Inherited(st, d.base))
    && AllTakenOver(st, inherited, Inherited(st, d.base)) && View(st', p) == DeclareAll(inherited, os)
    && (Agreeing(st, d.base) ==> Extends(Inherited(st, d.base), View(st', p)))
    && (Single(st.tab) && Extends(Inherited(st, d.base), View(st', p)) ==> Agreeing(st, d.base))
    && (Extends(Inherited(st, d.base), View(st', p)) && InOrder(Inherited(st, d.base)) ==>
          InOrder(View(st', p)) && Container(st', p))
    && (d.multiple && PowerOfTwo(d.align) ==> Struct(st', p))
    && (Family(st, p, family) && (st.tab.IsCustom(d.base) ==> d.base in family) ==>
          Family(st', next', family + {p}) && SameViews(st, st', family))
  }

  lemma Defined(st0: State, st1: State, st2: State, next2: nat, st3: State, next3: nat, p: nat, d: Definition,
                os: seq<Outcome>, family: set<int>)
    requires Defining(st0, st1, st2, next2, st3, next3, p, d, os)
    ensures Defines(st0, st3, next3, d, p, View(st2, p), os, family)
  {
    DefinedKin(st0, st1, st2, next2, st3, next3, p, d, os);
    hide Allotted;
    hide Held;
    hide Heritable;
    hide Regular;
    hide OwnOnly;
    hide OnlyGrew;
    hide AllStandFor;
    hide View;
    hide DeclareAll;
    hide Single;
    hide Family;
    hide SameViews;
    hide Extends;
    hide InOrder;
    hide Container;
    hide Struct;
    hide Current;
    hide Laid;
    hide AnyFresh;
    hide AllTakenOver;
    hide AllCopies;
    hide Inherited;
    hide Agreeing;
    hide AllComeTo;
    hide NothingElse;
    hide RestStays;
    hide CopiesMeasured;
    hide Grown;
    hide SameKin;
    DefinedMeasured(st0, st1, st2, next2, st3, next3, p, d, os);
    DefinedGrows(st0, st1, st2, next2, st3, next3, p, d, os);
    DefinedTakesOver(st0, st1, st2, next2, st3, next3, p, d, os);
    DefinedOutcomes(st0, st1, st2, next2, st3, next3, p, d, os);
    DefinedCopies(st0, st1, st2, next2, st3, next3, p, d, os);
    DefinedNew(st0, st1, st2, next2, st3, next3, p, d, os);
    DefinedRest(st0, st1, st2, next2, st3, next3, p, d, os);
    DefinedSlots(st0, st1, st2, next2, st3, next3, p, d, os);
    if Family(st0, p, family) && (st0.tab.IsCustom(d.base) ==> d.base in family) {
      DefinedFamily(st0, st1, st2, next2, st3, next3, p, d, os, family);
    }
  }

  // ---- a definition that is refused ----

  /** A copy that is asked for. */
  datatype Wanted = Wanted(of: int, ptr: int)

  function Depth(tab: Table, c: int): int {
    if c in tab.types then tab.types[c].ptr else 0
  }

  /** The copies of methods. */
  function MethodsWanted(tab: Table, vs: seq<Entry>): seq<Wanted> {
    seq(|vs|, i requires 0 <= i < |vs| => Wanted(vs[i].child, Depth(tab, vs[i].child)))
  }

  /** The copy a declaration asks for. */
  function TypeWanted(tab: Table, d: Declaration): seq<Wanted> {
    if d.Variable? && d.base in tab.types && !tab.types[d.base].body.Generic? then [Wanted(d.base, d.ptr)] else []
  }

  function TypesWanted(tab: Table, ds: seq<Declaration>): seq<Wanted> {
    if ds == [] then [] else TypesWanted(tab, ds[..|ds| - 1]) + TypeWanted(tab, ds[|ds| - 1])
  }

  /** There is such a copy. */
  ghost predicate HasCopy(tab0: Table, tab: Table, w: Wanted)
    requires tab0.Copies() && tab.Copies()
  {
    exists k :: IsCopy(tab, k, w.ptr, tab0.Resolve(w.of))
  }

  /** Entry k is such a copy. */
  ghost predicate IsWanted(tab0: Table, tab: Table, ws: seq<Wanted>, k: int)
    requires tab0.Copies() && tab.Copies()
  {
    exists i :: 0 <= i < |ws| && IsCopy(tab, k, ws[i].ptr, tab0.Resolve(ws[i].of))
  }

  /** The wanted copies were made, where there were none, and nothing else was done. */
  ghost predicate OnlyCopied(st: State, next: nat, st': State, next': nat, ws: seq<Wanted>) {
    && Grown(st, next, st', next', NONE) && st'.members == st.members
    && (forall d :: d in st.tab.types ==> d in st'.tab.types && st'.tab.types[d] == st.tab.types[d])
    && (forall i {:trigger ws[i]} :: 0 <= i < |ws| ==> HasCopy(st.tab, st'.tab, ws[i]))
    && (forall k :: k in st'.tab.types && k !in st.tab.types ==> IsWanted(st.tab, st'.tab, ws, k))
  }

  lemma NothingCopied(st: State, next: nat)
    requires Allotted(st, next)
    ensures OnlyCopied(st, next, st, next, [])
  {
    GrownSelf(st, next, NONE);
  }

  /** One more copy. */
  lemma OneMoreCopied(st0: State, next0: nat, st: State, next: nat, ws: seq<Wanted>, w: Wanted, k: int, st': State,
                      next': nat)
    requires OnlyCopied(st0, next0, st, next, ws) && w.of in st0.tab.types
    requires w.ptr == st0.tab.types[w.of].ptr || !st0.tab.IsMethod(w.of)
    requires st.tab.Copies() && CopyMade(st, next, w.of, w.ptr, k, st', next')
    ensures OnlyCopied(st0, next0, st', next', ws + [w]) && st'.tab.Copies()
  {
    CopyAllots(st, next, w.of, w.ptr, k, st', next');
    CopyGrows(st, next, w.of, w.ptr, k, st', next', NONE);
    GrownTrans(st0, next0, st, next, st', next', NONE);
    FramedRoots(st0, next0, st, next, NONE);
    FramedRoots(st, next, st', next', NONE);
    hide Grown;
    var ws' := ws + [w];
    forall i | 0 <= i < |ws'| ensures HasCopy(st0.tab, st'.tab, ws'[i]) {
      if i < |ws| {
        assert HasCopy(st0.tab, st.tab, ws[i]);
        var c :| IsCopy(st.tab, c, ws[i].ptr, st0.tab.Resolve(ws[i].of));
        assert IsCopy(st'.tab, c, ws[i].ptr, st0.tab.Resolve(ws[i].of));
      } else {
        assert IsCopy(st'.tab, k, w.ptr, st0.tab.Resolve(w.of));
      }
    }
    forall c | c in st'.tab.types && c !in st0.tab.types ensures IsWanted(st0.tab, st'.tab, ws', c) {
      if c in st.tab.types {
        assert IsWanted(st0.tab, st.tab, ws, c);
        var i :| 0 <= i < |ws| && IsCopy(st.tab, c, ws[i].ptr, st0.tab.Resolve(ws[i].of));
        assert ws'[i] == ws[i] && IsCopy(st'.tab, c, ws'[i].ptr, st0.tab.Resolve(ws'[i].of));
      } else {
        assert ws'[|ws|] == w;
      }
    }
  }

  /** The same when the copy is of a virtual method. */
  lemma WantedCopied(st0: State, next0: nat, st: State, next: nat, ws: seq<Wanted>, w: Wanted, k: int, st': State,
                     next': nat)
    requires OnlyCopied(st0, next0, st, next, ws) && st0.tab.IsMethod(w.of) && w.ptr == st0.tab.types[w.of].ptr
    requires st.tab.Copies() && CopyAnswered(st, next, w.of, w.ptr, k, st', next')
    ensures OnlyCopied(st0, next0, st', next', ws + [w]) && st'.tab.Copies()
  {
    hide Grown;
    OneMoreCopied(st0, next0, st, next, ws, w, k, st', next');
  }

  /** Or of the type of a variable. */
  lemma TypeCopied(st0: State, next0: nat, st: State, next: nat, ws: seq<Wanted>, d: Declaration, k: int, st': State,
                   next': nat)
    requires OnlyCopied(st0, next0, st, next, ws) && d.Variable? && MayDeclare(st0.tab, NONE, d)
    requires st.tab.Copies() && CopyAnswered(st, next, d.base, d.ptr, k, st', next')
    ensures OnlyCopied(st0, next0, st', next', ws + TypeWanted(st0.tab, d)) && st'.tab.Copies()
  {
    var b := d.base;
    assert b in st.tab.types <==> b in st0.tab.types;
    hide Grown;
    if b in st0.tab.types && !st0.tab.types[b].body.Generic? {
      OneMoreCopied(st0, next0, st, next, ws, Wanted(b, d.ptr), k, st', next');
    } else {
      assert ws + [] == ws;
    }
  }

  /** The next child of the base: if it is a virtual method, one more copy is wanted. */
  lemma MethodWanted(st0: State, next0: nat, st: State, next: nat, base: int, i: nat, ws: seq<Wanted>)
    requires OnlyCopied(st0, next0, st, next, ws) && Held(st0, next0, base) && i < |View(st0, base)|
    requires ws == MethodsWanted(st0.tab, Virtuals(View(st0, base)[..i]))
    ensures st.tab.Copies() && st.tab.IsCustom(base) && st.Body(base) == st0.Body(base) && st.Of(base) == st0.Of(base)
    ensures |st0.Body(base).children| == |View(st0, base)|
    ensures var c, ws' := st0.Body(base).children[i], MethodsWanted(st0.tab, Virtuals(View(st0, base)[..i + 1]));
      && (st.tab.InVtable(c) ==>
            && c in st0.tab.types && First(st0.Of(base), c, Unnamed, 0) < |st0.Of(base)|
            && ws' == ws + [Wanted(c, st.tab.types[c].ptr)])
      && (!st.tab.InVtable(c) ==> ws' == ws)
  {
    var c := st0.Body(base).children[i];
    VirtualsNext(View(st0, base), i);
    assert Matches(st0.Of(base)[i], c, Unnamed) && c in st0.Body(base).children;
    assert c !in st0.tab.types ==> c !in st.tab.types;
  }

  lemma TypeWantedNext(tab: Table, ds: seq<Declaration>, k: nat)
    requires k < |ds|
    ensures TypesWanted(tab, ds[..k + 1]) == TypesWanted(tab, ds[..k]) + TypeWanted(tab, ds[k])
  {
    assert ds[..k + 1][..k] == ds[..k];
  }

  /** What a definition that is refused comes to: nothing but the copies that the base and the variables ask for. */
  ghost predicate Refuses(st: State, next: nat, d: Definition, st': State, next': nat, family: set<int>) {
    && OnlyCopied(st, next, st', next',
                  MethodsWanted(st.tab, Inherited(st, d.base)) + TypesWanted(st.tab, d.body(NONE)))
    && (Family(st, next, family) ==> Family(st', next', family) && SameViews(st, st', family))
  }

  lemma Refused(st: State, next: nat, d: Definition, st': State, next': nat, family: set<int>)
    requires OnlyCopied(st, next, st', next',
                        MethodsWanted(st.tab, Inherited(st, d.base)) + TypesWanted(st.tab, d.body(NONE)))
    ensures Refuses(st, next, d, st', next', family)
  {
    if Family(st, next, family) {
      assert NONE in family ==> Fit(st, next, NONE);
      FamilyStays(st, next, st', next', NONE, family);
    }
  }

  // ---- runs of definitions ----

  /** The table between two definitions. */
  datatype Moment = Moment(st: State, next: nat)

  /** Decides the next definition from what the ones before were answered. */
  type Designer = seq<int> -> Definition

  /** One definition: refused if and only if its name is known, or made on top of what there was. */
  ghost predicate Made(m: Moment, d: Definition, p: int, m': Moment, family: set<int>) {
    && Allotted(m.st, m.next) && p == Answer(m.st, m.next, d)
    && if p == NONE then Refuses(m.st, m.next, d, m'.st, m'.next, family)
       else exists inherited: seq<Entry>, os: seq<Outcome> ::
              Defines(m.st, m'.st, m'.next, d, p, inherited, os, family)
  }

  /** The containers that were made. */
  function Containers(ids: seq<int>): set<int> {
    set p | p in ids && p != NONE
  }

  ghost predicate MadeAll(designer: Designer, ids: seq<int>, trace: seq<Moment>) {
    && |trace| == |ids| + 1
    && forall i {:trigger trace[i], ids[i]} :: 0 <= i < |ids| ==>
         Made(trace[i], designer(ids[..i]), ids[i], trace[i + 1], Containers(ids[..i]))
  }

  lemma MadeMore(designer: Designer, ids: seq<int>, trace: seq<Moment>, p: int, m: Moment)
    requires MadeAll(designer, ids, trace) && Made(trace[|ids|], designer(ids), p, m, Containers(ids))
    ensures MadeAll(designer, ids + [p], trace + [m])
  {
    var ids' := ids + [p];
    assert ids'[..|ids|] == ids;
    assert forall i :: 0 <= i < |ids| ==> ids'[..i] == ids[..i];
  }

  /** A definition may have a base that was made before, or none. */
  ghost predicate MayDefine(m: Moment, ids: seq<int>, d: Definition) {
    var p := Answer(m.st, m.next, d);
    OwnOnly(m.st.tab, p, d.body(p)) && (d.base == NONE || d.base in ids)
  }

  /** The i-th container has every virtual method of its base under the same name in the same slot. */
  ghost predicate SharesSlots(st: State, designer: Designer, ids: seq<int>, i: nat)
    requires i < |ids|
  {
    ids[i] != NONE ==> Extends(Inherited(st, designer(ids[..i]).base), View(st, ids[i]))
  }

  /** All do, and every base was made before. */
  ghost predicate AllShareSlots(st: State, designer: Designer, ids: seq<int>) {
    && (forall i: nat {:trigger SharesSlots(st, designer, ids, i)} :: i < |ids| ==> SharesSlots(st, designer, ids, i))
    && (forall i :: 0 <= i < |ids| ==> designer(ids[..i]).base == NONE || designer(ids[..i]).base in ids[..i])
  }

  lemma InheritedStays(st: State, next: nat, st': State, next': nat, s: set<int>, base: int)
    requires Family(st, next, s) && Family(st', next', s) && SameViews(st, st', s) && (base == NONE || base in s)
    ensures Inherited(st', base) == Inherited(st, base)
  {
    if base != NONE {
      assert Fit(st, next, base) && Fit(st', next', base);
    } else {
      assert NONE !in st.tab.types && NONE !in st'.tab.types;
    }
  }

  lemma FamilyLess(st: State, next: nat, s: set<int>, p: int)
    requires Family(st, next, s + {p})
    ensures Family(st, next, s)
  {
    forall q | q in s ensures Fit(st, next, q) {
      assert q in s + {p};
    }
  }

  /** What all share stays while the containers do. */
  lemma SharesStay(st: State, next: nat, st': State, next': nat, designer: Designer, ids: seq<int>, i: nat)
    requires Family(st, next, Containers(ids)) && AllShareSlots(st, designer, ids) && i < |ids|
    requires Family(st', next', Containers(ids)) && SameViews(st, st', Containers(ids))
    ensures SharesSlots(st', designer, ids, i)
  {
    assert SharesSlots(st, designer, ids, i);
    InheritedStays(st, next, st', next', Containers(ids), designer(ids[..i]).base);
    assert ids[i] != NONE ==> ids[i] in Containers(ids);
  }

  /** One more definition keeps what all share. */
  lemma ShareOneMore(m: Moment, m': Moment, designer: Designer, ids: seq<int>, p: int)
    requires Family(m.st, m.next, Containers(ids)) && AllShareSlots(m.st, designer, ids)
    requires Made(m, designer(ids), p, m', Containers(ids))
    requires designer(ids).base == NONE || designer(ids).base in ids
    ensures Family(m'.st, m'.next, Containers(ids + [p])) && AllShareSlots(m'.st, designer, ids + [p])
  {
    hide SameSort;
    hide SameButSize;
    var s, ids', base := Containers(ids), ids + [p], designer(ids).base;
    assert Containers(ids') == if p == NONE then s else s + {p};
    assert base in s ==> Fit(m.st, m.next, base);
    assert m.st.tab.IsCustom(base) ==> base in s;
    if p != NONE {
      FamilyLess(m'.st, m'.next, s, p);
    }
    forall i: nat | i < |ids'| ensures SharesSlots(m'.st, designer, ids', i) {
      if i < |ids| {
        assert ids'[..i] == ids[..i];
        SharesStay(m.st, m.next, m'.st, m'.next, designer, ids, i);
      } else if p != NONE {
        assert ids'[..i] == ids;
        InheritedStays(m.st, m.next, m'.st, m'.next, s, base);
      }
    }
    assert forall i :: 0 <= i < |ids| ==> ids'[..i] == ids[..i];
    assert ids'[..|ids|] == ids;
  }
}
