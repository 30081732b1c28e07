/** Runs of declarations in the body of a container: what a client can rely on is a list of entries, appended to or
    overridden in place. */
module TypeRuns {
  import opened Common
  import opened TypeTable
  import opened TypeMembers
  import opened TypeContainers
  import opened TypeCopies

  /** An entry of the type table that becomes a child; a variable, for which a copy of its type becomes one; or a new
      method of function f that is made virtual. */
  datatype Declaration =
    | Existing(child: int, name: Name, size: int)
    | Variable(base: int, ptr: int, name: Name)
    | NewVirtual(f: int, scope: int, text: string)

  /** What a declaration comes to: a child of that index is given to the container, or a new method, or nothing. */
  datatype Outcome = Given(child: int, name: Name, slot: int) | Fresh(child: int, text: string) | Nothing

  // ---- the reference ----

  /** The position of the first entry of that name, or the length. */
  function Find(es: seq<Entry>, name: Name, k: nat): (r: nat)
    requires k <= |es|
    ensures k <= r <= |es|
    ensures r < |es| ==> es[r].name == name
    ensures forall i :: k <= i < r ==> es[i].name != name
    decreases |es| - k
  {
    if k == |es| || es[k].name == name then k else Find(es, name, k + 1)
  }

  /** One more than the highest slot among the first n entries. */
  function Top(es: seq<Entry>, n: nat): nat
    requires n <= |es|
  {
    if n == 0 then 0 else
    var before := Top(es, n - 1);
    if es[n - 1].slot >= before then es[n - 1].slot + 1 else before
  }

  /** One declaration: a new name goes to the end, a virtual method takes the place of a virtual one, and everything
      else leaves the entries alone. */
  function Declare(es: seq<Entry>, name: Name, child: int, slot: int): seq<Entry> {
    var k := if name == Unnamed then |es| else Find(es, name, 0);
    if k == |es| then es + [Entry(child, name, slot)]
    else if es[k].slot != NONE && slot != NONE then es[k := es[k].(child := child)]
    else es
  }

  function Apply(es: seq<Entry>, o: Outcome): seq<Entry> {
    match o
    case Given(c, name, slot) => Declare(es, name, c, slot)
    case Fresh(c, text) => Declare(es, Named(text), c, Top(es, |es|))
    case Nothing => es
  }

  /** A run of declarations. */
  function DeclareAll(es: seq<Entry>, os: seq<Outcome>): seq<Entry> {
    if os == [] then es else Apply(DeclareAll(es, os[..|os| - 1]), os[|os| - 1])
  }

  /** No virtual method is given. */
  ghost predicate NoneGiven(os: seq<Outcome>) {
    forall i :: 0 <= i < |os| && os[i].Given? ==> os[i].slot == NONE
  }

  lemma OneMore(es: seq<Entry>, os: seq<Outcome>, o: Outcome)
    ensures DeclareAll(es, os + [o]) == Apply(DeclareAll(es, os), o)
  {
    assert (os + [o])[..|os|] == os;
  }

  // ---- what the reference keeps ----

  /** Entries stay where they are, with name and slot, whoever overrides them. */
  ghost predicate Extends(es: seq<Entry>, es': seq<Entry>) {
    |es| <= |es'| && forall i :: 0 <= i < |es| ==> es'[i].name == es[i].name && es'[i].slot == es[i].slot
  }

  lemma {:induction false} RunExtends(es: seq<Entry>, os: seq<Outcome>)
    ensures Extends(es, DeclareAll(es, os))
  {
    if os != [] {
      RunExtends(es, os[..|os| - 1]);
    }
  }

  /** The virtual entries carry the slots 0, 1, 2, ... in order. */
  ghost predicate InOrder(es: seq<Entry>) {
    forall i :: 0 <= i < |es| ==> es[i].slot == NONE || es[i].slot == Top(es, i)
  }

  lemma {:induction false} TopFrame(es: seq<Entry>, es': seq<Entry>, n: nat)
    requires n <= |es| && n <= |es'| && forall i :: 0 <= i < n ==> es'[i].slot == es[i].slot
    ensures Top(es', n) == Top(es, n)
  {
    if n > 0 {
      TopFrame(es, es', n - 1);
    }
  }

  lemma OrderFrame(es: seq<Entry>, es': seq<Entry>)
    requires InOrder(es) && |es| == |es'| && forall i :: 0 <= i < |es| ==> es'[i].slot == es[i].slot
    ensures InOrder(es')
  {
    forall i | 0 <= i < |es| ensures Top(es', i) == Top(es, i) {
      TopFrame(es, es', i);
    }
  }

  lemma TopAppends(es: seq<Entry>, e: Entry)
    ensures forall i :: 0 <= i <= |es| ==> Top(es + [e], i) == Top(es, i)
    ensures Top(es + [e], |es| + 1) == if e.slot >= Top(es, |es|) then e.slot + 1 else Top(es, |es|)
  {
    forall i | 0 <= i <= |es| ensures Top(es + [e], i) == Top(es, i) {
      TopFrame(es, es + [e], i);
    }
  }

  lemma OrderAppends(es: seq<Entry>, e: Entry)
    ensures InOrder(es + [e]) <==> InOrder(es) && (e.slot == NONE || e.slot == Top(es, |es|))
  {
    TopAppends(es, e);
    hide Top;
    var more := es + [e];
    forall i | 0 <= i < |es| ensures more[i] == es[i] && Top(more, i) == Top(es, i) {}
    assert more[|es|] == e;
  }

  /** One declaration keeps the order unless it appends a virtual method that brings another slot than the next one. */
  lemma DeclareInOrder(es: seq<Entry>, name: Name, child: int, slot: int)
    requires InOrder(es)
    ensures InOrder(Declare(es, name, child, slot)) <==>
            slot == NONE || slot == Top(es, |es|) || (name != Unnamed && Find(es, name, 0) < |es|)
  {
    if name == Unnamed || Find(es, name, 0) == |es| {
      OrderAppends(es, Entry(child, name, slot));
    } else {
      var es' := Declare(es, name, child, slot);
      forall i | 0 <= i < |es| ensures Top(es', i) == Top(es, i) && es'[i].slot == es[i].slot {
        TopFrame(es, es', i);
      }
    }
  }

  /** A run that is given no virtual method keeps the order. */
  lemma {:induction false} RunInOrder(es: seq<Entry>, os: seq<Outcome>)
    requires InOrder(es) && NoneGiven(os)
    ensures InOrder(DeclareAll(es, os))
  {
    if os != [] {
      var n := |os| - 1;
      RunInOrder(es, os[..n]);
      var es' := DeclareAll(es, os[..n]);
      match os[n] {
        case Given(c, name, slot) => DeclareInOrder(es', name, c, slot);
        case Fresh(c, text) => DeclareInOrder(es', Named(text), c, Top(es', |es'|));
        case Nothing =>
      }
    }
  }

  // ---- inheritance ----

  /** The virtual entries of a base, in order. */
  function Virtuals(es: seq<Entry>): seq<Entry> {
    if es == [] then [] else Virtuals(es[..|es| - 1]) + if es[|es| - 1].slot != NONE then [es[|es| - 1]] else []
  }

  ghost predicate NamesDiffer(es: seq<Entry>) {
    && (forall i :: 0 <= i < |es| ==> es[i].name != Unnamed)
    && forall i, j :: 0 <= i < j < |es| ==> es[i].name != es[j].name
  }

  lemma {:induction false} VirtualsInOrder(es: seq<Entry>)
    requires InOrder(es)
    ensures InOrder(Virtuals(es)) && Top(Virtuals(es), |Virtuals(es)|) == Top(es, |es|)
  {
    if es != [] {
      var n := |es| - 1;
      assert es == es[..n] + [es[n]];
      OrderAppends(es[..n], es[n]);
      TopAppends(es[..n], es[n]);
      VirtualsInOrder(es[..n]);
      OrderAppends(Virtuals(es[..n]), es[n]);
      TopAppends(Virtuals(es[..n]), es[n]);
      if es[n].slot == NONE {
        assert Virtuals(es) == Virtuals(es[..n]);
      } else {
        assert Virtuals(es) == Virtuals(es[..n]) + [es[n]];
      }
    }
  }

  // ---- one declaration in the table ----

  lemma FindIsFirst(st: State, p: int, name: Name)
    requires name != Unnamed
    ensures Find(View(st, p), name, 0) == First(st.Of(p), NONE, name, 0)
  {
    var ms, es := st.Of(p), View(st, p);
    var a, b := Find(es, name, 0), First(ms, NONE, name, 0);
    assert forall i :: 0 <= i < |ms| ==>
             es[i].name == ms[i].name && (Matches(ms[i], NONE, name) <==> es[i].name == name);
  }

  lemma {:induction false} TopIsNext(st: State, p: int, n: nat)
    requires st.tab.IsCustom(p) && Parallel(st.Of(p), st.Body(p).children) && Indexed(st.tab, st.Body(p).children)
    requires n <= |st.Of(p)|
    ensures Top(View(st, p), n) == Next(st.tab, st.Body(p).children, n)
  {
    if n > 0 {
      TopIsNext(st, p, n - 1);
    }
  }

  lemma {:induction false} OrderedPrefix(tab: Table, children: seq<int>, es: seq<Entry>, n: nat)
    requires InOrder(es) && n <= |es| == |children| && Indexed(tab, children)
    requires forall i :: 0 <= i < |es| ==> es[i].slot == Stored(tab, children[i])
    ensures Numbered(tab, children[..n]) && Count(tab, children[..n]) == Top(es, n)
  {
    if n > 0 {
      var c := children[n - 1];
      OrderedPrefix(tab, children, es, n - 1);
      FallbackPrefix(tab, children[..n - 1], children[..n], n - 1);
      AppendNumbered(tab, children[..n - 1], c);
      hide Numbered;
      assert children[..n - 1] + [c] == children[..n];
      assert es[n - 1].slot == Stored(tab, c);
    }
  }

  /** Slots in order are a numbering. */
  lemma OrderIsNumbering(st: State, p: int)
    requires Listed(st, p) && Indexed(st.tab, st.Body(p).children) && InOrder(View(st, p))
    ensures Container(st, p)
  {
    var children := st.Body(p).children;
    OrderedPrefix(st.tab, children, View(st, p), |children|);
    assert children[..|children|] == children;
  }

  /** Adding an existing type does to the entries what the reference says. */
  lemma ExistingStep(st: State, p: int, c: int, name: Name, size: int)
    requires Listed(st, p) && Indexed(st.tab, st.Body(p).children) && c in st.tab.types && c != p && size >= NONE
    requires st.tab.InVtable(c) ==> c !in st.Body(p).children && Stored(st.tab, c) >= 0
    ensures var (ok, st') := Added(st, p, c, name, size);
      && ok && Listed(st', p) && Indexed(st'.tab, st'.Body(p).children)
      && View(st', p) == Declare(View(st, p), name, c, Stored(st.tab, c))
      && (Container(st, p) && !st.tab.InVtable(c) ==> Container(st', p))
      && Laid(st, st', p, false)
      && forall d :: d in st'.Body(p).children ==> d in st.Body(p).children || d == c
  {
    hide Numbered;
    hide Current;
    hide Struct;
    hide Once;
    hide Added;
    if name != Unnamed {
      FindIsFirst(st, p, name);
    }
    AddedKind(st, p, c, name, size);
    if name == Unnamed || First(st.Of(p), NONE, name, 0) == |st.Of(p)| {
      AddNew(st, p, c, name, size);
    } else {
      AddTaken(st, p, c, name, size);
    }
  }

  /** The table with a fresh method in it. */
  function WithMethod(st: State, c: int, scope: int, text: string, f: int): State {
    Entered(st, c, TypeInfo(NONE, 0, Named(text), scope, Method(f, false, NONE)))
  }

  lemma VirtualKeeps(st: State, p: int, c: int, name: Name)
    requires Listed(st, p) && Current(st.tab, p) && st.tab.IsMethod(c) && c !in st.Body(p).children
    ensures Current(Virtual(st, p, c, name).tab, p)
  {
    var st' := Virtual(st, p, c, name);
    assert SameMethods(st.tab, st'.tab, st.Body(p).children);
    LayoutFrame(st.tab, st'.tab, st.Body(p), st'.Body(p));
  }

  /** What funcdef_pars.c does for a virtual method: the container gets a vtable, and the new method c is made virtual
      and added under its name. */
  function NewlyVirtual(st: State, p: int, c: int, scope: int, text: string, f: int): State
    requires st.tab.IsCustom(p)
  {
    Added(Virtual(WithMethod(Enabled(st, p), c, scope, text, f), p, c, Named(text)), p, c, Named(text), NONE).1
  }

  /** It does to the entries what the reference says. */
  lemma VirtualStep(st: State, p: int, c: int, scope: int, text: string, f: int)
    requires Listed(st, p) && Indexed(st.tab, st.Body(p).children) && c !in st.tab.types && c !in st.Body(p).children
    ensures var st' := NewlyVirtual(st, p, c, scope, text, f);
      && Listed(st', p) && Indexed(st'.tab, st'.Body(p).children)
      && View(st', p) == Declare(View(st, p), Named(text), c, Top(View(st, p), |View(st, p)|))
      && (Container(st, p) ==> Container(st', p))
      && Current(st'.tab, p) && Laid(st, st', p, true)
      && forall d :: d in st'.Body(p).children ==> d in st.Body(p).children || d == c
  {
    hide Numbered;
    hide Current;
    hide PowerOfTwo;
    var name := Named(text);
    EnabledKeeps(st, p);
    var st1 := Enabled(st, p);
    EnteredKeeps(st1, p, c, TypeInfo(NONE, 0, name, scope, Method(f, false, NONE)));
    var st2 := WithMethod(st1, c, scope, text, f);
    assert SameMethods(st.tab, st2.tab, st.Body(p).children);
    VirtualThenAdded(st2, p, c, name);
    VirtualKeeps(st2, p, c, name);
    MadeVirtual(st2, p, c, name);
    ExistingStep(Virtual(st2, p, c, name), p, c, name, NONE);
    FindIsFirst(st2, p, name);
    TopIsNext(st2, p, |st2.Of(p)|);
  }

  // ---- what the steps leave alone ----

  lemma RelaidShape(tab: Table, p: int)
    requires tab.IsCustom(p)
    ensures var tab' := Relaid(tab, p);
      && OnlyAt(tab, tab', {p}) && SameKin(tab.types[p], tab'.types[p])
      && tab'.RawSize(tab'.types[p].body, false) >= 0
  {
    LayoutNonNegative(tab, tab.types[p].body);
    hide Table.LayoutSize;
  }

  /** What adding a child leaves of the two types involved. */
  ghost predicate Paired(tab: Table, tab': Table, p: int, c: int)
    requires p in tab.types && c in tab.types
  {
    && OnlyAt(tab, tab', {p, c})
    && SameKin(tab.types[p], tab'.types[p]) && SameKin(tab.types[c], tab'.types[c])
    && (tab.RawSize(tab.types[c].body, false) >= NONE ==> tab'.RawSize(tab'.types[c].body, false) >= NONE)
    && tab'.InVtable(c) == tab.InVtable(c) && (!tab.InVtable(c) ==> Stored(tab', c) == NONE)
    && (!tab.InVtable(c) ==> SameButSize(tab.types[c].body, tab'.types[c].body))
  }

  lemma JoinedPair(tab: Table, p: int, c: int, size: int)
    requires tab.IsCustom(p) && c in tab.types && c != p && size >= NONE
    ensures Joined(tab, p, c, size).IsCustom(p) && Paired(tab, Joined(tab, p, c, size), p, c)
  {
  }

  lemma RelaidPair(tab: Table, tab': Table, p: int, c: int)
    requires tab.IsCustom(p) && c in tab.types && c != p && Paired(tab, tab', p, c)
    ensures Paired(tab, Relaid(tab', p), p, c) && Relaid(tab', p).RawSize(Relaid(tab', p).types[p].body, false) >= 0
  {
    RelaidShape(tab', p);
    hide Relaid;
  }

  /** The type that is changed when c is added: c itself if it is virtual or takes a size. */
  function TouchedBy(tab: Table, c: int, size: int): int {
    if c in tab.types
       && (tab.InVtable(c) || (size != NONE && tab.types[c].ptr == 0 && !tab.types[c].body.Generic?)) then c
    else NONE
  }

  /** Adding a child changes the two types involved, and leaves them their shape. */
  lemma AddedShape(st: State, p: int, c: int, name: Name, size: int)
    requires st.tab.IsCustom(p) && c in st.tab.types && c != p && size >= NONE
    ensures var st' := Added(st, p, c, name, size).1;
      && Paired(st.tab, st'.tab, p, c) && st'.members.Keys <= st.members.Keys + {p}
      && (forall q :: q != p ==> st'.Of(q) == st.Of(q))
      && (st'.tab.types[p] == st.tab.types[p] || st'.tab.RawSize(st'.Body(p), false) >= 0)
      && (TouchedBy(st.tab, c, size) != c ==> st'.tab.types[c] == st.tab.types[c])
  {
    var ms, children := st.Of(p), st.Body(p).children;
    var k := if name == Unnamed then |ms| else First(ms, NONE, name, 0);
    if k == |ms| {
      JoinedPair(st.tab, p, c, size);
      RelaidPair(st.tab, Joined(st.tab, p, c, size), p, c);
    } else if st.tab.InVtable(ms[k].child) && st.tab.InVtable(c) {
      var b := st.Body(c);
      var tab := WithBody(st.tab, c, b.(index := st.Body(ms[k].child).index));
      var i := IndexOf(children, ms[k].child, 0);
      if i < |children| {
        RelaidPair(st.tab, WithBody(tab, p, tab.types[p].body.(children := children[i := c])), p, c);
      }
    }
    hide Relaid;
    hide Paired;
  }

  lemma ExistingAllots(st: State, p: int, c: int, name: Name, size: int, next: nat)
    requires Allotted(st, next) && st.tab.IsCustom(p) && c in st.tab.types && c != p && size >= NONE
    ensures var st' := Added(st, p, c, name, size).1;
      Allotted(st', next) && Kept(st, next, st')
  {
    assert InShape(st.tab, c) && InShape(st.tab, p);
    AddedShape(st, p, c, name, size);
    hide Added;
    var st' := Added(st, p, c, name, size).1;
    forall d | d in st.tab.types
      ensures SameKin(st.tab.types[d], st'.tab.types[d]) && st'.tab.RawSize(st'.tab.types[d].body, false) >= NONE
    {
      assert InShape(st.tab, d);
    }
    ShapesStay(st, next, st');
  }

  lemma EnabledAllots(st: State, p: int, next: nat)
    requires Allotted(st, next) && st.tab.IsCustom(p)
    ensures var st' := Enabled(st, p);
      && Allotted(st', next) && st'.tab.IsCustom(p) && OnlyAt(st.tab, st'.tab, {p})
      && SameKin(st.tab.types[p], st'.tab.types[p]) && st'.members == st.members && Kept(st, next, st')
  {
    var b := st.Body(p);
    RelaidShape(WithBody(st.tab, p, b.(vtable := true)), p);
    hide Relaid;
    forall d | d in st.tab.types
      ensures Enabled(st, p).tab.RawSize(Enabled(st, p).tab.types[d].body, false) >= NONE
    {
      assert InShape(st.tab, d);
    }
    ShapesStay(st, next, Enabled(st, p));
  }

  lemma VirtualAllots(st: State, p: int, c: int, name: Name, next: nat)
    requires Allotted(st, next) && p in st.tab.types && p != c
    ensures var st' := Virtual(st, p, c, name);
      && Allotted(st', next) && st'.tab.types[p] == st.tab.types[p] && OnlyAt(st.tab, st'.tab, {c})
      && st'.members == st.members && (c in st.tab.types ==> SameKin(st.tab.types[c], st'.tab.types[c]))
      && Kept(st, next, st')
  {
    var st' := Virtual(st, p, c, name);
    forall d | d in st.tab.types ensures st'.tab.RawSize(st'.tab.types[d].body, false) >= NONE {
      assert InShape(st.tab, d);
    }
    ShapesStay(st, next, st');
  }

  /** A new method of that name, scope and function. */
  predicate IsMethodOf(tab: Table, c: int, scope: int, text: string, f: int) {
    && tab.IsMethod(c) && tab.types[c].body.fId == f && tab.types[c].p == NONE && tab.types[c].ptr == 0
    && tab.types[c].name == Named(text) && tab.types[c].scope == scope
  }

  /** The other types stay as they are. */
  lemma VirtualElsewhere(st: State, p: int, c: nat, scope: int, text: string, f: int)
    requires Allotted(st, c) && st.tab.IsCustom(p)
    ensures var st' := NewlyVirtual(st, p, c, scope, text, f);
      && Allotted(st', c + 1) && Kept(st, c, st') && IsMethodOf(st'.tab, c, scope, text, f)
      && st'.tab.types.Keys == st.tab.types.Keys + {c} && st'.tab.conf == st.tab.conf
      && (forall d :: d in st.tab.types && d != p ==> st'.tab.types[d] == st.tab.types[d])
      && (forall q :: q != p ==> st'.Of(q) == st.Of(q))
  {
    hide Enabled;
    hide Virtual;
    hide Added;
    hide Kept;
    hide SameSort;
    var name := Named(text);
    EnabledAllots(st, p, c);
    var st1 := Enabled(st, p);
    var st2 := WithMethod(st1, c, scope, text, f);
    EnteredAllots(st1, c, TypeInfo(NONE, 0, name, scope, Method(f, false, NONE)));
    VirtualAllots(st2, p, c, name, c + 1);
    var st3 := Virtual(st2, p, c, name);
    ExistingAllots(st3, p, c, name, NONE, c + 1);
    AddedShape(st3, p, c, name, NONE);
    KinSort(st2.tab.types[c], st3.tab.types[c]);
    KinSort(st3.tab.types[c], Added(st3, p, c, name, NONE).1.tab.types[c]);
    KeptTrans(st, c, st1, c, st2);
    KeptTrans(st, c, st2, c + 1, st3);
    KeptTrans(st, c, st3, c + 1, Added(st3, p, c, name, NONE).1);
  }

  /** The container is found, and not among its own children, before every call. */
  lemma ReadyToAdd(st: State, p: int, c: nat, scope: int, text: string, f: int)
    requires Allotted(st, c) && Held(st, c, p)
    ensures st.tab.IsCustom(p) && p !in st.Body(p).children && p != NONE
    ensures var st' := WithMethod(Enabled(st, p), c, scope, text, f);
            st'.tab.Copies() && st'.tab.Resolve(p) == p
    ensures var st' := Virtual(WithMethod(Enabled(st, p), c, scope, text, f), p, c, Named(text));
            st'.tab.Copies() && st'.tab.Resolve(p) == p && st'.tab.IsCustom(p) && p !in st'.Body(p).children
  {
    EnabledKeeps(st, p);
    EnabledAllots(st, p, c);
    hide Listed;
    hide Struct;
    hide Container;
    hide Current;
    hide Enabled;
    EnteredAllots(Enabled(st, p), c, TypeInfo(NONE, 0, Named(text), scope, Method(f, false, NONE)));
    VirtualAllots(WithMethod(Enabled(st, p), c, scope, text, f), p, c, Named(text), c + 1);
  }

  // ---- growth ----

  lemma ExistingGrows(st: State, p: int, c: int, name: Name, size: int, next: nat)
    requires Allotted(st, next) && st.tab.IsCustom(p) && st.tab.types[p].p == NONE
    requires c in st.tab.types && c != p && !st.tab.InVtable(c) && size >= NONE
    ensures Grown(st, next, Added(st, p, c, name, size).1, next, p)
  {
    ExistingAllots(st, p, c, name, size, next);
    AddedShape(st, p, c, name, size);
    hide Added;
    PlainlyGrown(st, next, Added(st, p, c, name, size).1, next, p);
  }

  /** The index a new method gets. */
  lemma VirtualIndexed(st: State, p: int, c: int, name: Name)
    requires Listed(st, p) && Indexed(st.tab, st.Body(p).children) && st.tab.IsMethod(c) && c !in st.Body(p).children
    ensures Stored(Virtual(st, p, c, name).tab, c) >= 0
  {
  }

  lemma AddedIndexed(st: State, p: int, c: int, name: Name)
    requires Listed(st, p) && Indexed(st.tab, st.Body(p).children) && st.tab.InVtable(c) && c !in st.Body(p).children
    requires Stored(st.tab, c) >= 0 && name != Unnamed
    ensures Stored(Added(st, p, c, name, NONE).1.tab, c) >= 0
  {
    hide Numbered;
    hide Current;
    if First(st.Of(p), NONE, name, 0) == |st.Of(p)| {
      AddNew(st, p, c, name, NONE);
      hide Added;
      assert c in st.Body(p).children + [c];
    } else {
      AddTaken(st, p, c, name, NONE);
      hide Added;
      assert First(st.Of(p), NONE, name, 0) < |st.Body(p).children|;
    }
  }

  lemma NewIndexed(st: State, p: int, c: nat, scope: int, text: string, f: int)
    requires Allotted(st, c) && Held(st, c, p)
    ensures Stored(NewlyVirtual(st, p, c, scope, text, f).tab, c) >= 0
  {
    var name := Named(text);
    EnabledKeeps(st, p);
    hide Enabled;
    hide Numbered;
    hide Struct;
    EnteredKeeps(Enabled(st, p), p, c, TypeInfo(NONE, 0, name, scope, Method(f, false, NONE)));
    var st2 := WithMethod(Enabled(st, p), c, scope, text, f);
    VirtualIndexed(st2, p, c, name);
    MadeVirtual(st2, p, c, name);
    hide Virtual;
    hide Added;
    AddedIndexed(Virtual(st2, p, c, name), p, c, name);
  }

  lemma VirtualFrames(st: State, p: int, c: nat, st': State, scope: int, text: string, f: int)
    requires Allotted(st, c) && Held(st, c, p) && Kept(st, c, st') && IsMethodOf(st'.tab, c, scope, text, f)
    requires st'.tab.types.Keys == st.tab.types.Keys + {c} && st'.tab.conf == st.tab.conf
    requires forall d :: d in st.tab.types && d != p ==> st'.tab.types[d] == st.tab.types[d]
    requires forall q :: q != p ==> st'.Of(q) == st.Of(q)
    ensures Framed(st, c, st', p) && AllGiven(c, st', c + 1)
  {
  }

  lemma VirtualGrows(st: State, p: int, c: nat, scope: int, text: string, f: int)
    requires Allotted(st, c) && Held(st, c, p)
    ensures Grown(st, c, NewlyVirtual(st, p, c, scope, text, f), c + 1, p)
  {
    VirtualElsewhere(st, p, c, scope, text, f);
    NewIndexed(st, p, c, scope, text, f);
    hide NewlyVirtual;
    VirtualFrames(st, p, c, NewlyVirtual(st, p, c, scope, text, f), scope, text, f);
    hide Framed;
    hide Kept;
    PlainlyGrown(st, c, NewlyVirtual(st, p, c, scope, text, f), c + 1, p);
  }
}
