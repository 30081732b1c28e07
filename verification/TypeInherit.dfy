/** What a container takes over from a base: a copy of every virtual method, and copies are shared where one exists. */
module TypeInherit {
  import opened Common
  import opened TypeTable
  import opened TypeMembers
  import opened TypeContainers
  import opened TypeCopies
  import opened TypeRuns
  import opened TypeBodies

  // ---- one base ----

  /** The virtual methods of a container are named, and are copies of different methods. */
  ghost predicate Heritable(st: State, base: int)
    requires st.tab.Copies()
  {
    var vs := Virtuals(View(st, base));
    && NamesDiffer(vs)
    && forall i, j :: 0 <= i < j < |vs| ==> st.tab.Resolve(vs[i].child) != st.tab.Resolve(vs[j].child)
  }

  /** e stands for v: the same name, a copy of its method, and the index this copy had, or that of v if there was
      none. */
  ghost predicate StandsFor(st0: State, st: State, e: Entry, v: Entry) {
    && st0.tab.Copies() && st.tab.Copies() && v.child in st0.tab.types
    && e.name == v.name
    && IsCopy(st.tab, e.child, st0.tab.types[v.child].ptr, st0.tab.Resolve(v.child))
    && e.slot == (if e.child in st0.tab.types then Stored(st0.tab, e.child) else v.slot)
    && (e.child !in st0.tab.types ==>
          Uncopied(st0.tab, st0.tab.types[v.child].ptr, st0.tab.Resolve(v.child)))
  }

  ghost predicate AllStandFor(st0: State, st: State, es: seq<Entry>, vs: seq<Entry>) {
    |es| == |vs| && forall j {:trigger es[j]} :: 0 <= j < |es| ==> StandsFor(st0, st, es[j], vs[j])
  }

  /** Since st0 only p changed, and all new entries, numbered from next0 on, are children of p. */
  ghost predicate OnlyGrew(st0: State, next0: nat, st: State, p: int)
    requires st.tab.IsCustom(p)
  {
    && st.tab.conf == st0.tab.conf
    && (forall d :: d in st0.tab.types ==>
          && d in st.tab.types && SameKin(st0.tab.types[d], st.tab.types[d])
          && (d != p ==> st.tab.types[d] == st0.tab.types[d]))
    && (forall d :: d in st.tab.types && d !in st0.tab.types ==> d >= next0 && d in st.Body(p).children)
    && (forall q :: q != p ==> st.Of(q) == st0.Of(q))
  }

  /** Whether the base has a vtable. */
  predicate HasVtable(st: State, base: int) {
    st.tab.IsCustom(base) && st.Body(base).vtable
  }

  /** The first i children of the base were looked at. */
  ghost predicate Inheriting(st0: State, next0: nat, st: State, next: nat, p: int, base: int, i: nat) {
    && st0.tab.Copies()
    && next0 <= next && Allotted(st, next) && Held(st, next, p) && OnlyGrew(st0, next0, st, p)
    && AllGiven(next0, st, next)
    && Laid(st0, st, p, HasVtable(st0, base))
    && Regular(st.tab) && (Single(st0.tab) ==> Single(st.tab))
    && i <= |View(st0, base)| && AllStandFor(st0, st, View(st, p), Virtuals(View(st0, base)[..i]))
  }

  lemma VirtualChild(st: State, p: int, v: Entry)
    requires v in View(st, p) && v.slot != NONE
    ensures st.tab.InVtable(v.child)
  {
  }

  lemma {:induction false} VirtualsAre(es: seq<Entry>, v: Entry)
    ensures v in Virtuals(es) <==> v in es && v.slot != NONE
  {
    if es != [] {
      VirtualsAre(es[..|es| - 1], v);
      assert es == es[..|es| - 1] + [es[|es| - 1]];
    }
  }

  lemma {:induction false} VirtualsPrefix(es: seq<Entry>, i: nat)
    requires i <= |es|
    ensures Virtuals(es[..i]) <= Virtuals(es)
    decreases |es| - i
  {
    if i == |es| {
      assert es[..i] == es;
    } else {
      VirtualsPrefix(es, i + 1);
      assert es[..i + 1][..i] == es[..i];
    }
  }

  lemma VirtualsNext(es: seq<Entry>, i: nat)
    requires i < |es|
    ensures Virtuals(es[..i + 1]) == Virtuals(es[..i]) + if es[i].slot != NONE then [es[i]] else []
    ensures es[i].slot != NONE ==> |Virtuals(es[..i])| < |Virtuals(es)| && Virtuals(es)[|Virtuals(es[..i])|] == es[i]
    ensures Virtuals(es[..i]) <= Virtuals(es)
  {
    assert es[..i + 1][..i] == es[..i];
    VirtualsPrefix(es, i);
    VirtualsPrefix(es, i + 1);
  }

  /** Appending under a new name changes the container alone. */
  lemma AppendedElsewhere(st: State, p: int, c: int, name: Name)
    requires st.tab.IsCustom(p) && c in st.tab.types && c != p
    requires name == Unnamed || First(st.Of(p), NONE, name, 0) == |st.Of(p)|
    ensures var st' := Added(st, p, c, name, NONE).1;
      && st'.tab.types.Keys == st.tab.types.Keys && st'.tab.conf == st.tab.conf
      && st'.tab.IsCustom(p) && SameKin(st.tab.types[p], st'.tab.types[p])
      && (forall d :: d in st.tab.types && d != p ==> st'.tab.types[d] == st.tab.types[d])
      && (forall q :: q != p ==> st'.Of(q) == st.Of(q))
  {
    hide Table.LayoutSize;
  }

  /** The table has a copy more at most. */
  ghost predicate CopyEntered(st: State, next: nat, st1: State, next1: nat, k: int) {
    && st1.members == st.members && st1.tab.conf == st.tab.conf && next <= next1 && AllGiven(next, st1, next1)
    && (forall d :: d in st.tab.types ==> d in st1.tab.types && st1.tab.types[d] == st.tab.types[d])
    && (forall d :: d in st1.tab.types && d !in st.tab.types ==> d == k == next)
  }

  lemma CopyIsEntered(st: State, next: nat, c: int, ptr: int, k: int, st1: State, next1: nat)
    requires Allotted(st, next) && c in st.tab.types && CopyMade(st, next, c, ptr, k, st1, next1)
    ensures CopyEntered(st, next, st1, next1, k)
  {
  }

  /** k has become the last child of p. */
  ghost predicate Appended(st: State, st': State, p: int, k: int) {
    && st.tab.IsCustom(p) && st'.tab.IsCustom(p) && st'.Body(p).children == st.Body(p).children + [k]
    && st'.tab.types.Keys == st.tab.types.Keys && st'.tab.conf == st.tab.conf
    && SameKin(st.tab.types[p], st'.tab.types[p])
    && (forall d :: d in st.tab.types && d != p ==> st'.tab.types[d] == st.tab.types[d])
    && (forall q :: q != p ==> st'.Of(q) == st.Of(q))
  }

  lemma GrewMore(st0: State, next0: nat, st: State, next: nat, st1: State, next1: nat, st2: State, p: int, k: int)
    requires st.tab.IsCustom(p) && OnlyGrew(st0, next0, st, p) && AllGiven(next0, st, next) && next0 <= next
    requires CopyEntered(st, next, st1, next1, k) && Appended(st1, st2, p, k)
    ensures st2.tab.IsCustom(p) && OnlyGrew(st0, next0, st2, p) && AllGiven(next0, st2, next1) && next0 <= next1
  {
    hide SameSort;
    assert SameKin(st.tab.types[p], st2.tab.types[p]);
    forall d | d in st0.tab.types ensures SameKin(st0.tab.types[d], st2.tab.types[d]) {
      if d == p {
        KinTrans(st0.tab.types[p], st.tab.types[p], st2.tab.types[p]);
      }
    }
    forall d | next0 <= d < next1 ensures d in st2.tab.types {
      assert d < next ==> d in st.tab.types;
      assert d >= next ==> d in st1.tab.types;
    }
  }

  /** A container that is no copy changes. */
  lemma ContainerChanged(tab: Table, tab': Table, p: int)
    requires tab.Copies() && OnlyAt(tab, tab', {p}) && tab.IsCustom(p) && tab'.IsCustom(p)
    requires tab.types[p].p == tab'.types[p].p == NONE
    ensures tab'.Copies() && (Regular(tab) ==> Regular(tab')) && (Single(tab) ==> Single(tab'))
  {
    if Regular(tab) {
      forall d | tab'.InVtable(d) ensures Stored(tab', d) >= 0 {
        assert Stored(tab, d) >= 0;
      }
    }
    if Single(tab) {
      forall c, d | c in tab'.types && tab'.types[c].p != NONE && IsCopy(tab', d, tab'.types[c].ptr, tab'.Resolve(c))
        ensures c == d
      {
        ResolveFrame(tab, tab', c);
        ResolveFrame(tab, tab', d);
        assert IsCopy(tab, d, tab.types[c].ptr, tab.Resolve(c));
      }
    }
  }

  lemma AppendedTidy(st: State, st': State, p: int, k: int)
    requires st.tab.Copies() && Appended(st, st', p, k) && st.tab.types[p].p == NONE
    ensures st'.tab.Copies() && (Regular(st.tab) ==> Regular(st'.tab)) && (Single(st.tab) ==> Single(st'.tab))
  {
    hide SameSort;
    ContainerChanged(st.tab, st'.tab, p);
  }

  /** The copy of the next virtual method is no child of p yet. */
  lemma CopyIsNew(st0: State, next0: nat, st: State, next: nat, p: int, base: int, i: nat, k: int)
    requires Inheriting(st0, next0, st, next, p, base, i) && Allotted(st0, next0) && Heritable(st0, base)
    requires i < |View(st0, base)| && View(st0, base)[i].slot != NONE
    requires k in st.tab.types && st.tab.Resolve(k) == st0.tab.Resolve(View(st0, base)[i].child)
    ensures k !in st.Body(p).children && (k in st0.tab.types || k !in st.tab.types)
  {
    var es := View(st0, base);
    VirtualsNext(es, i);
    var vs, m := Virtuals(es), |Virtuals(es[..i])|;
    forall j | 0 <= j < |st.Of(p)| ensures st.Of(p)[j].child != k {
      assert StandsFor(st0, st, View(st, p)[j], vs[j]);
    }
  }

  /** The name of the next virtual method is not taken. */
  lemma NameIsNew(st0: State, next0: nat, st: State, next: nat, p: int, base: int, i: nat)
    requires Inheriting(st0, next0, st, next, p, base, i) && Allotted(st0, next0) && Heritable(st0, base)
    requires i < |View(st0, base)| && View(st0, base)[i].slot != NONE
    ensures View(st0, base)[i].name != Unnamed
    ensures First(st.Of(p), NONE, View(st0, base)[i].name, 0) == |st.Of(p)|
  {
    var es := View(st0, base);
    VirtualsNext(es, i);
    var vs, m := Virtuals(es), |Virtuals(es[..i])|;
    forall j | 0 <= j < |st.Of(p)| ensures st.Of(p)[j].name != es[i].name {
      assert StandsFor(st0, st, View(st, p)[j], vs[j]);
      assert vs[j].name != vs[m].name;
    }
  }

  /** What stood for an entry before the copy was made and added still does. */
  lemma StillStandsFor(st0: State, st: State, st': State, e: Entry, v: Entry)
    requires StandsFor(st0, st, e, v) && st'.tab.Copies()
    requires forall d :: d in st.tab.types ==> d in st'.tab.types && st'.tab.types[d].p == st.tab.types[d].p
    requires forall d :: d in st'.tab.types && d !in st.tab.types ==> d > e.child
    requires st'.tab.types[e.child].ptr == st.tab.types[e.child].ptr
    ensures StandsFor(st0, st', e, v)
  {
    ResolveFrame(st.tab, st'.tab, e.child);
  }

  lemma StillAllStandFor(st0: State, st: State, st': State, es: seq<Entry>, vs: seq<Entry>)
    requires AllStandFor(st0, st, es, vs) && st'.tab.Copies()
    requires forall d :: d in st.tab.types ==> d in st'.tab.types && st'.tab.types[d].p == st.tab.types[d].p
    requires forall c, d :: c in st.tab.types && d in st'.tab.types && d !in st.tab.types ==> d > c
    requires forall e :: e in es && e.child in st.tab.types ==>
               e.child in st'.tab.types && st'.tab.types[e.child].ptr == st.tab.types[e.child].ptr
    ensures AllStandFor(st0, st', es, vs)
  {
    forall j | 0 <= j < |es| ensures StandsFor(st0, st', es[j], vs[j]) {
      assert StandsFor(st0, st, es[j], vs[j]) && es[j] in es;
      StillStandsFor(st0, st, st', es[j], vs[j]);
    }
  }

  lemma StillUncopied(st0: State, next0: nat, st: State, p: int, ptr: int, root: int)
    requires Allotted(st0, next0) && st.tab.Copies() && p in st0.tab.types && st0.tab.types[p].p == NONE
    requires st.tab.IsCustom(p) && OnlyGrew(st0, next0, st, p) && Uncopied(st.tab, ptr, root)
    ensures Uncopied(st0.tab, ptr, root)
  {
    forall k ensures !IsCopy(st0.tab, k, ptr, root) {
      assert !IsCopy(st.tab, k, ptr, root);
      if k in st0.tab.types {
        ResolveFrame(st0.tab, st.tab, k);
      }
    }
  }

  lemma CopyKeepsRegular(st: State, next: nat, c: int, ptr: int, k: int, st': State, next': nat)
    requires Allotted(st, next) && c in st.tab.types && CopyMade(st, next, c, ptr, k, st', next') && Regular(st.tab)
    ensures Regular(st'.tab)
  {
    CopyAllots(st, next, c, ptr, k, st', next');
    forall d | st'.tab.InVtable(d) ensures Stored(st'.tab, d) >= 0 {
      assert d in st.tab.types ==> Stored(st.tab, d) >= 0;
      assert st.tab.InVtable(c) ==> Stored(st.tab, c) >= 0;
    }
  }

  lemma CopyContents(tab: Table, tab': Table, v: Entry, k: int)
    requires Regular(tab) && tab.InVtable(v.child) && Stored(tab, v.child) == v.slot
    requires k in tab'.types
    requires if k in tab.types then tab'.types[k] == tab.types[k] else tab'.types[k].body == tab.types[v.child].body
    ensures tab'.InVtable(k) ==> Stored(tab', k) >= 0
    ensures Stored(tab', k) == if k in tab.types then Stored(tab, k) else v.slot
  {
    assert tab.InVtable(k) ==> Stored(tab, k) >= 0;
    assert Stored(tab, v.child) >= 0;
  }

  /** Making a copy that is no child of p yet: p stays as it is. */
  lemma CopyHolds(st: State, next: nat, p: int, c: int, ptr: int, k: int, st1: State, next1: nat)
    requires Allotted(st, next) && Held(st, next, p) && c in st.tab.types && CopyMade(st, next, c, ptr, k, st1, next1)
    requires k !in st.Body(p).children
    ensures Allotted(st1, next1) && Held(st1, next1, p) && View(st1, p) == View(st, p)
    ensures Laid(st, st1, p, false)
    ensures k in st1.tab.types && k != p && k !in st1.Body(p).children
  {
    hide Numbered;
    hide Current;
    CopyAllots(st, next, c, ptr, k, st1, next1);
    if k !in st.tab.types {
      EnteredKeeps(st, p, k, CopyOf(st.tab, c, ptr));
    }
  }

  /** And the copy can be added. */
  lemma CopyReady(st0: State, next0: nat, st: State, next: nat, p: int, base: int, i: nat, k: int, st1: State,
                  next1: nat)
    requires Allotted(st0, next0) && Heritable(st0, base)
    requires Inheriting(st0, next0, st, next, p, base, i) && p in st0.tab.types && p != base
    requires i < |View(st0, base)| && View(st0, base)[i].slot != NONE
    requires var c := View(st0, base)[i].child; c != p && CopyMade(st, next, c, st.tab.types[c].ptr, k, st1, next1)
    ensures Allotted(st1, next1) && Held(st1, next1, p) && View(st1, p) == View(st, p)
    ensures Laid(st, st1, p, false)
    ensures k in st1.tab.types && k != p && k !in st1.Body(p).children
    ensures k in st.tab.types ==> k in st0.tab.types
    ensures CopyEntered(st, next, st1, next1, k) && st1.members == st.members
  {
    hide Numbered;
    hide AllStandFor;
    hide Current;
    hide SameSort;
    hide Laid;
    hide CopyEntered;
    hide Single;
    hide Regular;
    var c := View(st0, base)[i].child;
    var ptr := st.tab.types[c].ptr;
    CopyAllots(st, next, c, ptr, k, st1, next1);
    CopyIsEntered(st, next, c, ptr, k, st1, next1);
    if k in st.tab.types {
      ResolveFrame(st0.tab, st.tab, c);
      CopyIsNew(st0, next0, st, next, p, base, i, k);
    }
    CopyHolds(st, next, p, c, ptr, k, st1, next1);
  }

  /** It stands for the virtual method. */
  lemma CopyStands(st0: State, next0: nat, st: State, next: nat, p: int, base: int, i: nat, k: int, st1: State,
                   next1: nat)
    requires Allotted(st0, next0) && Held(st0, next0, p) && Regular(st0.tab)
    requires Inheriting(st0, next0, st, next, p, base, i) && p != base
    requires i < |View(st0, base)| && View(st0, base)[i].slot != NONE
    requires var c := View(st0, base)[i].child; c != p && CopyMade(st, next, c, st.tab.types[c].ptr, k, st1, next1)
    requires View(st1, p) == View(st, p) && (k in st.tab.types ==> k in st0.tab.types)
    ensures st1.tab.InVtable(k) ==> Stored(st1.tab, k) >= 0
    ensures StandsFor(st0, st1, Entry(k, View(st0, base)[i].name, Stored(st1.tab, k)), View(st0, base)[i])
    ensures AllStandFor(st0, st1, View(st1, p), Virtuals(View(st0, base)[..i]))
  {
    var v, ptr := View(st0, base)[i], st.tab.types[View(st0, base)[i].child].ptr;
    var c := v.child;
    hide Numbered;
    hide AllStandFor;
    CopyAllots(st, next, c, ptr, k, st1, next1);
    ResolveFrame(st0.tab, st.tab, c);
    CopyContents(st0.tab, st1.tab, v, k);
    if k !in st0.tab.types {
      StillUncopied(st0, next0, st, p, ptr, st0.tab.Resolve(c));
    }
    hide Regular;
    StillAllStandFor(st0, st, st1, View(st, p), Virtuals(View(st0, base)[..i]));
  }

  /** The copy leaves the table regular, and no type copied twice. */
  lemma CopyTidy(st0: State, next0: nat, st: State, next: nat, p: int, base: int, i: nat, k: int, st1: State,
                 next1: nat)
    requires Allotted(st0, next0) && Regular(st0.tab)
    requires Inheriting(st0, next0, st, next, p, base, i) && p in st0.tab.types && p != base
    requires i < |View(st0, base)| && View(st0, base)[i].slot != NONE
    requires var c := View(st0, base)[i].child; c != p && CopyMade(st, next, c, st.tab.types[c].ptr, k, st1, next1)
    ensures st1.tab.Copies() && Regular(st1.tab) && (Single(st0.tab) ==> Single(st1.tab))
  {
    var c := View(st0, base)[i].child;
    VirtualChild(st0, base, View(st0, base)[i]);
    CopyKeepsRegular(st, next, c, st.tab.types[c].ptr, k, st1, next1);
    CopyAllots(st, next, c, st.tab.types[c].ptr, k, st1, next1);
    if Single(st.tab) {
      CopyKeepsSingle(st, next, c, st.tab.types[c].ptr, k, st1, next1);
    }
  }

  lemma CopyJoins(st: State, next: nat, p: int, k: int, name: Name)
    requires Allotted(st, next) && Held(st, next, p) && k in st.tab.types && k != p && k !in st.Body(p).children
    requires st.tab.InVtable(k) ==> Stored(st.tab, k) >= 0
    requires name != Unnamed && First(st.Of(p), NONE, name, 0) == |st.Of(p)|
    ensures var st' := Added(st, p, k, name, NONE).1;
      && Allotted(st', next) && Held(st', next, p) && Laid(st, st', p, false) && Appended(st, st', p, k)
      && View(st', p) == View(st, p) + [Entry(k, name, Stored(st.tab, k))]
  {
    var st' := Added(st, p, k, name, NONE).1;
    assert InShape(st.tab, k);
    ExistingStep(st, p, k, name, NONE);
    ExistingAllots(st, p, k, name, NONE, next);
    AppendedElsewhere(st, p, k, name);
    AddNew(st, p, k, name, NONE);
    FindIsFirst(st, p, name);
    hide Added;
    hide Numbered;
    hide Current;
    hide Once;
    hide Parallel;
    hide DistinctNames;
    hide Laid;
    hide SameSort;
  }

  lemma CopyAdded(st0: State, next0: nat, st: State, next: nat, p: int, k: int, v: Entry, vs: seq<Entry>)
    requires Allotted(st, next) && Held(st, next, p) && k in st.tab.types && k != p && k !in st.Body(p).children
    requires st.tab.InVtable(k) ==> Stored(st.tab, k) >= 0
    requires v.name != Unnamed && First(st.Of(p), NONE, v.name, 0) == |st.Of(p)|
    requires AllStandFor(st0, st, View(st, p), vs) && StandsFor(st0, st, Entry(k, v.name, Stored(st.tab, k)), v)
    ensures var st' := Added(st, p, k, v.name, NONE).1;
      && Allotted(st', next) && Held(st', next, p) && AllStandFor(st0, st', View(st', p), vs + [v])
      && Laid(st, st', p, false) && Appended(st, st', p, k)
  {
    var st' := Added(st, p, k, v.name, NONE).1;
    CopyJoins(st, next, p, k, v.name);
    hide Added;
    hide View;
    hide Listed;
    hide Laid;
    hide SameSort;
    StillAllStandFor(st0, st, st', View(st, p), vs);
    StillStandsFor(st0, st, st', Entry(k, v.name, Stored(st.tab, k)), v);
  }

  /** Adding the copy under its name. */
  lemma InheritReaches(st0: State, next0: nat, st: State, next: nat, p: int, base: int, i: nat, k: int, st1: State,
                       next1: nat)
    requires Allotted(st0, next0) && Held(st0, next0, p) && Heritable(st0, base) && Regular(st0.tab)
    requires Inheriting(st0, next0, st, next, p, base, i) && p in st0.tab.types && p != base
    requires i < |View(st0, base)| && View(st0, base)[i].slot != NONE
    requires var c := View(st0, base)[i].child; c != p && CopyMade(st, next, c, st.tab.types[c].ptr, k, st1, next1)
    ensures st1.tab.Copies() && st1.tab.Resolve(p) == p && st1.tab.IsCustom(p) && p !in st1.Body(p).children
    ensures Inheriting(st0, next0, Added(st1, p, k, View(st0, base)[i].name, NONE).1, next1, p, base, i + 1)
  {
    hide Heritable;
    hide Regular;
    hide CopyMade;
    hide Listed;
    hide Held;
    hide Allotted;
    hide Indexed;
    hide AllStandFor;
    hide StandsFor;
    hide View;
    hide Virtuals;
    hide Added;
    hide IsCopy;
    hide Table.Copies;
    hide Table.Resolve;
    hide OnlyGrew;
    hide AllGiven;
    hide Laid;
    hide Single;
    hide CopyEntered;
    hide Appended;
    hide OnlyAt;
    var v, vs := View(st0, base)[i], Virtuals(View(st0, base)[..i]);
    var st2 := Added(st1, p, k, v.name, NONE).1;
    CopyReady(st0, next0, st, next, p, base, i, k, st1, next1);
    CopyStands(st0, next0, st, next, p, base, i, k, st1, next1);
    HeldIsReady(st, next, p);
    HeldIsReady(st1, next1, p);
    CopyTidy(st0, next0, st, next, p, base, i, k, st1, next1);
    NameIsNew(st0, next0, st, next, p, base, i);
    VirtualsNext(View(st0, base), i);
    CopyAdded(st0, next0, st1, next1, p, k, v, vs);
    GrewMore(st0, next0, st, next, st1, next1, st2, p, k);
    AppendedTidy(st1, st2, p, k);
    LaidTrans(st0, st, st1, p, HasVtable(st0, base), false);
    LaidTrans(st0, st1, st2, p, HasVtable(st0, base), false);
  }

  /** A child that is no virtual method is passed over. */
  lemma PassedOver(st0: State, next0: nat, st: State, next: nat, p: int, base: int, i: nat)
    requires Inheriting(st0, next0, st, next, p, base, i) && i < |View(st0, base)| && View(st0, base)[i].slot == NONE
    ensures Inheriting(st0, next0, st, next, p, base, i + 1)
  {
    VirtualsNext(View(st0, base), i);
    assert Virtuals(View(st0, base)[..i + 1]) == Virtuals(View(st0, base)[..i]);
  }

  /** Nothing was looked at yet; the container may have got a vtable. */
  lemma InheritBegins(st: State, next: nat, p: int, base: int)
    requires Allotted(st, next) && Held(st, next, p) && View(st, p) == [] && Regular(st.tab)
    ensures Inheriting(st, next, if HasVtable(st, base) then Enabled(st, p) else st, next, p, base, 0)
  {
    EnabledAllots(st, p, next);
    EnabledKeeps(st, p);
    ContainerChanged(st.tab, Enabled(st, p).tab, p);
    hide Enabled;
    hide Numbered;
    assert Virtuals(View(st, base)[..0]) == [];
  }

  /** What a container inherits from: the virtual methods of a base that is a container. */
  function Inherited(st: State, base: int): seq<Entry> {
    if st.tab.IsCustom(base) then Virtuals(View(st, base)) else []
  }

  /** What the empty container p has from one base: its virtual methods, and a vtable if it has one. */
  ghost predicate Inherits(st0: State, next0: nat, st: State, next: nat, p: int, base: int) {
    && next0 <= next && Allotted(st, next) && Held(st, next, p)
    && OnlyGrew(st0, next0, st, p) && AllGiven(next0, st, next)
    && Laid(st0, st, p, HasVtable(st0, base)) && Regular(st.tab) && (Single(st0.tab) ==> Single(st.tab))
    && AllStandFor(st0, st, View(st, p), Inherited(st0, base))
  }

  lemma InheritsNothing(st: State, next: nat, p: int, base: int)
    requires Allotted(st, next) && Held(st, next, p) && View(st, p) == [] && Regular(st.tab) && !st.tab.IsCustom(base)
    ensures Inherits(st, next, st, next, p, base)
  {
  }

  lemma InheritEnds(st0: State, next0: nat, p: int, base: int)
    requires st0.tab.Copies() && st0.tab.IsCustom(base)
    ensures forall st, next {:trigger Inheriting(st0, next0, st, next, p, base, |View(st0, base)|)} ::
              Inheriting(st0, next0, st, next, p, base, |View(st0, base)|) ==> Inherits(st0, next0, st, next, p, base)
  {
    assert View(st0, base)[..|View(st0, base)|] == View(st0, base);
    hide View;
    hide Allotted;
    hide Held;
    hide Laid;
    hide AllStandFor;
  }

  /** The children of the base are its members. */
  lemma ReadyToInherit(st: State, next: nat, p: int, base: int)
    requires Allotted(st, next) && Held(st, next, p) && Held(st, next, base)
    ensures st.tab.IsCustom(p) && st.tab.IsCustom(base) && st.tab.Copies() && p != NONE
    ensures p !in st.Body(p).children && |st.Body(base).children| == |View(st, base)|
  {
  }

  /** The base is as it was, and a virtual child of it is found where it is. */
  lemma NextChild(st0: State, next0: nat, st: State, next: nat, p: int, base: int, i: nat)
    requires Allotted(st0, next0) && Held(st0, next0, base) && st0.tab.IsCustom(p) && p != base
    requires Inheriting(st0, next0, st, next, p, base, i) && i < |View(st0, base)|
    ensures st.tab.Copies() && p != NONE
    ensures st.tab.IsCustom(base) && st.Body(base) == st0.Body(base) && st.Of(base) == st0.Of(base)
    ensures var c := st0.Body(base).children[i];
      && View(st0, base)[i].child == c && View(st0, base)[i].name == st0.Of(base)[i].name
      && (View(st0, base)[i].slot != NONE <==> st.tab.InVtable(c))
      && (st.tab.InVtable(c) ==> c != p && First(st.Of(base), c, Unnamed, 0) == i)
  {
    var c := st0.Body(base).children[i];
    assert Matches(st0.Of(base)[i], c, Unnamed);
    assert c in st0.Body(base).children;
    assert c !in st0.tab.types ==> c !in st.tab.types;
  }

  /** Every copy there is of the method of v has the index of v. */
  ghost predicate WellCopied(st: State, v: Entry)
    requires st.tab.Copies()
  {
    v.child in st.tab.types ==>
      forall k :: IsCopy(st.tab, k, st.tab.types[v.child].ptr, st.tab.Resolve(v.child)) ==> Stored(st.tab, k) == v.slot
  }

  ghost predicate Faithful(st: State, base: int)
    requires st.tab.Copies()
  {
    forall v {:trigger WellCopied(st, v)} :: v in Virtuals(View(st, base)) ==> WellCopied(st, v)
  }

  /** e was taken over for v: under the same name, with the index that its copy had, or that of v if it is new. */
  ghost predicate TakenOver(st: State, e: Entry, v: Entry)
    requires st.tab.Copies()
  {
    && e.name == v.name && v.child in st.tab.types
    && if e.child in st.tab.types
       then
         && IsCopy(st.tab, e.child, st.tab.types[v.child].ptr, st.tab.Resolve(v.child))
         && e.slot == Stored(st.tab, e.child)
       else e.slot == v.slot && Uncopied(st.tab, st.tab.types[v.child].ptr, st.tab.Resolve(v.child))
  }

  ghost predicate AllTakenOver(st: State, es: seq<Entry>, vs: seq<Entry>)
    requires st.tab.Copies()
  {
    |es| == |vs| && forall j {:trigger es[j]} :: 0 <= j < |es| ==> TakenOver(st, es[j], vs[j])
  }

  lemma StandingIsTakenOver(st0: State, next0: nat, st: State, p: int, es: seq<Entry>, vs: seq<Entry>)
    requires Allotted(st0, next0) && st.tab.IsCustom(p) && p in st0.tab.types && st0.tab.types[p].p == NONE
    requires OnlyGrew(st0, next0, st, p) && AllStandFor(st0, st, es, vs)
    ensures AllTakenOver(st0, es, vs)
  {
    forall j | 0 <= j < |es| ensures TakenOver(st0, es[j], vs[j]) {
      assert StandsFor(st0, st, es[j], vs[j]);
      if es[j].child in st0.tab.types {
        ResolveFrame(st0.tab, st.tab, es[j].child);
      }
    }
  }

  lemma CopyDecides(st: State, e: Entry, v: Entry)
    requires st.tab.Copies() && TakenOver(st, e, v)
    ensures WellCopied(st, v) ==> e.slot == v.slot
    ensures Single(st.tab) && e.slot == v.slot ==> WellCopied(st, v)
  {
    if Single(st.tab) && e.slot == v.slot {
      forall k | IsCopy(st.tab, k, st.tab.types[v.child].ptr, st.tab.Resolve(v.child))
        ensures Stored(st.tab, k) == v.slot
      {
        assert e.child in st.tab.types && st.tab.types[e.child].p != NONE && st.tab.types[k].p != NONE;
        assert e.child == k;
      }
    }
  }

  /** Then what was inherited has the slots of the base; and only then, since there is one copy at most to take. */
  lemma FaithfulSlots(st: State, es: seq<Entry>, base: int)
    requires st.tab.Copies() && AllTakenOver(st, es, Virtuals(View(st, base)))
    ensures var vs := Virtuals(View(st, base));
      && |es| == |vs| && (forall j :: 0 <= j < |vs| ==> es[j].name == vs[j].name)
      && (Faithful(st, base) ==> forall j :: 0 <= j < |vs| ==> es[j].slot == vs[j].slot)
      && (Single(st.tab) && (forall j :: 0 <= j < |vs| ==> es[j].slot == vs[j].slot) ==> Faithful(st, base))
  {
    var vs := Virtuals(View(st, base));
    forall j | 0 <= j < |vs|
      ensures es[j].name == vs[j].name && (WellCopied(st, vs[j]) ==> es[j].slot == vs[j].slot)
      ensures Single(st.tab) && es[j].slot == vs[j].slot ==> WellCopied(st, vs[j])
    {
      assert TakenOver(st, es[j], vs[j]);
      CopyDecides(st, es[j], vs[j]);
    }
    if Faithful(st, base) {
      forall j | 0 <= j < |vs| ensures es[j].slot == vs[j].slot {
        assert vs[j] in vs && WellCopied(st, vs[j]);
      }
    }
    if Single(st.tab) && forall j :: 0 <= j < |vs| ==> es[j].slot == vs[j].slot {
      forall v | v in vs ensures WellCopied(st, v) {
        var j :| 0 <= j < |vs| && vs[j] == v;
        assert es[j].slot == vs[j].slot;
      }
    }
  }
}
