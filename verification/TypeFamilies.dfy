/** Families of containers, each with one base or none: what a new one takes over, and what it leaves to the others. */
module TypeFamilies {
  import opened Common
  import opened TypeTable
  import opened TypeMembers
  import opened TypeContainers
  import opened TypeCopies
  import opened TypeRuns
  import opened TypeBodies
  import opened TypeInherit

  // ---- the other containers ----

  /** Every other container has the same entries as before. */
  lemma FramedView(st: State, next: nat, st': State, next': nat, p: int, q: int)
    requires Allotted(st, next) && Allotted(st', next') && next <= next' && Framed(st, next, st', p)
    requires Held(st, next, q) && q != p
    ensures Held(st', next', q) && View(st', q) == View(st, q)
  {
    var children := st.Body(q).children;
    assert SameEntry(st.tab, st'.tab, q, p);
    forall i | 0 <= i < |children|
      ensures st'.tab.InVtable(children[i]) == st.tab.InVtable(children[i])
      ensures Stored(st'.tab, children[i]) == Stored(st.tab, children[i])
    {
      var c := children[i];
      assert c in children;
      if c in st.tab.types {
        assert SameEntry(st.tab, st'.tab, c, p);
      }
    }
    OnceBoth(st.tab, st'.tab, children);
  }

  lemma FramedHeritable(st: State, next: nat, st': State, next': nat, p: int, q: int)
    requires Allotted(st, next) && Allotted(st', next') && next <= next' && Framed(st, next, st', p)
    requires Held(st, next, q) && q != p && Heritable(st, q)
    ensures Heritable(st', q)
  {
    FramedView(st, next, st', next', p, q);
    FramedRoots(st, next, st', next', p);
    var es := View(st, q);
    hide View;
    forall v | v in Virtuals(es) ensures st'.tab.Resolve(v.child) == st.tab.Resolve(v.child) {
      VirtualsAre(es, v);
      VirtualChild(st, q, v);
    }
  }

  lemma StillWellCopied(st: State, next: nat, st': State, next': nat, p: int, q: int, v: Entry)
    requires Allotted(st, next) && Allotted(st', next') && Framed(st, next, st', p) && NewCopiesAgree(st, st')
    requires v in View(st, q) && st.tab.InVtable(v.child) && WellCopied(st, v)
    requires p in st.tab.types ==> st.tab.types[p].p == NONE
    ensures WellCopied(st', v)
  {
    FramedRoots(st, next, st', next', p);
    var ptr, root := st.tab.types[v.child].ptr, st.tab.Resolve(v.child);
    assert SameEntry(st.tab, st'.tab, v.child, p) && Stored(st.tab, v.child) == v.slot;
    forall k | IsCopy(st'.tab, k, ptr, root) ensures Stored(st'.tab, k) == v.slot {
      if k in st.tab.types {
        assert IsCopy(st.tab, k, ptr, root) && SameEntry(st.tab, st'.tab, k, p);
      } else {
        assert !IsCopy(st.tab, v.child, ptr, root);
        assert root == v.child;
      }
    }
  }

  lemma FramedFaithful(st: State, next: nat, st': State, next': nat, p: int, q: int)
    requires Allotted(st, next) && Allotted(st', next') && next <= next' && Framed(st, next, st', p)
    requires Held(st, next, q) && q != p && Faithful(st, q) && NewCopiesAgree(st, st')
    requires st.tab.types[q].p == NONE && (p in st.tab.types ==> st.tab.types[p].p == NONE)
    ensures Faithful(st', q)
  {
    FramedView(st, next, st', next', p, q);
    FramedRoots(st, next, st', next', p);
    var es := View(st, q);
    forall v | v in Virtuals(es) ensures WellCopied(st', v) {
      VirtualsAre(es, v);
      VirtualChild(st, q, v);
      assert WellCopied(st, v) && SameEntry(st.tab, st'.tab, v.child, p);
      StillWellCopied(st, next, st', next', p, q, v);
    }
  }

  /** One base was inherited from: the other containers notice nothing, and the new copies agree with them. */
  lemma InheritanceGrows(st0: State, next0: nat, st: State, next: nat, p: int, vs: seq<Entry>)
    requires Allotted(st0, next0) && Held(st0, next0, p) && Allotted(st, next) && Held(st, next, p) && next0 <= next
    requires OnlyGrew(st0, next0, st, p) && AllGiven(next0, st, next) && AllStandFor(st0, st, View(st, p), vs)
    requires forall v :: v in vs ==> st0.tab.InVtable(v.child) && Stored(st0.tab, v.child) == v.slot
    requires Regular(st.tab) && (Single(st0.tab) ==> Single(st.tab))
    ensures Grown(st0, next0, st, next, p)
  {
    forall k | k in st.tab.types && k !in st0.tab.types && st.tab.types[k].p != NONE
      ensures Uncopied(st0.tab, st.tab.types[k].ptr, st.tab.Resolve(k))
      ensures st0.tab.InVtable(st.tab.Resolve(k)) ==> Stored(st.tab, k) == Stored(st0.tab, st.tab.Resolve(k))
    {
      var j :| 0 <= j < |st.Body(p).children| && st.Body(p).children[j] == k;
      var e, v := View(st, p)[j], vs[j];
      assert StandsFor(st0, st, e, v) && v in vs;
      assert !IsCopy(st0.tab, v.child, st0.tab.types[v.child].ptr, st0.tab.Resolve(v.child));
    }
  }

  // ---- the new container ----

  /** A new method. */
  ghost predicate Freshly(os: seq<Outcome>, c: int) {
    exists j :: 0 <= j < |os| && os[j].Fresh? && os[j].child == c
  }

  /** The children of virtual entries after declarations of its own: those that were there, or new methods. */
  lemma {:induction false} DeclaredChildren(es: seq<Entry>, os: seq<Outcome>, i: nat)
    requires NoneGiven(os) && i < |DeclareAll(es, os)| && DeclareAll(es, os)[i].slot != NONE
    ensures var e := DeclareAll(es, os)[i];
      && ((i < |es| && e.child == es[i].child) || Freshly(os, e.child))
      && (if i < |es| then e.name == es[i].name && e.slot == es[i].slot else e.name != Unnamed)
  {
    if os != [] {
      var n := |os| - 1;
      var es' := DeclareAll(es, os[..n]);
      RunExtends(es, os[..n]);
      if i < |es'| && es'[i].slot != NONE {
        DeclaredChildren(es, os[..n], i);
        assert Freshly(os[..n], es'[i].child) ==> Freshly(os, es'[i].child);
      }
      assert os[n].Fresh? ==> Freshly(os, os[n].child);
    }
  }

  lemma {:induction false} VirtualsPairs(es: seq<Entry>, i: nat, j: nat) returns (a: nat, b: nat)
    requires i < j < |Virtuals(es)|
    ensures a < b < |es| && es[a] == Virtuals(es)[i] && es[b] == Virtuals(es)[j]
    ensures es[a].slot != NONE && es[b].slot != NONE
  {
    var n := |es| - 1;
    var vs := Virtuals(es[..n]);
    if j < |vs| {
      a, b := VirtualsPairs(es[..n], i, j);
    } else {
      VirtualsAre(es[..n], vs[i]);
      a :| 0 <= a < n && es[a] == vs[i];
      b := n;
    }
  }

  /** Named copies of different types. */
  ghost predicate DifferentCopies(tab: Table, es: seq<Entry>)
    requires tab.Copies()
  {
    && (forall j {:trigger es[j]} :: 0 <= j < |es| ==>
          es[j].name != Unnamed && es[j].child in tab.types && tab.types[es[j].child].p != NONE)
    && forall i, j :: 0 <= i < j < |es| ==> tab.Resolve(es[i].child) != tab.Resolve(es[j].child)
  }

  lemma StandingAreDifferent(st0: State, st: State, base: int, es: seq<Entry>)
    requires st0.tab.Copies() && st.tab.Copies() && Heritable(st0, base)
    requires AllStandFor(st0, st, es, Virtuals(View(st0, base)))
    ensures DifferentCopies(st.tab, es)
  {
    var vs := Virtuals(View(st0, base));
    forall j | 0 <= j < |es|
      ensures es[j].name != Unnamed && es[j].child in st.tab.types && st.tab.types[es[j].child].p != NONE
      ensures st.tab.Resolve(es[j].child) == st0.tab.Resolve(vs[j].child)
    {
      assert StandsFor(st0, st, es[j], vs[j]);
    }
  }

  /** The body of p was declared in st2, after it inherited. */
  ghost predicate Bodied(st2: State, next2: nat, st3: State, next3: nat, p: int, ds: seq<Declaration>,
                         os: seq<Outcome>) {
    && Grown(st2, next2, st3, next3, p) && Held(st3, next3, p) && NothingInherited(st2.tab, ds)
    && |os| == |ds| && AllComeTo(st2, st3, ds, os) && AllBrought(st2, st3, os) && RestStays(st2, st3, p, ds)
    && CopiesMeasured(st2, st3, p, ds) && View(st3, p) == DeclareAll(View(st2, p), os)
  }

  lemma PlainOutcomes(st0: State, st: State, ds: seq<Declaration>, os: seq<Outcome>)
    requires st0.tab.Copies() && st.tab.Copies() && AllComeTo(st0, st, ds, os) && NothingInherited(st0.tab, ds)
    ensures NoneGiven(os)
  {
    forall i | 0 <= i < |os| && os[i].Given? ensures os[i].slot == NONE {
      assert ComesTo(st0, st, ds[i], os[i]) && Plain(st0.tab, ds[i]);
    }
  }

  lemma FreshIsNew(st0: State, st: State, ds: seq<Declaration>, os: seq<Outcome>, c: int)
    requires st0.tab.Copies() && st.tab.Copies() && AllComeTo(st0, st, ds, os) && Freshly(os, c)
    ensures c !in st0.tab.types && c in st.tab.types && st.tab.types[c].p == NONE
  {
    var j :| 0 <= j < |os| && os[j].Fresh? && os[j].child == c;
    assert ComesTo(st0, st, ds[j], os[j]);
  }

  /** A virtual entry of the new container: an inherited copy, or a new method, which is no copy. */
  lemma EntryOfNew(st2: State, next2: nat, st3: State, next3: nat, p: int, ds: seq<Declaration>, os: seq<Outcome>,
                   i: nat)
    requires Bodied(st2, next2, st3, next3, p, ds, os) && DifferentCopies(st2.tab, View(st2, p))
    requires i < |View(st3, p)| && View(st3, p)[i].slot != NONE
    ensures var c, es := View(st3, p)[i].child, View(st2, p);
      && View(st3, p)[i].name != Unnamed && c in st3.tab.types
      && (if st3.tab.types[c].p != NONE
          then i < |es| && c == es[i].child && st3.tab.Resolve(c) == st2.tab.Resolve(c) < next2
          else next2 <= c == st3.tab.Resolve(c))
  {
    var es, c := View(st2, p), View(st3, p)[i].child;
    PlainOutcomes(st2, st3, ds, os);
    DeclaredChildren(es, os, i);
    FramedRoots(st2, next2, st3, next3, p);
    hide DeclareAll;
    if Freshly(os, c) {
      FreshIsNew(st2, st3, ds, os, c);
    } else {
      assert i < |es| && c == es[i].child && SameEntry(st2.tab, st3.tab, c, p);
      RootIsKin(st2, next2, c);
    }
  }

  /** The new container can be a base in its turn. */
  lemma NewHeritable(st2: State, next2: nat, st3: State, next3: nat, p: int, ds: seq<Declaration>, os: seq<Outcome>)
    requires Bodied(st2, next2, st3, next3, p, ds, os) && DifferentCopies(st2.tab, View(st2, p))
    ensures Heritable(st3, p)
  {
    var es := View(st3, p);
    var vs := Virtuals(es);
    forall i | 0 <= i < |vs| ensures vs[i].name != Unnamed {
      VirtualsAre(es, vs[i]);
      var a :| 0 <= a < |es| && es[a] == vs[i];
      EntryOfNew(st2, next2, st3, next3, p, ds, os, a);
    }
    forall i, j | 0 <= i < j < |vs|
      ensures vs[i].name != vs[j].name && st3.tab.Resolve(vs[i].child) != st3.tab.Resolve(vs[j].child)
    {
      var a, b := VirtualsPairs(es, i, j);
      EntryOfNew(st2, next2, st3, next3, p, ds, os, a);
      EntryOfNew(st2, next2, st3, next3, p, ds, os, b);
      VirtualChild(st3, p, es[a]);
      assert st3.Body(p).children[a] != st3.Body(p).children[b];
    }
  }

  /** No new method has been copied. */
  lemma RootOfCopy(st2: State, next2: nat, st3: State, next3: nat, p: int, ds: seq<Declaration>, os: seq<Outcome>,
                   k: int)
    requires Bodied(st2, next2, st3, next3, p, ds, os) && k in st3.tab.types && st3.tab.types[k].p != NONE
    ensures st3.tab.Resolve(k) < next2
  {
    FramedRoots(st2, next2, st3, next3, p);
    if k in st2.tab.types {
      RootIsKin(st2, next2, k);
    } else {
      assert Brought(os, k);
      var i :| 0 <= i < |os| && !os[i].Nothing? && os[i].child == k;
      assert ComesTo(st2, st3, ds[i], os[i]);
      RootIsKin(st2, next2, ds[i].base);
    }
  }

  /** And its copies agree with it, where nothing was copied twice. */
  lemma NewFaithful(st2: State, next2: nat, st3: State, next3: nat, p: int, ds: seq<Declaration>, os: seq<Outcome>)
    requires Bodied(st2, next2, st3, next3, p, ds, os) && DifferentCopies(st2.tab, View(st2, p)) && Single(st3.tab)
    ensures Faithful(st3, p)
  {
    var es := View(st3, p);
    forall v | v in Virtuals(es) ensures WellCopied(st3, v) {
      VirtualsAre(es, v);
      var a :| 0 <= a < |es| && es[a] == v;
      EntryOfNew(st2, next2, st3, next3, p, ds, os, a);
      forall k | IsCopy(st3.tab, k, st3.tab.types[v.child].ptr, st3.tab.Resolve(v.child))
        ensures Stored(st3.tab, k) == v.slot
      {
        if st3.tab.types[v.child].p == NONE {
          RootOfCopy(st2, next2, st3, next3, p, ds, os, k);
        } else {
          assert st3.tab.types[k].p != NONE && v.child == k;
        }
      }
    }
  }

  // ---- families ----

  /** Fit to be a base: its methods can be taken over, copies agree with it, and its indices are in order. */
  ghost predicate Fit(st: State, next: nat, q: int)
    requires st.tab.Copies()
  {
    Held(st, next, q) && Heritable(st, q) && Faithful(st, q) && InOrder(View(st, q))
  }

  ghost predicate Family(st: State, next: nat, s: set<int>) {
    && Allotted(st, next) && Regular(st.tab) && Single(st.tab)
    && forall q {:trigger Fit(st, next, q)} :: q in s ==> Fit(st, next, q)
  }

  ghost predicate SameViews(st: State, st': State, s: set<int>) {
    forall q {:trigger View(st', q)} :: q in s ==> View(st', q) == View(st, q)
  }

  /** A table without copies and virtual methods is where families begin. */
  lemma FamilyBegins(st: State, next: nat)
    requires Allotted(st, next) && forall d :: d in st.tab.types ==> st.tab.types[d].p == NONE && !st.tab.InVtable(d)
    ensures Family(st, next, {})
  {
  }

  /** A family stays as it is while the table grows elsewhere. */
  lemma FamilyStays(st: State, next: nat, st': State, next': nat, p: int, s: set<int>)
    requires Family(st, next, s) && p !in s && Grown(st, next, st', next', p)
    requires p in st.tab.types ==> st.tab.types[p].p == NONE
    ensures Family(st', next', s) && SameViews(st, st', s)
  {
    forall q | q in s ensures Fit(st', next', q) && View(st', q) == View(st, q) {
      assert Fit(st, next, q);
      FramedView(st, next, st', next', p, q);
      FramedHeritable(st, next, st', next', p, q);
      FramedFaithful(st, next, st', next', p, q);
    }
  }
}
