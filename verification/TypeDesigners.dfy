/** Runs of definitions: which are refused, and which designers can be trusted. */
module TypeDesigners {
  import opened Common
  import opened TypeTable
  import opened TypeMembers
  import opened TypeContainers
  import opened TypeCopies
  import opened TypeRuns
  import opened TypeBodies
  import opened TypeInherit
  import opened TypeFamilies
  import opened TypeDefinitions

  // ---- which names are known ----

  /** Something goes by that name, at whatever depth of indirection. */
  ghost predicate InUse(tab: Table, name: Name, scope: int) {
    exists e :: GoesBy(tab, e, name, scope)
  }

  /** An earlier definition bears the name. */
  ghost predicate DefinedBefore(designer: Designer, ids: seq<int>, name: Name, scope: int) {
    exists j :: 0 <= j < |ids| && ids[j] != NONE && designer(ids[..j]).name == name
                && designer(ids[..j]).scope in {scope, NONE}
  }

  /** Every method is linked to a function, as it is in the parser. */
  ghost predicate AllLinked(ds: seq<Declaration>) {
    forall d :: d in ds && d.NewVirtual? ==> d.f != NONE
  }

  lemma KinGoesBy(tab: Table, tab': Table, e: int, name: Name, scope: int)
    requires e in tab.types && e in tab'.types && SameKin(tab.types[e], tab'.types[e])
    ensures GoesBy(tab, e, name, scope) <==> GoesBy(tab', e, name, scope)
    ensures forall ptr :: Refers(tab, e, name, scope, ptr) <==> Refers(tab', e, name, scope, ptr)
  {
  }

  /** A new entry is the container, a copy, or a method linked to a function. */
  lemma NewEntryIs(st: State, st': State, next': nat, d: Definition, p: nat, inherited: seq<Entry>,
                   os: seq<Outcome>, family: set<int>, k: int)
    requires Allotted(st, p) && Defines(st, st', next', d, p, inherited, os, family) && AllLinked(d.body(p))
    requires k in st'.tab.types && k !in st.tab.types && k != p
    ensures st'.tab.types[k].p != NONE || (st'.tab.IsMethod(k) && st'.tab.types[k].body.fId != NONE)
  {
    assert NothingElse(st, st', p, inherited, os);
    if j :| 0 <= j < |inherited| && inherited[j].child == k {
      assert IsCopy(st'.tab, inherited[j].child, st.tab.types[Inherited(st, d.base)[j].child].ptr,
                    st.tab.Resolve(Inherited(st, d.base)[j].child));
    } else {
      assert Brought(os, k);
      var i :| 0 <= i < |os| && !os[i].Nothing? && os[i].child == k;
      assert ComesTo(Entered(st, p, ContainerOf(d)), st', d.body(p)[i], os[i]) && d.body(p)[i] in d.body(p);
    }
  }

  lemma NewEntriesAreCopies(st: State, next: nat, st': State, next': nat, ws: seq<Wanted>)
    requires OnlyCopied(st, next, st', next', ws)
    ensures forall k :: k in st'.tab.types && k !in st.tab.types ==> st'.tab.types[k].p != NONE
  {
    forall k | k in st'.tab.types && k !in st.tab.types ensures st'.tab.types[k].p != NONE {
      assert IsWanted(st.tab, st'.tab, ws, k);
    }
  }

  /** A name that is in use after a definition was in use before, or is the one defined. */
  lemma NameComesFrom(m: Moment, d: Definition, p: int, m': Moment, family: set<int>, name: Name, scope: int)
    requires Made(m, d, p, m', family) && AllLinked(d.body(p)) && InUse(m'.st.tab, name, scope)
    ensures InUse(m.st.tab, name, scope) || (p != NONE && d.name == name && d.scope in {scope, NONE})
  {
    var e :| GoesBy(m'.st.tab, e, name, scope);
    RootIsKin(m'.st, m'.next, e);
    var root := m'.st.tab.Resolve(e);
    assert GoesBy(m'.st.tab, root, name, scope);
    FramedKept(m.st, m.next, m'.st, p);
    if p == NONE {
      NewEntriesAreCopies(m.st, m.next, m'.st, m'.next,
                          MethodsWanted(m.st.tab, Inherited(m.st, d.base)) + TypesWanted(m.st.tab, d.body(NONE)));
    }
    if root in m.st.tab.types {
      KinGoesBy(m.st.tab, m'.st.tab, root, name, scope);
    } else if root != p {
      var inherited, os :| Defines(m.st, m'.st, m'.next, d, p, inherited, os, family);
      NewEntryIs(m.st, m'.st, m'.next, d, p, inherited, os, family, root);
      assert false;
    }
  }

  lemma NameStays(m: Moment, d: Definition, p: int, m': Moment, family: set<int>, name: Name, scope: int)
    requires Made(m, d, p, m', family)
    ensures Known(m.st.tab, name, scope) ==> Known(m'.st.tab, name, scope)
    ensures p != NONE && name != Unnamed && d.name == name && d.scope in {scope, NONE} ==> Known(m'.st.tab, name, scope)
  {
    FramedKept(m.st, m.next, m'.st, p);
    if e :| Refers(m.st.tab, e, name, scope, 0) {
      KinGoesBy(m.st.tab, m'.st.tab, e, name, scope);
    }
    if p != NONE && name != Unnamed && d.name == name && d.scope in {scope, NONE} {
      assert Refers(m'.st.tab, p, name, scope, 0);
    }
  }

  lemma MadeLess(designer: Designer, ids: seq<int>, trace: seq<Moment>)
    requires MadeAll(designer, ids, trace) && ids != []
    ensures var n := |ids| - 1;
      && MadeAll(designer, ids[..n], trace[..n + 1])
      && Made(trace[n], designer(ids[..n]), ids[n], trace[n + 1], Containers(ids[..n]))
  {
    var n := |ids| - 1;
    assert forall i :: 0 <= i < n ==> ids[..n][..i] == ids[..i];
  }

  lemma DefinedOneMore(designer: Designer, ids: seq<int>, name: Name, scope: int)
    requires ids != []
    ensures var n := |ids| - 1; var d := designer(ids[..n]);
      DefinedBefore(designer, ids, name, scope) <==>
      DefinedBefore(designer, ids[..n], name, scope) || (ids[n] != NONE && d.name == name && d.scope in {scope, NONE})
  {
    var n := |ids| - 1;
    assert forall i :: 0 <= i < n ==> ids[..n][..i] == ids[..i] && ids[..n][i] == ids[i];
    if i :| 0 <= i < n && ids[..n][i] != NONE && designer(ids[..n][..i]).name == name
            && designer(ids[..n][..i]).scope in {scope, NONE} {
      assert ids[i] != NONE;
    }
    if i :| 0 <= i < |ids| && ids[i] != NONE && designer(ids[..i]).name == name
            && designer(ids[..i]).scope in {scope, NONE} {
      if i < n {
        assert ids[..n][i] != NONE;
      }
    }
  }

  /** After a run the names in use are those from before it and those defined in it. */
  lemma {:induction false} NamesInUse(designer: Designer, ids: seq<int>, trace: seq<Moment>, name: Name, scope: int)
    requires MadeAll(designer, ids, trace)
    requires forall s, p {:trigger designer(s).body(p)} :: AllLinked(designer(s).body(p))
    ensures InUse(trace[|ids|].st.tab, name, scope) ==>
              InUse(trace[0].st.tab, name, scope) || DefinedBefore(designer, ids, name, scope)
    ensures Known(trace[0].st.tab, name, scope) || (name != Unnamed && DefinedBefore(designer, ids, name, scope)) ==>
              Known(trace[|ids|].st.tab, name, scope)
  {
    if ids != [] {
      var n := |ids| - 1;
      MadeLess(designer, ids, trace);
      NamesInUse(designer, ids[..n], trace[..n + 1], name, scope);
      DefinedOneMore(designer, ids, name, scope);
      var d := designer(ids[..n]);
      assert AllLinked(d.body(ids[n]));
      NameStays(trace[n], d, ids[n], trace[n + 1], Containers(ids[..n]), name, scope);
      if InUse(trace[n + 1].st.tab, name, scope) {
        NameComesFrom(trace[n], d, ids[n], trace[n + 1], Containers(ids[..n]), name, scope);
      }
    }
  }

  /** A definition is refused if its name was known before the run or is that of a container made earlier in it, and
      only if it was in use or is. */
  lemma RefusedWhen(designer: Designer, ids: seq<int>, trace: seq<Moment>, i: nat)
    requires MadeAll(designer, ids, trace) && i < |ids|
    requires forall s, p {:trigger designer(s).body(p)} :: AllLinked(designer(s).body(p))
    ensures var name, scope := designer(ids[..i]).name, designer(ids[..i]).scope;
      && (ids[i] == NONE ==>
            name != Unnamed && (InUse(trace[0].st.tab, name, scope) || DefinedBefore(designer, ids[..i], name, scope)))
      && (Known(trace[0].st.tab, name, scope) || (name != Unnamed && DefinedBefore(designer, ids[..i], name, scope)) ==>
            ids[i] == NONE)
  {
    var d := designer(ids[..i]);
    assert MadeAll(designer, ids[..i], trace[..i + 1]) by {
      assert forall j :: 0 <= j < i ==> ids[..i][..j] == ids[..j];
    }
    NamesInUse(designer, ids[..i], trace[..i + 1], d.name, d.scope);
    assert Made(trace[i], d, ids[i], trace[i + 1], Containers(ids[..i]));
    if e :| Refers(trace[i].st.tab, e, d.name, d.scope, 0) {
      assert GoesBy(trace[i].st.tab, e, d.name, d.scope);
    }
  }

  // ---- designers that can be trusted ----

  /** Its definitions use types and bases that were answered before, and new methods; variables may be of the type of
      the container itself. */
  ghost predicate SelfContained(designer: Designer) {
    forall s: seq<int>, p: int {:trigger designer(s).body(p)} ::
      && (designer(s).base == NONE || designer(s).base in s)
      && forall e :: e in designer(s).body(p) ==>
           match e
           case Existing(_, _, _) => false
           case Variable(b, _, _) => b in s || b == p || b < 0
           case NewVirtual(_, _, _) => true
  }

  /** Every container that was made is still there. */
  lemma {:induction false} AnswersStay(designer: Designer, ids: seq<int>, trace: seq<Moment>)
    requires MadeAll(designer, ids, trace)
    ensures forall p :: p in Containers(ids) ==> trace[|ids|].st.tab.IsCustom(p)
  {
    if ids != [] {
      var n := |ids| - 1;
      MadeLess(designer, ids, trace);
      AnswersStay(designer, ids[..n], trace[..n + 1]);
      FramedKept(trace[n].st, trace[n].next, trace[n + 1].st, ids[n]);
      forall p | p in Containers(ids) ensures trace[n + 1].st.tab.IsCustom(p) {
        assert p in ids[..n] || p == ids[n];
        assert p in ids[..n] ==> p in Containers(ids[..n]);
      }
    }
  }

  lemma MadeIsAllotted(designer: Designer, ids: seq<int>, trace: seq<Moment>)
    requires MadeAll(designer, ids, trace) && Allotted(trace[0].st, trace[0].next)
    ensures Allotted(trace[|ids|].st, trace[|ids|].next)
  {
    if ids != [] {
      MadeLess(designer, ids, trace);
    }
  }

  /** So all its definitions can be made, whatever the answers are. */
  lemma SelfContainedIsProper(designer: Designer, ids: seq<int>, trace: seq<Moment>)
    requires SelfContained(designer) && MadeAll(designer, ids, trace) && Allotted(trace[0].st, trace[0].next)
    ensures MayDefine(trace[|ids|], ids, designer(ids))
  {
    AnswersStay(designer, ids, trace);
    MadeIsAllotted(designer, ids, trace);
    var m, d := trace[|ids|], designer(ids);
    var p := Answer(m.st, m.next, d);
    forall e | e in d.body(p) ensures MayDeclare(m.st.tab, p, e) {
      assert e.Variable? && e.base in ids && e.base != NONE ==> e.base in Containers(ids);
    }
  }

  /** Records: each but the first has a field of the type defined before, and each a pointer to itself. */
  function Records(names: nat -> string, scope: int): Designer {
    (ids: seq<int>) =>
      Definition(Named(names(|ids|)), scope, 8, true, false, NONE,
                 (p: int) => (if ids == [] then [] else [Variable(ids[|ids| - 1], 0, Named("value"))])
                             + [Variable(p, 1, Named("next"))])
  }

  /** It can be trusted. */
  lemma RecordsAreProper(names: nat -> string, scope: int, ids: seq<int>, trace: seq<Moment>)
    requires MadeAll(Records(names, scope), ids, trace) && Allotted(trace[0].st, trace[0].next)
    ensures MayDefine(trace[|ids|], ids, Records(names, scope)(ids))
  {
    SelfContainedIsProper(Records(names, scope), ids, trace);
  }

  /** And under new names that differ nothing is refused. */
  lemma RecordsAreMade(names: nat -> string, scope: int, ids: seq<int>, trace: seq<Moment>)
    requires MadeAll(Records(names, scope), ids, trace)
    requires forall i :: 0 <= i < |ids| ==> !InUse(trace[0].st.tab, Named(names(i)), scope)
    requires forall i: nat, j: nat :: i < j < |ids| ==> names(i) != names(j)
    ensures forall i :: 0 <= i < |ids| ==> ids[i] != NONE
  {
    forall i: nat | i < |ids| ensures ids[i] != NONE {
      RefusedWhen(Records(names, scope), ids, trace, i);
    }
  }
}
