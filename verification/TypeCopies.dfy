/** The table as it grows: new entries, copies, and what they leave alone. */
module TypeCopies {
  import opened TypeTable
  import opened TypeMembers
  import opened TypeContainers

  // ---- entries ----

  /** The same sort of type: what no step but the making of an entry decides. */
  predicate SameSort(b: Body, b': Body) {
    match b
    case Custom(_, align, multiple, _, _) => b'.Custom? && b'.align == align && b'.multiple == multiple
    case Method(f, _, _) => b'.Method? && b'.fId == f
    case Array(element, _) => b'.Array? && b'.element == element
    case _ => b' == b
  }

  /** An entry has no negative size but the one that stands for none, and a copy has the name, the scope and the kind of
      what it is a copy of. */
  predicate InShape(tab: Table, id: int)
    requires id in tab.types
  {
    var t := tab.types[id];
    && tab.RawSize(t.body, false) >= NONE
    && (t.p != NONE ==>
          && t.p in tab.types && t.name == tab.types[t.p].name && t.scope == tab.types[t.p].scope
          && SameSort(t.body, tab.types[t.p].body))
  }

  /** Ids are handed out in order, only types have members, and the entries are in shape. */
  ghost predicate Allotted(st: State, next: nat) {
    && st.tab.Copies()
    && (forall id :: id in st.tab.types ==> id < next)
    && (forall id {:trigger InShape(st.tab, id)} :: id in st.tab.types ==> InShape(st.tab, id))
    && st.members.Keys <= st.tab.types.Keys
  }

  /** A container whose children are among the ids handed out. */
  ghost predicate Held(st: State, next: nat, p: int) {
    && Listed(st, p) && Indexed(st.tab, st.Body(p).children) && st.tab.types[p].p == NONE
    && forall c :: c in st.Body(p).children ==> c < next
  }

  /** The table with a new entry in it. */
  function Entered(st: State, c: int, info: TypeInfo): State {
    st.(tab := st.tab.(types := st.tab.types[c := info]))
  }

  lemma EnteredKeeps(st: State, p: int, c: int, info: TypeInfo)
    requires Listed(st, p) && c !in st.tab.types && c !in st.Body(p).children
    ensures var st' := Entered(st, c, info);
      && Listed(st', p) && View(st', p) == View(st, p) && SameMethods(st.tab, st'.tab, st.Body(p).children)
      && (Struct(st, p) ==> Struct(st', p))
      && (Current(st.tab, p) ==> Current(st'.tab, p))
      && (Container(st, p) ==> Container(st', p))
  {
    hide Numbered;
    hide PowerOfTwo;
    var st' := Entered(st, c, info);
    NumberedBoth(st.tab, st'.tab, st.Body(p).children);
    LayoutFrame(st.tab, st'.tab, st.Body(p), st'.Body(p));
  }

  /** The tables hold the same types, and only those of s differ. */
  ghost predicate OnlyAt(tab: Table, tab': Table, s: set<int>) {
    && tab'.conf == tab.conf && tab'.types.Keys == tab.types.Keys
    && forall d :: d in tab.types && d !in s ==> tab'.types[d] == tab.types[d]
  }

  /** Only two negative numbers have a negative conjunction. */
  lemma {:induction false} AndNonNegative(a: int, b: int)
    requires a >= 0 || b >= 0
    ensures And(a, b) >= 0
    decreases if a < 0 then -a else a, if b < 0 then -b else b
  {
    if a != 0 && b != 0 && a != -1 && b != -1 {
      AndNonNegative(a / 2, b / 2);
    }
  }

  lemma {:induction false} ExtentNonNegative(tab: Table, b: Body, n: nat)
    requires b.Custom? && n <= |b.children|
    ensures tab.Extent(b, n) >= 0
  {
    if n > 0 {
      ExtentNonNegative(tab, b, n - 1);
      var size := tab.MemSize(b.children[n - 1]);
      if size > 0 {
        AndNonNegative(size + b.align - 1, -b.align);
        AndNonNegative(size + size - 1, -size);
      }
    }
  }

  /** No layout has a negative size, whatever the alignment. */
  lemma LayoutNonNegative(tab: Table, b: Body)
    requires b.Custom?
    ensures tab.LayoutSize(b) >= 0
  {
    ExtentNonNegative(tab, b, |b.children|);
  }

  /** The entry is a copy of the same, under the same name, in the same scope, and of the same kind. */
  predicate SameKin(t: TypeInfo, t': TypeInfo) {
    && t'.p == t.p && t'.ptr == t.ptr && t'.name == t.name && t'.scope == t.scope && SameSort(t.body, t'.body)
  }

  /** Changing entries in place, within their shape. */
  lemma ShapesStay(st: State, next: nat, st': State)
    requires Allotted(st, next) && st'.tab.types.Keys == st.tab.types.Keys && st'.members.Keys <= st.tab.types.Keys
    requires forall d :: d in st.tab.types ==>
               && SameKin(st.tab.types[d], st'.tab.types[d])
               && st'.tab.RawSize(st'.tab.types[d].body, false) >= NONE
    ensures Allotted(st', next)
  {
    forall id | id in st'.tab.types ensures InShape(st'.tab, id) {
      assert InShape(st.tab, id);
    }
  }

  /** Every entry keeps its kin, and new entries come later. */
  ghost predicate Kept(st: State, next: nat, st': State) {
    && (forall d {:trigger d in st.tab.types} :: d in st.tab.types ==>
          d in st'.tab.types && SameKin(st.tab.types[d], st'.tab.types[d]))
    && (forall d {:trigger d in st'.tab.types} :: d in st'.tab.types && d !in st.tab.types ==> d >= next)
  }

  /** A new entry that is no copy. */
  lemma EnteredAllots(st: State, next: nat, info: TypeInfo)
    requires Allotted(st, next) && info.p == NONE && st.tab.RawSize(info.body, false) >= NONE
    ensures Allotted(Entered(st, next, info), next + 1) && Kept(st, next, Entered(st, next, info))
  {
    forall d | d in st.tab.types + map[next := info] ensures InShape(Entered(st, next, info).tab, d) {
      assert d in st.tab.types ==> InShape(st.tab, d);
    }
  }

  // ---- copies ----

  /** c is a copy with that depth of indirection, and root is what it is a copy of in the end. */
  ghost predicate IsCopy(tab: Table, c: int, ptr: int, root: int)
    requires tab.Copies()
  {
    c in tab.types && tab.types[c].ptr == ptr && tab.types[c].p != NONE && tab.Resolve(c) == root
  }

  /** _copy_type_body: a container leaves its children and its vtable behind. */
  function CopiedBody(b: Body): Body {
    match b
    case Custom(size, align, multiple, _, _) => Custom(size, align, multiple, false, [])
    case _ => b
  }

  /** A new copy of c. */
  function CopyOf(tab: Table, c: int, ptr: int): TypeInfo
    requires c in tab.types
  {
    TypeInfo(c, ptr, tab.types[c].name, tab.types[c].scope, CopiedBody(tab.types[c].body))
  }

  /** There is no copy with that depth of indirection. */
  ghost predicate Uncopied(tab: Table, ptr: int, root: int)
    requires tab.Copies()
  {
    forall k :: !IsCopy(tab, k, ptr, root)
  }

  /** TPTB_add_copy for an entry c that is no generic type: some copy that is there already, or a new one with the next
      id. */
  ghost predicate CopyMade(st: State, next: nat, c: int, ptr: int, k: int, st': State, next': nat)
    requires st.tab.Copies() && c in st.tab.types
  {
    if Uncopied(st.tab, ptr, st.tab.Resolve(c))
    then k == next && next' == next + 1 && st' == Entered(st, k, CopyOf(st.tab, c, ptr))
    else IsCopy(st.tab, k, ptr, st.tab.Resolve(c)) && st' == st && next' == next
  }

  /** TPTB_add_copy: NONE for what is no entry, a generic type itself, and a copy of anything else. */
  ghost predicate CopyAnswered(st: State, next: nat, c: int, ptr: int, k: int, st': State, next': nat)
    requires st.tab.Copies()
  {
    if c !in st.tab.types || st.tab.types[c].body.Generic?
    then k == (if c in st.tab.types then c else NONE) && st' == st && next' == next
    else CopyMade(st, next, c, ptr, k, st', next')
  }

  /** The size, alignment and kind of what was copied, or its contents if it is no container. */
  predicate SameLayout(b: Body, b': Body) {
    match b
    case Custom(size, align, multiple, _, _) =>
      && b'.Custom? && b'.size == size && b'.align == align && b'.multiple == multiple
      && !b'.vtable && b'.children == []
    case _ => b' == b
  }

  /** A copy with some indirection takes a word. Any other takes, while it is new, the room of what it was made of, and
      one that is found keeps the room it had. */
  predicate CopySized(tab: Table, c: int, ptr: int, k: int, tab': Table, made: bool)
    requires c in tab.types
  {
    && k in tab'.types && tab'.types[k].ptr == ptr
    && (ptr != 0 ==> tab'.MemSize(k) == tab.conf.full)
    && (made ==> tab'.types[k].p == c && SameLayout(tab.types[c].body, tab'.types[k].body))
    && (made && ptr == 0 ==> tab'.MemSize(k) == tab.RawSize(tab.types[c].body, false))
    && (made && ptr == 0 && tab.types[c].ptr == 0 ==> tab'.MemSize(k) == tab.MemSize(c))
    && (!made ==> tab'.MemSize(k) == tab.MemSize(k))
  }

  lemma CopyMeasures(st: State, next: nat, c: int, ptr: int, k: int, st': State, next': nat)
    requires st.tab.Copies() && c in st.tab.types && CopyMade(st, next, c, ptr, k, st', next')
    ensures CopySized(st.tab, c, ptr, k, st'.tab, next' != next)
  {
  }

  /** New entries, and new contents of old ones, leave the roots alone. */
  lemma {:induction false} ResolveFrame(tab: Table, tab': Table, c: int)
    requires tab.Copies() && tab'.Copies()
    requires forall d :: d in tab.types ==> d in tab'.types && tab'.types[d].p == tab.types[d].p
    requires forall d :: d in tab'.types && d !in tab.types ==> d > c
    ensures tab'.Resolve(c) == tab.Resolve(c)
    decreases if c in tab.types then c + 1 else 0
  {
    if c in tab.types && tab.types[c].p != NONE {
      ResolveFrame(tab, tab', tab.types[c].p);
    }
  }

  /** The root of an entry is in the table, has its name, its scope and its kind, and does not come after it. */
  lemma {:induction false} RootIsKin(st: State, next: nat, c: int)
    requires Allotted(st, next) && c in st.tab.types
    ensures var root := st.tab.Resolve(c);
      && root in st.tab.types && st.tab.types[root].p == NONE && root <= c
      && st.tab.types[root].name == st.tab.types[c].name && st.tab.types[root].scope == st.tab.types[c].scope
      && SameSort(st.tab.types[root].body, st.tab.types[c].body)
    decreases c
  {
    assert InShape(st.tab, c);
    if st.tab.types[c].p != NONE {
      RootIsKin(st, next, st.tab.types[c].p);
    }
  }

  lemma CopyAllots(st: State, next: nat, c: int, ptr: int, k: int, st': State, next': nat)
    requires Allotted(st, next) && c in st.tab.types && CopyMade(st, next, c, ptr, k, st', next')
    ensures Allotted(st', next') && next <= next' && st'.members == st.members && st'.tab.conf == st.tab.conf
    ensures IsCopy(st'.tab, k, ptr, st.tab.Resolve(c))
    ensures forall d :: d in st.tab.types ==>
              d in st'.tab.types && st'.tab.types[d] == st.tab.types[d] && st'.tab.Resolve(d) == st.tab.Resolve(d)
    ensures forall d :: d in st'.tab.types && d !in st.tab.types ==> d == k == next
  {
    forall d | d in st.tab.types ensures st'.tab.Resolve(d) == st.tab.Resolve(d) {
      ResolveFrame(st.tab, st'.tab, d);
    }
    forall d | d in st'.tab.types ensures InShape(st'.tab, d) {
      assert InShape(st.tab, c) && (d in st.tab.types ==> InShape(st.tab, d));
    }
  }

  /** Every virtual method has an index. */
  ghost predicate Regular(tab: Table) {
    forall d {:trigger Stored(tab, d)} :: tab.InVtable(d) ==> Stored(tab, d) >= 0
  }

  /** No type was copied twice with the same depth of indirection, as TPTB_add_copy never does. */
  ghost predicate Single(tab: Table)
    requires tab.Copies()
  {
    forall c, d {:trigger tab.types[c], tab.types[d]} ::
      c in tab.types && tab.types[c].p != NONE && IsCopy(tab, d, tab.types[c].ptr, tab.Resolve(c)) ==> c == d
  }

  lemma CopyKeepsSingle(st: State, next: nat, c: int, ptr: int, k: int, st': State, next': nat)
    requires Allotted(st, next) && c in st.tab.types && CopyMade(st, next, c, ptr, k, st', next') && Single(st.tab)
    ensures st'.tab.Copies() && Single(st'.tab)
  {
    CopyAllots(st, next, c, ptr, k, st', next');
    if k !in st.tab.types {
      var root := st.tab.Resolve(c);
      forall a, b | a in st'.tab.types && st'.tab.types[a].p != NONE
                    && IsCopy(st'.tab, b, st'.tab.types[a].ptr, st'.tab.Resolve(a))
        ensures a == b
      {
        assert a in st.tab.types ==> IsCopy(st.tab, a, st.tab.types[a].ptr, st.tab.Resolve(a));
        assert b in st.tab.types ==> IsCopy(st.tab, b, st.tab.types[b].ptr, st.tab.Resolve(b));
        assert !IsCopy(st.tab, a, ptr, root) && !IsCopy(st.tab, b, ptr, root);
      }
    }
  }

  // ---- what stays ----

  lemma KinSort(t: TypeInfo, t': TypeInfo)
    requires SameKin(t, t')
    ensures t.body.Generic? <==> t'.body.Generic?
    ensures t.body.Method? <==> t'.body.Method?
    ensures t.body.Method? ==> t'.body.fId == t.body.fId
  {
  }

  lemma KinTrans(t: TypeInfo, t1: TypeInfo, t2: TypeInfo)
    requires SameKin(t, t1) && SameKin(t1, t2)
    ensures SameKin(t, t2)
  {
  }

  lemma KeptTrans(st: State, next: nat, st1: State, next1: nat, st2: State)
    requires Kept(st, next, st1) && Kept(st1, next1, st2) && next <= next1
    ensures Kept(st, next, st2)
  {
    forall d | d in st.tab.types ensures d in st2.tab.types && SameKin(st.tab.types[d], st2.tab.types[d]) {
      assert d in st1.tab.types;
    }
  }

  lemma KeptRoots(st: State, next: nat, st': State, next': nat)
    requires Allotted(st, next) && Allotted(st', next') && Kept(st, next, st')
    ensures forall d :: d in st.tab.types ==> st'.tab.Resolve(d) == st.tab.Resolve(d)
    ensures forall k, ptr, root {:trigger IsCopy(st.tab, k, ptr, root)} ::
              IsCopy(st.tab, k, ptr, root) ==> IsCopy(st'.tab, k, ptr, root)
    ensures forall k, ptr, root {:trigger IsCopy(st'.tab, k, ptr, root)} ::
              k in st.tab.types && IsCopy(st'.tab, k, ptr, root) ==> IsCopy(st.tab, k, ptr, root)
  {
    assert forall e :: e in st.tab.types ==> SameKin(st.tab.types[e], st'.tab.types[e]);
    forall d | d in st.tab.types ensures st'.tab.Resolve(d) == st.tab.Resolve(d) {
      ResolveFrame(st.tab, st'.tab, d);
    }
  }

  /** The same contents, but for the size. */
  predicate SameButSize(b: Body, b': Body) {
    match b
    case Custom(_, _, _, _, _) => b'.Custom? && b' == b.(size := b'.size)
    case Array(element, _) => b'.Array? && b'.element == element
    case _ => b' == b
  }

  /** An entry keeps its kin, and but for p its place in the vtable and its contents. */
  predicate SameEntry(tab: Table, tab': Table, d: int, p: int)
    requires d in tab.types && d in tab'.types
  {
    var t, t' := tab.types[d], tab'.types[d];
    && SameKin(t, t')
    && (d != p ==>
          && tab'.InVtable(d) == tab.InVtable(d) && Stored(tab', d) == Stored(tab, d)
          && SameButSize(t.body, t'.body))
  }

  /** So it is from st to st'; p is a container, if it is there, and new entries come later. */
  ghost predicate Framed(st: State, next: nat, st': State, p: int) {
    && st'.tab.conf == st.tab.conf
    && (p in st.tab.types ==> st.tab.IsCustom(p))
    && (p in st'.tab.types ==> st'.tab.IsCustom(p) && st'.tab.types[p].p == NONE)
    && (forall d {:trigger d in st.tab.types} :: d in st.tab.types ==>
          d in st'.tab.types && SameEntry(st.tab, st'.tab, d, p))
    && (forall d {:trigger d in st'.tab.types} :: d in st'.tab.types && d !in st.tab.types ==> d >= next)
    && forall q :: q != p ==> st'.Of(q) == st.Of(q)
  }

  /** A new copy is the first of its kind, and a copy of a virtual method has its index. */
  ghost predicate NewCopiesAgree(st: State, st': State)
    requires st.tab.Copies() && st'.tab.Copies()
  {
    forall k {:trigger k in st'.tab.types} :: k in st'.tab.types && k !in st.tab.types && st'.tab.types[k].p != NONE ==>
      var root := st'.tab.Resolve(k);
      && Uncopied(st.tab, st'.tab.types[k].ptr, root)
      && (st.tab.InVtable(root) ==> Stored(st'.tab, k) == Stored(st.tab, root))
  }

  /** All the ids from next on were given to entries. */
  ghost predicate AllGiven(next: nat, st': State, next': nat) {
    forall k {:trigger k in st'.tab.types} :: next <= k < next' ==> k in st'.tab.types
  }

  /** The table grew, and but for the container p nothing that was there changed. */
  ghost predicate Grown(st: State, next: nat, st': State, next': nat, p: int) {
    && Allotted(st, next) && Allotted(st', next') && next <= next' && AllGiven(next, st', next')
    && Framed(st, next, st', p) && NewCopiesAgree(st, st')
    && (Regular(st.tab) ==> Regular(st'.tab))
    && (Single(st.tab) ==> Single(st'.tab))
  }

  lemma FramedKept(st: State, next: nat, st': State, p: int)
    requires Framed(st, next, st', p)
    ensures Kept(st, next, st')
  {
    assert forall e :: e in st.tab.types ==> SameEntry(st.tab, st'.tab, e, p);
  }

  lemma FramedRoots(st: State, next: nat, st': State, next': nat, p: int)
    requires Allotted(st, next) && Allotted(st', next') && Framed(st, next, st', p)
    ensures forall d :: d in st.tab.types ==> st'.tab.Resolve(d) == st.tab.Resolve(d)
    ensures forall k, ptr, root {:trigger IsCopy(st.tab, k, ptr, root)} ::
              IsCopy(st.tab, k, ptr, root) ==> IsCopy(st'.tab, k, ptr, root)
    ensures forall k, ptr, root {:trigger IsCopy(st'.tab, k, ptr, root)} ::
              k in st.tab.types && IsCopy(st'.tab, k, ptr, root) ==> IsCopy(st.tab, k, ptr, root)
  {
    FramedKept(st, next, st', p);
    KeptRoots(st, next, st', next');
  }

  lemma FramedTrans(st: State, next: nat, st1: State, next1: nat, st2: State, p: int)
    requires Framed(st, next, st1, p) && Framed(st1, next1, st2, p) && next <= next1
    requires p in st1.tab.types ==> p in st.tab.types || p >= next
    ensures Framed(st, next, st2, p)
  {
    forall d | d in st.tab.types ensures d in st2.tab.types && SameEntry(st.tab, st2.tab, d, p) {
      assert SameEntry(st.tab, st1.tab, d, p) && SameEntry(st1.tab, st2.tab, d, p);
    }
  }

  lemma AgreeTrans(st: State, next: nat, st1: State, next1: nat, st2: State, next2: nat, p: int)
    requires Grown(st, next, st1, next1, p) && Grown(st1, next1, st2, next2, p)
    ensures NewCopiesAgree(st, st2)
  {
    FramedRoots(st, next, st1, next1, p);
    FramedRoots(st1, next1, st2, next2, p);
    forall k | k in st2.tab.types && k !in st.tab.types && st2.tab.types[k].p != NONE
      ensures Uncopied(st.tab, st2.tab.types[k].ptr, st2.tab.Resolve(k))
      ensures st.tab.InVtable(st2.tab.Resolve(k)) ==> Stored(st2.tab, k) == Stored(st.tab, st2.tab.Resolve(k))
    {
      var root := st2.tab.Resolve(k);
      if root in st.tab.types {
        assert SameEntry(st.tab, st1.tab, root, p);
      }
      if k in st1.tab.types {
        assert SameEntry(st1.tab, st2.tab, k, p);
      }
    }
  }

  lemma GrownTrans(st: State, next: nat, st1: State, next1: nat, st2: State, next2: nat, p: int)
    requires Grown(st, next, st1, next1, p) && Grown(st1, next1, st2, next2, p)
    ensures Grown(st, next, st2, next2, p)
  {
    FramedTrans(st, next, st1, next1, st2, p);
    forall k | next <= k < next2 ensures k in st2.tab.types {
      assert k < next1 ==> k in st1.tab.types;
    }
    AgreeTrans(st, next, st1, next1, st2, next2, p);
  }

  /** Without new copies there is nothing to agree with. */
  lemma PlainlyGrown(st: State, next: nat, st': State, next': nat, p: int)
    requires Allotted(st, next) && Allotted(st', next') && next <= next' && AllGiven(next, st', next')
    requires Framed(st, next, st', p)
    requires forall d :: d in st'.tab.types && d !in st.tab.types ==>
               st'.tab.types[d].p == NONE && (st'.tab.InVtable(d) ==> Stored(st'.tab, d) >= 0)
    ensures Grown(st, next, st', next', p)
  {
    FramedRoots(st, next, st', next', p);
    if Regular(st.tab) {
      forall d | st'.tab.InVtable(d) ensures Stored(st'.tab, d) >= 0 {
        if d in st.tab.types {
          assert SameEntry(st.tab, st'.tab, d, p) && Stored(st.tab, d) == Stored(st'.tab, d);
        }
      }
    }
    if Single(st.tab) {
      forall c, d | c in st'.tab.types && st'.tab.types[c].p != NONE
                    && IsCopy(st'.tab, d, st'.tab.types[c].ptr, st'.tab.Resolve(c))
        ensures c == d
      {
        assert SameEntry(st.tab, st'.tab, c, p);
        assert IsCopy(st.tab, d, st.tab.types[c].ptr, st.tab.Resolve(c));
      }
    }
  }

  lemma CopyFrames(st: State, next: nat, c: int, ptr: int, k: int, st': State, next': nat, p: int)
    requires Allotted(st, next) && c in st.tab.types && CopyMade(st, next, c, ptr, k, st', next')
    requires p in st.tab.types ==> st.tab.IsCustom(p) && st.tab.types[p].p == NONE
    requires p !in st.tab.types ==> p < next
    ensures Framed(st, next, st', p) && AllGiven(next, st', next')
  {
    CopyAllots(st, next, c, ptr, k, st', next');
    hide Allotted;
    hide Uncopied;
    hide IsCopy;
  }

  lemma CopyIsRegular(st: State, next: nat, c: int, ptr: int, k: int, st': State, next': nat)
    requires Allotted(st, next) && c in st.tab.types && CopyMade(st, next, c, ptr, k, st', next') && Regular(st.tab)
    ensures Regular(st'.tab)
  {
    CopyAllots(st, next, c, ptr, k, st', next');
    forall d | st'.tab.InVtable(d) ensures Stored(st'.tab, d) >= 0 {
      assert d in st.tab.types ==> Stored(st.tab, d) >= 0;
      assert st.tab.InVtable(c) ==> Stored(st.tab, c) >= 0;
    }
  }

  lemma CopyAgrees(st: State, next: nat, c: int, ptr: int, k: int, st': State, next': nat)
    requires Allotted(st, next) && c in st.tab.types && CopyMade(st, next, c, ptr, k, st', next')
    requires Allotted(st', next') && (ptr == st.tab.types[c].ptr || !st.tab.IsMethod(c))
    ensures NewCopiesAgree(st, st')
  {
    CopyAllots(st, next, c, ptr, k, st', next');
    RootIsKin(st, next, c);
    assert st.tab.types[c].p != NONE ==> IsCopy(st.tab, c, st.tab.types[c].ptr, st.tab.Resolve(c));
  }

  /** Making a copy is growth. */
  lemma CopyGrows(st: State, next: nat, c: int, ptr: int, k: int, st': State, next': nat, p: int)
    requires Allotted(st, next) && c in st.tab.types && CopyMade(st, next, c, ptr, k, st', next')
    requires p in st.tab.types ==> st.tab.IsCustom(p) && st.tab.types[p].p == NONE
    requires p !in st.tab.types ==> p < next
    requires ptr == st.tab.types[c].ptr || !st.tab.IsMethod(c)
    ensures Grown(st, next, st', next', p)
  {
    CopyAllots(st, next, c, ptr, k, st', next');
    CopyFrames(st, next, c, ptr, k, st', next', p);
    hide Allotted;
    hide CopyMade;
    hide Framed;
    hide AllGiven;
    hide Regular;
    hide Single;
    hide NewCopiesAgree;
    if Single(st.tab) {
      CopyKeepsSingle(st, next, c, ptr, k, st', next');
    }
    CopyAgrees(st, next, c, ptr, k, st', next');
    if Regular(st.tab) {
      CopyIsRegular(st, next, c, ptr, k, st', next');
    }
  }
}
