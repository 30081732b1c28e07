/** Offsets by name: of virtual methods, and of the fields of structs laid out as in C. */
module TypeNames {
  import opened Common
  import opened TypeTable
  import opened TypeMembers
  import opened TypeSlots
  import opened TypeElements
  import opened TypeLimits
  import opened TypeContainers
  import opened TypeSizes

  // ---- virtual methods ----

  /** Member k is a virtual method with a name and an index. */
  predicate NamedMethod(st: State, p: int, k: nat)
    requires st.tab.IsCustom(p)
  {
    && k < |st.Of(p)| && k < |st.Body(p).children| && st.Of(p)[k].name != Unnamed
    && st.tab.InVtable(st.Body(p).children[k]) && Stored(st.tab, st.Body(p).children[k]) != NONE
  }

  lemma {:induction false} MethodFound(tab: Table, ms: seq<Member>, name: Name, align: int, k: nat, i: nat, off: int)
    requires i <= k < |ms| && ms[k].name == name && forall j :: i <= j < k ==> !NameMatches(ms[j], name)
    requires tab.InVtable(ms[k].child) && Stored(tab, ms[k].child) != NONE
    ensures NameOffset(tab, ms, name, align, i, off) == Stored(tab, ms[k].child) * tab.conf.full
    decreases k - i
  {
    hide Align;
    if i < k {
      var c, size := ms[i].child, tab.MemSize(ms[i].child);
      var next := if c !in tab.types || tab.IsMethod(c) || size == NONE then off
                  else if align == NONE then Align(off, size) + size
                  else off + Align(size, align);
      MethodFound(tab, ms, name, align, k, i + 1, next);
    }
  }

  /** A virtual method is found at the place of its index in the vtable. */
  lemma MethodByName(st: State, p: int, k: nat)
    requires Listed(st, p) && st.Body(p).multiple && NamedMethod(st, p, k)
    ensures OffsetOfName(st, p, st.Of(p)[k].name) == Stored(st.tab, st.Body(p).children[k]) * st.tab.conf.full
  {
    hide NameOffset;
    MethodFound(st.tab, st.Of(p), st.Of(p)[k].name, st.Body(p).align, k, 0, st.tab.Prefix(st.Body(p)));
  }

  lemma WordsApart(a: nat, b: nat, n: nat, w: Width)
    requires a < b < n
    ensures 0 <= a * w && a * w + w <= b * w && b * w + w <= n * w
  {
    AtLeastOnce(w, b - a);
    AtLeastOnce(w, n - b);
    assert w * (b - a) == b * w - a * w && w * (n - b) == n * w - b * w;
  }

  /** Virtual methods found by name take a word each of a vtable that has one for every one of them. */
  lemma MethodsByName(st: State, p: int, i: nat, j: nat)
    requires Container(st, p) && st.Body(p).multiple && NamedMethod(st, p, i) && NamedMethod(st, p, j) && i != j
    ensures var a, b := OffsetOfName(st, p, st.Of(p)[i].name), OffsetOfName(st, p, st.Of(p)[j].name);
      var word, table := st.tab.conf.full, Count(st.tab, st.Body(p).children) * st.tab.conf.full;
      && 0 <= a <= table - word && 0 <= b <= table - word
      && (a + word <= b || b + word <= a)
  {
    MethodByName(st, p, i);
    MethodByName(st, p, j);
    hide OffsetOfName;
    var children := st.Body(p).children;
    var a, b := Stored(st.tab, children[i]), Stored(st.tab, children[j]);
    assert a != b by {
      assert i < j || j < i;
    }
    WordsApart(if a < b then a else b, if a < b then b else a, Count(st.tab, children), st.tab.conf.full);
  }

  // ---- what is not there ----

  lemma {:induction false} NameMissing(tab: Table, ms: seq<Member>, name: Name, align: int, i: nat, off: int)
    requires i <= |ms| && forall j :: i <= j < |ms| ==> !NameMatches(ms[j], name)
    ensures NameOffset(tab, ms, name, align, i, off) == NONE
    decreases |ms| - i
  {
    hide Align;
    if i < |ms| {
      var c, size := ms[i].child, tab.MemSize(ms[i].child);
      var next := if c !in tab.types || tab.IsMethod(c) || size == NONE then off
                  else if align == NONE then Align(off, size) + size
                  else off + Align(size, align);
      NameMissing(tab, ms, name, align, i + 1, next);
    }
  }

  /** Under a name that no member of a struct has nothing is found; in a union everything is behind the vtable word, and
      in what is no container at 0. */
  lemma NothingByName(st: State, p: int, name: Name)
    ensures p !in st.tab.types ==> OffsetOfName(st, p, name) == NONE
    ensures p in st.tab.types && !st.tab.IsCustom(p) ==> OffsetOfName(st, p, name) == 0
    ensures st.tab.IsCustom(p) && p in st.members && !st.Body(p).multiple ==>
              OffsetOfName(st, p, name) == if HasVirtual(st.tab, st.Body(p)) then st.tab.conf.full else 0
    ensures st.tab.IsCustom(p) && (p in st.members ==> st.Body(p).multiple) ==>
              (forall m :: m in st.Of(p) ==> !NameMatches(m, name)) ==> OffsetOfName(st, p, name) == NONE
  {
    if st.tab.IsCustom(p) {
      PrefixIsWord(st.tab, st.Body(p));
      if forall m :: m in st.Of(p) ==> !NameMatches(m, name) {
        NameMissing(st.tab, st.Of(p), name, st.Body(p).align, 0, st.tab.Prefix(st.Body(p)));
      }
    }
  }

  // ---- structs laid out as in C ----

  /** The end of the first n children, where each field begins at a multiple of its size. */
  function PackedEnd(tab: Table, prefix: nat, children: seq<int>, n: nat): int
    requires n <= |children|
  {
    if n == 0 then prefix
    else
      var before, c := PackedEnd(tab, prefix, children, n - 1), children[n - 1];
      if tab.IsField(c) then Align(before, tab.MemSize(c)) + tab.MemSize(c) else before
  }

  /** Among the first n children there is none of size 0. */
  predicate NoneEmpty(tab: Table, children: seq<int>, n: nat)
    requires n <= |children|
  {
    forall i :: 0 <= i < n && tab.MemSize(children[i]) <= 0 ==> tab.MemSize(children[i]) == NONE
  }

  lemma AndZero(y: int)
    ensures And(y, 0) == 0
  {
  }

  /** Behind a child of size 0 the search by name begins again at 0. */
  lemma EmptyResets(tab: Table, ms: seq<Member>, name: Name, i: nat, off: int)
    requires i < |ms| && !NameMatches(ms[i], name) && ms[i].child in tab.types && !tab.IsMethod(ms[i].child)
    requires tab.MemSize(ms[i].child) == 0
    ensures NameOffset(tab, ms, name, NONE, i, off) == NameOffset(tab, ms, name, NONE, i + 1, 0)
  {
    AndZero(off - 1);
  }

  lemma {:induction false} PackedAt(tab: Table, ms: seq<Member>, children: seq<int>, prefix: nat, k: nat, i: nat)
    requires Parallel(ms, children) && DistinctNames(ms) && i <= k < |ms| && NoneEmpty(tab, children, k)
    requires ms[k].name != Unnamed && tab.IsField(children[k])
    ensures NameOffset(tab, ms, ms[k].name, NONE, i, PackedEnd(tab, prefix, children, i))
            == Align(PackedEnd(tab, prefix, children, k), tab.MemSize(children[k]))
    decreases k - i
  {
    hide Align;
    if i < k {
      assert ms[i].name != ms[k].name;
      PackedAt(tab, ms, children, prefix, k, i + 1);
    }
  }

  /** A struct laid out as in C. */
  predicate LikeC(st: State, p: int) {
    st.tab.IsCustom(p) && st.Body(p).multiple && st.Body(p).align == NONE
  }

  lemma PackedByName(st: State, p: int, k: nat)
    requires Listed(st, p) && LikeC(st, p) && NamedField(st, p, k) && NoneEmpty(st.tab, st.Body(p).children, k)
    ensures OffsetOfName(st, p, st.Of(p)[k].name)
            == Align(PackedEnd(st.tab, st.tab.Prefix(st.Body(p)), st.Body(p).children, k),
                     st.tab.MemSize(st.Body(p).children[k]))
  {
    hide NameOffset;
    PackedAt(st.tab, st.Of(p), st.Body(p).children, st.tab.Prefix(st.Body(p)), k, 0);
  }

  lemma {:induction false} PackedStays(tab: Table, prefix: nat, children: seq<int>, i: nat, j: nat)
    requires i <= j <= |children| && forall m :: i <= m < j ==> !tab.IsField(children[m])
    ensures PackedEnd(tab, prefix, children, j) == PackedEnd(tab, prefix, children, i)
    decreases j - i
  {
    if i < j {
      PackedStays(tab, prefix, children, i, j - 1);
    }
  }

  /** Fields i and j have no field between them. */
  predicate Adjacent(tab: Table, children: seq<int>, i: nat, j: nat) {
    i < j < |children| && forall m :: i < m < j ==> !tab.IsField(children[m])
  }

  /** The first field begins at the first multiple of its size behind the vtable word, and every other field at the
      first one behind the field in front of it. */
  lemma FieldsLikeC(st: State, p: int, i: nat, j: nat)
    requires Listed(st, p) && LikeC(st, p) && NamedField(st, p, i) && NamedField(st, p, j)
    requires NoneEmpty(st.tab, st.Body(p).children, j) && PowerSizes(st.tab, st.Body(p).children)
    requires Adjacent(st.tab, st.Body(p).children, i, j)
    ensures var a, b := OffsetOfName(st, p, st.Of(p)[i].name), OffsetOfName(st, p, st.Of(p)[j].name);
      var children := st.Body(p).children;
      && Rounded(a + st.tab.MemSize(children[i]), st.tab.MemSize(children[j]), b)
      && ((forall m :: 0 <= m < i ==> !st.tab.IsField(children[m])) ==>
            Rounded(st.tab.Prefix(st.Body(p)), st.tab.MemSize(children[i]), a))
  {
    var children, prefix := st.Body(p).children, st.tab.Prefix(st.Body(p));
    PackedByName(st, p, i);
    PackedByName(st, p, j);
    hide OffsetOfName;
    hide Align;
    PackedStays(st.tab, prefix, children, i + 1, j);
    AlignRoundsUp(PackedEnd(st.tab, prefix, children, j), st.tab.MemSize(children[j]));
    AlignRoundsUp(PackedEnd(st.tab, prefix, children, i), st.tab.MemSize(children[i]));
    if forall m :: 0 <= m < i ==> !st.tab.IsField(children[m]) {
      PackedStays(st.tab, prefix, children, 0, i);
    }
  }

  /** The search for slots goes on where the packed fields end. */
  lemma {:induction false} FieldsPacked(tab: Table, rank: map<int, nat>, bound: nat, b: Body, base: int, n: nat)
    requires tab.Copies() && Ranked(tab, rank) && b.Custom? && n <= |b.children| && b.align == NONE
    requires forall c :: c in b.children && tab.IsField(c) ==> Below(rank, c, bound)
    requires PowerSizes(tab, b.children)
    ensures Fields(tab, rank, bound, b, base, n).1 == PackedEnd(tab, tab.Prefix(b), b.children, n) >= 0
  {
    hide Slots;
    hide Align;
    hide Table.Prefix;
    if n != 0 {
      FieldsPacked(tab, rank, bound, b, base, n - 1);
      var c := b.children[n - 1];
      if tab.IsField(c) {
        AlignRoundsUp(PackedEnd(tab, tab.Prefix(b), b.children, n - 1), tab.MemSize(c));
      }
    }
  }

  lemma LeavesAmongPacked(tab: Table, rank: map<int, nat>, bound: nat, b: Body, base: int, k: nat)
    returns (before: seq<Slot>, after: seq<Slot>)
    requires tab.Copies() && Ranked(tab, rank) && b.Custom? && b.align == NONE && PowerSizes(tab, b.children)
    requires forall c :: c in b.children && tab.IsField(c) ==> Below(rank, c, bound)
    requires k < |b.children| && tab.IsField(b.children[k])
    ensures var at := base + Align(PackedEnd(tab, tab.Prefix(b), b.children, k), tab.MemSize(b.children[k]));
            Fields(tab, rank, bound, b, base, |b.children|).0 == before + Slots(tab, rank, b.children[k], at) + after
  {
    hide Slots;
    hide Align;
    hide Table.Prefix;
    hide PackedEnd;
    hide PowerSizes;
    FieldsPacked(tab, rank, bound, b, base, k);
    FieldsPrefix(tab, rank, bound, b, base, k + 1, |b.children|);
    var all := Fields(tab, rank, bound, b, base, |b.children|).0;
    var upTo := Fields(tab, rank, bound, b, base, k + 1).0;
    before, after := Fields(tab, rank, bound, b, base, k).0, all[|upTo|..];
    assert all == upTo + after;
  }

  /** The slot search comes upon the leaves of such a field where it is found by name, too. */
  lemma LeavesLikeC(st: State, rank: map<int, nat>, p: int, k: nat, base: int)
    returns (before: seq<Slot>, after: seq<Slot>)
    requires Listed(st, p) && LikeC(st, p) && NamedField(st, p, k) && NoneEmpty(st.tab, st.Body(p).children, k)
    requires PowerSizes(st.tab, st.Body(p).children)
    requires st.tab.Copies() && Ranked(st.tab, rank) && st.tab.types[p].ptr == 0 && st.tab.types[p].p == NONE
    ensures var at := base + OffsetOfName(st, p, st.Of(p)[k].name);
            Slots(st.tab, rank, p, base) == before + Slots(st.tab, rank, st.Body(p).children[k], at) + after
  {
    var tab, b := st.tab, st.Body(p);
    assert forall c :: c in b.children && tab.IsField(c) ==> Within(tab, c, p);
    var word := VtableSlot(tab, p, base);
    assert Slots(tab, rank, p, base) == word + Fields(tab, rank, rank[p], b, base, |b.children|).0;
    assert p in rank && k < |b.children|;
    hide Slots;
    hide Listed;
    hide NamedField;
    hide NoneEmpty;
    hide Align;
    hide OffsetOfName;
    hide PackedEnd;
    hide PowerSizes;
    hide Table.Prefix;
    hide Fields;
    hide VtableSlot;
    PackedByName(st, p, k);
    var front, rest := LeavesAmongPacked(tab, rank, rank[p], b, base, k);
    before, after := word + front, rest;
    var leaves := Slots(tab, rank, b.children[k], base + OffsetOfName(st, p, st.Of(p)[k].name));
    assert word + (front + leaves + rest) == (word + front) + leaves + rest;
  }

  // ---- behind a child of size 0 ----

  /** Child e has the size 0, and there is neither a field nor another such child between it and member j. */
  predicate BehindEmpty(tab: Table, children: seq<int>, e: nat, j: nat) {
    && e < j < |children| && children[e] in tab.types && !tab.IsMethod(children[e]) && tab.MemSize(children[e]) == 0
    && forall m :: e < m < j ==> tab.IsMethod(children[m]) || tab.MemSize(children[m]) == NONE
  }

  lemma {:induction false} BackToZero(tab: Table, ms: seq<Member>, children: seq<int>, e: nat, j: nat, i: nat, off: int)
    requires Parallel(ms, children) && DistinctNames(ms) && BehindEmpty(tab, children, e, j) && i <= j
    requires ms[j].name != Unnamed && tab.IsField(children[j]) && (i > e ==> off == 0)
    ensures NameOffset(tab, ms, ms[j].name, NONE, i, off) == Align(0, tab.MemSize(children[j]))
    decreases j - i
  {
    hide Align;
    if i < j {
      var c, size := ms[i].child, tab.MemSize(ms[i].child);
      assert ms[i].name != ms[j].name;
      if i == e {
        EmptyResets(tab, ms, ms[j].name, i, off);
        BackToZero(tab, ms, children, e, j, i + 1, 0);
      } else {
        var next := if c !in tab.types || tab.IsMethod(c) || size == NONE then off else Align(off, size) + size;
        BackToZero(tab, ms, children, e, j, i + 1, next);
      }
    }
  }

  lemma AlignIsZero(x: int, b: int)
    requires PowerOfTwo(b) && x >= 0
    ensures Align(0, b) == 0 && (Align(x, b) == 0 <==> x == 0)
  {
    AlignZero(b);
    AlignRoundsUp(x, b);
  }

  /** A field behind a child of size 0 is found at 0: that is where it lies if and only if nothing takes room in front
      of it. */
  lemma FoundAtZero(st: State, p: int, e: nat, j: nat)
    requires Listed(st, p) && LikeC(st, p) && NamedField(st, p, j) && BehindEmpty(st.tab, st.Body(p).children, e, j)
    requires PowerOfTwo(st.tab.MemSize(st.Body(p).children[j]))
    requires PackedEnd(st.tab, st.tab.Prefix(st.Body(p)), st.Body(p).children, j) >= 0
    ensures OffsetOfName(st, p, st.Of(p)[j].name) == 0
    ensures var b := st.Body(p);
      var end := PackedEnd(st.tab, st.tab.Prefix(b), b.children, j);
      OffsetOfName(st, p, st.Of(p)[j].name) == Align(end, st.tab.MemSize(b.children[j])) <==> end == 0
  {
    hide NameOffset;
    var b := st.Body(p);
    BackToZero(st.tab, st.Of(p), b.children, e, j, 0, st.tab.Prefix(b));
    AlignIsZero(PackedEnd(st.tab, st.tab.Prefix(b), b.children, j), st.tab.MemSize(b.children[j]));
  }
}
