/** Containers under construction, src/symtab/typetb.c: members by name, layout, and the numbering of virtual
    methods. */
module TypeMembers {
  import opened Common
  import opened TypeTable

  datatype Member = Member(child: int, name: Name)

  /** typetab_ctx_t as a value. */
  datatype State = State(tab: Table, members: map<int, seq<Member>>) {

    function Of(p: int): seq<Member> {
      if p in members then members[p] else []
    }

    function Body(id: int): Body
      requires id in tab.types
    {
      tab.types[id].body
    }
  }

  // ---- members ----

  /** _member_name_equals: no name at all matches everything. */
  predicate NameMatches(m: Member, name: Name) {
    name == Unnamed || m.name == name
  }

  predicate Matches(m: Member, c: int, name: Name) {
    (c == NONE || m.child == c) && NameMatches(m, name)
  }

  /** The position of the first match from k on, or the length. */
  function First(ms: seq<Member>, c: int, name: Name, k: nat): (r: nat)
    requires k <= |ms|
    ensures k <= r <= |ms|
    ensures r < |ms| ==> Matches(ms[r], c, name)
    ensures forall i :: k <= i < r ==> !Matches(ms[i], c, name)
    decreases |ms| - k
  {
    if k == |ms| || Matches(ms[k], c, name) then k else First(ms, c, name, k + 1)
  }

  // ---- vtable numbering ----

  /** _next_vtable_index over the first n children. */
  function Next(tab: Table, children: seq<int>, n: nat): nat
    requires n <= |children|
  {
    if n == 0 then 0 else
    var before := Next(tab, children, n - 1);
    if !tab.InVtable(children[n - 1]) then before else
    var index := tab.Index(children[n - 1], before);
    if index >= before then index + 1 else before
  }

  /** _get_child_vtable_index */
  function ChildIndex(tab: Table, children: seq<int>, target: int): int {
    var k := IndexOf(children, target, 0);
    if k < |children| && tab.InVtable(target) then tab.Index(target, tab.Fallback(children, k)) else NONE
  }

  // ---- transitions ----

  function WithBody(tab: Table, id: int, b: Body): Table
    requires id in tab.types
  {
    tab.(types := tab.types[id := tab.types[id].(body := b)])
  }

  /** _recalculate_custom_layout */
  function Relaid(tab: Table, id: int): Table {
    if tab.IsCustom(id)
    then WithBody(tab, id, tab.types[id].body.(size := tab.LayoutSize(tab.types[id].body)))
    else tab
  }

  /** _set_type_size */
  function Sized(b: Body, size: int): Body {
    match b
    case Custom(_, align, multiple, vtable, children) => Custom(size, align, multiple, vtable, children)
    case Array(element, _) => Array(element, size)
    case _ => b
  }

  /** TPTB_set_as_vtable_method, for a resolved container. */
  function Virtual(st: State, p: int, id: int, name: Name): State {
    if !st.tab.IsCustom(p) || !st.tab.IsMethod(id) then st
    else
      var ms, children := st.Of(p), st.Body(p).children;
      var k := First(ms, NONE, if name == Unnamed then st.tab.types[id].name else name, 0);
      var inherited := if k < |ms| then ChildIndex(st.tab, children, ms[k].child) else NONE;
      var index := if inherited == NONE then Next(st.tab, children, |children|) else inherited;
      st.(tab := WithBody(st.tab, id, st.Body(id).(inVtable := true, index := index)))
  }

  /** TPTB_add_as_child, for a resolved container: the answer and the new state. */
  function Added(st: State, p: int, c: int, name: Name, size: int): (bool, State) {
    if p == c || p !in st.tab.types || c !in st.tab.types || !st.tab.IsCustom(p) then (false, st)
    else
      var ms, children := st.Of(p), st.Body(p).children;
      var k := if name == Unnamed then |ms| else First(ms, NONE, name, 0);
      if k < |ms| then
        if st.tab.InVtable(ms[k].child) && st.tab.InVtable(c) then
          var old_ := ms[k].child;
          var tab := WithBody(st.tab, c, st.Body(c).(index := st.Body(old_).index));
          var members := st.members[p := ms[k := ms[k].(child := c)]];
          var i := IndexOf(children, old_, 0);
          if i == |children| then (false, State(tab, members))
          else (true, State(Relaid(WithBody(tab, p, tab.types[p].body.(children := children[i := c])), p), members))
        else (true, st)
      else
        var tab := WithBody(st.tab, p, st.Body(p).(children := children + [c]));
        var tab' := if size != NONE && tab.types[c].ptr == 0 then WithBody(tab, c, Sized(tab.types[c].body, size))
                    else tab;
        (true, State(Relaid(tab', p), st.members[p := ms + [Member(c, name)]]))
  }

  // ---- what a container keeps ----

  function Stored(tab: Table, id: int): int {
    if tab.InVtable(id) then tab.types[id].body.index else NONE
  }

  function Count(tab: Table, children: seq<int>): nat {
    tab.Fallback(children, |children|)
  }

  ghost predicate Holds(tab: Table, children: seq<int>, v: int) {
    exists i :: 0 <= i < |children| && tab.InVtable(children[i]) && Stored(tab, children[i]) == v
  }

  /** The virtual methods carry the indices 0 to n - 1, each once. */
  ghost predicate Numbered(tab: Table, children: seq<int>) {
    && (forall i :: 0 <= i < |children| && tab.InVtable(children[i]) ==>
          0 <= Stored(tab, children[i]) < Count(tab, children))
    && (forall i, j :: 0 <= i < j < |children| && tab.InVtable(children[i]) && tab.InVtable(children[j]) ==>
          Stored(tab, children[i]) != Stored(tab, children[j]))
    && forall v {:trigger Holds(tab, children, v)} :: 0 <= v < Count(tab, children) ==> Holds(tab, children, v)
  }

  lemma HoldsAppends(tab: Table, children: seq<int>, c: int, v: int)
    ensures Holds(tab, children + [c], v) <==> Holds(tab, children, v) || (tab.InVtable(c) && Stored(tab, c) == v)
  {
    var more := children + [c];
    if tab.InVtable(c) && Stored(tab, c) == v {
      assert more[|children|] == c;
    }
    if i :| 0 <= i < |children| && tab.InVtable(children[i]) && Stored(tab, children[i]) == v {
      assert more[i] == children[i];
    }
  }

  lemma {:induction false} FallbackPrefix(tab: Table, a: seq<int>, b: seq<int>, n: nat)
    requires n <= |a| <= |b| && a == b[..|a|]
    ensures tab.Fallback(a, n) == tab.Fallback(b, n)
  {
    if n > 0 {
      FallbackPrefix(tab, a, b, n - 1);
    }
  }

  /** A method keeps the numbering just when it carries the next free index. */
  lemma AppendNumbered(tab: Table, children: seq<int>, c: int)
    requires Numbered(tab, children)
    ensures Numbered(tab, children + [c]) <==> (tab.InVtable(c) ==> Stored(tab, c) == Count(tab, children))
  {
    var more := children + [c];
    var n := Count(tab, children);
    FallbackPrefix(tab, children, more, |children|);
    assert Count(tab, more) == n + if tab.InVtable(c) then 1 else 0;
    forall v ensures Holds(tab, more, v) <==> Holds(tab, children, v) || (tab.InVtable(c) && Stored(tab, c) == v) {
      HoldsAppends(tab, children, c, v);
    }
    assert more[|children|] == c;
    if tab.InVtable(c) && 0 <= Stored(tab, c) < n {
      assert Holds(tab, children, Stored(tab, c));
      var i :| 0 <= i < |children| && tab.InVtable(children[i]) && Stored(tab, children[i]) == Stored(tab, c);
      assert more[i] == children[i];
    }
  }

  /** Nothing the numbering looks at differs between two tables. */
  ghost predicate SameMethods(tab: Table, tab': Table, children: seq<int>) {
    forall i :: 0 <= i < |children| ==>
      && tab.InVtable(children[i]) == tab'.InVtable(children[i])
      && Stored(tab, children[i]) == Stored(tab', children[i])
  }

  lemma {:induction false} SameCount(tab: Table, tab': Table, children: seq<int>, n: nat)
    requires SameMethods(tab, tab', children) && n <= |children|
    ensures tab.Fallback(children, n) == tab'.Fallback(children, n)
  {
    if n > 0 {
      SameCount(tab, tab', children, n - 1);
    }
  }

  lemma NumberedFrame(tab: Table, tab': Table, children: seq<int>)
    requires SameMethods(tab, tab', children) && Numbered(tab, children)
    ensures Numbered(tab', children) && Count(tab', children) == Count(tab, children)
  {
    SameCount(tab, tab', children, |children|);
    forall v | 0 <= v < Count(tab, children) ensures Holds(tab', children, v) {
      assert Holds(tab, children, v);
      var i :| 0 <= i < |children| && tab.InVtable(children[i]) && Stored(tab, children[i]) == v;
      assert tab'.InVtable(children[i]) && Stored(tab', children[i]) == v;
    }
  }

  lemma {:induction false} ReplaceCount(tab: Table, children: seq<int>, k: nat, c: int, n: nat)
    requires k < |children| && n <= |children| && tab.InVtable(children[k]) && tab.InVtable(c)
    ensures tab.Fallback(children[k := c], n) == tab.Fallback(children, n)
  {
    if n > 0 {
      ReplaceCount(tab, children, k, c, n - 1);
    }
  }

  /** An override that takes over the index of the method it replaces keeps the numbering. */
  lemma ReplaceNumbered(tab: Table, children: seq<int>, k: nat, c: int)
    requires Numbered(tab, children) && k < |children|
    requires tab.InVtable(children[k]) && tab.InVtable(c) && Stored(tab, c) == Stored(tab, children[k])
    ensures Numbered(tab, children[k := c]) && Count(tab, children[k := c]) == Count(tab, children)
  {
    var new_ := children[k := c];
    ReplaceCount(tab, children, k, c, |children|);
    forall v | 0 <= v < Count(tab, children) ensures Holds(tab, new_, v) {
      assert Holds(tab, children, v);
      var i :| 0 <= i < |children| && tab.InVtable(children[i]) && Stored(tab, children[i]) == v;
      assert tab.InVtable(new_[i]) && Stored(tab, new_[i]) == v;
    }
  }

  lemma {:induction false} ReindexedCount(tab: Table, tab': Table, children: seq<int>, c: int, n: nat)
    requires n <= |children| && tab.InVtable(c) && tab'.InVtable(c)
    requires forall i :: 0 <= i < |children| && children[i] != c ==>
               tab'.InVtable(children[i]) == tab.InVtable(children[i])
    ensures tab.Fallback(children, n) == tab'.Fallback(children, n)
  {
    if n > 0 {
      ReindexedCount(tab, tab', children, c, n - 1);
    }
  }

  /** The index of one method of a numbered container changes: the numbering is lost unless it changes to itself. */
  lemma ReindexedNumbered(tab: Table, tab': Table, children: seq<int>, k: nat)
    requires Numbered(tab, children) && k < |children| && tab.InVtable(children[k]) && tab'.InVtable(children[k])
    requires forall i :: 0 <= i < |children| && children[i] != children[k] ==>
               tab'.InVtable(children[i]) == tab.InVtable(children[i]) &&
               Stored(tab', children[i]) == Stored(tab, children[i])
    ensures Numbered(tab', children) <==> Stored(tab', children[k]) == Stored(tab, children[k])
  {
    var c, u := children[k], Stored(tab, children[k]);
    if Stored(tab', c) == u {
      assert SameMethods(tab, tab', children);
      NumberedFrame(tab, tab', children);
    }
    if Numbered(tab', children) {
      ReindexedCount(tab, tab', children, c, |children|);
      assert Holds(tab', children, u);
      var i :| 0 <= i < |children| && tab'.InVtable(children[i]) && Stored(tab', children[i]) == u;
      assert children[i] != c ==> Stored(tab, children[i]) == u;
    }
  }

  // ---- methods without an index ----

  /** How many virtual methods there are among the first n children. */
  lemma {:induction false} FallbackCounts(tab: Table, children: seq<int>, n: nat)
    requires n <= |children|
    ensures tab.Fallback(children, n) == |set i | 0 <= i < n && tab.InVtable(children[i])|
  {
    var s := set i | 0 <= i < n && tab.InVtable(children[i]);
    if n == 0 {
      assert s == {};
    } else {
      FallbackCounts(tab, children, n - 1);
      var before := set i | 0 <= i < n - 1 && tab.InVtable(children[i]);
      assert s == before + if tab.InVtable(children[n - 1]) then {n - 1} else {};
    }
  }

  /** A virtual child is found with the index it carries, or if it has none with the number of virtual methods before
      it; nothing else is found. */
  lemma IndexOfChild(tab: Table, children: seq<int>, target: int, k: nat)
    requires k <= |children| && (k < |children| ==> children[k] == target)
    requires forall i :: 0 <= i < k ==> children[i] != target
    ensures ChildIndex(tab, children, target)
            == if k == |children| || !tab.InVtable(target) then NONE
               else if Stored(tab, target) != NONE then Stored(tab, target)
               else |set i | 0 <= i < k && tab.InVtable(children[i])|
  {
    FallbackCounts(tab, children, k);
    assert IndexOf(children, target, 0) == k;
  }

  /** Where no method carries an index, they are numbered in their order. */
  lemma {:induction false} Unindexed(tab: Table, children: seq<int>, n: nat)
    requires n <= |children| && forall i :: 0 <= i < n && tab.InVtable(children[i]) ==> Stored(tab, children[i]) == NONE
    ensures Next(tab, children, n) == tab.Slots(children, n) == |set i | 0 <= i < n && tab.InVtable(children[i])|
  {
    FallbackCounts(tab, children, n);
    if n > 0 {
      Unindexed(tab, children, n - 1);
      FallbackCounts(tab, children, n - 1);
    }
  }

  // ---- the next index ----

  lemma {:induction false} NextBounds(tab: Table, children: seq<int>, n: nat, bound: nat)
    requires n <= |children|
    requires forall i :: 0 <= i < n && tab.InVtable(children[i]) ==> 0 <= Stored(tab, children[i]) < bound
    ensures Next(tab, children, n) <= bound && tab.Slots(children, n) <= bound
    ensures forall i :: 0 <= i < n && tab.InVtable(children[i]) ==> Stored(tab, children[i]) < Next(tab, children, n)
    ensures forall i :: 0 <= i < n && tab.InVtable(children[i]) ==> Stored(tab, children[i]) < tab.Slots(children, n)
  {
    if n > 0 {
      NextBounds(tab, children, n - 1, bound);
    }
  }

  /** Where every method carries an index, the length of the vtable and the next index are one more than the highest. */
  lemma {:induction false} HighestIndex(tab: Table, children: seq<int>, n: nat) returns (i: nat)
    requires n <= |children| && forall j :: 0 <= j < n && tab.InVtable(children[j]) ==> Stored(tab, children[j]) >= 0
    ensures Next(tab, children, n) == tab.Slots(children, n)
    ensures forall j :: 0 <= j < n && tab.InVtable(children[j]) ==> Stored(tab, children[j]) < tab.Slots(children, n)
    ensures if i < n then tab.InVtable(children[i]) && Stored(tab, children[i]) == tab.Slots(children, n) - 1
            else tab.Slots(children, n) == 0
  {
    i := n;
    if n > 0 {
      i := HighestIndex(tab, children, n - 1);
      if tab.InVtable(children[n - 1]) && Stored(tab, children[n - 1]) >= tab.Slots(children, n - 1) {
        i := n - 1;
      } else if i == n - 1 {
        i := n;
      }
    }
  }

  /** In a numbered container the next index is the number of methods, and so is the length of the vtable. */
  lemma NextIsCount(tab: Table, children: seq<int>)
    requires Numbered(tab, children)
    ensures Next(tab, children, |children|) == tab.Slots(children, |children|) == Count(tab, children)
  {
    var n := Count(tab, children);
    NextBounds(tab, children, |children|, n);
    if n > 0 {
      assert Holds(tab, children, n - 1);
    }
  }
}
