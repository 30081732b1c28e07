/** The type table of src/symtab/typetb.c as an object. */
module TypeTab {
  import opened Common
  import opened TypeTable
  import opened TypeMembers
  import opened TypeContainers
  import opened TypeCopies
  import opened TypeRuns
  import opened TypeBodies
  import opened TypeSizes
  import opened TypeInherit
  import opened TypeFamilies
  import opened TypeDefinitions
  import opened TypeDesigners
  import opened TypeFind

  lemma NotEmpty(s: set<int>)
    ensures s != {} <==> exists d :: d in s
  {
    if forall d :: d !in s {
      assert s == {};
    }
  }

  class TypeTab {
    const conf: Conf
    var types: map<int, TypeInfo>
    var members: map<int, seq<Member>>
    var nextId: nat

    constructor (conf: Conf)
      ensures this.conf == conf && types == map[] && members == map[] && nextId == 0
    {
      this.conf := conf;
      types, members, nextId := map[], map[], 0;
    }

    function Tab(): Table
      reads `types
    {
      Table(types, conf)
    }

    function St(): State
      reads `types, `members
    {
      State(Tab(), members)
    }

    /** TPTB_get_info, without the entry it copies out; the order of the walk through the table is left open. */
    method GetInfo(name: Name, scope: int, ptr: int) returns (found: bool)
      ensures found <==> exists d :: Refers(Tab(), d, name, scope, ptr)
    {
      var rest := types.Keys;
      while rest != {}
        invariant rest <= types.Keys
        invariant forall d :: d !in rest ==> !Refers(Tab(), d, name, scope, ptr)
        decreases |rest|
      {
        NotEmpty(rest);
        var d :| d in rest;
        if Refers(Tab(), d, name, scope, ptr) {
          return true;
        }
        rest := rest - {d};
      }
      found := false;
    }

    /** A new entry of the table. */
    method AddInfo(name: Name, scope: int, ptr: int, b: Body) returns (id: int)
      modifies `types, `nextId
      ensures id == old(nextId) && nextId == old(nextId) + 1
      ensures types == old(types)[id := TypeInfo(NONE, ptr, name, scope, b)]
    {
      id := nextId;
      nextId := nextId + 1;
      types := types[id := TypeInfo(NONE, ptr, name, scope, b)];
    }

    /** _get_existing_copy; the order of the walk through the table is left open. */
    method ExistingCopy(id: int, ptr: int) returns (k: int)
      requires Tab().Copies()
      ensures k == NONE ==> forall d :: !IsCopy(Tab(), d, ptr, Tab().Resolve(id))
      ensures k != NONE ==> IsCopy(Tab(), k, ptr, Tab().Resolve(id))
    {
      var root := ResolveParent(Tab(), id);
      var rest := types.Keys;
      while rest != {}
        invariant rest <= types.Keys
        invariant forall d :: d !in rest ==> !IsCopy(Tab(), d, ptr, root)
        decreases |rest|
      {
        NotEmpty(rest);
        var d :| d in rest;
        var r := ResolveParent(Tab(), d);
        if types[d].ptr == ptr && r == root && types[d].p != NONE {
          return d;
        }
        rest := rest - {d};
      }
      k := NONE;
    }

    /** TPTB_add_copy */
    method AddCopy(id: int, ptr: int) returns (k: int)
      requires Tab().Copies()
      modifies `types, `nextId
      ensures CopyAnswered(old(St()), old(nextId), id, ptr, k, St(), nextId)
      ensures id in old(types) && !old(types)[id].body.Generic? ==>
                CopySized(old(Tab()), id, ptr, k, Tab(), nextId != old(nextId))
    {
      if id !in types {
        return NONE;
      }
      if types[id].body.Generic? {
        return id;
      }
      ghost var st := St();
      k := ExistingCopy(id, ptr);
      assert Tab() == st.tab;
      if k != NONE {
        assert IsCopy(st.tab, k, ptr, st.tab.Resolve(id));
        return;
      }
      assert Uncopied(st.tab, ptr, st.tab.Resolve(id));
      k := nextId;
      nextId := nextId + 1;
      types := types[k := TypeInfo(id, ptr, types[id].name, types[id].scope, CopiedBody(types[id].body))];
    }

    /** _find_member_info in the members of a resolved container: the position of the first match. */
    method FindMember(p: int, c: int, name: Name) returns (k: nat)
      ensures k == First(St().Of(p), c, name, 0)
    {
      if p !in members {
        return 0;
      }
      var ms := members[p];
      k := 0;
      while k < |ms|
        invariant k <= |ms| && First(ms, c, name, 0) == First(ms, c, name, k)
      {
        if c != NONE && ms[k].child != c {
          k := k + 1;
          continue;
        }
        if !(name == Unnamed || ms[k].name == name) {
          k := k + 1;
          continue;
        }
        return;
      }
    }

    /** _find_member_info without a container; the order of the walk through the table is left open. */
    method FindMemberAnywhere(c: int, name: Name) returns (found: bool, p: int, k: nat)
      ensures found <==> exists q :: q in members && First(members[q], c, name, 0) < |members[q]|
      ensures found ==> p in members && k == First(members[p], c, name, 0) < |members[p]|
    {
      var rest := members.Keys;
      found, p, k := false, NONE, 0;
      while rest != {}
        invariant rest <= members.Keys && !found
        invariant forall q :: q in members && q !in rest ==> First(members[q], c, name, 0) == |members[q]|
        decreases |rest|
      {
        NotEmpty(rest);
        p :| p in rest;
        k := FindMember(p, c, name);
        if k < |members[p]| {
          found := true;
          return;
        }
        rest := rest - {p};
      }
    }

    method RecalculateLayout(id: int)
      requires Tab().IsCustom(id) ==> id !in types[id].body.children
      modifies `types
      ensures Tab() == Relaid(old(Tab()), id)
    {
      if id !in types || !types[id].body.Custom? {
        return;
      }
      var b := types[id].body;
      var slots := VtableSlotCount(Tab(), b);
      var vtableSize := if slots != 0 then conf.full else 0;
      var size := 0;
      var k := 0;
      while k < |b.children|
        invariant 0 <= k <= |b.children|
        invariant size == Tab().Extent(b, k)
      {
        var c := b.children[k];
        k := k + 1;
        if c !in types {
          continue;
        }
        if types[c].body.Method? {
          continue;
        }
        var fieldSize := Tab().MemSize(c);
        if fieldSize <= 0 {
          continue;
        }
        if !b.multiple {
          var padded := Align(fieldSize, b.align);
          size := if size > padded then size else padded;
        } else if b.align != NONE {
          size := size + Align(fieldSize, b.align);
        } else {
          size := size + Align(fieldSize, fieldSize);
        }
      }
      types := types[id := types[id].(body := b.(size := size + vtableSize))];
    }

    method GetChildVtableIndex(p: int, target: int) returns (index: int)
      requires Tab().IsCustom(p)
      ensures index == ChildIndex(Tab(), types[p].body.children, target)
    {
      var children := types[p].body.children;
      ghost var at := IndexOf(children, target, 0);
      var fallback: nat := 0;
      var k := 0;
      while k < |children|
        invariant 0 <= k <= |children|
        invariant fallback == Tab().Fallback(children, k)
        invariant k <= at || !Tab().InVtable(target)
      {
        var c := children[k];
        if !(c in types && types[c].body.Method? && types[c].body.inVtable) {
          k := k + 1;
          continue;
        }
        var vtableIndex := types[c].body.index;
        if vtableIndex == NONE {
          vtableIndex := fallback;
        }
        if c == target {
          return vtableIndex;
        }
        fallback := fallback + 1;
        k := k + 1;
      }
      index := NONE;
    }

    method NextVtableIndex(p: int) returns (next: nat)
      requires Tab().IsCustom(p)
      ensures next == Next(Tab(), types[p].body.children, |types[p].body.children|)
    {
      var children := types[p].body.children;
      next := 0;
      var k := 0;
      while k < |children|
        invariant 0 <= k <= |children| && next == Next(Tab(), children, k)
      {
        var c := children[k];
        k := k + 1;
        if !(c in types && types[c].body.Method? && types[c].body.inVtable) {
          continue;
        }
        var vtableIndex := types[c].body.index;
        if vtableIndex == NONE {
          vtableIndex := next;
        }
        if vtableIndex >= next {
          next := vtableIndex + 1;
        }
      }
    }

    /** TPTB_set_as_vtable_method: answers the child that bears the name already. */
    method SetAsVtableMethod(pId: int, id: int, name: Name) returns (inherited: int)
      requires Tab().Copies()
      modifies `types
      ensures St() == Virtual(old(St()), old(Tab()).Resolve(pId), id, name)
      ensures var st, p := old(St()), old(Tab()).Resolve(pId);
        st.tab.IsCustom(p) && st.tab.IsMethod(id) ==>
          var k := First(st.Of(p), NONE, if name == Unnamed then st.tab.types[id].name else name, 0);
          inherited == if k < |st.Of(p)| then st.Of(p)[k].child else NONE
    {
      var p := ResolveParent(Tab(), pId);
      if p !in types || id !in types || !types[p].body.Custom? || !types[id].body.Method? {
        return NONE;
      }
      var vtableIndex := NONE;
      inherited := NONE;
      var k := FindMember(p, NONE, if name == Unnamed then types[id].name else name);
      if p in members && k < |members[p]| {
        inherited := members[p][k].child;
        vtableIndex := GetChildVtableIndex(p, inherited);
      }
      if vtableIndex == NONE {
        vtableIndex := NextVtableIndex(p);
      }
      types := types[id := types[id].(body := types[id].body.(inVtable := true, index := vtableIndex))];
    }

    /** TPTB_enable_vtable: the container keeps its members, its kind and its numbering, its size is current, and grew
        by the vtable word if that is new. */
    method EnableVtable(id: int) returns (ok: bool)
      requires Tab().IsCustom(id) ==> id !in types[id].body.children
      modifies `types
      ensures ok == old(Tab()).IsCustom(id)
      ensures St() == if ok then Enabled(old(St()), id) else old(St())
      ensures ok && old(Listed(St(), id)) ==>
                Listed(St(), id) && Current(Tab(), id) && View(St(), id) == old(View(St(), id))
      ensures ok && old(Struct(St(), id)) ==> Struct(St(), id)
      ensures ok && old(Container(St(), id)) ==> Container(St(), id)
      ensures ok && old(Listed(St(), id) && Current(Tab(), id)) ==>
                types[id].body.size - Tab().Prefix(types[id].body)
                == old(types[id].body.size - Tab().Prefix(types[id].body))
    {
      if Listed(St(), id) {
        EnabledKeeps(St(), id);
      }
      if id !in types || !types[id].body.Custom? {
        return false;
      }
      types := types[id := types[id].(body := types[id].body.(vtable := true))];
      RecalculateLayout(id);
      return true;
    }

    /** list_replace: the first node with that value. */
    method ListReplace(s: seq<int>, prev: int, curr: int) returns (r: seq<int>, ok: bool)
      ensures var i := IndexOf(s, prev, 0); ok == (i < |s|) && r == if ok then s[i := curr] else s
    {
      r, ok := s, false;
      var k := 0;
      while k < |s|
        invariant k <= |s| && IndexOf(s, prev, 0) == IndexOf(s, prev, k) && r == s && !ok
      {
        if s[k] == prev {
          return s[k := curr], true;
        }
        k := k + 1;
      }
    }

    /** The branch of TPTB_add_as_child for a name that is taken. */
    method Replace(p: int, c: int, k: nat, name: Name) returns (ok: bool)
      requires Tab().IsCustom(p) && c in types && p != c && p !in types[p].body.children
      requires name != Unnamed && k == First(St().Of(p), NONE, name, 0) < |St().Of(p)|
      modifies `types, `members
      ensures (ok, St()) == Added(old(St()), p, c, name, NONE)
    {
      ghost var st := St();
      var oldId := members[p][k].child;
      if oldId in types && types[oldId].body.Method? && types[c].body.Method?
         && types[oldId].body.inVtable && types[c].body.inVtable {
        types := types[c := types[c].(body := types[c].body.(index := types[oldId].body.index))];
        members := members[p := members[p][k := members[p][k].(child := c)]];
        var children, found := ListReplace(types[p].body.children, oldId, c);
        if !found {
          return false;
        }
        types := types[p := types[p].(body := types[p].body.(children := children))];
        RecalculateLayout(p);
        return true;
      }
      return true;
    }

    /** TPTB_add_as_child */
    method AddAsChild(pId: int, c: int, name: Name, size: int) returns (ok: bool)
      requires Tab().Copies()
      requires var p := Tab().Resolve(pId); Tab().IsCustom(p) ==> p !in types[p].body.children
      modifies `types, `members
      ensures pId == NONE ==> !ok && St() == old(St())
      ensures pId != NONE ==> (ok, St()) == Added(old(St()), old(Tab()).Resolve(pId), c, name, size)
    {
      if pId == NONE {
        return false;
      }
      var p := ResolveParent(Tab(), pId);
      if p == c || p !in types || c !in types {
        return false;
      }
      if !types[p].body.Custom? {
        return false;
      }
      var ms := if p in members then members[p] else [];
      var k := |ms|;
      if name != Unnamed {
        k := FindMember(p, NONE, name);
      }
      if k < |ms| {
        ok := Replace(p, c, k, name);
        return;
      }
      members := members[p := ms + [Member(c, name)]];
      types := types[p := types[p].(body := types[p].body.(children := types[p].body.children + [c]))];
      if size != NONE && types[c].ptr == 0 {
        types := types[c := types[c].(body := Sized(types[c].body, size))];
      }
      RecalculateLayout(p);
      return true;
    }

    /** TPTB_get_child_offset_name */
    method GetChildOffsetName(pId: int, name: Name) returns (offset: int)
      requires Tab().Copies()
      ensures offset == OffsetOfName(St(), Tab().Resolve(pId), name)
    {
      var p := ResolveParent(Tab(), pId);
      if p !in types {
        return NONE;
      }
      if !types[p].body.Custom? {
        return 0;
      }
      if p !in members {
        return NONE;
      }
      var b := types[p].body;
      var slots := VtableSlotCount(Tab(), b);
      offset := if slots != 0 then conf.full else 0;
      if !b.multiple {
        return;
      }
      var ms := members[p];
      var k := 0;
      while k < |ms|
        invariant 0 <= k <= |ms|
        invariant NameOffset(Tab(), ms, name, b.align, k, offset) == OffsetOfName(St(), p, name)
      {
        var c := ms[k].child;
        var named := name == Unnamed || ms[k].name == name;
        k := k + 1;
        if c !in types {
          continue;
        }
        if types[c].body.Method? {
          if types[c].body.inVtable && types[c].body.index != NONE && named {
            return types[c].body.index * conf.full;
          }
          continue;
        }
        var size := Tab().MemSize(c);
        if size == NONE {
          continue;
        }
        if b.align == NONE {
          offset := Align(offset, size);
          if named {
            return;
          }
          offset := offset + size;
        } else {
          if named {
            return;
          }
          offset := offset + Align(size, b.align);
        }
      }
      offset := NONE;
    }

    /** TPTB_get_vtable_index */
    method GetVtableIndex(p: int, f: int) returns (index: int)
      ensures index == LinkedIndex(Tab(), p, f)
    {
      if p in types && types[p].body.Custom? {
        var children := types[p].body.children;
        var fallback: nat := 0;
        var k := 0;
        while k < |children|
          invariant 0 <= k <= |children|
          invariant fallback == Tab().Fallback(children, k)
          invariant FirstLinked(Tab(), children, f, 0) == FirstLinked(Tab(), children, f, k)
        {
          var c := children[k];
          if c in types && types[c].body.Method? && types[c].body.inVtable {
            var vtableIndex := types[c].body.index;
            if vtableIndex == NONE {
              vtableIndex := fallback;
            }
            if types[c].body.fId == f {
              return vtableIndex;
            }
            fallback := fallback + 1;
          }
          k := k + 1;
        }
      }
      index := NONE;
    }

    // ---- runs ----

    ghost predicate Allotted()
      reads `types, `nextId, `members
    {
      TypeCopies.Allotted(St(), nextId)
    }

    /** A container whose children were handed out by this table. */
    ghost predicate Holds(p: int)
      reads `types, `nextId, `members
    {
      Held(St(), nextId, p)
    }

    /** TPTB_add_info for a container: it has no children yet, and NONE is answered if the name is known. */
    method NewContainer(d: Definition) returns (id: int)
      requires Allotted()
      modifies `types, `nextId
      ensures id == Answer(old(St()), old(nextId), d)
      ensures id == NONE ==> St() == old(St()) && nextId == old(nextId)
      ensures id != NONE ==>
                && St() == Entered(old(St()), id, ContainerOf(d)) && nextId == id + 1
                && Allotted() && Holds(id) && Container(St(), id) && View(St(), id) == []
                && Current(Tab(), id)
    {
      var known := GetInfo(d.name, d.scope, 0);
      if known {
        return NONE;
      }
      ContainerEntered(St(), nextId, d);
      id := AddInfo(d.name, d.scope, 0, Custom(0, d.align, d.multiple, d.vtable, []));
    }

    /** A new method for a container that gets a vtable. */
    method NewMethod(p: int, scope: int, text: string, f: int) returns (c: int)
      requires Tab().IsCustom(p) && p !in types[p].body.children
      modifies `types, `nextId
      ensures c == old(nextId) && nextId == old(nextId) + 1
      ensures St() == WithMethod(Enabled(old(St()), p), c, scope, text, f)
    {
      var _ := EnableVtable(p);
      c := AddInfo(Named(text), scope, 0, Method(f, false, NONE));
    }

    /** A virtual method in the body of a container. */
    method DeclareVirtual(p: int, scope: int, text: string, f: int)
      requires Allotted() && Holds(p)
      modifies `types, `members, `nextId
      ensures St() == NewlyVirtual(old(St()), p, old(nextId), scope, text, f) && nextId == old(nextId) + 1
    {
      ReadyToAdd(St(), p, nextId, scope, text, f);
      hide Enabled;
      hide WithMethod;
      hide Virtual;
      hide Added;
      hide Listed;
      hide Held;
      hide Indexed;
      hide TypeCopies.Allotted;
      hide Table.Copies;
      hide Table.Resolve;
      var c := NewMethod(p, scope, text, f);
      var _ := SetAsVtableMethod(p, c, Named(text));
      var _ := AddAsChild(p, c, Named(text), NONE);
    }

    /** A variable in the body of a container: a copy of its type is added. */
    method DeclareVariable(p: int, ds: seq<Declaration>, k: nat, ghost st0: State, ghost id0: nat,
                           ghost os: seq<Outcome>)
        returns (ghost o: Outcome)
      requires k < |ds| && ds[k].Variable? && Reached(st0, id0, St(), nextId, p, ds, os, k)
      modifies `types, `members, `nextId
      ensures Reached(st0, id0, St(), nextId, p, ds, os + [o], k + 1)
      ensures VariableGrew(old(St()), St(), p, ds[k])
    {
      hide Reached;
      hide Held;
      hide TypeCopies.Allotted;
      ghost var st, id := St(), nextId;
      ReachedIsHeld(st0, id0, st, id, p, ds, os, k);
      HeldIsReady(st, id, p);
      hide CopyAnswered;
      hide Added;
      hide Table.Copies;
      hide Table.Resolve;
      var copy := AddCopy(ds[k].base, ds[k].ptr);
      var size := if ds[k].ptr != 0 then conf.full else NONE;
      VariableReaches(st0, id0, st, id, p, ds, os, k, copy, St(), nextId, size);
      o := VariableOutcome(copy, ds[k].name);
      ReachedGrows(st0, id0, st, id, p, ds, os, k, copy, St(), nextId, size);
      var _ := AddAsChild(p, copy, ds[k].name, size);
    }

    method DeclareExisting(p: int, ds: seq<Declaration>, k: nat, ghost st0: State, ghost id0: nat,
                           ghost os: seq<Outcome>)
        returns (ghost o: Outcome)
      requires k < |ds| && ds[k].Existing? && JoinOnce(st0.tab, ds)
      requires Reached(st0, id0, St(), nextId, p, ds, os, k)
      modifies `types, `members, `nextId
      ensures Reached(st0, id0, St(), nextId, p, ds, os + [o], k + 1)
    {
      hide Reached;
      hide Held;
      hide TypeCopies.Allotted;
      ghost var st, id := St(), nextId;
      ReachedIsHeld(st0, id0, st, id, p, ds, os, k);
      HeldIsReady(st, id, p);
      hide JoinOnce;
      hide Added;
      hide Table.Copies;
      hide Table.Resolve;
      ExistingReaches(st0, id0, st, id, p, ds, os, k);
      o := ExistingOutcome(st.tab, ds[k].child, ds[k].name);
      var _ := AddAsChild(p, ds[k].child, ds[k].name, ds[k].size);
    }

    method DeclareMethod(p: int, ds: seq<Declaration>, k: nat, ghost st0: State, ghost id0: nat,
                         ghost os: seq<Outcome>)
        returns (ghost o: Outcome)
      requires k < |ds| && ds[k].NewVirtual? && Reached(st0, id0, St(), nextId, p, ds, os, k)
      modifies `types, `members, `nextId
      ensures Reached(st0, id0, St(), nextId, p, ds, os + [o], k + 1)
    {
      hide Reached;
      hide NewlyVirtual;
      hide Held;
      hide TypeCopies.Allotted;
      ghost var st, id := St(), nextId;
      ReachedIsHeld(st0, id0, st, id, p, ds, os, k);
      VirtualReaches(st0, id0, st, id, p, ds, os, k);
      o := Fresh(id, ds[k].text);
      DeclareVirtual(p, ds[k].scope, ds[k].text, ds[k].f);
    }

    method DeclareOne(p: int, ds: seq<Declaration>, k: nat, ghost st0: State, ghost id0: nat, ghost os: seq<Outcome>)
        returns (ghost o: Outcome)
      requires k < |ds| && JoinOnce(st0.tab, ds) && Reached(st0, id0, St(), nextId, p, ds, os, k)
      modifies `types, `members, `nextId
      ensures Reached(st0, id0, St(), nextId, p, ds, os + [o], k + 1)
    {
      hide Reached;
      match ds[k]
      case Existing(_, _, _) => o := DeclareExisting(p, ds, k, st0, id0, os);
      case Variable(_, _, _) => o := DeclareVariable(p, ds, k, st0, id0, os);
      case NewVirtual(_, _, _) => o := DeclareMethod(p, ds, k, st0, id0, os);
    }

    /** Any sequence of declarations leaves exactly the entries of the reference run. The layout is as it was, with a
        vtable if there is a new method, and a current size stays current. If no virtual method comes from elsewhere the
        methods stay numbered and the rest of the table stays as it is. */
    method DeclareBody(p: int, ds: seq<Declaration>) returns (ghost os: seq<Outcome>)
      requires Allotted() && Holds(p)
      requires JoinOnce(Tab(), ds) && forall d :: d in ds ==> MayJoin(St(), p, d)
      modifies `types, `members, `nextId
      ensures Allotted() && Holds(p) && old(nextId) <= nextId && |os| == |ds|
      ensures Kept(old(St()), old(nextId), St()) && AllBrought(old(St()), St(), os) && RestStays(old(St()), St(), p, ds)
      ensures AllComeTo(old(St()), St(), ds, os) && View(St(), p) == DeclareAll(old(View(St(), p)), os)
      ensures CopiesMeasured(old(St()), St(), p, ds)
      ensures Laid(old(St()), St(), p, AnyFresh(os))
      ensures NothingInherited(old(Tab()), ds) ==>
                && Grown(old(St()), old(nextId), St(), nextId, p)
                && (old(Container(St(), p)) ==> Container(St(), p))
    {
      ghost var st0, id0 := St(), nextId;
      Begun(st0, id0, p, ds);
      Ended(st0, id0, p, ds);
      hide Reached;
      var k := 0;
      os := [];
      while k < |ds|
        invariant 0 <= k <= |ds| && Reached(st0, id0, St(), nextId, p, ds, os, k)
      {
        ghost var o := DeclareOne(p, ds, k, st0, id0, os);
        k, os := k + 1, os + [o];
      }
    }

    // ---- inheritance ----

    /** A virtual method of the base is copied, and the copy added under the same name. */
    method InheritCopy(p: int, c: int, name: Name, ghost base: int, ghost i: nat, ghost st0: State, ghost next0: nat)
      requires TypeCopies.Allotted(st0, next0) && Held(st0, next0, p) && p != base && p != NONE
      requires Heritable(st0, base) && Regular(st0.tab) && Tab().Copies()
      requires Inheriting(st0, next0, St(), nextId, p, base, i) && i < |View(st0, base)|
      requires View(st0, base)[i].child == c && View(st0, base)[i].name == name && View(st0, base)[i].slot != NONE
      requires Tab().IsMethod(c) && c != p
      modifies `types, `members, `nextId
      ensures Inheriting(st0, next0, St(), nextId, p, base, i + 1)
    {
      assert p in st0.tab.types;
      hide Heritable;
      hide Regular;
      hide Inheriting;
      hide TypeCopies.Allotted;
      hide Held;
      hide View;
      hide CopyMade;
      hide Added;
      hide Table.Copies;
      hide Table.Resolve;
      ghost var st, next := St(), nextId;
      var copy := AddCopy(c, types[c].ptr);
      InheritReaches(st0, next0, st, next, p, base, i, copy, St(), nextId);
      var _ := AddAsChild(p, copy, name, NONE);
    }

    /** One child of the base: a virtual method is taken over. */
    method InheritOne(p: int, base: int, i: nat, ghost st0: State, ghost next0: nat)
      requires TypeCopies.Allotted(st0, next0) && Held(st0, next0, p) && Held(st0, next0, base) && p != base
      requires Heritable(st0, base) && Regular(st0.tab)
      requires Inheriting(st0, next0, St(), nextId, p, base, i) && i < |View(st0, base)|
      modifies `types, `members, `nextId
      ensures Inheriting(st0, next0, St(), nextId, p, base, i + 1)
    {
      ghost var st, next := St(), nextId;
      NextChild(st0, next0, st, next, p, base, i);
      hide Heritable;
      hide Regular;
      hide Inheriting;
      hide TypeCopies.Allotted;
      hide Held;
      hide View;
      hide Table.Copies;
      var c := types[base].body.children[i];
      if c !in types || !types[c].body.Method? || !types[c].body.inVtable {
        PassedOver(st0, next0, st, next, p, base, i);
        return;
      }
      var k := FindMember(base, c, Unnamed);
      InheritCopy(p, c, members[base][k].name, base, i, st0, next0);
    }

    /** The container gets a vtable if the base has one. */
    method InheritVtable(p: int, base: int)
      requires Allotted() && Holds(p) && Holds(base) && View(St(), p) == [] && Regular(Tab())
      modifies `types
      ensures Inheriting(old(St()), nextId, St(), nextId, p, base, 0)
    {
      ghost var st := St();
      ReadyToInherit(st, nextId, p, base);
      InheritBegins(st, nextId, p, base);
      hide Inheriting;
      hide Enabled;
      if types[base].body.vtable {
        var _ := EnableVtable(p);
      }
    }

    /** The same for a base that is a container. */
    method InheritAll(p: int, base: int)
      requires Allotted() && Holds(p) && View(St(), p) == [] && Regular(Tab())
      requires Tab().IsCustom(base) && p != base && Holds(base) && Heritable(St(), base)
      modifies `types, `members, `nextId
      ensures Inherits(old(St()), old(nextId), St(), nextId, p, base)
    {
      ghost var st0, next0 := St(), nextId;
      ReadyToInherit(st0, next0, p, base);
      hide Inheriting;
      hide Inherits;
      hide Heritable;
      hide Regular;
      hide View;
      hide TypeCopies.Allotted;
      hide Held;
      InheritEnds(st0, next0, p, base);
      var n, i := |types[base].body.children|, 0;
      InheritVtable(p, base);
      while i < n
        invariant 0 <= i <= n == |View(st0, base)| && Inheriting(st0, next0, St(), nextId, p, base, i)
      {
        InheritOne(p, base, i, st0, next0);
        i := i + 1;
      }
    }

    /** What cpl_parse_contdef does for one base: if it is a container, every virtual method of it is taken over. */
    method InheritFrom(p: int, base: int)
      requires Allotted() && Holds(p) && View(St(), p) == [] && Regular(Tab())
      requires Tab().IsCustom(base) ==> p != base && Holds(base) && Heritable(St(), base)
      modifies `types, `members, `nextId
      ensures Inherits(old(St()), old(nextId), St(), nextId, p, base)
    {
      if base in types && types[base].body.Custom? {
        InheritAll(p, base);
      } else {
        InheritsNothing(St(), nextId, p, base);
      }
    }

    // ---- definitions ----

    /** A child of the base of a container that was refused: a virtual method is copied, and the copy finds no container
        to be added to. */
    method InheritNothing(base: int, i: nat, ghost st0: State, ghost next0: nat, ghost ws: seq<Wanted>)
      requires Held(st0, next0, base) && i < |View(st0, base)| && OnlyCopied(st0, next0, St(), nextId, ws)
      requires ws == MethodsWanted(st0.tab, Virtuals(View(st0, base)[..i]))
      modifies `types, `members, `nextId
      ensures OnlyCopied(st0, next0, St(), nextId, MethodsWanted(st0.tab, Virtuals(View(st0, base)[..i + 1])))
    {
      ghost var st, next := St(), nextId;
      MethodWanted(st0, next0, st, next, base, i, ws);
      hide OnlyCopied;
      hide Held;
      hide View;
      hide Virtuals;
      hide MethodsWanted;
      hide Table.Copies;
      var c := types[base].body.children[i];
      if c !in types || !types[c].body.Method? || !types[c].body.inVtable {
        return;
      }
      var k := FindMember(base, c, Unnamed);
      var name := members[base][k].name;
      var copy := AddCopy(c, types[c].ptr);
      WantedCopied(st0, next0, st, next, ws, Wanted(c, st.tab.types[c].ptr), copy, St(), nextId);
      var _ := AddAsChild(NONE, copy, name, NONE);
    }

    /** cpl_parse_contdef for a base, when the container was refused. */
    method InheritNowhere(base: int)
      requires Allotted() && (Tab().IsCustom(base) ==> Holds(base))
      modifies `types, `members, `nextId
      ensures OnlyCopied(old(St()), old(nextId), St(), nextId, MethodsWanted(old(Tab()), Inherited(old(St()), base)))
    {
      ghost var st0, next0 := St(), nextId;
      NothingCopied(st0, next0);
      assert MethodsWanted(st0.tab, []) == [];
      if base !in types || !types[base].body.Custom? {
        return;
      }
      if types[base].body.vtable {
        var _ := EnableVtable(NONE);
      }
      var n, i := |types[base].body.children|, 0;
      ghost var es := View(st0, base);
      assert es[..0] == [] && es[..n] == es;
      hide OnlyCopied;
      hide View;
      while i < n
        invariant 0 <= i <= n == |es|
        invariant OnlyCopied(st0, next0, St(), nextId, MethodsWanted(st0.tab, Virtuals(es[..i])))
      {
        InheritNothing(base, i, st0, next0, MethodsWanted(st0.tab, Virtuals(es[..i])));
        i := i + 1;
      }
    }

    /** A declaration in the body of a container that was refused: the type of a variable is copied, and nothing is
        added. */
    method DeclareNothing(d: Declaration, ghost st0: State, ghost next0: nat, ghost ws: seq<Wanted>)
      requires OnlyCopied(st0, next0, St(), nextId, ws) && MayDeclare(st0.tab, NONE, d)
      modifies `types, `members, `nextId
      ensures OnlyCopied(st0, next0, St(), nextId, ws + TypeWanted(st0.tab, d))
    {
      ghost var st, next := St(), nextId;
      match d
      case Existing(c, name, size) =>
        assert ws + [] == ws;
        var _ := AddAsChild(NONE, c, name, size);
      case Variable(b, ptr, name) =>
        var copy := AddCopy(b, ptr);
        TypeCopied(st0, next0, st, next, ws, d, copy, St(), nextId);
        var _ := AddAsChild(NONE, copy, name, if ptr != 0 then conf.full else NONE);
      case NewVirtual(_, _, _) =>
        assert ws + [] == ws;
    }

    /** The body of a container that was refused. */
    method DeclareNowhere(ds: seq<Declaration>, ghost st0: State, ghost next0: nat, ghost ws: seq<Wanted>)
      requires OnlyCopied(st0, next0, St(), nextId, ws) && OwnOnly(st0.tab, NONE, ds)
      modifies `types, `members, `nextId
      ensures OnlyCopied(st0, next0, St(), nextId, ws + TypesWanted(st0.tab, ds))
    {
      hide OnlyCopied;
      var k := 0;
      assert ds[..0] == [] && ws + [] == ws && ds[..|ds|] == ds;
      while k < |ds|
        invariant 0 <= k <= |ds| && OnlyCopied(st0, next0, St(), nextId, ws + TypesWanted(st0.tab, ds[..k]))
      {
        assert MayDeclare(st0.tab, NONE, ds[k]);
        DeclareNothing(ds[k], st0, next0, ws + TypesWanted(st0.tab, ds[..k]));
        TypeWantedNext(st0.tab, ds, k);
        assert ws + TypesWanted(st0.tab, ds[..k + 1])
            == ws + TypesWanted(st0.tab, ds[..k]) + TypeWanted(st0.tab, ds[k]);
        k := k + 1;
      }
    }

    /** What follows the name of a container that was refused. */
    method DefineNowhere(d: Definition, ghost family: set<int>)
      requires Allotted() && OwnOnly(Tab(), NONE, d.body(NONE)) && (Tab().IsCustom(d.base) ==> Holds(d.base))
      modifies `types, `members, `nextId
      ensures Refuses(old(St()), old(nextId), d, St(), nextId, family)
    {
      ghost var st, next := St(), nextId;
      hide OnlyCopied;
      InheritNowhere(d.base);
      DeclareNowhere(d.body(NONE), st, next, MethodsWanted(st.tab, Inherited(st, d.base)));
      Refused(st, next, d, St(), nextId, family);
    }

    /** What follows the name of a new container p. */
    method DefineNew(p: int, d: Definition, ghost st0: State, ghost family: set<int>)
        returns (ghost inherited: seq<Entry>, ghost os: seq<Outcome>)
      requires p >= 0 && TypeCopies.Allotted(st0, p) && Regular(st0.tab) && OwnOnly(st0.tab, p, d.body(p))
      requires d.base != p && (st0.tab.IsCustom(d.base) ==> Held(st0, p, d.base) && Heritable(st0, d.base))
      requires St() == Entered(st0, p, ContainerOf(d)) && nextId == p + 1 && Allotted() && Holds(p)
      requires View(St(), p) == [] && Current(Tab(), p)
      modifies `types, `members, `nextId
      ensures Defines(st0, St(), nextId, d, p, inherited, os, family)
    {
      HeldIsCustom();
      hide Heritable;
      hide Regular;
      hide Listed;
      hide Indexed;
      hide View;
      hide Current;
      hide Container;
      hide Grown;
      hide SameSort;
      ghost var st1 := St();
      SameBase(st0, p, d);
      ContainerEntered(st0, p, d);
      InheritFrom(p, d.base);
      inherited := View(St(), p);
      ghost var st2, next2 := St(), nextId;
      OwnReady(st0, st2, p, d.body(p));
      os := DeclareBody(p, d.body(p));
      Defined(st0, st1, st2, next2, St(), nextId, p, d, os, family);
    }

    ghost function Now(): Moment
      reads `types, `members, `nextId
    {
      Moment(St(), nextId)
    }

    /** cpl_parse_contdef for a container with one base or none, whose body adds fields and virtual methods of its
        own. */
    method DefineContainer(d: Definition, ghost family: set<int>) returns (p: int)
      requires Allotted() && Regular(Tab()) && (d.base == NONE || d.base in types)
      requires Tab().IsCustom(d.base) ==> Holds(d.base) && Heritable(St(), d.base)
      requires var p := Answer(St(), nextId, d); OwnOnly(Tab(), p, d.body(p))
      modifies `types, `members, `nextId
      ensures Made(old(Now()), d, p, Now(), family)
    {
      ghost var st0 := St();
      hide Heritable;
      hide Regular;
      hide OwnOnly;
      hide Defines;
      hide Refuses;
      hide Known;
      hide Held;
      p := NewContainer(d);
      if p == NONE {
        DefineNowhere(d, family);
      } else {
        ghost var inherited, os := DefineNew(p, d, st0, family);
      }
    }

    /** n definitions of containers, each with a base that was made before or none: at the end every container has every
        virtual method of its base, under the same name in the same slot, however deep the inheritance and whatever
        overrides what. */
    method DefineAll(designer: Designer, n: nat) returns (ids: seq<int>, ghost trace: seq<Moment>)
      requires Family(St(), nextId, {})
      requires forall s: seq<int>, t: seq<Moment> :: |s| < n && MadeAll(designer, s, t) && t[0] == Now() ==>
                 MayDefine(t[|s|], s, designer(s))
      modifies `types, `members, `nextId
      ensures |ids| == n && MadeAll(designer, ids, trace) && trace[0] == old(Now()) && trace[n] == Now()
      ensures Family(St(), nextId, Containers(ids)) && AllShareSlots(St(), designer, ids)
    {
      ids, trace := [], [Now()];
      while |ids| < n
        invariant |ids| <= n && MadeAll(designer, ids, trace) && trace[0] == old(Now()) && trace[|ids|] == Now()
        invariant Family(St(), nextId, Containers(ids)) && AllShareSlots(St(), designer, ids)
      {
        var d := designer(ids);
        assert MayDefine(Now(), ids, d);
        ghost var m := Now();
        assert d.base in Containers(ids) ==> Fit(m.st, m.next, d.base);
        var p := DefineContainer(d, Containers(ids));
        MadeMore(designer, ids, trace, p, Now());
        ShareOneMore(m, Now(), designer, ids, p);
        ids, trace := ids + [p], trace + [Now()];
      }
    }

    /** A client: records under new names that differ, each with a field of the type defined before and a pointer to
        itself. All of them are made. */
    method DefineRecords(names: nat -> string, scope: int, n: nat) returns (ids: seq<int>)
      requires Family(St(), nextId, {})
      requires forall i :: 0 <= i < n ==> !InUse(Tab(), Named(names(i)), scope)
      requires forall i: nat, j: nat :: i < j < n ==> names(i) != names(j)
      modifies `types, `members, `nextId
      ensures |ids| == n && forall i :: 0 <= i < n ==> ids[i] != NONE && Tab().IsCustom(ids[i])
    {
      ghost var trace;
      forall s: seq<int>, t: seq<Moment> | |s| < n && MadeAll(Records(names, scope), s, t) && t[0] == Now()
        ensures MayDefine(t[|s|], s, Records(names, scope)(s))
      {
        RecordsAreProper(names, scope, s, t);
      }
      ids, trace := DefineAll(Records(names, scope), n);
      RecordsAreMade(names, scope, ids, trace);
      AnswersStay(Records(names, scope), ids, trace);
    }
  }
}
