/** The sets of std/set.c: maps that bind every element to itself. */
module IntSet {
  import opened ProbeTable
  import opened MapHash
  import opened HashMap

  /** Keys of the first n slots. */
  ghost function KeysBefore(t: Table, n: nat): set<int>
    requires n <= |t|
  {
    if n == 0 then {} else KeysBefore(t, n - 1) + if t[n - 1].used then {t[n - 1].key} else {}
  }

  lemma {:induction false} SkipUnused(t: Table, lo: nat, hi: nat)
    requires lo <= hi <= |t| && forall i :: lo <= i < hi ==> !t[i].used
    ensures KeysBefore(t, lo) == KeysBefore(t, hi)
    decreases hi - lo
  {
    if lo < hi {
      SkipUnused(t, lo, hi - 1);
    }
  }

  lemma {:induction false} KeysAreContents(t: Table, n: nat)
    requires n <= |t|
    ensures KeysBefore(t, n) == Contents(t[..n]).Keys
  {
    if n != 0 {
      KeysAreContents(t, n - 1);
      assert t[..n][..n - 1] == t[..n - 1];
    }
  }

  /** map_iter_next: from slot `index` on, the value of the next used slot. */
  method IterNext(m: Map, index: nat) returns (ok: bool, d: int, index': nat)
    requires m.Valid() && index <= m.capacity
    ensures index <= index' <= m.capacity
    ensures ok ==> index < index' && m.entries[index' - 1].used && d == m.entries[index' - 1].value
                   && KeysBefore(m.entries[..], index' - 1) == KeysBefore(m.entries[..], index)
    ensures !ok ==> KeysBefore(m.entries[..], m.capacity) == KeysBefore(m.entries[..], index)
  {
    index' := index;
    while index' < m.capacity && !m.entries[index'].used
      invariant index <= index' <= m.capacity
      invariant forall i :: index <= i < index' ==> !m.entries[i].used
    {
      index' := index' + 1;
    }
    SkipUnused(m.entries[..], index, index');
    if index' >= m.capacity {
      return false, 0, index';
    }
    d := m.entries[index'].value;
    index' := index' + 1;
    return true, d, index';
  }

  class Set {
    const body: Map

    ghost predicate Valid()
      reads this, body, body.entries
    {
      body.Valid() && !body.compr && forall k <- body.Bindings() :: body.Bindings()[k] == k
    }

    ghost function Elements(): set<int>
      reads this, body, body.entries
    {
      body.Bindings().Keys
    }

    /** set_init. */
    constructor (f: HashFn, cmp: bool)
      ensures Valid() && Elements() == {} && fresh(body) && fresh(body.entries) && body.f == f && body.cmp == cmp
    {
      body := new Map(f, cmp);
    }

    /** set_copy. */
    constructor Copy(src: Set)
      requires src.Valid()
      ensures Valid() && Elements() == src.Elements() && fresh(body) && fresh(body.entries)
      ensures body.f == src.body.f && body.cmp == src.body.cmp
    {
      body := new Map.Copy(src.body);
    }

    method Has(x: int) returns (has: bool)
      requires Valid()
      ensures has <==> x in Elements()
    {
      var v;
      has, v := body.Get(x);
    }

    method Size() returns (n: nat)
      requires Valid()
      ensures n == |Elements()|
    {
      CountIsSize(body.entries[..]);
      return body.size;
    }

    /** set_add: false when the element was there already. */
    method Add(x: int) returns (added: bool)
      requires Valid()
      modifies body, body.entries
      ensures Valid() && Elements() == old(Elements()) + {x}
      ensures added <==> x !in old(Elements())
      ensures body.entries == old(body.entries) || fresh(body.entries)
    {
      var has := Has(x);
      if has {
        assert Elements() == old(Elements()) + {x};
        return false;
      }
      ghost var t := body.entries[..];
      assert body.KeyReachable(x) by {
        assert forall i :: 0 <= i < |t| && t[i].used ==> Reachable(body.f, t, i);
      }
      ghost var s;
      added, s := body.Put(x, x);
    }

    /** set_remove. */
    method Remove(x: int) returns (removed: bool)
      requires Valid()
      modifies body, body.entries
      ensures Valid() && Elements() == old(Elements()) - {x}
      ensures removed <==> x in old(Elements())
      ensures body.entries == old(body.entries)
    {
      removed := body.Remove(x);
    }

    /** The stored hash of a comparable set is just its size. */
    lemma HashIsSize()
      requires Valid() && body.cmp
      ensures body.hash == body.size
    {
      var t := body.entries[..];
      ContentsBinds(t);
      forall i | 0 <= i < |t| && t[i].used ensures t[i].value == t[i].key {
        assert t[i].key in body.Bindings();
      }
      SelfValuedFold(body.f, t);
    }
  }

  /** Elements of table t handled so far by a set_foreach loop: those before the current slot, or all. */
  ghost function Handled(t: Table, more: bool, index: nat): set<int>
    requires index <= |t| && (more ==> 0 < index)
  {
    KeysBefore(t, if more then index - 1 else |t|)
  }

  /** data is the element in the slot before index. */
  ghost predicate At(t: Table, more: bool, data: int, index: nat) {
    index <= |t| && (more ==> 0 < index && t[index - 1].used && data == t[index - 1].key)
  }

  /** The head of a set_foreach loop over s. */
  method Step(s: Set, index: nat, ghost t: Table) returns (more: bool, data: int, index': nat)
    requires s.Valid() && t == s.body.entries[..] && index <= |t|
    ensures At(t, more, data, index') && index <= index' && (more ==> index < index')
    ensures Handled(t, more, index') == KeysBefore(t, index)
  {
    more, data, index' := IterNext(s.body, index);
    if more {
      ContentsBinds(t);
      assert t[index' - 1].key in s.body.Bindings();
    }
  }

  lemma AllHandled(t: Table)
    ensures KeysBefore(t, |t|) == Contents(t).Keys && KeysBefore(t, 0) == {}
  {
    KeysAreContents(t, |t|);
    assert t[..|t|] == t;
  }

  /** set_minus_set. */
  method MinusSet(trg: Set, s: Set)
    requires trg.Valid() && s.Valid() && trg.body != s.body && trg.body.entries != s.body.entries
    modifies trg.body, trg.body.entries
    ensures trg.Valid() && trg.Elements() == old(trg.Elements()) - s.Elements()
  {
    ghost var t, e := s.body.entries[..], trg.Elements();
    AllHandled(t);
    var more, data, index := Step(s, 0, t);
    while more
      invariant trg.Valid() && s.body.entries[..] == t && trg.body.entries == old(trg.body.entries)
      invariant At(t, more, data, index)
      invariant trg.Elements() == e - Handled(t, more, index)
      decreases |t| - index, more
    {
      var _ := trg.Remove(data);
      more, data, index := Step(s, index, t);
    }
  }

  /** Adds the elements of b to dst: the loop of set_union. */
  method AddAll(dst: Set, b: Set)
    requires dst.Valid() && b.Valid() && dst.body != b.body && dst.body.entries != b.body.entries
    modifies dst.body, dst.body.entries
    ensures dst.Valid() && dst.Elements() == old(dst.Elements()) + b.Elements()
  {
    ghost var t, e := b.body.entries[..], dst.Elements();
    AllHandled(t);
    var more, data, index := Step(b, 0, t);
    while more
      invariant dst.Valid() && b.Valid() && b.body.entries[..] == t
      invariant dst.body.entries == old(dst.body.entries) || fresh(dst.body.entries)
      invariant dst.body.entries != b.body.entries
      invariant At(t, more, data, index)
      invariant dst.Elements() == e + Handled(t, more, index)
      decreases |t| - index, more
    {
      var _ := dst.Add(data);
      more, data, index := Step(b, index, t);
    }
  }

  /** set_union: a fresh set. */
  method Union(a: Set, b: Set) returns (dst: Set)
    requires a.Valid() && b.Valid()
    ensures dst.Valid() && fresh(dst) && dst.Elements() == a.Elements() + b.Elements()
  {
    dst := new Set.Copy(a);
    AddAll(dst, b);
  }

  lemma Distribute(e: set<int>, h: set<int>, x: int, c: set<int>)
    ensures e + h * c + {x} * c == e + (h + {x}) * c
  {
  }

  /** The body of the loop of set_intersect. */
  method AddIfIn(dst: Set, b: Set, x: int)
    requires dst.Valid() && b.Valid() && dst.body != b.body && dst.body.entries != b.body.entries
    modifies dst.body, dst.body.entries
    ensures dst.Valid() && dst.Elements() == old(dst.Elements()) + {x} * b.Elements()
    ensures dst.body.entries == old(dst.body.entries) || fresh(dst.body.entries)
  {
    var has := b.Has(x);
    if has {
      var _ := dst.Add(x);
    }
  }

  /** set_intersect: adds the common elements of a and b to dst. */
  method Intersect(dst: Set, a: Set, b: Set)
    requires dst.Valid() && a.Valid() && b.Valid()
    requires dst.body != a.body && dst.body.entries != a.body.entries && dst.body != b.body
    requires dst.body.entries != b.body.entries
    modifies dst.body, dst.body.entries
    ensures dst.Valid() && dst.Elements() == old(dst.Elements()) + a.Elements() * b.Elements()
  {
    ghost var t, e, c := a.body.entries[..], dst.Elements(), b.Elements();
    AllHandled(t);
    var more, data, index := Step(a, 0, t);
    while more
      invariant dst.Valid() && a.body.entries[..] == t && b.Elements() == c
      invariant dst.body.entries == old(dst.body.entries) || fresh(dst.body.entries)
      invariant At(t, more, data, index)
      invariant dst.Elements() == e + Handled(t, more, index) * c
      decreases |t| - index, more
    {
      Distribute(e, KeysBefore(t, index - 1), data, c);
      AddIfIn(dst, b, data);
      more, data, index := Step(a, index, t);
    }
  }

  /** The loop of set_subset: are all elements of b in a? */
  method AllIn(a: Set, b: Set) returns (isSubset: bool)
    requires a.Valid() && b.Valid()
    ensures isSubset <==> b.Elements() <= a.Elements()
  {
    ghost var t, e := b.body.entries[..], a.Elements();
    AllHandled(t);
    isSubset := true;
    var more, data, index := Step(b, 0, t);
    while more
      invariant At(t, more, data, index)
      invariant isSubset && Handled(t, more, index) <= e
      decreases |t| - index, more
    {
      var has := a.Has(data);
      isSubset := isSubset && has;
      if !isSubset {
        ContentsBinds(t);
        assert data in b.Elements();
        break;
      }
      more, data, index := Step(b, index, t);
    }
  }

  lemma ProperSubset(a: set<int>, b: set<int>)
    requires b <= a
    ensures |a| > |b| <==> b < a
  {
    assert a == b + (a - b);
    assert |a| == |b| + |a - b|;
  }

  /** set_subset: true exactly when b is a PROPER subset of a. */
  method Subset(a: Set, b: Set) returns (r: bool)
    requires a.Valid() && b.Valid()
    ensures r <==> b.Elements() < a.Elements()
  {
    var isSubset := AllIn(a, b);
    var na := a.Size();
    var nb := b.Size();
    if isSubset {
      ProperSubset(a.Elements(), b.Elements());
    }
    return na > nb && isSubset;
  }

  lemma SameKeys(m: map<int, int>, m': map<int, int>)
    requires (forall k <- m :: m[k] == k) && (forall k <- m' :: m'[k] == k)
    ensures m.Keys == m'.Keys <==> m == m'
  {
    if m.Keys == m'.Keys {
      forall k | k in m ensures k in m' && m'[k] == m[k] {
        assert k in m.Keys && k in m'.Keys;
      }
      forall k | k in m' ensures k in m {
        assert k in m'.Keys && k in m.Keys;
      }
      assert m == m';
    }
  }

  /** set_equal: although the hashes of equally large sets agree, it is extensional equality. */
  method Equal(a: Set, b: Set) returns (eq: bool)
    requires a.Valid() && b.Valid() && a.body.f == b.body.f
    ensures eq <==> a.body.cmp && b.body.cmp && a.Elements() == b.Elements()
  {
    eq := Equals(a.body, b.body);
    SameKeys(a.body.Bindings(), b.body.Bindings());
  }
}
