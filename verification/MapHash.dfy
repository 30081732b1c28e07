/** The order-independent hash that std/map.c keeps for whole-map comparison. */
module MapHash {
  import opened Words
  import opened ProbeTable

  /** XOR of the hashes of all used keys and values, slot by slot. */
  function Fold(f: HashFn, t: Table): Word {
    if t == [] then 0 else
      var h, e := Fold(f, t[..|t| - 1]), t[|t| - 1];
      if e.used then Xor(Xor(h, f(e.key)), f(e.value)) else h
  }

  function TableHash(f: HashFn, t: Table, size: nat): Word {
    Xor(Fold(f, t), size)
  }

  /** XOR over the bindings of a map, in some order. */
  ghost function MapFold(f: HashFn, m: map<int, int>): Word {
    if exists k :: k in m then
      var k :| k in m;
      Xor(Xor(MapFold(f, m - {k}), f(k)), f(m[k]))
    else 0
  }

  /** Any binding can be taken out first. */
  lemma {:induction false} MapFoldRemove(f: HashFn, m: map<int, int>, k: int)
    requires k in m
    ensures MapFold(f, m) == Xor(Xor(MapFold(f, m - {k}), f(k)), f(m[k]))
    decreases |m|
  {
    var c :| c in m && MapFold(f, m) == Xor(Xor(MapFold(f, m - {c}), f(c)), f(m[c]));
    if c != k {
      MapFoldRemove(f, m - {c}, k);
      MapFoldRemove(f, m - {k}, c);
      assert m - {c} - {k} == m - {k} - {c};
      XorSwap(MapFold(f, m - {c} - {k}), f(k), f(m[k]), f(c), f(m[c]));
    }
  }

  /** The stored hash depends on the bindings only: capacity, insertion order and removals do not matter. */
  lemma {:induction false} FoldIsContents(f: HashFn, t: Table)
    requires Unique(t)
    ensures Fold(f, t) == MapFold(f, Contents(t))
  {
    if t != [] {
      var n := |t| - 1;
      LastIsNew(t);
      FoldIsContents(f, t[..n]);
      if t[n].used {
        var m := Contents(t);
        MapFoldRemove(f, m, t[n].key);
        assert m - {t[n].key} == Contents(t[..n]);
      }
    }
  }

  lemma {:induction false} FoldUnused(f: HashFn, t: Table)
    requires forall i :: 0 <= i < |t| ==> !t[i].used
    ensures Fold(f, t) == 0
  {
    if t != [] {
      FoldUnused(f, t[..|t| - 1]);
    }
  }

  /** When every key is its own value, as in a set, the entries cancel out. */
  lemma {:induction false} SelfValuedFold(f: HashFn, t: Table)
    requires forall i :: 0 <= i < |t| && t[i].used ==> t[i].value == t[i].key
    ensures Fold(f, t) == 0
  {
    if t != [] {
      var n := |t| - 1;
      SelfValuedFold(f, t[..n]);
      XorSelf(f(t[n].key));
    }
  }

  /** Equal sizes and one inclusion make two maps equal. */
  lemma SameSizeIncluded(a: map<int, int>, b: map<int, int>)
    requires |a| == |b| && forall k :: k in a ==> k in b && b[k] == a[k]
    ensures a == b
  {
    var ka, kb := a.Keys, b.Keys;
    forall k | k in ka ensures k in kb {
      assert k in a;
    }
    assert kb == ka + (kb - ka);
    assert |kb| == |ka| + |kb - ka|;
    assert kb - ka == {};
    forall k | k in b ensures k in a && a[k] == b[k] {
      assert k in kb && k in ka;
    }
    forall k | k in a ensures k in b && b[k] == a[k] {}
    assert a == b;
  }
}
