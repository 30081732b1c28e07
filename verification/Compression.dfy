/** The in-place permutation that map_compress applies to a table. */
module Compression {
  import opened ProbeTable

  /** A compressed table stores every key in the slot of that number. */
  ghost predicate Direct(t: Table) {
    forall i :: 0 <= i < |t| && t[i].used ==> t[i].key == i
  }

  ghost predicate KeysInRange(t: Table) {
    forall i :: 0 <= i < |t| && t[i].used ==> 0 <= t[i].key < |t|
  }

  predicate InPlace(t: Table, i: nat)
    requires i < |t|
  {
    !t[i].used || t[i].key == i
  }

  /** Number of used entries outside their own slot. */
  function Misplaced(t: Table): nat {
    if t == [] then 0 else Misplaced(t[..|t| - 1]) + if InPlace(t, |t| - 1) then 0 else 1
  }

  lemma {:induction false} MisplacedUpdate(t: Table, s: nat, e: Entry)
    requires s < |t|
    ensures Misplaced(t[s := e]) ==
            Misplaced(t) - (if InPlace(t, s) then 0 else 1) + (if InPlace(t[s := e], s) then 0 else 1)
  {
    var t', n := t[s := e], |t| - 1;
    if s == n {
      assert t'[..n] == t[..n];
    } else {
      assert t'[..n] == t[..n][s := e];
      MisplacedUpdate(t[..n], s, e);
    }
  }

  /** The entries of slots i and k change places. */
  function Swap(t: Table, i: nat, k: nat): (t': Table)
    requires i < |t| && k < |t|
    ensures |t'| == |t|
  {
    t[i := t[k]][k := t[i]]
  }

  function SwapIndex(i: nat, k: nat, j: nat): nat {
    if j == i then k else if j == k then i else j
  }

  /** Swapping any two slots keeps the map. */
  lemma SwapKeeps(t: Table, i: nat, k: nat)
    requires Unique(t) && i < |t| && k < |t| && i != k
    ensures Unique(Swap(t, i, k)) && Contents(Swap(t, i, k)) == Contents(t)
  {
    var t' := Swap(t, i, k);
    forall x, y | 0 <= x < y < |t'| ensures Distinct(t', x, y) {
      assert t'[x] == t[SwapIndex(i, k, x)] && t'[y] == t[SwapIndex(i, k, y)];
      DistinctEither(t, SwapIndex(i, k, x), SwapIndex(i, k, y));
    }
    ContentsBinds(t);
    forall j | 0 <= j < |t'| ensures t'[j] == t[SwapIndex(i, k, j)] {}
    forall x | x in Contents(t) ensures exists j :: 0 <= j < |t'| && t'[j].used && t'[j].key == x {
      var j :| 0 <= j < |t| && t[j].used && t[j].key == x;
      assert t'[SwapIndex(i, k, j)] == t[j];
    }
    BindsOne(t', Contents(t));
  }

  lemma SwapCounts(t: Table, i: nat, k: nat)
    requires i < |t| && k < |t| && i != k
    ensures UsedCount(Swap(t, i, k)) == UsedCount(t)
  {
    CountUpdate(t, i, t[k]);
    CountUpdate(t[i := t[k]], k, t[i]);
  }

  lemma SwapMisplaced(t: Table, i: nat, k: nat)
    requires i < |t| && k < |t| && i != k
    requires !InPlace(t, i) && t[i].key == k && (t[k].used ==> t[k].key != k)
    ensures Misplaced(Swap(t, i, k)) < Misplaced(t)
  {
    var t1 := t[i := t[k]];
    MisplacedUpdate(t, i, t[k]);
    MisplacedUpdate(t1, k, t[i]);
  }

  /** Swapping a misplaced entry into its own slot loses nothing and leaves fewer entries misplaced. */
  lemma SwapHome(t: Table, i: nat)
    requires Unique(t) && KeysInRange(t) && i < |t| && !InPlace(t, i)
    ensures var t' := Swap(t, i, t[i].key);
      Unique(t') && KeysInRange(t') && Contents(t') == Contents(t) && UsedCount(t') == UsedCount(t) &&
      Misplaced(t') < Misplaced(t) && forall j :: 0 <= j < |t| && j != i && InPlace(t, j) ==> InPlace(t', j)
  {
    var k := t[i].key;
    SwapKeeps(t, i, k);
    DistinctEither(t, i, k);
    SwapCounts(t, i, k);
    SwapMisplaced(t, i, k);
  }

  lemma DirectUnique(t: Table)
    requires Direct(t)
    ensures Unique(t)
    ensures forall k :: k in Contents(t) <==> 0 <= k < |t| && t[k].used
    ensures forall k :: k in Contents(t) ==> Contents(t)[k] == t[k].value
  {
    ContentsBinds(t);
  }

  lemma DirectStore(t: Table, k: nat, v: int)
    requires Direct(t) && k < |t|
    ensures Direct(t[k := Entry(k, v, true)]) && Unique(t) && Unique(t[k := Entry(k, v, true)])
    ensures Contents(t[k := Entry(k, v, true)]) == Contents(t)[k := v]
  {
    DirectUnique(t);
    StoreMeaning(t, k, v, k);
  }

  /** Cutting off unused slots loses nothing. */
  lemma {:induction false} Truncate(t: Table, n: nat)
    requires n <= |t| && forall i :: n <= i < |t| ==> !t[i].used
    ensures Contents(t[..n]) == Contents(t) && UsedCount(t[..n]) == UsedCount(t)
  {
    if n < |t| {
      Truncate(t[..|t| - 1], n);
      assert t[..|t| - 1][..n] == t[..n];
    } else {
      assert t[..n] == t;
    }
  }
}
