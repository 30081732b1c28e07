/** Open addressing with linear probing on one table of entries, as in std/map.c. */
module ProbeTable {
  import opened Words

  type HashFn = int -> Word

  datatype Entry = Entry(key: int, value: int, used: bool)

  const EMPTY := Entry(0, 0, false)

  type Table = seq<Entry>

  /** The slot where probing for k starts. */
  function Home(f: HashFn, k: int, capacity: nat): (i: nat)
    requires 0 < capacity
    ensures i < capacity
  {
    f(k) % capacity
  }

  function Next(i: nat, capacity: nat): (j: nat)
    requires i < capacity
    ensures j < capacity
  {
    if i + 1 < capacity then i + 1 else 0
  }

  lemma NextIsModulo(i: nat, capacity: nat)
    requires i < capacity
    ensures (i + 1) % capacity == Next(i, capacity)
  {
    if i + 1 < capacity {
      assert (i + 1) % capacity == i + 1;
    } else {
      assert (i + 1) % capacity == 0;
    }
  }

  /** Going up from `from` and wrapping around, j comes before `to`. */
  predicate Between(from: nat, to: nat, j: nat) {
    if from <= to then from <= j < to else from <= j || j < to
  }

  /** Number of steps from i up to j. */
  function Steps(i: nat, j: nat, capacity: nat): nat
    requires i < capacity && j < capacity
  {
    if i <= j then j - i else capacity - i + j
  }

  /** Every slot probed on the way from `from` to `to` is used. */
  ghost predicate PathFull(t: Table, from: nat, to: nat) {
    forall j {:trigger t[j]} :: 0 <= j < |t| && Between(from, to, j) ==> t[j].used
  }

  /** The entry in slot i is found by probing for its key. */
  ghost predicate Reachable(f: HashFn, t: Table, i: nat)
    requires i < |t|
  {
    PathFull(t, Home(f, t[i].key, |t|), i)
  }

  ghost predicate NoHole(f: HashFn, t: Table) {
    forall i {:trigger Reachable(f, t, i)} :: 0 <= i < |t| && t[i].used ==> Reachable(f, t, i)
  }

  /** Slots i and j do not hold the same key. */
  predicate Distinct(t: Table, i: nat, j: nat)
    requires i < |t| && j < |t|
  {
    t[i].used && t[j].used ==> t[i].key != t[j].key
  }

  ghost predicate Unique(t: Table) {
    forall i, j {:trigger Distinct(t, i, j)} :: 0 <= i < j < |t| ==> Distinct(t, i, j)
  }

  /** Probing for k from its home slot ends in slot s. */
  ghost predicate ProbeEnds(f: HashFn, t: Table, k: int, s: nat) {
    && s < |t|
    && PathFull(t, Home(f, k, |t|), s)
    && (forall j :: 0 <= j < |t| && Between(Home(f, k, |t|), s, j) ==> t[j].key != k)
    && (t[s].used ==> t[s].key == k)
  }

  lemma UniquePrefix(t: Table, n: nat)
    requires Unique(t) && n <= |t|
    ensures Unique(t[..n])
  {
    forall i, j | 0 <= i < j < n ensures Distinct(t[..n], i, j) {
      assert Distinct(t, i, j);
    }
  }

  lemma DistinctEither(t: Table, i: nat, j: nat)
    requires Unique(t) && i < |t| && j < |t| && i != j
    ensures Distinct(t, i, j)
  {
    assert Distinct(t, if i < j then i else j, if i < j then j else i);
  }

  /** The finite map a table stands for. */
  function Contents(t: Table): (m: map<int, int>) {
    if t == [] then map[] else
      var m, e := Contents(t[..|t| - 1]), t[|t| - 1];
      if e.used then m[e.key := e.value] else m
  }

  /** m binds exactly the used keys of t. */
  ghost predicate Binds(t: Table, m: map<int, int>) {
    && (forall i {:trigger t[i]} :: 0 <= i < |t| && t[i].used ==> t[i].key in m && m[t[i].key] == t[i].value)
    && (forall k {:trigger k in m} :: k in m ==> exists i :: 0 <= i < |t| && t[i].used && t[i].key == k)
  }

  lemma {:induction false} ContentsBinds(t: Table)
    requires Unique(t)
    ensures Binds(t, Contents(t))
  {
    if t != [] {
      var n := |t| - 1;
      UniquePrefix(t, n);
      ContentsBinds(t[..n]);
      forall i | 0 <= i < n ensures Distinct(t, i, n) {}
      var m, m' := Contents(t[..n]), Contents(t);
      forall i | 0 <= i < |t| && t[i].used ensures t[i].key in m' && m'[t[i].key] == t[i].value {
        if i < n {
          assert t[..n][i] == t[i] && Distinct(t, i, n);
        }
      }
      forall k | k in m' ensures exists i :: 0 <= i < |t| && t[i].used && t[i].key == k {
        if !(t[n].used && k == t[n].key) {
          var i :| 0 <= i < n && t[..n][i].used && t[..n][i].key == k;
          assert t[i].used && t[i].key == k;
        }
      }
    }
  }

  lemma BindsOne(t: Table, m: map<int, int>)
    requires Unique(t) && Binds(t, m)
    ensures Contents(t) == m
  {
    ContentsBinds(t);
    var c := Contents(t);
    forall k | k in m ensures k in c && c[k] == m[k] {
      var i :| 0 <= i < |t| && t[i].used && t[i].key == k;
    }
    forall k | k in c ensures k in m {
      var i :| 0 <= i < |t| && t[i].used && t[i].key == k;
    }
    assert c == m;
  }

  /** Two different slots come one after the other from any start. */
  lemma Ordered(from: nat, i: nat, j: nat)
    requires i != j
    ensures Between(from, i, j) || Between(from, j, i)
  {
  }

  /** Probing finds a key exactly when the table holds it. */
  lemma ProbeDecides(f: HashFn, t: Table, k: int, s: nat)
    requires Unique(t) && ProbeEnds(f, t, k, s)
    requires forall i :: 0 <= i < |t| && t[i].used && t[i].key == k ==> Reachable(f, t, i)
    ensures t[s].used <==> k in Contents(t)
    ensures t[s].used ==> Contents(t)[k] == t[s].value
  {
    ContentsBinds(t);
    if k in Contents(t) {
      var i :| 0 <= i < |t| && t[i].used && t[i].key == k;
      if i != s {
        assert Reachable(f, t, i);
        Ordered(Home(f, k, |t|), i, s);
      }
    }
  }

  /** Storing k over its own entry, or in an unused slot when it has none, updates exactly k. */
  lemma StoreMeaning(t: Table, k: int, v: int, s: nat)
    requires Unique(t) && s < |t| && (t[s].used ==> t[s].key == k) && (t[s].used <==> k in Contents(t))
    ensures Unique(t[s := Entry(k, v, true)])
    ensures Contents(t[s := Entry(k, v, true)]) == Contents(t)[k := v]
  {
    var t' := t[s := Entry(k, v, true)];
    ContentsBinds(t);
    forall i, j | 0 <= i < j < |t'| ensures Distinct(t', i, j) {
      assert Distinct(t, i, j);
      if i == s {
        assert t[j].used ==> t[j].key in Contents(t);
      } else if j == s {
        assert t[i].used ==> t[i].key in Contents(t);
      }
    }
    var m := Contents(t)[k := v];
    forall i | 0 <= i < |t'| && t'[i].used ensures t'[i].key in m && m[t'[i].key] == t'[i].value {
      if i != s {
        assert t[i].key in Contents(t);
        DistinctEither(t, i, s);
      }
    }
    forall x | x in m ensures exists i :: 0 <= i < |t'| && t'[i].used && t'[i].key == x {
      if x == k {
        assert t'[s].used;
      } else {
        var i :| 0 <= i < |t| && t[i].used && t[i].key == x;
        assert t'[i] == t[i];
      }
    }
    BindsOne(t', m);
  }

  /** Clearing a used slot removes exactly its key. */
  lemma ClearMeaning(t: Table, s: nat)
    requires Unique(t) && s < |t| && t[s].used
    ensures var t' := t[s := t[s].(used := false, value := 0)];
      Unique(t') && Contents(t') == Contents(t) - {t[s].key}
  {
    var t' := t[s := t[s].(used := false, value := 0)];
    ContentsBinds(t);
    var m := Contents(t) - {t[s].key};
    forall i, j | 0 <= i < j < |t'| ensures Distinct(t', i, j) {
      assert Distinct(t, i, j);
    }
    forall i | 0 <= i < |t'| && t'[i].used ensures t'[i].key in m && m[t'[i].key] == t'[i].value {
      DistinctEither(t, i, s);
    }
    forall x | x in m ensures exists i :: 0 <= i < |t'| && t'[i].used && t'[i].key == x {
      var i :| 0 <= i < |t| && t[i].used && t[i].key == x;
      assert t'[i] == t[i];
    }
    BindsOne(t', m);
  }

  // ---- counting ----

  function UsedCount(t: Table): (n: nat)
    ensures n <= |t|
  {
    if t == [] then 0 else UsedCount(t[..|t| - 1]) + if t[|t| - 1].used then 1 else 0
  }

  lemma {:induction false} CountUpdate(t: Table, s: nat, e: Entry)
    requires s < |t|
    ensures UsedCount(t[s := e]) == UsedCount(t) - (if t[s].used then 1 else 0) + (if e.used then 1 else 0)
  {
    var t', n := t[s := e], |t| - 1;
    if s == n {
      assert t'[..n] == t[..n];
    } else {
      assert t'[..n] == t[..n][s := e];
      CountUpdate(t[..n], s, e);
    }
  }

  lemma {:induction false} FreeSlot(t: Table) returns (u: nat)
    requires UsedCount(t) < |t|
    ensures u < |t| && !t[u].used
  {
    var n := |t| - 1;
    if !t[n].used {
      u := n;
    } else {
      u := FreeSlot(t[..n]);
    }
  }

  lemma {:induction false} AllUnused(t: Table)
    requires forall i :: 0 <= i < |t| ==> !t[i].used
    ensures UsedCount(t) == 0
  {
    if t != [] {
      AllUnused(t[..|t| - 1]);
    }
  }

  /** The key of the last slot occurs nowhere else. */
  lemma LastIsNew(t: Table)
    requires Unique(t) && t != []
    ensures Unique(t[..|t| - 1])
    ensures t[|t| - 1].used ==> t[|t| - 1].key !in Contents(t[..|t| - 1])
  {
    var n := |t| - 1;
    UniquePrefix(t, n);
    ContentsBinds(t[..n]);
    forall i | 0 <= i < n ensures t[n].used && t[..n][i].used ==> t[..n][i].key != t[n].key {
      assert Distinct(t, i, n);
    }
  }

  lemma {:induction false} CountIsSize(t: Table)
    requires Unique(t)
    ensures UsedCount(t) == |Contents(t)|
  {
    if t != [] {
      var n := |t| - 1;
      LastIsNew(t);
      CountIsSize(t[..n]);
    }
  }

  // ---- deletion ----

  /** Slots before entry i on its probe path are used or lie between gap and next. */
  ghost predicate HolesInGap(f: HashFn, t: Table, i: nat, gap: nat, next: nat)
    requires i < |t|
  {
    forall j {:trigger t[j]} :: 0 <= j < |t| && Between(Home(f, t[i].key, |t|), i, j) ==>
        t[j].used || Between(gap, next, j)
  }

  /** While a cluster is re-inserted after a deletion at slot `gap`: the slots from next up to
      `end` still wait for their turn, everything else is reachable, and the only holes in front of
      a waiting entry lie between gap and next. */
  ghost predicate Repairing(f: HashFn, t: Table, gap: nat, next: nat, end: nat) {
    && gap < |t| && next < |t| && end < |t|
    && gap != end && !t[end].used && !Between(gap, next, end)
    && (forall i {:trigger t[i]} :: 0 <= i < |t| && Between(next, end, i) ==> t[i].used)
    && (forall i {:trigger Reachable(f, t, i)} :: 0 <= i < |t| && t[i].used && !Between(next, end, i) ==>
          Reachable(f, t, i))
    && (forall i {:trigger HolesInGap(f, t, i, gap, next)} :: 0 <= i < |t| && Between(next, end, i) ==>
          HolesInGap(f, t, i, gap, next))
  }

  /** The first unused slot after `from`. */
  lemma FirstUnused(t: Table, from: nat, u: nat) returns (e: nat)
    requires from < |t| && u < |t| && !t[u].used
    ensures e < |t| && !t[e].used
    ensures forall j :: 0 <= j < |t| && Between(from, e, j) ==> t[j].used
    ensures e == u || Between(from, u, e)
    decreases Steps(from, u, |t|)
  {
    if !t[from].used {
      e := from;
    } else {
      e := FirstUnused(t, Next(from, |t|), u);
    }
  }

  /** Deleting the entry at `gap` from a table without holes: the rest of its cluster has to be repaired. */
  lemma StartRepair(f: HashFn, t: Table, gap: nat, t': Table) returns (end: nat)
    requires NoHole(f, t) && gap < |t| && t[gap].used && UsedCount(t) < |t|
    requires t' == t[gap := t[gap].(used := false, value := 0)]
    ensures Repairing(f, t', gap, Next(gap, |t|), end)
  {
    var u := FreeSlot(t);
    var next := Next(gap, |t|);
    end := FirstUnused(t, next, u);
    assert !t[end].used && end != gap;
    forall i | 0 <= i < |t'| && t'[i].used
      ensures !Between(next, end, i) ==> Reachable(f, t', i)
      ensures Between(next, end, i) ==> HolesInGap(f, t', i, gap, next)
    {
      assert Reachable(f, t, i);
      var h := Home(f, t[i].key, |t|);
      assert Between(h, i, end) || Between(next, end, i) || !Between(h, i, gap);
    }
  }

  /** Where the waiting entry at `next` goes when it is taken out and stored again: somewhere between
      its home and its old place, never at `end` or among the entries still waiting. */
  lemma ReinsertSlot(f: HashFn, t: Table, gap: nat, next: nat, end: nat, t1: Table, s: nat)
    requires Repairing(f, t, gap, next, end) && next != end
    requires t1 == t[next := t[next].(used := false, value := 0)]
    requires ProbeEnds(f, t1, t[next].key, s) && !t1[s].used
    ensures s == next || Between(Home(f, t[next].key, |t|), next, s)
    ensures s != end && !Between(Next(next, |t|), end, s)
  {
    var h := Home(f, t[next].key, |t|);
    assert t[next].used;
    assert !t1[next].used && !Between(h, s, next);
    if s != next {
      Ordered(h, s, next);
    }
    assert HolesInGap(f, t, next, gap, next);
    assert t[end].used || Between(gap, next, end) || s != end;
  }

  lemma RepairStep(f: HashFn, t: Table, gap: nat, next: nat, end: nat, t1: Table, s: nat, t2: Table)
    requires Repairing(f, t, gap, next, end) && next != end
    requires t1 == t[next := t[next].(used := false, value := 0)]
    requires ProbeEnds(f, t1, t[next].key, s) && !t1[s].used
    requires t2 == t1[s := Entry(t[next].key, t[next].value, true)]
    ensures Repairing(f, t2, gap, Next(next, |t|), end)
  {
    ReinsertSlot(f, t, gap, next, end, t1, s);
    var next' := Next(next, |t|);
    forall i | 0 <= i < |t2| && t2[i].used && !Between(next', end, i) ensures Reachable(f, t2, i) {
      if i != s {
        assert i != next && Reachable(f, t, i);
        var h := Home(f, t[i].key, |t|);
        assert Between(h, i, end) || !Between(h, i, next);
      }
    }
    forall i | 0 <= i < |t2| && Between(next', end, i) ensures t2[i].used && HolesInGap(f, t2, i, gap, next') {
      assert t[i].used && i != s && i != next;
      assert HolesInGap(f, t, i, gap, next);
    }
  }

  /** Once nothing waits, the table has no hole. */
  lemma RepairDone(f: HashFn, t: Table, gap: nat, next: nat, end: nat)
    requires Repairing(f, t, gap, next, end) && !t[next].used
    ensures next == end && NoHole(f, t)
  {
    assert next == end || Between(next, end, next);
  }

  /** Storing a new key where its probe ends opens no hole. */
  lemma StoreReachable(f: HashFn, t: Table, k: int, v: int, s: nat)
    requires NoHole(f, t) && ProbeEnds(f, t, k, s)
    ensures NoHole(f, t[s := Entry(k, v, true)])
  {
    var t' := t[s := Entry(k, v, true)];
    forall i | 0 <= i < |t'| && t'[i].used ensures Reachable(f, t', i) {
      if i != s {
        assert Reachable(f, t, i);
      }
    }
  }
}
