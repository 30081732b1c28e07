/** The integer-keyed map of std/map.c. */
module HashMap {
  import opened Words
  import opened ProbeTable
  import opened MapHash
  import opened Compression

  const INITIAL_CAPACITY: nat := 16
  const LOAD_FACTOR: real := 0.5

  lemma PutBack(m: map<int, int>, k: int, v: int)
    requires k in m && m[k] == v
    ensures (m - {k})[k := v] == m
  {
  }

  lemma CountPrefix(t: Table, n: nat)
    requires n < |t|
    ensures UsedCount(t[..n + 1]) == UsedCount(t[..n]) + if t[n].used then 1 else 0
    ensures UsedCount(t[..n + 1]) <= UsedCount(t)
    decreases |t| - n
  {
    assert t[..n + 1][..n] == t[..n];
    if n + 1 < |t| {
      CountPrefix(t, n + 1);
    } else {
      assert t[..n + 1] == t;
    }
  }

  lemma PrefixStep(t: Table, i: nat)
    requires Unique(t) && i < |t|
    ensures Unique(t[..i]) && Unique(t[..i + 1])
    ensures t[i].used ==> t[i].key !in Contents(t[..i])
    ensures Contents(t[..i + 1]) == if t[i].used then Contents(t[..i])[t[i].key := t[i].value] else Contents(t[..i])
    ensures UsedCount(t[..i + 1]) == UsedCount(t[..i]) + if t[i].used then 1 else 0
    ensures UsedCount(t[..i + 1]) <= UsedCount(t)
  {
    assert t[..i + 1][..i] == t[..i];
    UniquePrefix(t, i + 1);
    LastIsNew(t[..i + 1]);
    CountPrefix(t, i);
  }

  lemma NothingBound(t: Table)
    requires forall i :: 0 <= i < |t| ==> !t[i].used
    ensures Contents(t) == map[]
  {
    if t != [] {
      NothingBound(t[..|t| - 1]);
    }
  }

  lemma InRange(t: Table)
    requires Unique(t) && forall k <- Contents(t) :: 0 <= k < |t|
    ensures KeysInRange(t)
  {
    ContentsBinds(t);
    forall i | 0 <= i < |t| && t[i].used ensures 0 <= t[i].key < |t| {
      assert t[i].key in Contents(t);
    }
  }

  lemma MaxBound(t: Table, maxKey: int)
    requires Unique(t) && forall i :: 0 <= i < |t| && t[i].used ==> t[i].key <= maxKey
    requires exists i :: 0 <= i < |t| && t[i].used && t[i].key == maxKey
    ensures maxKey in Contents(t) && forall k <- Contents(t) :: k <= maxKey
  {
    ContentsBinds(t);
  }

  lemma OverloadedWhen(size: nat, capacity: nat)
    requires 0 < capacity
    ensures size as real / capacity as real > LOAD_FACTOR <==> 2 * size > capacity
  {
  }

  class Map {
    const f: HashFn
    const cmp: bool
    var hash: Word
    var compr: bool
    var size: nat
    var capacity: nat
    var entries: array<Entry>

    /** The table is well counted and has no key twice; its load leaves unused slots. */
    ghost predicate Sized()
      reads this, entries
    {
      && entries.Length == capacity
      && Unique(entries[..])
      && size == UsedCount(entries[..])
    }

    ghost predicate Probing()
      reads this, entries
    {
      Sized() && !compr && 4 <= capacity && 2 * size <= capacity + 2
    }

    ghost predicate HashKept()
      reads this, entries
    {
      cmp ==> hash == TableHash(f, entries[..], size)
    }

    ghost predicate Valid()
      reads this, entries
    {
      && Sized() && HashKept()
      && (if compr then Direct(entries[..]) else Probing() && NoHole(f, entries[..]))
    }

    /** The finite map the object stands for. */
    ghost function Bindings(): map<int, int>
      reads this, entries
    {
      Contents(entries[..])
    }

    /** map_init. */
    constructor (f: HashFn, cmp: bool)
      ensures Valid() && Bindings() == map[] && !compr && this.f == f && this.cmp == cmp && fresh(entries)
      ensures capacity == INITIAL_CAPACITY
    {
      this.f, this.cmp := f, cmp;
      capacity, size, hash, compr := INITIAL_CAPACITY, 0, 0, false;
      entries := new Entry[INITIAL_CAPACITY](_ => EMPTY);
      new;
      AllUnused(entries[..]);
      FoldUnused(f, entries[..]);
      NothingBound(entries[..]);
    }

    /** map_copy. */
    constructor Copy(src: Map)
      requires src.Valid()
      ensures Valid() && Bindings() == src.Bindings() && compr == src.compr && f == src.f && cmp == src.cmp
      ensures fresh(entries) && entries[..] == src.entries[..]
    {
      f, cmp, hash, compr, size, capacity := src.f, src.cmp, src.hash, src.compr, src.size, src.capacity;
      var from := src.entries;
      entries := new Entry[src.capacity](i requires 0 <= i < from.Length reads from => from[i]);
      new;
      assert entries[..] == src.entries[..];
    }

    /** _map_update_hash. */
    method UpdateHash()
      requires entries.Length == capacity
      modifies `hash
      ensures HashKept()
    {
      if !cmp {
        return;
      }
      var h: Word := 0;
      for i := 0 to capacity
        invariant h == Fold(f, entries[..i])
      {
        assert entries[..i + 1][..i] == entries[..i];
        if entries[i].used {
          h := Xor(h, f(entries[i].key));
          h := Xor(h, f(entries[i].value));
        }
      }
      assert entries[..capacity] == entries[..];
      h := Xor(h, size);
      hash := h;
    }

    /** The probing loop shared by put, get and remove: it stops at k's entry or at an unused slot. */
    method Probe(k: int) returns (idx: nat)
      requires entries.Length == capacity && 0 < capacity && UsedCount(entries[..]) < capacity
      ensures ProbeEnds(f, entries[..], k, idx)
    {
      idx := Home(f, k, capacity);
      ghost var t, home := entries[..], idx;
      ghost var u := FreeSlot(t);
      while entries[idx].used && entries[idx].key != k
        invariant idx < capacity
        invariant PathFull(t, home, idx) && !Between(home, idx, u)
        invariant forall j :: 0 <= j < |t| && Between(home, idx, j) ==> t[j].key != k
        decreases Steps(idx, u, capacity)
      {
        assert idx != u && t[idx].used;
        NextIsModulo(idx, capacity);
        idx := (idx + 1) % capacity;
      }
    }

    /** Entries with key k, if any, are found by probing for k. */
    ghost predicate KeyReachable(k: int)
      reads this, entries
    {
      forall i :: 0 <= i < entries.Length && entries[i].used && entries[i].key == k ==> Reachable(f, entries[..], i)
    }

    /** More than the load factor allows. */
    predicate Overloaded()
      reads `size, `capacity
      requires 0 < capacity
    {
      size as real / capacity as real > LOAD_FACTOR
    }

    /** Writes an entry where the probe for its key ended, in the order of the source. */
    method StoreAt(idx: nat, k: int, v: int)
      requires Sized() && idx < capacity
      requires Unique(entries[..][idx := Entry(k, v, true)])
      modifies `size, `hash, entries
      ensures Sized() && HashKept()
      ensures entries[..] == old(entries[..])[idx := Entry(k, v, true)]
      ensures size == old(size) + if old(entries[idx].used) then 0 else 1
    {
      ghost var t := entries[..];
      CountUpdate(t, idx, Entry(k, v, true));
      var isNew := !entries[idx].used;
      entries[idx] := entries[idx].(key := k);
      entries[idx] := entries[idx].(value := v);
      entries[idx] := entries[idx].(used := true);
      if isNew {
        size := size + 1;
      }
      assert entries[..] == t[idx := Entry(k, v, true)];
      UpdateHash();
    }

    /** Clears a slot as map_remove does; the stale key stays behind. */
    method ClearAt(idx: nat)
      requires Sized() && idx < capacity && entries[idx].used
      modifies `size, entries
      ensures Sized() && size == old(size) - 1
      ensures entries[..] == old(entries[..])[idx := old(entries[idx]).(used := false, value := 0)]
      ensures Bindings() == old(Bindings()) - {old(entries[idx].key)}
    {
      ghost var t := entries[..];
      CountUpdate(t, idx, t[idx].(used := false, value := 0));
      ClearMeaning(t, idx);
      entries[idx] := entries[idx].(used := false);
      entries[idx] := entries[idx].(value := 0);
      assert entries[..] == t[idx := t[idx].(used := false, value := 0)];
      size := size - 1;
    }

    /** The direct branch of map_put. */
    method StoreDirect(k: nat, v: int)
      requires Sized() && Direct(entries[..]) && k < capacity
      modifies `size, `hash, entries
      ensures Sized() && HashKept() && Direct(entries[..])
      ensures Bindings() == old(Bindings())[k := v]
    {
      DirectStore(entries[..], k, v);
      StoreAt(k, k, v);
    }

    /** map_put. Only the entries of k itself have to be reachable, so that it can be used while
        map_remove still repairs the table. */
    method Put(k: int, v: int) returns (ok: bool, ghost s: nat)
      requires Sized() && (if compr then Direct(entries[..]) else Probing())
      requires !compr && 2 * size <= capacity ==> KeyReachable(k)
      modifies this, entries
      ensures entries == old(entries) || fresh(entries)
      ensures old(NoHole(f, entries[..])) && !compr ==> NoHole(f, entries[..])
      ensures compr == old(compr) && Sized() && (if compr then Direct(entries[..]) else Probing())
      ensures ok <==> !compr || 0 <= k < capacity
      ensures ok ==> HashKept() && Bindings() == old(Bindings())[k := v]
      ensures !ok ==> entries == old(entries) && entries[..] == old(entries[..])
      ensures !ok ==> hash == old(hash) && size == old(size)
      ensures compr ==> entries == old(entries) && capacity == old(capacity)
      ensures !compr ==> size == old(size) + if k in old(Bindings()) then 0 else 1
      ensures !compr ==> capacity == old(capacity) * if 2 * old(size) > old(capacity) then 2 else 1
      ensures !compr && 2 * old(size) <= old(capacity) ==>
                && entries == old(entries) && capacity == old(capacity)
                && ProbeEnds(f, old(entries[..]), k, s) && entries[..] == old(entries[..])[s := Entry(k, v, true)]
      ensures !compr && 2 * old(size) > old(capacity) ==> fresh(entries) && NoHole(f, entries[..])
      decreases if 2 * size > capacity then 2 else 0
    {
      s := 0;
      if compr {
        if k < 0 || k >= capacity {
          return false, 0;
        }
        DirectUnique(entries[..]);
        StoreDirect(k, v);
        return true, k;
      }
      OverloadedWhen(size, capacity);
      if Overloaded() {
        Resize(capacity * 2);
        assert KeyReachable(k) by {
          assert forall i :: 0 <= i < |entries[..]| && entries[..][i].used ==> Reachable(f, entries[..], i);
        }
      }
      var idx := Probe(k);
      ProbeDecides(f, entries[..], k, idx);
      StoreMeaning(entries[..], k, v, idx);
      ghost var t := entries[..];
      StoreAt(idx, k, v);
      if NoHole(f, t) {
        StoreReachable(f, t, k, v, idx);
      }
      return true, idx;
    }

    /** map_get. */
    method Get(k: int) returns (found: bool, v: int)
      requires Valid()
      ensures found <==> k in Bindings()
      ensures found ==> v == Bindings()[k]
    {
      if compr {
        DirectUnique(entries[..]);
        if k < 0 || k >= capacity {
          return false, 0;
        }
        if !entries[k].used {
          return false, 0;
        }
        return true, entries[k].value;
      }
      var idx := Probe(k);
      assert forall i :: 0 <= i < |entries[..]| && entries[..][i].used ==> Reachable(f, entries[..], i);
      ProbeDecides(f, entries[..], k, idx);
      if !entries[idx].used {
        return false, 0;
      }
      return true, entries[idx].value;
    }

    /** Takes the entry at next out and stores it again through map_put. */
    method Reinsert(gap: nat, next: nat, ghost end: nat)
      requires Probing() && 2 * size <= capacity && Repairing(f, entries[..], gap, next, end) && entries[next].used
      modifies this, entries
      ensures Probing() && entries == old(entries) && capacity == old(capacity) && size == old(size)
      ensures Bindings() == old(Bindings())
      ensures Repairing(f, entries[..], gap, Next(next, capacity), end)
    {
      ghost var t, m := entries[..], Bindings();
      ContentsBinds(t);
      var rekey, reval := entries[next].key, entries[next].value;
      ClearAt(next);
      ghost var t1 := entries[..];
      ContentsBinds(t1);
      var _, s := Put(rekey, reval);
      PutBack(m, rekey, reval);
      ProbeDecides(f, t1, rekey, s);
      RepairStep(f, t, gap, next, end, t1, s, entries[..]);
    }

    /** The loop of map_remove: takes out and stores again what follows the gap, up to the next
        unused slot. */
    method Repair(gap: nat, start: nat, ghost end: nat) returns (next: nat)
      requires Probing() && 2 * size <= capacity && Repairing(f, entries[..], gap, start, end)
      modifies this, entries
      ensures Probing() && entries == old(entries) && capacity == old(capacity)
      ensures Bindings() == old(Bindings())
      ensures Repairing(f, entries[..], gap, next, end) && !entries[next].used
    {
      next := start;
      ghost var m := Bindings();
      while entries[next].used
        invariant Probing() && entries == old(entries) && capacity == old(capacity)
        invariant 2 * size <= capacity && Bindings() == m
        invariant Repairing(f, entries[..], gap, next, end)
        decreases Steps(next, end, capacity)
      {
        Reinsert(gap, next, end);
        NextIsModulo(next, capacity);
        next := (next + 1) % capacity;
      }
    }

    /** The direct branch of map_remove. */
    method RemoveDirect(k: int) returns (ok: bool)
      requires Valid() && compr
      modifies `size, `hash, entries
      ensures Valid() && entries == old(entries)
      ensures ok <==> k in old(Bindings())
      ensures Bindings() == old(Bindings()) - {k}
    {
      DirectUnique(entries[..]);
      if k < 0 || k >= capacity {
        return false;
      }
      if !entries[k].used {
        return false;
      }
      ClearAt(k);
      UpdateHash();
      return true;
    }

    /** map_remove. */
    method Remove(k: int) returns (ok: bool)
      requires Valid()
      modifies this, entries
      ensures Valid() && compr == old(compr) && capacity == old(capacity) && entries == old(entries)
      ensures ok <==> k in old(Bindings())
      ensures Bindings() == old(Bindings()) - {k}
    {
      if compr {
        ok := RemoveDirect(k);
        return;
      }
      ghost var t0, m0 := entries[..], Bindings();
      var idx := Probe(k);
      assert forall i :: 0 <= i < |t0| && t0[i].used ==> Reachable(f, t0, i);
      ProbeDecides(f, t0, k, idx);
      if !entries[idx].used {
        return false;
      }
      ClearAt(idx);
      ghost var end := StartRepair(f, t0, idx, entries[..]);
      var next := (idx + 1) % capacity;
      NextIsModulo(idx, capacity);
      next := Repair(idx, next, end);
      RepairDone(f, entries[..], idx, next, end);
      UpdateHash();
      return true;
    }

    /** The reallocation of map_compress: keeps the first newCap slots. */
    method Shorten(newCap: nat)
      requires Sized() && Direct(entries[..]) && newCap <= capacity && forall k <- Bindings() :: k < newCap
      modifies `entries, `capacity
      ensures Sized() && Direct(entries[..]) && Bindings() == old(Bindings()) && capacity == newCap && fresh(entries)
    {
      ghost var t := entries[..];
      DirectUnique(t);
      forall i | newCap <= i < |t| ensures !t[i].used {
        assert t[i].used ==> i in Bindings();
      }
      Truncate(t, newCap);
      var oldEntries := entries;
      entries := new Entry[newCap](i requires 0 <= i < oldEntries.Length reads oldEntries => oldEntries[i]);
      capacity := newCap;
      assert entries[..] == t[..newCap];
    }

    /** The first loop of map_compress. */
    method Survey() returns (maxKey: int, usedCount: nat)
      requires Sized() && KeysInRange(entries[..])
      ensures usedCount == size
      ensures maxKey < 0 ==> Bindings() == map[] && size == 0 && Direct(entries[..])
      ensures 0 <= maxKey ==> maxKey in Bindings() && forall k <- Bindings() :: k <= maxKey
    {
      maxKey, usedCount := -1, 0;
      for i := 0 to capacity
        invariant usedCount == UsedCount(entries[..i]) && -1 <= maxKey
        invariant forall j :: 0 <= j < i && entries[j].used ==> entries[j].key <= maxKey
        invariant 0 <= maxKey ==> exists j :: 0 <= j < i && entries[j].used && entries[j].key == maxKey
      {
        CountPrefix(entries[..], i);
        if entries[i].used {
          usedCount := usedCount + 1;
          if entries[i].key > maxKey {
            maxKey := entries[i].key;
          }
        }
      }
      ghost var t := entries[..];
      assert entries[..capacity] == t;
      assert forall j :: 0 <= j < |t| ==> t[j] == entries[j];
      if maxKey < 0 {
        NothingBound(t);
        CountIsSize(t);
      } else {
        MaxBound(t, maxKey);
      }
    }

    /** The swapping loop of map_compress: each swap puts one more entry in its own slot. */
    method Permute()
      requires Sized() && KeysInRange(entries[..])
      modifies entries
      ensures Sized() && Direct(entries[..]) && Bindings() == old(Bindings())
    {
      ghost var m := Bindings();
      for i := 0 to capacity
        invariant Sized() && KeysInRange(entries[..]) && Bindings() == m
        invariant forall j :: 0 <= j < i ==> InPlace(entries[..], j)
      {
        while entries[i].used && entries[i].key != i
          invariant Sized() && KeysInRange(entries[..]) && Bindings() == m
          invariant forall j :: 0 <= j < i ==> InPlace(entries[..], j)
          decreases Misplaced(entries[..])
        {
          ghost var t := entries[..];
          SwapHome(t, i);
          var k := entries[i].key;
          var tmp := entries[i];
          entries[i] := entries[k];
          entries[k] := tmp;
          assert entries[..] == Swap(t, i, k);
        }
      }
      ghost var t := entries[..];
      forall j | 0 <= j < |t| && t[j].used ensures t[j].key == j {
        assert InPlace(t, j);
      }
    }

    /** map_compress, for keys that index the table: moves every entry to the slot of its key and
        drops the slots after the largest one. */
    method Compress() returns (ok: bool)
      requires Valid() && forall k <- Bindings() :: 0 <= k < capacity
      modifies this, entries
      ensures ok && Valid() && compr && Bindings() == old(Bindings())
      ensures !old(compr) && Bindings() != map[] ==> fresh(entries) && capacity - 1 in Bindings()
      ensures old(compr) || Bindings() == map[] ==> entries == old(entries) && capacity == old(capacity)
    {
      if compr {
        return true;
      }
      assert Bindings() == Contents(entries[..]);
      forall k | k in Contents(entries[..]) ensures 0 <= k < capacity {
        assert k in Bindings();
      }
      InRange(entries[..]);
      var maxKey, usedCount := Survey();
      if maxKey < 0 {
        compr := true;
        size := 0;
        return true;
      }
      Permute();
      Shorten(maxKey + 1);
      size := usedCount;
      compr := true;
      UpdateHash();
      return true;
    }

    /** _map_resize: re-inserts every entry into a larger table through map_put. */
    method Resize(newcap: nat)
      requires Probing() && 2 * size <= newcap && 4 <= newcap
      modifies this
      ensures Probing() && NoHole(f, entries[..]) && fresh(entries)
      ensures capacity == newcap && size == old(size) && Bindings() == old(Bindings())
      decreases 1
    {
      var oldEntries, oldcap := entries, capacity;
      ghost var t, n := entries[..], size;
      entries := new Entry[newcap](_ => EMPTY);
      capacity := newcap;
      size := 0;
      AllUnused(entries[..]);
      NothingBound(entries[..]);
      for i := 0 to oldcap
        invariant Probing() && NoHole(f, entries[..]) && fresh(entries)
        invariant capacity == newcap && oldEntries[..] == t
        invariant Unique(t[..i]) && Bindings() == Contents(t[..i])
        invariant size == UsedCount(t[..i]) <= UsedCount(t)
      {
        PrefixStep(t, i);
        if oldEntries[i].used {
          ghost var t0 := entries[..];
          assert KeyReachable(oldEntries[i].key);
          var _, s := Put(oldEntries[i].key, oldEntries[i].value);
          StoreReachable(f, t0, t[i].key, t[i].value, s);
        }
      }
      assert t[..oldcap] == t;
    }
  }

  /** The loop of map_equals: every entry of a is in b with the same value. */
  method Includes(a: Map, b: Map) returns (all: bool)
    requires a.Valid() && b.Valid()
    ensures all <==> forall k :: k in a.Bindings() ==> k in b.Bindings() && b.Bindings()[k] == a.Bindings()[k]
  {
    ghost var t, m := a.entries[..], b.Bindings();
    ContentsBinds(t);
    for i := 0 to a.capacity
      invariant forall j :: 0 <= j < i && t[j].used ==> t[j].key in m && m[t[j].key] == t[j].value
    {
      if a.entries[i].used {
        var found, bv := b.Get(a.entries[i].key);
        if !found || bv != a.entries[i].value {
          assert t[i].used;
          return false;
        }
      }
    }
    forall k | k in a.Bindings() ensures k in m && m[k] == a.Bindings()[k] {
      var i :| 0 <= i < |t| && t[i].used && t[i].key == k;
    }
    return true;
  }

  /** The stored hash and size are functions of the finite map. */
  lemma HashOfContents(f: HashFn, t: Table)
    requires Unique(t)
    ensures UsedCount(t) == |Contents(t)|
    ensures TableHash(f, t, UsedCount(t)) == Xor(MapFold(f, Contents(t)), |Contents(t)|)
  {
    CountIsSize(t);
    FoldIsContents(f, t);
  }

  /** map_equals: with kept hashes on both sides it is exactly equality of the two finite maps. */
  method Equals(a: Map, b: Map) returns (eq: bool)
    requires a.Valid() && b.Valid() && a.f == b.f
    ensures eq <==> a.cmp && b.cmp && a.Bindings() == b.Bindings()
  {
    HashOfContents(a.f, a.entries[..]);
    HashOfContents(b.f, b.entries[..]);
    if !a.cmp || !b.cmp || a.hash != b.hash || a.size != b.size {
      return false;
    }
    eq := Includes(a, b);
    if eq {
      SameSizeIncluded(a.Bindings(), b.Bindings());
    }
  }
}
