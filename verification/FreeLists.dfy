/** Effect of unlinking from, and pushing onto, one segregated free list. */
module FreeLists {
  import opened Common
  import opened HeapState

  /** Every header keeps its size, its place in the chain and its free bit. */
  ghost predicate SameShape(h: Headers, h': Headers) {
    && h'.Keys == h.Keys
    && forall k <- h :: ShapeOf(h'[k]) == ShapeOf(h[k])
  }

  /** The headers after unlinking b: its neighbours point past it and its own links are cleared. */
  function Unlink(h: Headers, b: int): (h': Headers)
    requires b in h
    requires h[b].prevFree != NULL ==> h[b].prevFree in h
    requires h[b].nextFree != NULL ==> h[b].nextFree in h
  {
    var p, n := h[b].prevFree, h[b].nextFree;
    var h1 := if p != NULL then h[p := h[p].(nextFree := n)] else h;
    var h2 := if n != NULL then h1[n := h1[n].(prevFree := p)] else h1;
    h2[b := h2[b].(nextFree := NULL, prevFree := NULL)]
  }

  /** The headers after pushing b in front of the list whose head is `head`. */
  function Push(h: Headers, b: int, head: int): (h': Headers)
    requires b in h && (head != NULL ==> head in h)
  {
    var h1 := h[b := h[b].(free := true, nextFree := head, prevFree := NULL)];
    if head != NULL then h1[head := h1[head].(prevFree := b)] else h1
  }

  lemma UnlinkOne(h: Headers, s: seq<int>, j: nat)
    requires Linked(h, s) && j < |s| && (forall k :: 0 <= k < |s| ==> 0 <= s[k])
    ensures NodeOk(h, s, j)
    ensures 0 < j ==> NodeOk(h, s, j - 1)
    ensures j + 1 < |s| ==> NodeOk(h, s, j + 1)
    ensures SameShape(h, Unlink(h, s[j]))
    ensures Head(Without(s, j)) == if j == 0 then h[s[j]].nextFree else Head(s)
    ensures forall k <- h :: k !in s ==> Unlink(h, s[j])[k] == h[k]
  {
    assert NodeOk(h, s, j) && (0 < j ==> NodeOk(h, s, j - 1)) && (j + 1 < |s| ==> NodeOk(h, s, j + 1));
  }

  lemma UnlinkNode(h: Headers, s: seq<int>, j: nat, k: nat)
    requires Linked(h, s) && j < |s| && k + 1 < |s| && (forall k :: 0 <= k < |s| ==> 0 <= s[k])
    requires NodeOk(h, s, j) && (0 < j ==> NodeOk(h, s, j - 1)) && (j + 1 < |s| ==> NodeOk(h, s, j + 1))
    ensures NodeOk(Unlink(h, s[j]), Without(s, j), k)
  {
    assert NodeOk(h, s, if k < j then k else k + 1);
  }

  lemma UnlinkLinked(h: Headers, s: seq<int>, j: nat)
    requires Linked(h, s) && j < |s| && (forall k :: 0 <= k < |s| ==> 0 <= s[k])
    ensures NodeOk(h, s, j)
    ensures 0 < j ==> NodeOk(h, s, j - 1)
    ensures j + 1 < |s| ==> NodeOk(h, s, j + 1)
    ensures Linked(Unlink(h, s[j]), Without(s, j))
  {
    UnlinkOne(h, s, j);
    var h', s' := Unlink(h, s[j]), Without(s, j);
    forall k | 0 <= k < |s'| ensures NodeOk(h', s', k) {
      UnlinkNode(h, s, j, k);
    }
    forall k, l | 0 <= k < l < |s'| ensures s'[k] != s'[l] {}
  }

  lemma PushOne(h: Headers, s: seq<int>, b: int)
    requires Linked(h, s) && b in h && b !in s && 0 <= b && (forall k :: 0 <= k < |s| ==> 0 <= s[k])
    ensures 0 < |s| ==> NodeOk(h, s, 0)
    ensures SameShape(h[b := h[b].(free := true)], Push(h, b, Head(s)))
    ensures Linked(Push(h, b, Head(s)), [b] + s)
    ensures forall k <- h :: k != b && k !in s ==> Push(h, b, Head(s))[k] == h[k]
  {
    assert 0 < |s| ==> NodeOk(h, s, 0);
    var h', s' := Push(h, b, Head(s)), [b] + s;
    forall k | 0 <= k < |s'| ensures NodeOk(h', s', k) {
      if 0 < k {
        assert NodeOk(h, s, k - 1) && s'[k] == s[k - 1];
        assert k + 1 < |s'| ==> s'[k + 1] == s[k];
        assert s'[k - 1] == if k == 1 then b else s[k - 2];
      }
    }
  }

  /** A list none of whose nodes changed keeps its links. */
  lemma LinkedFrame(h: Headers, h': Headers, s: seq<int>)
    requires Linked(h, s)
    requires forall j :: 0 <= j < |s| ==> NodeOk(h, s, j) && s[j] in h' && h'[s[j]] == h[s[j]]
    ensures Linked(h', s)
  {
    forall j | 0 <= j < |s| ensures NodeOk(h', s, j) {
      assert NodeOk(h, s, j);
    }
  }

  lemma ClassUnique(size: nat, i: int, j: int)
    requires InClass(size, i) && InClass(size, j)
    ensures i == j
  {
    ClassesMonotone(size, size, i, j);
    ClassesMonotone(size, size, j, i);
  }

  /** Where a listed block sits. */
  lemma Locate(h: Headers, heads: seq<int>, chains: seq<seq<int>>, listed: set<int>, b: int, i: int) returns (j: nat)
    requires ListsHold(h, heads, chains, listed) && b in listed && b in h && InClass(h[b].size, i)
    ensures j < |chains[i]| && chains[i][j] == b
  {
    assert Filed(h, chains, b);
    var l :| InClass(h[b].size, l) && b in chains[l];
    ClassUnique(h[b].size, i, l);
    j :| 0 <= j < |chains[i]| && chains[i][j] == b;
  }

  /** A list that shares no node with a changed one stays as it was. */
  lemma OtherList(h: Headers, h': Headers, head: int, s: seq<int>, i: int, listed: set<int>,
                  t: seq<int>, l: int, listed': set<int>)
    requires ListOk(h, head, s, i, listed)
    requires i != l && forall j :: 0 <= j < |t| ==> t[j] in h && InClass(h[t[j]].size, l)
    requires h'.Keys == h.Keys && forall k <- h :: k !in t ==> h'[k] == h[k]
    requires forall k <- listed :: k !in t ==> k in listed'
    ensures ListOk(h', head, s, i, listed')
  {
    forall j | 0 <= j < |s| ensures s[j] !in t && NodeOk(h, s, j) {
      if k :| 0 <= k < |t| && t[k] == s[j] {
        ClassUnique(h[s[j]].size, i, l);
        assert false;
      }
    }
    LinkedFrame(h, h', s);
  }

  lemma UnlinkList(h: Headers, head: int, s: seq<int>, i: int, listed: set<int>, j: nat)
    requires ListOk(h, head, s, i, listed) && j < |s|
    ensures NodeOk(h, s, j)
    ensures 0 < j ==> NodeOk(h, s, j - 1)
    ensures j + 1 < |s| ==> NodeOk(h, s, j + 1)
    ensures SameShape(h, Unlink(h, s[j]))
    ensures ListOk(Unlink(h, s[j]), if j == 0 then h[s[j]].nextFree else head, Without(s, j), i, listed - {s[j]})
  {
    UnlinkOne(h, s, j);
    UnlinkLinked(h, s, j);
    var h', s' := Unlink(h, s[j]), Without(s, j);
    forall k | 0 <= k < |s'|
      ensures s'[k] in listed - {s[j]} && s'[k] in h' && 0 <= s'[k] && InClass(h'[s'[k]].size, i)
    {
      var x := if k < j then k else k + 1;
      assert s'[k] == s[x];
    }
  }

  lemma PushList(h: Headers, head: int, s: seq<int>, i: int, listed: set<int>, b: int)
    requires ListOk(h, head, s, i, listed) && b in h && 0 <= b && b !in listed && InClass(h[b].size, i)
    ensures head != NULL ==> head in h && head != b
    ensures SameShape(h[b := h[b].(free := true)], Push(h, b, head))
    ensures ListOk(Push(h, b, head), b, [b] + s, i, listed + {b})
    ensures forall k <- h :: k != b && k !in s ==> Push(h, b, head)[k] == h[k]
  {
    PushOne(h, s, b);
    var h', s' := Push(h, b, head), [b] + s;
    forall k | 0 <= k < |s'| ensures s'[k] in listed + {b} && s'[k] in h' && 0 <= s'[k] && InClass(h'[s'[k]].size, i) {
      if 0 < k {
        assert s'[k] == s[k - 1];
      }
    }
  }

  lemma StillFiled(h: Headers, h': Headers, chains: seq<seq<int>>, chains': seq<seq<int>>, c: int)
    requires |chains| == |chains'| == FREE_LIST_COUNT && Filed(h, chains, c)
    requires c in h' && h'[c].size == h[c].size
    requires forall l :: 0 <= l < FREE_LIST_COUNT && c in chains[l] ==> c in chains'[l]
    ensures Filed(h', chains', c)
  {
    var l :| InClass(h[c].size, l) && c in chains[l];
    assert InClass(h'[c].size, l) && c in chains'[l];
  }

  lemma WithoutKeeps(s: seq<int>, j: nat, c: int)
    requires j < |s| && c in s && c != s[j]
    ensures c in Without(s, j)
  {
    var k :| 0 <= k < |s| && s[k] == c;
    assert Without(s, j)[if k < j then k else k - 1] == c;
  }

  lemma RefiledOne(h: Headers, h': Headers, chains: seq<seq<int>>, listed: set<int>, i: int, s': seq<int>,
                   listed': set<int>, c: int)
    requires |chains| == FREE_LIST_COUNT && 0 <= i < FREE_LIST_COUNT && c in listed'
    requires c in listed ==> Filed(h, chains, c)
    requires forall j :: 0 <= j < |s'| ==> s'[j] in h' && InClass(h'[s'[j]].size, i)
    requires h'.Keys == h.Keys && forall k <- h :: h'[k].size == h[k].size
    requires forall k <- listed' :: k in s' || k in listed
    requires forall k <- chains[i] :: k in listed' ==> k in s'
    ensures Filed(h', chains[i := s'], c)
  {
    var chains' := chains[i := s'];
    if c in s' {
      var j :| 0 <= j < |s'| && s'[j] == c;
      assert InClass(h'[c].size, i) && c in chains'[i];
    } else {
      StillFiled(h, h', chains, chains', c);
    }
  }

  /** Replacing list i, and touching only nodes of the old and new list i, keeps all the lists. */
  lemma ReplaceList(h: Headers, h': Headers, heads: seq<int>, chains: seq<seq<int>>, listed: set<int>,
                    i: int, head': int, s': seq<int>, t: seq<int>, listed': set<int>)
    requires ListsHold(h, heads, chains, listed) && 0 <= i < FREE_LIST_COUNT
    requires ListOk(h', head', s', i, listed')
    requires forall j :: 0 <= j < |t| ==> t[j] in h && InClass(h[t[j]].size, i)
    requires h'.Keys == h.Keys && forall k <- h :: h'[k].size == h[k].size && (k !in t ==> h'[k] == h[k])
    requires forall k <- listed :: k !in t ==> k in listed'
    requires forall k <- listed' :: k in s' || k in listed
    requires forall k <- chains[i] :: k in listed' ==> k in s'
    ensures ListsHold(h', heads[i := head'], chains[i := s'], listed')
  {
    var heads', chains' := heads[i := head'], chains[i := s'];
    forall l | 0 <= l < FREE_LIST_COUNT ensures ListOk(h', heads'[l], chains'[l], l, listed') {
      if l != i {
        assert ListOk(h, heads[l], chains[l], l, listed);
        OtherList(h, h', heads[l], chains[l], l, listed, t, i, listed');
      }
    }
    forall c | c in listed' ensures Filed(h', chains', c) {
      RefiledOne(h, h', chains, listed, i, s', listed', c);
    }
  }

  lemma NodesOf(h: Headers, heads: seq<int>, chains: seq<seq<int>>, listed: set<int>, i: int)
    requires ListsHold(h, heads, chains, listed) && 0 <= i < FREE_LIST_COUNT
    ensures ListOk(h, heads[i], chains[i], i, listed)
    ensures forall j :: 0 <= j < |chains[i]| ==> chains[i][j] in h && InClass(h[chains[i][j]].size, i)
  {
    assert ListOk(h, heads[i], chains[i], i, listed);
  }

  lemma Prepended(h: Headers, h': Headers, heads: seq<int>, chains: seq<seq<int>>, listed: set<int>, b: int, i: int,
                  s': seq<int>)
    requires ListsHold(h, heads, chains, listed) && b in h && InClass(h[b].size, i)
    requires s' == [b] + chains[i] && ListOk(h', b, s', i, listed + {b})
    requires h'.Keys == h.Keys
    requires forall k <- h :: h'[k].size == h[k].size && (k != b && k !in chains[i] ==> h'[k] == h[k])
    ensures ListsHold(h', heads[i := b], chains[i := s'], listed + {b})
  {
    NodesOf(h, heads, chains, listed, i);
    assert forall j :: 0 <= j < |s'| ==> s'[j] in h && InClass(h[s'[j]].size, i) by {
      assert forall j :: 0 <= j < |s'| ==> s'[j] == if j == 0 then b else chains[i][j - 1];
    }
    ReplaceList(h, h', heads, chains, listed, i, b, s', s', listed + {b});
  }

  /** Unlinking b from its list leaves lists that hold everything but b. */
  lemma UnlinkKeepsLists(h: Headers, heads: seq<int>, chains: seq<seq<int>>, listed: set<int>, b: int, i: int, j: nat)
    requires ListsHold(h, heads, chains, listed)
    requires 0 <= i < FREE_LIST_COUNT && j < |chains[i]| && chains[i][j] == b
    ensures NodeOk(h, chains[i], j)
    ensures 0 < j ==> NodeOk(h, chains[i], j - 1)
    ensures j + 1 < |chains[i]| ==> NodeOk(h, chains[i], j + 1)
    ensures SameShape(h, Unlink(h, b))
    ensures ListsHold(Unlink(h, b), heads[i := if j == 0 then h[b].nextFree else heads[i]],
                      chains[i := Without(chains[i], j)], listed - {b})
  {
    var s := chains[i];
    assert ListOk(h, heads[i], s, i, listed);
    UnlinkList(h, heads[i], s, i, listed, j);
    UnlinkOne(h, s, j);
    forall c | c in s && c != b ensures c in Without(s, j) {
      WithoutKeeps(s, j, c);
    }
    ReplaceList(h, Unlink(h, b), heads, chains, listed, i, if j == 0 then h[b].nextFree else heads[i],
                Without(s, j), s, listed - {b});
  }

  /** Pushing an unlisted block onto its list leaves lists that hold it too. */
  lemma PushKeepsLists(h: Headers, heads: seq<int>, chains: seq<seq<int>>, listed: set<int>, b: int, i: int)
    requires ListsHold(h, heads, chains, listed) && b in h && 0 <= b && b !in listed && InClass(h[b].size, i)
    ensures heads[i] != NULL ==> heads[i] in h && heads[i] != b
    ensures SameShape(h[b := h[b].(free := true)], Push(h, b, heads[i]))
    ensures ListsHold(Push(h, b, heads[i]), heads[i := b], chains[i := [b] + chains[i]], listed + {b})
  {
    var s := chains[i];
    assert ListOk(h, heads[i], s, i, listed);
    PushList(h, heads[i], s, i, listed, b);
    Prepended(h, Push(h, b, heads[i]), heads, chains, listed, b, i, [b] + s);
  }

  /** Changing no listed block's links or size keeps the lists. */
  lemma ListsFrame(h: Headers, h': Headers, heads: seq<int>, chains: seq<seq<int>>, listed: set<int>)
    requires ListsHold(h, heads, chains, listed)
    requires forall b <- listed :: b in h && b in h' && h'[b].size == h[b].size
               && h'[b].nextFree == h[b].nextFree && h'[b].prevFree == h[b].prevFree
    ensures ListsHold(h', heads, chains, listed)
  {
    forall i | 0 <= i < FREE_LIST_COUNT ensures ListOk(h', heads[i], chains[i], i, listed) {
      assert ListOk(h, heads[i], chains[i], i, listed);
      forall j | 0 <= j < |chains[i]| ensures NodeOk(h', chains[i], j) {
        assert NodeOk(h, chains[i], j);
      }
    }
    forall b | b in listed ensures Filed(h', chains, b) {
      assert Filed(h, chains, b);
    }
  }
}
