/** The doubly linked list of std/list.c. */
module LinkedList {
  import opened Common

  class Node<T> {
    var data: T
    var n: Node?<T>
    var p: Node?<T>

    constructor (data: T, n: Node?<T>, p: Node?<T>)
      ensures this.data == data && this.n == n && this.p == p
    {
      this.data, this.n, this.p := data, n, p;
    }
  }

  ghost predicate Distinct<T>(s: seq<T>) {
    forall i, j :: 0 <= i < j < |s| ==> s[i] != s[j]
  }

  lemma WithDistinct<T>(s: seq<T>, k: nat, x: T)
    requires Distinct(s) && k <= |s| && x !in s
    ensures Distinct(With(s, k, x))
  {
    var r := With(s, k, x);
    forall i | 0 <= i < |r| ensures r[i] == x <==> i == k {
      assert i < k ==> s[i] in s;
      assert i > k ==> s[i - 1] in s;
    }
  }

  /** The nodes, in order, are linked both ways. */
  ghost predicate Linked<T>(nodes: seq<Node<T>>, i: nat)
    requires i < |nodes|
    reads nodes[i]
  {
    && nodes[i].n == (if i + 1 < |nodes| then nodes[i + 1] else null)
    && nodes[i].p == (if i > 0 then nodes[i - 1] else null)
  }

  class List<T(==)> {
    var h: Node?<T>
    var t: Node?<T>
    var s: int
    ghost var nodes: seq<Node<T>>

    ghost predicate Valid()
      reads this, nodes
    {
      && s == |nodes|
      && (if nodes == [] then h == null && t == null else h == nodes[0] && t == nodes[|nodes| - 1])
      && (forall i {:trigger Linked(nodes, i)} :: 0 <= i < |nodes| ==> Linked(nodes, i))
      && Distinct(nodes)
    }

    ghost function Repr(): set<Node<T>>
      reads this
    {
      set i | 0 <= i < |nodes| :: nodes[i]
    }

    ghost function Contents(): (c: seq<T>)
      reads this, nodes
      ensures |c| == |nodes| && forall i :: 0 <= i < |c| ==> c[i] == nodes[i].data
    {
      seq(|nodes|, i requires 0 <= i < |nodes| reads this, nodes => nodes[i].data)
    }

    constructor ()
      ensures Valid() && Contents() == []
    {
      h, t, s, nodes := null, null, 0, [];
    }

    /** list_add */
    method Add(data: T)
      requires Valid()
      modifies this, nodes
      ensures Valid() && Contents() == old(Contents()) + [data]
      ensures |nodes| == |old(nodes)| + 1 && nodes[..|old(nodes)|] == old(nodes) && fresh(nodes[|old(nodes)|])
    {
      var node := new Node(data, null, null);
      if h == null {
        h, t, s := node, node, 1;
        nodes := [node];
        return;
      }
      node.p := t;
      t.n := node;
      t := node;
      s := s + 1;
      nodes := nodes + [node];
      forall i | 0 <= i < |nodes| ensures Linked(nodes, i) {
        assert i < |old(nodes)| ==> old(Linked(nodes, i));
      }
    }

    /** The loop shared by list_insert and list_remove. */
    method SeekFirst(x: T) returns (cur: Node?<T>, ghost k: nat)
      requires Valid()
      ensures k == IndexOf(Contents(), x, 0) && cur == if k < |nodes| then nodes[k] else null
    {
      cur, k := h, 0;
      while cur != null
        invariant k <= |nodes| && cur == (if k < |nodes| then nodes[k] else null)
        invariant IndexOf(Contents(), x, 0) == IndexOf(Contents(), x, k)
        decreases |nodes| - k
      {
        assert Linked(nodes, k);
        if cur.data == x {
          break;
        }
        cur, k := cur.n, k + 1;
      }
    }

    /** Links a node in front of the given one. */
    method LinkBefore(node: Node<T>, cur: Node<T>, ghost k: nat)
      requires Valid() && k < |nodes| && cur == nodes[k] && node !in nodes
      modifies this, nodes, node
      ensures Valid() && nodes == With(old(nodes), k, node) && node.data == old(node.data)
      ensures forall i :: 0 <= i < |old(nodes)| ==> old(nodes)[i].data == old(nodes[i].data)
    {
      WithDistinct(nodes, k, node);
      assert Linked(nodes, k);
      node.n := cur;
      node.p := cur.p;
      if cur.p != null {
        cur.p.n := node;
      } else {
        h := node;
      }
      cur.p := node;
      s := s + 1;
      nodes := With(nodes, k, node);
      forall i | 0 <= i < |nodes| ensures Linked(nodes, i) {
        if i < k {
          assert old(Linked(nodes, i));
        } else if i > k {
          assert old(Linked(nodes, i - 1));
        }
      }
    }

    method InsertBefore(data: T, cur: Node<T>, ghost k: nat)
      requires Valid() && k < |nodes| && cur == nodes[k]
      modifies this, nodes
      ensures Valid() && Contents() == With(old(Contents()), k, data)
    {
      ghost var was, c := nodes, Contents();
      var node := new Node(data, null, null);
      LinkBefore(node, cur, k);
      ghost var d := With(c, k, data);
      forall i | 0 <= i < |nodes| ensures nodes[i].data == d[i] {
        assert nodes[i] == if i < k then was[i] else if i == k then node else was[i - 1];
      }
    }

    /** list_insert: in front of the first occurrence of the given element, or at the end. */
    method Insert(data: T, before: T)
      requires Valid()
      modifies this, nodes
      ensures Valid() && Contents() == With(old(Contents()), IndexOf(old(Contents()), before, 0), data)
    {
      assert With(Contents(), |nodes|, data) == Contents() + [data];
      hide With;
      hide Distinct;
      hide Linked;
      if h == null {
        Add(data);
        return;
      }
      var cur, k := SeekFirst(before);
      if cur == null {
        Add(data);
      } else {
        InsertBefore(data, cur, k);
      }
    }

    method Unlink(cur: Node<T>, ghost k: nat)
      requires Valid() && k < |nodes| && cur == nodes[k]
      modifies this, nodes
      ensures Valid() && nodes == Without(old(nodes), k)
      ensures forall i :: 0 <= i < |old(nodes)| ==> old(nodes)[i].data == old(nodes[i].data)
    {
      assert Linked(nodes, k);
      if cur.p != null {
        cur.p.n := cur.n;
      } else {
        h := cur.n;
      }
      if cur.n != null {
        cur.n.p := cur.p;
      } else {
        t := cur.p;
      }
      s := s - 1;
      nodes := Without(nodes, k);
      forall i | 0 <= i < |nodes| ensures Linked(nodes, i) {
        if i < k {
          assert old(Linked(nodes, i));
        } else {
          assert old(Linked(nodes, i + 1));
        }
      }
    }

    /** list_remove: unlinks the first occurrence; the other nodes stay where they are. */
    method Remove(data: T) returns (ok: bool)
      requires Valid()
      modifies this, nodes
      ensures Valid()
      ensures var c, k := old(Contents()), IndexOf(old(Contents()), data, 0);
        && ok == (k < |c|)
        && nodes == (if ok then Without(old(nodes), k) else old(nodes))
        && Repr() <= old(Repr())
        && Contents() == if ok then Without(c, k) else c
    {
      if h == null {
        return false;
      }
      var cur, k := SeekFirst(data);
      if cur == null {
        return false;
      }
      Unlink(cur, k);
      return true;
    }
  }
}
