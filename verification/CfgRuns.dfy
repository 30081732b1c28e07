/** Walks in a row over one graph: with a fresh counter each, or sharing one. */
module CfgRuns {
  import opened CfgWalk
  import opened CfgReach

  /** The source of counters of src/hir/cfg/cfg.c. */
  class Counter {
    var value: nat

    constructor ()
      ensures value == 0
    {
      value := 0;
    }

    method Next() returns (c: nat)
      modifies this
      ensures c == value == old(value) + 1
    {
      value := value + 1;
      return value;
    }
  }

  /** Every mark in the graph was left by a walk with a counter handed out already. */
  ghost predicate MarksAreOld(blocks: set<Block>, value: nat)
    reads blocks`visited
  {
    forall b :: b in blocks ==> b.visited <= value
  }

  /** A counter above all of them has left no mark. */
  lemma NoMarksYet(blocks: set<Block>, counter: nat)
    requires forall b :: b in blocks ==> b.visited < counter
    ensures MarkedPairs(blocks, counter) == {}
  {
  }

  /** Logic without a state of its own, as the plain walk calls it. */
  function Stateless<C>(logic: (Block, int, C) -> (Action, C)): Logic<(), C> {
    (b: Block, p: int, s: (), c: C) => (logic(b, p, c).0, s, logic(b, p, c).1)
  }

  /** The plain walk: nothing but the block and the predecessor in a frame. */
  method Walk<C>(head: Block?, startPred: int, counter: nat, logic: (Block, int, C) -> (Action, C), ctx: C,
                 ghost blocks: set<Block>)
    returns (result: bool, ctx': C, ghost calls: seq<Call<()>>)
    requires head == null || head in blocks
    requires Closed(Edges(blocks))
    modifies blocks`visited, blocks`visitors
    ensures Trace(Edges(blocks), Start(Heads(head), startPred, ()), old(MarkedPairs(blocks, counter)), Stateless(logic),
                  ctx, calls)
    ensures ctx' == Context(Stateless(logic), ctx, calls)
    ensures StopsLast(result, calls)
    ensures Served(MarkedPairs(blocks, counter), old(MarkedPairs(blocks, counter)), calls)
    ensures forall b :: b in blocks ==>
              b.visited == counter || (b.visited == old(b.visited) && b.visitors == old(b.visitors))
    ensures result ==> Pending(Edges(blocks), Start(Heads(head), startPred, ()), old(MarkedPairs(blocks, counter)),
                               calls, [])
    ensures InOrder(Edges(blocks), head, startPred, (), Stateless(logic), old(MarkedPairs(blocks, counter)), ctx,
                    Walked(calls, MarkedPairs(blocks, counter), ctx', result))
  {
    result, ctx', calls := WalkState(head, startPred, counter, (), Stateless(logic), ctx, blocks);
  }

  /** A walk with a fresh counter: it starts from no marks at all, whatever earlier walks have left. */
  method WalkFresh<C>(head: Block?, logic: (Block, int, C) -> (Action, C), ctx: C, unique: Counter,
                      ghost blocks: set<Block>)
    returns (result: bool, ctx': C, ghost calls: seq<Call<()>>)
    requires head == null || head in blocks
    requires Closed(Edges(blocks)) && MarksAreOld(blocks, unique.value)
    modifies unique, blocks`visited, blocks`visitors
    ensures MarksAreOld(blocks, unique.value) && unique.value == old(unique.value) + 1
    ensures Trace(Edges(blocks), Start(Heads(head), -1, ()), {}, Stateless(logic), ctx, calls)
    ensures ctx' == Context(Stateless(logic), ctx, calls)
    ensures StopsLast(result, calls)
    ensures MarkedPairs(blocks, unique.value) == CalledPairs(calls)
    ensures result ==> Complete(Edges(blocks), Start(Heads(head), -1, ()), calls, CalledPairs(calls))
    ensures forall pairs :: Complete(Edges(blocks), Start(Heads(head), -1, ()), calls, pairs) ==>
              CalledPairs(calls) <= pairs
    ensures InOrder(Edges(blocks), head, -1, (), Stateless(logic), {}, ctx,
                    Walked(calls, CalledPairs(calls), ctx', result))
  {
    var counter := unique.Next();
    assert MarkedPairs(blocks, counter) == {};
    result, ctx', calls := Walk(head, -1, counter, logic, ctx, blocks);
    if result {
      CallsAreLeast(Edges(blocks), Start(Heads(head), -1, ()), Stateless(logic), ctx, calls);
    }
    CallsStayInside(Edges(blocks), Start(Heads(head), -1, ()), {}, Stateless(logic), ctx, calls);
  }

  // ---- several walks with one counter ----

  lemma {:induction false} ContextAppends<S, C>(logic: Logic<S, C>, ctx: C, a: seq<Call<S>>, b: seq<Call<S>>)
    ensures Context(logic, ctx, a + b) == Context(logic, Context(logic, ctx, a), b)
    decreases |b|
  {
    if b == [] {
      assert a + b == a;
    } else {
      var n := |b| - 1;
      assert (a + b)[..|a| + n] == a + b[..n];
      ContextAppends(logic, ctx, a, b[..n]);
    }
  }

  lemma CalledAppends<S>(a: seq<Call<S>>, b: seq<Call<S>>, c: Block, p: int)
    ensures Called(a + b, c, p) <==> Called(a, c, p) || Called(b, c, p)
  {
    if i :| 0 <= i < |a| && a[i].block == c && a[i].pred == p {
      assert (a + b)[i] == a[i];
    }
    if i :| 0 <= i < |b| && b[i].block == c && b[i].pred == p {
      assert (a + b)[|a| + i] == b[i];
    }
  }

  lemma SourcedAppends<S>(g: Graph, start: Start<S>, start': Start<S>, a: seq<Call<S>>, b: seq<Call<S>>, c: Block,
                          p: int, s: S)
    requires start.heads <= start'.heads && start'.pred == start.pred && start'.state == start.state
    requires Sourced(g, start, b, c, p, s)
    ensures Sourced(g, start', a + b, c, p, s)
  {
    if j :| 0 <= j < |b| && Spawns(g, b[j], c, p, s) {
      assert Spawns(g, (a + b)[|a| + j], c, p, s);
    }
  }

  /** The calls of a second walk, which found the pairs of the first one marked, continue its trace. */
  lemma TraceAppends<S, C>(g: Graph, all: Start<S>, one: Start<S>, before: set<(int, Block)>,
                           before': set<(int, Block)>,
                           logic: Logic<S, C>, ctx: C, a: seq<Call<S>>, b: seq<Call<S>>)
    requires one.heads <= all.heads && one.pred == all.pred && one.state == all.state
    requires Trace(g, all, before, logic, ctx, a)
    requires Trace(g, one, before', logic, Context(logic, ctx, a), b)
    requires Served(before', before, a)
    ensures Trace(g, all, before, logic, ctx, a + b)
  {
    var ab := a + b;
    forall i {:trigger CallOk(g, all, before, logic, ctx, ab, i)} | 0 <= i < |ab|
      ensures CallOk(g, all, before, logic, ctx, ab, i)
    {
      if i < |a| {
        assert ab[..i] == a[..i];
        assert CallOk(g, all, before, logic, ctx, a, i);
      } else {
        var k := i - |a|;
        assert ab[..i] == a + b[..k];
        assert CallOk(g, one, before', logic, Context(logic, ctx, a), b, k);
        ContextAppends(logic, ctx, a, b[..k]);
        CalledAppends(a, b[..k], b[k].block, b[k].pred);
        SourcedAppends(g, one, all, a, b[..k], b[k].block, b[k].pred, b[k].before);
      }
    }
  }

  lemma ServedAppends<S>(done: set<(int, Block)>, mid: set<(int, Block)>, before: set<(int, Block)>, a: seq<Call<S>>,
                         b: seq<Call<S>>)
    requires Served(mid, before, a) && Served(done, mid, b)
    ensures Served(done, before, a + b)
  {
    forall q | q in done && q !in before ensures Called(a + b, q.1, q.0) {
      CalledAppends(a, b, q.1, q.0);
    }
  }

  lemma CoveredAppends<S>(before: set<(int, Block)>, mid: set<(int, Block)>, a: seq<Call<S>>, b: seq<Call<S>>,
                          c: Block, p: int)
    requires Served(mid, before, a)
    requires Covered<S>(before, a, [], c, p) || Covered<S>(mid, b, [], c, p)
    ensures Covered<S>(before, a + b, [], c, p)
  {
    CalledAppends(a, b, c, p);
    if (p, c) in mid && (p, c) !in before {
      assert Called(a, (p, c).1, (p, c).0);
    }
  }

  lemma PendingAppends<S>(g: Graph, all: Start<S>, first: Start<S>, one: Start<S>, before: set<(int, Block)>,
                          mid: set<(int, Block)>,
                          a: seq<Call<S>>, b: seq<Call<S>>)
    requires all == Start(first.heads + one.heads, first.pred, first.state) && one.pred == first.pred
    requires Served(mid, before, a)
    requires Pending(g, first, before, a, []) && Pending(g, one, mid, b, [])
    ensures Pending(g, all, before, a + b, [])
  {
    var none: seq<Frame<S>> := [];
    forall h | h in all.heads ensures Covered(before, a + b, none, h, all.pred) {
      assert Covered(before, a, none, h, all.pred) || Covered(mid, b, none, h, all.pred);
      CoveredAppends(before, mid, a, b, h, all.pred);
    }
    forall j | 0 <= j < |a + b| ensures Expanded(g, before, a + b, none, j) {
      var c := (a + b)[j];
      if j < |a| {
        assert Expanded(g, before, a, none, j);
      } else {
        assert Expanded(g, mid, b, none, j - |a|);
      }
      if c.action == Continue && c.block in g {
        forall s | s in g && s in g[c.block] ensures Covered(before, a + b, none, s, c.block.id) {
          assert Covered(before, a, none, s, c.block.id) || Covered(mid, b, none, s, c.block.id);
          CoveredAppends(before, mid, a, b, s, c.block.id);
        }
      }
    }
  }

  function HeadSet(exits: seq<Block>): set<Block> {
    set i | 0 <= i < |exits| :: exits[i]
  }

  /** All walks from the first exits, taken together. */
  ghost predicate Joined<S, C>(g: Graph, all: Start<S>, some: set<Block>, logic: Logic<S, C>, ctx: C,
                               calls: seq<Call<S>>,
                               marks: set<(int, Block)>, ctx': C, result: bool)
  {
    && Trace(g, all, {}, logic, ctx, calls)
    && ctx' == Context(logic, ctx, calls)
    && StopsLast(result, calls)
    && Served(marks, {}, calls)
    && (result ==> Pending(g, Start(some, all.pred, all.state), {}, calls, []))
  }

  lemma StopsAppends<S>(result: bool, a: seq<Call<S>>, b: seq<Call<S>>)
    requires StopsLast(true, a) && StopsLast(result, b)
    ensures StopsLast(result, a + b)
  {
    if i :| 0 <= i < |b| && b[i].action == Stop {
      assert (a + b)[|a| + i] == b[i];
    }
  }

  /** One more walk with the same counter. */
  lemma JoinMore<S, C>(g: Graph, all: Start<S>, some: set<Block>, one: set<Block>, logic: Logic<S, C>, ctx: C,
                       a: seq<Call<S>>, mid: set<(int, Block)>, ctx1: C, b: seq<Call<S>>, marks: set<(int, Block)>,
                       ctx': C, result: bool)
    requires one <= all.heads
    requires Joined(g, all, some, logic, ctx, a, mid, ctx1, true)
    requires Trace(g, Start(one, all.pred, all.state), mid, logic, ctx1, b)
    requires ctx' == Context(logic, ctx1, b) && StopsLast(result, b) && Served(marks, mid, b)
    requires result ==> Pending(g, Start(one, all.pred, all.state), mid, b, [])
    ensures Joined(g, all, some + one, logic, ctx, a + b, marks, ctx', result)
  {
    TraceAppends(g, all, Start(one, all.pred, all.state), {}, mid, logic, ctx, a, b);
    ContextAppends(logic, ctx, a, b);
    ServedAppends(marks, mid, {}, a, b);
    if result {
      PendingAppends(g, Start(some + one, all.pred, all.state), Start(some, all.pred, all.state),
                     Start(one, all.pred, all.state), {}, mid, a, b);
    }
    StopsAppends(result, a, b);
  }

  lemma JoinNone<S, C>(g: Graph, all: Start<S>, logic: Logic<S, C>, ctx: C)
    ensures Joined(g, all, {}, logic, ctx, [], {}, ctx, true)
  {
  }

  lemma JoinEnds<S, C>(g: Graph, all: Start<S>, some: set<Block>, logic: Logic<S, C>, ctx: C, calls: seq<Call<S>>,
                       marks: set<(int, Block)>, ctx': C, result: bool)
    requires Joined(g, all, some, logic, ctx, calls, marks, ctx', result) && (result ==> some == all.heads)
    ensures Trace(g, all, {}, logic, ctx, calls) && ctx' == Context(logic, ctx, calls) && StopsLast(result, calls)
    ensures result ==> Complete(g, all, calls, CalledPairs(calls))
    ensures forall pairs :: Complete(g, all, calls, pairs) ==> CalledPairs(calls) <= pairs
  {
    hide Trace;
    hide StopsLast;
    hide Served;
    hide Complete;
    hide CalledPairs;
    if result {
      assert Start(some, all.pred, all.state) == all;
      CallsAreLeast(g, all, logic, ctx, calls);
    }
    CallsStayInside(g, all, {}, logic, ctx, calls);
  }

  /** The walk from every loop exit of src/hir/loop/dle.c: one counter for all, so no pair is called twice in the whole
      of it. */
  method WalkExits<C>(exits: seq<Block>, logic: (Block, int, C) -> (Action, C), ctx: C, unique: Counter,
                      ghost blocks: set<Block>)
    returns (result: bool, ctx': C, ghost calls: seq<Call<()>>)
    requires HeadSet(exits) <= blocks
    requires Closed(Edges(blocks)) && MarksAreOld(blocks, unique.value)
    modifies unique, blocks`visited, blocks`visitors
    ensures MarksAreOld(blocks, unique.value)
    ensures Trace(Edges(blocks), Start(HeadSet(exits), -1, ()), {}, Stateless(logic), ctx, calls)
    ensures ctx' == Context(Stateless(logic), ctx, calls)
    ensures StopsLast(result, calls)
    ensures result ==> Complete(Edges(blocks), Start(HeadSet(exits), -1, ()), calls, CalledPairs(calls))
    ensures forall pairs :: Complete(Edges(blocks), Start(HeadSet(exits), -1, ()), calls, pairs) ==>
              CalledPairs(calls) <= pairs
  {
    hide Trace;
    hide Pending;
    hide StopsLast;
    hide Served;
    hide Complete;
    hide CalledPairs;
    hide Stateless;
    hide InOrder;
    hide Marked;
    hide MarkedPairs;
    hide Joined;
    hide Context;
    var counter := unique.Next();
    ghost var g := Edges(blocks);
    ghost var all := Start(HeadSet(exits), -1, ());
    NoMarksYet(blocks, counter);
    result, ctx', calls := true, ctx, [];
    var k := 0;
    JoinNone(g, all, Stateless(logic), ctx);
    assert HeadSet(exits[..k]) == {};
    while k < |exits| && result
      invariant 0 <= k <= |exits|
      invariant unique.value == counter && MarksAreOld(blocks, counter)
      invariant Joined(g, all, HeadSet(exits[..k]), Stateless(logic), ctx, calls, MarkedPairs(blocks, counter), ctx',
                       result)
      decreases |exits| - k
    {
      ghost var mid := MarkedPairs(blocks, counter);
      var ok, c, more := Walk(exits[k], -1, counter, logic, ctx', blocks);
      JoinMore(g, all, HeadSet(exits[..k]), Heads(exits[k]), Stateless(logic), ctx, calls, mid, ctx', more,
               MarkedPairs(blocks, counter), c, ok);
      assert HeadSet(exits[..k + 1]) == HeadSet(exits[..k]) + Heads(exits[k]);
      result, ctx', calls := ok, c, calls + more;
      k := k + 1;
    }
    assert result ==> exits[..k] == exits;
    JoinEnds(g, all, HeadSet(exits[..k]), Stateless(logic), ctx, calls, MarkedPairs(blocks, counter), ctx', result);
  }
}
