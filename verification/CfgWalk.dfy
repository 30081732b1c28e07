/** The depth-first walk of include/hir/cfg.h: an explicit stack, one call per (predecessor, block) pair. */
module CfgWalk {

  datatype Action = Continue | Skip | Stop

  predicate Marked(b: Block, counter: nat, p: int)
    reads b
  {
    b.visited == counter && p in b.visitors
  }

  ghost function MarkedPairs(blocks: set<Block>, counter: nat): (pairs: set<(int, Block)>)
    reads blocks
    ensures forall b, p :: b in blocks ==> (Marked(b, counter, p) <==> (p, b) in pairs)
  {
    set b, p | b in blocks && b.visited == counter && p in b.visitors :: (p, b)
  }

  /** The part of cfg_block_t the walk touches. */
  class Block {
    const id: int
    var succ: seq<Block?>   // in iteration order; a null member is skipped
    var visitors: set<int>  // predecessor ids already served ...
    var visited: nat        // ... by the walk with this counter

    constructor (id: int)
      ensures this.id == id && succ == [] && visitors == {} && visited == 0
    {
      this.id := id;
      succ, visitors, visited := [], {}, 0;
    }

    /** Marks the predecessor as served; marks of an older walk are dropped first. False if it was served already. */
    method Enter(counter: nat, pred: int, ghost blocks: set<Block>) returns (first: bool)
      requires this in blocks
      modifies `visited, `visitors
      ensures first <==> !old(Marked(this, counter, pred))
      ensures if first then visited == counter else visited == old(visited) && visitors == old(visitors)
      ensures MarkedPairs(blocks, counter) == old(MarkedPairs(blocks, counter)) + {(pred, this)}
    {
      if visited != counter {
        visitors := {};
      }
      if pred in visitors {
        return false;
      }
      visited := counter;
      visitors := visitors + {pred};
      return true;
    }
  }

  datatype Frame<S> = Frame(block: Block, pred: int, state: S)

  /** One call of the logic: what it was given, and what it left and answered. */
  datatype Call<S> = Call(block: Block, pred: int, before: S, after: S, action: Action)

  /** Where walks begin: the non-null heads, the predecessor id given for them, and the state handed to them. */
  datatype Start<S> = Start(heads: set<Block>, pred: int, state: S)

  function Heads(head: Block?): set<Block> {
    if head == null then {} else {head}
  }

  type Logic<!S, !C> = (Block, int, S, C) -> (Action, S, C)

  // ---- the graph ----

  type Graph = map<Block, seq<Block?>>

  ghost function Edges(blocks: set<Block>): Graph
    reads blocks`succ
  {
    map b | b in blocks :: b.succ
  }

  ghost predicate Inside(succ: seq<Block?>, g: Graph) {
    forall k :: 0 <= k < |succ| ==> succ[k] == null || succ[k] in g
  }

  /** Every edge of the graph stays inside it. */
  ghost predicate Closed(g: Graph) {
    forall b :: b in g ==> Inside(g[b], g)
  }

  // ---- what a walk promises ----

  ghost predicate Called<S>(calls: seq<Call<S>>, b: Block, p: int) {
    exists i :: 0 <= i < |calls| && calls[i].block == b && calls[i].pred == p
  }

  /** Call c makes the walk go on to block b, handing it state s. */
  ghost predicate Spawns<S>(g: Graph, c: Call<S>, b: Block, p: int, s: S) {
    c.action == Continue && p == c.block.id && c.block in g && b in g[c.block] && s == c.after
  }

  /** A visit of b from p in state s comes from the start or from one of the given calls. */
  ghost predicate Sourced<S>(g: Graph, start: Start<S>, calls: seq<Call<S>>, b: Block, p: int, s: S) {
    || (b in start.heads && p == start.pred && s == start.state)
    || exists j :: 0 <= j < |calls| && Spawns(g, calls[j], b, p, s)
  }

  /** The context after the given calls. */
  function Context<S, C>(logic: Logic<S, C>, ctx: C, calls: seq<Call<S>>): C {
    if calls == [] then ctx else
    var n := |calls| - 1;
    logic(calls[n].block, calls[n].pred, calls[n].before, Context(logic, ctx, calls[..n])).2
  }

  /** Call i was made with a sourced state, to a pair not called before, and answered as the logic does. */
  ghost predicate CallOk<S, C>(g: Graph, start: Start<S>, before: set<(int, Block)>, logic: Logic<S, C>, ctx: C,
                               calls: seq<Call<S>>, i: nat)
    requires i < |calls|
  {
    && calls[i].block in g
    && Sourced(g, start, calls[..i], calls[i].block, calls[i].pred, calls[i].before)
    && (calls[i].pred, calls[i].block) !in before && !Called(calls[..i], calls[i].block, calls[i].pred)
    && logic(calls[i].block, calls[i].pred, calls[i].before, Context(logic, ctx, calls[..i])).0 == calls[i].action
    && logic(calls[i].block, calls[i].pred, calls[i].before, Context(logic, ctx, calls[..i])).1 == calls[i].after
  }

  ghost predicate Trace<S, C>(g: Graph, start: Start<S>, before: set<(int, Block)>, logic: Logic<S, C>, ctx: C,
                              calls: seq<Call<S>>) {
    forall i {:trigger CallOk(g, start, before, logic, ctx, calls, i)} :: 0 <= i < |calls| ==>
        CallOk(g, start, before, logic, ctx, calls, i)
  }

  ghost predicate NoStop<S>(calls: seq<Call<S>>) {
    forall i :: 0 <= i < |calls| ==> calls[i].action != Stop
  }

  lemma TraceSnoc<S, C>(g: Graph, start: Start<S>, before: set<(int, Block)>, logic: Logic<S, C>, ctx: C,
                        calls: seq<Call<S>>, c: Call<S>)
    requires Trace(g, start, before, logic, ctx, calls)
    requires c.block in g && (c.pred, c.block) !in before && !Called(calls, c.block, c.pred)
    requires Sourced(g, start, calls, c.block, c.pred, c.before)
    requires logic(c.block, c.pred, c.before, Context(logic, ctx, calls)).0 == c.action
    requires logic(c.block, c.pred, c.before, Context(logic, ctx, calls)).1 == c.after
    ensures Trace(g, start, before, logic, ctx, calls + [c])
    ensures Context(logic, ctx, calls + [c]) == logic(c.block, c.pred, c.before, Context(logic, ctx, calls)).2
  {
    var calls' := calls + [c];
    assert calls'[..|calls|] == calls;
    forall i | 0 <= i < |calls'| ensures CallOk(g, start, before, logic, ctx, calls', i) {
      if i < |calls| {
        assert CallOk(g, start, before, logic, ctx, calls, i);
        assert calls'[..i] == calls[..i];
      }
    }
  }

  lemma SourcedMore<S>(g: Graph, start: Start<S>, calls: seq<Call<S>>, c: Call<S>, b: Block, p: int, s: S)
    requires Sourced(g, start, calls, b, p, s) || Spawns(g, c, b, p, s)
    ensures Sourced(g, start, calls + [c], b, p, s)
  {
    var calls' := calls + [c];
    if Spawns(g, c, b, p, s) {
      assert Spawns(g, calls'[|calls|], b, p, s);
    } else if j :| 0 <= j < |calls| && Spawns(g, calls[j], b, p, s) {
      assert Spawns(g, calls'[j], b, p, s);
    }
  }

  lemma CalledMore<S>(calls: seq<Call<S>>, c: Call<S>, b: Block, p: int)
    ensures Called(calls + [c], b, p) <==> Called(calls, b, p) || (c.block == b && c.pred == p)
  {
    var calls' := calls + [c];
    if c.block == b && c.pred == p {
      assert calls'[|calls|] == c;
    }
    if i :| 0 <= i < |calls| && calls[i].block == b && calls[i].pred == p {
      assert calls'[i] == calls[i];
    }
  }

  // ---- the stack ----

  /** The frames pushed for the successors of a block. */
  function Frames<S>(succ: seq<Block?>, pred: int, state: S): seq<Frame<S>> {
    if succ == [] then [] else
    var n := |succ| - 1;
    if succ[n] == null then Frames(succ[..n], pred, state)
    else Frames(succ[..n], pred, state) + [Frame(succ[n], pred, state)]
  }

  lemma {:induction false} FramesFrom<S>(succ: seq<Block?>, pred: int, state: S, i: nat)
    requires i < |Frames(succ, pred, state)|
    ensures Frames(succ, pred, state)[i].block in succ
    ensures Frames(succ, pred, state)[i] == Frame(Frames(succ, pred, state)[i].block, pred, state)
  {
    var n := |succ| - 1;
    if i < |Frames(succ[..n], pred, state)| {
      FramesFrom(succ[..n], pred, state, i);
    }
  }

  lemma {:induction false} FramesAll<S>(succ: seq<Block?>, pred: int, state: S, b: Block)
    requires b in succ
    ensures Frame(b, pred, state) in Frames(succ, pred, state)
  {
    var n := |succ| - 1;
    if succ[n] != b {
      FramesAll(succ[..n], pred, state, b);
    }
  }

  // ---- what the loop keeps ----

  ghost predicate Stacked<S>(stack: seq<Frame<S>>, b: Block, p: int) {
    exists k :: 0 <= k < |stack| && stack[k].block == b && stack[k].pred == p
  }

  ghost predicate Covered<S>(before: set<(int, Block)>, calls: seq<Call<S>>, stack: seq<Frame<S>>, b: Block, p: int) {
    (p, b) in before || Called(calls, b, p) || Stacked(stack, b, p)
  }

  /** Every successor of a continued call has been called before, is called in this walk, or waits on the stack. */
  ghost predicate Expanded<S>(g: Graph, before: set<(int, Block)>, calls: seq<Call<S>>, stack: seq<Frame<S>>, j: nat)
    requires j < |calls|
  {
    calls[j].action == Continue && calls[j].block in g ==>
      forall b :: b in g && b in g[calls[j].block] ==> Covered(before, calls, stack, b, calls[j].block.id)
  }

  ghost predicate FrameOk<S>(g: Graph, start: Start<S>, calls: seq<Call<S>>, f: Frame<S>) {
    f.block in g && Sourced(g, start, calls, f.block, f.pred, f.state)
  }

  ghost predicate Pending<S>(g: Graph, start: Start<S>, before: set<(int, Block)>, calls: seq<Call<S>>,
                             stack: seq<Frame<S>>) {
    && (forall h {:trigger Covered(before, calls, stack, h, start.pred)} :: h in start.heads ==>
          Covered(before, calls, stack, h, start.pred))
    && (forall j {:trigger Expanded(g, before, calls, stack, j)} :: 0 <= j < |calls| ==>
          Expanded(g, before, calls, stack, j))
    && (forall k {:trigger stack[k]} :: 0 <= k < |stack| ==> FrameOk(g, start, calls, stack[k]))
  }

  lemma CoverMoves<S>(before: set<(int, Block)>, calls: seq<Call<S>>, stack: seq<Frame<S>>, calls': seq<Call<S>>,
                      stack': seq<Frame<S>>, b: Block, p: int)
    requires |stack| > 0 && |calls| <= |calls'| && calls'[..|calls|] == calls
    requires |stack| - 1 <= |stack'| && stack'[..|stack| - 1] == stack[..|stack| - 1]
    requires var f := stack[|stack| - 1]; (f.pred, f.block) in before || Called(calls', f.block, f.pred)
    requires Covered(before, calls, stack, b, p)
    ensures Covered(before, calls', stack', b, p)
  {
    if (p, b) !in before {
      if i :| 0 <= i < |calls| && calls[i].block == b && calls[i].pred == p {
        assert calls'[i] == calls'[..|calls|][i];
      } else {
        var k :| 0 <= k < |stack| && stack[k].block == b && stack[k].pred == p;
        if k < |stack| - 1 {
          assert stack'[k] == stack'[..|stack| - 1][k];
        }
      }
    }
  }

  /** A frame whose pair has been served is dropped. */
  lemma DropServed<S>(g: Graph, start: Start<S>, before: set<(int, Block)>, calls: seq<Call<S>>, stack: seq<Frame<S>>)
    requires |stack| > 0 && Pending(g, start, before, calls, stack)
    requires var f := stack[|stack| - 1]; (f.pred, f.block) in before || Called(calls, f.block, f.pred)
    ensures Pending(g, start, before, calls, stack[..|stack| - 1])
  {
    var stack' := stack[..|stack| - 1];
    forall h | h in start.heads ensures Covered(before, calls, stack', h, start.pred) {
      CoverMoves(before, calls, stack, calls, stack', h, start.pred);
    }
    forall j | 0 <= j < |calls| ensures Expanded(g, before, calls, stack', j) {
      assert Expanded(g, before, calls, stack, j);
      if calls[j].action == Continue && calls[j].block in g {
        forall b | b in g && b in g[calls[j].block] ensures Covered(before, calls, stack', b, calls[j].block.id) {
          CoverMoves(before, calls, stack, calls, stack', b, calls[j].block.id);
        }
      }
    }
    forall k | 0 <= k < |stack'| ensures FrameOk(g, start, calls, stack'[k]) {
      assert FrameOk(g, start, calls, stack[k]);
    }
  }

  function NextStack<S>(g: Graph, c: Call<S>, stack: seq<Frame<S>>): seq<Frame<S>>
    requires |stack| > 0
  {
    stack[..|stack| - 1] + (if c.action == Continue && c.block in g then Frames(g[c.block], c.block.id, c.after)
                            else [])
  }

  lemma NewFrameStacked<S>(g: Graph, c: Call<S>, stack: seq<Frame<S>>, b: Block)
    requires |stack| > 0 && c.action == Continue && c.block in g && b in g[c.block]
    ensures Stacked(NextStack(g, c, stack), b, c.block.id)
  {
    FramesAll(g[c.block], c.block.id, c.after, b);
    var fs := Frames(g[c.block], c.block.id, c.after);
    var k :| 0 <= k < |fs| && fs[k] == Frame(b, c.block.id, c.after);
    assert NextStack(g, c, stack)[|stack| - 1 + k] == fs[k];
  }

  lemma NewFrameOk<S>(g: Graph, start: Start<S>, calls: seq<Call<S>>, c: Call<S>, stack: seq<Frame<S>>, k: nat)
    requires Closed(g) && |stack| > 0 && |stack| - 1 <= k < |NextStack(g, c, stack)|
    ensures FrameOk(g, start, calls + [c], NextStack(g, c, stack)[k])
  {
    var f := NextStack(g, c, stack)[k];
    FramesFrom(g[c.block], c.block.id, c.after, k - (|stack| - 1));
    assert Inside(g[c.block], g);
    SourcedMore(g, start, calls, c, f.block, f.pred, f.state);
  }

  /** Calling the logic for the top frame and pushing the successors it asks for. */
  lemma VisitTop<S>(g: Graph, start: Start<S>, before: set<(int, Block)>, calls: seq<Call<S>>, stack: seq<Frame<S>>,
                    c: Call<S>)
    requires Closed(g) && |stack| > 0 && Pending(g, start, before, calls, stack)
    requires c.block == stack[|stack| - 1].block && c.pred == stack[|stack| - 1].pred
    ensures Pending(g, start, before, calls + [c], NextStack(g, c, stack))
  {
    var calls', stack' := calls + [c], NextStack(g, c, stack);
    var n := |stack| - 1;
    assert FrameOk(g, start, calls, stack[n]);
    CalledMore(calls, c, c.block, c.pred);
    assert stack'[..n] == stack[..n];
    forall h | h in start.heads ensures Covered(before, calls', stack', h, start.pred) {
      CoverMoves(before, calls, stack, calls', stack', h, start.pred);
    }
    forall j | 0 <= j < |calls'| ensures Expanded(g, before, calls', stack', j) {
      if calls'[j].action == Continue && calls'[j].block in g {
        if j < |calls| {
          assert Expanded(g, before, calls, stack, j);
        }
        forall b | b in g && b in g[calls'[j].block] ensures Covered(before, calls', stack', b, calls'[j].block.id) {
          if j < |calls| {
            CoverMoves(before, calls, stack, calls', stack', b, calls[j].block.id);
          } else {
            NewFrameStacked(g, c, stack, b);
          }
        }
      }
    }
    forall k | 0 <= k < |stack'| ensures FrameOk(g, start, calls', stack'[k]) {
      if k < n {
        assert stack'[k] == stack[k];
        assert FrameOk(g, start, calls, stack[k]);
        SourcedMore(g, start, calls, c, stack[k].block, stack[k].pred, stack[k].state);
      } else {
        NewFrameOk(g, start, calls, c, stack, k);
      }
    }
  }

  // ---- depth first, by recursion ----

  /** All pairs a walk of the blocks can come to. */
  ghost function Pairs(startPred: int, blocks: set<Block>): set<(int, Block)> {
    var preds := {startPred} + set b | b in blocks :: b.id;
    set b, p | b in blocks && p in preds :: (p, b)
  }

  /** What a walk has called, the pairs that are served, the context, and whether it was not stopped. */
  datatype Walked<S, C> = Walked(calls: seq<Call<S>>, done: set<(int, Block)>, ctx: C, result: bool)

  /** All pairs with that predecessor, and with one of the graph, are in u. */
  ghost predicate Bounds(g: Graph, u: set<(int, Block)>, pred: int) {
    forall c :: c in g ==> (pred, c) in u && forall b :: b in g ==> (b.id, c) in u
  }

  lemma PairsBound(g: Graph, pred: int)
    ensures Bounds(g, Pairs(pred, g.Keys), pred)
  {
  }

  /** The blocks from the last to the first, each that was not served yet with everything below it before the next. */
  ghost function DepthFirst<S, C>(g: Graph, u: set<(int, Block)>, logic: Logic<S, C>, blocks: seq<Block?>, pred: int,
                                  state: S, done: set<(int, Block)>, ctx: C): (w: Walked<S, C>)
    requires Closed(g) && Inside(blocks, g) && Bounds(g, u, pred)
    ensures done <= w.done
    decreases u - done, |blocks|
  {
    if blocks == [] then Walked([], done, ctx, true) else
    var n := |blocks| - 1;
    var b := blocks[n];
    if b == null || (pred, b) in done then DepthFirst(g, u, logic, blocks[..n], pred, state, done, ctx) else
    var (action, after, ctx1) := logic(b, pred, state, ctx);
    var served := done + {(pred, b)};
    var below := if action == Continue then DepthFirst(g, u, logic, g[b], b.id, after, served, ctx1)
                 else Walked([], served, ctx1, action != Stop);
    var calls := [Call(b, pred, state, after, action)] + below.calls;
    if !below.result then below.(calls := calls)
    else
      var rest := DepthFirst(g, u, logic, blocks[..n], pred, state, below.done, below.ctx);
      rest.(calls := calls + rest.calls)
  }

  /** One walk after the other, if the first was not stopped. */
  ghost function Then<S, C>(first: Walked<S, C>, next: Walked<S, C>): Walked<S, C> {
    if first.result then next.(calls := first.calls + next.calls) else first
  }

  lemma LastFirst<S, C>(g: Graph, u: set<(int, Block)>, logic: Logic<S, C>, blocks: seq<Block?>, pred: int, state: S,
                        done: set<(int, Block)>, ctx: C)
    requires Closed(g) && Inside(blocks, g) && Bounds(g, u, pred) && |blocks| > 0
    ensures var n := |blocks| - 1;
      var top := DepthFirst(g, u, logic, [blocks[n]], pred, state, done, ctx);
      DepthFirst(g, u, logic, blocks, pred, state, done, ctx)
      == Then(top, DepthFirst(g, u, logic, blocks[..n], pred, state, top.done, top.ctx))
  {
    assert [blocks[|blocks| - 1]][..0] == [];
  }

  lemma OneServed<S, C>(g: Graph, u: set<(int, Block)>, logic: Logic<S, C>, b: Block, pred: int, state: S,
                        done: set<(int, Block)>, ctx: C)
    requires Closed(g) && b in g && Bounds(g, u, pred) && (pred, b) in done
    ensures DepthFirst(g, u, logic, [b], pred, state, done, ctx) == Walked([], done, ctx, true)
  {
    var blocks: seq<Block?> := [b];
    assert blocks[..0] == [];
  }

  lemma OneVisited<S, C>(g: Graph, u: set<(int, Block)>, logic: Logic<S, C>, b: Block, pred: int, state: S,
                         done: set<(int, Block)>, ctx: C)
    requires Closed(g) && b in g && Bounds(g, u, pred) && (pred, b) !in done
    ensures var (action, after, ctx') := logic(b, pred, state, ctx);
      var one := Walked([Call(b, pred, state, after, action)], done + {(pred, b)}, ctx', action != Stop);
      DepthFirst(g, u, logic, [b], pred, state, done, ctx)
      == if action == Continue then Then(one, DepthFirst(g, u, logic, g[b], b.id, after, one.done, ctx')) else one
  {
    var blocks: seq<Block?> := [b];
    assert blocks[..0] == [];
  }

  /** The frames have blocks and predecessors of the graph. */
  ghost predicate Bounded<S>(g: Graph, u: set<(int, Block)>, stack: seq<Frame<S>>) {
    forall k {:trigger stack[k]} :: 0 <= k < |stack| ==> Bounds(g, u, stack[k].pred) && stack[k].block in g
  }

  /** What is left to do for the frames of a stack, the top first. */
  ghost function Unwind<S, C>(g: Graph, u: set<(int, Block)>, logic: Logic<S, C>, stack: seq<Frame<S>>,
                              done: set<(int, Block)>, ctx: C): Walked<S, C>
    requires Closed(g) && Bounded(g, u, stack)
    decreases |stack|
  {
    if stack == [] then Walked([], done, ctx, true) else
    var n := |stack| - 1;
    var top := DepthFirst(g, u, logic, [stack[n].block], stack[n].pred, stack[n].state, done, ctx);
    Then(top, Unwind(g, u, logic, stack[..n], top.done, top.ctx))
  }

  lemma FramesBounded<S>(g: Graph, u: set<(int, Block)>, stack: seq<Frame<S>>, blocks: seq<Block?>, pred: int, state: S)
    requires Inside(blocks, g) && Bounds(g, u, pred) && Bounded(g, u, stack)
    ensures Bounded(g, u, stack + Frames(blocks, pred, state))
  {
    var fs := Frames(blocks, pred, state);
    forall k | 0 <= k < |stack + fs|
      ensures Bounds(g, u, (stack + fs)[k].pred) && (stack + fs)[k].block in g
    {
      if k >= |stack| {
        FramesFrom(blocks, pred, state, k - |stack|);
      }
    }
  }

  lemma ThenGroups<S, C>(a: Walked<S, C>, b: Walked<S, C>, c: Walked<S, C>)
    ensures Then(Then(a, b), c) == Then(a, Then(b, c))
  {
    assert (a.calls + b.calls) + c.calls == a.calls + (b.calls + c.calls);
  }

  /** The frames pushed for some blocks are done before those below them, from the last to the first. */
  lemma {:induction false} UnwindFrames<S, C>(g: Graph, u: set<(int, Block)>, logic: Logic<S, C>, stack: seq<Frame<S>>,
                                              blocks: seq<Block?>, pred: int, state: S, done: set<(int, Block)>,
                                              ctx: C)
    requires Closed(g) && Inside(blocks, g) && Bounds(g, u, pred) && Bounded(g, u, stack)
    ensures Bounded(g, u, stack + Frames(blocks, pred, state))
    ensures var w := DepthFirst(g, u, logic, blocks, pred, state, done, ctx);
      Unwind(g, u, logic, stack + Frames(blocks, pred, state), done, ctx)
      == Then(w, Unwind(g, u, logic, stack, w.done, w.ctx))
    decreases |blocks|
  {
    FramesBounded(g, u, stack, blocks, pred, state);
    if blocks == [] {
      assert stack + Frames(blocks, pred, state) == stack;
    } else {
      var n := |blocks| - 1;
      var b := blocks[n];
      LastFirst(g, u, logic, blocks, pred, state, done, ctx);
      var top := DepthFirst(g, u, logic, [b], pred, state, done, ctx);
      UnwindFrames(g, u, logic, stack, blocks[..n], pred, state, top.done, top.ctx);
      var rest := DepthFirst(g, u, logic, blocks[..n], pred, state, top.done, top.ctx);
      if b == null {
        assert [b][..0] == [];
      } else {
        var below := stack + Frames(blocks[..n], pred, state);
        assert stack + Frames(blocks, pred, state) == below + [Frame(b, pred, state)];
        assert (below + [Frame(b, pred, state)])[..|below|] == below;
        ThenGroups(top, rest, Unwind(g, u, logic, stack, rest.done, rest.ctx));
      }
    }
  }

  /** A frame whose pair has been served has nothing to do. */
  lemma UnwindDrops<S, C>(g: Graph, u: set<(int, Block)>, logic: Logic<S, C>, stack: seq<Frame<S>>,
                          done: set<(int, Block)>, ctx: C)
    requires Closed(g) && Bounded(g, u, stack) && |stack| > 0
    requires (stack[|stack| - 1].pred, stack[|stack| - 1].block) in done
    ensures Unwind(g, u, logic, stack, done, ctx) == Unwind(g, u, logic, stack[..|stack| - 1], done, ctx)
  {
    var f := stack[|stack| - 1];
    OneServed(g, u, logic, f.block, f.pred, f.state, done, ctx);
  }

  /** Any other is called, and what it pushes is done before the rest. */
  lemma UnwindVisits<S, C>(g: Graph, u: set<(int, Block)>, logic: Logic<S, C>, stack: seq<Frame<S>>,
                           done: set<(int, Block)>, ctx: C, c: Call<S>)
    requires Closed(g) && Bounded(g, u, stack) && |stack| > 0
    requires var f := stack[|stack| - 1];
      && (f.pred, f.block) !in done
      && c == Call(f.block, f.pred, f.state, logic(f.block, f.pred, f.state, ctx).1,
                   logic(f.block, f.pred, f.state, ctx).0)
    ensures Bounded(g, u, NextStack(g, c, stack))
    ensures var ctx' := logic(c.block, c.pred, c.before, ctx).2;
      var one := Walked([c], done + {(c.pred, c.block)}, ctx', c.action != Stop);
      Unwind(g, u, logic, stack, done, ctx)
      == Then(one, Unwind(g, u, logic, NextStack(g, c, stack), done + {(c.pred, c.block)}, ctx'))
  {
    var n := |stack| - 1;
    var f := stack[n];
    var b, below, served := f.block, stack[..n], done + {(f.pred, f.block)};
    var ctx' := logic(b, f.pred, f.state, ctx).2;
    OneVisited(g, u, logic, b, f.pred, f.state, done, ctx);
    assert Bounded(g, u, below) && Inside(g[b], g) && Bounds(g, u, b.id);
    hide DepthFirst;
    hide Bounded;
    hide Bounds;
    hide Closed;
    hide Inside;
    if c.action == Continue {
      UnwindFrames(g, u, logic, below, g[b], b.id, c.after, served, ctx');
      var next := DepthFirst(g, u, logic, g[b], b.id, c.after, served, ctx');
      ThenGroups(Walked([c], served, ctx', true), next, Unwind(g, u, logic, below, next.done, next.ctx));
    } else {
      assert NextStack(g, c, stack) == below;
    }
  }

  /** What was called so far, and then what the stack holds, is the whole walk. */
  ghost predicate OnTheWay<S, C>(g: Graph, u: set<(int, Block)>, logic: Logic<S, C>, whole: Walked<S, C>,
                                 calls: seq<Call<S>>, stack: seq<Frame<S>>, done: set<(int, Block)>, ctx: C,
                                 result: bool)
    requires Closed(g)
  {
    && Bounded(g, u, stack)
    && whole == Then(Walked(calls, done, ctx, result), Unwind(g, u, logic, stack, done, ctx))
  }

  /** The stack a walk begins with. */
  function Initial<S>(head: Block?, pred: int, state: S): seq<Frame<S>> {
    if head == null then [] else [Frame(head, pred, state)]
  }

  lemma WayBegins<S, C>(g: Graph, u: set<(int, Block)>, logic: Logic<S, C>, head: Block?, pred: int, state: S,
                        done: set<(int, Block)>, ctx: C)
    requires Closed(g) && (head == null || head in g) && Bounds(g, u, pred)
    ensures OnTheWay(g, u, logic, DepthFirst(g, u, logic, [head], pred, state, done, ctx), [],
                     Initial(head, pred, state), done, ctx, true)
  {
    var blocks: seq<Block?> := [head];
    assert blocks[..0] == [];
    var none: seq<Frame<S>> := [];
    UnwindFrames(g, u, logic, none, blocks, pred, state, done, ctx);
    assert none + Frames(blocks, pred, state) == Initial(head, pred, state);
  }

  lemma WayDrops<S, C>(g: Graph, u: set<(int, Block)>, logic: Logic<S, C>, whole: Walked<S, C>, calls: seq<Call<S>>,
                       stack: seq<Frame<S>>, done: set<(int, Block)>, ctx: C)
    requires Closed(g) && OnTheWay(g, u, logic, whole, calls, stack, done, ctx, true) && |stack| > 0
    requires (stack[|stack| - 1].pred, stack[|stack| - 1].block) in done
    ensures OnTheWay(g, u, logic, whole, calls, stack[..|stack| - 1], done, ctx, true)
  {
    UnwindDrops(g, u, logic, stack, done, ctx);
  }

  lemma WayVisits<S, C>(g: Graph, u: set<(int, Block)>, logic: Logic<S, C>, whole: Walked<S, C>, calls: seq<Call<S>>,
                        stack: seq<Frame<S>>, done: set<(int, Block)>, ctx: C, c: Call<S>)
    requires Closed(g) && OnTheWay(g, u, logic, whole, calls, stack, done, ctx, true) && |stack| > 0
    requires var f := stack[|stack| - 1];
      && (f.pred, f.block) !in done
      && c == Call(f.block, f.pred, f.state, logic(f.block, f.pred, f.state, ctx).1,
                   logic(f.block, f.pred, f.state, ctx).0)
    ensures OnTheWay(g, u, logic, whole, calls + [c], NextStack(g, c, stack), done + {(c.pred, c.block)},
                     logic(c.block, c.pred, c.before, ctx).2, c.action != Stop)
  {
    UnwindVisits(g, u, logic, stack, done, ctx, c);
    hide Unwind;
    hide Bounded;
    var ctx' := logic(c.block, c.pred, c.before, ctx).2;
    var served := done + {(c.pred, c.block)};
    ThenGroups(Walked(calls, done, ctx, true), Walked([c], served, ctx', c.action != Stop),
               Unwind(g, u, logic, NextStack(g, c, stack), served, ctx'));
  }

  lemma WayEnds<S, C>(g: Graph, u: set<(int, Block)>, logic: Logic<S, C>, whole: Walked<S, C>, calls: seq<Call<S>>,
                      stack: seq<Frame<S>>, done: set<(int, Block)>, ctx: C, result: bool)
    requires Closed(g) && OnTheWay(g, u, logic, whole, calls, stack, done, ctx, result) && (result ==> stack == [])
    ensures Walked(calls, done, ctx, result) == whole
  {
  }

  // ---- the walk ----

  method PushSuccessors<S>(stack: seq<Frame<S>>, bb: Block, state: S) returns (stack': seq<Frame<S>>)
    ensures stack' == stack + Frames(bb.succ, bb.id, state)
  {
    stack' := stack;
    var k := 0;
    while k < |bb.succ|
      invariant 0 <= k <= |bb.succ|
      invariant stack' == stack + Frames(bb.succ[..k], bb.id, state)
    {
      assert bb.succ[..k + 1][..k] == bb.succ[..k];
      if bb.succ[k] != null {
        stack' := stack' + [Frame(bb.succ[k], bb.id, state)];
      }
      k := k + 1;
    }
    assert bb.succ[..k] == bb.succ;
  }

  lemma InPairs<S>(g: Graph, start: Start<S>, calls: seq<Call<S>>, f: Frame<S>)
    requires FrameOk(g, start, calls, f)
    ensures (f.pred, f.block) in Pairs(start.pred, g.Keys)
  {
  }

  /** A stop is the last call, and makes the result false. */
  ghost predicate StopsLast<S>(result: bool, calls: seq<Call<S>>) {
    && (result <==> NoStop(calls))
    && forall i :: 0 <= i < |calls| - 1 ==> calls[i].action != Stop
  }

  lemma FirstPending<S>(g: Graph, start: Start<S>, before: set<(int, Block)>, head: Block?, stack: seq<Frame<S>>)
    requires (head == null || head in g) && start.heads == Heads(head)
    requires stack == if head == null then [] else [Frame(head, start.pred, start.state)]
    ensures Pending(g, start, before, [], stack)
  {
    if head != null {
      assert stack[0].block == head;
    }
  }

  /** The pairs served before the walk or called in it. */
  ghost predicate Served<S>(done: set<(int, Block)>, before: set<(int, Block)>, calls: seq<Call<S>>) {
    && before <= done
    && (forall i {:trigger calls[i]} :: 0 <= i < |calls| ==> (calls[i].pred, calls[i].block) in done)
    && forall q :: q in done && q !in before ==> Called(calls, q.1, q.0)
  }

  lemma ServeMore<S>(done: set<(int, Block)>, before: set<(int, Block)>, calls: seq<Call<S>>, c: Call<S>)
    requires Served(done, before, calls)
    ensures Served(done + {(c.pred, c.block)}, before, calls + [c])
  {
    forall q | q in done + {(c.pred, c.block)} && q !in before ensures Called(calls + [c], q.1, q.0) {
      CalledMore(calls, c, q.1, q.0);
    }
  }

  /** Between two rounds of the loop. */
  ghost predicate Running<S, C>(g: Graph, start: Start<S>, before: set<(int, Block)>, logic: Logic<S, C>, ctx: C,
                                calls: seq<Call<S>>, stack: seq<Frame<S>>, done: set<(int, Block)>, ctx': C,
                                result: bool)
  {
    && Pending(g, start, before, calls, stack)
    && Trace(g, start, before, logic, ctx, calls)
    && ctx' == Context(logic, ctx, calls)
    && StopsLast(result, calls)
    && Served(done, before, calls)
    && done <= before + Pairs(start.pred, g.Keys)
  }

  lemma RunStarts<S, C>(g: Graph, start: Start<S>, before: set<(int, Block)>, logic: Logic<S, C>, ctx: C,
                        head: Block?, stack: seq<Frame<S>>)
    requires (head == null || head in g) && start.heads == Heads(head)
    requires stack == if head == null then [] else [Frame(head, start.pred, start.state)]
    ensures Running(g, start, before, logic, ctx, [], stack, before, ctx, true)
  {
    FirstPending(g, start, before, head, stack);
  }

  lemma RunTop<S, C>(g: Graph, start: Start<S>, before: set<(int, Block)>, logic: Logic<S, C>, ctx: C,
                     calls: seq<Call<S>>, stack: seq<Frame<S>>, done: set<(int, Block)>, ctx': C, result: bool)
    requires Running(g, start, before, logic, ctx, calls, stack, done, ctx', result) && |stack| > 0
    ensures stack[|stack| - 1].block in g
    ensures (stack[|stack| - 1].pred, stack[|stack| - 1].block) in Pairs(start.pred, g.Keys)
    ensures done <= before + Pairs(start.pred, g.Keys)
  {
    var f := stack[|stack| - 1];
    assert FrameOk(g, start, calls, f);
    InPairs(g, start, calls, f);
  }

  lemma RunEnds<S, C>(g: Graph, start: Start<S>, before: set<(int, Block)>, logic: Logic<S, C>, ctx: C,
                      calls: seq<Call<S>>, stack: seq<Frame<S>>, done: set<(int, Block)>, ctx': C, result: bool)
    requires Running(g, start, before, logic, ctx, calls, stack, done, ctx', result) && (result ==> stack == [])
    ensures Trace(g, start, before, logic, ctx, calls) && ctx' == Context(logic, ctx, calls)
    ensures StopsLast(result, calls) && Served(done, before, calls) && (result ==> Pending(g, start, before, calls, []))
  {
  }

  lemma RunDrops<S, C>(g: Graph, start: Start<S>, before: set<(int, Block)>, logic: Logic<S, C>, ctx: C,
                       calls: seq<Call<S>>, stack: seq<Frame<S>>, done: set<(int, Block)>, ctx': C, result: bool)
    requires Running(g, start, before, logic, ctx, calls, stack, done, ctx', result)
    requires |stack| > 0 && (stack[|stack| - 1].pred, stack[|stack| - 1].block) in done
    ensures Running(g, start, before, logic, ctx, calls, stack[..|stack| - 1], done, ctx', result)
  {
    DropServed(g, start, before, calls, stack);
  }

  lemma RunVisits<S, C>(g: Graph, start: Start<S>, before: set<(int, Block)>, logic: Logic<S, C>, ctx: C,
                        calls: seq<Call<S>>, stack: seq<Frame<S>>, done: set<(int, Block)>, ctx': C, c: Call<S>)
    requires Closed(g) && |stack| > 0
    requires Running(g, start, before, logic, ctx, calls, stack, done, ctx', true)
    requires var f := stack[|stack| - 1];
      && (f.pred, f.block) !in done
      && c == Call(f.block, f.pred, f.state, logic(f.block, f.pred, f.state, ctx').1,
                   logic(f.block, f.pred, f.state, ctx').0)
    ensures Running(g, start, before, logic, ctx, calls + [c], NextStack(g, c, stack), done + {(c.pred, c.block)},
                    logic(c.block, c.pred, c.before, ctx').2, c.action != Stop)
  {
    var f := stack[|stack| - 1];
    RunTop(g, start, before, logic, ctx, calls, stack, done, ctx', true);
    assert FrameOk(g, start, calls, f);
    VisitTop(g, start, before, calls, stack, c);
    TraceSnoc(g, start, before, logic, ctx, calls, c);
    ServeMore(done, before, calls, c);
    assert (calls + [c])[|calls|] == c;
  }

  /** The calls, the marks, the context and the result are those of the recursion. */
  ghost predicate InOrder<S, C>(g: Graph, head: Block?, pred: int, state: S, logic: Logic<S, C>,
                                before: set<(int, Block)>, ctx: C, w: Walked<S, C>)
    requires Closed(g) && (head == null || head in g)
  {
    w == DepthFirst(g, Pairs(pred, g.Keys), logic, [head], pred, state, before, ctx)
  }

  lemma ItIsInOrder<S, C>(g: Graph, head: Block?, pred: int, state: S, logic: Logic<S, C>, before: set<(int, Block)>,
                          ctx: C, w: Walked<S, C>)
    requires Closed(g) && (head == null || head in g) && Bounds(g, Pairs(pred, g.Keys), pred)
    requires w == DepthFirst(g, Pairs(pred, g.Keys), logic, [head], pred, state, before, ctx)
    ensures InOrder(g, head, pred, state, logic, before, ctx, w)
  {
  }

  method WalkState<S, C>(head: Block?, startPred: int, counter: nat, initial: S, logic: Logic<S, C>, ctx: C,
                         ghost blocks: set<Block>)
    returns (result: bool, ctx': C, ghost calls: seq<Call<S>>)
    requires head == null || head in blocks
    requires Closed(Edges(blocks))
    modifies blocks`visited, blocks`visitors
    ensures Trace(Edges(blocks), Start(Heads(head), startPred, initial), old(MarkedPairs(blocks, counter)), logic, ctx,
                  calls)
    ensures ctx' == Context(logic, ctx, calls)
    ensures StopsLast(result, calls)
    ensures Served(MarkedPairs(blocks, counter), old(MarkedPairs(blocks, counter)), calls)
    ensures forall b :: b in blocks ==>
              b.visited == counter || (b.visited == old(b.visited) && b.visitors == old(b.visitors))
    ensures result ==> Pending(Edges(blocks), Start(Heads(head), startPred, initial), old(MarkedPairs(blocks, counter)),
                               calls, [])
    // in the order of the recursion
    ensures InOrder(Edges(blocks), head, startPred, initial, logic, old(MarkedPairs(blocks, counter)), ctx,
                    Walked(calls, MarkedPairs(blocks, counter), ctx', result))
  {
    hide OnTheWay;
    hide Running;
    hide Pairs;
    hide Bounds;
    hide Marked;
    hide MarkedPairs;
    hide InOrder;
    hide Frames;
    hide Context;
    hide DepthFirst;
    hide Trace;
    hide Pending;
    hide StopsLast;
    hide Served;
    ghost var g := Edges(blocks);
    ghost var start := Start(Heads(head), startPred, initial);
    ghost var before := MarkedPairs(blocks, counter);
    ghost var done := before;
    var stack: seq<Frame<S>> := Initial(head, startPred, initial);
    ghost var u := Pairs(startPred, g.Keys);
    PairsBound(g, startPred);
    assert Inside([head], g);
    ghost var whole := DepthFirst(g, u, logic, [head], startPred, initial, before, ctx);
    WayBegins(g, u, logic, head, startPred, initial, before, ctx);
    result, ctx', calls := true, ctx, [];
    RunStarts(g, start, before, logic, ctx, head, stack);
    while result && stack != []
      invariant Running(g, start, before, logic, ctx, calls, stack, done, ctx', result)
      invariant OnTheWay(g, u, logic, whole, calls, stack, done, ctx', result)
      invariant MarkedPairs(blocks, counter) == done
      invariant forall b :: b in blocks ==>
                  b.visited == counter || (b.visited == old(b.visited) && b.visitors == old(b.visitors))
      decreases before + u - done, |stack|
    {
      var f := stack[|stack| - 1];
      RunTop(g, start, before, logic, ctx, calls, stack, done, ctx', result);
      ghost var stack0 := stack;
      stack := stack[..|stack| - 1];
      var first := f.block.Enter(counter, f.pred, blocks);
      if !first {
        RunDrops(g, start, before, logic, ctx, calls, stack0, done, ctx', result);
        WayDrops(g, u, logic, whole, calls, stack0, done, ctx');
      } else {
        var (action, after, c) := logic(f.block, f.pred, f.state, ctx');
        ghost var call := Call(f.block, f.pred, f.state, after, action);
        RunVisits(g, start, before, logic, ctx, calls, stack0, done, ctx', call);
        WayVisits(g, u, logic, whole, calls, stack0, done, ctx', call);
        ctx' := c;
        calls := calls + [call];
        done := done + {(f.pred, f.block)};
        if action == Stop {
          result := false;
        } else if action == Continue {
          stack := PushSuccessors(stack, f.block, after);
        }
        assert stack == NextStack(g, call, stack0);
      }
    }
    RunEnds(g, start, before, logic, ctx, calls, stack, done, ctx', result);
    WayEnds(g, u, logic, whole, calls, stack, done, ctx', result);
    ItIsInOrder(g, head, startPred, initial, logic, before, ctx, Walked(calls, done, ctx', result));
  }
}
