/** What a finished walk has called, against definitions of reachability that know nothing of the stack. */
module CfgReach {
  import opened CfgWalk

  ghost predicate Leads<S>(g: Graph, c: Call<S>, b: Block) {
    c.action == Continue && c.block in g && b in g[c.block]
  }

  /** A set of pairs that holds the starts, and every successor of a pair of its own whose call went on. */
  ghost predicate Complete<S>(g: Graph, start: Start<S>, calls: seq<Call<S>>, pairs: set<(int, Block)>) {
    && (forall h :: h in start.heads ==> (start.pred, h) in pairs)
    && forall i, b ::
         0 <= i < |calls| && b in g && Leads(g, calls[i], b) && (calls[i].pred, calls[i].block) in pairs ==>
         (calls[i].block.id, b) in pairs
  }

  ghost function CalledPairs<S>(calls: seq<Call<S>>): (pairs: set<(int, Block)>)
  {
    set i | 0 <= i < |calls| :: (calls[i].pred, calls[i].block)
  }

  /** No pair is called twice in a walk, nor called again after an earlier walk with the same counter. */
  lemma CalledOnce<S, C>(g: Graph, start: Start<S>, before: set<(int, Block)>, logic: Logic<S, C>, ctx: C,
                         calls: seq<Call<S>>, i: nat, j: nat)
    requires Trace(g, start, before, logic, ctx, calls) && i < j < |calls|
    ensures (calls[i].pred, calls[i].block) != (calls[j].pred, calls[j].block)
    ensures (calls[j].pred, calls[j].block) !in before
  {
    assert CallOk(g, start, before, logic, ctx, calls, j);
    assert calls[..j][i] == calls[i];
  }

  /** Whatever set of pairs is complete, the walk stays inside it. */
  lemma {:induction false} StaysInside<S, C>(g: Graph, start: Start<S>, before: set<(int, Block)>, logic: Logic<S, C>,
                                             ctx: C, calls: seq<Call<S>>,
                                             pairs: set<(int, Block)>, i: nat)
    requires Trace(g, start, before, logic, ctx, calls) && Complete(g, start, calls, pairs) && i < |calls|
    ensures (calls[i].pred, calls[i].block) in pairs
    decreases i
  {
    assert CallOk(g, start, before, logic, ctx, calls, i);
    if j :| 0 <= j < i && Spawns(g, calls[..i][j], calls[i].block, calls[i].pred, calls[i].before) {
      StaysInside(g, start, before, logic, ctx, calls, pairs, j);
    }
  }

  lemma CallsStayInside<S, C>(g: Graph, start: Start<S>, before: set<(int, Block)>, logic: Logic<S, C>, ctx: C,
                              calls: seq<Call<S>>)
    requires Trace(g, start, before, logic, ctx, calls)
    ensures forall pairs :: Complete(g, start, calls, pairs) ==> CalledPairs(calls) <= pairs
  {
    forall pairs | Complete(g, start, calls, pairs) ensures CalledPairs(calls) <= pairs {
      forall i | 0 <= i < |calls| ensures (calls[i].pred, calls[i].block) in pairs {
        StaysInside(g, start, before, logic, ctx, calls, pairs, i);
      }
    }
  }

  /** A walk with a fresh counter that is never stopped calls exactly the least complete set of pairs. */
  lemma CallsAreLeast<S, C>(g: Graph, start: Start<S>, logic: Logic<S, C>, ctx: C, calls: seq<Call<S>>)
    requires Trace(g, start, {}, logic, ctx, calls) && Pending(g, start, {}, calls, [])
    ensures Complete(g, start, calls, CalledPairs(calls))
    ensures forall pairs :: Complete(g, start, calls, pairs) ==> CalledPairs(calls) <= pairs
  {
    var none: seq<Frame<S>> := [];
    forall h | h in start.heads ensures (start.pred, h) in CalledPairs(calls) {
      assert Covered({}, calls, none, h, start.pred);
    }
    forall i, b | 0 <= i < |calls| && b in g && Leads(g, calls[i], b)
      ensures (calls[i].block.id, b) in CalledPairs(calls)
    {
      assert Expanded(g, {}, calls, none, i);
      assert Covered({}, calls, none, b, calls[i].block.id);
    }
    CallsStayInside(g, start, {}, logic, ctx, calls);
  }

  // ---- one real path behind every call ----

  ghost predicate Handed<S>(g: Graph, calls: seq<Call<S>>, path: seq<nat>, k: nat)
    requires 0 < k < |path| && path[k - 1] < |calls| && path[k] < |calls|
  {
    && path[k - 1] < path[k]
    && Spawns(g, calls[path[k - 1]], calls[path[k]].block, calls[path[k]].pred, calls[path[k]].before)
  }

  /** A list of calls, each spawning the next with the state it left, the first one made from the start. */
  ghost predicate IsPath<S>(g: Graph, start: Start<S>, calls: seq<Call<S>>, path: seq<nat>) {
    && |path| > 0
    && (forall k :: 0 <= k < |path| ==> path[k] < |calls|)
    && calls[path[0]].block in start.heads && calls[path[0]].pred == start.pred && calls[path[0]].before == start.state
    && forall k {:trigger Handed(g, calls, path, k)} :: 0 < k < |path| ==> Handed(g, calls, path, k)
  }

  /** The state handed to a call was carried along one path of continued calls from the start. */
  lemma {:induction false} PathBehind<S, C>(g: Graph, start: Start<S>, before: set<(int, Block)>, logic: Logic<S, C>,
                                            ctx: C, calls: seq<Call<S>>, i: nat)
    returns (path: seq<nat>)
    requires Trace(g, start, before, logic, ctx, calls) && i < |calls|
    ensures IsPath(g, start, calls, path) && path[|path| - 1] == i
    decreases i
  {
    assert CallOk(g, start, before, logic, ctx, calls, i);
    var c := calls[i];
    if c.block in start.heads && c.pred == start.pred && c.before == start.state {
      path := [i];
    } else {
      var j :| 0 <= j < i && Spawns(g, calls[..i][j], c.block, c.pred, c.before);
      var shorter := PathBehind(g, start, before, logic, ctx, calls, j);
      path := shorter + [i];
      forall k | 0 < k < |path| ensures Handed(g, calls, path, k) {
        if k < |shorter| {
          assert Handed(g, calls, shorter, k);
        }
      }
    }
  }

  /** What a state becomes when it is handed along a route of pairs. */
  function Carried<S>(step: (Block, int, S) -> S, state: S, route: seq<(int, Block)>): S {
    if route == [] then state else
    var n := |route| - 1;
    step(route[n].1, route[n].0, Carried(step, state, route[..n]))
  }

  function RouteOf<S>(calls: seq<Call<S>>, path: seq<nat>): (route: seq<(int, Block)>)
    requires forall k :: 0 <= k < |path| ==> path[k] < |calls|
    ensures |route| == |path|
  {
    seq(|path|, k requires 0 <= k < |path| => (calls[path[k]].pred, calls[path[k]].block))
  }

  /** When the new state depends on nothing but the old state and the pair, it is the fold of the path: no sibling has
      touched it. */
  lemma {:induction false} StateIsFold<S>(g: Graph, start: Start<S>, calls: seq<Call<S>>,
                                          step: (Block, int, S) -> S, path: seq<nat>)
    requires IsPath(g, start, calls, path)
    requires forall i :: 0 <= i < |calls| ==> calls[i].after == step(calls[i].block, calls[i].pred, calls[i].before)
    ensures calls[path[|path| - 1]].before == Carried(step, start.state, RouteOf(calls, path[..|path| - 1]))
    decreases |path|
  {
    if |path| > 1 {
      var shorter := path[..|path| - 1];
      var n := |shorter| - 1;
      forall k | 0 < k < |shorter| ensures Handed(g, calls, shorter, k) {
        assert Handed(g, calls, path, k);
      }
      StateIsFold(g, start, calls, step, shorter);
      assert Handed(g, calls, path, |path| - 1);
      assert RouteOf(calls, shorter)[..n] == RouteOf(calls, shorter[..n]);
    }
  }

  // ---- decisions that depend on the pair alone ----

  ghost predicate Onward(g: Graph, decide: (Block, int) -> Action, route: seq<(int, Block)>, k: nat)
    requires 0 < k < |route|
  {
    var (p, b), (q, c) := route[k - 1], route[k];
    decide(b, p) == Continue && q == b.id && b in g && c in g && c in g[b]
  }

  /** A route from the start along edges out of pairs the decision goes on from. */
  ghost predicate Route<S>(g: Graph, start: Start<S>, decide: (Block, int) -> Action, route: seq<(int, Block)>) {
    && |route| > 0 && route[0].1 in start.heads && route[0].0 == start.pred
    && forall k {:trigger Onward(g, decide, route, k)} :: 0 < k < |route| ==> Onward(g, decide, route, k)
  }

  ghost predicate DecidedBy<S>(calls: seq<Call<S>>, decide: (Block, int) -> Action) {
    forall i :: 0 <= i < |calls| ==> calls[i].action == decide(calls[i].block, calls[i].pred)
  }

  /** Every route is walked to its end ... */
  lemma {:induction false} RouteIsCalled<S>(g: Graph, start: Start<S>, calls: seq<Call<S>>,
                                            decide: (Block, int) -> Action, route: seq<(int, Block)>)
    requires Pending(g, start, {}, calls, []) && DecidedBy(calls, decide)
    requires Route(g, start, decide, route)
    ensures Called(calls, route[|route| - 1].1, route[|route| - 1].0)
    decreases |route|
  {
    var none: seq<Frame<S>> := [];
    if |route| == 1 {
      assert Covered({}, calls, none, route[0].1, start.pred);
    } else {
      var n := |route| - 2;
      var front := route[..n + 1];
      forall k {:trigger Onward(g, decide, front, k)} | 0 < k < |front| ensures Onward(g, decide, front, k) {
        assert Onward(g, decide, route, k);
      }
      assert Onward(g, decide, route, n + 1);
      RouteIsCalled(g, start, calls, decide, front);
      var i :| 0 <= i < |calls| && calls[i].block == route[n].1 && calls[i].pred == route[n].0;
      assert Expanded(g, {}, calls, none, i);
      assert Covered({}, calls, none, route[n + 1].1, calls[i].block.id);
    }
  }

  /** ... and nothing is called that no route leads to. */
  lemma CallHasRoute<S, C>(g: Graph, start: Start<S>, logic: Logic<S, C>, ctx: C, calls: seq<Call<S>>,
                           decide: (Block, int) -> Action, i: nat)
    returns (route: seq<(int, Block)>)
    requires Trace(g, start, {}, logic, ctx, calls) && DecidedBy(calls, decide) && i < |calls|
    ensures Route(g, start, decide, route) && route[|route| - 1] == (calls[i].pred, calls[i].block)
  {
    var path := PathBehind(g, start, {}, logic, ctx, calls, i);
    route := RouteOf(calls, path);
    forall k | 0 < k < |route| ensures Onward(g, decide, route, k) {
      assert Handed(g, calls, path, k);
      assert CallOk(g, start, {}, logic, ctx, calls, path[k]);
    }
  }
}
