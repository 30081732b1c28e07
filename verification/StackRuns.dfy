/** Runs of stack_map_alloc, stack_map_free and stack_map_set_base: the bitmap is the disjoint union of the live
    intervals. */
module StackRuns {
  import opened Common
  import opened Words
  import opened StackMap

  /** Live intervals, length by start. */
  type Live = map<nat, nat>

  ghost predicate InLive(live: Live, i: nat) {
    exists s :: s in live && s <= i < s + live[s]
  }

  predicate Disjoint(live: Live, s: nat, t: nat)
    requires s in live && t in live
  {
    s + live[s] <= t || t + live[t] <= s
  }

  /** The taken cells are exactly the live ones, and live intervals do not overlap. */
  ghost predicate Covers(taken: set<nat>, live: Live) {
    && (forall s <- live :: live[s] > 0)
    && (forall i: nat {:trigger InLive(live, i)} :: i in taken <==> InLive(live, i))
    && (forall s, t {:trigger Disjoint(live, s, t)} :: s in live && t in live && s != t ==> Disjoint(live, s, t))
  }

  lemma CoversAlloc(taken: set<nat>, live: Live, start: nat, n: nat)
    requires Covers(taken, live) && n > 0 && Fits(taken, start, n)
    ensures start !in live && Covers(taken + Interval(start, n), live[start := n])
  {
    var live': Live := live[start := n];
    if start in live {
      assert InLive(live, start);
    }
    forall i: nat ensures i in taken + Interval(start, n) <==> InLive(live', i) {
      if InLive(live, i) {
        var s :| s in live && s <= i < s + live[s];
        assert s in live' && s <= i < s + live'[s];
      }
      if start <= i < start + n {
        assert start in live' && start <= i < start + live'[start];
      }
      if InLive(live', i) {
        var s :| s in live' && s <= i < s + live'[s];
        assert s == start || (s in live && s <= i < s + live[s]);
      }
    }
    forall s, t | s in live' && t in live' && s != t ensures Disjoint(live', s, t) {
      if s != start && t != start {
        assert Disjoint(live, s, t);
      } else {
        var o := if s == start then t else s;
        if start < o {
          assert InLive(live, o);
        } else if start < o + live[o] {
          assert InLive(live, start);
        }
      }
    }
  }

  lemma CoversFree(taken: set<nat>, live: Live, s: nat)
    requires Covers(taken, live) && s in live
    ensures Covers(taken - Interval(s, live[s]), live - {s})
  {
    var live' := live - {s};
    forall i: nat ensures i in taken - Interval(s, live[s]) <==> InLive(live', i) {
      if InLive(live, i) && !(s <= i < s + live[s]) {
        var t :| t in live && t <= i < t + live[t];
        assert t in live' && t <= i < t + live'[t];
      }
      if InLive(live', i) {
        var t :| t in live' && t <= i < t + live'[t];
        assert t in live && t <= i < t + live[t] && Disjoint(live, s, t);
        assert InLive(live, i);
      }
    }
    forall x, y | x in live' && y in live' && x != y ensures Disjoint(live', x, y) {
      assert Disjoint(live, x, y);
    }
  }

  /** Handing a live interval back by its end clears exactly that interval if and only if it starts at
      or above the base and ends strictly below the size. */
  lemma LiveFree(taken: set<nat>, live: Live, base: nat, size: nat, s: nat)
    requires Covers(taken, live) && s in live
    ensures FreeStart(taken, base, size, s + live[s], live[s]) == s <==> base <= s && s + live[s] < size
  {
    forall i: nat | i in Interval(s, live[s]) ensures i in taken {
      assert InLive(live, i);
    }
    assert Interval(s, live[s]) <= taken;
  }

  /** Handing a live interval back by its start clears exactly that interval if and only if it starts at or above the
      base, ends within the size, and not all of the equally many cells before it are taken and at or above the base.
      If they are, they are cleared instead. */
  lemma LiveFreeByStart(taken: set<nat>, live: Live, base: nat, size: nat, s: nat)
    requires Covers(taken, live) && s in live
    ensures var n := live[s];
      var before := base <= s - n && forall i: nat :: s - n <= i < s ==> i in taken;
      && (FreeStart(taken, base, size, s, n) == s <==> base <= s && s + n <= size && !before)
      && (before && s < size ==> FreeStart(taken, base, size, s, n) == s - n)
      && (!before && (base > s || s + n > size) ==> FreeStart(taken, base, size, s, n) == -1)
  {
    var n := live[s];
    forall i: nat | i in Interval(s, n) ensures i in taken {
      assert InLive(live, i);
    }
    if base <= s - n {
      assert Interval(s - n, n) <= taken <==> forall i: nat :: s - n <= i < s ==> i in taken;
    }
  }

  /** An interval that ends at the size is refused: after filling a fresh map it can never be freed by its end. */
  lemma FullMapIsRefused()
    ensures Covers(Interval(0, DEFAULT), map[0 := DEFAULT])
    ensures FreeStart(Interval(0, DEFAULT), 0, DEFAULT, DEFAULT, DEFAULT) == -1
  {
    assert Covers({}, map[]) by {
      forall i: nat ensures i in {} <==> InLive(map[], i) {}
    }
    CoversAlloc({}, map[], 0, DEFAULT);
    var live: Live := map[];
    assert live[0 := DEFAULT] == map[0 := DEFAULT];
    assert {} + Interval(0, DEFAULT) == Interval(0, DEFAULT);
  }

  /** Once the base has been moved above a live interval, handing that interval back by its end clears the cells behind
      it if they are taken, whoever owns them, and nothing else. */
  lemma BelowBase(taken: set<nat>, live: Live, base: nat, size: nat, s: nat)
    requires Covers(taken, live) && s in live && s < base
    ensures var n, end := live[s], s + live[s];
            FreeStart(taken, base, size, end, n) ==
            if base <= end && end + n <= size && Interval(end, n) <= taken then end else -1
  {
  }

  /** Two intervals of one cell, the base moved to the second: freeing the first clears the second. */
  lemma RebasedFreeHitsOther()
    ensures Covers({0, 1}, map[0 := 1, 1 := 1])
    ensures FreeStart({0, 1}, 1, DEFAULT, 1, 1) == 1
  {
    var live: Live := map[0 := 1, 1 := 1];
    forall i: nat ensures i in {0, 1} <==> InLive(live, i) {
      assert i == 0 ==> 0 in live && 0 <= i < 0 + live[0];
      assert i == 1 ==> 1 in live && 1 <= i < 1 + live[1];
    }
    assert Interval(1, 1) == {1};
  }

  // ---- runs ----

  /** The three calls. */
  datatype Request = Alloc(n: int) | Free(off: int, n: int) | SetBase(off: int)

  /** The end of an interval or -1, or whether the call was accepted. */
  datatype Answer = End(end: int) | Done(ok: bool)

  datatype Event = Event(request: Request, answer: Answer)

  /** What a client knows: its live intervals and the base. */
  datatype View = View(live: Live, base: nat)

  /** The client has an interval of n cells that ends at off. */
  predicate EndsThere(v: View, off: int, n: int) {
    0 < n && v.base <= off - n && off - n in v.live && v.live[off - n] == n
  }

  /** It has one that starts at off, and not all of the n cells before it are live and at or above the base. */
  ghost predicate StartsThere(v: View, off: int, n: int) {
    && 0 < n && v.base <= off && off in v.live && v.live[off] == n
    && !(v.base <= off - n && forall i: nat :: off - n <= i < off ==> InLive(v.live, i))
  }

  function Learn(v: View, e: Event): View {
    match (e.request, e.answer)
    case (Alloc(n), End(end)) => if 0 < n <= end then v.(live := v.live[end - n := n]) else v
    case (Free(off, n), Done(ok)) =>
      if ok then v.(live := v.live - {if EndsThere(v, off, n) then off - n else off}) else v
    case (SetBase(off), Done(ok)) => if ok && 0 <= off then v.(base := off) else v
    case _ => v
  }

  function Replay(v: View, history: seq<Event>): View {
    if history == [] then v else Learn(Replay(v, history[..|history| - 1]), history[|history| - 1])
  }

  /** A client frees a live interval by its end or by its start, and none below the base; frees of nothing are refused
      anyway. */
  ghost predicate Proper(v: View, r: Request) {
    r.Free? ==> r.n <= 0 || r.off < 0 || EndsThere(v, r.off, r.n) || StartsThere(v, r.off, r.n)
  }

  /** The map between two calls. */
  datatype Snapshot = Snapshot(cells: set<nat>, size: nat, base: nat, offset: int, peak: int)

  ghost function Snap(m: Map): Snapshot
    reads m, m.bitmap
  {
    Snapshot(m.Cells(), m.bsize, m.baseOffset, m.offset, m.lastOffset)
  }

  /** What an accepted allocation does: the lowest fit, or the old size when there is none. */
  ghost predicate Places(s: Snapshot, n: nat, end: int, s': Snapshot) {
    var start := end - n;
    && s.base <= start && Fits(s.cells, start, n)
    && (if s'.size == s.size then FirstFit(s.cells, s.base, s.size, n, start)
        else NoFit(s.cells, s.base, s.size, n) && start == s.size && s'.size == start + Max(n, DEFAULT))
    && s' == Snapshot(s.cells + Interval(start, n), s'.size, s.base, end, Max(s.peak, end))
  }

  /** Answer and new state of every call, for a client that has the intervals of v. */
  ghost predicate Served(v: View, s: Snapshot, e: Event, s': Snapshot) {
    match e.request
    case Alloc(n) =>
      if n <= 0 then e.answer == End(-1) && s' == s else e.answer.End? && Places(s, n, e.answer.end, s')
    case Free(off, n) =>
      && e.answer == Done(0 < n && 0 <= off < s.size)
      && if e.answer.ok then
           var start := if EndsThere(v, off, n) then off - n else off;
           s' == s.(cells := s.cells - Interval(start, n), offset := Min(s.offset, start))
         else s' == s
    case SetBase(off) =>
      && e.answer == Done(0 <= off < s.size)
      && s' == if e.answer.ok then s.(base := off, offset := Max(s.offset, off), peak := Max(s.peak, off)) else s
  }

  method ServeAlloc(m: Map, n: int, ghost v: View) returns (a: Answer)
    requires m.Valid()
    modifies m, m.bitmap
    ensures m.Valid() && (m.bitmap == old(m.bitmap) || fresh(m.bitmap))
    ensures Served(v, old(Snap(m)), Event(Alloc(n), a), Snap(m))
  {
    var end := m.Alloc(n);
    return End(end);
  }

  /** Live intervals lie below the size. */
  lemma LiveIsBelow(m: Map, live: Live, s: nat)
    requires m.Valid() && Covers(m.Cells(), live) && s in live
    ensures s + live[s] <= m.bsize
  {
    assert InLive(live, s + live[s] - 1);
  }

  method ServeFree(m: Map, off: int, n: int, ghost v: View) returns (a: Answer)
    requires m.Valid() && Covers(m.Cells(), v.live) && v.base == m.baseOffset && Proper(v, Free(off, n))
    modifies m, m.bitmap
    ensures m.Valid() && m.bitmap == old(m.bitmap)
    ensures Served(v, old(Snap(m)), Event(Free(off, n), a), Snap(m))
  {
    if EndsThere(v, off, n) {
      LiveFree(m.Cells(), v.live, m.baseOffset, m.bsize, off - n);
    } else if off >= 0 && n > 0 {
      LiveIsBelow(m, v.live, off);
      LiveFreeByStart(m.Cells(), v.live, m.baseOffset, m.bsize, off);
    }
    var ok := m.Free(off, n);
    return Done(ok);
  }

  /** One call. */
  method ServeOne(m: Map, r: Request, ghost v: View) returns (a: Answer)
    requires m.Valid() && Covers(m.Cells(), v.live) && v.base == m.baseOffset && Proper(v, r)
    modifies m, m.bitmap
    ensures m.Valid() && (m.bitmap == old(m.bitmap) || fresh(m.bitmap))
    ensures Served(v, old(Snap(m)), Event(r, a), Snap(m))
  {
    match r {
      case Alloc(n) =>
        a := ServeAlloc(m, n, v);
      case Free(off, n) =>
        a := ServeFree(m, off, n, v);
      case SetBase(off) =>
        var ok := m.SetBase(off);
        return Done(ok);
    }
  }

  /** Cells and base stay what the client knows. */
  lemma LearnCovers(v: View, s: Snapshot, e: Event, s': Snapshot)
    requires Covers(s.cells, v.live) && v.base == s.base && Proper(v, e.request) && Served(v, s, e, s')
    ensures Covers(s'.cells, Learn(v, e).live) && Learn(v, e).base == s'.base
  {
    match e.request {
      case Alloc(n) =>
        if n > 0 {
          CoversAlloc(s.cells, v.live, e.answer.end - n, n);
        }
      case Free(off, n) =>
        if e.answer.ok {
          CoversFree(s.cells, v.live, if EndsThere(v, off, n) then off - n else off);
        }
      case SetBase(_) =>
    }
  }

  /** Decides the next call from the calls and answers so far. */
  type Program = seq<Event> -> Request

  ghost predicate Step(v: View, history: seq<Event>, trace: seq<Snapshot>, i: nat)
    requires |trace| == |history| + 1 && i < |history|
  {
    Served(Replay(v, history[..i]), trace[i], history[i], trace[i + 1])
  }

  ghost predicate Follows(program: Program, history: seq<Event>) {
    forall i :: 0 <= i < |history| ==> history[i].request == program(history[..i])
  }

  /** The program makes the calls of the history, and every one is served. */
  ghost predicate IsRun(v: View, program: Program, history: seq<Event>, trace: seq<Snapshot>) {
    && |trace| == |history| + 1
    && Follows(program, history)
    && (forall i: nat {:trigger Step(v, history, trace, i)} :: i < |history| ==> Step(v, history, trace, i))
  }

  lemma RunGoesOn(v: View, program: Program, history: seq<Event>, trace: seq<Snapshot>, e: Event, s: Snapshot)
    requires IsRun(v, program, history, trace) && e.request == program(history)
    requires Served(Replay(v, history), trace[|history|], e, s)
    ensures IsRun(v, program, history + [e], trace + [s])
    ensures Replay(v, history + [e]) == Learn(Replay(v, history), e)
  {
    var history', trace' := history + [e], trace + [s];
    assert history'[..|history|] == history;
    forall i: nat | i < |history'| ensures history'[..i] == history[..i] {}
    forall i: nat | i < |history'| ensures Step(v, history', trace', i) {
      if i < |history| {
        assert Step(v, history, trace, i);
      } else {
        assert history[..i] == history;
      }
    }
  }

  /** n calls of any program that frees only what this map gave it: at every moment the taken cells are exactly the
      intervals handed out and not accepted back since, pairwise disjoint. */
  method Serve(m: Map, program: Program, n: nat) returns (history: seq<Event>, ghost trace: seq<Snapshot>)
    requires m.Valid() && m.Cells() == {}
    requires forall h: seq<Event>, t: seq<Snapshot> ::
               |h| < n && IsRun(View(map[], m.baseOffset), program, h, t) && t[0] == Snap(m) ==>
               Proper(Replay(View(map[], m.baseOffset), h), program(h))
    modifies m, m.bitmap
    ensures m.Valid() && |history| == n && IsRun(View(map[], old(m.baseOffset)), program, history, trace)
    ensures trace[0] == old(Snap(m)) && trace[n] == Snap(m)
    ensures Covers(m.Cells(), Replay(View(map[], old(m.baseOffset)), history).live)
    ensures m.baseOffset == Replay(View(map[], old(m.baseOffset)), history).base
  {
    ghost var v := View(map[], m.baseOffset);
    history, trace := [], [Snap(m)];
    assert Covers(m.Cells(), map[]) by {
      forall i: nat ensures i in m.Cells() <==> InLive(map[], i) {}
    }
    while |history| < n
      invariant |history| <= n && m.Valid() && IsRun(v, program, history, trace)
      invariant trace[0] == old(Snap(m)) && trace[|history|] == Snap(m)
      invariant Covers(m.Cells(), Replay(v, history).live) && m.baseOffset == Replay(v, history).base
      invariant m.bitmap == old(m.bitmap) || fresh(m.bitmap)
    {
      ghost var s, u := Snap(m), Replay(v, history);
      var r := program(history);
      var a := ServeOne(m, r, u);
      RunGoesOn(v, program, history, trace, Event(r, a), Snap(m));
      LearnCovers(u, s, Event(r, a), Snap(m));
      history, trace := history + [Event(r, a)], trace + [Snap(m)];
    }
  }

  /** At every moment of a run the client's intervals are what the bitmap shows. */
  lemma {:induction false} AlwaysCovers(v: View, program: Program, history: seq<Event>, trace: seq<Snapshot>, k: nat)
    requires IsRun(v, program, history, trace) && k <= |history|
    requires Covers(trace[0].cells, v.live) && v.base == trace[0].base
    requires forall i :: 0 <= i < k ==> Proper(Replay(v, history[..i]), history[i].request)
    ensures var u := Replay(v, history[..k]); Covers(trace[k].cells, u.live) && u.base == trace[k].base
  {
    if k > 0 {
      AlwaysCovers(v, program, history, trace, k - 1);
      assert Step(v, history, trace, k - 1);
      assert history[..k][..k - 1] == history[..k - 1];
      LearnCovers(Replay(v, history[..k - 1]), trace[k - 1], history[k - 1], trace[k]);
    }
  }

  // ---- a client ----

  /** Allocates n bytes, frees them by the end it was answered, and so on. */
  function InTurn(n: int): Program {
    (history: seq<Event>) =>
      if |history| % 2 == 0 then Alloc(n)
      else Free(if history[|history| - 1].answer.End? then history[|history| - 1].answer.end else -1, n)
  }

  /** This client does not move the base. */
  lemma {:induction false} BaseStays(v: View, n: int, history: seq<Event>, trace: seq<Snapshot>, k: nat)
    requires IsRun(v, InTurn(n), history, trace) && k <= |history|
    ensures Replay(v, history[..k]).base == v.base && trace[k].base == trace[0].base
  {
    if k > 0 {
      BaseStays(v, n, history, trace, k - 1);
      assert Step(v, history, trace, k - 1) && history[k - 1].request == InTurn(n)(history[..k - 1]);
      assert history[..k][..k - 1] == history[..k - 1];
    }
  }

  /** What an allocation answered may be freed next. */
  lemma GivenIsOwned(v: View, s: Snapshot, e: Event, s': Snapshot, n: int)
    requires e.request == Alloc(n) && v.base == s.base && Served(v, s, e, s')
    ensures e.answer.End? && Proper(Learn(v, e), Free(e.answer.end, n))
  {
  }

  /** In no run does this client free what it does not have: it may be served on any empty map. */
  lemma InTurnIsProper(v: View, n: int, history: seq<Event>, trace: seq<Snapshot>)
    requires IsRun(v, InTurn(n), history, trace) && v.base == trace[0].base
    ensures Proper(Replay(v, history), InTurn(n)(history))
  {
    if |history| % 2 != 0 {
      var k := |history| - 1;
      BaseStays(v, n, history, trace, k);
      assert Step(v, history, trace, k) && history[k].request == InTurn(n)(history[..k]);
      GivenIsOwned(Replay(v, history[..k]), trace[k], history[k], trace[k + 1], n);
    }
  }

  /** The highest end handed out or base set, at least `least`. */
  function Peak(least: int, history: seq<Event>): int {
    if history == [] then least else
    var e, before := history[|history| - 1], Peak(least, history[..|history| - 1]);
    if e.request.Alloc? && e.answer.End? then Max(before, e.answer.end)
    else if e.request.SetBase? && e.answer == Done(true) then Max(before, e.request.off)
    else before
  }

  /** last_offset is the highest end any allocation ever answered, or base ever set, however much was freed since. */
  lemma {:induction false} PeakIsHighest(v: View, program: Program, history: seq<Event>, trace: seq<Snapshot>, k: nat)
    requires IsRun(v, program, history, trace) && k <= |history| && 0 <= trace[0].peak
    ensures trace[k].peak == Peak(trace[0].peak, history[..k]) && 0 <= trace[k].peak
  {
    if k > 0 {
      PeakIsHighest(v, program, history, trace, k - 1);
      assert Step(v, history, trace, k - 1);
      assert history[..k][..k - 1] == history[..k - 1];
    }
  }
}
