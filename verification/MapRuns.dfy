/** Any sequence of operations answers as a finite map does, across the change to direct mode. */
module MapRuns {
  import opened Compression
  import opened ProbeTable
  import opened HashMap

  datatype Operation = Put(key: int, value: int) | Get(key: int) | Remove(key: int) | Compress

  /** The return value of the operation, and the value read by a successful get. */
  datatype Answer = Answer(ok: bool, value: int)

  /** The bindings, the capacity, and whether keys index the table. */
  datatype Model = Model(bindings: map<int, int>, capacity: nat, direct: bool) {

    /** All keys are taken, or in direct mode those that index the table. */
    predicate Takes(k: int) {
      direct ==> 0 <= k < capacity
    }

    /** Compressing a probing table needs keys that index it. */
    ghost predicate Allows(op: Operation) {
      op == Compress && !direct ==> forall k :: k in bindings ==> 0 <= k < capacity
    }
  }

  /** One more than the largest key. */
  ghost function KeyLimit(m: map<int, int>): (n: nat)
    ensures n > 0 ==> n - 1 in m
    ensures forall k :: k in m ==> k < n
    decreases |m|
  {
    if exists k :: k in m then
      var k :| k in m;
      var n := KeyLimit(m - {k});
      assert forall j :: j in m ==> j == k || j in m - {k};
      if k < n then n else k + 1
    else 0
  }

  ghost function StateAfter(s: Model, op: Operation): Model {
    match op
    case Put(k, v) =>
      if !s.Takes(k) then s
      else Model(s.bindings[k := v], if !s.direct && 2 * |s.bindings| > s.capacity then 2 * s.capacity
                                     else s.capacity, s.direct)
    case Get(k) => s
    case Remove(k) => s.(bindings := s.bindings - {k})
    case Compress => s.(direct := true, capacity := if s.direct || s.bindings == map[] then s.capacity
                                                    else KeyLimit(s.bindings))
  }

  function AnswerOf(s: Model, op: Operation): Answer {
    match op
    case Put(k, v) => Answer(s.Takes(k), 0)
    case Get(k) => if k in s.bindings then Answer(true, s.bindings[k]) else Answer(false, 0)
    case Remove(k) => Answer(k in s.bindings, 0)
    case Compress => Answer(true, 0)
  }

  ghost function FinalState(s: Model, ops: seq<Operation>): Model {
    if ops == [] then s else StateAfter(FinalState(s, ops[..|ops| - 1]), ops[|ops| - 1])
  }

  ghost function Answers(s: Model, ops: seq<Operation>): seq<Answer> {
    if ops == [] then [] else
      Answers(s, ops[..|ops| - 1]) + [AnswerOf(FinalState(s, ops[..|ops| - 1]), ops[|ops| - 1])]
  }

  /** Operation j removes key k, or puts it and is not refused. */
  ghost predicate Decides(s: Model, ops: seq<Operation>, j: nat, k: int)
    requires j < |ops|
  {
    ops[j] == Remove(k) || (ops[j].Put? && ops[j].key == k && FinalState(s, ops[..j]).Takes(k))
  }

  lemma {:induction false} BoundBy(s: Model, ops: seq<Operation>, k: int, i: nat)
    requires i < |ops| && Decides(s, ops, i, k) && forall j :: i < j < |ops| ==> !Decides(s, ops, j, k)
    ensures var m := FinalState(s, ops).bindings;
            if ops[i].Remove? then k !in m else k in m && m[k] == ops[i].value
  {
    var n := |ops| - 1;
    if i < n {
      assert forall j :: 0 <= j < n ==> ops[..n][..j] == ops[..j];
      assert forall j :: 0 <= j < n ==> (Decides(s, ops[..n], j, k) <==> Decides(s, ops, j, k));
      BoundBy(s, ops[..n], k, i);
      assert !Decides(s, ops, n, k);
    }
  }

  /** A get answers the value of the last put of its key that was not refused, and nothing once the key was removed; so
      does a remove. */
  lemma AnswersLast(s: Model, ops: seq<Operation>, k: int, i: nat)
    requires i < |ops| && Decides(s, ops, i, k) && forall j :: i < j < |ops| ==> !Decides(s, ops, j, k)
    ensures AnswerOf(FinalState(s, ops), Get(k)) == if ops[i].Put? then Answer(true, ops[i].value) else Answer(false, 0)
    ensures AnswerOf(FinalState(s, ops), Remove(k)) == Answer(ops[i].Put?, 0)
  {
    BoundBy(s, ops, k, i);
  }

  ghost function ModelOf(m: Map): Model
    reads m, m.entries
  {
    Model(m.Bindings(), m.capacity, m.compr)
  }

  method StepPut(m: Map, k: int, v: int) returns (a: Answer)
    requires m.Valid()
    modifies m, m.entries
    ensures m.Valid() && (m.entries == old(m.entries) || fresh(m.entries))
    ensures ModelOf(m) == StateAfter(old(ModelOf(m)), Put(k, v)) && a == AnswerOf(old(ModelOf(m)), Put(k, v))
  {
    ghost var t := m.entries[..];
    CountIsSize(t);
    assert !m.compr ==> m.KeyReachable(k) by {
      assert !m.compr ==> forall i :: 0 <= i < |t| && t[i].used ==> Reachable(m.f, t, i);
    }
    var ok, s := m.Put(k, v);
    a := Answer(ok, 0);
  }

  /** The keys of a direct table index it. */
  lemma AllIndex(t: Table)
    requires Direct(t) && Unique(t)
    ensures forall k :: k in Contents(t) ==> 0 <= k < |t|
  {
    ContentsBinds(t);
  }

  method StepCompress(m: Map) returns (a: Answer)
    requires m.Valid() && ModelOf(m).Allows(Compress)
    modifies m, m.entries
    ensures m.Valid() && (m.entries == old(m.entries) || fresh(m.entries))
    ensures ModelOf(m) == StateAfter(old(ModelOf(m)), Compress) && a == AnswerOf(old(ModelOf(m)), Compress)
  {
    if m.compr {
      AllIndex(m.entries[..]);
    }
    var ok := m.Compress();
    AllIndex(m.entries[..]);
    a := Answer(ok, 0);
  }

  method Step(m: Map, op: Operation) returns (a: Answer)
    requires m.Valid() && ModelOf(m).Allows(op)
    modifies m, m.entries
    ensures m.Valid() && (m.entries == old(m.entries) || fresh(m.entries))
    ensures ModelOf(m) == StateAfter(old(ModelOf(m)), op) && a == AnswerOf(old(ModelOf(m)), op)
  {
    match op {
      case Put(k, v) =>
        a := StepPut(m, k, v);
      case Get(k) =>
        var ok, v := m.Get(k);
        a := Answer(ok, if ok then v else 0);
      case Remove(k) =>
        var ok := m.Remove(k);
        a := Answer(ok, 0);
      case Compress =>
        a := StepCompress(m);
    }
  }

  /** Refinement over whole runs: bindings, capacity, mode and answers are those of the model. */
  method Run(m: Map, ops: seq<Operation>) returns (answers: seq<Answer>)
    requires m.Valid()
    requires forall i {:trigger ops[i]} :: 0 <= i < |ops| ==> FinalState(ModelOf(m), ops[..i]).Allows(ops[i])
    modifies m, m.entries
    ensures m.Valid() && ModelOf(m) == FinalState(old(ModelOf(m)), ops)
    ensures answers == Answers(old(ModelOf(m)), ops)
  {
    answers := [];
    ghost var s := ModelOf(m);
    for i := 0 to |ops|
      invariant m.Valid() && (m.entries == old(m.entries) || fresh(m.entries))
      invariant ModelOf(m) == FinalState(s, ops[..i]) && answers == Answers(s, ops[..i])
    {
      assert ops[..i + 1][..i] == ops[..i];
      var a := Step(m, ops[i]);
      answers := answers + [a];
    }
    assert ops[..|ops|] == ops;
  }
}
