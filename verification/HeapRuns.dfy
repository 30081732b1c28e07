/** Whole runs of the allocator, driven by a program that decides each request from what it was answered so far. */
module HeapRuns {
  import opened Common
  import opened HeapState
  import opened BlockChain
  import opened HeapAccounting
  import opened HeapBytes
  import opened HeapSteps
  import opened StalePointers
  import opened HeapSnapshots
  import opened Heap

  datatype Request = Malloc(size: nat) | Realloc(ptr: int, size: nat) | Free(ptr: int) | Write(at: int, value: byte)

  /** The pointer handed out, or whether a free was accepted. */
  datatype Answer = Pointer(p: int) | Said(ok: bool)

  datatype Event = Event(request: Request, answer: Answer)

  // ---- what a program has to keep to ----

  /** Payload addresses a program owns, with the bytes it asked for. */
  type Owned = map<int, nat>

  /** The bytes a request for `size` is good for: a size that the rounding wraps around is good for none. */
  function Asked(size: nat): nat {
    if size <= SIZE_LIMIT - ALIGNMENT then size else 0
  }

  function Owns(owned: Owned, e: Event): Owned {
    match e.request
    case Malloc(size) => if e.answer.Pointer? && e.answer.p != NULL then owned[e.answer.p := Asked(size)] else owned
    case Realloc(ptr, size) =>
      if ptr != NULL && size == 0 then owned - {ptr}
      else if e.answer.Pointer? && e.answer.p != NULL then (owned - {ptr})[e.answer.p := Asked(size)]
      else owned
    case Free(ptr) => owned - {ptr}
    case Write(_, _) => owned
  }

  /** What is owned after a history. */
  function OwnedAfter(owned: Owned, history: seq<Event>): Owned {
    if history == [] then owned else Owns(OwnedAfter(owned, history[..|history| - 1]), history[|history| - 1])
  }

  /** A program may free, or resize, what it owns and whatever the test refuses, and write to the bytes it asked for. */
  ghost predicate Proper(s: Snapshot, owned: Owned, r: Request) {
    match r
    case Malloc(size) => size < SIZE_LIMIT
    case Realloc(ptr, size) => size < SIZE_LIMIT && (s.Accepts(ptr) ==> ptr in owned)
    case Free(ptr) => s.Accepts(ptr) ==> ptr in owned
    case Write(at, _) => exists p :: p in owned && p <= at < p + owned[p]
  }

  // ---- what one request does ----

  /** The answer to a request, and what is live after it. */
  ghost predicate Answered(s: Snapshot, e: Event, s': Snapshot) {
    match e.request
    case Malloc(size) => e.answer.Pointer? && Allocates(s, size, e.answer.p, s')
    case Free(ptr) => e.answer == Said(ptr - HEADER in s.Live()) && s'.Live() == s.Live() - {ptr - HEADER}
    case Write(_, _) => e.answer == Said(true) && s'.Live() == s.Live()
    case Realloc(ptr, size) =>
      && e.answer.Pointer?
      && if ptr == NULL then Allocates(s, size, e.answer.p, s')
         else if size == 0 then e.answer.p == NULL && s'.Live() == s.Live() - {ptr - HEADER}
         else Moves(s, ptr - HEADER, size, e.answer.p, s')
  }

  /** The request concerns the payload of block c. */
  predicate Names(r: Request, c: int, size: nat) {
    match r
    case Malloc(_) => false
    case Realloc(ptr, _) => ptr - HEADER == c
    case Free(ptr) => ptr - HEADER == c
    case Write(at, _) => c + HEADER <= at < c + HEADER + size
  }

  /** Payloads a request does not concern keep their bytes; a resized one keeps as many as fit; a write changes one
      byte. */
  ghost predicate BytesKept(live: map<int, nat>, m: seq<byte>, e: Event, m': seq<byte>) {
    && (forall c {:trigger Kept(m, m', c, live[c])} :: c in live && !Names(e.request, c, live[c]) ==>
          Kept(m, m', c, live[c]))
    && (e.request.Write? ==> 0 <= e.request.at < |m| && m' == m[e.request.at := e.request.value])
    && (e.request.Realloc? && e.request.ptr - HEADER in live && e.answer.Pointer? && e.answer.p != NULL ==>
          SameBytes(m, e.request.ptr, m', e.answer.p, Min(live[e.request.ptr - HEADER], Asked(e.request.size))))
  }

  /** A realloc that trims a live block where it is. */
  predicate Trims(live: map<int, nat>, r: Request) {
    r.Realloc? && r.size != 0 && r.ptr != NULL && r.ptr - HEADER in live && AlignUp(r.size) <= live[r.ptr - HEADER]
  }

  /** The size wraps around to 0, and the block c it is for can be split: nothing of c is left. */
  ghost predicate Empties(s: Snapshot, ptr: int, size: nat, c: int) {
    && SIZE_LIMIT - ALIGNMENT < size && c in s.headers && HEADER + MIN_SPLIT_SIZE <= s.headers[c].size
    && if ptr == NULL then FirstFit(s.headers, s.lists, 0, c) else c == ptr - HEADER && c in s.Live()
  }

  ghost predicate Starves(s: Snapshot, r: Request) {
    match r
    case Malloc(size) => exists c :: Empties(s, NULL, size, c)
    case Realloc(ptr, size) => exists c :: Empties(s, ptr, size, c)
    case _ => false
  }

  /** The free block that a request uses up, if any. */
  ghost function HandsOut(s: Snapshot, e: Event): int {
    match (e.request, e.answer)
    case (Malloc(_), Pointer(p)) => p - HEADER
    case (Realloc(ptr, size), Pointer(p)) => UsedUp(s, ptr, size, p)
    case _ => NULL
  }

  /** Everything owned is live and large enough. */
  ghost predicate Backed(owned: Owned, live: map<int, nat>) {
    forall p {:trigger p in owned} :: p in owned ==> p - HEADER in live && owned[p] <= live[p - HEADER]
  }

  lemma StaysBacked(owned: Owned, s: Snapshot, e: Event, s': Snapshot)
    requires Backed(owned, s.Live()) && Answered(s, e, s')
    requires (e.request.Malloc? || e.request.Realloc?) ==> e.request.size < SIZE_LIMIT
    ensures Backed(Owns(owned, e), s'.Live())
  {
    if e.request.Malloc? || e.request.Realloc? {
      AlignUpRounds(e.request.size);
    }
  }

  /** What is cut off from the block handed out. */
  function CutOff(s: Snapshot, c: int, size: nat): set<int> {
    if c in s.headers then Rest(c, s.headers[c].size, AlignUp(size)) else {}
  }

  /** Where the test passes in the block that an allocation handed out. */
  ghost predicate Wakes(s: Snapshot, e: Event, s': Snapshot) {
    e.request.Malloc? && e.answer.Pointer? && e.answer.p != NULL ==>
      var c := e.answer.p - HEADER;
      Awakened(s.headers, s.bytes, s'.bytes, c, CutOff(s, c, e.request.size))
  }

  /** What serving one request promises. */
  ghost predicate Served(s: Snapshot, e: Event, s': Snapshot) {
    && Answered(s, e, s') && |s'.bytes| == |s.bytes|
    && BytesKept(s.Live(), s.bytes, e, s'.bytes)
    && Whole(s')
    && (Sparse(s) && !Trims(s.Live(), e.request) ==> Sparse(s'))
    && (Ample(s.headers, s.blocks) ==> (Ample(s'.headers, s'.blocks) <==> !Starves(s, e.request)))
    && Guarded(s.headers, s.blocks, s.bytes, s'.headers, s'.blocks, s'.bytes, HandsOut(s, e))
    && Wakes(s, e, s')
  }

  lemma AllocatesOne(s: Snapshot, size: nat, p: int, s': Snapshot, q: int, t': Snapshot)
    requires Allocates(s, size, p, s') && Allocates(s, size, q, t')
    ensures p == q && s'.Live() == t'.Live()
  {
    if p != NULL {
      FirstFitUnique(s.headers, s.lists, AlignUp(size), p - HEADER, q - HEADER);
    }
  }

  /** The heap before a request determines its answer and what is live after it. */
  lemma Determined(s: Snapshot, e: Event, s': Snapshot, f: Event, t': Snapshot)
    requires Answered(s, e, s') && Answered(s, f, t') && e.request == f.request
    ensures e.answer == f.answer && s'.Live() == t'.Live()
  {
    match e.request {
      case Malloc(size) => AllocatesOne(s, size, e.answer.p, s', f.answer.p, t');
      case Realloc(ptr, size) =>
        if ptr == NULL {
          AllocatesOne(s, size, e.answer.p, s', f.answer.p, t');
        } else if size != 0 && e.answer.p != NULL && !s.Roomy(ptr - HEADER, size) {
          FirstFitUnique(s.headers, s.lists, AlignUp(size), e.answer.p - HEADER, f.answer.p - HEADER);
        }
      case _ =>
    }
  }

  lemma WriteKeeps(live: map<int, nat>, m: seq<byte>, at: int, value: byte, ok: bool)
    requires PayloadsKept(m, m, live) && 0 <= at < |m|
    ensures BytesKept(live, m, Event(Write(at, value), Said(ok)), m[at := value])
  {
    forall c | c in live && !Names(Write(at, value), c, live[c]) ensures Kept(m, m[at := value], c, live[c]) {
      assert Kept(m, m, c, live[c]);
    }
  }

  lemma OthersKeep(live: map<int, nat>, m: seq<byte>, e: Event, m': seq<byte>, kept: map<int, nat>)
    requires !e.request.Write? && PayloadsKept(m, m', kept)
    requires forall c :: c in live && !Names(e.request, c, live[c]) ==> c in kept && kept[c] == live[c]
    requires e.request.Realloc? && e.request.ptr - HEADER in live && e.answer.Pointer? && e.answer.p != NULL ==>
               SameBytes(m, e.request.ptr, m', e.answer.p, Min(live[e.request.ptr - HEADER], Asked(e.request.size)))
    ensures BytesKept(live, m, e, m')
  {
    forall c | c in live && !Names(e.request, c, live[c]) ensures Kept(m, m', c, live[c]) {
      assert Kept(m, m', c, kept[c]);
    }
  }

  lemma ValidIsWhole(heap: Allocator)
    requires heap.Valid()
    ensures Whole(heap.Snap())
  {
    var s := heap.Snap();
    forall b ensures b in heap.listed <==> b in s.FreeBlocks() {
      assert b in heap.listed ==> b in s.blocks;
    }
    assert heap.listed == s.FreeBlocks();
  }

  /** A first fit is a free block. */
  lemma FoundIsFree(s: Snapshot, size: nat, c: int)
    requires Whole(s) && FirstFit(s.headers, s.lists, size, c)
    ensures c in s.FreeBlocks()
  {
    var i, j :| Passed(s.headers, s.lists, size, i, j) && s.lists[i][j] == c;
    assert ListOk(s.headers, s.heads[i], s.lists[i], i, s.FreeBlocks());
  }

  /** The request takes a block from the free lists for p. */
  ghost predicate Takes(s: Snapshot, r: Request, p: int) {
    match r
    case Malloc(_) => p != NULL
    case Realloc(ptr, size) => p != NULL && (ptr == NULL || (size != 0 && !s.Roomy(ptr - HEADER, size)))
    case _ => false
  }

  /** Whatever block a request takes, none that fits is better by more than the lists can tell. */
  lemma TakesGoodFit(s: Snapshot, e: Event, s': Snapshot)
    requires Whole(s) && Answered(s, e, s') && e.answer.Pointer? && Takes(s, e.request, e.answer.p)
    ensures GoodFit(s.headers, s.blocks, AlignUp(e.request.size), e.answer.p - HEADER)
  {
    FirstFitIsGood(s.headers, s.blocks, s.FreeBlocks(), s.heads, s.lists, AlignUp(e.request.size), e.answer.p - HEADER);
  }

  /** An allocation leaves an empty block exactly if it starves. */
  lemma StarvesWhen(s: Snapshot, size: nat, p: int, s': Snapshot)
    requires Whole(s) && Ample(s.headers, s.blocks) && Allocates(s, size, p, s') && size < SIZE_LIMIT
    ensures p == NULL || ALIGNMENT <= s'.Live()[p - HEADER] <==> !exists c :: Empties(s, NULL, size, c)
  {
    AlignUpRounds(size);
    if p != NULL {
      FoundIsFree(s, AlignUp(size), p - HEADER);
    }
    if c :| Empties(s, NULL, size, c) {
      FoundIsFree(s, 0, c);
      if p != NULL {
        FirstFitUnique(s.headers, s.lists, 0, p - HEADER, c);
      }
    } else if p != NULL && AlignUp(size) == 0 {
      assert !Empties(s, NULL, size, p - HEADER);
    }
  }

  /** The same for resizing a live block. */
  lemma ResizeStarvesWhen(s: Snapshot, ptr: int, size: nat, p: int, s': Snapshot)
    requires Whole(s) && Ample(s.headers, s.blocks) && Moves(s, ptr - HEADER, size, p, s')
    requires 0 < size < SIZE_LIMIT && ptr != NULL
    ensures p == NULL || ALIGNMENT <= s'.Live()[p - HEADER] <==> !exists c :: Empties(s, ptr, size, c)
  {
    AlignUpRounds(size);
    if p != NULL && AlignUp(size) == 0 {
      assert Empties(s, ptr, size, p - HEADER) <==> HEADER + MIN_SPLIT_SIZE <= s.headers[p - HEADER].size;
    }
  }

  method ServeMalloc(heap: Allocator, size: nat) returns (a: Answer)
    requires heap.Valid() && size < SIZE_LIMIT
    modifies heap, heap.mem, heap.freeLists
    ensures heap.Valid() && Served(old(heap.Snap()), Event(Malloc(size), a), heap.Snap())
  {
    ghost var s := heap.Snap();
    ValidIsWhole(heap);
    hide HeapAccounting.Live;
    hide Coalesced;
    hide PayloadsKept;
    hide BytesKept;
    hide Guarded;
    hide Allocates;
    hide Awakened;
    var p := heap.Malloc(size);
    a := Pointer(p);
    ValidIsWhole(heap);
    hide Whole;
    OthersKeep(s.Live(), s.bytes, Event(Malloc(size), a), heap.mem[..], s.Live());
    if Ample(s.headers, s.blocks) {
      StarvesWhen(s, size, p, heap.Snap());
    }
  }

  lemma FreeServed(s: Snapshot, s': Snapshot, ptr: int, ok: bool)
    requires ok == (ptr - HEADER in s.Live()) && (ok ==> s'.Live() == s.Live() - {ptr - HEADER}) && (!ok ==> s' == s)
    requires PayloadsKept(s.bytes, s'.bytes, s'.Live())
    ensures Answered(s, Event(Free(ptr), Said(ok)), s')
    ensures BytesKept(s.Live(), s.bytes, Event(Free(ptr), Said(ok)), s'.bytes)
  {
    OthersKeep(s.Live(), s.bytes, Event(Free(ptr), Said(ok)), s'.bytes, s'.Live());
  }

  method ServeFree(heap: Allocator, ptr: int) returns (a: Answer)
    requires heap.Valid() && !heap.Misleads(ptr)
    modifies heap, heap.mem, heap.freeLists
    ensures heap.Valid() && Served(old(heap.Snap()), Event(Free(ptr), a), heap.Snap())
  {
    ghost var s := heap.Snap();
    hide HeapAccounting.Live;
    hide Coalesced;
    hide PayloadsKept;
    hide Answered;
    hide BytesKept;
    hide Guarded;
    var ok := heap.Free(ptr);
    a := Said(ok);
    ValidIsWhole(heap);
    hide Whole;
    FreeServed(s, heap.Snap(), ptr, ok);
  }

  lemma ReallocServed(s: Snapshot, s': Snapshot, ptr: int, size: nat, p: int)
    requires size < SIZE_LIMIT && NULL - HEADER !in s.Live() && PayloadsKept(s.bytes, s.bytes, s.Live())
    requires ptr == NULL ==> Allocates(s, size, p, s') && PayloadsKept(s.bytes, s'.bytes, s.Live())
    requires ptr != NULL && size == 0 ==>
               p == NULL && s'.Live() == s.Live() - {ptr - HEADER} && PayloadsKept(s.bytes, s'.bytes, s'.Live())
    requires ptr != NULL && size != 0 ==>
               && Moves(s, ptr - HEADER, size, p, s')
               && (p != NULL ==> Reallocated(s.Live(), s.bytes, s'.Live(), s'.bytes, ptr, size, p))
    ensures Answered(s, Event(Realloc(ptr, size), Pointer(p)), s')
    ensures BytesKept(s.Live(), s.bytes, Event(Realloc(ptr, size), Pointer(p)), s'.bytes)
  {
    AlignUpRounds(size);
    hide FirstFit;
    hide Resizes;
    OthersKeep(s.Live(), s.bytes, Event(Realloc(ptr, size), Pointer(p)), s'.bytes,
               if ptr != NULL && size == 0 then s'.Live()
               else if ptr == NULL || p == NULL then s.Live() else s.Live() - {ptr - HEADER});
  }

  /** Whether a realloc leaves an empty block. */
  lemma ReallocStarvesWhen(s: Snapshot, ptr: int, size: nat, p: int, s': Snapshot)
    requires Whole(s) && size < SIZE_LIMIT && Answered(s, Event(Realloc(ptr, size), Pointer(p)), s')
    ensures Ample(s.headers, s.blocks) ==>
              (p == NULL || ALIGNMENT <= s'.Live()[p - HEADER] <==> !Starves(s, Realloc(ptr, size)))
  {
    if Ample(s.headers, s.blocks) {
      if ptr == NULL {
        StarvesWhen(s, size, p, s');
      } else if size != 0 {
        ResizeStarvesWhen(s, ptr, size, p, s');
      }
    }
  }

  lemma NullIsNotLive(heap: Allocator)
    requires heap.Valid()
    ensures NULL - HEADER !in heap.LiveBlocks()
  {
    NullNotLive(heap.mem.Length, heap.headers, heap.blocks);
  }

  method ServeRealloc(heap: Allocator, ptr: int, size: nat) returns (a: Answer)
    requires heap.Valid() && size < SIZE_LIMIT && !heap.Misleads(ptr)
    modifies heap, heap.mem, heap.freeLists
    ensures heap.Valid() && Served(old(heap.Snap()), Event(Realloc(ptr, size), a), heap.Snap())
  {
    ghost var s := heap.Snap();
    heap.NothingTouched();
    NullIsNotLive(heap);
    ValidIsWhole(heap);
    hide Allocator.Valid;
    hide Allocator.Core;
    hide HeapAccounting.Live;
    hide Whole;
    hide Ample;
    hide Coalesced;
    hide PayloadsKept;
    hide Reallocated;
    hide Answered;
    hide BytesKept;
    hide Guarded;
    hide Allocates;
    hide Moves;
    hide UsedUp;
    hide Starves;
    hide TrimsQuietly;
    var p := heap.Realloc(ptr, size);
    a := Pointer(p);
    ValidIsWhole(heap);
    ReallocServed(s, heap.Snap(), ptr, size, p);
    ReallocStarvesWhen(s, ptr, size, p, heap.Snap());
  }

  method ServeWrite(heap: Allocator, at: int, value: byte, ghost b: int) returns (a: Answer)
    requires heap.Valid() && b in heap.LiveBlocks() && b + HEADER <= at < b + HEADER + heap.LiveBlocks()[b]
    modifies heap, heap.mem, heap.freeLists
    ensures heap.Valid() && Served(old(heap.Snap()), Event(Write(at, value), a), heap.Snap())
  {
    heap.NothingTouched();
    ValidIsWhole(heap);
    ghost var s := heap.Snap();
    heap.Poke(b, at, value);
    a := Said(true);
    WriteKeeps(s.Live(), s.bytes, at, value, true);
    ValidIsWhole(heap);
  }

  /** One request. */
  method ServeOne(heap: Allocator, r: Request, ghost owned: Owned) returns (a: Answer)
    requires heap.Valid() && Backed(owned, heap.LiveBlocks()) && Proper(heap.Snap(), owned, r)
    modifies heap, heap.mem, heap.freeLists
    ensures heap.Valid() && Served(old(heap.Snap()), Event(r, a), heap.Snap())
  {
    match r {
      case Malloc(size) =>
        a := ServeMalloc(heap, size);
      case Realloc(ptr, size) =>
        a := ServeRealloc(heap, ptr, size);
      case Free(ptr) =>
        a := ServeFree(heap, ptr);
      case Write(at, value) =>
        ghost var p :| p in owned && p <= at < p + owned[p];
        a := ServeWrite(heap, at, value, p - HEADER);
    }
  }

  // ---- runs ----

  /** Decides the next request from what was asked and answered so far. */
  type Program = seq<Event> -> Request

  /** The history is what the program asks for, with answers of the right kind. */
  ghost predicate Follows(program: Program, history: seq<Event>) {
    forall i :: 0 <= i < |history| ==>
      && history[i].request == program(history[..i])
      && (history[i].answer.Pointer? <==> history[i].request.Malloc? || history[i].request.Realloc?)
  }

  ghost predicate Step(history: seq<Event>, trace: seq<Snapshot>, i: nat)
    requires |trace| == |history| + 1 && i < |history|
  {
    Served(trace[i], history[i], trace[i + 1])
  }

  /** The program asks for the history, and every step from snapshot to snapshot is served. */
  ghost predicate IsRun(program: Program, history: seq<Event>, trace: seq<Snapshot>) {
    && |trace| == |history| + 1
    && Follows(program, history)
    && (forall i: nat {:trigger Step(history, trace, i)} :: i < |history| ==> Step(history, trace, i))
  }

  lemma RunGoesOn(program: Program, history: seq<Event>, trace: seq<Snapshot>, e: Event, s: Snapshot)
    requires IsRun(program, history, trace) && e.request == program(history) && Served(trace[|history|], e, s)
    ensures IsRun(program, history + [e], trace + [s])
  {
    var history', trace' := history + [e], trace + [s];
    assert history'[..|history|] == history;
    forall i: nat | i < |history'| ensures Step(history', trace', i) {
      assert i < |history| ==> Step(history, trace, i);
    }
    assert Follows(program, history') by {
      assert forall i :: 0 <= i < |history| ==> history'[..i] == history[..i];
    }
  }

  ghost function ChainOf(heap: Allocator): seq<int>
    reads heap, heap.mem, heap.freeLists
    requires heap.Core()
  {
    Chain(heap.mem.Length, heap.headers, heap.blocks, 0)
  }

  /** n requests of any program that, as far as this heap answers it, keeps to what it owns: the heap stays valid, every
      request is served, the counter is the sum over the used blocks of the chain, and the chain covers the buffer. */
  method Serve(heap: Allocator, program: Program, n: nat, ghost owned: Owned)
    returns (history: seq<Event>, ghost trace: seq<Snapshot>)
    requires heap.Valid() && Backed(owned, heap.LiveBlocks())
    requires forall h: seq<Event>, t: seq<Snapshot> :: |h| < n && IsRun(program, h, t) && t[0] == heap.Snap() ==>
               Proper(t[|h|], OwnedAfter(owned, h), program(h))
    modifies heap, heap.mem, heap.freeLists
    ensures heap.Valid() && |history| == n && IsRun(program, history, trace)
    ensures trace[0] == old(heap.Snap()) && trace[n] == heap.Snap()
    ensures Backed(OwnedAfter(owned, history), heap.LiveBlocks())
    ensures heap.inUse == Bytes(heap.headers, InUse(heap.headers, ChainOf(heap)))
    ensures Bytes(heap.headers, ChainOf(heap)) == heap.mem.Length
  {
    history, trace := [], [heap.Snap()];
    while |history| < n
      invariant |history| <= n && heap.Valid() && IsRun(program, history, trace)
      invariant trace[0] == old(heap.Snap()) && trace[|history|] == heap.Snap()
      invariant Backed(OwnedAfter(owned, history), heap.LiveBlocks())
    {
      ghost var s := heap.Snap();
      var r := program(history);
      assert Proper(trace[|history|], OwnedAfter(owned, history), r);
      var a := ServeOne(heap, r, OwnedAfter(owned, history));
      RunGoesOn(program, history, trace, Event(r, a), heap.Snap());
      StaysBacked(OwnedAfter(owned, history), s, Event(r, a), heap.Snap());
      assert (history + [Event(r, a)])[..|history|] == history;
      history, trace := history + [Event(r, a)], trace + [heap.Snap()];
    }
    WholeBuffer(heap.mem.Length, heap.headers, heap.blocks);
    UsedBytes(heap.mem.Length, heap.headers, heap.blocks);
  }
}
