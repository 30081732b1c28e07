/** What holds over whole runs of the allocator, and what becomes of pointers that were freed. */
module HeapHistories {
  import opened HeapState
  import opened BlockChain
  import opened HeapAccounting
  import opened HeapBytes
  import opened HeapSteps
  import opened StalePointers
  import opened HeapSnapshots
  import opened Heap
  import opened HeapRuns

  /** Without a realloc that trims in place no two neighbours are ever both free. */
  lemma {:induction false} StaysSparse(program: Program, history: seq<Event>, trace: seq<Snapshot>, k: nat)
    requires IsRun(program, history, trace) && k <= |history| && Sparse(trace[0])
    requires forall i :: 0 <= i < k ==> !Trims(trace[i].Live(), history[i].request)
    ensures Sparse(trace[k])
  {
    if k > 0 {
      StaysSparse(program, history, trace, k - 1);
      assert Step(history, trace, k - 1);
    }
  }

  /** No block is ever empty, unless a request for nearly the whole address space is given a block that can be split. */
  lemma {:induction false} StaysAmple(program: Program, history: seq<Event>, trace: seq<Snapshot>, k: nat)
    requires IsRun(program, history, trace) && k <= |history| && Ample(trace[0].headers, trace[0].blocks)
    requires forall i :: 0 <= i < k ==> !Starves(trace[i], history[i].request)
    ensures Ample(trace[k].headers, trace[k].blocks)
  {
    if k > 0 {
      StaysAmple(program, history, trace, k - 1);
      assert Step(history, trace, k - 1);
    }
  }

  /** A live block that no request concerns stays live with its size and all its bytes. */
  lemma {:induction false} PayloadStays(program: Program, history: seq<Event>, trace: seq<Snapshot>, i: nat, j: nat,
                                        c: int)
    requires IsRun(program, history, trace) && i <= j <= |history| && c in trace[i].Live()
    requires Kept(trace[i].bytes, trace[i].bytes, c, trace[i].Live()[c])
    requires forall k :: i <= k < j ==> !Names(history[k].request, c, trace[i].Live()[c])
    ensures c in trace[j].Live() && trace[j].Live()[c] == trace[i].Live()[c]
    ensures Kept(trace[i].bytes, trace[j].bytes, c, trace[i].Live()[c])
    decreases j - i
  {
    if i < j {
      PayloadStays(program, history, trace, i, j - 1, c);
      assert Step(history, trace, j - 1);
      assert Kept(trace[j - 1].bytes, trace[j].bytes, c, trace[j - 1].Live()[c]);
    }
  }

  /** The addresses of live blocks after one more event. */
  function LivesOn(live: set<int>, e: Event): set<int> {
    match e.request
    case Malloc(_) => if e.answer.Pointer? && e.answer.p != NULL then live + {e.answer.p - HEADER} else live
    case Free(ptr) => live - {ptr - HEADER}
    case Write(_, _) => live
    case Realloc(ptr, size) =>
      if ptr != NULL && size == 0 then live - {ptr - HEADER}
      else if e.answer.Pointer? && e.answer.p != NULL then live - {ptr - HEADER} + {e.answer.p - HEADER}
      else live
  }

  function Replay(live: set<int>, history: seq<Event>): set<int> {
    if history == [] then live else LivesOn(Replay(live, history[..|history| - 1]), history[|history| - 1])
  }

  lemma LivesOnStep(s: Snapshot, e: Event, s': Snapshot)
    requires Answered(s, e, s') && Whole(s)
    ensures s'.Live().Keys == LivesOn(s.Live().Keys, e)
  {
    NullNotLive(|s.bytes|, s.headers, s.blocks);
    hide Sound;
    hide HeapAccounting.Live;
    hide FirstFit;
    hide Resizes;
  }

  /** What is live is what the answers say. */
  lemma {:induction false} LiveIsReplay(program: Program, history: seq<Event>, trace: seq<Snapshot>, k: nat)
    requires IsRun(program, history, trace) && k <= |history| && Whole(trace[0])
    ensures Whole(trace[k])
    ensures trace[k].Live().Keys == Replay(trace[0].Live().Keys, history[..k])
  {
    if k > 0 {
      LiveIsReplay(program, history, trace, k - 1);
      assert Step(history, trace, k - 1);
      assert history[..k][..k - 1] == history[..k - 1];
      hide *;
      LivesOnStep(trace[k - 1], history[k - 1], trace[k]);
    }
  }

  // ---- stale pointers ----

  /** A block that ceased to be live, by a free or by a realloc that moved or dropped it, is refused from then on, until
      the free block that shelters it is used up; frees and writes use up none. */
  lemma {:induction false} StaysRefused(program: Program, history: seq<Event>, trace: seq<Snapshot>, i: nat, j: nat,
                                        b: int)
    requires IsRun(program, history, trace) && i < j <= |history|
    requires b in trace[i].Live() && b !in trace[i + 1].Live()
    requires forall k :: i < k < j ==>
               var c := HandsOut(trace[k], history[k]); c == NULL || !Shelters(trace[k].headers, c, b)
    ensures Sheltered(trace[j].headers, trace[j].blocks, trace[j].bytes, b, NULL)
    ensures !trace[j].Accepts(b + HEADER) && b !in trace[j].Live()
    decreases j - i
  {
    assert Step(history, trace, j - 1);
    var s := trace[j - 1];
    if i + 1 < j {
      StaysRefused(program, history, trace, i, j - 1, b);
      assert Sheltered(s.headers, s.blocks, s.bytes, b, HandsOut(s, history[j - 1]));
    }
    hide *;
    ShelteredIsRefused(|trace[j].bytes|, trace[j].headers, trace[j].blocks, trace[j].bytes, b);
  }

  lemma {:induction false} LengthStays(program: Program, history: seq<Event>, trace: seq<Snapshot>, k: nat)
    requires IsRun(program, history, trace) && k <= |history|
    ensures |trace[k].bytes| == |trace[0].bytes|
  {
    if k > 0 {
      LengthStays(program, history, trace, k - 1);
      assert Step(history, trace, k - 1);
    }
  }

  lemma PassesAfter(s0: Snapshot, s: Snapshot, e: Event, s': Snapshot, b: int)
    requires |s0.bytes| == |s.bytes| && Whole(s0) && Whole(s) && Whole(s') && Served(s, e, s')
    requires b in s0.Live() && Stale(s.bytes, b)
    requires e.request.Malloc? && HandsOut(s, e) != b && Shelters(s.headers, HandsOut(s, e), b)
    ensures var cut := CutOff(s, HandsOut(s, e), e.request.size);
            s'.Accepts(b + HEADER) <==> b + 8 in cut || b + 16 in cut
  {
    var c := HandsOut(s, e);
    assert b in s0.blocks && WellSized(s0.headers[b], b, |s0.bytes|);
    NullIsNoBlock(|s.bytes|, s.headers, s.blocks);
    assert Passes(s'.bytes, b) <==>
           MagicAt(s.bytes, b) && (b + 8 in CutOff(s, c, e.request.size) || b + 16 in CutOff(s, c, e.request.size));
  }

  /** And then, if an allocation uses it up, the pointer passes the test again if and only if the block that is cut off
      begins 8 or 16 bytes behind the place of its header. */
  lemma PassesWhen(program: Program, history: seq<Event>, trace: seq<Snapshot>, i: nat, j: nat, b: int)
    requires IsRun(program, history, trace) && i < j < |history| && Whole(trace[0])
    requires b in trace[i].Live() && b !in trace[i + 1].Live()
    requires forall k :: i < k < j ==>
               var c := HandsOut(trace[k], history[k]); c == NULL || !Shelters(trace[k].headers, c, b)
    requires history[j].request.Malloc? && HandsOut(trace[j], history[j]) != b
    requires Shelters(trace[j].headers, HandsOut(trace[j], history[j]), b)
    ensures var cut := CutOff(trace[j], HandsOut(trace[j], history[j]), history[j].request.size);
            trace[j + 1].Accepts(b + HEADER) <==> b + 8 in cut || b + 16 in cut
  {
    assert Step(history, trace, j);
    StaysRefused(program, history, trace, i, j, b);
    LiveIsReplay(program, history, trace, i);
    LiveIsReplay(program, history, trace, j);
    LiveIsReplay(program, history, trace, j + 1);
    LengthStays(program, history, trace, i);
    LengthStays(program, history, trace, j);
    PassesAfter(trace[i], trace[j], history[j], trace[j + 1], b);
  }

  function PointerOf(e: Event): int {
    if e.answer.Pointer? then e.answer.p else NULL
  }

  /** A client that takes two blocks, frees the first, and then frees the second over and over. */
  function TakeTwo(first: nat, second: nat): Program {
    (history: seq<Event>) =>
      if |history| == 0 then Malloc(first) else if |history| == 1 then Malloc(second)
      else if |history| == 2 then Free(PointerOf(history[0])) else Free(PointerOf(history[1]))
  }

  /** The two blocks are apart and owned. */
  lemma TakeTwoOwns(first: nat, second: nat, owned: Owned, history: seq<Event>, trace: seq<Snapshot>)
    requires IsRun(TakeTwo(first, second), history, trace) && 2 <= |history|
    ensures var p, q, o := PointerOf(history[0]), PointerOf(history[1]), OwnedAfter(owned, history[..2]);
      && (p != NULL ==> p in o) && (q != NULL ==> q in o && q != p && q - HEADER in trace[2].Live())
  {
    assert Step(history, trace, 0) && Step(history, trace, 1);
    assert history[..2][..1] == history[..1] && history[..1][..0] == [];
    assert history[0].request == TakeTwo(first, second)(history[..0]);
    assert history[1].request == TakeTwo(first, second)(history[..1]);
  }

  lemma FreeStep(program: Program, history: seq<Event>, trace: seq<Snapshot>, i: nat, ptr: int)
    requires IsRun(program, history, trace) && i < |history| && program(history[..i]) == Free(ptr)
    ensures history[i].request == Free(ptr) && trace[i + 1].Live() == trace[i].Live() - {ptr - HEADER}
  {
    assert Step(history, trace, i);
  }

  /** In no run does this client mislead the test, so every heap serves it for ever. */
  lemma TakeTwoIsProper(first: nat, second: nat, owned: Owned, history: seq<Event>, trace: seq<Snapshot>)
    requires first < SIZE_LIMIT && second < SIZE_LIMIT && IsRun(TakeTwo(first, second), history, trace)
    ensures Proper(trace[|history|], OwnedAfter(owned, history), TakeTwo(first, second)(history))
  {
    var n := |history|;
    if n >= 2 {
      TakeTwoOwns(first, second, owned, history, trace);
      var p, q := PointerOf(history[0]), PointerOf(history[1]);
      hide Served;
      hide HeapAccounting.Live;
      if n == 2 {
        assert history[..2] == history;
      } else {
        FreeStep(TakeTwo(first, second), history, trace, 2, p);
        assert history[..3][..2] == history[..2];
        assert q != NULL ==> q in OwnedAfter(owned, history[..3]) && q - HEADER in trace[3].Live();
        if n == 3 {
          assert history[..3] == history;
        } else if q != NULL {
          forall k | 3 <= k < n ensures history[k].request == Free(q) {
            FreeStep(TakeTwo(first, second), history, trace, k, q);
          }
          FreeStep(TakeTwo(first, second), history, trace, 3, q);
          StaysRefused(TakeTwo(first, second), history, trace, 3, n, q - HEADER);
        }
      }
    }
  }

  // ---- what goes wrong ----

  /** Rounding the largest size up wraps around to 0: the block handed out for it is empty. */
  method HugeRequestEmpties() returns (heap: Allocator)
    ensures heap.Valid() && 0 in heap.LiveBlocks() && heap.LiveBlocks()[0] == 0 && !Ample(heap.headers, heap.blocks)
  {
    heap := new Allocator(512, 4096);
    assert 0 in heap.blocks && 0 !in heap.LiveBlocks();
    AlignUpRounds(SIZE_LIMIT - 1);
    var p := heap.Malloc(SIZE_LIMIT - 1);
    assert p - HEADER == 0;
  }

  /** A block with no block behind it reaches to the end of the buffer. */
  lemma LastBlockSize(n: int, h: Headers, blocks: set<int>, b: int)
    requires Tiled(n, h, blocks) && b in blocks && forall k :: k in blocks ==> k <= b
    ensures h[b].size == n - b - HEADER
  {
    assert NextOk(n, h, blocks, b) && WellSized(h[b], b, n);
  }

  /** The blocks of two small requests on a fresh heap. */
  method TwoBlocks(heap: Allocator) returns (p: int, q: int)
    requires heap.Valid() && Coalesced(heap.headers, heap.blocks) && heap.blocks == {0} && heap.LiveBlocks() == map[]
    requires heap.mem.Length == 512
    modifies heap, heap.mem, heap.freeLists
    ensures heap.Valid() && Coalesced(heap.headers, heap.blocks)
    ensures p == HEADER && q == 64 + HEADER && heap.LiveBlocks().Keys == {0, 64}
  {
    EmptyHeapIsWhole(512, heap.headers, heap.blocks);
    assert 0 in heap.blocks && heap.headers[0].free && AlignUp(8) <= heap.headers[0].size;
    p := heap.Malloc(8);
    assert heap.blocks == {0, 64} && heap.LiveBlocks() == map[0 := 8];
    assert 64 !in heap.LiveBlocks();
    LastBlockSize(512, heap.headers, heap.blocks, 64);
    assert 0 in heap.LiveBlocks() && !heap.headers[0].free;
    assert 64 in heap.blocks && heap.headers[64].free && AlignUp(8) <= heap.headers[64].size;
    q := heap.Malloc(8);
  }

  method FreeBoth(heap: Allocator, p: int, q: int)
    requires heap.Valid() && Coalesced(heap.headers, heap.blocks)
    requires p != q && heap.LiveBlocks().Keys == {p - HEADER, q - HEADER}
    modifies heap, heap.mem, heap.freeLists
    ensures heap.Valid() && Coalesced(heap.headers, heap.blocks) && heap.LiveBlocks() == map[]
    ensures Stale(heap.mem[..], q - HEADER)
  {
    assert p - HEADER in heap.LiveBlocks() && q - HEADER in heap.LiveBlocks();
    var _ := heap.Free(p);
    assert heap.LiveBlocks().Keys == {q - HEADER};
    assert q - HEADER in heap.LiveBlocks();
    var _ := heap.Free(q);
    assert heap.LiveBlocks().Keys == {};
  }

  /** The block handed out next ends where the stale magic begins to overlap. */
  method TakeOver(heap: Allocator)
    requires heap.Valid() && Coalesced(heap.headers, heap.blocks) && heap.LiveBlocks() == map[]
    requires heap.mem.Length == 512 && Stale(heap.mem[..], 64)
    modifies heap, heap.mem, heap.freeLists
    ensures heap.Valid() && heap.Misleads(64 + HEADER)
  {
    EmptyHeapIsWhole(512, heap.headers, heap.blocks);
    ghost var m, h := heap.mem[..], heap.headers;
    assert h[0].free && h[0].size == 456;
    var r := heap.Malloc(24);
    assert r - HEADER == 0;
    assert Rest(0, 456, 24) == {80};
    assert heap.blocks == {0, 80};
    assert Passes(heap.mem[..], 64);
  }

  /** Two blocks, both freed and merged away; the header of the next block begins in the middle of what the second one's
      header was. Its magic is still there, and the byte of its free bit now belongs to the new magic: the pointer to
      the second block passes the test of free once more, and nothing live is behind it. */
  method StalePointerPasses() returns (heap: Allocator, stale: int)
    ensures heap.Valid() && heap.Misleads(stale)
  {
    heap := new Allocator(512, 4096);
    var p, q := TwoBlocks(heap);
    FreeBoth(heap, p, q);
    TakeOver(heap);
    stale := q;
  }
}
