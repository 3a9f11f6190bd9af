/**
 Properties of the frame allocator that span calls: what every run keeps, what a search can miss,
 and who owns a frame.
 */
module PmmRuns {
  import opened Bits
  import opened Wrappers
  import opened Bitmap
  import opened Pmm

  datatype Event = Event(op: Op, reply: Reply, post: State)

  /** The state before event `k` of a run. */
  function Before(s: State, run: seq<Event>, k: nat): State
    requires k <= |run|
  {
    if k == 0 then s else run[k - 1].post
  }

  /** Every event is a step, and nothing follows a panic. */
  ghost predicate IsRun(s: State, run: seq<Event>) {
    forall k: nat | k < |run| ::
      && Step(Before(s, run, k), run[k].op, run[k].reply, run[k].post)
      && (run[k].reply.Stopped? ==> k == |run| - 1)
  }

  /** A caller returns only a frame that is handed out. */
  ghost predicate ByOwner(s: State, op: Op) {
    op.Deallocate? ==> op.phys / FRAME_SIZE in s.outstanding
  }

  ghost predicate OwnerOnly(s: State, run: seq<Event>) {
    forall k: nat | k < |run| :: ByOwner(Before(s, run, k), run[k].op)
  }

  /** Every managed frame is accounted for once, and the counters are the sizes of the sets. */
  ghost predicate Conserved(s: State) {
    && (forall i | i in s.free :: i < MAX_FRAMES)
    && (forall i | i in s.outstanding :: i < MAX_FRAMES)
    && s.free !! s.outstanding
    && s.total == |s.free| + s.reserved + |s.outstanding|
  }

  lemma StepConserves(s: State, op: Op, r: Reply, s': State)
    requires Conserved(s) && Step(s, op, r, s') && ByOwner(s, op)
    ensures Conserved(s')
  {
    match op
    case Reserve(start, end) =>
      hide Touched, Answer;
      Split(s.free, Touched(start, end));
    case Allocate(count, align) =>
      hide Touched, Interval, Answer;
      if r.Frames? {
        AllocationMoves(s, count, align, r.start);
      }
    case Deallocate(phys) =>
      DeallocateNeedsOwner(s, phys, r, s');
  }

  lemma Split(a: set<nat>, b: set<nat>)
    ensures |a - b| + |a * b| == |a|
  {
    assert a == (a - b) + (a * b);
  }

  lemma AllocationMoves(s: State, count: nat, align: nat, start: nat)
    requires Conserved(s) && Answer(s, count, align, Some(start))
    ensures var run := Run(start, count);
            && run <= s.free && run !! s.outstanding && |run| == count
            && |s.free - run| == |s.free| - count
            && |s.outstanding + run| == |s.outstanding| + count
  {
    AnswerIsFree(s, count, align, start);
    RunRemoved(s.free, start, count);
    IntervalSize(start, start + count);
  }

  /** Conservation holds in every state of every run whose callers free only what they were handed. */
  lemma {:induction false} RunConserves(s: State, run: seq<Event>, k: nat)
    requires Conserved(s) && IsRun(s, run) && OwnerOnly(s, run) && k <= |run|
    ensures Conserved(Before(s, run, k))
    decreases k
  {
    hide Step, Conserved;
    if k > 0 {
      RunConserves(s, run, k - 1);
      StepConserves(Before(s, run, k - 1), run[k - 1].op, run[k - 1].reply, run[k - 1].post);
    }
  }

  /**
   `deallocate` cannot tell a reserved frame from one that was handed out:
   it keeps the books exactly when it panics or the frame was outstanding.
   */
  lemma DeallocateNeedsOwner(s: State, phys: nat, r: Reply, s': State)
    requires Conserved(s) && Step(s, Op.Deallocate(phys), r, s')
    ensures Conserved(s') <==> r.Stopped? || phys / FRAME_SIZE in s.outstanding
  {
    hide Touched, Interval, Answer;
    var idx := phys / FRAME_SIZE;
    if r.Ok? {
      assert |s'.free| == |s.free| + 1;
      if idx in s.outstanding {
        assert |s'.outstanding| == |s.outstanding| - 1;
      } else {
        assert s'.outstanding == s.outstanding;
      }
    }
  }

  /** A step is a function of the state and the call. */
  lemma StepDetermined(s: State, op: Op, r1: Reply, s1: State, r2: Reply, s2: State)
    requires Step(s, op, r1, s1) && Step(s, op, r2, s2)
    ensures r1 == r2 && s1 == s2
  {
    hide SearchOverflows, Answer;
    if op.Allocate? && s.initialised && !SearchOverflows(s, op.count, op.align) {
      var a1 := if r1.Frames? then Some(r1.start) else None;
      var a2 := if r2.Frames? then Some(r2.start) else None;
      AnswerDetermined(s, op.count, op.align, a1, a2);
    }
  }

  lemma AnswerDetermined(s: State, count: nat, align: nat, r1: Option<nat>, r2: Option<nat>)
    requires Answer(s, count, align, r1) && Answer(s, count, align, r2)
    ensures r1 == r2
  {
    var from := Min(s.cursor, MAX_FRAMES);
    var a := if align == 0 then 1 else align;
    if count == 1 {
      FirstDetermined(s.free, from, MAX_FRAMES, r1, r2);
      FirstDetermined(s.free, 0, from, r1, r2);
      if r1.Some? { FirstDetermined(s.free, from, MAX_FRAMES, r1, None); }
      if r2.Some? { FirstDetermined(s.free, from, MAX_FRAMES, r2, None); }
    } else if count > 1 {
      FirstRunDetermined(s.free, from, MAX_FRAMES, count, a, r1, r2);
      FirstRunDetermined(s.free, 0, from, count, a, r1, r2);
      if r1.Some? { FirstRunDetermined(s.free, from, MAX_FRAMES, count, a, r1, None); }
      if r2.Some? { FirstRunDetermined(s.free, from, MAX_FRAMES, count, a, r2, None); }
    }
  }

  lemma FirstDetermined(free: set<nat>, from: nat, bound: nat, r1: Option<nat>, r2: Option<nat>)
    ensures IsFirst(free, from, bound, r1) && IsFirst(free, from, bound, r2) ==> r1 == r2
  {
  }

  lemma FirstRunDetermined(free: set<nat>, from: nat, limit: nat, count: nat, a: nat, r1: Option<nat>, r2: Option<nat>)
    requires a > 0
    ensures IsFirstRun(free, from, limit, count, a, r1) && IsFirstRun(free, from, limit, count, a, r2) ==> r1 == r2
  {
  }

  /**
   A single-frame request fails exactly when nothing is free, and otherwise answers the first free frame at or after the
   cursor or, when there is none, the lowest free frame; `align` plays no part in it.
   */
  lemma SingleFrameComplete(s: State, align: nat, r: Reply, s': State)
    requires Conserved(s) && s.initialised && Step(s, Op.Allocate(1, align), r, s')
    ensures r.NoMemory? <==> s.free == {}
    ensures !r.NoMemory? ==>
              && r.Frames? && r.start in s.free && r.start < MAX_FRAMES
              && if exists i :: i in s.free && i >= s.cursor
                 then r.start >= s.cursor && forall i | i in s.free && i >= s.cursor :: r.start <= i
                 else forall i | i in s.free :: r.start <= i
  {
    hide Touched, Interval, IsFirstRun, RunOverflows;
    if i :| i in s.free {
      assert i < MAX_FRAMES;
    }
  }

  /** Frees and reservations leave the cursor where it is. */
  lemma {:induction false} CursorRests(s: State, run: seq<Event>, k: nat)
    requires IsRun(s, run) && k <= |run| && forall e | e in run :: !e.op.Allocate?
    ensures Before(s, run, k).cursor == s.cursor && Before(s, run, k).initialised == s.initialised
    decreases k
  {
    hide Step;
    if k > 0 {
      CursorRests(s, run, k - 1);
      assert run[k - 1] in run;
      StepRests(Before(s, run, k - 1), run[k - 1].op, run[k - 1].reply, run[k - 1].post);
    }
  }

  lemma StepRests(s: State, op: Op, r: Reply, s': State)
    requires Step(s, op, r, s') && !op.Allocate?
    ensures s'.cursor == s.cursor && s'.initialised == s.initialised
  {
    hide Touched;
  }

  /**
   The search goes on where the last answer ended: after `count` frames were handed out from `start`, and any frees by
   owners and reservations, the next one-frame request is answered with the lowest free frame at or after
   `start + count`, else with the lowest free frame.
   */
  lemma RovingFit(s: State, count: nat, align: nat, start: nat, s1: State, run: seq<Event>, r: Reply, s2: State)
    requires Conserved(s) && Step(s, Op.Allocate(count, align), Frames(start), s1)
    requires IsRun(s1, run) && OwnerOnly(s1, run) && forall e | e in run :: !e.op.Allocate?
    requires var t := Before(s1, run, |run|); Step(t, Op.Allocate(1, 1), r, s2)
    ensures var free := Before(s1, run, |run|).free;
            if free == {} then r.NoMemory?
            else
              && r.Frames? && r.start in free
              && if exists i :: i in free && i >= start + count
                 then r.start >= start + count && forall i | i in free && i >= start + count :: r.start <= i
                 else forall i | i in free :: r.start <= i
  {
    hide IsRun, OwnerOnly, Touched, Interval;
    StepConserves(s, Op.Allocate(count, align), Frames(start), s1);
    RunConserves(s1, run, |run|);
    CursorRests(s1, run, |run|);
    hide Step;
    assert s1.initialised && s1.cursor == start + count by { CursorMoves(s, count, align, start, s1); }
    SingleFrameComplete(Before(s1, run, |run|), 1, r, s2);
  }

  lemma CursorMoves(s: State, count: nat, align: nat, start: nat, s1: State)
    requires Step(s, Op.Allocate(count, align), Frames(start), s1)
    ensures s1.initialised && s1.cursor == start + count
  {
  }

  /** Allocate, free, allocate: with frames 4 and 5 free the second answer is frame 5, not the frame just returned. */
  lemma FreedFrameRests(s: State, r1: Reply, s1: State, r2: Reply, s2: State, r3: Reply, s3: State)
    requires Conserved(s) && s.initialised && s.free == {4, 5} && s.cursor == 0
    requires Step(s, Op.Allocate(1, 1), r1, s1) && Step(s1, Op.Deallocate(4 * 4096), r2, s2) && Step(s2, Op.Allocate(1, 1), r3, s3)
    ensures r1 == Frames(4) && r2.Ok? && r3 == Frames(5)
  {
    hide Touched, Interval;
    SingleFrameComplete(s, 1, r1, s1);
    OneFrame(s, r1, s1);
    StepConserves(s1, Op.Deallocate(4 * 4096), r2, s2);
    SingleFrameComplete(s2, 1, r3, s3);
  }

  /** Freeing the frame just handed out undoes the allocation, but for the cursor; freeing it again stops. */
  lemma FreeUndoesAllocate(s: State, r1: Reply, s1: State, r2: Reply, s2: State, r3: Reply, s3: State)
    requires Conserved(s) && s.initialised && Step(s, Op.Allocate(1, 1), r1, s1) && r1.Frames?
    requires Step(s1, Op.Deallocate(r1.start * 4096), r2, s2) && Step(s2, Op.Deallocate(r1.start * 4096), r3, s3)
    ensures r2.Ok? && s2 == s.(cursor := r1.start + 1)
    ensures r3.Stopped? && s3 == s2
  {
    hide Touched, Interval;
    OneFrame(s, r1, s1);
    assert r1.start * 4096 / 4096 == r1.start;
    assert s1.free + {r1.start} == s.free && s1.outstanding - {r1.start} == s.outstanding;
  }

  /** The alignment promised by `allocate_contiguous`, for the requests of `count` frames that are answered. */
  ghost predicate AlignmentKept(count: nat, align: nat) {
    forall s, r, s' | Conserved(s) && s.initialised && Step(s, Op.Allocate(count, align), r, s') && r.Frames? ::
      r.start % (if align == 0 then 1 else align) == 0
  }

  /** One free frame, number 1, asked for with an alignment of 512: frame 1 is handed out. */
  lemma AlignIgnored(s: State, r: Reply, s': State)
    requires s.initialised && s.free == {1} && s.cursor == 0 && Step(s, Op.Allocate(1, 512), r, s')
    ensures r == Frames(1)
  {
  }

  /** For more than one frame the promise always holds; for one frame exactly when nothing is asked. */
  lemma AlignmentPromise(count: nat, align: nat)
    requires count > 0
    ensures AlignmentKept(count, align) <==> count > 1 || align <= 1
  {
    var a := if align == 0 then 1 else align;
    if count == 1 && a > 1 {
      var s := State({1}, {}, 0, 1, 0, true);
      var s' := State({}, {1}, 0, 1, 2, true);
      EmptyIntervals(1, 1);
      IntervalGrows(1, 1);
      assert Run(1, 1) == {1};
      assert Answer(s, 1, align, Some(1));
      assert s.free - Run(1, 1) == {} && s.outstanding + Run(1, 1) == {1};
      assert Step(s, Op.Allocate(1, align), Frames(1), s');
      assert Conserved(s) && 1 % a != 0;
    }
  }

  /**
   A request for no frames answers the cursor and moves nothing. The frame it names is free exactly when the cursor
   stands on a free frame; with the cursor at the end it is outside the managed range.
   */
  lemma ZeroFrames(s: State, align: nat, r: Reply, s': State)
    requires Conserved(s) && s.initialised && Step(s, Op.Allocate(0, align), r, s')
    ensures r == Frames(Min(s.cursor, MAX_FRAMES)) && s' == s.(cursor := Min(s.cursor, MAX_FRAMES))
    ensures r.start in s.free <==> s.cursor in s.free
    ensures s.cursor >= MAX_FRAMES <==> r.start >= MAX_FRAMES
  {
    EmptyIntervals(Min(s.cursor, MAX_FRAMES), 0);
    assert s.free - {} == s.free && s.outstanding + {} == s.outstanding;
  }

  /**
   A contiguous request that does not overflow fails exactly when every free aligned run straddles the cursor;
   an alignment of 0 counts as 1. It stops exactly when a sum of its searches leaves 64 bits.
   */
  lemma ContiguousComplete(s: State, count: nat, align: nat, r: Reply, s': State)
    requires s.initialised && count >= 2 && Step(s, Op.Allocate(count, align), r, s')
    ensures r.Stopped? <==> SearchOverflows(s, count, align)
    ensures var a := if align == 0 then 1 else align;
            && (!r.Stopped? ==>
                  (r.NoMemory? <==>
                     forall x: nat | x % a == 0 && x + count <= MAX_FRAMES && RunAt(s.free, x, count) ::
                       x < s.cursor < x + count))
            && (r.Frames? ==> r.start % a == 0 && RunAt(s.free, r.start, count))
  {
    hide SearchOverflows;
    var a := if align == 0 then 1 else align;
    var from := Min(s.cursor, MAX_FRAMES);
    if r.NoMemory? {
      forall x: nat | x % a == 0 && x + count <= MAX_FRAMES && RunAt(s.free, x, count)
        ensures x < s.cursor < x + count
      {
        assert !(from <= x) && !(x + count <= from);
      }
    } else if r.Frames? {
      assert r.start + count <= from || from <= r.start;
    }
  }

  /** Requests of ordinary size never overflow. */
  lemma SmallRequests(s: State, count: nat, align: nat)
    requires 2 * MAX_FRAMES + align + count + 1 < U64_SIZE
    ensures !SearchOverflows(s, count, align)
  {
    hide RunOverflows, IsFirstRun;
    var a := if align == 0 then 1 else align;
    SmallRunFits(s.free, Min(s.cursor, MAX_FRAMES), MAX_FRAMES, count, a);
    SmallRunFits(s.free, 0, Min(s.cursor, MAX_FRAMES), count, a);
  }

  /** Two free frames on either side of the cursor: a request for two contiguous frames fails. */
  lemma StraddlingRunMissed(s: State, r: Reply, s': State)
    requires s.initialised && s.free == {4, 5} && s.cursor == 5
    requires Step(s, Op.Allocate(2, 1), r, s')
    ensures RunAt(s.free, 4, 2) && r.NoMemory?
  {
    SmallRequests(s, 2, 1);
    ContiguousComplete(s, 2, 1, r, s');
    forall x: nat | RunAt(s.free, x, 2) ensures x == 4 {
      assert x in s.free && x + 1 in s.free;
    }
  }

  /** Reserving a range twice is reserving it once. */
  lemma ReserveIdempotent(s: State, start: nat, end: nat, r1: Reply, s1: State, r2: Reply, s2: State)
    requires Step(s, Reserve(start, end), r1, s1) && Step(s1, Reserve(start, end), r2, s2)
    ensures r2 == r1 && s2 == s1
  {
    var t := Touched(start, end);
    assert s.free - t - t == s.free - t;
    assert (s.free - t) * t == {};
  }

  /** Every frame the allocator ever hands out again comes from the frames it started with. */
  lemma {:induction false} PoolNeverGrows(s: State, run: seq<Event>, k: nat)
    requires IsRun(s, run) && OwnerOnly(s, run) && k <= |run|
    ensures var t := Before(s, run, k); t.free + t.outstanding <= s.free + s.outstanding
    decreases k
  {
    hide Step;
    if k > 0 {
      PoolNeverGrows(s, run, k - 1);
      StepKeepsPool(Before(s, run, k - 1), run[k - 1].op, run[k - 1].reply, run[k - 1].post);
    }
  }

  lemma StepKeepsPool(s: State, op: Op, r: Reply, s': State)
    requires Step(s, op, r, s') && ByOwner(s, op)
    ensures s'.free + s'.outstanding <= s.free + s.outstanding
  {
    hide Touched, Interval, Answer;
    if op.Allocate? && r.Frames? {
      AnswerIsFree(s, op.count, op.align, r.start);
    }
  }

  /**
   Ownership: a frame handed out by event `k` was free until then, belonged to the frames the run
   started with, and was not already outstanding.
   */
  lemma FreshFrames(s: State, run: seq<Event>, k: nat, f: nat)
    requires Conserved(s) && IsRun(s, run) && OwnerOnly(s, run) && k < |run|
    requires run[k].op.Allocate? && run[k].reply.Frames?
    requires f in Run(run[k].reply.start, run[k].op.count)
    ensures f in s.free + s.outstanding && f < MAX_FRAMES
    ensures f !in Before(s, run, k).outstanding && f in run[k].post.outstanding
  {
    RunConserves(s, run, k);
    PoolNeverGrows(s, run, k);
    AnswerIsFree(Before(s, run, k), run[k].op.count, run[k].op.align, run[k].reply.start);
  }

  /** What `allocate_frame` does: it takes one free frame, and fails only when there is none. */
  lemma OneFrame(s: State, r: Reply, s': State)
    requires Conserved(s) && s.initialised && Step(s, Op.Allocate(1, 1), r, s')
    ensures Conserved(s') && s'.initialised
    ensures r.NoMemory? ==> s.free == {} && s' == s
    ensures !r.NoMemory? ==>
              && r.Frames? && r.start in s.free && r.start < MAX_FRAMES && r.start !in s.outstanding
              && s'.free == s.free - {r.start} && s'.outstanding == s.outstanding + {r.start}
  {
    SingleFrameComplete(s, 1, r, s');
    StepConserves(s, Op.Allocate(1, 1), r, s');
    if r.Frames? {
      EmptyIntervals(r.start, r.start);
      IntervalGrows(r.start, r.start);
      assert Run(r.start, 1) == {r.start};
    }
  }
}
