/** core.c `fill_memory_blocks_mt` as a state machine. A step is one create or
    join of the main thread, or one of the three accesses to the shared memory
    with which a lane thread builds a block; any scheduling of these steps is a
    run. */
module ThreadedFill {
  import opened Argon2Params
  import opened Arith
  import opened ReferenceIndex
  import opened BlakeRound
  import opened FillBlock
  import opened FillSegment
  import opened ParallelFill

  /** A thread between two blocks, with the random word chosen, or with the
      reference block read as well. */
  datatype Stage = Ready | Chosen(rand: Word) | Loaded(reference: Block)

  datatype Thread = Thread(created: bool, index: nat, stage: Stage, joins: nat)

  /** Where the main thread stands: in the first loop before the join of line
      328 or before the create, in the second loop, or past both loops. */
  datatype Pc = JoinEarly(l: nat) | Create(l: nat) | JoinLate(l: nat) | SliceDone

  datatype State = State(pass: nat, slice: nat, pc: Pc, threads: seq<Thread>, mem: seq<Block>)

  datatype Event = Main | Work(lane: nat)

  /** The head of the first loop at `l`, or the start of the second loop. */
  function LoopHead(inst: Instance, l: nat): Pc
    requires ValidInstance(inst)
  {
    if l < inst.lanes then if l >= inst.threads then JoinEarly(l) else Create(l)
    else JoinLate(inst.lanes - inst.threads)
  }

  function NewThreads(inst: Instance, pass: nat, slice: nat): seq<Thread> {
    seq(inst.lanes, _ => Thread(false, StartIndex(pass, slice), Ready, 0))
  }

  function Init(inst: Instance, mem: seq<Block>): State
    requires ValidInstance(inst)
  {
    State(0, 0, LoopHead(inst, 0), NewThreads(inst, 0, 0), mem)
  }

  /** Joining waits until the thread has left `fill_segment`. */
  predicate Finished(inst: Instance, t: Thread) {
    t.created && t.index == inst.segmentLength
  }

  predicate WellFormed(inst: Instance, st: State) {
    && ValidInstance(inst) && IsMemory(inst, st.mem)
    && st.pass <= inst.passes && st.slice < SYNC_POINTS
    && |st.threads| == inst.lanes
    && (forall l :: 0 <= l < inst.lanes ==>
          && StartIndex(st.pass, st.slice) <= st.threads[l].index <= inst.segmentLength
          && (st.threads[l].index == inst.segmentLength ==> st.threads[l].stage.Ready?))
    && match st.pc
       case JoinEarly(l) => inst.threads <= l < inst.lanes
       case Create(l) => l < inst.lanes
       case JoinLate(l) => l < inst.lanes
       case SliceDone => true
  }

  predicate Enabled(inst: Instance, st: State, e: Event)
    requires WellFormed(inst, st)
  {
    && st.pass < inst.passes
    && match e
       case Work(lane) => lane < inst.lanes && st.threads[lane].created && st.threads[lane].index < inst.segmentLength
       case Main => match st.pc
                    case JoinEarly(l) => Finished(inst, st.threads[l - inst.threads])
                    case Create(_) => true
                    case JoinLate(l) => Finished(inst, st.threads[l])
                    case SliceDone => true
  }

  function Join(threads: seq<Thread>, l: nat): seq<Thread>
    requires l < |threads|
  {
    threads[l := threads[l].(joins := threads[l].joins + 1)]
  }

  /** The thread's next access: the word that chooses, from the previous block
      or its own addresses; the reference block, which may be another lane's;
      or the block itself, built from the previous one and the present one. */
  function Worked(inst: Instance, pos: Position, t: Thread, mem: seq<Block>): (r: (Thread, seq<Block>))
    requires ValidInstance(inst) && ValidPosition(inst, pos) && IsMemory(inst, mem)
    ensures IsMemory(inst, r.1)
  {
    PositionOffsets(inst, pos);
    match t.stage
    case Ready => (t.(stage := Chosen(PseudoRand(inst, pos, mem))), mem)
    case Chosen(rand) => (t.(stage := Loaded(mem[ReferenceOffset(inst, pos, rand)])), mem)
    case Loaded(reference) =>
      var block := inst.compress(mem[PreviousOffset(inst, pos)], reference, mem[CurrentOffset(inst, pos)],
                                 WithXor(inst, pos));
      (t.(index := pos.index + 1, stage := Ready), mem[CurrentOffset(inst, pos) := block])
  }

  function Apply(inst: Instance, st: State, e: Event): (st': State)
    requires WellFormed(inst, st) && Enabled(inst, st, e)
    ensures WellFormed(inst, st')
  {
    match e
    case Work(lane) =>
      var (thread, mem) := Worked(inst, At(st.pass, lane, st.slice, st.threads[lane].index), st.threads[lane], st.mem);
      st.(mem := mem, threads := st.threads[lane := thread])
    case Main =>
      match st.pc
      case JoinEarly(l) => st.(threads := Join(st.threads, l - inst.threads), pc := Create(l))
      case Create(l) => st.(threads := st.threads[l := st.threads[l].(created := true)], pc := LoopHead(inst, l + 1))
      case JoinLate(l) => st.(threads := Join(st.threads, l),
                              pc := if l + 1 < inst.lanes then JoinLate(l + 1) else SliceDone)
      case SliceDone =>
        var pass, slice := if st.slice + 1 < SYNC_POINTS then st.pass else st.pass + 1, (st.slice + 1) % SYNC_POINTS;
        State(pass, slice, LoopHead(inst, 0), NewThreads(inst, pass, slice), st.mem)
  }

  predicate IsRun(inst: Instance, st: State, events: seq<Event>)
    requires WellFormed(inst, st)
    decreases |events|
  {
    events == [] || (Enabled(inst, st, events[0]) && IsRun(inst, Apply(inst, st, events[0]), events[1..]))
  }

  function After(inst: Instance, st: State, events: seq<Event>): (st': State)
    requires WellFormed(inst, st) && IsRun(inst, st, events)
    ensures WellFormed(inst, st')
    decreases |events|
  {
    if events == [] then st else After(inst, Apply(inst, st, events[0]), events[1..])
  }

  // ------------------------------------------------------------ invariant

  /** Threads created, and threads joined, when the main thread stands at `pc`:
      both are initial stretches of the lanes. */
  function CreatedCount(inst: Instance, pc: Pc): nat {
    match pc
    case JoinEarly(l) => l
    case Create(l) => l
    case JoinLate(_) => inst.lanes
    case SliceDone => inst.lanes
  }

  function JoinedCount(inst: Instance, pc: Pc): int {
    match pc
    case JoinEarly(l) => l - inst.threads
    case Create(l) => if l >= inst.threads then l - inst.threads + 1 else 0
    case JoinLate(l) => l
    case SliceDone => inst.lanes
  }

  predicate ThreadsMatch(inst: Instance, st: State) {
    && |st.threads| == inst.lanes
    && (st.pc.JoinLate? ==> inst.lanes - inst.threads <= st.pc.l)
    && forall l :: 0 <= l < inst.lanes ==> ThreadMatches(inst, st, l, st.threads[l])
  }

  predicate ThreadMatches(inst: Instance, st: State, l: nat, t: Thread) {
    && t.created == (l < CreatedCount(inst, st.pc))
    && t.joins == (if l < JoinedCount(inst, st.pc) then 1 else 0)
    && (!t.created ==> t.index == StartIndex(st.pass, st.slice) && t.stage.Ready?)
    && (t.joins == 1 ==> t.index == inst.segmentLength)
  }

  function Progress(threads: seq<Thread>): (progress: seq<nat>)
    ensures |progress| == |threads|
  {
    seq(|threads|, l requires 0 <= l < |threads| => threads[l].index)
  }

  /** What a thread has read so far is what it would have read alone. */
  predicate StageMatches(inst: Instance, pass: nat, slice: nat, lane: nat, base: seq<Block>, t: Thread)
    requires ValidInstance(inst) && ValidSegment(inst, pass, lane, slice) && IsMemory(inst, base)
  {
    t.stage.Ready? || (
      && StartIndex(pass, slice) <= t.index < inst.segmentLength
      && var pos := At(pass, lane, slice, t.index);
         var alone := LaneRun(inst, pass, slice, lane, base, t.index);
         && (t.stage.Chosen? ==> t.stage.rand == PseudoRand(inst, pos, alone))
         && (t.stage.Loaded? ==> t.stage.reference == alone[ReferenceOffset(inst, pos, PseudoRand(inst, pos, alone))])
    )
  }

  predicate StagesMatch(inst: Instance, pass: nat, slice: nat, base: seq<Block>, threads: seq<Thread>)
    requires ValidInstance(inst) && pass < inst.passes && slice < SYNC_POINTS && IsMemory(inst, base)
  {
    |threads| == inst.lanes
    && forall l :: 0 <= l < inst.lanes ==> StageMatches(inst, pass, slice, l, base, threads[l])
  }

  /** `base` is the memory with which the current slice started. */
  predicate Inv(inst: Instance, st: State, base: seq<Block>, start: seq<Block>) {
    && WellFormed(inst, st) && IsMemory(inst, base) && IsMemory(inst, start)
    && ThreadsMatch(inst, st)
    && if st.pass == inst.passes then st.mem == FillFrom(inst, 0, 0, start)
       else && ValidProgress(inst, st.pass, st.slice, Progress(st.threads))
            && st.mem == Merge(inst, st.pass, st.slice, base, Progress(st.threads))
            && StagesMatch(inst, st.pass, st.slice, base, st.threads)
            && FillFrom(inst, st.pass, st.slice, base) == FillFrom(inst, 0, 0, start)
  }

  lemma InitInv(inst: Instance, mem: seq<Block>)
    requires ValidInstance(inst) && IsMemory(inst, mem)
    ensures Inv(inst, Init(inst, mem), mem, mem)
  {
    hide Merge, FillFrom;
    NothingMerged(inst, 0, 0, mem);
    assert Progress(NewThreads(inst, 0, 0)) == UpTo(0, StartIndex(0, 0), inst.segmentLength, inst.lanes);
  }

  /** Whatever the other lanes have done since the thread's last access, this one
      reads or writes what it would alone. */
  lemma WorkAdvances(inst: Instance, pass: nat, slice: nat, base: seq<Block>, progress: seq<nat>, lane: nat, t: Thread)
    requires ValidInstance(inst) && ValidSegment(inst, pass, lane, slice) && IsMemory(inst, base)
    requires ValidProgress(inst, pass, slice, progress) && t.index == progress[lane] < inst.segmentLength
    requires StageMatches(inst, pass, slice, lane, base, t)
    ensures ValidPosition(inst, At(pass, lane, slice, t.index))
    ensures var (t', mem') :=
              Worked(inst, At(pass, lane, slice, t.index), t, Merge(inst, pass, slice, base, progress));
            && StageMatches(inst, pass, slice, lane, base, t')
            && ValidProgress(inst, pass, slice, progress[lane := t'.index])
            && mem' == Merge(inst, pass, slice, base, progress[lane := t'.index])
  {
    hide LaneRun, Merge, PseudoRand, ReferenceOffset;
    var pos := At(pass, lane, slice, t.index);
    var merged := Merge(inst, pass, slice, base, progress);
    var alone := LaneRun(inst, pass, slice, lane, base, t.index);
    OwnReadsAgree(inst, pass, slice, base, progress, lane);
    ReferenceAgrees(inst, pass, slice, base, progress, lane, PseudoRand(inst, pos, alone));
    if t.stage.Loaded? {
      StepAdvances(inst, pass, slice, base, progress, lane);
      assert Worked(inst, pos, t, merged).1 == Step(inst, pos, merged);
    } else {
      assert progress[lane := t.index] == progress;
    }
  }

  lemma WorkKeepsInv(inst: Instance, st: State, lane: nat, base: seq<Block>, start: seq<Block>)
    requires Inv(inst, st, base, start) && Enabled(inst, st, Work(lane))
    ensures Inv(inst, Apply(inst, st, Work(lane)), base, start)
  {
    hide Merge, FillFrom, Worked, StageMatches;
    var st' := Apply(inst, st, Work(lane));
    var t := st.threads[lane];
    WorkAdvances(inst, st.pass, st.slice, base, Progress(st.threads), lane, t);
    WorkedThread(inst, At(st.pass, lane, st.slice, t.index), t, st.mem);
    assert Progress(st'.threads) == Progress(st.threads)[lane := st'.threads[lane].index];
  }

  lemma WorkedThread(inst: Instance, pos: Position, t: Thread, mem: seq<Block>)
    requires ValidInstance(inst) && ValidPosition(inst, pos) && IsMemory(inst, mem) && pos.index == t.index
    ensures var t' := Worked(inst, pos, t, mem).0;
            && t'.created == t.created && t'.joins == t.joins && StepsDone(t') == StepsDone(t) + 1
            && t.index <= t'.index <= t.index + 1 && (t'.index == t.index + 1 ==> t'.stage.Ready?)
  {
  }

  /** Undisturbed, three accesses are one step of `fill_segment`. */
  lemma ThreeAccesses(inst: Instance, pos: Position, t: Thread, mem: seq<Block>)
    requires ValidInstance(inst) && ValidPosition(inst, pos) && IsMemory(inst, mem) && t.stage.Ready?
    ensures var (t1, mem1) := Worked(inst, pos, t, mem);
            var (t2, mem2) := Worked(inst, pos, t1, mem1);
            Worked(inst, pos, t2, mem2) == (t.(index := pos.index + 1), Step(inst, pos, mem))
  {
    hide PseudoRand, ReferenceOffset;
  }

  /** Accesses the thread has made, three for each block. */
  function StepsDone(t: Thread): nat {
    3 * t.index + match t.stage case Ready => 0 case Chosen(_) => 1 case Loaded(_) => 2
  }

  lemma MainKeepsInv(inst: Instance, st: State, base: seq<Block>, start: seq<Block>)
    requires Inv(inst, st, base, start) && Enabled(inst, st, Main) && !st.pc.SliceDone?
    ensures Inv(inst, Apply(inst, st, Main), base, start)
  {
    hide Merge, FillFrom;
    assert Progress(Apply(inst, st, Main).threads) == Progress(st.threads);
  }

  /** At the barrier every thread of the slice has been joined, once, and the
      memory is the one the sequential loop over the lanes leaves. */
  lemma Barrier(inst: Instance, st: State, base: seq<Block>, start: seq<Block>)
    requires Inv(inst, st, base, start) && st.pc.SliceDone? && st.pass < inst.passes
    ensures forall l :: 0 <= l < inst.lanes ==> st.threads[l] == Thread(true, inst.segmentLength, Ready, 1)
    ensures st.mem == LanesFrom(inst, st.pass, st.slice, 0, base)
  {
    hide Merge, FillFrom, LanesFrom;
    FinishedSlice(inst, st.pass, st.slice, base, Progress(st.threads));
  }

  lemma NextSliceKeepsInv(inst: Instance, st: State, base: seq<Block>, start: seq<Block>)
    requires Inv(inst, st, base, start) && Enabled(inst, st, Main) && st.pc.SliceDone?
    ensures Inv(inst, Apply(inst, st, Main), st.mem, start)
  {
    hide Merge, LanesFrom;
    Barrier(inst, st, base, start);
    var st' := Apply(inst, st, Main);
    assert FillFrom(inst, st'.pass, st'.slice, st.mem) == FillFrom(inst, 0, 0, start) by {
      assert FillFrom(inst, st.pass, st.slice, base) == FillFrom(inst, st.pass, st.slice + 1, st.mem);
    }
    if st'.pass < inst.passes {
      NothingMerged(inst, st'.pass, st'.slice, st.mem);
      assert Progress(st'.threads)
             == UpTo(0, StartIndex(st'.pass, st'.slice), inst.segmentLength, inst.lanes);
    }
  }

  lemma KeepsInv(inst: Instance, st: State, e: Event, base: seq<Block>, start: seq<Block>)
    requires Inv(inst, st, base, start) && Enabled(inst, st, e)
    ensures Inv(inst, Apply(inst, st, e), if e.Main? && st.pc.SliceDone? then st.mem else base, start)
  {
    hide Inv;
    if e.Work? {
      WorkKeepsInv(inst, st, e.lane, base, start);
    } else if st.pc.SliceDone? {
      NextSliceKeepsInv(inst, st, base, start);
    } else {
      MainKeepsInv(inst, st, base, start);
    }
  }

  lemma {:induction false} RunKeepsInv(inst: Instance, st: State, events: seq<Event>,
                                       base: seq<Block>, start: seq<Block>)
    returns (base': seq<Block>)
    requires WellFormed(inst, st) && Inv(inst, st, base, start) && IsRun(inst, st, events)
    ensures Inv(inst, After(inst, st, events), base', start)
    decreases |events|
  {
    hide Inv, Apply, Enabled;
    if events == [] {
      base' := base;
    } else {
      KeepsInv(inst, st, events[0], base, start);
      var next := if events[0].Main? && st.pc.SliceDone? then st.mem else base;
      base' := RunKeepsInv(inst, Apply(inst, st, events[0]), events[1..], next, start);
    }
  }

  // ------------------------------------------------------------ whole runs

  /** Threads created and not yet joined among the first `n` lanes. */
  function Unjoined(threads: seq<Thread>, n: nat): nat
    requires n <= |threads|
  {
    if n == 0 then 0
    else Unjoined(threads, n - 1) + if threads[n - 1].created && threads[n - 1].joins == 0 then 1 else 0
  }

  lemma {:induction false} UnjoinedIsCount(threads: seq<Thread>, n: nat)
    requires n <= |threads|
    ensures Unjoined(threads, n) == |set l: nat | l < n && threads[l].created && threads[l].joins == 0|
  {
    var all := set l: nat | l < n && threads[l].created && threads[l].joins == 0;
    if n == 0 {
      assert all == {};
    } else {
      var fewer := set l: nat | l < n - 1 && threads[l].created && threads[l].joins == 0;
      UnjoinedIsCount(threads, n - 1);
      assert all == fewer + if threads[n - 1].created && threads[n - 1].joins == 0 then {n - 1} else {};
    }
  }

  /** Nothing but the joins holds anyone back: a created thread that has blocks
      left may always make its next access, and the main thread may always go on
      unless the thread that it joins has blocks left. */
  lemma OnlyJoinsWait(inst: Instance, st: State)
    requires WellFormed(inst, st) && st.pass < inst.passes
    ensures forall lane :: 0 <= lane < inst.lanes ==>
              (Enabled(inst, st, Work(lane)) <==>
                 st.threads[lane].created && st.threads[lane].index < inst.segmentLength)
    ensures st.pc.Create? || st.pc.SliceDone? ==> Enabled(inst, st, Main)
    ensures st.pc.JoinEarly? || st.pc.JoinLate? ==>
              var t := st.threads[if st.pc.JoinEarly? then st.pc.l - inst.threads else st.pc.l];
              Enabled(inst, st, Main) <==> t.created && t.index == inst.segmentLength
  {
  }

  lemma {:induction false} UnjoinedStretch(inst: Instance, st: State, n: nat)
    requires WellFormed(inst, st) && ThreadsMatch(inst, st) && n <= inst.lanes
    ensures Unjoined(st.threads, n) ==
              (if n < CreatedCount(inst, st.pc) then n else CreatedCount(inst, st.pc))
              - (if n < JoinedCount(inst, st.pc) then n else JoinedCount(inst, st.pc))
  {
    if n > 0 {
      UnjoinedStretch(inst, st, n - 1);
      assert ThreadMatches(inst, st, n - 1, st.threads[n - 1]);
    }
  }

  lemma JoinedOnce(inst: Instance, st: State)
    requires WellFormed(inst, st) && ThreadsMatch(inst, st)
    ensures forall l :: 0 <= l < inst.lanes ==>
              st.threads[l].joins <= 1 && (st.threads[l].joins == 1 ==> Finished(inst, st.threads[l]))
    ensures Unjoined(st.threads, inst.lanes) <= inst.threads
    ensures st.pc.SliceDone? ==>
              (forall l :: 0 <= l < inst.lanes ==> st.threads[l].joins == 1) && Unjoined(st.threads, inst.lanes) == 0
  {
    forall l | 0 <= l < inst.lanes
      ensures st.threads[l].joins <= 1 && (st.threads[l].joins == 1 ==> Finished(inst, st.threads[l]))
      ensures st.pc.SliceDone? ==> st.threads[l].joins == 1
    {
      assert ThreadMatches(inst, st, l, st.threads[l]);
    }
    UnjoinedStretch(inst, st, inst.lanes);
  }

  lemma WhatInvSays(inst: Instance, st: State, base: seq<Block>, start: seq<Block>)
    requires Inv(inst, st, base, start)
    ensures ThreadsMatch(inst, st)
    ensures st.pass == inst.passes ==> st.mem == FillFrom(inst, 0, 0, start)
  {
    hide Merge, FillFrom, ThreadsMatch, StagesMatch;
  }

  /** Every reachable state: no thread is joined twice or before it is done, at
      most `threads` are alive, and at the barrier none is. A complete run,
      however it was scheduled, leaves the memory of the sequential loops. */
  lemma AnySchedule(inst: Instance, mem: seq<Block>, events: seq<Event>)
    requires ValidInstance(inst) && IsMemory(inst, mem) && IsRun(inst, Init(inst, mem), events)
    ensures var st := After(inst, Init(inst, mem), events);
            && (forall l :: 0 <= l < inst.lanes ==>
                  && st.threads[l].joins <= 1
                  && (st.threads[l].joins == 1 ==> Finished(inst, st.threads[l])))
            && Unjoined(st.threads, inst.lanes) <= inst.threads
            && (st.pc.SliceDone? && st.pass < inst.passes ==>
                  && (forall l :: 0 <= l < inst.lanes ==> st.threads[l].joins == 1)
                  && Unjoined(st.threads, inst.lanes) == 0)
            && (st.pass == inst.passes ==> st.mem == FillFrom(inst, 0, 0, mem))
  {
    hide Inv, ThreadsMatch, Finished, Unjoined, FillFrom, IsRun, After;
    var st := After(inst, Init(inst, mem), events);
    InitInv(inst, mem);
    var base := RunKeepsInv(inst, Init(inst, mem), events, mem, mem);
    WhatInvSays(inst, st, base, mem);
    JoinedOnce(inst, st);
  }

  // ------------------------------------------------------------ progress

  /** Accesses the first `n` lanes still have to make in this slice. */
  function WorkLeft(inst: Instance, threads: seq<Thread>, n: nat): int
    requires n <= |threads|
  {
    if n == 0 then 0 else WorkLeft(inst, threads, n - 1) + (3 * inst.segmentLength - StepsDone(threads[n - 1]))
  }

  function SliceCost(inst: Instance): nat {
    2 * inst.lanes + 1 + inst.lanes * (3 * inst.segmentLength)
  }

  function SlicesLeft(inst: Instance, pass: nat, slice: nat): int {
    (inst.passes - pass) * SYNC_POINTS - slice
  }

  /** An upper bound on the steps still to come. */
  function Measure(inst: Instance, st: State): int
    requires WellFormed(inst, st)
  {
    if st.pass == inst.passes then 0
    else (SlicesLeft(inst, st.pass, st.slice) - 1) * SliceCost(inst)
         + (inst.lanes - CreatedCount(inst, st.pc)) + (inst.lanes - JoinedCount(inst, st.pc)) + 1
         + WorkLeft(inst, st.threads, inst.lanes)
  }

  lemma {:induction false} WorkLeftUpdate(inst: Instance, threads: seq<Thread>, threads': seq<Thread>,
                                          lane: nat, n: nat)
    requires n <= |threads| == |threads'| && lane < |threads| && threads' == threads[lane := threads'[lane]]
    ensures WorkLeft(inst, threads', n) == WorkLeft(inst, threads, n)
              - (if lane < n then StepsDone(threads'[lane]) - StepsDone(threads[lane]) else 0)
  {
    if n > 0 {
      WorkLeftUpdate(inst, threads, threads', lane, n - 1);
    }
  }

  lemma {:induction false} WorkLeftBound(inst: Instance, threads: seq<Thread>, n: nat)
    requires n <= |threads| && forall l :: 0 <= l < |threads| ==> StepsDone(threads[l]) <= 3 * inst.segmentLength
    ensures 0 <= WorkLeft(inst, threads, n) <= n * (3 * inst.segmentLength)
  {
    hide StepsDone;
    if n > 0 {
      WorkLeftBound(inst, threads, n - 1);
      assert n * (3 * inst.segmentLength) == (n - 1) * (3 * inst.segmentLength) + 3 * inst.segmentLength;
    }
  }

  lemma MeasureNonNegative(inst: Instance, st: State)
    requires WellFormed(inst, st)
    ensures Measure(inst, st) >= 0
  {
    if st.pass < inst.passes {
      WorkLeftBound(inst, st.threads, inst.lanes);
      MulMono(1, inst.passes - st.pass, SYNC_POINTS);
      MulMono(0, SlicesLeft(inst, st.pass, st.slice) - 1, SliceCost(inst));
    }
  }

  lemma NextSliceMeasure(inst: Instance, st: State)
    requires WellFormed(inst, st) && Enabled(inst, st, Main) && st.pc.SliceDone?
    ensures Measure(inst, Apply(inst, st, Main)) < Measure(inst, st)
  {
    var st' := Apply(inst, st, Main);
    WorkLeftBound(inst, st.threads, inst.lanes);
    WorkLeftBound(inst, st'.threads, inst.lanes);
    assert SlicesLeft(inst, st'.pass, st'.slice) == SlicesLeft(inst, st.pass, st.slice) - 1;
    OneSliceLess(SlicesLeft(inst, st.pass, st.slice), SliceCost(inst));
    hide SlicesLeft, StepsDone, WorkLeft;
    if st'.pass < inst.passes {
      NewSliceCost(inst, st');
    }
  }

  lemma OneSliceLess(left: int, cost: nat)
    ensures (left - 1) * cost == (left - 2) * cost + cost
    ensures left >= 1 ==> (left - 1) * cost >= 0
  {
    if left >= 1 { MulMono(0, left - 1, cost); }
  }

  lemma NewSliceCost(inst: Instance, st: State)
    requires WellFormed(inst, st) && st.pc == LoopHead(inst, 0)
    requires WorkLeft(inst, st.threads, inst.lanes) <= inst.lanes * (3 * inst.segmentLength)
    ensures (inst.lanes - CreatedCount(inst, st.pc)) + (inst.lanes - JoinedCount(inst, st.pc)) + 1
            + WorkLeft(inst, st.threads, inst.lanes) <= SliceCost(inst)
  {
    hide WorkLeft;
  }

  /** Every step uses up some of the bound. */
  lemma StepMeasure(inst: Instance, st: State, e: Event)
    requires WellFormed(inst, st) && Enabled(inst, st, e)
    ensures Measure(inst, Apply(inst, st, e)) < Measure(inst, st)
  {
    if e.Work? {
      WorkMeasure(inst, st, e.lane);
    } else if st.pc.SliceDone? {
      NextSliceMeasure(inst, st);
    } else {
      MainMeasure(inst, st);
    }
  }

  lemma WorkMeasure(inst: Instance, st: State, lane: nat)
    requires WellFormed(inst, st) && Enabled(inst, st, Work(lane))
    ensures Measure(inst, Apply(inst, st, Work(lane))) == Measure(inst, st) - 1
  {
    hide Worked, SlicesLeft, SliceCost;
    WorkedThread(inst, At(st.pass, lane, st.slice, st.threads[lane].index), st.threads[lane], st.mem);
    WorkLeftUpdate(inst, st.threads, Apply(inst, st, Work(lane)).threads, lane, inst.lanes);
  }

  lemma MainMeasure(inst: Instance, st: State)
    requires WellFormed(inst, st) && Enabled(inst, st, Main) && !st.pc.SliceDone?
    ensures Measure(inst, Apply(inst, st, Main)) < Measure(inst, st)
  {
    var lane := if st.pc.JoinEarly? then st.pc.l - inst.threads else st.pc.l;
    WorkLeftUpdate(inst, st.threads, Apply(inst, st, Main).threads, lane, inst.lanes);
    hide SlicesLeft, SliceCost, WorkLeft;
    if st.pc.Create? && st.pc.l + 1 == inst.lanes {
      assert Apply(inst, st, Main).pc == JoinLate(inst.lanes - inst.threads);
    }
  }

  /** No run is longer than the bound at its start. */
  lemma {:induction false} RunsAreBounded(inst: Instance, st: State, events: seq<Event>)
    requires WellFormed(inst, st) && IsRun(inst, st, events)
    ensures |events| + Measure(inst, After(inst, st, events)) <= Measure(inst, st)
    ensures |events| <= Measure(inst, st)
    decreases |events|
  {
    hide Apply, Enabled, Measure;
    MeasureNonNegative(inst, st);
    if events != [] {
      StepMeasure(inst, st, events[0]);
      RunsAreBounded(inst, Apply(inst, st, events[0]), events[1..]);
    }
  }

  /** The main thread never waits for a thread that cannot move: until the last
      pass is over, some step is possible after any run. */
  lemma NeverStuck(inst: Instance, mem: seq<Block>, events: seq<Event>)
    requires ValidInstance(inst) && IsMemory(inst, mem) && IsRun(inst, Init(inst, mem), events)
    requires After(inst, Init(inst, mem), events).pass < inst.passes
    ensures exists e :: Enabled(inst, After(inst, Init(inst, mem), events), e)
  {
    var st := After(inst, Init(inst, mem), events);
    InitInv(inst, mem);
    var base := RunKeepsInv(inst, Init(inst, mem), events, mem, mem);
    CanMove(inst, st, base, mem);
  }

  lemma {:induction false} RunExtends(inst: Instance, st: State, events: seq<Event>, e: Event)
    requires WellFormed(inst, st) && IsRun(inst, st, events) && Enabled(inst, After(inst, st, events), e)
    ensures IsRun(inst, st, events + [e])
    ensures After(inst, st, events + [e]) == Apply(inst, After(inst, st, events), e)
    decreases |events|
  {
    hide Apply, Enabled;
    if events != [] {
      RunExtends(inst, Apply(inst, st, events[0]), events[1..], e);
      assert (events + [e])[1..] == events[1..] + [e];
    } else {
      assert [e][1..] == [];
    }
  }

  /** Every run, however far it has come, can be completed, so that runs that end
      after the last pass exist. */
  lemma {:induction false} EveryRunCompletes(inst: Instance, mem: seq<Block>, events: seq<Event>)
    returns (complete: seq<Event>)
    requires ValidInstance(inst) && IsMemory(inst, mem) && IsRun(inst, Init(inst, mem), events)
    ensures events <= complete && IsRun(inst, Init(inst, mem), complete)
    ensures After(inst, Init(inst, mem), complete).pass == inst.passes
    decreases Measure(inst, After(inst, Init(inst, mem), events))
  {
    hide Apply, Enabled, Measure, IsRun, After;
    var st := After(inst, Init(inst, mem), events);
    if st.pass == inst.passes {
      complete := events;
    } else {
      NeverStuck(inst, mem, events);
      var e :| Enabled(inst, st, e);
      RunExtends(inst, Init(inst, mem), events, e);
      StepMeasure(inst, st, e);
      MeasureNonNegative(inst, Apply(inst, st, e));
      complete := EveryRunCompletes(inst, mem, events + [e]);
    }
  }

  lemma CanMove(inst: Instance, st: State, base: seq<Block>, start: seq<Block>)
    requires Inv(inst, st, base, start) && st.pass < inst.passes
    ensures exists e :: Enabled(inst, st, e)
  {
    hide Merge, FillFrom;
    var awaited := if st.pc.JoinEarly? then st.pc.l - inst.threads else if st.pc.JoinLate? then st.pc.l else 0;
    assert ThreadMatches(inst, st, awaited, st.threads[awaited]);
    if (st.pc.JoinEarly? || st.pc.JoinLate?) && st.threads[awaited].index < inst.segmentLength {
      assert Enabled(inst, st, Work(awaited));
    } else {
      assert Enabled(inst, st, Main);
    }
  }
}
