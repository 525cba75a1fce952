/** Filling the whole memory: core.c `fill_memory_blocks_st` as nested loops, and
    why the lanes of one slice do not disturb each other: whatever each has done
    so far, the memory is the merge of the lanes' separate runs. */
module ParallelFill {
  import opened Argon2Params
  import opened Arith
  import opened ReferenceIndex
  import opened FillBlock
  import opened FillSegment

  // ------------------------------------------------------------ sequential form

  function LanesFrom(inst: Instance, pass: nat, slice: nat, lane: nat, mem: seq<Block>): (mem': seq<Block>)
    requires ValidInstance(inst) && pass < inst.passes && slice < SYNC_POINTS && lane <= inst.lanes
    requires IsMemory(inst, mem)
    ensures IsMemory(inst, mem')
    decreases inst.lanes - lane
  {
    if lane == inst.lanes then mem
    else LanesFrom(inst, pass, slice, lane + 1, Segment(inst, pass, lane, slice, mem))
  }

  /** The filling that remains when `slice` of `pass` is about to start. */
  function FillFrom(inst: Instance, pass: nat, slice: nat, mem: seq<Block>): (mem': seq<Block>)
    requires ValidInstance(inst) && pass <= inst.passes && slice <= SYNC_POINTS
    requires IsMemory(inst, mem)
    ensures IsMemory(inst, mem')
    decreases inst.passes - pass, SYNC_POINTS - slice
  {
    if pass == inst.passes then mem
    else if slice == SYNC_POINTS then FillFrom(inst, pass + 1, 0, mem)
    else FillFrom(inst, pass, slice + 1, LanesFrom(inst, pass, slice, 0, mem))
  }

  /** `fill_memory_blocks_st`. */
  method FillMemoryBlocksSt(inst: Instance, memory: array<Block>)
    requires ValidInstance(inst) && inst.compress == Compress && memory.Length == inst.memoryBlocks
    modifies memory
    ensures memory[..] == FillFrom(inst, 0, 0, old(memory[..]))
  {
    hide Segment;
    for r := 0 to inst.passes
      invariant FillFrom(inst, r, 0, memory[..]) == FillFrom(inst, 0, 0, old(memory[..]))
    {
      for s := 0 to SYNC_POINTS
        invariant FillFrom(inst, r, s, memory[..]) == FillFrom(inst, 0, 0, old(memory[..]))
      {
        ghost var start := memory[..];
        for l := 0 to inst.lanes
          invariant LanesFrom(inst, r, s, l, memory[..]) == LanesFrom(inst, r, s, 0, start)
        {
          FillSegmentRef(inst, memory, r, l, s);
        }
      }
    }
  }

  // ------------------------------------------------------------ one lane on its own

  function At(pass: nat, lane: nat, slice: nat, index: nat): Position {
    Position(pass, lane, slice, index)
  }

  function StartIndex(pass: nat, slice: nat): nat {
    if pass == 0 && slice == 0 then 2 else 0
  }

  /** The memory when one lane alone has reached `index`, from `base`. */
  function LaneRun(inst: Instance, pass: nat, slice: nat, lane: nat, base: seq<Block>, index: nat): (mem: seq<Block>)
    requires ValidInstance(inst) && ValidSegment(inst, pass, lane, slice) && IsMemory(inst, base)
    requires StartIndex(pass, slice) <= index <= inst.segmentLength
    ensures IsMemory(inst, mem)
  {
    if index == StartIndex(pass, slice) then base
    else Step(inst, At(pass, lane, slice, index - 1), LaneRun(inst, pass, slice, lane, base, index - 1))
  }

  /** A lane writes only its own segment. */
  lemma {:induction false} LaneFrame(inst: Instance, pass: nat, slice: nat, lane: nat, base: seq<Block>, index: nat,
                                     other: nat, column: nat)
    requires ValidInstance(inst) && ValidSegment(inst, pass, lane, slice) && IsMemory(inst, base)
    requires StartIndex(pass, slice) <= index <= inst.segmentLength
    requires other < inst.lanes && column < inst.laneLength
    requires other == lane ==> column < slice * inst.segmentLength || (slice + 1) * inst.segmentLength <= column
    ensures Offset(inst, other, column) < inst.memoryBlocks
    ensures LaneRun(inst, pass, slice, lane, base, index)[Offset(inst, other, column)]
            == base[Offset(inst, other, column)]
  {
    hide NewBlock;
    OffsetBounds(inst, other, column);
    if index > StartIndex(pass, slice) {
      LaneFrame(inst, pass, slice, lane, base, index - 1, other, column);
      var pos := At(pass, lane, slice, index - 1);
      PositionOffsets(inst, pos);
      Layout(inst, pos);
      if CurrentOffset(inst, pos) == Offset(inst, other, column) {
        OffsetInjective(inst, lane, CurrentColumn(inst, pos), other, column);
      }
    }
  }

  // ------------------------------------------------------------ all lanes at once

  predicate ValidProgress(inst: Instance, pass: nat, slice: nat, progress: seq<nat>) {
    && |progress| == inst.lanes
    && forall l :: 0 <= l < |progress| ==> StartIndex(pass, slice) <= progress[l] <= inst.segmentLength
  }

  /** The lane that owns an offset. */
  function LaneAt(inst: Instance, offset: nat): (lane: nat)
    requires ValidInstance(inst) && offset < inst.memoryBlocks
    ensures lane < inst.lanes
  {
    LaneOf(inst, offset);
    offset / inst.laneLength
  }

  lemma LaneOf(inst: Instance, offset: nat)
    requires ValidInstance(inst) && offset < inst.memoryBlocks
    ensures 0 <= offset / inst.laneLength < inst.lanes
  {
    var lane := offset / inst.laneLength;
    assert offset == inst.laneLength * lane + offset % inst.laneLength;
    if lane >= inst.lanes {
      MulMono(inst.lanes, lane, inst.laneLength);
    }
  }

  /** The memory is a function of how far each lane has come: every offset
      shows what the lane owning it would have written alone. */
  function Merge(inst: Instance, pass: nat, slice: nat, base: seq<Block>, progress: seq<nat>): (mem: seq<Block>)
    requires ValidInstance(inst) && pass < inst.passes && slice < SYNC_POINTS && IsMemory(inst, base)
    requires ValidProgress(inst, pass, slice, progress)
    ensures IsMemory(inst, mem)
  {
    seq(|base|, o requires 0 <= o < |base| =>
      LaneRun(inst, pass, slice, LaneAt(inst, o), base, progress[LaneAt(inst, o)])[o])
  }

  lemma MergedAt(inst: Instance, pass: nat, slice: nat, base: seq<Block>, progress: seq<nat>, lane: nat, column: nat)
    requires ValidInstance(inst) && ValidSegment(inst, pass, lane, slice) && IsMemory(inst, base)
    requires ValidProgress(inst, pass, slice, progress) && column < inst.laneLength
    ensures Offset(inst, lane, column) < inst.memoryBlocks
    ensures Merge(inst, pass, slice, base, progress)[Offset(inst, lane, column)]
            == LaneRun(inst, pass, slice, lane, base, progress[lane])[Offset(inst, lane, column)]
  {
    OffsetBounds(inst, lane, column);
  }

  /** In its own lane a thread finds the previous and the current block, and with
      them the random word, as if it ran alone. */
  lemma OwnReadsAgree(inst: Instance, pass: nat, slice: nat, base: seq<Block>, progress: seq<nat>, lane: nat)
    requires ValidInstance(inst) && ValidSegment(inst, pass, lane, slice) && IsMemory(inst, base)
    requires ValidProgress(inst, pass, slice, progress) && progress[lane] < inst.segmentLength
    ensures ValidPosition(inst, At(pass, lane, slice, progress[lane]))
    ensures var pos, merged := At(pass, lane, slice, progress[lane]), Merge(inst, pass, slice, base, progress);
            var alone := LaneRun(inst, pass, slice, lane, base, progress[lane]);
            && PseudoRand(inst, pos, merged) == PseudoRand(inst, pos, alone)
            && 0 <= PreviousOffset(inst, pos) < inst.memoryBlocks && CurrentOffset(inst, pos) < inst.memoryBlocks
            && merged[PreviousOffset(inst, pos)] == alone[PreviousOffset(inst, pos)]
            && merged[CurrentOffset(inst, pos)] == alone[CurrentOffset(inst, pos)]
  {
    hide LaneRun, Merge;
    var pos := At(pass, lane, slice, progress[lane]);
    PositionOffsets(inst, pos);
    MergedAt(inst, pass, slice, base, progress, lane, CurrentColumn(inst, pos));
    MergedAt(inst, pass, slice, base, progress, lane, PreviousColumn(inst, CurrentColumn(inst, pos)));
  }

  /** What a lane reads is what it would read if it ran alone: its own blocks,
      and blocks of other lanes outside the segment being filled. */
  lemma ReadsAgree(inst: Instance, pass: nat, slice: nat, base: seq<Block>, progress: seq<nat>, lane: nat)
    requires ValidInstance(inst) && ValidSegment(inst, pass, lane, slice) && IsMemory(inst, base)
    requires ValidProgress(inst, pass, slice, progress) && progress[lane] < inst.segmentLength
    ensures ValidPosition(inst, At(pass, lane, slice, progress[lane]))
    ensures NewBlock(inst, At(pass, lane, slice, progress[lane]), Merge(inst, pass, slice, base, progress))
            == NewBlock(inst, At(pass, lane, slice, progress[lane]),
                        LaneRun(inst, pass, slice, lane, base, progress[lane]))
  {
    hide LaneRun, Merge, PseudoRand;
    var pos := At(pass, lane, slice, progress[lane]);
    OwnReadsAgree(inst, pass, slice, base, progress, lane);
    var alone := LaneRun(inst, pass, slice, lane, base, progress[lane]);
    ReferenceAgrees(inst, pass, slice, base, progress, lane, PseudoRand(inst, pos, alone));
  }

  lemma ReferenceAgrees(inst: Instance, pass: nat, slice: nat, base: seq<Block>, progress: seq<nat>, lane: nat,
                        rand: bv64)
    requires ValidInstance(inst) && ValidSegment(inst, pass, lane, slice) && IsMemory(inst, base)
    requires ValidProgress(inst, pass, slice, progress) && progress[lane] < inst.segmentLength
    requires ValidPosition(inst, At(pass, lane, slice, progress[lane]))
    ensures var offset := ReferenceOffset(inst, At(pass, lane, slice, progress[lane]), rand);
            Merge(inst, pass, slice, base, progress)[offset]
            == LaneRun(inst, pass, slice, lane, base, progress[lane])[offset]
  {
    hide LaneRun, Merge, ReferenceColumn;
    var pos := At(pass, lane, slice, progress[lane]);
    var other := ReferenceLane(inst, pos, rand);
    var column := ReferenceColumn(inst, pos, other == lane, LowHalf(rand));
    ReferenceIsSafe(inst, pos, other == lane, LowHalf(rand));
    MergedAt(inst, pass, slice, base, progress, other, column);
    if other != lane {
      Layout(inst, pos);
      LaneFrame(inst, pass, slice, other, base, progress[other], other, column);
      LaneFrame(inst, pass, slice, lane, base, progress[lane], other, column);
    }
  }

  /** One block built by one lane advances that lane's progress and nothing
      else, whatever the others have done. */
  lemma StepAdvances(inst: Instance, pass: nat, slice: nat, base: seq<Block>, progress: seq<nat>, lane: nat)
    requires ValidInstance(inst) && ValidSegment(inst, pass, lane, slice) && IsMemory(inst, base)
    requires ValidProgress(inst, pass, slice, progress) && progress[lane] < inst.segmentLength
    ensures ValidPosition(inst, At(pass, lane, slice, progress[lane]))
    ensures ValidProgress(inst, pass, slice, progress[lane := progress[lane] + 1])
    ensures Step(inst, At(pass, lane, slice, progress[lane]), Merge(inst, pass, slice, base, progress))
            == Merge(inst, pass, slice, base, progress[lane := progress[lane] + 1])
  {
    hide LaneRun, Merge, NewBlock;
    var pos := At(pass, lane, slice, progress[lane]);
    var next := progress[lane := progress[lane] + 1];
    ReadsAgree(inst, pass, slice, base, progress, lane);
    var merged := Merge(inst, pass, slice, base, progress);
    var alone := LaneRun(inst, pass, slice, lane, base, progress[lane]);
    LaneStep(inst, pass, slice, lane, base, progress[lane]);
    PositionOffsets(inst, pos);
    OffsetBounds(inst, lane, CurrentColumn(inst, pos));
    var cur, block := CurrentOffset(inst, pos), NewBlock(inst, pos, alone);
    assert Step(inst, pos, merged) == merged[cur := block];
    assert LaneRun(inst, pass, slice, lane, base, next[lane]) == alone[cur := block];
    MergeUpdate(inst, pass, slice, base, progress, next, lane, cur, block);
  }

  lemma LaneStep(inst: Instance, pass: nat, slice: nat, lane: nat, base: seq<Block>, index: nat)
    requires ValidInstance(inst) && ValidSegment(inst, pass, lane, slice) && IsMemory(inst, base)
    requires StartIndex(pass, slice) <= index < inst.segmentLength
    ensures ValidPosition(inst, At(pass, lane, slice, index))
    ensures LaneRun(inst, pass, slice, lane, base, index + 1)
            == Step(inst, At(pass, lane, slice, index), LaneRun(inst, pass, slice, lane, base, index))
  {
    hide Step;
  }

  lemma MergeUpdate(inst: Instance, pass: nat, slice: nat, base: seq<Block>, progress: seq<nat>, next: seq<nat>,
                    lane: nat, cur: nat, block: Block)
    requires ValidInstance(inst) && ValidSegment(inst, pass, lane, slice) && IsMemory(inst, base)
    requires ValidProgress(inst, pass, slice, progress) && ValidProgress(inst, pass, slice, next)
    requires next == progress[lane := next[lane]]
    requires cur < inst.memoryBlocks && LaneAt(inst, cur) == lane
    requires LaneRun(inst, pass, slice, lane, base, next[lane])
             == LaneRun(inst, pass, slice, lane, base, progress[lane])[cur := block]
    ensures Merge(inst, pass, slice, base, progress)[cur := block] == Merge(inst, pass, slice, base, next)
  {
    hide LaneRun, LaneAt;
  }

  function UpTo(n: nat, start: nat, done: nat, lanes: nat): (progress: seq<nat>)
    ensures |progress| == lanes
  {
    seq(lanes, l => if l < n then done else start)
  }

  lemma {:induction false} RestOfSegment(inst: Instance, pass: nat, slice: nat, base: seq<Block>,
                                         progress: seq<nat>, lane: nat)
    requires ValidInstance(inst) && ValidSegment(inst, pass, lane, slice) && IsMemory(inst, base)
    requires ValidProgress(inst, pass, slice, progress)
    ensures ValidSegmentPosition(inst, At(pass, lane, slice, progress[lane]))
    ensures ValidProgress(inst, pass, slice, progress[lane := inst.segmentLength])
    ensures SegmentFrom(inst, At(pass, lane, slice, progress[lane]), Merge(inst, pass, slice, base, progress))
            == Merge(inst, pass, slice, base, progress[lane := inst.segmentLength])
    decreases inst.segmentLength - progress[lane]
  {
    hide Step, Merge;
    if progress[lane] == inst.segmentLength {
      assert progress[lane := inst.segmentLength] == progress;
    } else {
      var next := progress[lane := progress[lane] + 1];
      StepAdvances(inst, pass, slice, base, progress, lane);
      RestOfSegment(inst, pass, slice, base, next, lane);
      assert next[lane := inst.segmentLength] == progress[lane := inst.segmentLength];
    }
  }

  lemma {:induction false} RestOfSlice(inst: Instance, pass: nat, slice: nat, base: seq<Block>, lane: nat)
    requires ValidInstance(inst) && pass < inst.passes && slice < SYNC_POINTS && lane <= inst.lanes
    requires IsMemory(inst, base)
    ensures var progress := UpTo(lane, StartIndex(pass, slice), inst.segmentLength, inst.lanes);
            && ValidProgress(inst, pass, slice, progress)
            && LanesFrom(inst, pass, slice, lane, Merge(inst, pass, slice, base, progress))
               == Merge(inst, pass, slice, base, UpTo(inst.lanes, 0, inst.segmentLength, inst.lanes))
    decreases inst.lanes - lane
  {
    hide Merge, SegmentFrom;
    var start := StartIndex(pass, slice);
    var progress := UpTo(lane, start, inst.segmentLength, inst.lanes);
    if lane == inst.lanes {
      assert progress == UpTo(inst.lanes, 0, inst.segmentLength, inst.lanes);
    } else {
      RestOfSegment(inst, pass, slice, base, progress, lane);
      assert progress[lane := inst.segmentLength] == UpTo(lane + 1, start, inst.segmentLength, inst.lanes);
      RestOfSlice(inst, pass, slice, base, lane + 1);
    }
  }

  lemma NothingMerged(inst: Instance, pass: nat, slice: nat, base: seq<Block>)
    requires ValidInstance(inst) && pass < inst.passes && slice < SYNC_POINTS && IsMemory(inst, base)
    ensures var progress := UpTo(0, StartIndex(pass, slice), inst.segmentLength, inst.lanes);
            && ValidProgress(inst, pass, slice, progress)
            && Merge(inst, pass, slice, base, progress) == base
  {
    hide LaneAt;
  }

  /** Once every lane has finished, however the steps interleaved, the memory
      is the one the sequential loop over the lanes leaves. */
  lemma FinishedSlice(inst: Instance, pass: nat, slice: nat, base: seq<Block>, progress: seq<nat>)
    requires ValidInstance(inst) && pass < inst.passes && slice < SYNC_POINTS && IsMemory(inst, base)
    requires |progress| == inst.lanes && forall l :: 0 <= l < inst.lanes ==> progress[l] == inst.segmentLength
    ensures ValidProgress(inst, pass, slice, progress)
    ensures Merge(inst, pass, slice, base, progress) == LanesFrom(inst, pass, slice, 0, base)
  {
    hide Merge, LanesFrom;
    NothingMerged(inst, pass, slice, base);
    RestOfSlice(inst, pass, slice, base, 0);
    assert progress == UpTo(inst.lanes, 0, inst.segmentLength, inst.lanes);
  }

  // ------------------------------------------------------------ what a filled segment holds

  lemma {:induction false} SegmentIsLaneRun(inst: Instance, pass: nat, lane: nat, slice: nat, mem: seq<Block>,
                                            index: nat)
    requires ValidInstance(inst) && ValidSegment(inst, pass, lane, slice) && IsMemory(inst, mem)
    requires StartIndex(pass, slice) <= index <= inst.segmentLength
    ensures ValidSegmentPosition(inst, At(pass, lane, slice, index))
    ensures SegmentFrom(inst, At(pass, lane, slice, index), LaneRun(inst, pass, slice, lane, mem, index))
            == LaneRun(inst, pass, slice, lane, mem, inst.segmentLength)
    decreases inst.segmentLength - index
  {
    hide Step, LaneRun;
    if index < inst.segmentLength {
      LaneStep(inst, pass, slice, lane, mem, index);
      SegmentIsLaneRun(inst, pass, lane, slice, mem, index + 1);
    }
  }

  lemma {:induction false} LaterStepsKeep(inst: Instance, pass: nat, lane: nat, slice: nat, mem: seq<Block>,
                                          index: nat, early: nat, now: nat)
    requires ValidInstance(inst) && ValidSegment(inst, pass, lane, slice) && IsMemory(inst, mem)
    requires index < early <= now <= inst.segmentLength && StartIndex(pass, slice) <= early
    ensures var offset := Offset(inst, lane, slice * inst.segmentLength + index);
            && offset < inst.memoryBlocks
            && LaneRun(inst, pass, slice, lane, mem, now)[offset]
               == LaneRun(inst, pass, slice, lane, mem, early)[offset]
    decreases now
  {
    var pos := At(pass, lane, slice, index);
    SlotBounds(inst, pass, lane, slice, index);
    if early < now {
      LaterStepsKeep(inst, pass, lane, slice, mem, index, early, now - 1);
      hide LaneRun;
      LaneStep(inst, pass, slice, lane, mem, now - 1);
      PositionOffsets(inst, At(pass, lane, slice, now - 1));
      hide NewBlock;
    }
  }

  lemma SlotBounds(inst: Instance, pass: nat, lane: nat, slice: nat, index: nat)
    requires ValidInstance(inst) && ValidSegment(inst, pass, lane, slice) && index < inst.segmentLength
    ensures Offset(inst, lane, slice * inst.segmentLength + index) < inst.memoryBlocks
  {
    MulMono(slice + 1, SYNC_POINTS, inst.segmentLength);
    OffsetBounds(inst, lane, slice * inst.segmentLength + index);
  }

  /** Every block of the segment is built once, in order, from the memory with
      all earlier ones built; only the first two of a lane are given. */
  lemma SegmentContents(inst: Instance, pass: nat, lane: nat, slice: nat, mem: seq<Block>, index: nat)
    requires ValidInstance(inst) && ValidSegment(inst, pass, lane, slice) && IsMemory(inst, mem)
    requires index < inst.segmentLength
    ensures var offset := lane * inst.laneLength + slice * inst.segmentLength + index;
            var given := (pass == 0 && slice == 0 && index < 2);
            && offset < inst.memoryBlocks
            && (given ==> Segment(inst, pass, lane, slice, mem)[offset] == mem[offset])
            && (!given ==>
                  && ValidPosition(inst, At(pass, lane, slice, index))
                  && Segment(inst, pass, lane, slice, mem)[offset] ==
                     NewBlock(inst, At(pass, lane, slice, index), LaneRun(inst, pass, slice, lane, mem, index)))
  {
    hide NewBlock;
    var start := StartIndex(pass, slice);
    SlotBounds(inst, pass, lane, slice, index);
    SegmentIsLaneRun(inst, pass, lane, slice, mem, start);
    assert LaneRun(inst, pass, slice, lane, mem, start) == mem;
    if index < start {
      LaterStepsKeep(inst, pass, lane, slice, mem, index, start, inst.segmentLength);
    } else {
      LaterStepsKeep(inst, pass, lane, slice, mem, index, index + 1, inst.segmentLength);
      hide LaneRun;
      LaneStep(inst, pass, slice, lane, mem, index);
    }
  }
}
