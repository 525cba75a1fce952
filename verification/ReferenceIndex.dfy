/** The choice of reference blocks (core.c, `index_alpha`), against the
    reference sets of RFC 9106 section 3.4.2 stated by construction time. */
module ReferenceIndex {
  import opened Argon2Params
  import opened Arith

  /** Where the block under construction lies; the source's `argon2_position_t`. */
  datatype Position = Position(pass: nat, lane: nat, slice: nat, index: nat)

  predicate ValidPosition(inst: Instance, pos: Position) {
    && pos.pass < inst.passes && pos.lane < inst.lanes
    && pos.slice < SYNC_POINTS && pos.index < inst.segmentLength
    && (pos.pass == 0 && pos.slice == 0 ==> 2 <= pos.index)
  }

  // ------------------------------------------------------ construction time

  /** Steps a lane has made before the current pass. */
  function Lap(inst: Instance, pos: Position): nat {
    pos.pass * inst.laneLength
  }

  /** Column at which the current segment opens. */
  function FirstColumn(inst: Instance, pos: Position): nat {
    pos.slice * inst.segmentLength
  }

  function CurrentColumn(inst: Instance, pos: Position): nat {
    FirstColumn(inst, pos) + pos.index
  }

  /** The step at which a lane last built a column, seen from the current
      position by a lane in lock step; negative when it never has. */
  function BuiltAt(inst: Instance, pos: Position, column: nat): int {
    if column < CurrentColumn(inst, pos) then Lap(inst, pos) + column
    else Lap(inst, pos) - inst.laneLength + column
  }

  /** Oldest and latest step of the reference set: the last three finished
      segments, and in the current lane also the current segment up to the
      block before the previous one; another lane loses its most recent block
      when the current block opens a segment. */
  function OldestStep(inst: Instance, pos: Position): nat {
    var window := Lap(inst, pos) + FirstColumn(inst, pos) - (SYNC_POINTS - 1) * inst.segmentLength;
    if window < 0 then 0 else window
  }

  function LatestStep(inst: Instance, pos: Position, sameLane: bool): int {
    if sameLane then Lap(inst, pos) + CurrentColumn(inst, pos) - 2
    else Lap(inst, pos) + FirstColumn(inst, pos) - 1 - (if pos.index == 0 then 1 else 0)
  }

  function AreaSize(inst: Instance, pos: Position, sameLane: bool): nat {
    var size := LatestStep(inst, pos, sameLane) - OldestStep(inst, pos) + 1;
    if size < 0 then 0 else size
  }

  /** The skewed mapping: count back from the latest step of the set. */
  function StepsBack(size: nat, pseudoRand: nat): nat {
    (size * ((pseudoRand * pseudoRand) / TWO32)) / TWO32
  }

  function ReferenceColumn(inst: Instance, pos: Position, sameLane: bool, pseudoRand: nat): nat
    requires ValidInstance(inst)
  {
    (LatestStep(inst, pos, sameLane) - StepsBack(AreaSize(inst, pos, sameLane), pseudoRand)) % inst.laneLength
  }

  // ------------------------------------------------------ arithmetic

  lemma SquareFits(x: nat)
    requires x < TWO32
    ensures 0 <= x * x < TWO64
  {
    MulMono(x, TWO32 - 1, x);
    MulMono(x, TWO32 - 1, TWO32 - 1);
  }

  lemma StepsBackBound(size: nat, pseudoRand: nat)
    requires 0 < size < TWO32 && pseudoRand < TWO32
    ensures StepsBack(size, pseudoRand) < size
    ensures size * ((pseudoRand * pseudoRand) / TWO32) < TWO64
  {
    SquareFits(pseudoRand);
    var y := (pseudoRand * pseudoRand) / TWO32;
    assert y <= TWO32 - 1;
    MulMono(y, TWO32 - 1, size);
    assert y * size == size * y;
  }

  /** All the products a position gives rise to, as linear facts. */
  lemma Layout(inst: Instance, pos: Position)
    requires ValidInstance(inst) && ValidPosition(inst, pos)
    ensures inst.laneLength < TWO32
    ensures FirstColumn(inst, pos) ==
              if pos.slice == 0 then 0 else if pos.slice == 1 then inst.segmentLength
              else if pos.slice == 2 then 2 * inst.segmentLength else 3 * inst.segmentLength
    ensures (pos.slice + 1) * inst.segmentLength == FirstColumn(inst, pos) + inst.segmentLength
    ensures if pos.pass == 0 then Lap(inst, pos) == 0 else Lap(inst, pos) >= inst.laneLength
    ensures (pos.pass - 1) * inst.laneLength == Lap(inst, pos) - inst.laneLength
  {
    MulMono(1, inst.lanes, inst.laneLength);
    if pos.pass > 0 {
      MulMono(1, pos.pass, inst.laneLength);
    }
  }

  lemma AreaFacts(inst: Instance, pos: Position, sameLane: bool)
    requires ValidInstance(inst) && ValidPosition(inst, pos)
    requires pos.pass == 0 && pos.slice == 0 ==> sameLane
    ensures 1 <= AreaSize(inst, pos, sameLane) < inst.laneLength < TWO32
    ensures AreaSize(inst, pos, sameLane) == LatestStep(inst, pos, sameLane) - OldestStep(inst, pos) + 1
    ensures var opening := if sameLane then pos.index - 1 else if pos.index == 0 then -1 else 0;
            AreaSize(inst, pos, sameLane) ==
              (if pos.pass == 0 then FirstColumn(inst, pos) else inst.laneLength - inst.segmentLength) + opening
  {
    Layout(inst, pos);
    hide Lap, FirstColumn;
  }

  function StartColumn(inst: Instance, pos: Position): nat {
    if pos.pass == 0 || pos.slice == SYNC_POINTS - 1 then 0 else (pos.slice + 1) * inst.segmentLength
  }

  lemma OldestIsStart(inst: Instance, pos: Position) returns (laps: int)
    requires ValidInstance(inst) && ValidPosition(inst, pos)
    ensures OldestStep(inst, pos) == StartColumn(inst, pos) + laps * inst.laneLength
    ensures StartColumn(inst, pos) < inst.laneLength
  {
    Layout(inst, pos);
    laps := if pos.pass == 0 then 0 else if pos.slice == SYNC_POINTS - 1 then pos.pass else pos.pass - 1;
    assert pos.pass * inst.laneLength == Lap(inst, pos);
    hide FirstColumn, Lap;
  }

  /** The window starts at the oldest step, folded into the lane. */
  lemma StartFacts(inst: Instance, pos: Position, k: int)
    requires ValidInstance(inst) && ValidPosition(inst, pos)
    ensures (StartColumn(inst, pos) + k) % inst.laneLength == (OldestStep(inst, pos) + k) % inst.laneLength
    ensures StartColumn(inst, pos) < inst.laneLength
  {
    var laps := OldestIsStart(inst, pos);
    hide OldestStep, StartColumn;
    var start := StartColumn(inst, pos);
    ModShift(start + k, laps, inst.laneLength);
    assert OldestStep(inst, pos) + k == (start + k) + laps * inst.laneLength;
  }

  // ------------------------------------------------------ the source's arithmetic

  /** `index_alpha` in its own 32- and 64-bit arithmetic. No reduction below
      ever changes a value: the result is the one the exact integers give. */
  method IndexAlpha(inst: Instance, pos: Position, pseudoRand: nat, sameLane: bool) returns (absolute: nat)
    requires ValidInstance(inst) && ValidPosition(inst, pos) && pseudoRand < TWO32
    requires pos.pass == 0 && pos.slice == 0 ==> sameLane
    ensures absolute == ReferenceColumn(inst, pos, sameLane, pseudoRand)
  {
    hide OldestStep, LatestStep, AreaSize, Lap, FirstColumn, StepsBack, StartColumn;
    var area := ReferenceAreaSize(inst, pos, sameLane);
    AreaFacts(inst, pos, sameLane);
    StepsBackBound(area, pseudoRand);
    var relative := SkewedPosition(pseudoRand, area);
    StartFacts(inst, pos, relative);
    var start := StartPosition(inst, pos);
    FoldSum(inst.laneLength, start + relative);
    absolute := ((start + relative) % TWO64) % inst.laneLength;
    assert OldestStep(inst, pos) + relative == LatestStep(inst, pos, sameLane) - StepsBack(area, pseudoRand);
  }

  lemma FoldSum(lane: nat, sum: nat)
    requires 0 < lane && sum < 2 * TWO32
    ensures (sum % TWO64) % lane == sum % lane
  {
    ModSmall(sum, TWO64);
  }

  /** Step 1.2.5 of `index_alpha`. */
  method StartPosition(inst: Instance, pos: Position) returns (start: nat)
    requires ValidInstance(inst) && ValidPosition(inst, pos)
    ensures start == StartColumn(inst, pos)
  {
    Layout(inst, pos);
    start := 0;
    if pos.pass != 0 {
      start := if pos.slice == SYNC_POINTS - 1 then 0 else ((pos.slice + 1) * inst.segmentLength) % TWO32;
    }
  }

  /** The branches of `index_alpha` on pass, slice and lane. */
  method ReferenceAreaSize(inst: Instance, pos: Position, sameLane: bool) returns (area: nat)
    requires ValidInstance(inst) && ValidPosition(inst, pos)
    requires pos.pass == 0 && pos.slice == 0 ==> sameLane
    ensures area == AreaSize(inst, pos, sameLane)
  {
    Layout(inst, pos);
    AreaFacts(inst, pos, sameLane);
    if pos.pass == 0 {
      var before := pos.slice * inst.segmentLength;
      assert before == FirstColumn(inst, pos);
      if pos.slice == 0 {
        area := Wrapped(pos.index - 1);
      } else if sameLane {
        area := Wrapped(before + pos.index - 1);
      } else {
        area := Wrapped(before + OpeningWord(pos.index));
      }
    } else {
      if sameLane {
        area := Wrapped(inst.laneLength - inst.segmentLength + pos.index - 1);
      } else {
        area := Wrapped(inst.laneLength - inst.segmentLength + OpeningWord(pos.index));
      }
    }
  }

  /** `(index == 0) ? (-1) : 0`, converted to an unsigned word. */
  function OpeningWord(index: nat): nat {
    if index == 0 then TWO32 - 1 else 0
  }

  /** An unsigned 32-bit result. */
  function Wrapped(n: int): (word: nat)
    ensures 0 <= n < TWO32 ==> word == n
    ensures TWO32 <= n < 2 * TWO32 ==> word == n - TWO32
  {
    n % TWO32
  }

  /** Step 1.2.4 of `index_alpha`: the position relative to the window's start. */
  method SkewedPosition(pseudoRand: nat, area: nat) returns (relative: nat)
    requires pseudoRand < TWO32 && 1 <= area < TWO32
    ensures relative == area - 1 - StepsBack(area, pseudoRand)
  {
    SquareFits(pseudoRand);
    StepsBackBound(area, pseudoRand);
    relative := pseudoRand;
    ModSmall(relative * relative, TWO64);
    relative := ((relative * relative) % TWO64) / TWO32;
    ModSmall(area * relative, TWO64);
    var scaled := ((area * relative) % TWO64) / TWO32;
    relative := Countdown(area, scaled);
  }

  /** The last, partly 32-bit subtraction of step 1.2.4. */
  method Countdown(area: nat, scaled: nat) returns (relative: nat)
    requires scaled < area < TWO32
    ensures relative == area - 1 - scaled
  {
    relative := ((area - 1) % TWO32 - scaled) % TWO64;
  }

  // ------------------------------------------------------ what the choice guarantees

  /** The step picked lies in the reference set, and the column returned is
      the one that still holds the block of that step. */
  lemma ReferenceIsInWindow(inst: Instance, pos: Position, sameLane: bool, pseudoRand: nat)
    requires ValidInstance(inst) && ValidPosition(inst, pos) && pseudoRand < TWO32
    requires pos.pass == 0 && pos.slice == 0 ==> sameLane
    ensures var column := ReferenceColumn(inst, pos, sameLane, pseudoRand);
            && column < inst.laneLength
            && OldestStep(inst, pos) <= BuiltAt(inst, pos, column) <= LatestStep(inst, pos, sameLane)
  {
    AreaFacts(inst, pos, sameLane);
    StepsBackBound(AreaSize(inst, pos, sameLane), pseudoRand);
    hide StepsBack, AreaSize, Lap;
    var step := LatestStep(inst, pos, sameLane) - StepsBack(AreaSize(inst, pos, sameLane), pseudoRand);
    StepColumn(inst, pos, step);
  }

  lemma StepColumn(inst: Instance, pos: Position, step: nat)
    requires ValidInstance(inst) && ValidPosition(inst, pos)
    requires OldestStep(inst, pos) <= step < Lap(inst, pos) + CurrentColumn(inst, pos)
    ensures 0 <= step % inst.laneLength < inst.laneLength
    ensures BuiltAt(inst, pos, step % inst.laneLength) == step
  {
    Layout(inst, pos);
    var lap := Lap(inst, pos);
    assert lap == pos.pass * inst.laneLength;
    hide FirstColumn, Lap;
    if step >= lap {
      DivModUnique(step, inst.laneLength, pos.pass, step - lap);
    } else {
      DivModUnique(step, inst.laneLength, pos.pass - 1, step - (lap - inst.laneLength));
    }
  }

  /** Every block of a lane is named by the step that built it. */
  lemma BuiltAtInjective(inst: Instance, pos: Position, a: nat, b: nat)
    requires a < inst.laneLength && b < inst.laneLength
    requires BuiltAt(inst, pos, a) == BuiltAt(inst, pos, b)
    ensures a == b
  {
    hide FirstColumn, Lap;
  }

  /** The column the current block follows; the last one of the lane for
      the first. */
  function PreviousColumn(inst: Instance, column: nat): int {
    if column == 0 then inst.laneLength - 1 else column - 1
  }

  /** RFC 9106 section 3.4.2: neither the current nor the previous block of
      the own lane, nothing from the segment another lane is filling, and in
      the first pass only blocks that exist. */
  lemma ReferenceIsSafe(inst: Instance, pos: Position, sameLane: bool, pseudoRand: nat)
    requires ValidInstance(inst) && ValidPosition(inst, pos) && pseudoRand < TWO32
    requires pos.pass == 0 && pos.slice == 0 ==> sameLane
    ensures var column := ReferenceColumn(inst, pos, sameLane, pseudoRand);
            && column < inst.laneLength
            && (sameLane ==> column != CurrentColumn(inst, pos))
            && (sameLane ==> column != PreviousColumn(inst, CurrentColumn(inst, pos)))
            && (!sameLane ==> column < FirstColumn(inst, pos)
                              || FirstColumn(inst, pos) + inst.segmentLength <= column)
            && (pos.pass == 0 ==> column < CurrentColumn(inst, pos))
  {
    ReferenceIsInWindow(inst, pos, sameLane, pseudoRand);
    Layout(inst, pos);
    hide ReferenceColumn, FirstColumn, Lap;
  }

  // ------------------------------------------------------ the set and the choice, without the functions above

  /** RFC 9106 section 3.4.1.2: `x` and `y` are the two truncated products of
      the 32 random bits, `size` is the number of blocks to choose from, and the
      block chosen is the `y`-th before the youngest of them. In the own lane
      the youngest is the one before the previous block, in another lane the
      last one of its finished segments, or the one before it when the current
      block opens a segment. */
  lemma ChoiceByAge(inst: Instance, pos: Position, sameLane: bool, pseudoRand: nat, x: nat, size: nat, y: nat)
    requires ValidInstance(inst) && ValidPosition(inst, pos) && pseudoRand < 0x1_0000_0000
    requires pos.pass == 0 && pos.slice == 0 ==> sameLane
    requires x * 0x1_0000_0000 <= pseudoRand * pseudoRand < x * 0x1_0000_0000 + 0x1_0000_0000
    requires size == (if pos.pass == 0 then pos.slice else 3) * inst.segmentLength
                     + if sameLane then pos.index - 1 else if pos.index == 0 then -1 else 0
    requires y * 0x1_0000_0000 <= size * x < y * 0x1_0000_0000 + 0x1_0000_0000
    ensures y < size
    ensures var column := ReferenceColumn(inst, pos, sameLane, pseudoRand);
            (pos.slice * inst.segmentLength + pos.index - 1 - column) % inst.laneLength
            == y + if sameLane || pos.index == 0 then 1 else pos.index
  {
    AreaFacts(inst, pos, sameLane);
    Layout(inst, pos);
    assert size == AreaSize(inst, pos, sameLane);
    DivModUnique(pseudoRand * pseudoRand, 0x1_0000_0000, x, pseudoRand * pseudoRand - x * 0x1_0000_0000);
    DivModUnique(size * x, 0x1_0000_0000, y, size * x - y * 0x1_0000_0000);
    assert StepsBack(size, pseudoRand) == y;
    StepsBackBound(size, pseudoRand);
    hide StepsBack, AreaSize, OldestStep;
    AgeOfStep(inst, pos, LatestStep(inst, pos, sameLane) - y);
  }

  lemma AgeOfStep(inst: Instance, pos: Position, step: int)
    requires ValidInstance(inst) && ValidPosition(inst, pos)
    requires 0 <= Lap(inst, pos) + CurrentColumn(inst, pos) - 1 - step < inst.laneLength
    ensures (CurrentColumn(inst, pos) - 1 - step % inst.laneLength) % inst.laneLength
            == Lap(inst, pos) + CurrentColumn(inst, pos) - 1 - step
  {
    var d, before := inst.laneLength, CurrentColumn(inst, pos) - 1;
    assert Lap(inst, pos) == pos.pass * d;
    hide Lap, CurrentColumn, ValidInstance, ValidPosition;
    ModOfMod(before, step, d);
    ModShift(before - step, pos.pass, d);
    ModSmall(Lap(inst, pos) + before - step, d);
  }

  lemma ModOfMod(a: int, b: int, d: nat)
    requires d > 0
    ensures (a - b % d) % d == (a - b) % d
  {
    assert b == (b / d) * d + b % d;
    ModShift(a - b, b / d, d);
  }

  /** The set leaves nothing out: what it excludes is exactly what may not be
      read or does not exist yet. */
  lemma WindowIsExact(inst: Instance, pos: Position, sameLane: bool, column: nat)
    requires ValidInstance(inst) && ValidPosition(inst, pos) && column < inst.laneLength
    requires pos.pass == 0 && pos.slice == 0 ==> sameLane
    ensures var first, current := pos.slice * inst.segmentLength, pos.slice * inst.segmentLength + pos.index;
            var previous := if current == 0 then inst.laneLength - 1 else current - 1;
            var lastOfSegment := if first == 0 then inst.laneLength - 1 else first - 1;
            OldestStep(inst, pos) <= BuiltAt(inst, pos, column) <= LatestStep(inst, pos, sameLane) <==>
            && (if sameLane then !(current <= column < first + inst.segmentLength) && column != previous
                else !(first <= column < first + inst.segmentLength)
                     && (pos.index == 0 ==> column != lastOfSegment))
            && (pos.pass == 0 ==> column < current)
  {
    Layout(inst, pos);
    hide Lap;
  }
}
