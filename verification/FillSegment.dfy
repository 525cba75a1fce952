/** Filling one segment of one lane: ref.c and opt.c `fill_segment`, proved
    against one step function. */
module FillSegment {
  import opened Argon2Params
  import opened Arith
  import opened ReferenceIndex
  import opened BlakeRound
  import opened FillBlock

  const ADDRESSES_IN_BLOCK: nat := 128

  function ZeroBlock(): Block {
    seq(128, _ => 0)
  }

  // ------------------------------------------------------------ specification

  function Offset(inst: Instance, lane: nat, column: nat): nat {
    lane * inst.laneLength + column
  }

  lemma OffsetBounds(inst: Instance, lane: nat, column: nat)
    requires ValidInstance(inst) && lane < inst.lanes && column < inst.laneLength
    ensures Offset(inst, lane, column) < inst.memoryBlocks
    ensures Offset(inst, lane, column) % inst.laneLength == column
    ensures Offset(inst, lane, column) / inst.laneLength == lane
  {
    MulMono(lane + 1, inst.lanes, inst.laneLength);
    DivModUnique(Offset(inst, lane, column), inst.laneLength, lane, column);
  }

  lemma OffsetInjective(inst: Instance, lane: nat, column: nat, lane': nat, column': nat)
    requires ValidInstance(inst) && lane < inst.lanes && column < inst.laneLength
    requires lane' < inst.lanes && column' < inst.laneLength
    requires Offset(inst, lane, column) == Offset(inst, lane', column')
    ensures lane == lane' && column == column'
  {
    OffsetBounds(inst, lane, column);
    OffsetBounds(inst, lane', column');
  }

  predicate DataIndependent(inst: Instance, pos: Position) {
    inst.kind.Argon2i? || (inst.kind.Argon2id? && pos.pass == 0 && pos.slice < SYNC_POINTS / 2)
  }

  predicate ValidSegment(inst: Instance, pass: nat, lane: nat, slice: nat) {
    pass < inst.passes && lane < inst.lanes && slice < SYNC_POINTS
  }

  function KindCode(kind: Argon2Type): Word {
    match kind
    case Argon2d => 0
    case Argon2i => 1
    case Argon2id => 2
  }

  function WordOf(n: nat): Word
    requires n < TWO64
  {
    n as Word
  }

  /** The input of the address generator for its `counter`-th block. */
  function InputBlock(inst: Instance, pass: nat, lane: nat, slice: nat, counter: Word): Block
    requires ValidInstance(inst) && ValidSegment(inst, pass, lane, slice)
  {
    MulMono(1, inst.lanes, inst.laneLength);
    ZeroBlock()[0 := WordOf(pass)][1 := WordOf(lane)][2 := WordOf(slice)]
    [3 := WordOf(inst.memoryBlocks)][4 := WordOf(inst.passes)][5 := KindCode(inst.kind)][6 := counter]
  }

  /** The counter word after `n` increments of zero. */
  function CounterWord(n: nat): Word {
    if n == 0 then 0 else CounterWord(n - 1) + 1
  }

  lemma InputBlockCounter(inst: Instance, pass: nat, lane: nat, slice: nat, c: Word, d: Word)
    requires ValidInstance(inst) && ValidSegment(inst, pass, lane, slice)
    ensures InputBlock(inst, pass, lane, slice, c)[6] == c
    ensures InputBlock(inst, pass, lane, slice, c)[6 := d] == InputBlock(inst, pass, lane, slice, d)
  {
  }

  function AddressBlock(inst: Instance, pass: nat, lane: nat, slice: nat, counter: nat): Block
    requires ValidInstance(inst) && ValidSegment(inst, pass, lane, slice)
  {
    var input := InputBlock(inst, pass, lane, slice, CounterWord(counter));
    var once := inst.compress(ZeroBlock(), input, ZeroBlock(), false);
    inst.compress(ZeroBlock(), once, ZeroBlock(), false)
  }

  predicate IsMemory(inst: Instance, mem: seq<Block>) {
    |mem| == inst.memoryBlocks
  }

  function CurrentOffset(inst: Instance, pos: Position): nat {
    Offset(inst, pos.lane, CurrentColumn(inst, pos))
  }

  function PreviousOffset(inst: Instance, pos: Position): int {
    pos.lane * inst.laneLength + PreviousColumn(inst, CurrentColumn(inst, pos))
  }

  lemma PositionOffsets(inst: Instance, pos: Position)
    requires ValidInstance(inst) && ValidPosition(inst, pos)
    ensures CurrentColumn(inst, pos) < inst.laneLength
    ensures 0 <= PreviousColumn(inst, CurrentColumn(inst, pos)) < inst.laneLength
    ensures CurrentOffset(inst, pos) < inst.memoryBlocks
    ensures CurrentOffset(inst, pos) % inst.laneLength == CurrentColumn(inst, pos)
    ensures 0 <= PreviousOffset(inst, pos) < inst.memoryBlocks
  {
    Layout(inst, pos);
    hide FirstColumn;
    OffsetBounds(inst, pos.lane, CurrentColumn(inst, pos));
    OffsetBounds(inst, pos.lane, PreviousColumn(inst, CurrentColumn(inst, pos)));
  }

  /** The 64 bits that choose the reference block. */
  function PseudoRand(inst: Instance, pos: Position, mem: seq<Block>): Word
    requires ValidInstance(inst) && ValidPosition(inst, pos) && IsMemory(inst, mem)
  {
    PositionOffsets(inst, pos);
    if DataIndependent(inst, pos)
    then
      AddressBlock(inst, pos.pass, pos.lane, pos.slice,
                   pos.index / ADDRESSES_IN_BLOCK + 1)[pos.index % ADDRESSES_IN_BLOCK]
    else mem[PreviousOffset(inst, pos)][0]
  }

  /** `pseudo_rand >> 32` and `pseudo_rand & 0xFFFFFFFF`. */
  function HighHalf(rand: Word): nat { (rand as nat) / TWO32 }
  function LowHalf(rand: Word): (low: nat)
    ensures low < TWO32
  {
    (rand as nat) % TWO32
  }

  function ReferenceLane(inst: Instance, pos: Position, rand: Word): (lane: nat)
    requires ValidInstance(inst) && ValidPosition(inst, pos)
    ensures lane < inst.lanes
    ensures pos.pass == 0 && pos.slice == 0 ==> lane == pos.lane
  {
    if pos.pass == 0 && pos.slice == 0 then pos.lane else HighHalf(rand) % inst.lanes
  }

  function ReferenceOffset(inst: Instance, pos: Position, rand: Word): (offset: nat)
    requires ValidInstance(inst) && ValidPosition(inst, pos)
    ensures offset < inst.memoryBlocks
  {
    var lane := ReferenceLane(inst, pos, rand);
    var column := ReferenceColumn(inst, pos, lane == pos.lane, LowHalf(rand));
    ReferenceIsSafe(inst, pos, lane == pos.lane, LowHalf(rand));
    OffsetBounds(inst, lane, column);
    Offset(inst, lane, column)
  }

  predicate WithXor(inst: Instance, pos: Position) {
    inst.version != VERSION_10 && pos.pass != 0
  }

  /** The block a lane builds next. */
  function NewBlock(inst: Instance, pos: Position, mem: seq<Block>): Block
    requires ValidInstance(inst) && ValidPosition(inst, pos) && IsMemory(inst, mem)
  {
    PositionOffsets(inst, pos);
    inst.compress(mem[PreviousOffset(inst, pos)], mem[ReferenceOffset(inst, pos, PseudoRand(inst, pos, mem))],
                  mem[CurrentOffset(inst, pos)], WithXor(inst, pos))
  }

  function Step(inst: Instance, pos: Position, mem: seq<Block>): (mem': seq<Block>)
    requires ValidInstance(inst) && ValidPosition(inst, pos) && IsMemory(inst, mem)
    ensures IsMemory(inst, mem')
  {
    PositionOffsets(inst, pos);
    mem[CurrentOffset(inst, pos) := NewBlock(inst, pos, mem)]
  }

  predicate ValidSegmentPosition(inst: Instance, pos: Position) {
    pos.index == inst.segmentLength || ValidPosition(inst, pos)
  }

  /** The rest of the segment, from `pos.index` on. */
  function SegmentFrom(inst: Instance, pos: Position, mem: seq<Block>): (mem': seq<Block>)
    requires ValidInstance(inst) && ValidSegmentPosition(inst, pos) && IsMemory(inst, mem)
    ensures IsMemory(inst, mem')
    decreases inst.segmentLength - pos.index
  {
    if pos.index == inst.segmentLength then mem
    else SegmentFrom(inst, pos.(index := pos.index + 1), Step(inst, pos, mem))
  }

  function SegmentStart(pass: nat, lane: nat, slice: nat): Position {
    Position(pass, lane, slice, if pass == 0 && slice == 0 then 2 else 0)
  }

  function Segment(inst: Instance, pass: nat, lane: nat, slice: nat, mem: seq<Block>): (mem': seq<Block>)
    requires ValidInstance(inst) && ValidSegment(inst, pass, lane, slice) && IsMemory(inst, mem)
    ensures IsMemory(inst, mem')
  {
    SegmentFrom(inst, SegmentStart(pass, lane, slice), mem)
  }

  // ------------------------------------------------------------ what a step reads and writes

  /** The previous block is the one the lane built last: its column was reached
      one step before the current one. */
  lemma PreviousIsLatest(inst: Instance, pos: Position)
    requires ValidInstance(inst) && ValidPosition(inst, pos)
    ensures CurrentOffset(inst, pos) == pos.lane * inst.laneLength + pos.slice * inst.segmentLength + pos.index
    ensures var column := PreviousOffset(inst, pos) - pos.lane * inst.laneLength;
            && 0 <= column < inst.laneLength
            && (column + 1) % inst.laneLength == pos.slice * inst.segmentLength + pos.index
  {
    PositionOffsets(inst, pos);
    NextColumn(inst, CurrentColumn(inst, pos));
    hide PreviousColumn, ValidInstance, ValidPosition;
  }

  lemma NextColumn(inst: Instance, column: nat)
    requires column < inst.laneLength
    ensures (PreviousColumn(inst, column) + 1) % inst.laneLength == column
  {
    if column == 0 {
      DivModUnique(inst.laneLength, inst.laneLength, 1, 0);
    } else {
      ModSmall(column, inst.laneLength);
    }
  }

  /** RFC 9106 section 3.4.1: Argon2i never looks at memory contents for its
      random words, Argon2id does not in the first two slices of the first
      pass; all else takes the first word of the previous block. */
  lemma RandomWordSource(inst: Instance, pos: Position, mem: seq<Block>, mem': seq<Block>)
    requires ValidInstance(inst) && ValidPosition(inst, pos) && IsMemory(inst, mem) && IsMemory(inst, mem')
    ensures inst.kind == Argon2i || (inst.kind == Argon2id && pos.pass == 0 && pos.slice < 2) ==>
              PseudoRand(inst, pos, mem) == PseudoRand(inst, pos, mem')
    ensures !(inst.kind == Argon2i || (inst.kind == Argon2id && pos.pass == 0 && pos.slice < 2)) ==>
              0 <= PreviousOffset(inst, pos) < |mem| && PseudoRand(inst, pos, mem) == mem[PreviousOffset(inst, pos)][0]
  {
    PositionOffsets(inst, pos);
  }

  /** The generated words: two compressions, over zero, of a block that names the
      place being filled, the geometry, the type, and a count that starts at one
      and goes up every 128 words. */
  lemma GeneratedWord(inst: Instance, pos: Position, mem: seq<Block>, zero: Block, b: Block, counts: seq<Word>)
    requires ValidInstance(inst) && ValidPosition(inst, pos) && IsMemory(inst, mem)
    requires inst.kind == Argon2i || (inst.kind == Argon2id && pos.pass == 0 && pos.slice < 2)
    requires forall k :: 0 <= k < 128 ==> zero[k] == 0
    requires b[0] as nat == pos.pass && b[1] as nat == pos.lane && b[2] as nat == pos.slice
    requires b[3] as nat == inst.memoryBlocks && b[4] as nat == inst.passes
    requires b[5] == if inst.kind == Argon2i then 1 else 2
    requires |counts| > pos.index / 128 + 1 && counts[0] == 0 && b[6] == counts[pos.index / 128 + 1]
    requires forall i :: 0 < i < |counts| ==> counts[i] == counts[i - 1] + 1
    requires forall k :: 7 <= k < 128 ==> b[k] == 0
    ensures PseudoRand(inst, pos, mem) ==
            inst.compress(zero, inst.compress(zero, b, zero, false), zero, false)[pos.index % 128]
  {
    hide InputBlock, CounterWord, WordOf, ZeroBlock, AddressBlock, ValidPosition, PreviousOffset;
    ValidMeans(inst, pos);
    var n := pos.index / 128 + 1;
    Counting(counts, n);
    ZeroIs(zero);
    FromWord(b[0], pos.pass);
    FromWord(b[1], pos.lane);
    FromWord(b[2], pos.slice);
    FromWord(b[3], inst.memoryBlocks);
    FromWord(b[4], inst.passes);
    InputWords(inst, pos.pass, pos.lane, pos.slice, b[6], b);
    AddressIs(inst, pos.pass, pos.lane, pos.slice, n);
  }

  lemma ValidMeans(inst: Instance, pos: Position)
    requires ValidInstance(inst) && ValidPosition(inst, pos)
    ensures ValidSegment(inst, pos.pass, pos.lane, pos.slice)
    ensures pos.pass < TWO32 && pos.lane < TWO32 && pos.slice < TWO32
    ensures inst.memoryBlocks < TWO32 && inst.passes < TWO32
  {
  }

  lemma ZeroIs(zero: Block)
    requires forall k :: 0 <= k < 128 ==> zero[k] == 0
    ensures zero == ZeroBlock()
  {
  }

  lemma AddressIs(inst: Instance, pass: nat, lane: nat, slice: nat, n: nat)
    requires ValidInstance(inst) && ValidSegment(inst, pass, lane, slice)
    ensures var input := InputBlock(inst, pass, lane, slice, CounterWord(n));
            AddressBlock(inst, pass, lane, slice, n) ==
            inst.compress(ZeroBlock(), inst.compress(ZeroBlock(), input, ZeroBlock(), false), ZeroBlock(), false)
  {
    hide InputBlock, ZeroBlock, CounterWord;
  }

  lemma InputWords(inst: Instance, pass: nat, lane: nat, slice: nat, counter: Word, b: Block)
    requires ValidInstance(inst) && ValidSegment(inst, pass, lane, slice) && inst.memoryBlocks < TWO32
    requires pass < TWO32 && lane < TWO32 && slice < TWO32 && inst.passes < TWO32
    requires b[0] == WordOf(pass) && b[1] == WordOf(lane) && b[2] == WordOf(slice)
    requires b[3] == WordOf(inst.memoryBlocks) && b[4] == WordOf(inst.passes)
    requires b[5] == (match inst.kind case Argon2d => 0 case Argon2i => 1 case Argon2id => 2)
    requires b[6] == counter && forall k :: 7 <= k < 128 ==> b[k] == 0
    ensures b == InputBlock(inst, pass, lane, slice, counter)
  {
    hide WordOf, ValidInstance, ValidSegment;
    SixWords(WordOf(pass), WordOf(lane), WordOf(slice), WordOf(inst.memoryBlocks), WordOf(inst.passes),
             KindCode(inst.kind), counter, b);
  }

  lemma SixWords(w0: Word, w1: Word, w2: Word, w3: Word, w4: Word, w5: Word, w6: Word, b: Block)
    requires b[0] == w0 && b[1] == w1 && b[2] == w2 && b[3] == w3 && b[4] == w4 && b[5] == w5 && b[6] == w6
    requires forall k :: 7 <= k < 128 ==> b[k] == 0
    ensures b == ZeroBlock()[0 := w0][1 := w1][2 := w2][3 := w3][4 := w4][5 := w5][6 := w6]
  {
  }

  lemma FromWord(w: Word, n: nat)
    requires n < TWO64 && w as nat == n
    ensures WordOf(n) == w
  {
  }

  lemma {:induction false} Counting(counts: seq<Word>, n: nat)
    requires n < |counts| && counts[0] == 0 && forall i :: 0 < i < |counts| ==> counts[i] == counts[i - 1] + 1
    ensures counts[n] == CounterWord(n)
  {
    if n > 0 {
      Counting(counts, n - 1);
    }
  }

  /** The high half of the random word chooses the lane, the low half the block;
      in the first slice of the first pass there is only the own lane. */
  lemma HalvesChoose(inst: Instance, pos: Position, rand: Word, high: nat, low: nat)
    requires ValidInstance(inst) && ValidPosition(inst, pos)
    requires low < 0x1_0000_0000 && rand as nat == high * 0x1_0000_0000 + low
    ensures var lane := if pos.pass == 0 && pos.slice == 0 then pos.lane else high % inst.lanes;
            ReferenceOffset(inst, pos, rand) ==
            lane * inst.laneLength + ReferenceColumn(inst, pos, lane == pos.lane, low)
  {
    DivModUnique(rand as nat, 0x1_0000_0000, high, low);
    assert HighHalf(rand) == high && LowHalf(rand) == low;
    hide HighHalf, LowHalf, ReferenceColumn;
  }

  /** A later pass adds the new block to the old one, unless the version is 16;
      otherwise the old one does not matter. */
  lemma LaterPassesAdd(inst: Instance, pos: Position, mem: seq<Block>, k: nat)
    requires ValidInstance(inst) && ValidPosition(inst, pos) && IsMemory(inst, mem) && k < 128
    requires inst.compress == Compress
    ensures 0 <= PreviousOffset(inst, pos) < |mem| && CurrentOffset(inst, pos) < |mem|
    ensures var prev := mem[PreviousOffset(inst, pos)];
            var reference := mem[ReferenceOffset(inst, pos, PseudoRand(inst, pos, mem))];
            var old' := mem[CurrentOffset(inst, pos)];
            var fresh' := Compress(prev, reference, old', false);
            Step(inst, pos, mem)[CurrentOffset(inst, pos)][k] ==
            if pos.pass > 0 && inst.version != 16 then Xor(old'[k], fresh'[k]) else fresh'[k]
  {
    PositionOffsets(inst, pos);
    var prev := mem[PreviousOffset(inst, pos)];
    var reference := mem[ReferenceOffset(inst, pos, PseudoRand(inst, pos, mem))];
    PresentBlockAdded(prev, reference, mem[CurrentOffset(inst, pos)], XorBlocks(prev, reference), k);
    hide Compress, PseudoRand, ReferenceOffset, PreviousOffset, CurrentOffset, Xor;
  }

  // ------------------------------------------------------------ ref.c

  /** `next_addresses`: the counter word is bumped in place and the generator
      applied twice; opt.c applies its vector form to zeroed registers. */
  method NextAddresses(inst: Instance, ghost pos: Position, input: array<Word>, ghost counter: nat, vector: bool)
    returns (address: Block)
    requires ValidInstance(inst) && ValidSegment(inst, pos.pass, pos.lane, pos.slice)
    requires inst.compress == Compress
    requires input.Length == 128
    requires input[..] == InputBlock(inst, pos.pass, pos.lane, pos.slice, CounterWord(counter))
    modifies input
    ensures address == AddressBlock(inst, pos.pass, pos.lane, pos.slice, counter + 1)
    ensures input[..] == InputBlock(inst, pos.pass, pos.lane, pos.slice, CounterWord(counter + 1))
  {
    hide Compress, InputBlock, ZeroBlock;
    InputBlockCounter(inst, pos.pass, pos.lane, pos.slice, CounterWord(counter), CounterWord(counter + 1));
    assert input[6] == input[..][6];
    input[6] := input[6] + 1;
    assert input[..] == InputBlock(inst, pos.pass, pos.lane, pos.slice, CounterWord(counter + 1));
    if vector {
      address := CompressFromZero(input[..]);
      address := CompressFromZero(address);
    } else {
      address := FillBlockRef(ZeroBlock(), input[..], ZeroBlock(), false);
      address := FillBlockRef(ZeroBlock(), address, ZeroBlock(), false);
    }
  }

  method CompressFromZero(reference: Block) returns (address: Block)
    ensures address == Compress(ZeroBlock(), reference, ZeroBlock(), false)
  {
    hide Compress;
    var zero := OwordsOf(ZeroBlock());
    var state := new Oword[64](m requires 0 <= m < 64 => zero[m]);
    assert state[..] == zero;
    address := FillBlockOpt(state, reference, ZeroBlock(), false);
  }

  method FirstInput(inst: Instance, pos: Position) returns (input: array<Word>)
    requires ValidInstance(inst) && ValidSegment(inst, pos.pass, pos.lane, pos.slice)
    ensures fresh(input) && input.Length == 128
    ensures input[..] == InputBlock(inst, pos.pass, pos.lane, pos.slice, CounterWord(0))
  {
    hide WordOf;
    MulMono(1, inst.lanes, inst.laneLength);
    input := new Word[128];
    forall k | 0 <= k < 128 { input[k] := 0; }
    assert input[..] == ZeroBlock();
    input[0], input[1], input[2] := WordOf(pos.pass), WordOf(pos.lane), WordOf(pos.slice);
    input[3], input[4], input[5] := WordOf(inst.memoryBlocks), WordOf(inst.passes), KindCode(inst.kind);
    assert input[..] == InputBlock(inst, pos.pass, pos.lane, pos.slice, 0);
  }

  /** Address blocks generated before the loop reaches index `i`. */
  function AddressesBefore(i: nat): nat {
    (i + ADDRESSES_IN_BLOCK - 1) / ADDRESSES_IN_BLOCK
  }

  /** A new address block is due exactly at multiples of 128. */
  lemma AddressInUse(i: nat)
    ensures AddressesBefore(i + 1) == i / ADDRESSES_IN_BLOCK + 1
    ensures AddressesBefore(i + 1) == AddressesBefore(i) + if i % ADDRESSES_IN_BLOCK == 0 then 1 else 0
  {
  }

  /** What the address generator holds when the loop reaches index `i`. */
  predicate Generated(inst: Instance, pos: Position, i: nat, input: seq<Word>, address: Block)
    requires ValidInstance(inst) && ValidSegment(inst, pos.pass, pos.lane, pos.slice)
  {
    && |input| == 128
    && input == InputBlock(inst, pos.pass, pos.lane, pos.slice, CounterWord(AddressesBefore(i)))
    && (0 < i ==> address == AddressBlock(inst, pos.pass, pos.lane, pos.slice, AddressesBefore(i)))
  }

  /** Step 1.2.1: the word that chooses the reference block. */
  method TakePseudoRand(inst: Instance, pos: Position, memory: array<Block>, prevOffset: nat,
                        dataIndependent: bool, input: array<Word>, address: Block, vector: bool)
    returns (rand: Word, address': Block)
    requires ValidInstance(inst) && ValidPosition(inst, pos) && IsMemory(inst, memory[..])
    requires inst.compress == Compress
    requires prevOffset == PreviousOffset(inst, pos)
    requires dataIndependent == DataIndependent(inst, pos)
    requires dataIndependent ==> Generated(inst, pos, pos.index, input[..], address)
    modifies input
    ensures rand == PseudoRand(inst, pos, memory[..])
    ensures dataIndependent ==> Generated(inst, pos, pos.index + 1, input[..], address')
  {
    hide Compress, InputBlock, ZeroBlock, AddressBlock, AddressesBefore, CounterWord, PreviousOffset,
         CurrentOffset, CurrentColumn, ValidInstance;
    address' := address;
    PositionOffsets(inst, pos);
    AddressInUse(pos.index);
    if dataIndependent {
      if pos.index % ADDRESSES_IN_BLOCK == 0 {
        address' := NextAddresses(inst, pos, input, AddressesBefore(pos.index), vector);
      }
      rand := address'[pos.index % ADDRESSES_IN_BLOCK];
    } else {
      rand := memory[..][prevOffset][0];
    }
  }

  /** Rotation of `prev_offset` (step 1.1): off only while the loop stands on
      column 1 of the lane after having started on column 0. */
  predicate PreviousTracked(inst: Instance, pos: Position, prevOffset: nat) {
    pos.index < inst.segmentLength ==>
      CurrentColumn(inst, pos) == 1 || prevOffset == PreviousOffset(inst, pos)
  }

  lemma FirstPrevious(inst: Instance, pos: Position)
    requires ValidInstance(inst) && ValidPosition(inst, pos)
    ensures PreviousOffset(inst, pos) ==
              if CurrentColumn(inst, pos) == 0 then CurrentOffset(inst, pos) + inst.laneLength - 1
              else CurrentOffset(inst, pos) - 1
  {
  }

  lemma NextPrevious(inst: Instance, pos: Position)
    requires ValidInstance(inst) && ValidPosition(inst, pos)
    ensures PreviousTracked(inst, pos.(index := pos.index + 1), PreviousOffset(inst, pos) + 1)
    ensures CurrentOffset(inst, pos.(index := pos.index + 1)) == CurrentOffset(inst, pos) + 1
  {
  }

  /** `fill_segment` of ref.c. */
  method FillSegmentRef(inst: Instance, memory: array<Block>, pass: nat, lane: nat, slice: nat)
    requires ValidInstance(inst) && ValidSegment(inst, pass, lane, slice)
    requires inst.compress == Compress
    requires memory.Length == inst.memoryBlocks
    modifies memory
    ensures memory[..] == Segment(inst, pass, lane, slice, old(memory[..]))
  {
    hide Compress, InputBlock, ZeroBlock, AddressBlock, Step, PreviousOffset, CurrentOffset,
      PreviousTracked, PseudoRand, SegmentFrom, CounterWord;
    var pos := SegmentStart(pass, lane, slice);
    var dataIndependent := DataIndependent(inst, pos);
    var input := FirstInput(inst, pos);
    var address := ZeroBlock();
    if pass == 0 && slice == 0 && dataIndependent {
      address := NextAddresses(inst, pos, input, 0, false);
    }
    var currOffset := lane * inst.laneLength + slice * inst.segmentLength + pos.index;
    StartOffset(inst, pos);
    assert dataIndependent ==> Generated(inst, pos, pos.index, input[..], address);
    hide Generated;
    var prevOffset := StartingPrevious(inst, pos, currOffset);
    while pos.index < inst.segmentLength
      invariant pos.pass == pass && pos.lane == lane && pos.slice == slice
      invariant ValidSegmentPosition(inst, pos)
      invariant currOffset == CurrentOffset(inst, pos)
      invariant PreviousTracked(inst, pos, prevOffset)
      invariant dataIndependent == DataIndependent(inst, pos)
      invariant dataIndependent ==> Generated(inst, pos, pos.index, input[..], address)
      invariant SegmentFrom(inst, pos, memory[..]) == Segment(inst, pass, lane, slice, old(memory[..]))
      decreases inst.segmentLength - pos.index
    {
      prevOffset := RotatedPrevious(inst, pos, currOffset, prevOffset);
      ghost var before := memory[..];
      var rand;
      rand, address := TakePseudoRand(inst, pos, memory, prevOffset, dataIndependent, input, address, false);
      BuildBlockRef(inst, pos, memory, prevOffset, currOffset, rand);
      SegmentUnfold(inst, pos, before);
      NextPrevious(inst, pos);
      pos := pos.(index := pos.index + 1);
      currOffset, prevOffset := currOffset + 1, prevOffset + 1;
    }
    SegmentEnd(inst, pos, memory[..]);
  }

  lemma SegmentUnfold(inst: Instance, pos: Position, mem: seq<Block>)
    requires ValidInstance(inst) && ValidPosition(inst, pos) && IsMemory(inst, mem)
    ensures ValidSegmentPosition(inst, pos.(index := pos.index + 1))
    ensures SegmentFrom(inst, pos, mem) ==
              SegmentFrom(inst, pos.(index := pos.index + 1), Step(inst, pos, mem))
  {
    hide Step;
  }

  lemma SegmentEnd(inst: Instance, pos: Position, mem: seq<Block>)
    requires ValidInstance(inst) && pos.index == inst.segmentLength && IsMemory(inst, mem)
    ensures SegmentFrom(inst, pos, mem) == mem
  {
  }

  lemma StartOffset(inst: Instance, pos: Position)
    requires ValidInstance(inst) && ValidSegment(inst, pos.pass, pos.lane, pos.slice)
    requires pos == SegmentStart(pos.pass, pos.lane, pos.slice)
    ensures CurrentOffset(inst, pos) == pos.lane * inst.laneLength + pos.slice * inst.segmentLength + pos.index
    ensures CurrentOffset(inst, pos) % inst.laneLength == CurrentColumn(inst, pos) < inst.laneLength
    ensures ValidSegmentPosition(inst, pos)
  {
    MulMono(pos.slice, 3, inst.segmentLength);
    if pos.pass == 0 && pos.slice == 0 {
      assert FirstColumn(inst, pos) == 0;
    }
    OffsetBounds(inst, pos.lane, CurrentColumn(inst, pos));
  }

  method StartingPrevious(inst: Instance, pos: Position, currOffset: nat) returns (prevOffset: nat)
    requires ValidInstance(inst) && ValidSegment(inst, pos.pass, pos.lane, pos.slice)
    requires pos == SegmentStart(pos.pass, pos.lane, pos.slice)
    requires currOffset == CurrentOffset(inst, pos)
    ensures PreviousTracked(inst, pos, prevOffset)
    ensures prevOffset == if CurrentColumn(inst, pos) == 0 then CurrentOffset(inst, pos) + inst.laneLength - 1
                          else CurrentOffset(inst, pos) - 1
    ensures ValidSegmentPosition(inst, pos)
  {
    StartOffset(inst, pos);
    if pos.index < inst.segmentLength {
      FirstPrevious(inst, pos);
    }
    hide CurrentColumn, CurrentOffset, PreviousOffset, ValidInstance, ValidSegmentPosition;
    if currOffset % inst.laneLength == 0 {
      prevOffset := currOffset + inst.laneLength - 1;
    } else {
      prevOffset := currOffset - 1;
    }
  }

  method RotatedPrevious(inst: Instance, pos: Position, currOffset: nat, prevOffset: nat) returns (rotated: nat)
    requires ValidInstance(inst) && ValidPosition(inst, pos)
    requires currOffset == CurrentOffset(inst, pos) && PreviousTracked(inst, pos, prevOffset)
    ensures rotated == PreviousOffset(inst, pos)
  {
    PositionOffsets(inst, pos);
    FirstPrevious(inst, pos);
    rotated := prevOffset;
    if currOffset % inst.laneLength == 1 {
      rotated := currOffset - 1;
    }
  }

  /** Steps 1.2.2 to 2: the reference offset and the new block. */
  method ReferenceFor(inst: Instance, pos: Position, rand: Word) returns (offset: nat)
    requires ValidInstance(inst) && ValidPosition(inst, pos)
    ensures offset == ReferenceOffset(inst, pos, rand) < inst.memoryBlocks
  {
    hide ReferenceLane, ReferenceColumn, HighHalf, LowHalf;
    var refLane := ReferenceLaneFor(inst, pos, rand);
    var refIndex := IndexAlpha(inst, pos, LowHalf(rand), refLane == pos.lane);
    hide ValidInstance, ValidPosition;
    offset := refLane * inst.laneLength + refIndex;
  }

  method ReferenceLaneFor(inst: Instance, pos: Position, rand: Word) returns (refLane: nat)
    requires ValidInstance(inst) && ValidPosition(inst, pos)
    ensures refLane == ReferenceLane(inst, pos, rand)
  {
    hide HighHalf;
    refLane := HighHalf(rand) % inst.lanes;
    if pos.pass == 0 && pos.slice == 0 {
      refLane := pos.lane;
    }
  }

  method BuildBlockRef(inst: Instance, pos: Position, memory: array<Block>,
                       prevOffset: nat, currOffset: nat, rand: Word)
    requires ValidInstance(inst) && ValidPosition(inst, pos) && IsMemory(inst, memory[..])
    requires inst.compress == Compress
    requires prevOffset == PreviousOffset(inst, pos) && currOffset == CurrentOffset(inst, pos)
    requires rand == PseudoRand(inst, pos, memory[..])
    modifies memory
    ensures memory[..] == Step(inst, pos, old(memory[..]))
  {
    hide Compress, PseudoRand, ReferenceOffset;
    PositionOffsets(inst, pos);
    var refOffset := ReferenceFor(inst, pos, rand);
    ghost var mem := memory[..];
    assert memory[prevOffset] == mem[prevOffset] && memory[refOffset] == mem[refOffset];
    if inst.version == VERSION_10 {
      memory[currOffset] := FillBlockRef(memory[prevOffset], memory[refOffset], memory[currOffset], false);
    } else {
      if pos.pass == 0 {
        memory[currOffset] := FillBlockRef(memory[prevOffset], memory[refOffset], memory[currOffset], false);
      } else {
        memory[currOffset] := FillBlockRef(memory[prevOffset], memory[refOffset], memory[currOffset], true);
      }
    }
  }

  // ------------------------------------------------------------ opt.c

  lemma NextPreviousIsCurrent(inst: Instance, pos: Position)
    requires ValidInstance(inst) && ValidPosition(inst, pos)
    ensures PreviousOffset(inst, pos.(index := pos.index + 1)) == CurrentOffset(inst, pos)
  {
  }

  /** Between two iterations the registers hold the previous block. */
  predicate CarriesPrevious(inst: Instance, pos: Position, mem: seq<Block>, state: seq<Oword>) {
    pos.index < inst.segmentLength ==>
      && 0 <= PreviousOffset(inst, pos) < |mem|
      && WordsOf(state) == mem[PreviousOffset(inst, pos)]
  }

  /** `fill_segment` of opt.c leaves the memory `fill_segment` of ref.c leaves. */
  method FillSegmentOpt(inst: Instance, memory: array<Block>, pass: nat, lane: nat, slice: nat)
    requires ValidInstance(inst) && ValidSegment(inst, pass, lane, slice)
    requires inst.compress == Compress
    requires memory.Length == inst.memoryBlocks
    modifies memory
    ensures memory[..] == Segment(inst, pass, lane, slice, old(memory[..]))
  {
    hide Compress, InputBlock, ZeroBlock, AddressBlock, Step, PreviousOffset, CurrentOffset,
      PreviousTracked, PseudoRand, SegmentFrom, CounterWord;
    var pos := SegmentStart(pass, lane, slice);
    var dataIndependent := DataIndependent(inst, pos);
    var input := FirstInput(inst, pos);
    var address := ZeroBlock();
    if pass == 0 && slice == 0 && dataIndependent {
      address := NextAddresses(inst, pos, input, 0, true);
    }
    var currOffset := lane * inst.laneLength + slice * inst.segmentLength + pos.index;
    StartOffset(inst, pos);
    assert dataIndependent ==> Generated(inst, pos, pos.index, input[..], address);
    hide Generated;
    var prevOffset := StartingPrevious(inst, pos, currOffset);
    var state := LoadState(inst, pos, memory, prevOffset);
    hide CarriesPrevious;
    while pos.index < inst.segmentLength
      invariant pos.pass == pass && pos.lane == lane && pos.slice == slice
      invariant ValidSegmentPosition(inst, pos)
      invariant currOffset == CurrentOffset(inst, pos)
      invariant PreviousTracked(inst, pos, prevOffset)
      invariant dataIndependent == DataIndependent(inst, pos)
      invariant dataIndependent ==> Generated(inst, pos, pos.index, input[..], address)
      invariant CarriesPrevious(inst, pos, memory[..], state[..])
      invariant SegmentFrom(inst, pos, memory[..]) == Segment(inst, pass, lane, slice, old(memory[..]))
      decreases inst.segmentLength - pos.index
    {
      prevOffset := RotatedPrevious(inst, pos, currOffset, prevOffset);
      ghost var before := memory[..];
      var rand;
      rand, address := TakePseudoRand(inst, pos, memory, prevOffset, dataIndependent, input, address, true);
      BuildBlockOpt(inst, pos, memory, state, currOffset, rand);
      SegmentUnfold(inst, pos, before);
      NextPrevious(inst, pos);
      pos := pos.(index := pos.index + 1);
      currOffset, prevOffset := currOffset + 1, prevOffset + 1;
    }
    SegmentEnd(inst, pos, memory[..]);
  }

  /** The `memcpy` that precedes the loop of opt.c. */
  method LoadState(inst: Instance, pos: Position, memory: array<Block>, prevOffset: nat)
    returns (state: array<Oword>)
    requires ValidInstance(inst) && ValidSegment(inst, pos.pass, pos.lane, pos.slice)
    requires pos == SegmentStart(pos.pass, pos.lane, pos.slice)
    requires IsMemory(inst, memory[..])
    requires prevOffset == if CurrentColumn(inst, pos) == 0 then CurrentOffset(inst, pos) + inst.laneLength - 1
                           else CurrentOffset(inst, pos) - 1
    ensures fresh(state) && state.Length == 64
    ensures CarriesPrevious(inst, pos, memory[..], state[..])
  {
    StartOffset(inst, pos);
    PreviousInMemory(inst, pos);
    var block := OwordsOf(memory[prevOffset]);
    state := new Oword[64](m requires 0 <= m < 64 => block[m]);
    assert state[..] == block;
    if pos.index < inst.segmentLength {
      FirstPrevious(inst, pos);
    }
  }

  lemma PreviousInMemory(inst: Instance, pos: Position)
    requires ValidInstance(inst) && pos.lane < inst.lanes && CurrentColumn(inst, pos) < inst.laneLength
    ensures var prev := if CurrentColumn(inst, pos) == 0 then CurrentOffset(inst, pos) + inst.laneLength - 1
                        else CurrentOffset(inst, pos) - 1;
            0 <= prev < inst.memoryBlocks
  {
    OffsetBounds(inst, pos.lane, CurrentColumn(inst, pos));
    OffsetBounds(inst, pos.lane, inst.laneLength - 1);
  }

  method BuildBlockOpt(inst: Instance, pos: Position, memory: array<Block>, state: array<Oword>,
                       currOffset: nat, rand: Word)
    requires ValidInstance(inst) && ValidPosition(inst, pos) && IsMemory(inst, memory[..])
    requires inst.compress == Compress
    requires currOffset == CurrentOffset(inst, pos)
    requires state.Length == 64 && CarriesPrevious(inst, pos, memory[..], state[..])
    requires rand == PseudoRand(inst, pos, memory[..])
    modifies memory, state
    ensures memory[..] == Step(inst, pos, old(memory[..]))
    ensures CarriesPrevious(inst, pos.(index := pos.index + 1), memory[..], state[..])
  {
    hide Compress, PseudoRand, ReferenceOffset;
    PositionOffsets(inst, pos);
    var refOffset := ReferenceFor(inst, pos, rand);
    ghost var mem := memory[..];
    assert memory[refOffset] == mem[refOffset];
    if inst.version == VERSION_10 {
      memory[currOffset] := FillBlockOpt(state, memory[refOffset], memory[currOffset], false);
    } else {
      if pos.pass == 0 {
        memory[currOffset] := FillBlockOpt(state, memory[refOffset], memory[currOffset], false);
      } else {
        memory[currOffset] := FillBlockOpt(state, memory[refOffset], memory[currOffset], true);
      }
    }
    NextPreviousIsCurrent(inst, pos);
    assert memory[..] == mem[currOffset := memory[currOffset]];
  }
}
