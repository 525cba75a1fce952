/** Parameters of an Argon2 computation: what `validate_inputs` accepts and the
    memory geometry that `argon2_ctx` derives from an accepted context. */
module Argon2Params {
  import opened Common
  import opened Arith
  import FillBlock

  const TWO32: nat := 0x1_0000_0000
  const TWO64: nat := 0x1_0000_0000_0000_0000
  const SYNC_POINTS: nat := 4
  const MAX_LANES: nat := 0xFF_FFFF
  const MAX_THREADS: nat := 0xFF_FFFF
  const MIN_MEMORY: nat := 8
  const MIN_OUTLEN: nat := 4
  const MIN_SALT_LENGTH: nat := 8
  const VERSION_10: nat := 0x10
  const VERSION_13: nat := 0x13

  datatype Argon2Type = Argon2d | Argon2i | Argon2id

  /** A pointer with its separate length field. */
  datatype Buffer = Null(len: nat) | Bytes(data: seq<bv8>) {
    function Len(): nat {
      match this
      case Null(n) => n
      case Bytes(d) => |d|
    }
  }

  datatype Context = Context(
    out: Buffer, pwd: Buffer, salt: Buffer, secret: Buffer, ad: Buffer,
    tCost: nat, mCost: nat, lanes: nat, threads: nat, version: nat,
    hasAllocate: bool, hasFree: bool)

  datatype Code =
    | Ok | OutputPtrNull | OutputTooShort | OutputTooLong
    | PwdPtrMismatch | PwdTooLong | SaltPtrMismatch | SaltTooShort | SaltTooLong
    | SecretPtrMismatch | SecretTooLong | AdPtrMismatch | AdTooLong
    | MemoryTooLittle | MemoryTooMuch | TimeTooSmall | TimeTooLarge
    | LanesTooFew | LanesTooMany | ThreadsTooFew | ThreadsTooMany
    | FreeMemoryCbkNull | AllocateMemoryCbkNull
    | EncodingFail | DecodingFail

  /** The checks in source order; the product with eight is a 32-bit one. */
  function ValidateInputs(c: Context): Code {
    if c.out.Null? then OutputPtrNull
    else if MIN_OUTLEN > c.out.Len() then OutputTooShort
    else if U32_MAX < c.out.Len() then OutputTooLong
    else if c.pwd.Null? && c.pwd.Len() != 0 then PwdPtrMismatch
    else if U32_MAX < c.pwd.Len() then PwdTooLong
    else if c.salt.Null? && c.salt.Len() != 0 then SaltPtrMismatch
    else if MIN_SALT_LENGTH > c.salt.Len() then SaltTooShort
    else if U32_MAX < c.salt.Len() then SaltTooLong
    else if c.secret.Null? && c.secret.Len() != 0 then SecretPtrMismatch
    else if U32_MAX < c.secret.Len() then SecretTooLong
    else if c.ad.Null? && c.ad.Len() != 0 then AdPtrMismatch
    else if U32_MAX < c.ad.Len() then AdTooLong
    else if MIN_MEMORY > c.mCost then MemoryTooLittle
    else if U32_MAX < c.mCost then MemoryTooMuch
    else if c.mCost < (8 * c.lanes) % TWO32 then MemoryTooLittle
    else if 1 > c.tCost then TimeTooSmall
    else if U32_MAX < c.tCost then TimeTooLarge
    else if 1 > c.lanes then LanesTooFew
    else if MAX_LANES < c.lanes then LanesTooMany
    else if 1 > c.threads then ThreadsTooFew
    else if MAX_THREADS < c.threads then ThreadsTooMany
    else if c.hasAllocate && !c.hasFree then FreeMemoryCbkNull
    else if !c.hasAllocate && c.hasFree then AllocateMemoryCbkNull
    else Ok
  }

  /** The accepted contexts, as the limits of the interface describe them. */
  predicate ValidContext(c: Context) {
    && c.out.Bytes? && MIN_OUTLEN <= |c.out.data| <= U32_MAX
    && c.salt.Bytes? && MIN_SALT_LENGTH <= |c.salt.data| <= U32_MAX
    && ValidOptional(c.pwd) && ValidOptional(c.secret) && ValidOptional(c.ad)
    && 1 <= c.lanes <= MAX_LANES && 1 <= c.threads <= MAX_THREADS
    && 1 <= c.tCost <= U32_MAX
    && 8 * c.lanes <= c.mCost <= U32_MAX
    && c.hasAllocate == c.hasFree
  }

  predicate ValidOptional(b: Buffer) {
    if b.Null? then b.len == 0 else |b.data| <= U32_MAX
  }

  /** Wrap-around of `8 * lanes` never lets a context through. */
  lemma ValidateInputsExact(c: Context)
    ensures ValidateInputs(c) == Ok <==> ValidContext(c)
  {
  }

  predicate LengthWithoutData(b: Buffer) { b.Null? && b.len > 0 }

  predicate TooLong(b: Buffer) { b.Len() > 0xFFFF_FFFF }

  /** Every code names a fault that the context has, and memory, time, lanes and
      threads are only looked at when the buffers are in order. */
  lemma CodeNamesFault(c: Context)
    ensures match ValidateInputs(c)
            case Ok => ValidContext(c)
            case OutputPtrNull => c.out.Null?
            case OutputTooShort => c.out.Bytes? && c.out.Len() < 4
            case OutputTooLong => c.out.Bytes? && TooLong(c.out)
            case PwdPtrMismatch => LengthWithoutData(c.pwd)
            case PwdTooLong => c.pwd.Bytes? && TooLong(c.pwd)
            case SaltPtrMismatch => LengthWithoutData(c.salt)
            case SaltTooShort => c.salt.Len() < 8
            case SaltTooLong => c.salt.Bytes? && TooLong(c.salt)
            case SecretPtrMismatch => LengthWithoutData(c.secret)
            case SecretTooLong => c.secret.Bytes? && TooLong(c.secret)
            case AdPtrMismatch => LengthWithoutData(c.ad)
            case AdTooLong => c.ad.Bytes? && TooLong(c.ad)
            case MemoryTooLittle => BuffersInOrder(c) && (c.mCost < 8 || c.mCost < 8 * c.lanes)
            case MemoryTooMuch => BuffersInOrder(c) && c.mCost > 0xFFFF_FFFF
            case TimeTooSmall => BuffersInOrder(c) && c.tCost == 0
            case TimeTooLarge => BuffersInOrder(c) && c.tCost > 0xFFFF_FFFF
            case LanesTooFew => BuffersInOrder(c) && c.lanes == 0
            case LanesTooMany => BuffersInOrder(c) && c.lanes > 0xFF_FFFF
            case ThreadsTooFew => BuffersInOrder(c) && c.threads == 0
            case ThreadsTooMany => BuffersInOrder(c) && c.threads > 0xFF_FFFF
            case FreeMemoryCbkNull => BuffersInOrder(c) && c.hasAllocate && !c.hasFree
            case AllocateMemoryCbkNull => BuffersInOrder(c) && !c.hasAllocate && c.hasFree
            case _ => false
  {
  }

  predicate BuffersInOrder(c: Context) {
    && c.out.Bytes? && 4 <= |c.out.data| <= 0xFFFF_FFFF && c.salt.Bytes? && 8 <= |c.salt.data| <= 0xFFFF_FFFF
    && ValidOptional(c.pwd) && ValidOptional(c.secret) && ValidOptional(c.ad)
  }

  // ------------------------------------------------------------ geometry

  /** Builds a block from the previous one, the reference block, and the present
      one, which is added if asked for. */
  type Compression = (FillBlock.Block, FillBlock.Block, FillBlock.Block, bool) -> FillBlock.Block

  /** The instance, with the compression function it is filled by. */
  datatype Instance = Instance(
    version: nat, passes: nat, memoryBlocks: nat, segmentLength: nat,
    laneLength: nat, lanes: nat, threads: nat, kind: Argon2Type, compress: Compression)

  predicate ValidInstance(inst: Instance) {
    && 1 <= inst.lanes <= MAX_LANES
    && 2 <= inst.segmentLength
    && inst.laneLength == SYNC_POINTS * inst.segmentLength
    && inst.memoryBlocks == inst.lanes * inst.laneLength < TWO32
    && 1 <= inst.threads <= inst.lanes
    && 1 <= inst.passes < TWO32
  }

  /** Steps 1 and 2 of `argon2_ctx`, in 32-bit arithmetic. */
  method BuildInstance(c: Context, kind: Argon2Type) returns (code: Code, inst: Instance)
    ensures code == ValidateInputs(c)
    ensures code == Ok ==>
      && ValidInstance(inst)
      && inst.memoryBlocks <= c.mCost < inst.memoryBlocks + SYNC_POINTS * c.lanes
      && inst.lanes == c.lanes && inst.passes == c.tCost && inst.version == c.version && inst.kind == kind
      && inst.threads == (if c.threads < c.lanes then c.threads else c.lanes)
      && inst.laneLength == 4 * inst.segmentLength && inst.memoryBlocks == inst.lanes * inst.laneLength
      && inst.compress == FillBlock.Compress
  {
    hide ValidateInputs, FillBlock.Compress;
    code := ValidateInputs(c);
    inst := Instance(0, 0, 0, 0, 0, 0, 0, kind, FillBlock.Compress);
    if code != Ok {
      return;
    }
    ValidateInputsExact(c);
    var memoryBlocks, segmentLength := AlignMemory(c.mCost, c.lanes);
    inst := Instance(c.version, c.tCost, memoryBlocks, segmentLength,
                     (segmentLength * SYNC_POINTS) % TWO32, c.lanes, c.threads, kind, FillBlock.Compress);
    if inst.threads > inst.lanes {
      inst := inst.(threads := inst.lanes);
    }
  }

  /** Step 2: segments of equal length. */
  method AlignMemory(mCost: nat, lanes: nat) returns (memoryBlocks: nat, segmentLength: nat)
    requires 1 <= lanes <= MAX_LANES && 8 * lanes <= mCost <= U32_MAX
    ensures 2 <= segmentLength && segmentLength * SYNC_POINTS < TWO32
    ensures memoryBlocks == lanes * (SYNC_POINTS * segmentLength)
    ensures memoryBlocks <= mCost < memoryBlocks + SYNC_POINTS * lanes
  {
    hide Times32;
    SmallProducts(lanes);
    var blocks: int, minimum: int := mCost, Times32(2 * SYNC_POINTS, lanes);
    if blocks < minimum {
      blocks := minimum;
    }
    var perLane := Times32(lanes, SYNC_POINTS);
    segmentLength := blocks / perLane;
    Aligned(mCost, lanes, perLane, segmentLength);
    memoryBlocks := Times32(segmentLength, perLane);
  }

  /** A product of unsigned 32-bit numbers. */
  function Times32(a: nat, b: nat): nat { (a * b) % TWO32 }

  lemma SmallProducts(lanes: nat)
    requires lanes <= MAX_LANES
    ensures Times32(2 * SYNC_POINTS, lanes) == 8 * lanes
    ensures Times32(lanes, SYNC_POINTS) == 4 * lanes
  {
  }

  lemma Aligned(mCost: nat, lanes: nat, perLane: nat, segmentLength: nat)
    requires 1 <= lanes <= MAX_LANES && 8 * lanes <= mCost <= U32_MAX
    requires perLane == 4 * lanes && segmentLength == mCost / perLane
    ensures 2 <= segmentLength && segmentLength * SYNC_POINTS < TWO32
    ensures var blocks := Times32(segmentLength, perLane);
            blocks == lanes * (SYNC_POINTS * segmentLength) && blocks <= mCost < blocks + SYNC_POINTS * lanes
  {
    LargestMultiple(mCost, perLane);
    LaneProduct(lanes, segmentLength);
    ModSmall(segmentLength * perLane, TWO32);
  }

  lemma LargestMultiple(n: nat, d: nat)
    requires d > 0 && 2 * d <= n
    ensures 2 <= n / d && (n / d) * d <= n < (n / d) * d + d
  {
  }

  lemma LaneProduct(lanes: nat, segmentLength: nat)
    requires lanes >= 1
    ensures segmentLength * (lanes * SYNC_POINTS) == lanes * (segmentLength * SYNC_POINTS)
    ensures segmentLength * SYNC_POINTS <= segmentLength * (lanes * SYNC_POINTS)
  {
    assert segmentLength * (lanes * SYNC_POINTS) == (segmentLength * SYNC_POINTS) * lanes;
    assert (segmentLength * SYNC_POINTS) * 1 <= (segmentLength * SYNC_POINTS) * lanes;
  }
}
