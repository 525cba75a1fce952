# Verified models of the Bartimaeus server's hard parts

The repository is a login server with a screening router in front of it. What it
rests on is partly vendored (the Argon2 reference implementation, PicoSHA2,
cpp-httplib) and partly its own (a connection pool, a login limiter, packet
rewriting). This project models the parts of that code whose correctness is not
visible from one function body, in Dafny, and proves what they are for.

| files | what they model |
|---|---|
| `Argon2Params`, `ReferenceIndex` | the memory geometry of Argon2 and the choice of reference blocks, against RFC 9106 section 3.4.2 |
| `BlakeRound`, `FillBlock`, `FillSegment` | the block compression and segment filling, as `ref.c` writes them and as the 128-bit form of `opt.c` writes them; both are proved against one specification, so they are equal |
| `ParallelFill`, `ThreadedFill` | the sequential fill loops, and every schedule of the threaded ones |
| `Base64`, `HashString` | the Argon2 hash strings: codec, printer, parser, exact length |
| `Blake2b`, `Sha256` | streaming hashing, for any compression function |
| `ConnectionPool` | borrowers and the background healer of the database pool, interleaved |
| `LoginLimiter` | the login limiter, its sweeper, and the handler that drives it |
| `Checksum` | Internet checksums and the two forwarding directions of the router |
| `Multipart`, `Ranges` | the streaming search of cpp-httplib's multipart parser, and its check of byte ranges |
| `Arith`, `Common` | arithmetic and small types that the other files need |

`dafny verify dfyconfig.toml` checks everything.

## How the model relates to the code

Loops over arrays and objects stay loops over arrays and objects. Each method is
proved against a function of its inputs or of the old state, and the promises are
lemmas about those functions. Integer widths are explicit: 32-bit products and
sums in `index_alpha` and `validate_inputs`, the never-cleared 32-bit
accumulators of Base64, the two-word BLAKE2b counter, the 16-bit digits of
PicoSHA2, the 32-bit checksum sum. `unsigned long`, `size_t` and `word_t` have 64
bits, as on the platform the server is built for, and the router's machine is
little-endian.

Concurrency is a state machine over atomic steps. For Argon2 a step is one create
or join of the main thread, or one of the three accesses with which a lane thread
builds a block: it takes the random word, reads the reference block, and later
writes the new block. In the pool a step is one critical section, or one thing
done between two of them.

An Argon2 instance carries the compression function it is filled by. `argon2_ctx`
gives it that of RFC 9106, and the two forms of `fill_segment` are proved for it;
the results about lanes and threads use nothing about it and hold for any.

Clocks are parameters. `recordFailure` reads the clock a second time when it
starts a lockout, so a failure carries two readings.

Where properties needed a condition, or code and documents differ:

* `argon2_verify` refuses any string longer than 2^32-1 characters, so a printed
  hash with an enormous salt or output is not read back. `VerifyReadsPrinted`
  states this as an if-and-only-if, and `LongSaltIsRefused` names a valid context
  on the refused side.
* `argon2_encodedlen` counts the digits of the current version. `EncodedLenIsExact`
  shows that it is exact for a context if and only if that context's version has
  two digits, which 16 and 19 have.
* The limiter's answer is always the whole seconds to the end of the last lockout
  that started since the last success (`AnswerIsHistory`). That is the answer of
  the latest run of failures alone if and only if that run has five failures or the
  older lockout has less than a second to go (`WhenLatestRunDecides`), which is so
  whenever the two clock readings of each failure lie less than 31 s apart
  (`PromptAnswer`), in particular when the clock is read once.
  `SlowReadingBreaksTheFormula` shows a run with readings 31 s apart where it is
  not so. That sweeping is invisible, and the limit of five failures in 29 s, need
  no such condition.
* The 32-bit sum of `calculate_checksum` may wrap, but only for data longer than
  128 KiB; the contract of `CalculateChecksum` says what is returned in both cases.
* `range_error` rewrites a range without first and last position one byte too long
  and so always rejects it, and it rejects a suffix longer than the content
  although section 14.1.2 of RFC 9110 would serve the whole content. `WhichFit`
  lists exactly which ranges pass.
* docs/ARCHITECTURE.md:164-165 describes five reconnection attempts and slots that
  are lost for good; the code makes one attempt and has a healer. The model
  follows the code.

## Model

| member | source | states |
|---|---|---|
| Argon2Params.ValidateInputsExact | 3rdparty/argon2/src/core.c:388-513 | The checks accept exactly the contexts within the published limits: the 32-bit wrap of eight times the lanes never admits another one, since the lane limit is checked too |
| Argon2Params.CodeNamesFault | 3rdparty/argon2/src/core.c:388-513 | Every error code names a fault that the context has, and memory, time, lanes and threads are only reported when the buffers are in order |
| Argon2Params.BuildInstance | 3rdparty/argon2/src/argon2.c:39-77 | Rejected contexts get the code of the failing check; an accepted one gets four equal segments of at least two blocks in every lane, the largest such memory not above the requested cost, without 32-bit overflow, no more threads than lanes, and the compression function of RFC 9106 |
| ReferenceIndex.ReferenceAreaSize | 3rdparty/argon2/src/core.c:206-235 | The branch-by-branch count, with its unsigned wrap for the block opening a segment, is the number of steps between the oldest and the latest block of the RFC's reference set |
| ReferenceIndex.StartPosition | 3rdparty/argon2/src/core.c:244-251 | The column of the oldest block of the set |
| ReferenceIndex.SkewedPosition | 3rdparty/argon2/src/core.c:237-242 | The 64-bit products do not overflow and the result is inside the set, counted back from its latest block |
| ReferenceIndex.IndexAlpha | 3rdparty/argon2/src/core.c:189-257 | Returns the column at which the chosen step of the reference set was built, the sum not wrapping in 64 bits |
| ReferenceIndex.AreaFacts | 3rdparty/argon2/src/core.c:206-235 | The reference set is never empty and smaller than a lane at every valid position |
| ReferenceIndex.ReferenceIsInWindow | 3rdparty/argon2/src/core.c:189-257 | Every 32-bit random value picks a column of the lane that was built between the oldest and the latest step of the set |
| ReferenceIndex.BuiltAtInjective | 3rdparty/argon2/src/core.c:244-256 | No two columns of a lane were built at the same step, so the step determines the block |
| ReferenceIndex.ReferenceIsSafe | 3rdparty/argon2/src/core.c:189-257 | Never the current or the previous block of the own lane, never a block of the segment another lane is filling, and in the first pass only a block that exists |
| ReferenceIndex.ChoiceByAge | 3rdparty/argon2/src/core.c:206-256 | The block chosen is the `y`-th before the youngest of the reference set, with `x` and `y` the truncated products of RFC 9106 section 3.4.1.2, the size of the set and the gap before it in plain arithmetic |
| ReferenceIndex.WindowIsExact | 3rdparty/argon2/src/core.c:190-235 | The reference set leaves out exactly the blocks that may not be read or do not exist yet |
| BlakeRound.BlakeRoundNoMsg | 3rdparty/argon2/src/blake2/blamka-round-ref.h:43-54 | The in-place macro computes the permutation P: columns, then diagonals |
| BlakeRound.MixWords | 3rdparty/argon2/src/blake2/blamka-round-ref.h:31-41 | The macro G on four words |
| BlakeRound.KnownRound | 3rdparty/argon2/src/blake2/blamka-round-ref.h:25-54 | The sixteen words that the round makes of 0 to 15 |
| BlakeRound.RotationsAgree | 3rdparty/argon2/src/blake2/blamka-round-opt.h:36-50 | Swapping halves, the two byte shuffles, and shift-and-double are the rotations by 32, 24, 16 and 63 |
| BlakeRound.ProductsAgree | 3rdparty/argon2/src/blake2/blamka-round-opt.h:59-62 | The vector multiply-add is the scalar one in each lane, modulo 2^64 |
| BlakeRound.G1 | 3rdparty/argon2/src/blake2/blamka-round-opt.h:64-83 | Both lanes go through the first half of G |
| BlakeRound.G2 | 3rdparty/argon2/src/blake2/blamka-round-opt.h:85-104 | Both lanes go through the second half of G |
| BlakeRound.BlakeRound128 | 3rdparty/argon2/src/blake2/blamka-round-opt.h:107-180 | The diagonalised round on eight registers leaves exactly the sixteen words of the scalar round, in place |
| FillBlock.PrefixStep | 3rdparty/argon2/src/ref.c:55-77 | Permuting one more row (or column) in place extends the permuted prefix and disturbs no other group, because groups do not overlap |
| FillBlock.RowAndColumn | 3rdparty/argon2/src/ref.c:57-77 | The sixteen words of a row and of a column are those the two loops list |
| FillBlock.RowsThenColumns | 3rdparty/argon2/src/ref.c:55-77 | The permutation of a block has every row permuted first and then every column of the outcome |
| FillBlock.PresentBlockAdded | 3rdparty/argon2/src/ref.c:44-80 | The present block matters only when it is added, and is then added word by word to what is built without it |
| FillBlock.PermuteInPlace | 3rdparty/argon2/src/ref.c:55-77 | Eight in-place rounds permute every row (or column) of the block and nothing else |
| FillBlock.FillBlockRef | 3rdparty/argon2/src/ref.c:39-81 | The new block is the compression of RFC 9106 section 3.5, with the old block added when asked |
| FillBlock.XorBlock | 3rdparty/argon2/src/core.c:66-71 | In-place XOR of a block |
| FillBlock.GatheredRegisters | 3rdparty/argon2/src/opt.c:129-139 | The eight registers a vector round takes hold the sixteen words of one row or column, in order |
| FillBlock.ScatteredRegisters | 3rdparty/argon2/src/opt.c:129-139 | Putting the eight result registers back permutes that row or column alone |
| FillBlock.PermuteRegisters | 3rdparty/argon2/src/opt.c:129-139 | Eight vector rounds on the register array permute the same rows or columns as the scalar rounds do |
| FillBlock.FillBlockOpt | 3rdparty/argon2/src/opt.c:110-145 | The same block as the reference form for the previous block held in `state`, and `state` afterwards holds the new block |
| FillSegment.NextAddresses | 3rdparty/argon2/src/ref.c:83-88 | Counts the input block up and gives the address block for the new counter |
| FillSegment.CompressFromZero | 3rdparty/argon2/src/opt.c:148-172 | One call of the vector compression from a zeroed state is the compression with a zero previous block |
| FillSegment.TakePseudoRand | 3rdparty/argon2/src/ref.c:151-160 | The random word of the position: from the generated addresses, refreshed every 128 indices, or from the previous block |
| FillSegment.RandomWordSource | 3rdparty/argon2/src/ref.c:104-107 | Argon2i at every position, and Argon2id in the first two slices of the first pass, take the same random word from any two memories; all else takes word 0 of the previous block |
| FillSegment.GeneratedWord | 3rdparty/argon2/src/ref.c:109-157 | A generated word is the right one of two compressions over zero of a block holding place, geometry, type and a count that starts at one and rises every 128 words |
| FillSegment.HalvesChoose | 3rdparty/argon2/src/ref.c:162-179 | The high half of the random word chooses the lane, the low half the block |
| FillSegment.PreviousIsLatest | 3rdparty/argon2/src/ref.c:132-149 | The previous block is at the column one before the current one, round the lane |
| FillSegment.LaterPassesAdd | 3rdparty/argon2/src/ref.c:181-192 | The new block is added to the old one exactly after the first pass and unless the version is 16 |
| FillSegment.FillSegmentRef | 3rdparty/argon2/src/ref.c:90-194 | The memory afterwards is that of building the segment's blocks one after the other by the step function; nothing else changes |
| FillSegment.FillSegmentOpt | 3rdparty/argon2/src/opt.c:174-283 | Exactly the memory of the reference form, for every instance, position and memory, although the previous block is carried in registers |
| FillSegment.BuildBlockOpt | 3rdparty/argon2/src/opt.c:253-281 | Builds the same block as the specification's step, and keeps `state` equal to the block at the next previous offset |
| ParallelFill.FillMemoryBlocksSt | 3rdparty/argon2/src/core.c:260-275 | The three nested loops fill the memory pass by pass, slice by slice, lane by lane |
| ParallelFill.LaneFrame | 3rdparty/argon2/src/ref.c:132-193 | A lane filling its segment writes nothing outside that segment |
| ParallelFill.SegmentContents | 3rdparty/argon2/src/ref.c:121-193 | Filling a segment builds every one of its blocks once, from the memory with all earlier ones built; only the first two of a lane are given |
| ParallelFill.OwnReadsAgree | 3rdparty/argon2/src/ref.c:151-160 | However far the other lanes are, a thread finds the previous block, the present block and the random word it would find alone |
| ParallelFill.ReferenceAgrees | 3rdparty/argon2/src/ref.c:162-180 | However far the other lanes are, the reference block is the one it would read alone: no other thread of the slice is writing it |
| ParallelFill.ReadsAgree | 3rdparty/argon2/src/ref.c:121-175 | However far the other lanes of the slice are, a lane builds the block it would build alone |
| ParallelFill.StepAdvances | 3rdparty/argon2/src/ref.c:132-193 | A block step from the merge of all lanes' progress leads to the merge with that lane one block further |
| ParallelFill.FinishedSlice | 3rdparty/argon2/src/core.c:260-275 | Once all lanes are done the merge is the memory the sequential loop over the lanes leaves |
| ThreadedFill.WorkAdvances | 3rdparty/argon2/src/ref.c:151-193 | Each of the three accesses with which a thread builds a block finds or writes what it would alone, whatever the other lanes did between its accesses |
| ThreadedFill.ThreeAccesses | 3rdparty/argon2/src/ref.c:151-193 | Undisturbed, the three accesses are one step of `fill_segment` |
| ThreadedFill.KeepsInv | 3rdparty/argon2/src/core.c:311-357 | Every step of the main thread or of a lane thread keeps: threads created and joined as the main thread's place says, memory the merge of the lanes' runs, half-built blocks read from it rightly, and the sequential result still ahead |
| ThreadedFill.Barrier | 3rdparty/argon2/src/core.c:350-357 | When a slice ends every thread of it has finished and been joined exactly once, and the memory is the sequential one |
| ThreadedFill.AnySchedule | 3rdparty/argon2/src/core.c:292-372 | For every schedule: no thread is joined twice or before it is done, at most `threads` are unjoined, none at the end of a slice, and the memory after the last pass is that of the sequential fill |
| ThreadedFill.UnjoinedIsCount | 3rdparty/argon2/src/core.c:316-356 | The number bounded by `threads` is that of the created and unjoined threads |
| ThreadedFill.OnlyJoinsWait | 3rdparty/argon2/src/core.c:316-356 | A created thread with blocks left may always go on, and the main thread waits for nothing but the thread it joins |
| ThreadedFill.StepMeasure | 3rdparty/argon2/src/core.c:311-357 | Every step uses up some of a bound that never becomes negative |
| ThreadedFill.RunsAreBounded | 3rdparty/argon2/src/core.c:311-357 | No schedule is longer than a bound given by lanes, segments and passes |
| ThreadedFill.NeverStuck | 3rdparty/argon2/src/core.c:316-356 | Until the last pass is done some step is possible in every reachable state: joins cannot deadlock |
| ThreadedFill.EveryRunCompletes | 3rdparty/argon2/src/core.c:311-357 | Every run, however far it has come, can be continued to the end of the last pass |
| Base64.Alphabet | 3rdparty/argon2/src/encoding.c:70-89 | The mask arithmetic spells out the alphabet of RFC 4648 section 4 |
| Base64.CharInverse | 3rdparty/argon2/src/encoding.c:83-102 | Every six-bit value is recovered from its character |
| Base64.ValueInverse | 3rdparty/argon2/src/encoding.c:83-102 | Every accepted character code of 0 to 255 is the one its value prints as |
| Base64.DecodeEncoded | 3rdparty/argon2/src/encoding.c:112-200 | Decoding the text of any byte string gives it back |
| Base64.EncodeDecoded | 3rdparty/argon2/src/encoding.c:161-200 | Any accepted text is exactly the one its bytes print as |
| Base64.GroupBits | 3rdparty/argon2/src/encoding.c:112-146 | Four characters carry the 24 bits of three bytes in order, a missing byte counting as zero |
| Base64.FewestCharacters | 3rdparty/argon2/src/encoding.c:440-453 | The character count is the smallest that holds the bytes |
| Base64.Base64Length | 3rdparty/argon2/src/encoding.c:440-453 | The number of characters for a number of bytes |
| Base64.ToBase64 | 3rdparty/argon2/src/encoding.c:112-146 | Succeeds exactly when text and final zero fit; then writes exactly the text, though the accumulator is never cleared; touches nothing else |
| Base64.FromBase64 | 3rdparty/argon2/src/encoding.c:161-200 | Accepts exactly a canonical run of alphabet characters that fits the capacity, decodes it, stops at its end, and writes nothing further |
| HashString.ValueOfDec | 3rdparty/argon2/src/encoding.c:209-236 | Printed decimals are minimal and read back |
| HashString.DecOfValue | 3rdparty/argon2/src/encoding.c:209-236 | A minimal run of digits is the one its value prints as |
| HashString.DecodeDecimal | 3rdparty/argon2/src/encoding.c:209-236 | Accepts exactly a minimal number below 2^64, the digit-by-digit overflow tests rejecting exactly the others |
| HashString.NumberOfDec | 3rdparty/argon2/src/encoding.c:209-236 | A printed number is read back if and only if it is below 2^64 |
| HashString.NumLen | 3rdparty/argon2/src/encoding.c:455-462 | Counts the digits that printing takes |
| HashString.EncodeString | 3rdparty/argon2/src/encoding.c:373-438 | On a valid context succeeds exactly when the string and its zero fit, and then writes exactly that string and leaves the rest of the buffer; otherwise reports which check failed |
| HashString.PrintedLayout | 3rdparty/argon2/src/encoding.c:415-432 | The printed string is `$`, the type's name, `$v=`, `$m=`, `,t=`, `,p=` and `$` around the six fields in their order, character for character |
| HashString.DigitsRead | 3rdparty/argon2/src/encoding.c:386-391 | Digits print as the characters 0 to 9 |
| HashString.Argon2EncodedLen | 3rdparty/argon2/src/argon2.c:447-452 | The sum of the lengths of the parts |
| HashString.EncodedLenIsExact | 3rdparty/argon2/src/argon2.c:447-452 | That sum is the printed length with its zero if and only if the version has two digits |
| HashString.ParseThen | 3rdparty/argon2/src/encoding.c:258-371 | Parsing a printed string, or the older form for version 16, recovers all six fields and leaves what comes after it, for any fields that fit the capacities |
| HashString.ParsePrinted | 3rdparty/argon2/src/encoding.c:258-371 | In particular a printed string alone is parsed whole |
| HashString.ParseSound | 3rdparty/argon2/src/encoding.c:258-371 | Whatever is accepted is the printed form of the fields found, or for version 16 the older form without version |
| HashString.ParseOtherType | 3rdparty/argon2/src/encoding.c:320-327 | A string printed for one type is never accepted for another, although one type name is a prefix of another |
| HashString.DecodeString | 3rdparty/argon2/src/encoding.c:258-371 | Pointer-advancing decoding accepts and rejects as the parser does, reports a failed input check before trailing characters, and leaves the parsed context |
| HashString.DecodeOutcome | 3rdparty/argon2/src/encoding.c:346-370 | A printed string with something after it reports a failed input check first, and only then the rest |
| HashString.VerifyDecode | 3rdparty/argon2/src/argon2.c:249-292 | The length limits, and decoding with as much room for salt and output as the string is long |
| HashString.VerifyReadsPrinted | 3rdparty/argon2/src/argon2.c:249-292 | For every valid context verification recovers what `encode_string` printed if and only if the string has at most 2^32-1 characters |
| HashString.LongSaltIsRefused | 3rdparty/argon2/src/argon2.c:268-271 | A valid context with a salt of 2^32-1 bytes prints a longer string, and verification refuses it |
| HashString.VerifyRejectsOtherType | 3rdparty/argon2/src/argon2.c:249-292 | Verifying under either other type fails to decode |
| HashString.VerifyAcceptsOnlyPrinted | 3rdparty/argon2/src/argon2.c:249-292 | Anything verification decodes is a printed form of a valid context, whole |
| Blake2b.UpdatesJoin | 3rdparty/argon2/src/blake2/blake2b.c:224-262 | Two updates leave the chaining value, counter and buffered bytes of one update on both inputs joined |
| Blake2b.TickCounts | 3rdparty/argon2/src/blake2/blake2b.c:57-61 | The two words with their carry count modulo 2^128 |
| Blake2b.StateAfter | 3rdparty/argon2/src/blake2/blake2b.c:224-262 | After any message the counter is 128 times the blocks compressed, and after a nonempty one 1 to 128 bytes are buffered |
| Blake2b.AnyChunking | 3rdparty/argon2/src/blake2/blake2b.c:224-292 | For every cutting of a message the digest is the one RFC 7693 section 3.3 gives for the whole message |
| Blake2b.HashFromFront | 3rdparty/argon2/src/blake2/blake2b.c:224-292 | That digest once more, block by block from the front, with the counters and flags of every compression in numbers |
| Blake2b.KeyedFromFront | 3rdparty/argon2/src/blake2/blake2b.c:119-164 | With a key: the keyed start, and the key as one zero-padded block before the message |
| Blake2b.State.constructor | 3rdparty/argon2/src/blake2/blake2b.c:73-117 | An empty buffer, counter zero, the chaining value of the output length |
| Blake2b.State.IncrementCounter | 3rdparty/argon2/src/blake2/blake2b.c:57-61 | Adds to the low word, with the carry |
| Blake2b.State.Update | 3rdparty/argon2/src/blake2/blake2b.c:224-262 | The buffer-filling loop, which keeps the last block back, changes the state as the update function says; a finished state is refused |
| Blake2b.State.Final | 3rdparty/argon2/src/blake2/blake2b.c:264-292 | Refuses a short output or a second call without change; otherwise zero-pads, flags and counts the last block and gives the digest |
| Blake2b.OneShot | 3rdparty/argon2/src/blake2/blake2b.c:294-330 | The one-call form gives the RFC's digest, a key counting as one padded block before the message, and refuses exactly an output length that is not 1 to 64 or a key longer than 64 |
| Blake2b.HPrimeLength | 3rdparty/argon2/src/blake2/blake2b.c:333-385 | H' has the requested length, its last piece 33 to 64 bytes when that exceeds 64 |
| Blake2b.LE32Weighs | 3rdparty/argon2/src/blake2/blake2b.c:344 | The length prefix is the four bytes that weigh 1, 256, 65536 and 16777216, and no others |
| Blake2b.HPrimePieces | 3rdparty/argon2/src/blake2/blake2b.c:352-384 | H' piece by piece: a hash chain that starts from prefix and input, 32 bytes of each link, and the last, shorter link whole |
| Blake2b.Blake2bLong | 3rdparty/argon2/src/blake2/blake2b.c:333-389 | For 1 to 2^32-1 bytes writes exactly H' of RFC 9106 section 3.3 and nothing beyond it; refuses other lengths without writing |
| Sha256.ZeroCountIsSmallest | 3rdparty/picosha2/picosha2.h:223-229 | The zeros written in the one-block and the two-block case are the fewest that fill the last block |
| Sha256.PaddingFields | 3rdparty/picosha2/picosha2.h:205-233 | The padding is 0x80, zeros, and eight bytes that weigh eight times the length modulo 2^64, and fills the last block |
| Sha256.BigEndianWeighs | 3rdparty/picosha2/picosha2.h:274-278 | Bytes written most significant first weigh the number |
| Sha256.CompressJoin | 3rdparty/picosha2/picosha2.h:193-203 | Compressing whole blocks first and the rest later is compressing all at once |
| Sha256.Hasher.AddToDataLength | 3rdparty/picosha2/picosha2.h:246-258 | The four digits, with an early stop of the carry loop and a 64-bit first digit that may wrap, hold the byte count modulo 2^64 |
| Sha256.Hasher.Process | 3rdparty/picosha2/picosha2.h:193-203 | The hasher that held a message holds that message with the input appended |
| Sha256.Hasher.ShiftDigits | 3rdparty/picosha2/picosha2.h:259-272 | The digits of eight times the count, modulo 2^64 |
| Sha256.Hasher.WriteDataBitLength | 3rdparty/picosha2/picosha2.h:259-279 | Writes the bit count big-endian into the last eight bytes and leaves the others |
| Sha256.Hasher.Finish | 3rdparty/picosha2/picosha2.h:205-233 | The final value is that of compressing the whole message followed by its FIPS 180-4 section 5.1.1 padding |
| Sha256.ShiftedValue | 3rdparty/picosha2/picosha2.h:264-272 | Shifting digit by digit with carries multiplies the number by eight |
| Sha256.BigEndianDigits | 3rdparty/picosha2/picosha2.h:274-278 | The digits' bytes from the last digit down are the number big-endian |
| Sha256.HashChunks | 3rdparty/picosha2/picosha2.h:182-233 | Every cutting of a message into `process` calls gives the padded hash of the whole message |
| ConnectionPool.DbManager.constructor | src/services/db_manager.hpp:107-132 | The pool holds the successful connections in order, is full unless ten attempts failed, and `cur_conns` is its size |
| ConnectionPool.DbManager.GetConnection | src/services/db_manager.hpp:169-196 | The critical section: nothing and no change on an empty pool; else the last idle handle, a reconnected one, or none with `cur_conns` one less |
| ConnectionPool.DbManager.ReleaseConnection | src/services/db_manager.hpp:199-206 | A null handle changes nothing, another one is appended |
| ConnectionPool.DbManager.HealerAdds | src/services/db_manager.hpp:86-93 | The healer's second critical section appends and counts, without looking at the limit again |
| ConnectionPool.StepIsSection | src/services/db_manager.hpp:59-206 | Every step of the state machine has the effect of its critical section, the time-out that of an empty pool, and concerns one borrower at most |
| ConnectionPool.EveryOutcomePossible | src/services/db_manager.hpp:169-196 | A waiting borrower may find a live, a reconnected or a lost connection when one is idle and gives up only when none is; everyone else may always go on |
| ConnectionPool.StepKeepsInv | src/services/db_manager.hpp:59-206 | Every step of any borrower or of the healer keeps the invariant: handles counted, each open one in exactly one place, and room for the healer's connection whenever it is between its locks |
| ConnectionPool.AnyInterleaving | src/services/db_manager.hpp:59-206 | In every reachable state `cur_conns` is idle plus borrowed, every open connection is in exactly one place, and there are never more than `pool_size`, the healer's own included |
| ConnectionPool.NoSharing | src/services/db_manager.hpp:169-206 | Two borrowers never hold the same handle, and a held handle is not idle |
| ConnectionPool.ConnectionsCounted | src/services/db_manager.hpp:59-206 | In every run `cur_conns` grows by the healer's additions and shrinks by lost reconnections, and by nothing else |
| ConnectionPool.HealerRefills | src/services/db_manager.hpp:72-94 | In every run without a failed connection or a loss, whatever borrowers do in between, `cur_conns` is the old value plus the healer's checks, up to the pool size, less one while the healer holds the new connection back |
| ConnectionPool.HealerCanRefill | src/services/db_manager.hpp:72-94 | From every reachable state with a resting healer the missing rounds can run, fill the pool, disturb no borrower, and the next check adds nothing |
| LoginLimiter.Limiter.GetRemainingLockoutTime | src/services/login_limiter.hpp:35-59 | The answer, and the lazy erase of an expired entry |
| LoginLimiter.Limiter.RecordFailure | src/services/login_limiter.hpp:62-79 | The cooldown reset, the count, and the lockout from a second clock reading |
| LoginLimiter.Limiter.ResetAttempts | src/services/login_limiter.hpp:82-85 | Erases that user alone |
| LoginLimiter.Limiter.CleanupExpiredAttempts | src/services/login_limiter.hpp:88-99 | The erasing loop leaves exactly the entries that have not expired |
| LoginLimiter.ErasingInNumbers | src/services/login_limiter.hpp:44-50 | A check erases its user's entry, and a sweep everyone's, exactly when the lockout is past and 60 s have gone by; nothing else changes |
| LoginLimiter.FailureInNumbers | src/services/login_limiter.hpp:62-79 | A failure within 60 s counts on, a later one from one; the fifth and later ones lock for 30 s; other users are untouched |
| LoginLimiter.AnswerInNumbers | src/services/login_limiter.hpp:52-58 | The answer is the number of whole seconds left |
| LoginLimiter.AnswerIsHistory | src/services/login_limiter.hpp:35-85 | For every run with a clock that never goes back, the answer is a function of the failures since the last success: the whole seconds to the end of the last lockout they started, or 0 |
| LoginLimiter.WhenLatestRunDecides | src/services/login_limiter.hpp:35-85 | The answer is that of the latest run of failures with gaps below 60 s, namely the whole seconds left of 30 s after its last one if it has five or more and otherwise 0, if and only if it has five or more or no older lockout has a second to go |
| LoginLimiter.PromptAnswer | src/services/login_limiter.hpp:35-85 | The latest run alone decides whenever the two clock readings of each failure lie less than 31 s apart, as when the clock is read once |
| LoginLimiter.SlowReadingBreaksTheFormula | src/services/login_limiter.hpp:65-77 | A run with one second reading exactly 31 s after the first, where the latest run alone would answer 0 and the limiter answers 1 |
| LoginLimiter.CleanupIsInvisible | src/services/login_limiter.hpp:88-99 | Sweeps anywhere in a run change no later answer, although swept entries restart with other fields |
| LoginLimiter.OnlySweepsLeftOut | src/services/login_limiter.hpp:88-99 | The run compared with leaves out the sweeps and nothing else |
| LoginLimiter.HandleLogin | src/controllers/auth_controller.hpp:70-126 | A malformed request gives 400 and a locked user 429, recording nothing; for an admitted user a wrong password gives 401 and records a failure, a right one 200 and clears the entry, a database error 503 and neither |
| LoginLimiter.RequestInHistory | src/controllers/auth_controller.hpp:89-125 | A wrong password lengthens that user's history by one failure, a right one clears it, and a request changes no other history |
| LoginLimiter.HandlerIsOneAtATime | src/controllers/auth_controller.hpp:89-120 | Every failure the handler records follows its own admitting check, whatever happened before and for whichever user |
| LoginLimiter.FailuresAreSpread | src/services/login_limiter.hpp:52-78 | Every failure of a user whose requests are handled one at a time comes more than 29 s after the fifth failure before it, however late the second clock reading is |
| LoginLimiter.AtMostFivePerWindow | src/controllers/auth_controller.hpp:89-120 | No 29 s window without a successful login contains more than five recorded failures of a user whose requests are handled one at a time |
| LoginLimiter.CountWithinIsCount | src/controllers/auth_controller.hpp:113-118 | The number bounded by five is that of the failures in the window |
| Checksum.FoldClosed | ScreeningRouter/main.cpp:123-125 | Folding carries is the residue modulo 0xFFFF, with 0xFFFF for nonzero multiples |
| Checksum.CalculateChecksum | ScreeningRouter/main.cpp:109-128 | The complement of the folded sum; the 32-bit sum does not wrap up to 128 KiB |
| Checksum.SumsByteByByte | ScreeningRouter/main.cpp:110-121 | On a little-endian machine every second byte counts 256-fold, an odd last one once |
| Checksum.FieldPlaces | ScreeningRouter/main.cpp:141-183 | Where lengths and checksum fields lie in bytes, and what the transport checksum covers |
| Checksum.WhichPackets | ScreeningRouter/main.cpp:141-183 | Which packets the results are about, in numbers |
| Checksum.VerifiesToZero | ScreeningRouter/main.cpp:551-571 | Storing the checksum of data with a zeroed field at any even place makes the data sum to 0 again, also when 0xFFFF is stored for 0 |
| Checksum.ByteOrderIndependent | ScreeningRouter/main.cpp:109-128 | The little-endian word sum stores the same bytes as the network-order sum of RFC 1071 |
| Checksum.CalculateTransportChecksum | ScreeningRouter/main.cpp:141-183 | Zeroes the field and returns the checksum of pseudo-header and segment, for UDP with 0xFFFF in place of 0 |
| Checksum.WriteHeaderChecksum | ScreeningRouter/main.cpp:551-552 | The IP header verifies, and only its checksum field changed, whatever the packet carries |
| Checksum.RecalculateChecksums | ScreeningRouter/main.cpp:661-678 | IP header and TCP or UDP segment verify, and only checksum fields changed |
| Checksum.ForwardInbound | ScreeningRouter/main.cpp:536-571 | The packet leaves with router and proxy addresses, both checksums valid, and every other byte as it was |
| Checksum.ForwardOutbound | ScreeningRouter/main.cpp:631-678 | A TCP or UDP reply leaves with the recorded client as destination and valid checksums, or is dropped when none is recorded |
| Multipart.FirstIndexIsFirst | 3rdparty/cpp-httplib/httplib.h:4998-5019 | The search result is the first occurrence, or the window's length if there is none |
| Multipart.AnyCutting | 3rdparty/cpp-httplib/httplib.h:4904-4926 | For every cutting of the stream, exactly the bytes before the first mark are delivered once it has appeared; before that all but as many bytes as the mark has, as soon as there are that many |
| Multipart.MarkErased | 3rdparty/cpp-httplib/httplib.h:4907-4913 | When a call finds the mark, what was delivered, the mark and the unread bytes are the whole stream |
| Multipart.NothingLost | 3rdparty/cpp-httplib/httplib.h:4904-4926 | The same for every cutting of the stream up to that call |
| Multipart.BodyGrows | 3rdparty/cpp-httplib/httplib.h:4904-4926 | More input extends what must have been delivered, or leaves it |
| Multipart.DeliveredSoFar | 3rdparty/cpp-httplib/httplib.h:4904-4926 | What any front of the `parse` calls delivers is a prefix of what all of them deliver |
| Multipart.FoundStays | 3rdparty/cpp-httplib/httplib.h:4904-4926 | More input never moves a mark once found |
| Multipart.MultipartFormDataParser.BufFind | 3rdparty/cpp-httplib/httplib.h:4998-5019 | The first-character scan with its early exits finds the first occurrence |
| Multipart.MultipartFormDataParser.BufAppend | 3rdparty/cpp-httplib/httplib.h:5021-5037 | Compacting in place, resizing and copying appends the input to the unread bytes |
| Multipart.MultipartFormDataParser.Parse | 3rdparty/cpp-httplib/httplib.h:4904-4926 | One call in the body state delivers and keeps what the scan function says, and leaves the state once the mark is found |
| Ranges.WhichFit | 3rdparty/cpp-httplib/httplib.h:5149-5165 | What each form of range is rewritten to, a suffix to the last bytes of the content, and exactly which then lie in it |
| Ranges.RangeError | 3rdparty/cpp-httplib/httplib.h:5129-5182 | Accepts a nonempty list on a 2xx response exactly when it has at most 1024 ranges and they lie in the content, start in ascending order, and at most two reach back to an earlier one; on a rejection the list is rewritten up to the first range that does not fit in |
| Ranges.AcceptedIsCheap | 3rdparty/cpp-httplib/httplib.h:5129-5192 | Accepted ranges meet the asserts of the serving function, and their lengths sum to at most three times the content |
| Ranges.BoundIsMet | 3rdparty/cpp-httplib/httplib.h:5129-5192 | For every content of three bytes or more a request reaches three times its length but for three bytes |
| Ranges.GetRangeOffsetAndLength | 3rdparty/cpp-httplib/httplib.h:5184-5192 | Under the asserted conditions the piece is nonempty and inside the content |

## Left out

- AVX2 and AVX-512 forms of `opt.c` and `blamka-round-opt.h`, and the SSE2 fallback of the rotations: the same idea as the 128-bit form with more shuffling. The build uses `ref.c`; `opt.c` is modelled because it is the refinement.
- ThreadedFill.AnySchedule: one access to a whole block is atomic, so the words of a block are not read or written one by one; the blocks of one access are never written by another thread of the slice.
- The thread-creation failure path of `fill_memory_blocks_mt`, allocation failures, memory wiping, initial hashing, the first two blocks of a lane, and finalization.
- Argon2 types outside the three: an enumeration has no others here, so `ARGON2_INCORRECT_TYPE` does not occur.
- Blocks are values in the cells of the memory array, so pointers into a block do not exist here; `next_addresses`, which compresses its output block onto itself, reads the old value first, as the source's copies do.
- HashString.VerifyDecode: ends with the decoded context; hashing the password again and the constant-time comparison are not part of the model.
- Signed `char` codes above 127 in `from_base64`: the comparison macros state the domain 0 to 255.
- Base64.FromBase64: the bytes written before a failure are not specified.
- The compression functions of BLAKE2b and SHA-256, the initial values and the byte output of the chaining value: parameters, so the results hold for any.
- Null pointers in `blake2b`, and failures of the inner hashes in `blake2b_long`.
- Sha256.Hasher.Process: one call takes fewer than 2^64 bytes, which a 64-bit distance cannot exceed.
- Waiting and notification in the connection pool: that a waiting borrower is eventually served depends on the scheduler; a time-out is a step that an empty pool allows.
- Exceptions thrown while a connection is borrowed, and the pool's destructor.
- LoginLimiter.Limiter.RecordFailure: the failure count is unbounded; the source's `int` would need two thousand million failures with gaps below a minute.
- Time before the epoch: an entry that is created with default times counts as long ago.
- Session creation, cookies and response bodies in `handleLogin`.
- Sockets, ARP, the access list, logging and the NAT map of the router: the map lookup is a parameter of the outbound direction.
- Checksum.CalculateTransportChecksum: the received bytes hold the IP header and the segment that their length fields announce, and the segment reaches its checksum field (`Consistent`). The source does not check this; where it fails, the sum is taken over bytes that were not received or the field lies outside what is summed, and the model says nothing.
- Checksum.RecalculateChecksums: for the same packets, for the same reason.
- Checksum.ForwardInbound: for the same packets; for others only `WriteHeaderChecksum` speaks.
- Checksum.ForwardOutbound: as inbound.
- Multipart.MultipartFormDataParser.Parse: the callback accepts, and the initial boundary, header and epilogue states are not part of the model, since they depend on how chunks are cut.
- Ranges.RangeError: positions come from `parse_range_header`, so -1 is the only negative one, and 64-bit overflow cannot occur for content shorter than 2^63 bytes.
- JSON and HTML helpers, sessions, SQL, the reverse proxy, the client side and TLS of cpp-httplib, and all browser code.
