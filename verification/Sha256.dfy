/** The streaming SHA-256 of picosha2.h, for any compression function: however
    a message is cut, exactly its FIPS 180-4 section 5.1.1 padding is
    compressed, and the length counter of four 16-bit digits is exact. */
module Sha256 {
  import opened Common
  import opened Arith

  const BLOCK: nat := 64
  const DIGIT: nat := 0x1_0000
  const WORD: nat := 0x1_0000_0000_0000_0000

  type Bytes = seq<Byte>
  type Compression<!H> = (H, Bytes) -> H

  // ------------------------------------------------------------ FIPS 180-4

  /** The last `n` bytes of a number, most significant first. */
  function BigEndian(v: nat, n: nat): (b: Bytes)
    ensures |b| == n
  {
    if n == 0 then [] else BigEndian(v / 256, n - 1) + [v % 256]
  }

  /** The number of zero bytes between the marker and the length field. */
  function ZeroCount(n: nat): nat {
    if n % BLOCK <= 55 then 55 - n % BLOCK else 119 - n % BLOCK
  }

  /** It is the smallest that fills the last block. */
  lemma ZeroCountIsSmallest(n: nat, k: nat)
    requires (n + 1 + k + 8) % BLOCK == 0
    ensures (n + 1 + ZeroCount(n) + 8) % BLOCK == 0
    ensures ZeroCount(n) <= k
  {
  }

  function Padding(n: nat): Bytes {
    [0x80] + Repeated<Byte>(0, ZeroCount(n)) + BigEndian((8 * n) % WORD, 8)
  }

  /** The number that bytes stand for, the most significant first. */
  function Weighed(b: Bytes): nat {
    if b == [] then 0 else 256 * Weighed(b[..|b| - 1]) + b[|b| - 1]
  }

  function Power256(n: nat): nat { if n == 0 then 1 else 256 * Power256(n - 1) }

  lemma {:induction false} BigEndianWeighs(v: nat, n: nat)
    requires v < Power256(n)
    ensures Weighed(BigEndian(v, n)) == v
  {
    if n > 0 {
      BigEndianWeighs(v / 256, n - 1);
      var b := BigEndian(v, n);
      assert b[..|b| - 1] == BigEndian(v / 256, n - 1);
    }
  }

  /** FIPS 180-4 section 5.1.1 for bytes: a one bit and seven zeros, then zeros up
      to the last 64 bits of a block, which hold the message's length in bits. */
  lemma PaddingFields(n: nat)
    ensures var p := Padding(n);
            && (n + |p|) % 64 == 0 && 9 <= |p| <= 72
            && p[0] == 0x80
            && (forall i :: 0 < i < |p| - 8 ==> p[i] == 0)
            && Weighed(p[|p| - 8..]) == (8 * n) % 0x1_0000_0000_0000_0000
  {
    var bits := BigEndian((8 * n) % WORD, 8);
    EightBytes();
    BigEndianWeighs((8 * n) % WORD, 8);
    var p := Padding(n);
    assert p[|p| - 8..] == bits;
    hide BigEndian, Weighed, Power256;
    PaddingSize(n);
  }

  lemma EightBytes()
    ensures Power256(8) == WORD
  {
    assert Power256(4) == 0x1_0000_0000;
  }

  lemma PaddingSize(n: nat)
    ensures (n + 1 + ZeroCount(n) + 8) % 64 == 0 && ZeroCount(n) < 64
  {
  }

  function Compress<H>(f: Compression<H>, h: H, data: Bytes): H
    decreases |data|
  {
    if |data| < BLOCK then h else Compress(f, f(h, data[..BLOCK]), data[BLOCK..])
  }

  function Hash<H>(f: Compression<H>, h0: H, m: Bytes): H {
    Compress(f, h0, m + Padding(|m|))
  }

  lemma {:induction false} CompressJoin<H>(f: Compression<H>, h: H, a: Bytes, b: Bytes)
    requires |a| % BLOCK == 0
    ensures Compress(f, h, a + b) == Compress(f, Compress(f, h, a), b)
    decreases |a|
  {
    if |a| < BLOCK {
      assert a + b == b;
    } else {
      assert (a + b)[..BLOCK] == a[..BLOCK];
      assert (a + b)[BLOCK..] == a[BLOCK..] + b;
      CompressJoin(f, f(h, a[..BLOCK]), a[BLOCK..], b);
    }
  }

  lemma CompressStep<H>(f: Compression<H>, h: H, data: Bytes)
    requires |data| >= BLOCK
    ensures Compress(f, h, data) == Compress(f, f(h, data[..BLOCK]), data[BLOCK..])
  {
  }

  lemma CompressShort<H>(f: Compression<H>, h: H, data: Bytes)
    requires |data| < BLOCK
    ensures Compress(f, h, data) == h
  {
  }

  /** Bytes that fill no block do not matter yet. */
  lemma CompressTail<H>(f: Compression<H>, h: H, m: Bytes)
    ensures Compress(f, h, m) == Compress(f, h, m[..BLOCK * (|m| / BLOCK)])
  {
    hide Compress;
    var whole := BLOCK * (|m| / BLOCK);
    assert m == m[..whole] + m[whole..];
    CompressJoin(f, h, m[..whole], m[whole..]);
    CompressShort(f, Compress(f, h, m[..whole]), m[whole..]);
  }

  lemma WholeBlocks(done: nat, pending: nat)
    requires done % BLOCK == 0
    ensures BLOCK * ((done + pending) / BLOCK) == done + BLOCK * (pending / BLOCK)
  {
  }

  /** Compressing goes on with the bytes kept back and the new ones. */
  lemma MoreInput<H>(f: Compression<H>, h: H, m: Bytes, input: Bytes)
    ensures BLOCK * (|m| / BLOCK) <= |m|
    ensures var all, pending := m + input, m[BLOCK * (|m| / BLOCK)..] + input;
            && Compress(f, Compress(f, h, m), pending) == Compress(f, h, all)
            && BLOCK * (|pending| / BLOCK) <= |pending|
            && pending[BLOCK * (|pending| / BLOCK)..] == all[BLOCK * (|all| / BLOCK)..]
  {
    hide Compress;
    var done := BLOCK * (|m| / BLOCK);
    var pending := m[done..] + input;
    CompressTail(f, h, m);
    assert m + input == m[..done] + pending;
    CompressJoin(f, h, m[..done], pending);
    WholeBlocks(done, |pending|);
  }

  lemma CompressOne<H>(f: Compression<H>, h: H, block: Bytes)
    requires |block| == BLOCK
    ensures Compress(f, h, block) == f(h, block)
  {
    assert block[..BLOCK] == block;
  }

  // ------------------------------------------------------------ digits

  predicate AreDigits(d: seq<nat>) {
    |d| == 4 && forall i :: 0 <= i < 4 ==> d[i] < DIGIT
  }

  /** The number that four 16-bit digits stand for, least significant first. */
  function Value(d: seq<nat>): nat
    requires |d| == 4
  {
    d[0] + DIGIT * d[1] + 0x1_0000_0000 * d[2] + 0x1_0000_0000_0000 * d[3]
  }

  /** A carry into digit `i`, as a number. */
  function Carried(carry: nat, i: nat): nat {
    if i == 0 then carry else if i == 1 then DIGIT * carry else if i == 2 then 0x1_0000_0000 * carry
    else if i == 3 then 0x1_0000_0000_0000 * carry else WORD * carry
  }

  lemma ValueBound(d: seq<nat>)
    requires AreDigits(d)
    ensures Value(d) < WORD
  {
  }

  lemma CarryOut(before: seq<nat>, i: nat, carry: nat)
    requires |before| == 4 && i < 4
    ensures var sum := before[i] + carry;
            Value(before[i := sum % DIGIT]) + Carried(sum / DIGIT, i + 1) == Value(before) + Carried(carry, i)
  {
    var sum := before[i] + carry;
    assert sum == DIGIT * (sum / DIGIT) + sum % DIGIT;
    if i == 0 {
    } else if i == 1 {
    } else if i == 2 {
    } else {
      assert i == 3;
    }
  }

  lemma CarryStops(before: seq<nat>, i: nat, carry: nat)
    requires |before| == 4 && i < 4
    ensures Value(before[i := before[i] + carry]) == Value(before) + Carried(carry, i)
  {
    if i == 0 {
    } else if i == 1 {
    } else if i == 2 {
    } else {
      assert i == 3;
    }
  }

  lemma FirstSum(before: seq<nat>, n: nat)
    requires AreDigits(before) && n < WORD
    ensures var laps := if before[0] + n >= WORD then 1 else 0;
            Value(before[0 := (before[0] + n) % WORD]) + Carried(0, 0) + WORD * laps == Value(before) + n
  {
  }

  // ------------------------------------------------------------ hash256_one_by_one

  class Hasher<H(!new)> {
    const f: Compression<H>
    ghost const h0: H
    var buffer: Bytes
    const digits: array<nat>
    var h: H

    ghost predicate Valid()
      reads this, digits
    {
      digits.Length == 4 && AreDigits(digits[..])
    }

    /** The state after the message `m`, however it arrived. */
    ghost predicate Holds(m: Bytes)
      reads this, digits
      requires Valid()
    {
      && h == Compress(f, h0, m)
      && buffer == m[BLOCK * (|m| / BLOCK)..]
      && Value(digits[..]) == |m| % WORD
    }

    constructor (f: Compression<H>, h0: H)
      ensures Valid() && fresh(digits) && this.f == f && this.h0 == h0 && Holds([])
    {
      this.f, this.h0, this.h, buffer := f, h0, h0, [];
      digits := new nat[4](_ => 0);
    }

    /** `add_to_data_length`: the carry ripples through the digits and out of
        the last one; the first sum may itself wrap. */
    method AddToDataLength(n: nat)
      requires Valid() && n < WORD
      modifies digits
      ensures Valid() && Value(digits[..]) == (old(Value(digits[..])) + n) % WORD
    {
      hide Value, Carried;
      FirstSum(digits[..], n);
      ghost var total := Value(digits[..]) + n;
      ghost var laps := if digits[0] + n >= WORD then 1 else 0;
      ghost var start := digits[..];
      digits[0] := (digits[0] + n) % WORD;
      assert digits[..] == start[0 := digits[0]];
      var carry, i := 0, 0;
      while i < 4
        invariant 0 <= i <= 4 && 0 <= carry < (if i == 0 then 1 else 0x1_0000_0000_0000)
        invariant forall j :: 0 <= j < 4 ==> digits[j] < if j == 0 && i == 0 then WORD else DIGIT
        invariant Value(digits[..]) + Carried(carry, i) + WORD * laps == total
      {
        ghost var before := digits[..];
        digits[i] := (digits[i] + carry) % WORD;
        if digits[i] >= DIGIT {
          CarryOut(before, i, carry);
          carry := digits[i] / DIGIT;
          digits[i] := digits[i] % DIGIT;
          assert digits[..] == before[i := digits[i]];
        } else {
          CarryStops(before, i, carry);
          assert digits[..] == before[i := digits[i]];
          ValueBound(digits[..]);
          DivModUnique(total, WORD, laps, Value(digits[..]));
          return;
        }
        i := i + 1;
      }
      CarriedOff(carry);
      ValueBound(digits[..]);
      DivModUnique(total, WORD, laps + carry, Value(digits[..]));
    }

    /** The loop of `process` over whole blocks. */
    method CompressWhole() returns (i: nat)
      modifies this`h
      ensures h == Compress(f, old(h), buffer) && i == BLOCK * (|buffer| / BLOCK)
    {
      hide Compress;
      i := 0;
      assert buffer[0..] == buffer;
      while i + BLOCK <= |buffer|
        invariant i <= |buffer| && i % BLOCK == 0
        invariant Compress(f, h, buffer[i..]) == Compress(f, old(h), buffer)
      {
        CompressStep(f, h, buffer[i..]);
        assert buffer[i..][..BLOCK] == buffer[i..i + BLOCK] && buffer[i..][BLOCK..] == buffer[i + BLOCK..];
        h := f(h, buffer[i..i + BLOCK]);
        i := i + BLOCK;
      }
      CompressShort(f, h, buffer[i..]);
    }

    /** `process`. */
    method Process(input: Bytes, ghost m: Bytes)
      requires Valid() && Holds(m) && |input| < WORD
      modifies this`buffer, this`h, digits
      ensures Valid() && Holds(m + input)
    {
      hide Value, Compress;
      AddToDataLength(|input|);
      CountsJoin(|m|, |input|);
      MoreInput(f, h0, m, input);
      buffer := buffer + input;
      var i := CompressWhole();
      buffer := buffer[i..];
    }

    method ShiftDigits() returns (bits: array<nat>)
      requires Valid()
      ensures fresh(bits) && bits.Length == 4
      ensures AreDigits(bits[..]) && Value(bits[..]) == (8 * Value(digits[..])) % WORD
    {
      hide Value, Shifted;
      bits := new nat[4](i requires 0 <= i < 4 reads digits => digits[i]);
      ghost var d := digits[..];
      assert bits[..] == d;
      var carry, i := 0, 0;
      while i < 4
        invariant 0 <= i <= 4 && 0 <= carry < 8 && d == digits[..]
        invariant forall j :: 0 <= j < 4 ==> bits[j] == if j < i then Shifted(d, j) else d[j]
        invariant carry == if i == 0 then 0 else d[i - 1] / 0x2000
      {
        ShiftStep(d, i, carry);
        var before := bits[i];
        bits[i] := (before * 8 + carry) % DIGIT;
        carry := (before / 0x2000) % DIGIT;
        i := i + 1;
      }
      ShiftedValue(d);
      assert bits[..] == [Shifted(d, 0), Shifted(d, 1), Shifted(d, 2), Shifted(d, 3)];
    }

    /** `write_data_bit_length`: the counter shifted left by three bits, its
        digits written from the most significant one. */
    method WriteDataBitLength(temp: array<Byte>)
      requires Valid() && temp.Length == BLOCK && (temp as object) != (digits as object)
      modifies temp
      ensures temp[..56] == old(temp[..56])
      ensures temp[56..] == BigEndian((8 * Value(digits[..])) % WORD, 8)
    {
      hide Value, BigEndian;
      var bits := ShiftDigits();
      var b := bits[..];
      BigEndianDigits(b);
      temp[56], temp[57], temp[58], temp[59] := b[3] / 256, b[3] % 256, b[2] / 256, b[2] % 256;
      temp[60], temp[61], temp[62], temp[63] := b[1] / 256, b[1] % 256, b[0] / 256, b[0] % 256;
    }

    /** `finish` compresses the padding of the whole message. */
    method Finish(ghost m: Bytes)
      requires Valid() && Holds(m)
      modifies this`h
      ensures h == Hash(f, h0, m)
    {
      hide Value, Compress, BigEndian;
      ghost var rest := buffer;
      ghost var field := BigEndian((8 * |m|) % WORD, 8);
      CompressTail(f, h0, m);
      ghost var done := BLOCK * (|m| / BLOCK);
      assert m + Padding(|m|) == m[..done] + (rest + Padding(|m|));
      CompressJoin(f, h0, m[..done], rest + Padding(|m|));
      ghost var d := digits[..];
      LengthField(Value(d), |m|);
      var temp := new Byte[BLOCK](_ => 0);
      var remains := |buffer|;
      forall k | 0 <= k < remains { temp[k] := buffer[k]; }
      temp[remains] := 0x80;
      ghost var h1 := h;
      if remains > 55 {
        forall k | remains + 1 <= k < BLOCK { temp[k] := 0; }
        ghost var first := temp[..];
        assert first == rest + [0x80] + Repeated<Byte>(0, BLOCK - 1 - |rest|);
        h := f(h, temp[..]);
        forall k | 0 <= k < BLOCK - 4 { temp[k] := 0; }
        assert temp[..56] == Repeated<Byte>(0, 56);
        WriteDataBitLength(temp);
        assert digits[..] == d;
        TwoBlocks(f, h1, rest, |m|, first, temp[..]);
      } else {
        forall k | remains + 1 <= k < BLOCK - 4 { temp[k] := 0; }
        assert temp[..56] == rest + [0x80] + Repeated<Byte>(0, 55 - |rest|);
        WriteDataBitLength(temp);
        assert digits[..] == d;
        OneBlock(f, h1, rest, |m|, temp[..]);
      }
      h := f(h, temp[..]);
    }
  }

  lemma LengthField(count: nat, n: nat)
    requires count == n % WORD
    ensures (8 * count) % WORD == (8 * n) % WORD
  {
    ModShift(8 * count, 8 * (n / WORD), WORD);
    assert 8 * count + 8 * (n / WORD) * WORD == 8 * n;
  }

  lemma OneBlock<H>(f: Compression<H>, h: H, rest: Bytes, n: nat, block: Bytes)
    requires |rest| == n % BLOCK <= 55 && |block| == BLOCK
    requires block[..56] == rest + [0x80] + Repeated<Byte>(0, 55 - |rest|)
    requires block[56..] == BigEndian((8 * n) % WORD, 8)
    ensures Compress(f, h, rest + Padding(n)) == f(h, block)
  {
    hide Compress, BigEndian;
    assert block == block[..56] + block[56..];
    assert rest + Padding(n) == block;
    CompressOne(f, h, block);
  }

  lemma TwoBlocks<H>(f: Compression<H>, h: H, rest: Bytes, n: nat, first: Bytes, second: Bytes)
    requires 55 < |rest| == n % BLOCK && |first| == |second| == BLOCK
    requires first == rest + [0x80] + Repeated<Byte>(0, BLOCK - 1 - |rest|)
    requires second[..56] == Repeated<Byte>(0, 56)
    requires second[56..] == BigEndian((8 * n) % WORD, 8)
    ensures Compress(f, h, rest + Padding(n)) == f(f(h, first), second)
  {
    hide Compress, BigEndian;
    assert second == second[..56] + second[56..];
    assert Repeated<Byte>(0, ZeroCount(n)) == Repeated<Byte>(0, BLOCK - 1 - |rest|) + Repeated<Byte>(0, 56);
    assert rest + Padding(n) == first + second;
    CompressJoin(f, h, first, second);
    CompressOne(f, h, first);
    CompressOne(f, f(h, first), second);
  }

  /** One `process` call for each chunk, then `finish`. */
  method HashChunks<H(!new)>(f: Compression<H>, h0: H, chunks: seq<Bytes>) returns (h: H)
    requires forall i :: 0 <= i < |chunks| ==> |chunks[i]| < WORD
    ensures h == Hash(f, h0, Joined(chunks))
  {
    hide Hash;
    var hasher := new Hasher(f, h0);
    assert chunks[..0] == [];
    for i := 0 to |chunks|
      invariant hasher.Valid() && fresh(hasher) && fresh(hasher.digits)
      invariant hasher.f == f && hasher.h0 == h0
      invariant hasher.Holds(Joined(chunks[..i]))
    {
      assert chunks[..i + 1][..i] == chunks[..i];
      hasher.Process(chunks[i], Joined(chunks[..i]));
    }
    assert chunks[..|chunks|] == chunks;
    hasher.Finish(Joined(chunks));
    h := hasher.h;
  }

  lemma CarriedOff(carry: nat)
    ensures Carried(carry, 4) == WORD * carry
  {
  }

  lemma CountsJoin(a: nat, b: nat)
    ensures (a % WORD + b) % WORD == (a + b) % WORD
  {
    ModShift(a % WORD + b, a / WORD, WORD);
    assert a % WORD + b + (a / WORD) * WORD == a + b;
  }

  /** Digit `i` of eight times the number. */
  function Shifted(d: seq<nat>, i: nat): nat
    requires |d| == 4 && i < 4
  {
    (d[i] * 8 + if i == 0 then 0 else d[i - 1] / 0x2000) % DIGIT
  }

  lemma ShiftStep(d: seq<nat>, i: nat, carry: nat)
    requires AreDigits(d) && i < 4 && carry == if i == 0 then 0 else d[i - 1] / 0x2000
    ensures (d[i] * 8 + carry) % DIGIT == Shifted(d, i)
    ensures (d[i] / 0x2000) % DIGIT == d[i] / 0x2000 < 8
  {
  }

  lemma ShiftedDigit(x: nat, carry: nat)
    requires x < DIGIT && carry < 8
    ensures (x * 8 + carry) % DIGIT + DIGIT * (x / 0x2000) == x * 8 + carry
  {
    var high, low := x / 0x2000, x % 0x2000;
    DivModUnique(x * 8 + carry, DIGIT, high, low * 8 + carry);
  }

  lemma ShiftedValue(d: seq<nat>)
    requires AreDigits(d)
    ensures var s := [Shifted(d, 0), Shifted(d, 1), Shifted(d, 2), Shifted(d, 3)];
            AreDigits(s) && Value(s) == (8 * Value(d)) % WORD
  {
    var s := [Shifted(d, 0), Shifted(d, 1), Shifted(d, 2), Shifted(d, 3)];
    ShiftedDigit(d[0], 0);
    ShiftedDigit(d[1], d[0] / 0x2000);
    ShiftedDigit(d[2], d[1] / 0x2000);
    ShiftedDigit(d[3], d[2] / 0x2000);
    ValueBound(s);
    DivModUnique(8 * Value(d), WORD, d[3] / 0x2000, Value(s));
  }

  lemma BigEndianDigit(digit: nat, rest: nat, n: nat)
    requires digit < DIGIT
    ensures BigEndian(digit + DIGIT * rest, n + 2) == BigEndian(rest, n) + [digit / 256, digit % 256]
  {
    var v := digit + DIGIT * rest;
    DivModUnique(v, 256, digit / 256 + 256 * rest, digit % 256);
    DivModUnique(v / 256, 256, rest, digit / 256);
    assert BigEndian(v, n + 2) == BigEndian(v / 256, n + 1) + [v % 256];
    assert BigEndian(v / 256, n + 1) == BigEndian(v / 256 / 256, n) + [v / 256 % 256];
  }

  /** The digits' bytes, most significant digit first, are the big-endian field. */
  lemma BigEndianDigits(d: seq<nat>)
    requires AreDigits(d)
    ensures BigEndian(Value(d), 8) == [d[3] / 256, d[3] % 256, d[2] / 256, d[2] % 256,
                                       d[1] / 256, d[1] % 256, d[0] / 256, d[0] % 256]
  {
    hide BigEndian;
    var v3 := d[3] + DIGIT * 0;
    var v2 := d[2] + DIGIT * v3;
    var v1 := d[1] + DIGIT * v2;
    assert Value(d) == d[0] + DIGIT * v1;
    BigEndianDigit(d[0], v1, 6);
    BigEndianDigit(d[1], v2, 4);
    BigEndianDigit(d[2], v3, 2);
    BigEndianDigit(d[3], 0, 0);
    assert |BigEndian(0, 0)| == 0;
  }
}
