/** The Base64 codec of encoding.c, bit for bit: comparisons by masks, and
    encoder and decoder loops around a 32-bit accumulator that is shifted but
    never cleared. */
module Base64 {

  import opened Arith

  type Char = bv8

  // ------------------------------------------------------------ one character

  function Eq(x: bv32, y: bv32): bv32 { (((0 - (x ^ y)) >> 8) & 0xFF) ^ 0xFF }
  function Gt(x: bv32, y: bv32): bv32 { ((y - x) >> 8) & 0xFF }
  function Ge(x: bv32, y: bv32): bv32 { Gt(y, x) ^ 0xFF }
  function Lt(x: bv32, y: bv32): bv32 { Gt(y, x) }
  function Le(x: bv32, y: bv32): bv32 { Ge(y, x) }

  /** `b64_byte_to_char`. */
  function ByteToChar(x: bv32): bv32 {
    (Lt(x, 26) & (x + 65))
    | (Ge(x, 26) & Lt(x, 52) & (x + 71))
    | (Ge(x, 52) & Lt(x, 62) & (x - 4))
    | (Eq(x, 62) & 43)
    | (Eq(x, 63) & 47)
  }

  /** `b64_char_to_byte`; 255 for a character outside the alphabet. */
  function CharToByte(c: bv32): bv32 {
    var x := (Ge(c, 65) & Le(c, 90) & (c - 65))
           | (Ge(c, 97) & Le(c, 122) & (c - 71))
           | (Ge(c, 48) & Le(c, 57) & (c + 4))
           | (Eq(c, 43) & 62)
           | (Eq(c, 47) & 63);
    x | (Eq(x, 0) & (Eq(c, 65) ^ 0xFF))
  }

  lemma CharFits(x: bv32)
    ensures ByteToChar(x) < 256
  {
  }

  lemma ByteFits(c: bv32)
    requires c < 256
    ensures CharToByte(c) < 256
  {
  }

  function CharOf(v: bv8): Char {
    CharFits(v as bv32);
    ByteToChar(v as bv32) as bv8
  }

  function ValueOf(c: Char): bv8 {
    ByteFits(c as bv32);
    CharToByte(c as bv32) as bv8
  }

  const NOT_BASE64: bv8 := 0xFF

  predicate IsBase64(c: Char) {
    ValueOf(c) != NOT_BASE64
  }

  /** The masks spell out the alphabet of RFC 4648 section 4. */
  lemma Alphabet(v: bv8)
    requires v < 64
    ensures CharOf(v) == if v < 26 then 65 + v else if v < 52 then 97 + (v - 26)
                         else if v < 62 then 48 + (v - 52) else if v == 62 then 43 else 47
  {
  }

  lemma CharInverse(v: bv8)
    requires v < 64
    ensures ValueOf(CharOf(v)) == v && IsBase64(CharOf(v))
  {
  }

  lemma ValueInverse(c: Char)
    requires IsBase64(c)
    ensures ValueOf(c) < 64 && CharOf(ValueOf(c)) == c
  {
  }

  // ------------------------------------------------------------ specification

  /** Characters for `n` bytes, without padding. */
  function SextetCount(n: nat): nat {
    (n / 3) * 4 + if n % 3 == 1 then 2 else if n % 3 == 2 then 3 else 0
  }

  /** Bytes held by `k` characters. */
  function ByteCount(k: nat): nat {
    (k / 4) * 3 + if k % 4 == 2 then 1 else if k % 4 == 3 then 2 else 0
  }

  function ByteAt(bs: seq<bv8>, i: int): bv8 {
    if 0 <= i < |bs| then bs[i] else 0
  }

  /** Three bytes as four six-bit values, and back. */
  function Split0(a: bv8): bv8 { a >> 2 }
  function Split1(a: bv8, b: bv8): bv8 { ((a & 3) << 4) | (b >> 4) }
  function Split2(b: bv8, c: bv8): bv8 { ((b & 15) << 2) | (c >> 6) }
  function Split3(c: bv8): bv8 { c & 63 }
  function Join0(v: bv8, w: bv8): bv8 { (v << 2) | (w >> 4) }
  function Join1(w: bv8, x: bv8): bv8 { ((w & 15) << 4) | (x >> 2) }
  function Join2(x: bv8, y: bv8): bv8 { ((x & 3) << 6) | y }

  lemma JoinSplit(a: bv8, b: bv8, c: bv8)
    ensures Join0(Split0(a), Split1(a, b)) == a
    ensures Join1(Split1(a, b), Split2(b, c)) == b
    ensures Join2(Split2(b, c), Split3(c)) == c
    ensures Split1(a, 0) & 15 == 0 && Split2(b, 0) & 3 == 0
  {
  }

  lemma SplitJoin(v: bv8, w: bv8, x: bv8, y: bv8)
    requires v < 64 && w < 64 && x < 64 && y < 64
    ensures Split0(Join0(v, w)) == v
    ensures Split1(Join0(v, w), Join1(w, x)) == w
    ensures Split2(Join1(w, x), Join2(x, y)) == x
    ensures Split3(Join2(x, y)) == y
    ensures w & 15 == 0 ==> Split1(Join0(v, w), 0) == w
    ensures x & 3 == 0 ==> Split2(Join1(w, x), 0) == x
  {
  }

  /** Bits 6j to 6j+5 of the byte string, zeros past its end. */
  function Sextet(bs: seq<bv8>, j: nat): bv8 {
    var i := (j / 4) * 3;
    if j % 4 == 0 then Split0(ByteAt(bs, i))
    else if j % 4 == 1 then Split1(ByteAt(bs, i), ByteAt(bs, i + 1))
    else if j % 4 == 2 then Split2(ByteAt(bs, i + 1), ByteAt(bs, i + 2))
    else Split3(ByteAt(bs, i + 2))
  }

  function Encoded(bs: seq<bv8>): (text: seq<Char>)
    ensures |text| == SextetCount(|bs|)
  {
    seq(SextetCount(|bs|), j requires 0 <= j => CharOf(Sextet(bs, j)))
  }

  predicate AllBase64(text: seq<Char>) {
    forall i :: 0 <= i < |text| ==> IsBase64(text[i])
  }

  function ValueAt(text: seq<Char>, j: nat): bv8 {
    if j < |text| then ValueOf(text[j]) else 0
  }

  /** Bits 8i to 8i+7 of the text's six-bit values. */
  function DecodedByte(text: seq<Char>, i: nat): bv8 {
    var j := (i / 3) * 4;
    if i % 3 == 0 then Join0(ValueAt(text, j), ValueAt(text, j + 1))
    else if i % 3 == 1 then Join1(ValueAt(text, j + 1), ValueAt(text, j + 2))
    else Join2(ValueAt(text, j + 2), ValueAt(text, j + 3))
  }

  function Decoded(text: seq<Char>): (bs: seq<bv8>)
    ensures |bs| == ByteCount(|text|)
  {
    seq(ByteCount(|text|), i requires 0 <= i => DecodedByte(text, i))
  }

  /** No dangling character, and the bits that fill no byte are zero. */
  predicate Canonical(text: seq<Char>) {
    && |text| % 4 != 1
    && (|text| % 4 == 2 ==> ValueAt(text, |text| - 1) & 15 == 0)
    && (|text| % 4 == 3 ==> ValueAt(text, |text| - 1) & 3 == 0)
  }

  // ------------------------------------------------------------ round trips

  lemma SextetRange(bs: seq<bv8>, j: nat)
    ensures Sextet(bs, j) < 64
  {
  }

  lemma EncodedValue(bs: seq<bv8>, j: nat)
    requires j < SextetCount(|bs|)
    ensures ValueAt(Encoded(bs), j) == Sextet(bs, j) && IsBase64(Encoded(bs)[j])
  {
    hide CharOf, ValueOf;
    SextetRange(bs, j);
    CharInverse(Sextet(bs, j));
  }

  lemma Counts(n: nat)
    ensures ByteCount(SextetCount(n)) == n
    ensures SextetCount(n) % 4 == if n % 3 == 0 then 0 else n % 3 + 1
    ensures SextetCount(n) / 4 == n / 3
    ensures SextetCount(ByteCount(n)) == if n % 4 == 1 then n - 1 else n
    ensures ByteCount(n) / 3 == n / 4
  {
  }

  lemma SextetGroup(bs: seq<bv8>, q: nat)
    ensures Sextet(bs, 4 * q) == Split0(ByteAt(bs, 3 * q))
    ensures Sextet(bs, 4 * q + 1) == Split1(ByteAt(bs, 3 * q), ByteAt(bs, 3 * q + 1))
    ensures Sextet(bs, 4 * q + 2) == Split2(ByteAt(bs, 3 * q + 1), ByteAt(bs, 3 * q + 2))
    ensures Sextet(bs, 4 * q + 3) == Split3(ByteAt(bs, 3 * q + 2))
  {
    hide Split0, Split1, Split2, Split3, ByteAt;
    DivModUnique(4 * q, 4, q, 0);
    DivModUnique(4 * q + 1, 4, q, 1);
    DivModUnique(4 * q + 2, 4, q, 2);
    DivModUnique(4 * q + 3, 4, q, 3);
  }

  /** Four characters carry the 24 bits of three bytes, the first ones first; a
      missing byte counts as zero (RFC 4648 section 4). */
  lemma GroupBits(bs: seq<bv8>, q: nat)
    ensures ((Sextet(bs, 4 * q) as bv32) << 18) | ((Sextet(bs, 4 * q + 1) as bv32) << 12)
            | ((Sextet(bs, 4 * q + 2) as bv32) << 6) | (Sextet(bs, 4 * q + 3) as bv32)
            == ((ByteAt(bs, 3 * q) as bv32) << 16) | ((ByteAt(bs, 3 * q + 1) as bv32) << 8)
               | (ByteAt(bs, 3 * q + 2) as bv32)
  {
    SextetGroup(bs, q);
    SameBits(ByteAt(bs, 3 * q), ByteAt(bs, 3 * q + 1), ByteAt(bs, 3 * q + 2));
    hide Sextet, ByteAt, Split0, Split1, Split2, Split3;
  }

  lemma SameBits(a: bv8, b: bv8, c: bv8)
    ensures ((Split0(a) as bv32) << 18) | ((Split1(a, b) as bv32) << 12)
            | ((Split2(b, c) as bv32) << 6) | (Split3(c) as bv32)
            == ((a as bv32) << 16) | ((b as bv32) << 8) | (c as bv32)
  {
  }

  /** No shorter text could hold `n` bytes, and no character is superfluous. */
  lemma FewestCharacters(n: nat)
    ensures 6 * SextetCount(n) >= 8 * n
    ensures n > 0 ==> 6 * (SextetCount(n) - 1) < 8 * n
  {
  }

  lemma DecodedGroup(text: seq<Char>, q: nat)
    ensures DecodedByte(text, 3 * q) == Join0(ValueAt(text, 4 * q), ValueAt(text, 4 * q + 1))
    ensures DecodedByte(text, 3 * q + 1) == Join1(ValueAt(text, 4 * q + 1), ValueAt(text, 4 * q + 2))
    ensures DecodedByte(text, 3 * q + 2) == Join2(ValueAt(text, 4 * q + 2), ValueAt(text, 4 * q + 3))
  {
    hide Join0, Join1, Join2, ValueAt;
    DivModUnique(3 * q, 3, q, 0);
    DivModUnique(3 * q + 1, 3, q, 1);
    DivModUnique(3 * q + 2, 3, q, 2);
  }

  lemma EncodedValueIfAny(bs: seq<bv8>, j: nat)
    ensures j < SextetCount(|bs|) ==> ValueAt(Encoded(bs), j) == Sextet(bs, j)
  {
    if j < SextetCount(|bs|) {
      EncodedValue(bs, j);
    }
  }

  lemma DecodedByteOfEncoded(bs: seq<bv8>, i: nat)
    requires i < |bs|
    ensures DecodedByte(Encoded(bs), i) == bs[i]
  {
    hide Encoded, ValueAt, Sextet, DecodedByte, Split0, Split1, Split2, Split3, Join0, Join1, Join2;
    var q := i / 3;
    DecodedGroup(Encoded(bs), q);
    SextetGroup(bs, q);
    EncodedValueIfAny(bs, 4 * q);
    EncodedValueIfAny(bs, 4 * q + 1);
    EncodedValueIfAny(bs, 4 * q + 2);
    EncodedValueIfAny(bs, 4 * q + 3);
    JoinSplit(ByteAt(bs, 3 * q), ByteAt(bs, 3 * q + 1), ByteAt(bs, 3 * q + 2));
    assert i == 3 * q || i == 3 * q + 1 || i == 3 * q + 2;
  }

  lemma EncodedIsCanonical(bs: seq<bv8>)
    ensures Canonical(Encoded(bs))
  {
    hide Encoded, ValueAt, Split1, Split2;
    var k := |Encoded(bs)|;
    Counts(|bs|);
    if k % 4 != 0 {
      EncodedValue(bs, k - 1);
      JoinSplit(ByteAt(bs, |bs| - 1), ByteAt(bs, |bs| - 1), 0);
    }
  }

  /** Decoding undoes encoding, for every byte string. */
  lemma DecodeEncoded(bs: seq<bv8>)
    ensures AllBase64(Encoded(bs)) && Canonical(Encoded(bs)) && Decoded(Encoded(bs)) == bs
  {
    hide DecodedByte, Canonical;
    var text := Encoded(bs);
    Counts(|bs|);
    EncodedIsCanonical(bs);
    forall j | 0 <= j < |text| ensures IsBase64(text[j]) {
      EncodedValue(bs, j);
    }
    forall i | 0 <= i < |bs| ensures Decoded(text)[i] == bs[i] {
      DecodedByteOfEncoded(bs, i);
    }
  }

  lemma TextValue(text: seq<Char>, j: nat)
    requires AllBase64(text)
    ensures ValueAt(text, j) < 64
    ensures j < |text| ==> CharOf(ValueAt(text, j)) == text[j]
  {
    hide CharOf, ValueOf;
    if j < |text| {
      ValueInverse(text[j]);
    }
  }

  lemma SextetOfDecoded(text: seq<Char>, j: nat)
    requires AllBase64(text) && Canonical(text) && j < |text|
    ensures Sextet(Decoded(text), j) == ValueAt(text, j)
  {
    hide ValueAt, Sextet, DecodedByte, Split0, Split1, Split2, Split3, Join0, Join1, Join2;
    var q := j / 4;
    var bs := Decoded(text);
    TextValue(text, 4 * q);
    TextValue(text, 4 * q + 1);
    TextValue(text, 4 * q + 2);
    TextValue(text, 4 * q + 3);
    SplitJoin(ValueAt(text, 4 * q), ValueAt(text, 4 * q + 1), ValueAt(text, 4 * q + 2), ValueAt(text, 4 * q + 3));
    SextetGroup(bs, q);
    DecodedGroup(text, q);
    Counts(|text|);
    assert j == 4 * q || j == 4 * q + 1 || j == 4 * q + 2 || j == 4 * q + 3;
  }

  /** Encoding undoes decoding: an accepted text is the one the encoder prints. */
  lemma EncodeDecoded(text: seq<Char>)
    requires AllBase64(text) && Canonical(text)
    ensures Encoded(Decoded(text)) == text
  {
    hide CharOf, ValueOf;
    Counts(|text|);
    forall j | 0 <= j < |text| ensures Encoded(Decoded(text))[j] == text[j] {
      SextetOfDecoded(text, j);
      TextValue(text, j);
    }
  }

  // ------------------------------------------------------------ to_base64

  /** The two bytes that can still have unprinted bits after `n` bytes. */
  function LastBytes(bs: seq<bv8>, n: nat): bv32 {
    Word16(ByteAt(bs, n - 2), ByteAt(bs, n - 1))
  }

  function Word16(a: bv8, b: bv8): bv32 { ((a as bv32) << 8) | (b as bv32) }

  /** `acc = (acc << 8) + byte`, in 32 bits. */
  function PushByte(acc: bv32, b: bv8): bv32 { (acc << 8) + (b as bv32) }

  function LowBits(x: bv32, k: nat): bv32 {
    if k == 0 then 0 else if k == 2 then x & 0x3 else if k == 4 then x & 0xF else if k == 6 then x & 0x3F
    else if k == 8 then x & 0xFF else if k == 10 then x & 0x3FF else x & 0xFFF
  }

  function ShiftRight(x: bv32, k: nat): bv32
    requires k < 32
  {
    x >> k
  }

  /** The accumulator may hold anything above its `k` unprinted bits. */
  predicate Unprinted(acc: bv32, k: nat, bs: seq<bv8>, n: nat, written: nat) {
    && n <= |bs| && 6 * written + k == 8 * n && k <= 12
    && LowBits(acc, k) == LowBits(LastBytes(bs, n), k)
  }

  lemma Gained(acc: bv32, k: nat, bs: seq<bv8>, n: nat, written: nat)
    requires Unprinted(acc, k, bs, n, written) && k < 6 && n < |bs|
    ensures k == 0 || k == 2 || k == 4
    ensures Unprinted(PushByte(acc, bs[n]), k + 8, bs, n + 1, written)
  {
    hide LowBits, Word16, PushByte;
    assert k == 2 * (4 * n - 3 * written);
    GainedBits(acc, ByteAt(bs, n - 2), ByteAt(bs, n - 1), bs[n], k);
    assert LastBytes(bs, n + 1) == Word16(ByteAt(bs, n - 1), bs[n]);
  }

  lemma GainedBits(acc: bv32, a: bv8, b: bv8, c: bv8, k: nat)
    requires k == 0 || k == 2 || k == 4
    requires LowBits(acc, k) == LowBits(Word16(a, b), k)
    ensures LowBits(PushByte(acc, c), k + 8) == LowBits(Word16(b, c), k + 8)
  {
  }

  lemma EmittedBits(acc: bv32, a: bv8, b: bv8, k: nat)
    requires k == 6 || k == 8 || k == 10 || k == 12
    requires LowBits(acc, k) == LowBits(Word16(a, b), k)
    ensures ShiftRight(acc, k - 6) & 0x3F ==
              (if k == 6 then Split3(b) else if k == 8 then Split0(b)
               else if k == 10 then Split1(a, b) else Split2(a, b)) as bv32
    ensures LowBits(acc, k - 6) == LowBits(Word16(a, b), k - 6)
  {
    hide Split0, Split1, Split2, Split3, LowBits, ShiftRight, Word16;
    if k == 6 || k == 8 {
      EmittedFromOneByte(acc, a, b, k);
    } else {
      EmittedFromTwoBytes(acc, a, b, k);
    }
  }

  lemma EmittedFromOneByte(acc: bv32, a: bv8, b: bv8, k: nat)
    requires k == 6 || k == 8
    requires LowBits(acc, k) == LowBits(Word16(a, b), k)
    ensures ShiftRight(acc, k - 6) & 0x3F == (if k == 6 then Split3(b) else Split0(b)) as bv32
    ensures LowBits(acc, k - 6) == LowBits(Word16(a, b), k - 6)
  {
  }

  lemma EmittedFromTwoBytes(acc: bv32, a: bv8, b: bv8, k: nat)
    requires k == 10 || k == 12
    requires LowBits(acc, k) == LowBits(Word16(a, b), k)
    ensures ShiftRight(acc, k - 6) & 0x3F == (if k == 10 then Split1(a, b) else Split2(a, b)) as bv32
    ensures LowBits(acc, k - 6) == LowBits(Word16(a, b), k - 6)
  {
    hide Split1, Split2, Word16;
    if k == 10 {
      TenBits(acc, a, b);
    } else {
      TwelveBits(acc, a, b);
    }
  }

  lemma TenBits(acc: bv32, a: bv8, b: bv8)
    requires acc & 0x3FF == Word16(a, b) & 0x3FF
    ensures (acc >> 4) & 0x3F == Split1(a, b) as bv32
    ensures acc & 0xF == Word16(a, b) & 0xF
  {
  }

  lemma TwelveBits(acc: bv32, a: bv8, b: bv8)
    requires acc & 0xFFF == Word16(a, b) & 0xFFF
    ensures (acc >> 6) & 0x3F == Split2(a, b) as bv32
    ensures acc & 0x3F == Word16(a, b) & 0x3F
  {
  }

  lemma Emitted(acc: bv32, k: nat, bs: seq<bv8>, n: nat, written: nat)
    requires Unprinted(acc, k, bs, n, written) && 6 <= k
    ensures k - 6 < 32
    ensures ShiftRight(acc, k - 6) & 0x3F == Sextet(bs, written) as bv32
    ensures Unprinted(acc, k - 6, bs, n, written + 1)
  {
    hide Split0, Split1, Split2, Split3, LowBits, ShiftRight, Sextet, Word16;
    assert k == 6 || k == 8 || k == 10 || k == 12;
    EmittedBits(acc, ByteAt(bs, n - 2), ByteAt(bs, n - 1), k);
    var q := written / 4;
    SextetGroup(bs, q);
    if k == 6 {
      assert written == 4 * q + 3 && n == 3 * q + 3;
    } else if k == 8 {
      assert written == 4 * q && n == 3 * q + 1;
    } else if k == 10 {
      assert written == 4 * q + 1 && n == 3 * q + 2;
    } else {
      assert written == 4 * q + 2 && n == 3 * q + 3;
    }
  }

  lemma TailBits(acc: bv32, a: bv8, b: bv8, k: nat)
    requires k == 2 || k == 4
    requires LowBits(acc, k) == LowBits(Word16(a, b), k)
    ensures (if k == 2 then acc << 4 else acc << 2) & 0x3F ==
              (if k == 2 then Split1(b, 0) else Split2(b, 0)) as bv32
  {
  }

  lemma Tail(acc: bv32, k: nat, bs: seq<bv8>, written: nat)
    requires Unprinted(acc, k, bs, |bs|, written) && 0 < k < 6
    ensures k == 2 || k == 4
    ensures (if k == 2 then acc << 4 else acc << 2) & 0x3F == Sextet(bs, written) as bv32
    ensures written + 1 == SextetCount(|bs|)
  {
    hide Split0, Split1, Split2, Split3, LowBits, Sextet, Word16;
    assert k == 2 || k == 4;
    TailBits(acc, ByteAt(bs, |bs| - 2), ByteAt(bs, |bs| - 1), k);
    var q := written / 4;
    SextetGroup(bs, q);
    if k == 2 {
      assert written == 4 * q + 1 && |bs| == 3 * q + 1;
    } else {
      assert written == 4 * q + 2 && |bs| == 3 * q + 2;
    }
  }

  /** Output length as `to_base64` and `b64len` compute it. */
  method Base64Length(n: nat) returns (olen: nat)
    ensures olen == SextetCount(n)
  {
    olen := (n / 3) * 4;
    if n % 3 == 2 {
      olen := olen + 1;
    }
    if n % 3 == 2 || n % 3 == 1 {
      olen := olen + 2;
    }
  }

  /** `to_base64` at `dst + off`: refuses exactly when the text and its final
      zero do not fit, and touches nothing else. */
  method ToBase64(dst: array<Char>, off: nat, src: seq<bv8>) returns (ok: bool, olen: nat)
    requires off <= dst.Length
    modifies dst
    ensures olen == SextetCount(|src|)
    ensures ok <==> olen < dst.Length - off
    ensures ok ==> dst[off..off + olen] == Encoded(src) && dst[off + olen] == 0
    ensures forall k :: 0 <= k < dst.Length && !(ok && off <= k <= off + olen) ==> dst[k] == old(dst[k])
  {
    hide LowBits, ShiftRight, Sextet, CharOf, LastBytes, Unprinted, PushByte;
    olen := Base64Length(|src|);
    if dst.Length - off <= olen {
      return false, olen;
    }
    ok := true;
    var acc: bv32, accLen, n, w := 0, 0, 0, 0;
    assert Unprinted(acc, 0, src, 0, 0) by { StartUnprinted(src); }
    while n < |src|
      invariant 0 <= accLen < 6 && 0 <= n <= |src| && 0 <= w
      invariant Unprinted(acc, accLen, src, n, w) && Written(dst[..], old(dst[..]), off, w, src)
    {
      Gained(acc, accLen, src, n, w);
      acc := PushByte(acc, src[n]);
      n := n + 1;
      accLen := accLen + 8;
      while accLen >= 6
        invariant 0 <= accLen && 0 <= w
        invariant Unprinted(acc, accLen, src, n, w) && Written(dst[..], old(dst[..]), off, w, src)
      {
        Emitted(acc, accLen, src, n, w);
        UnprintedCount(acc, accLen - 6, src, n, w + 1);
        SextetRange(src, w);
        accLen := accLen - 6;
        dst[off + w] := CharOf((ShiftRight(acc, accLen) & 0x3F) as bv8);
        w := w + 1;
      }
    }
    UnprintedCount(acc, accLen, src, n, w);
    if accLen > 0 {
      Tail(acc, accLen, src, w);
      dst[off + w] := CharOf(((if accLen == 2 then acc << 4 else acc << 2) & 0x3F) as bv8);
      w := w + 1;
    }
    dst[off + w] := 0;
    forall j | 0 <= j < olen ensures dst[off..off + olen][j] == Encoded(src)[j] {
      assert dst[off + j] == CharOf(Sextet(src, off + j - off));
    }
  }

  predicate Written(now: seq<Char>, before: seq<Char>, off: nat, w: nat, src: seq<bv8>) {
    && |now| == |before| && off + w <= |now|
    && (forall j :: off <= j < off + w ==> now[j] == CharOf(Sextet(src, j - off)))
    && (forall j :: 0 <= j < |now| && !(off <= j < off + w) ==> now[j] == before[j])
  }

  lemma StartUnprinted(bs: seq<bv8>)
    ensures Unprinted(0, 0, bs, 0, 0)
  {
  }

  lemma UnprintedCount(acc: bv32, k: nat, bs: seq<bv8>, n: nat, written: nat)
    requires Unprinted(acc, k, bs, n, written)
    ensures written <= SextetCount(|bs|)
    ensures n == |bs| && k == 0 ==> written == SextetCount(|bs|)
    ensures n == |bs| && k > 0 && k < 6 ==> written + 1 == SextetCount(|bs|)
  {
    hide LowBits, LastBytes;
  }

  // ------------------------------------------------------------ from_base64

  /** A C string is read past its last character as a zero. */
  function CharAt(str: seq<Char>, i: nat): Char {
    if i < |str| then str[i] else 0
  }

  lemma ZeroIsNotBase64()
    ensures !IsBase64(0)
  {
  }

  /** Where the stretch of Base64 characters at `pos` ends. */
  function RunEnd(str: seq<Char>, pos: nat): (end: nat)
    requires pos <= |str|
    ensures pos <= end <= |str|
    ensures AllBase64(str[pos..end])
    ensures !IsBase64(CharAt(str, end))
    decreases |str| - pos
  {
    ZeroIsNotBase64();
    if pos < |str| && IsBase64(str[pos]) then RunEnd(str, pos + 1) else pos
  }

  lemma {:induction false} RunEndIsFirst(str: seq<Char>, pos: nat, end: nat)
    requires pos <= end <= |str| && AllBase64(str[pos..end]) && !IsBase64(CharAt(str, end))
    ensures RunEnd(str, pos) == end
    decreases end - pos
  {
    hide IsBase64;
    if pos < end {
      assert str[pos] == str[pos..end][0];
      assert str[pos + 1..end] == str[pos..end][1..];
      RunEndIsFirst(str, pos + 1, end);
    }
  }

  /** `acc = (acc << 6) + d`, in 32 bits. */
  function PushSextet(acc: bv32, d: bv8): bv32 { (acc << 6) + (d as bv32) }

  /** `(acc >> k) & 0xFF`. */
  function TakeByte(acc: bv32, k: nat): bv8
    requires k < 32
  {
    ((acc >> k) & 0xFF) as bv8
  }

  /** Only the last character can have bits not yet written. */
  predicate Unwritten(acc: bv32, k: nat, text: seq<Char>, n: nat, len: nat) {
    && n <= |text| && 8 * len + k == 6 * n && k <= 6
    && (k > 0 ==> LowBits(acc, k) == LowBits(ValueAt(text, n - 1) as bv32, k))
  }

  lemma SixBits(acc: bv32, w: bv8)
    requires w < 64
    ensures PushSextet(acc, w) & 0x3F == (w as bv32) & 0x3F
  {
  }

  lemma TakenTwo(acc: bv32, v: bv8, w: bv8)
    requires v < 64 && w < 64 && acc & 0x3 == (v as bv32) & 0x3
    ensures TakeByte(PushSextet(acc, w), 0) == Join2(v, w)
  {
  }

  lemma TakenFour(acc: bv32, v: bv8, w: bv8)
    requires v < 64 && w < 64 && acc & 0xF == (v as bv32) & 0xF
    ensures TakeByte(PushSextet(acc, w), 2) == Join1(v, w)
    ensures PushSextet(acc, w) & 0x3 == (w as bv32) & 0x3
  {
  }

  lemma TakenSix(acc: bv32, v: bv8, w: bv8)
    requires v < 64 && w < 64 && acc & 0x3F == (v as bv32) & 0x3F
    ensures TakeByte(PushSextet(acc, w), 4) == Join0(v, w)
    ensures PushSextet(acc, w) & 0xF == (w as bv32) & 0xF
  {
  }

  lemma TakenBits(acc: bv32, v: bv8, w: bv8, k: nat)
    requires v < 64 && w < 64 && (k == 0 || k == 2 || k == 4 || k == 6)
    requires k > 0 ==> LowBits(acc, k) == LowBits(v as bv32, k)
    ensures k == 0 ==> LowBits(PushSextet(acc, w), 6) == LowBits(w as bv32, 6)
    ensures k == 2 ==> TakeByte(PushSextet(acc, w), 0) == Join2(v, w)
    ensures k == 4 ==> TakeByte(PushSextet(acc, w), 2) == Join1(v, w)
                       && LowBits(PushSextet(acc, w), 2) == LowBits(w as bv32, 2)
    ensures k == 6 ==> TakeByte(PushSextet(acc, w), 4) == Join0(v, w)
                       && LowBits(PushSextet(acc, w), 4) == LowBits(w as bv32, 4)
  {
    hide TakeByte, PushSextet, Join0, Join1, Join2;
    if k == 0 {
      SixBits(acc, w);
    } else if k == 2 {
      TakenTwo(acc, v, w);
    } else if k == 4 {
      TakenFour(acc, v, w);
    } else {
      TakenSix(acc, v, w);
    }
  }

  lemma Taken(acc: bv32, k: nat, text: seq<Char>, n: nat, len: nat)
    requires AllBase64(text) && Unwritten(acc, k, text, n, len) && n < |text|
    ensures k == 0 || k == 2 || k == 4 || k == 6
    ensures var acc' := PushSextet(acc, ValueOf(text[n]));
            if k == 0 then Unwritten(acc', 6, text, n + 1, len)
            else && Unwritten(acc', k - 2, text, n + 1, len + 1)
                 && TakeByte(acc', k - 2) == DecodedByte(text, len)
  {
    hide LowBits, TakeByte, PushSextet, Join0, Join1, Join2, DecodedByte, IsBase64, ValueOf;
    assert k == 2 * (3 * n - 4 * len);
    TextValue(text, n);
    if n > 0 {
      TextValue(text, n - 1);
    }
    TakenBits(acc, if n > 0 then ValueAt(text, n - 1) else 0, ValueAt(text, n), k);
    var q := len / 3;
    DecodedGroup(text, q);
    assert k == 6 ==> len == 3 * q && n == 4 * q + 1;
    assert k == 4 ==> len == 3 * q + 1 && n == 4 * q + 2;
    assert k == 2 ==> len == 3 * q + 2 && n == 4 * q + 3;
  }

  lemma LeftOver(acc: bv32, k: nat, text: seq<Char>, len: nat)
    requires Unwritten(acc, k, text, |text|, len)
    ensures len == ByteCount(|text|)
    ensures Canonical(text) <==> k <= 4 && LowBits(acc, k) == 0
  {
    assert k == 2 * (3 * |text| - 4 * len);
    if k == 2 {
      TailMask(ValueAt(text, |text| - 1));
    } else if k == 4 {
      TailMask(ValueAt(text, |text| - 1));
    }
    hide LowBits, ValueAt;
  }

  lemma TailMask(v: bv8)
    ensures LowBits(v as bv32, 4) == 0 <==> v & 15 == 0
    ensures LowBits(v as bv32, 2) == 0 <==> v & 3 == 0
  {
  }

  /** `from_base64` on the string at `str + pos` with room for `capacity`
      bytes: succeeds exactly on canonical text that fits, and then yields the
      decoded bytes and the first character outside the alphabet. */
  method FromBase64(dst: array<bv8>, capacity: nat, str: seq<Char>, pos: nat)
    returns (ok: bool, len: nat, next: nat)
    requires pos <= |str| && capacity <= dst.Length
    modifies dst
    ensures var text := str[pos..RunEnd(str, pos)];
            && (ok <==> Canonical(text) && ByteCount(|text|) <= capacity)
            && (ok ==> next == RunEnd(str, pos) && len == ByteCount(|text|) && dst[..len] == Decoded(text))
    ensures len <= capacity && forall k :: len <= k < dst.Length ==> dst[k] == old(dst[k])
  {
    hide LowBits, TakeByte, PushSextet, DecodedByte, ValueOf, Unwritten, RunEnd;
    ghost var text := str[pos..RunEnd(str, pos)];
    len, next := 0, pos;
    var acc: bv32, accLen := 0, 0;
    StartUnwritten(text);
    while true
      invariant pos <= next <= pos + |text| && accLen <= 6
      invariant Unwritten(acc, accLen, text, next - pos, len)
      invariant len <= capacity && forall i :: 0 <= i < len ==> dst[i] == DecodedByte(text, i)
      invariant forall k :: len <= k < dst.Length ==> dst[k] == old(dst[k])
      decreases pos + |text| - next
    {
      var d := ValueOf(CharAt(str, next));
      RunMember(str, pos, next);
      if d == NOT_BASE64 {
        break;
      }
      assert CharAt(str, next) == text[next - pos];
      Taken(acc, accLen, text, next - pos, len);
      next := next + 1;
      acc := PushSextet(acc, d);
      accLen := accLen + 6;
      if accLen >= 8 {
        accLen := accLen - 8;
        if len >= capacity {
          UnwrittenBound(acc, accLen, text, next - pos, len + 1);
          return false, len, next;
        }
        dst[len] := TakeByte(acc, accLen);
        len := len + 1;
      }
    }
    LeftOver(acc, accLen, text, len);
    if accLen > 4 || LowBits(acc, accLen) != 0 {
      return false, len, next;
    }
    ok := true;
    assert dst[..len] == Decoded(text);
  }

  lemma StartUnwritten(text: seq<Char>)
    ensures Unwritten(0, 0, text, 0, 0)
  {
  }

  lemma RunMember(str: seq<Char>, pos: nat, next: nat)
    requires pos <= |str| && pos <= next <= RunEnd(str, pos)
    ensures IsBase64(CharAt(str, next)) <==> next < RunEnd(str, pos)
  {
    hide IsBase64, RunEnd;
    if next < RunEnd(str, pos) {
      assert str[next] == str[pos..RunEnd(str, pos)][next - pos];
    }
  }

  lemma UnwrittenBound(acc: bv32, k: nat, text: seq<Char>, n: nat, len: nat)
    requires Unwritten(acc, k, text, n, len)
    ensures len <= ByteCount(|text|)
  {
    hide LowBits, ValueAt;
  }
}
