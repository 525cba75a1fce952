/** Argon2 hash strings: the decimal and field parsers of encoding.c, the
    printer, the exact length of what it prints, and what argon2_verify can
    read back. A C string pointer is the rest of the string it points into. */
module HashString {
  import opened Common
  import opened Argon2Params
  import opened Base64

  const ULONG_MAX: nat := TWO64 - 1

  // ------------------------------------------------------------ decimals

  predicate IsDigit(c: Char) { 48 <= c <= 57 }

  function DigitValue(c: Char): int { (c as int) - 48 }

  function DigitChar(d: nat): Char
    requires d < 10
  {
    (48 + d) as bv8
  }

  lemma DigitOfChar(c: Char)
    requires IsDigit(c)
    ensures 0 <= DigitValue(c) <= 9 && DigitChar(DigitValue(c)) == c
  {
    assert c == 48 || c == 49 || c == 50 || c == 51 || c == 52 || c == 53 || c == 54 || c == 55 || c == 56 || c == 57;
  }

  lemma CharOfDigit(d: nat)
    requires d < 10
    ensures IsDigit(DigitChar(d)) && DigitValue(DigitChar(d)) == d
  {
    assert d == 0 || d == 1 || d == 2 || d == 3 || d == 4 || d == 5 || d == 6 || d == 7 || d == 8 || d == 9;
  }

  /** What `sprintf` prints for "%lu". */
  function Dec(n: nat): (s: seq<Char>)
    ensures |s| > 0
  {
    if n < 10 then [DigitChar(n)] else Dec(n / 10) + [DigitChar(n % 10)]
  }

  predicate AllDigits(s: seq<Char>) {
    forall i :: 0 <= i < |s| ==> IsDigit(s[i])
  }

  function Value(s: seq<Char>): nat
    requires AllDigits(s)
  {
    if s == [] then 0
    else (
      DigitOfChar(s[|s| - 1]);
      10 * Value(s[..|s| - 1]) + DigitValue(s[|s| - 1])
    )
  }

  /** Digits with no superfluous leading zero. */
  predicate Minimal(s: seq<Char>) {
    |s| > 0 && (s[0] == 48 ==> |s| == 1)
  }

  lemma {:induction false} ValueOfDec(n: nat)
    ensures AllDigits(Dec(n)) && Minimal(Dec(n)) && Value(Dec(n)) == n
    ensures Dec(n)[0] == 48 ==> n == 0
  {
    hide DigitChar, IsDigit, DigitValue;
    CharOfDigit(n % 10);
    if n < 10 {
      assert Dec(n) == [DigitChar(n)];
      assert Value([]) == 0;
      ZeroDigit(n);
    } else {
      ValueOfDec(n / 10);
      assert Dec(n)[..|Dec(n)| - 1] == Dec(n / 10);
    }
  }

  lemma ZeroDigit(d: nat)
    requires d < 10
    ensures DigitChar(d) == 48 ==> d == 0
  {
    CharOfDigit(d);
  }

  lemma {:induction false} DecOfValue(s: seq<Char>)
    requires AllDigits(s) && Minimal(s)
    ensures Dec(Value(s)) == s
    ensures Value(s) == 0 ==> s == [48]
  {
    hide DigitChar, IsDigit, DigitValue;
    var last := s[|s| - 1];
    var front := s[..|s| - 1];
    DigitOfChar(last);
    if |s| == 1 {
      assert Value(front) == 0;
      assert s == [last];
      ZeroIsDigit();
    } else {
      DecOfValue(front);
      assert Value(front) > 0;
    }
  }

  lemma ZeroIsDigit()
    ensures IsDigit(48) && DigitValue(48) == 0 && DigitChar(0) == 48
  {
  }

  lemma {:induction false} ValuePrefix(s: seq<Char>, i: nat)
    requires AllDigits(s) && i <= |s|
    ensures Value(s[..i]) <= Value(s)
    decreases |s|
  {
    if i < |s| {
      ValuePrefix(s[..|s| - 1], i);
      assert s[..|s| - 1][..i] == s[..i];
    } else {
      assert s[..i] == s;
    }
  }

  /** `numlen` counts the digits that are printed. */
  method NumLen(num: nat) returns (len: nat)
    ensures len == |Dec(num)|
  {
    hide DigitChar;
    len := 1;
    var n := num;
    while n >= 10
      invariant len + |Dec(n)| == |Dec(num)| + 1
    {
      len := len + 1;
      n := n / 10;
    }
  }

  /** Number of leading digits. */
  function DigitEnd(s: seq<Char>): (end: nat)
    ensures end <= |s| && AllDigits(s[..end])
    ensures end < |s| ==> !IsDigit(s[end])
  {
    if s == [] || !IsDigit(s[0]) then 0
    else (
      var end := DigitEnd(s[1..]) + 1;
      assert forall i :: 0 <= i < end ==> s[i] == if i == 0 then s[0] else s[1..][i - 1];
      end
    )
  }

  /** The number at the front of a string, with the rest of the string. */
  function Number(s: seq<Char>): Option<(nat, seq<Char>)> {
    var digits := s[..DigitEnd(s)];
    if Minimal(digits) && Value(digits) <= ULONG_MAX then Some((Value(digits), s[DigitEnd(s)..])) else None
  }

  /** `decode_decimal`: overflow is caught digit by digit, and exactly then
      when the whole number does not fit. */
  method DecodeDecimal(s: seq<Char>) returns (ok: bool, v: nat, rest: seq<Char>)
    ensures ok <==> Number(s).Some?
    ensures ok ==> Number(s).value == (v, rest)
  {
    hide DigitValue, IsDigit, DigitEnd;
    ghost var digits := s[..DigitEnd(s)];
    var acc, i := 0, 0;
    while true
      invariant i <= |digits| && acc == Value(digits[..i]) <= ULONG_MAX
      decreases |digits| - i
    {
      DigitsEndHere(s, i);
      if !IsDigit(CharAt(s, i)) {
        break;
      }
      var c := DigitValue(CharAt(s, i));
      NextDigit(digits, i);
      ValuePrefix(digits, i + 1);
      if acc > ULONG_MAX / 10 {
        return false, 0, s;
      }
      acc := acc * 10;
      if c > ULONG_MAX - acc {
        return false, 0, s;
      }
      acc := acc + c;
      i := i + 1;
    }
    assert digits[..i] == digits;
    if i == 0 || (s[0] == 48 && i != 1) {
      return false, 0, s;
    }
    return true, acc, s[i..];
  }

  lemma DigitsEndHere(s: seq<Char>, i: nat)
    requires i <= DigitEnd(s)
    ensures IsDigit(CharAt(s, i)) <==> i < DigitEnd(s)
  {
    hide DigitEnd;
    if i < DigitEnd(s) {
      assert s[i] == s[..DigitEnd(s)][i];
    }
  }

  lemma NextDigit(digits: seq<Char>, i: nat)
    requires AllDigits(digits) && i < |digits|
    ensures 0 <= DigitValue(digits[i]) <= 9
    ensures Value(digits[..i + 1]) == 10 * Value(digits[..i]) + DigitValue(digits[i])
  {
    hide DigitValue, IsDigit;
    DigitOfChar(digits[i]);
    assert digits[..i + 1][..i] == digits[..i];
  }

  // ------------------------------------------------------------ printing

  const DOLLAR: seq<Char> := [36]             // $
  const VERSION: seq<Char> := [36, 118, 61]   // $v=
  const MEMORY: seq<Char> := [36, 109, 61]    // $m=
  const TIME: seq<Char> := [44, 116, 61]      // ,t=
  const LANES: seq<Char> := [44, 112, 61]     // ,p=

  /** argon2d, argon2i, argon2id */
  function TypeName(kind: Argon2Type): seq<Char> {
    match kind
    case Argon2d => [97, 114, 103, 111, 110, 50, 100]
    case Argon2i => [97, 114, 103, 111, 110, 50, 105]
    case Argon2id => [97, 114, 103, 111, 110, 50, 105, 100]
  }

  /** What a hash string carries. */
  datatype Fields = Fields(version: nat, mCost: nat, tCost: nat, lanes: nat, salt: seq<bv8>, out: seq<bv8>)

  function Parameters(f: Fields): seq<Char> {
    MEMORY + (Dec(f.mCost) + (TIME + (Dec(f.tCost) + (LANES + (Dec(f.lanes) + (DOLLAR
    + (Encoded(f.salt) + (DOLLAR + Encoded(f.out)))))))))
  }

  function Printed(kind: Argon2Type, f: Fields): seq<Char> {
    DOLLAR + (TypeName(kind) + (VERSION + (Dec(f.version) + Parameters(f))))
  }

  /** The older form, which leaves out version 16. */
  function PrintedWithoutVersion(kind: Argon2Type, f: Fields): seq<Char> {
    DOLLAR + (TypeName(kind) + Parameters(f))
  }

  /** The characters are those of the text. */
  predicate Reads(s: seq<Char>, text: string) {
    |s| == |text| && forall i :: 0 <= i < |s| ==> s[i] as int == text[i] as int
  }

  /** The layout, spelled out in characters. */
  lemma PrintedLayout(kind: Argon2Type, f: Fields)
    returns (head: seq<Char>, m: seq<Char>, t: seq<Char>, p: seq<Char>, dollar: seq<Char>)
    ensures Reads(head, match kind
                        case Argon2d => "$argon2d$v="
                        case Argon2i => "$argon2i$v="
                        case Argon2id => "$argon2id$v=")
    ensures Reads(m, "$m=") && Reads(t, ",t=") && Reads(p, ",p=") && Reads(dollar, "$")
    ensures Printed(kind, f) ==
            head + Dec(f.version) + m + Dec(f.mCost) + t + Dec(f.tCost)
            + p + Dec(f.lanes) + dollar + Encoded(f.salt) + dollar + Encoded(f.out)
  {
    hide Dec, Encoded;
    PrintedInOrder(kind, f);
    NamesRead(kind);
    SeparatorsRead();
    head, m, t, p, dollar := DOLLAR + TypeName(kind) + VERSION, MEMORY, TIME, LANES, DOLLAR;
    hide TypeName, Reads, Printed;
  }

  lemma SeparatorsRead()
    ensures Reads(DOLLAR, "$") && Reads(MEMORY, "$m=") && Reads(TIME, ",t=") && Reads(LANES, ",p=")
  {
  }

  lemma NamesRead(kind: Argon2Type)
    ensures Reads(DOLLAR + TypeName(kind) + VERSION,
                  match kind
                  case Argon2d => "$argon2d$v="
                  case Argon2i => "$argon2i$v="
                  case Argon2id => "$argon2id$v=")
  {
  }

  lemma DigitsRead(n: nat)
    requires n < 10
    ensures Reads(Dec(n), ["0123456789"[n]])
  {
    CharOfDigit(n);
  }

  function FieldsOf(c: Context): Fields
    requires c.salt.Bytes? && c.out.Bytes?
  {
    Fields(c.version, c.mCost, c.tCost, c.lanes, c.salt.data, c.out.data)
  }

  /** The value of `argon2_encodedlen`; `numlen` and `b64len` are loops and
      assignments in the source. */
  function EncodedLen(tCost: nat, mCost: nat, lanes: nat, saltLen: nat, hashLen: nat, kind: Argon2Type): nat {
    15 + |TypeName(kind)| + |Dec(tCost)| + |Dec(mCost)| + |Dec(lanes)|
    + SextetCount(saltLen) + SextetCount(hashLen) + |Dec(VERSION_13)| + 1
  }

  method Argon2EncodedLen(tCost: nat, mCost: nat, lanes: nat, saltLen: nat, hashLen: nat, kind: Argon2Type)
    returns (n: nat)
    ensures n == EncodedLen(tCost, mCost, lanes, saltLen, hashLen, kind)
  {
    hide Dec;
    var t := NumLen(tCost);
    var m := NumLen(mCost);
    var l := NumLen(lanes);
    var v := NumLen(VERSION_13);
    var s := Base64Length(saltLen);
    var h := Base64Length(hashLen);
    n := 15 + |TypeName(kind)| + t + m + l + s + h + v + 1;
  }

  /** The buffer holds `text` at its front, and its old contents past the zero. */
  predicate Holds(now: seq<Char>, before: seq<Char>, text: seq<Char>) {
    && |text| < |now| == |before|
    && now[..|text|] == text && now[|text|] == 0
    && forall k :: |text| < k < |now| ==> now[k] == before[k]
  }

  /** The macro `SS`. */
  method PutString(dst: array<Char>, text: seq<Char>, ghost printed: seq<Char>, ghost before: seq<Char>, off: nat)
    returns (ok: bool, off': nat)
    requires off == |printed| && (off == 0 ==> dst[..] == before) && (off > 0 ==> Holds(dst[..], before, printed))
    modifies dst
    ensures ok <==> |printed + text| < dst.Length
    ensures ok ==> off' == |printed + text| && Holds(dst[..], before, printed + text)
  {
    if off + |text| >= dst.Length {
      return false, off;
    }
    forall k | 0 <= k < |text| { dst[off + k] := text[k]; }
    dst[off + |text|] := 0;
    ok, off' := true, off + |text|;
    assert dst[..off'] == printed + text;
  }

  /** The macro `SB`. */
  method PutBase64(dst: array<Char>, bytes: seq<bv8>, ghost printed: seq<Char>, ghost before: seq<Char>, off: nat)
    returns (ok: bool, off': nat)
    requires off == |printed| && Holds(dst[..], before, printed)
    modifies dst
    ensures ok <==> |printed + Encoded(bytes)| < dst.Length
    ensures ok ==> off' == |printed + Encoded(bytes)| && Holds(dst[..], before, printed + Encoded(bytes))
  {
    hide Encoded;
    var olen;
    ok, olen := ToBase64(dst, off, bytes);
    off' := off + olen;
    if ok {
      assert dst[..off'] == dst[..off] + dst[off..off'];
    }
  }

  lemma PrintedLength(kind: Argon2Type, f: Fields)
    ensures |Printed(kind, f)| == 15 + |TypeName(kind)| + |Dec(f.version)| + |Dec(f.mCost)| + |Dec(f.tCost)|
              + |Dec(f.lanes)| + |Encoded(f.salt)| + |Encoded(f.out)|
  {
    hide Dec, Encoded, TypeName;
  }

  /** The pieces in printing order. */
  lemma PrintedInOrder(kind: Argon2Type, f: Fields)
    ensures DOLLAR + TypeName(kind) + VERSION + Dec(f.version) + MEMORY + Dec(f.mCost) + TIME + Dec(f.tCost)
            + LANES + Dec(f.lanes) + DOLLAR + Encoded(f.salt) + DOLLAR + Encoded(f.out) == Printed(kind, f)
  {
    hide Dec, Encoded, TypeName;
  }

  /** `encode_string`: for a valid context it succeeds exactly when the string
      and its final zero fit the buffer, and then leaves the rest alone. */
  method EncodeString(dst: array<Char>, c: Context, kind: Argon2Type) returns (code: Code)
    modifies dst
    ensures ValidateInputs(c) != Ok ==> code == ValidateInputs(c)
    ensures ValidContext(c) ==>
              && (code == Ok || code == EncodingFail)
              && (code == Ok <==> |Printed(kind, FieldsOf(c))| < dst.Length)
              && (code == Ok ==> Holds(dst[..], old(dst[..]), Printed(kind, FieldsOf(c))))
  {
    hide Dec, Encoded, TypeName, Holds, Printed;
    code := ValidateInputs(c);
    ValidateInputsExact(c);
    if code != Ok {
      return;
    }
    code := EncodingFail;
    ghost var f := FieldsOf(c);
    ghost var b := dst[..];
    PrintedLength(kind, f);
    PrintedInOrder(kind, f);
    ghost var t := [];
    var ok, off := PutString(dst, DOLLAR, t, b, 0);
    if !ok { return; }
    t := DOLLAR;
    ok, off := PutString(dst, TypeName(kind), t, b, off);
    if !ok { return; }
    t := t + TypeName(kind);
    ok, off := PutString(dst, VERSION, t, b, off);
    if !ok { return; }
    t := t + VERSION;
    ok, off := PutString(dst, Dec(c.version), t, b, off);
    if !ok { return; }
    t := t + Dec(c.version);
    ok, off := PutString(dst, MEMORY, t, b, off);
    if !ok { return; }
    t := t + MEMORY;
    ok, off := PutString(dst, Dec(c.mCost), t, b, off);
    if !ok { return; }
    t := t + Dec(c.mCost);
    ok, off := PutString(dst, TIME, t, b, off);
    if !ok { return; }
    t := t + TIME;
    ok, off := PutString(dst, Dec(c.tCost), t, b, off);
    if !ok { return; }
    t := t + Dec(c.tCost);
    ok, off := PutString(dst, LANES, t, b, off);
    if !ok { return; }
    t := t + LANES;
    ok, off := PutString(dst, Dec(c.lanes), t, b, off);
    if !ok { return; }
    t := t + Dec(c.lanes);
    ok, off := PutString(dst, DOLLAR, t, b, off);
    if !ok { return; }
    t := t + DOLLAR;
    ok, off := PutBase64(dst, c.salt.data, t, b, off);
    if !ok { return; }
    t := t + Encoded(c.salt.data);
    ok, off := PutString(dst, DOLLAR, t, b, off);
    if !ok { return; }
    t := t + DOLLAR;
    ok, off := PutBase64(dst, c.out.data, t, b, off);
    if !ok { return; }
    code := Ok;
  }

  lemma TwoDigits(n: nat)
    ensures |Dec(n)| == 2 <==> 10 <= n <= 99
  {
    hide DigitChar;
    if n >= 100 {
      assert Dec(n / 10) == Dec(n / 10 / 10) + [DigitChar(n / 10 % 10)];
    }
  }

  /** `argon2_encodedlen` counts two digits for the version whatever the
      context says: it is the space the string needs exactly for the versions
      that have two digits, 16 and 19 among them. */
  lemma EncodedLenIsExact(c: Context, kind: Argon2Type)
    requires ValidContext(c)
    ensures EncodedLen(c.tCost, c.mCost, c.lanes, |c.salt.data|, |c.out.data|, kind)
            == |Printed(kind, FieldsOf(c))| + 1
            <==> 10 <= c.version <= 99
  {
    PrintedLength(kind, FieldsOf(c));
    TwoDigits(c.version);
    TwoDigits(VERSION_13);
    hide Dec, TypeName, Printed, SextetCount;
  }

  // ------------------------------------------------------------ parsing

  /** The macro `CC`: the rest of the string after a prefix. */
  function Skip(s: seq<Char>, prefix: seq<Char>): Option<seq<Char>> {
    if prefix <= s then Some(s[|prefix|..]) else None
  }

  /** The macro `DECIMAL_U32`. */
  function Number32(s: seq<Char>): Option<(nat, seq<Char>)> {
    var r :- Number(s);
    if r.0 > U32_MAX then None else Some(r)
  }

  /** The macro `BIN`, for a buffer of `capacity` bytes. */
  function Binary(s: seq<Char>, capacity: nat): Option<(seq<bv8>, seq<Char>)> {
    var text := s[0..RunEnd(s, 0)];
    if Canonical(text) && ByteCount(|text|) <= capacity && ByteCount(|text|) <= U32_MAX
    then Some((Decoded(text), s[RunEnd(s, 0)..])) else None
  }

  function Version(s: seq<Char>): Option<(nat, seq<Char>)> {
    var r := Skip(s, VERSION);
    if r.Some? then Number32(r.value) else Some((VERSION_10, s))
  }

  function FieldsAfterVersion(version: nat, s: seq<Char>, saltCapacity: nat, outCapacity: nat)
    : Option<(Fields, seq<Char>)>
  {
    var s :- Skip(s, MEMORY);
    var (m, s) :- Number32(s);
    var s :- Skip(s, TIME);
    var (t, s) :- Number32(s);
    var s :- Skip(s, LANES);
    var (l, s) :- Number32(s);
    var s :- Skip(s, DOLLAR);
    var (salt, s) :- Binary(s, saltCapacity);
    var s :- Skip(s, DOLLAR);
    var (out, s) :- Binary(s, outCapacity);
    Some((Fields(version, m, t, l, salt, out), s))
  }

  /** All that `decode_string` reads before it validates, with what is left. */
  function Parse(kind: Argon2Type, s: seq<Char>, saltCapacity: nat, outCapacity: nat): Option<(Fields, seq<Char>)> {
    var s :- Skip(s, DOLLAR);
    var s :- Skip(s, TypeName(kind));
    var (v, s) :- Version(s);
    FieldsAfterVersion(v, s, saltCapacity, outCapacity)
  }

  /** The context `decode_string` leaves: secret, associated data and
      allocators cleared, as many threads as lanes, the password untouched. */
  function ContextOf(f: Fields, pwd: Buffer): Context {
    Context(Bytes(f.out), pwd, Bytes(f.salt), Null(0), Null(0),
            f.tCost, f.mCost, f.lanes, f.lanes, f.version, false, false)
  }

  // ------------------------------------------------------------ each parser undoes its printer

  lemma SkipPrefix(p: seq<Char>, r: seq<Char>)
    ensures Skip(p + r, p) == Some(r)
  {
    assert (p + r)[|p|..] == r;
  }

  lemma SkipSound(s: seq<Char>, p: seq<Char>)
    requires Skip(s, p).Some?
    ensures s == p + Skip(s, p).value
  {
  }

  predicate StopsDigits(r: seq<Char>) { r == [] || !IsDigit(r[0]) }

  predicate StopsBase64(r: seq<Char>) { !IsBase64(CharAt(r, 0)) }

  lemma {:induction false} DigitEndIs(d: seq<Char>, r: seq<Char>)
    requires AllDigits(d) && StopsDigits(r)
    ensures DigitEnd(d + r) == |d|
  {
    hide IsDigit;
    if d == [] {
      assert d + r == r;
    } else {
      assert (d + r)[1..] == d[1..] + r;
      DigitEndIs(d[1..], r);
    }
  }

  /** A printed number is read exactly if it has 64 bits. */
  lemma NumberOfDec(n: nat, r: seq<Char>)
    requires StopsDigits(r)
    ensures Number(Dec(n) + r) == if n < 0x1_0000_0000_0000_0000 then Some((n, r)) else None
  {
    hide Dec, IsDigit;
    ValueOfDec(n);
    DigitEndIs(Dec(n), r);
    assert (Dec(n) + r)[..|Dec(n)|] == Dec(n);
    assert (Dec(n) + r)[|Dec(n)|..] == r;
  }

  lemma NumberSound(s: seq<Char>)
    requires Number(s).Some?
    ensures s == Dec(Number(s).value.0) + Number(s).value.1
  {
    hide Dec;
    DecOfValue(s[..DigitEnd(s)]);
    assert s == s[..DigitEnd(s)] + s[DigitEnd(s)..];
  }

  lemma BinaryOfEncoded(bs: seq<bv8>, r: seq<Char>, capacity: nat)
    requires StopsBase64(r) && |bs| <= capacity && |bs| <= U32_MAX
    ensures Binary(Encoded(bs) + r, capacity) == Some((bs, r))
  {
    hide Encoded, Canonical, IsBase64;
    var text := Encoded(bs);
    DecodeEncoded(bs);
    assert (text + r)[0..|text|] == text;
    assert CharAt(text + r, |text|) == CharAt(r, 0);
    RunEndIsFirst(text + r, 0, |text|);
    assert (text + r)[|text|..] == r;
    Counts(|bs|);
  }

  lemma BinarySound(s: seq<Char>, capacity: nat)
    requires Binary(s, capacity).Some?
    ensures s == Encoded(Binary(s, capacity).value.0) + Binary(s, capacity).value.1
  {
    hide Encoded, Decoded, Canonical, RunEnd, AllBase64;
    EncodeDecoded(s[0..RunEnd(s, 0)]);
    assert s == s[0..RunEnd(s, 0)] + s[RunEnd(s, 0)..];
  }

  /** The separators end numbers and Base64 alike. */
  lemma SeparatorsStop()
    ensures !IsDigit(36) && !IsDigit(44) && !IsBase64(36) && !IsBase64(0)
  {
  }

  // ------------------------------------------------------------ whole strings

  predicate Fits(f: Fields, saltCapacity: nat, outCapacity: nat) {
    && f.version <= U32_MAX && f.mCost <= U32_MAX && f.tCost <= U32_MAX && f.lanes <= U32_MAX
    && |f.salt| <= saltCapacity && |f.salt| <= U32_MAX
    && |f.out| <= outCapacity && |f.out| <= U32_MAX
  }

  lemma NumberField(n: nat, prefix: seq<Char>, r: seq<Char>)
    requires n <= U32_MAX && (prefix == TIME || prefix == LANES || prefix == DOLLAR || prefix == MEMORY)
    ensures Number32(Dec(n) + (prefix + r)) == Some((n, prefix + r))
  {
    hide Dec, Number;
    SeparatorsStop();
    hide IsDigit;
    assert (prefix + r)[0] == prefix[0];
    NumberOfDec(n, prefix + r);
  }

  /** The parameters with something after them, in parsing order. */
  function ParametersThen(f: Fields, rest: seq<Char>): seq<Char> {
    MEMORY + (Dec(f.mCost) + (TIME + (Dec(f.tCost) + (LANES + (Dec(f.lanes) + (DOLLAR
    + (Encoded(f.salt) + (DOLLAR + (Encoded(f.out) + rest)))))))))
  }

  lemma ThenAppends(f: Fields, rest: seq<Char>)
    ensures ParametersThen(f, rest) == Parameters(f) + rest
  {
    hide Dec, Encoded;
    var m, t, l, salt, out := Dec(f.mCost), Dec(f.tCost), Dec(f.lanes), Encoded(f.salt), Encoded(f.out);
    JoinFour(DOLLAR, salt, DOLLAR, out, rest);
    var r6 := DOLLAR + (salt + (DOLLAR + out));
    JoinFour(TIME, t, LANES, l + r6, rest);
    assert (l + r6) + rest == l + (r6 + rest);
    var r3 := TIME + (t + (LANES + (l + r6)));
    assert (MEMORY + (m + r3)) + rest == MEMORY + (m + (r3 + rest));
  }

  lemma JoinFour(a: seq<Char>, b: seq<Char>, c: seq<Char>, d: seq<Char>, e: seq<Char>)
    ensures (a + (b + (c + d))) + e == a + (b + (c + (d + e)))
  {
  }

  lemma ParseParameters(f: Fields, rest: seq<Char>, saltCapacity: nat, outCapacity: nat)
    requires Fits(f, saltCapacity, outCapacity) && StopsBase64(rest)
    ensures FieldsAfterVersion(f.version, Parameters(f) + rest, saltCapacity, outCapacity) == Some((f, rest))
  {
    hide Dec, Encoded, Skip, Number32, Binary;
    SeparatorsStop();
    ThenAppends(f, rest);
    hide IsBase64;
    var out := Encoded(f.out) + rest;
    BinaryOfEncoded(f.out, rest, outCapacity);
    var r9 := DOLLAR + out;
    SkipPrefix(DOLLAR, out);
    var r8 := Encoded(f.salt) + r9;
    assert r9[0] == 36;
    BinaryOfEncoded(f.salt, r9, saltCapacity);
    SkipPrefix(DOLLAR, r8);
    var r6 := Dec(f.lanes) + (DOLLAR + r8);
    NumberField(f.lanes, DOLLAR, r8);
    SkipPrefix(LANES, r6);
    var r4 := Dec(f.tCost) + (LANES + r6);
    NumberField(f.tCost, LANES, r6);
    SkipPrefix(TIME, r4);
    NumberField(f.mCost, TIME, r4);
    SkipPrefix(MEMORY, Dec(f.mCost) + (TIME + r4));
  }

  /** Parsing undoes printing, with or without version 16 written out, and leaves
      what comes after. */
  lemma ParseThen(kind: Argon2Type, f: Fields, rest: seq<Char>, saltCapacity: nat, outCapacity: nat)
    requires Fits(f, saltCapacity, outCapacity) && StopsBase64(rest)
    ensures Parse(kind, Printed(kind, f) + rest, saltCapacity, outCapacity) == Some((f, rest))
    ensures f.version == 16 ==>
              Parse(kind, PrintedWithoutVersion(kind, f) + rest, saltCapacity, outCapacity) == Some((f, rest))
  {
    hide Dec, Encoded, Skip, Number32, TypeName, FieldsAfterVersion, Parameters, StopsBase64;
    ParseParameters(f, rest, saltCapacity, outCapacity);
    VersionOfPrinted(f, rest);
    var name, version, parameters := TypeName(kind), VERSION + Dec(f.version), Parameters(f) + rest;
    var s2 := VERSION + (Dec(f.version) + parameters);
    assert Printed(kind, f) + rest == DOLLAR + (name + s2);
    SkipPrefix(name, s2);
    SkipPrefix(DOLLAR, name + s2);
    assert PrintedWithoutVersion(kind, f) + rest == DOLLAR + (name + parameters);
    SkipPrefix(name, parameters);
    SkipPrefix(DOLLAR, name + parameters);
  }

  lemma ParsePrinted(kind: Argon2Type, f: Fields, saltCapacity: nat, outCapacity: nat)
    requires Fits(f, saltCapacity, outCapacity)
    ensures Parse(kind, Printed(kind, f), saltCapacity, outCapacity) == Some((f, []))
  {
    hide Printed, Parse;
    SeparatorsStop();
    ParseThen(kind, f, [], saltCapacity, outCapacity);
    assert Printed(kind, f) + [] == Printed(kind, f);
  }

  lemma VersionOfPrinted(f: Fields, rest: seq<Char>)
    requires f.version <= U32_MAX
    ensures Version(VERSION + (Dec(f.version) + (Parameters(f) + rest))) == Some((f.version, Parameters(f) + rest))
    ensures Version(Parameters(f) + rest) == Some((VERSION_10, Parameters(f) + rest))
  {
    hide Dec, Encoded, Number32;
    var r := Dec(f.mCost) + (TIME + (Dec(f.tCost) + (LANES + (Dec(f.lanes) + (DOLLAR
             + (Encoded(f.salt) + (DOLLAR + Encoded(f.out))))))));
    assert Parameters(f) + rest == MEMORY + (r + rest);
    hide Parameters;
    NumberField(f.version, MEMORY, r + rest);
    SkipPrefix(VERSION, Dec(f.version) + (Parameters(f) + rest));
    assert (Parameters(f) + rest)[1] == 109;
  }

  /** The parser accepts nothing but what the printer prints, up to the
      omission of version 16. */
  lemma ParseSound(kind: Argon2Type, s: seq<Char>, saltCapacity: nat, outCapacity: nat)
    requires Parse(kind, s, saltCapacity, outCapacity).Some?
    ensures var (f, rest) := Parse(kind, s, saltCapacity, outCapacity).value;
            || s == Printed(kind, f) + rest
            || (f.version == VERSION_10 && s == PrintedWithoutVersion(kind, f) + rest)
  {
    hide Dec, Encoded, Skip, Number32, TypeName, FieldsAfterVersion, Parameters;
    SkipSound(s, DOLLAR);
    var s1 := Skip(s, DOLLAR).value;
    SkipSound(s1, TypeName(kind));
    var s2 := Skip(s1, TypeName(kind)).value;
    VersionSound(s2);
    var (v, s3) := Version(s2).value;
    ParametersSound(v, s3, saltCapacity, outCapacity);
  }

  lemma VersionSound(s: seq<Char>)
    requires Version(s).Some?
    ensures var (v, rest) := Version(s).value;
            s == VERSION + (Dec(v) + rest) || (v == VERSION_10 && s == rest)
  {
    hide Dec, Skip, Number;
    if Skip(s, VERSION).Some? {
      SkipSound(s, VERSION);
      NumberSound(Skip(s, VERSION).value);
    }
  }

  lemma ParametersSound(version: nat, s: seq<Char>, saltCapacity: nat, outCapacity: nat)
    requires FieldsAfterVersion(version, s, saltCapacity, outCapacity).Some?
    ensures var (f, rest) := FieldsAfterVersion(version, s, saltCapacity, outCapacity).value;
            f.version == version && s == Parameters(f) + rest
  {
    hide Dec, Encoded, Skip, Number, Binary;
    SkipSound(s, MEMORY);
    var s1 := Skip(s, MEMORY).value;
    NumberSound(s1);
    var (m, s2) := Number32(s1).value;
    SkipSound(s2, TIME);
    var s3 := Skip(s2, TIME).value;
    NumberSound(s3);
    var (t, s4) := Number32(s3).value;
    SkipSound(s4, LANES);
    var s5 := Skip(s4, LANES).value;
    NumberSound(s5);
    var (l, s6) := Number32(s5).value;
    SkipSound(s6, DOLLAR);
    var s7 := Skip(s6, DOLLAR).value;
    BinarySound(s7, saltCapacity);
    var (salt, s8) := Binary(s7, saltCapacity).value;
    SkipSound(s8, DOLLAR);
    var s9 := Skip(s8, DOLLAR).value;
    BinarySound(s9, outCapacity);
  }

  /** A string printed for one Argon2 type does not parse as another, although
      the name of one type is a prefix of another's. */
  lemma ParseOtherType(kind: Argon2Type, other: Argon2Type, f: Fields, saltCapacity: nat, outCapacity: nat)
    requires kind != other
    ensures Parse(other, Printed(kind, f), saltCapacity, outCapacity) == None
  {
    hide Dec, Parameters, Number32, Binary;
    var tail := VERSION + (Dec(f.version) + Parameters(f));
    var s := TypeName(kind) + tail;
    SkipPrefix(DOLLAR, s);
    if other.Argon2i? && kind.Argon2id? {
      var rest := Skip(s, TypeName(other)).value;
      assert rest[0] == 100;
      assert Skip(rest, VERSION).None? && Skip(rest, MEMORY).None?;
    } else if other.Argon2id? && kind.Argon2i? {
      assert s[7] == 36 && TypeName(other)[7] == 100;
      assert !(TypeName(other) <= s);
    } else {
      assert s[6] == TypeName(kind)[6] != TypeName(other)[6];
      assert !(TypeName(other) <= s);
    }
  }

  // ------------------------------------------------------------ decode_string and argon2_verify

  function DecodeCode(kind: Argon2Type, s: seq<Char>, pwd: Buffer, saltCapacity: nat, outCapacity: nat): Code {
    match Parse(kind, s, saltCapacity, outCapacity)
    case None => DecodingFail
    case Some((f, rest)) =>
      var code := ValidateInputs(ContextOf(f, pwd));
      if code != Ok then code else if rest == [] then Ok else DecodingFail
  }

  /** What becomes of a printed string with something after it: the input checks
      come first, and only then what is left over. */
  lemma DecodeOutcome(kind: Argon2Type, f: Fields, rest: seq<Char>, pwd: Buffer, saltCapacity: nat, outCapacity: nat)
    requires Fits(f, saltCapacity, outCapacity) && StopsBase64(rest)
    ensures var c := Context(Bytes(f.out), pwd, Bytes(f.salt), Null(0), Null(0), f.tCost, f.mCost,
                             f.lanes, f.lanes, f.version, false, false);
            var s := Printed(kind, f) + rest;
            DecodeCode(kind, s, pwd, saltCapacity, outCapacity) ==
            if ValidateInputs(c) != Ok then ValidateInputs(c) else if rest == [] then Ok else DecodingFail
  {
    hide Parse, Printed, ValidateInputs;
    ParseThen(kind, f, rest, saltCapacity, outCapacity);
  }

  /** `decode_string`: `c` brings the password and, as the lengths of its salt
      and output buffers, their capacities. */
  method DecodeString(c: Context, str: seq<Char>, kind: Argon2Type) returns (code: Code, c': Context)
    requires c.salt.Bytes? && c.out.Bytes? && 0 !in str
    ensures code == DecodeCode(kind, str, c.pwd, |c.salt.data|, |c.out.data|)
    ensures code == Ok ==>
              && Parse(kind, str, |c.salt.data|, |c.out.data|).Some?
              && c' == ContextOf(Parse(kind, str, |c.salt.data|, |c.out.data|).value.0, c.pwd)
              && FieldsOf(c') == Parse(kind, str, |c.salt.data|, |c.out.data|).value.0
              && c'.threads == c'.lanes && c'.pwd == c.pwd && c'.secret == Null(0) && c'.ad == Null(0)
              && !c'.hasAllocate && !c'.hasFree
  {
    hide TypeName, ValidateInputs, Number32, Binary;
    code, c' := DecodingFail, c;
    var s := str;
    if !(DOLLAR <= s) { return; }
    s := s[|DOLLAR|..];
    if !(TypeName(kind) <= s) { return; }
    s := s[|TypeName(kind)|..];
    var ok, version, m, t, l := true, VERSION_10, 0, 0, 0;
    if VERSION <= s {
      ok, version, s := DecodeNumberAfter(VERSION, s);
      if !ok { return; }
    }
    ok, m, s := DecodeNumberAfter(MEMORY, s);
    if !ok { return; }
    ok, t, s := DecodeNumberAfter(TIME, s);
    if !ok { return; }
    ok, l, s := DecodeNumberAfter(LANES, s);
    if !ok { return; }
    if !(DOLLAR <= s) { return; }
    s := s[|DOLLAR|..];
    var salt, out;
    ok, salt, s := DecodeBinary(s, |c.salt.data|);
    if !ok { return; }
    if !(DOLLAR <= s) { return; }
    s := s[|DOLLAR|..];
    ok, out, s := DecodeBinary(s, |c.out.data|);
    if !ok { return; }
    c' := ContextOf(Fields(version, m, t, l, salt, out), c.pwd);
    code := ValidateInputs(c');
    if code != Ok { return; }
    code := if s == [] then Ok else DecodingFail;
  }

  /** The macros `CC` and `DECIMAL_U32` in a row. */
  method DecodeNumberAfter(prefix: seq<Char>, s: seq<Char>) returns (ok: bool, v: nat, rest: seq<Char>)
    ensures var skipped := Skip(s, prefix);
            && (ok <==> skipped.Some? && Number32(skipped.value).Some?)
            && (ok ==> Number32(skipped.value).value == (v, rest))
  {
    hide Number;
    if !(prefix <= s) {
      return false, 0, s;
    }
    ok, v, rest := DecodeDecimal(s[|prefix|..]);
    ok := ok && v <= U32_MAX;
  }

  /** The macro `BIN`. */
  method DecodeBinary(s: seq<Char>, capacity: nat) returns (ok: bool, bytes: seq<bv8>, rest: seq<Char>)
    ensures ok <==> Binary(s, capacity).Some?
    ensures ok ==> Binary(s, capacity).value == (bytes, rest)
  {
    hide RunEnd, Canonical, Decoded;
    var buf := new bv8[capacity];
    var len, next;
    ok, len, next := FromBase64(buf, capacity, s, 0);
    bytes, rest := [], s;
    if !ok || len > U32_MAX {
      return false, bytes, rest;
    }
    bytes, rest := buf[..len], s[next..];
  }

  function VerifyCode(kind: Argon2Type, encoded: seq<Char>, pwd: Buffer): Code {
    if pwd.Len() > U32_MAX then PwdTooLong
    else if |encoded| > U32_MAX then DecodingFail
    else DecodeCode(kind, encoded, pwd, |encoded|, |encoded|)
  }

  /** `argon2_verify` up to the decoded context. */
  method VerifyDecode(encoded: seq<Char>, pwd: Buffer, kind: Argon2Type) returns (code: Code, c: Context)
    requires 0 !in encoded
    ensures code == VerifyCode(kind, encoded, pwd)
    ensures code == Ok ==>
              && Parse(kind, encoded, |encoded|, |encoded|).Some?
              && c == ContextOf(Parse(kind, encoded, |encoded|, |encoded|).value.0, pwd)
    ensures pwd.Len() > 0xFFFF_FFFF ==> code == PwdTooLong
    ensures pwd.Len() <= 0xFFFF_FFFF && |encoded| > 0xFFFF_FFFF ==> code == DecodingFail
  {
    hide DecodeCode, Parse;
    var room := Bytes(seq(|encoded|, _ => 0));
    c := Context(room, pwd, room, Null(0), Null(0), 0, 0, 0, 0, 0, false, false);
    if pwd.Len() > U32_MAX {
      return PwdTooLong, c;
    }
    if |encoded| > U32_MAX {
      return DecodingFail, c;
    }
    code, c := DecodeString(c, encoded, kind);
  }

  lemma TextIsLonger(n: nat)
    ensures n <= SextetCount(n)
  {
  }

  /** Reading back what was printed: it succeeds exactly when the string is no
      longer than a 32-bit length, and recovers every parameter. */
  lemma VerifyReadsPrinted(c: Context, kind: Argon2Type, pwd: Buffer)
    requires ValidContext(c) && c.version <= U32_MAX && ValidOptional(pwd)
    ensures var encoded := Printed(kind, FieldsOf(c));
            && (VerifyCode(kind, encoded, pwd) == Ok <==> |encoded| <= U32_MAX)
            && (|encoded| <= U32_MAX ==>
                  Parse(kind, encoded, |encoded|, |encoded|) == Some((FieldsOf(c), [])))
  {
    hide Printed, Parse, ValidateInputs, Dec, Encoded, TypeName;
    var f := FieldsOf(c);
    var encoded := Printed(kind, f);
    if |encoded| <= U32_MAX {
      PrintedLength(kind, f);
      TextIsLonger(|f.salt|);
      TextIsLonger(|f.out|);
      EncodedSize(f.salt);
      EncodedSize(f.out);
      ParsePrinted(kind, f, |encoded|, |encoded|);
      ValidateInputsExact(ContextOf(f, pwd));
    }
  }

  /** The other side exists: this valid context is printed, but its hash string is
      too long to be verified. */
  lemma LongSaltIsRefused(kind: Argon2Type)
    ensures var zeros: nat -> bv8 := _ => 0;
            var c := Context(Bytes(seq(4, zeros)), Bytes([]), Bytes(seq(U32_MAX, zeros)), Null(0), Null(0),
                             1, 8, 1, 1, VERSION_13, false, false);
            && ValidContext(c)
            && |Printed(kind, FieldsOf(c))| > U32_MAX
            && VerifyCode(kind, Printed(kind, FieldsOf(c)), Bytes([])) == DecodingFail
  {
    hide Printed, Parse, ValidateInputs, Dec, Encoded, TypeName;
    var zeros: nat -> bv8 := _ => 0;
    var c := Context(Bytes(seq(4, zeros)), Bytes([]), Bytes(seq(U32_MAX, zeros)), Null(0), Null(0),
                     1, 8, 1, 1, VERSION_13, false, false);
    PrintedLength(kind, FieldsOf(c));
    EncodedSize(c.salt.data);
    TextIsLonger(U32_MAX);
  }

  lemma EncodedSize(bs: seq<bv8>)
    ensures |Encoded(bs)| == SextetCount(|bs|)
  {
  }

  /** A hash string never verifies under another Argon2 type. */
  lemma VerifyRejectsOtherType(c: Context, kind: Argon2Type, other: Argon2Type, pwd: Buffer)
    requires ValidContext(c) && other != kind && pwd.Len() <= U32_MAX
    ensures VerifyCode(other, Printed(kind, FieldsOf(c)), pwd) == DecodingFail
  {
    hide Printed, Parse;
    var encoded := Printed(kind, FieldsOf(c));
    ParseOtherType(kind, other, FieldsOf(c), |encoded|, |encoded|);
  }

  /** Whatever `argon2_verify` accepts is the printed form of the context it
      decodes, with the version left out at most when it is 16. */
  lemma VerifyAcceptsOnlyPrinted(kind: Argon2Type, encoded: seq<Char>, pwd: Buffer)
    requires VerifyCode(kind, encoded, pwd) == Ok
    ensures Parse(kind, encoded, |encoded|, |encoded|).Some?
    ensures var f := Parse(kind, encoded, |encoded|, |encoded|).value.0;
            && ValidContext(ContextOf(f, pwd))
            && (|| encoded == Printed(kind, f)
                || (f.version == VERSION_10 && encoded == PrintedWithoutVersion(kind, f)))
  {
    hide Printed, Parse, PrintedWithoutVersion;
    ParseSound(kind, encoded, |encoded|, |encoded|);
    var (f, rest) := Parse(kind, encoded, |encoded|, |encoded|).value;
    assert Printed(kind, f) + [] == Printed(kind, f);
    assert PrintedWithoutVersion(kind, f) + [] == PrintedWithoutVersion(kind, f);
    ValidateInputsExact(ContextOf(f, pwd));
  }
}
