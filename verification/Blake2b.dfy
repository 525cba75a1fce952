/** The streaming interface of blake2b.c and the variable-length hash built on
    it, for any compression function: chunking does not matter, the digest is
    the one of RFC 7693 section 3.3, and `blake2b_long` is the H' of RFC 9106
    section 3.3. */
module Blake2b {
  import opened Common
  import opened Arith

  const BLOCK: nat := 128
  const OUTBYTES: nat := 64
  const KEYBYTES: nat := 64
  const WORD: nat := 0x1_0000_0000_0000_0000
  const ALL_ONES: nat := WORD - 1

  type Bytes = seq<bv8>

  /** `init` is the chaining value that an output length starts from, `keyedInit`
      the one that output and key length give, and `compress` takes
      chaining value, block, and the words t0, t1, f0, f1. */
  datatype Algorithm<!H> = Algorithm(
    init: nat -> H,
    keyedInit: (nat, nat) -> H,
    compress: (H, Bytes, nat, nat, nat, nat) -> H,
    output: H -> Bytes)

  ghost predicate ValidAlgorithm<H(!new)>(alg: Algorithm<H>) {
    forall h :: |alg.output(h)| == OUTBYTES
  }

  // ------------------------------------------------------------ RFC 7693 section 3.3

  /** F with its 128-bit offset counter. */
  function F<H>(alg: Algorithm<H>, h: H, block: Bytes, t: nat, last: bool): H {
    alg.compress(h, block, t % WORD, (t / WORD) % WORD, if last then ALL_ONES else 0, 0)
  }

  /** Number of blocks before the last one; an empty message has one block. */
  function FullBlocks(n: nat): nat {
    if n == 0 then 0 else (n - 1) / BLOCK
  }

  function Block(m: Bytes, i: nat): Bytes
    requires BLOCK * i + BLOCK <= |m|
  {
    m[BLOCK * i..BLOCK * i + BLOCK]
  }

  /** The chaining value after the first `i` blocks. */
  function Chained<H>(alg: Algorithm<H>, h: H, m: Bytes, i: nat): H
    requires BLOCK * i <= |m|
  {
    if i == 0 then h else F(alg, Chained(alg, h, m, i - 1), Block(m, i - 1), BLOCK * i, false)
  }

  function Hash<H>(alg: Algorithm<H>, outlen: nat, m: Bytes): Bytes {
    var dd := FullBlocks(|m|);
    var rest := m[BLOCK * dd..];
    var h := F(alg, Chained(alg, alg.init(outlen), m, dd), rest + Repeated(0, BLOCK - |rest|), |m|, true);
    var out := alg.output(h);
    if outlen <= |out| then out[..outlen] else out
  }

  /** The hash once more, from the front: a block is compressed with the bytes
      counted up to and including it; the last one, full or not but never empty
      unless the message is, is padded with zeros and flagged. */
  function FromFront<H>(alg: Algorithm<H>, h: H, counted: nat, m: Bytes): H
    decreases |m|
  {
    if |m| <= 128 then
      var t := counted + |m|;
      alg.compress(h, m + seq(128 - |m|, _ => 0), t % WORD, t / WORD % WORD, 0xFFFF_FFFF_FFFF_FFFF, 0)
    else
      var t := counted + 128;
      FromFront(alg, alg.compress(h, m[..128], t % WORD, t / WORD % WORD, 0, 0), t, m[128..])
  }

  lemma {:induction false} ChainedFromFront<H>(alg: Algorithm<H>, h: H, m: Bytes, i: nat)
    requires i <= FullBlocks(|m|)
    ensures BLOCK * i <= |m| && BLOCK * FullBlocks(|m|) <= |m|
    ensures FromFront(alg, Chained(alg, h, m, i), BLOCK * i, m[BLOCK * i..]) ==
            FromFront(alg, Chained(alg, h, m, FullBlocks(|m|)), BLOCK * FullBlocks(|m|), m[BLOCK * FullBlocks(|m|)..])
    decreases FullBlocks(|m|) - i
  {
    hide FromFront, Chained;
    if i < FullBlocks(|m|) {
      OneFromFront(alg, h, m, i);
      ChainedFromFront(alg, h, m, i + 1);
    }
  }

  lemma OneFromFront<H>(alg: Algorithm<H>, h: H, m: Bytes, i: nat)
    requires BLOCK * i + BLOCK < |m|
    ensures FromFront(alg, Chained(alg, h, m, i), BLOCK * i, m[BLOCK * i..])
            == FromFront(alg, Chained(alg, h, m, i + 1), BLOCK * (i + 1), m[BLOCK * (i + 1)..])
  {
    var here, rest, next := Chained(alg, h, m, i), m[BLOCK * i..], Chained(alg, h, m, i + 1);
    assert next == F(alg, here, Block(m, i), BLOCK * (i + 1), false);
    hide Chained;
    assert rest[..128] == Block(m, i) && rest[128..] == m[BLOCK * (i + 1)..];
    var t := BLOCK * i + 128;
    assert next == alg.compress(here, rest[..128], t % WORD, t / WORD % WORD, 0, 0);
    assert FromFront(alg, here, BLOCK * i, rest) == FromFront(alg, next, t, rest[128..]);
  }

  lemma HashFromFront<H>(alg: Algorithm<H>, outlen: nat, m: Bytes)
    requires outlen <= |alg.output(FromFront(alg, alg.init(outlen), 0, m))|
    ensures Hash(alg, outlen, m) == alg.output(FromFront(alg, alg.init(outlen), 0, m))[..outlen]
  {
    ChainedFromFront(alg, alg.init(outlen), m, 0);
    assert m[BLOCK * 0..] == m;
    var dd := FullBlocks(|m|);
    var rest := m[BLOCK * dd..];
    assert seq(128 - |rest|, _ => 0 as bv8) == Repeated(0 as bv8, BLOCK - |rest|);
  }

  /** A key is one padded block before the message, and enters the start. */
  function WithKey<H>(alg: Algorithm<H>, keylen: nat): Algorithm<H> {
    alg.(init := (outlen: nat) => alg.keyedInit(outlen, keylen))
  }

  function KeyedHash<H>(alg: Algorithm<H>, outlen: nat, key: Bytes, m: Bytes): Bytes
    requires |key| <= KEYBYTES
  {
    if key == [] then Hash(alg, outlen, m)
    else Hash(WithKey(alg, |key|), outlen, key + Repeated(0, BLOCK - |key|) + m)
  }

  lemma {:induction false} SameCompression<H>(alg: Algorithm<H>, keylen: nat, h: H, counted: nat, m: Bytes)
    ensures FromFront(WithKey(alg, keylen), h, counted, m) == FromFront(alg, h, counted, m)
    decreases |m|
  {
    if |m| > 128 {
      var t := counted + 128;
      SameCompression(alg, keylen, alg.compress(h, m[..128], t % WORD, t / WORD % WORD, 0, 0), t, m[128..]);
    }
  }

  /** RFC 7693 section 3.3 with a key. */
  lemma KeyedFromFront<H>(alg: Algorithm<H>, outlen: nat, key: Bytes, m: Bytes)
    requires 1 <= |key| <= 64
    requires var h := FromFront(alg, alg.keyedInit(outlen, |key|), 0, key + seq(128 - |key|, _ => 0) + m);
             outlen <= |alg.output(h)|
    ensures var h := FromFront(alg, alg.keyedInit(outlen, |key|), 0, key + seq(128 - |key|, _ => 0) + m);
            KeyedHash(alg, outlen, key, m) == alg.output(h)[..outlen]
  {
    hide FromFront, Hash;
    var padded := key + seq(128 - |key|, _ => 0) + m;
    assert padded == key + Repeated(0, BLOCK - |key|) + m;
    SameCompression(alg, |key|, alg.keyedInit(outlen, |key|), 0, padded);
    HashFromFront(WithKey(alg, |key|), outlen, padded);
  }

  // ------------------------------------------------------------ the state as a value

  datatype View<H> = View(h: H, t0: nat, t1: nat, f0: nat, pending: Bytes, outlen: nat)

  /** `blake2b_increment_counter`: two words, the carry taken from the wrap. */
  function Tick(t0: nat, t1: nat, inc: nat): (nat, nat) {
    var low := (t0 + inc) % WORD;
    (low, (t1 + if low < inc then 1 else 0) % WORD)
  }

  function Absorb<H>(alg: Algorithm<H>, v: View<H>, data: Bytes): (v': View<H>)
    ensures |v'.pending| <= BLOCK
    decreases |data|
  {
    if |data| <= BLOCK then v.(pending := data)
    else
      Absorb(alg, Compressed(alg, v, data[..BLOCK]), data[BLOCK..])
  }

  /** Count a block, then compress it. */
  function Compressed<H>(alg: Algorithm<H>, v: View<H>, block: Bytes): View<H> {
    var (t0, t1) := Tick(v.t0, v.t1, BLOCK);
    v.(h := alg.compress(v.h, block, t0, t1, v.f0, 0), t0 := t0, t1 := t1)
  }

  /** A finished state and an empty input change nothing. */
  function Updated<H>(alg: Algorithm<H>, v: View<H>, input: Bytes): View<H> {
    if input == [] || v.f0 != 0 then v else Absorb(alg, v, v.pending + input)
  }

  function Start<H>(alg: Algorithm<H>, outlen: nat): View<H> {
    View(alg.init(outlen), 0, 0, 0, [], outlen)
  }

  /** The chaining value `blake2b_final` prints. */
  function Finished<H>(alg: Algorithm<H>, v: View<H>): H
    requires |v.pending| <= BLOCK
  {
    var (t0, t1) := Tick(v.t0, v.t1, |v.pending|);
    alg.compress(v.h, v.pending + Repeated(0, BLOCK - |v.pending|), t0, t1, ALL_ONES, 0)
  }

  function UpdatedAll<H>(alg: Algorithm<H>, v: View<H>, chunks: seq<Bytes>): View<H>
    decreases |chunks|
  {
    if chunks == [] then v else UpdatedAll(alg, Updated(alg, v, chunks[0]), chunks[1..])
  }

  // ------------------------------------------------------------ chunking

  lemma {:induction false} AbsorbMore<H>(alg: Algorithm<H>, v: View<H>, data: Bytes, more: Bytes)
    requires more != []
    ensures var w := Absorb(alg, v, data);
            Absorb(alg, w, w.pending + more) == Absorb(alg, v, data + more)
    decreases |data|
  {
    hide Compressed;
    if |data| <= BLOCK {
      AbsorbIgnoresPending(alg, v, data, data + more);
    } else {
      var next := Compressed(alg, v, data[..BLOCK]);
      AbsorbMore(alg, next, data[BLOCK..], more);
      assert (data + more)[..BLOCK] == data[..BLOCK];
      assert (data + more)[BLOCK..] == data[BLOCK..] + more;
    }
  }

  lemma AbsorbStep<H>(alg: Algorithm<H>, v: View<H>, data: Bytes)
    requires |data| > BLOCK
    ensures Absorb(alg, v, data) == Absorb(alg, Compressed(alg, v, data[..BLOCK]), data[BLOCK..])
  {
    hide Compressed;
  }

  lemma AbsorbShort<H>(alg: Algorithm<H>, v: View<H>, data: Bytes)
    requires |data| <= BLOCK
    ensures Absorb(alg, v, data) == v.(pending := data)
  {
  }

  lemma {:induction false} AbsorbIgnoresPending<H>(alg: Algorithm<H>, v: View<H>, pending: Bytes, data: Bytes)
    ensures Absorb(alg, v.(pending := pending), data) == Absorb(alg, v, data)
    decreases |data|
  {
    if |data| > BLOCK {
      var next := Compressed(alg, v, data[..BLOCK]);
      AbsorbIgnoresPending(alg, next, pending, data[BLOCK..]);
    }
  }

  lemma {:induction false} AbsorbKeepsFlag<H>(alg: Algorithm<H>, v: View<H>, data: Bytes)
    ensures Absorb(alg, v, data).f0 == v.f0 && Absorb(alg, v, data).outlen == v.outlen
    decreases |data|
  {
    if |data| > BLOCK {
      AbsorbKeepsFlag(alg, Compressed(alg, v, data[..BLOCK]), data[BLOCK..]);
    }
  }

  /** Two updates are one update with the joined input, in every state. */
  lemma UpdatesJoin<H>(alg: Algorithm<H>, v: View<H>, a: Bytes, b: Bytes)
    ensures Updated(alg, Updated(alg, v, a), b) == Updated(alg, v, a + b)
  {
    if a == [] {
      assert a + b == b;
    } else if b == [] {
      assert a + b == a;
    } else if v.f0 == 0 {
      AbsorbKeepsFlag(alg, v, v.pending + a);
      AbsorbMore(alg, v, v.pending + a, b);
      assert v.pending + a + b == v.pending + (a + b);
    }
  }

  lemma {:induction false} ChunksJoin<H>(alg: Algorithm<H>, v: View<H>, chunks: seq<Bytes>)
    ensures UpdatedAll(alg, v, chunks) == Updated(alg, v, Joined(chunks))
    decreases |chunks|
  {
    if chunks != [] {
      ChunksJoin(alg, Updated(alg, v, chunks[0]), chunks[1..]);
      UpdatesJoin(alg, v, chunks[0], Joined(chunks[1..]));
      JoinedFirst(chunks[0], chunks[1..]);
      assert chunks == [chunks[0]] + chunks[1..];
    }
  }

  // ------------------------------------------------------------ closed form

  lemma TickCounts(t: nat, inc: nat)
    requires inc <= BLOCK
    ensures Tick(t % WORD, (t / WORD) % WORD, inc) == ((t + inc) % WORD, ((t + inc) / WORD) % WORD)
  {
    var q, r := t / WORD, t % WORD;
    if r + inc < WORD {
      DivModUnique(t + inc, WORD, q, r + inc);
    } else {
      DivModUnique(t + inc, WORD, q + 1, r + inc - WORD);
      var a, b := q / WORD, q % WORD;
      if b + 1 < WORD {
        DivModUnique(q + 1, WORD, a, b + 1);
      } else {
        DivModUnique(q + 1, WORD, a + 1, 0);
      }
    }
  }

  /** The state after absorbing `i` whole blocks of `m` and holding the rest. */
  function StateAt<H>(alg: Algorithm<H>, outlen: nat, m: Bytes, i: nat): View<H>
    requires BLOCK * i <= |m|
  {
    var count := BLOCK * i;
    View(Chained(alg, alg.init(outlen), m, i), count % WORD, (count / WORD) % WORD, 0, m[count..], outlen)
  }

  lemma {:induction false} AbsorbFrom<H>(alg: Algorithm<H>, outlen: nat, m: Bytes, i: nat)
    requires BLOCK * i <= |m| && (i == 0 || BLOCK * i < |m|)
    ensures BLOCK * FullBlocks(|m|) <= |m|
    ensures Absorb(alg, StateAt(alg, outlen, m, i), m[BLOCK * i..]) == StateAt(alg, outlen, m, FullBlocks(|m|))
    decreases |m| - BLOCK * i
  {
    hide Absorb;
    var v, data := StateAt(alg, outlen, m, i), m[BLOCK * i..];
    if |data| <= BLOCK {
      assert FullBlocks(|m|) == i;
      AbsorbShort(alg, v, data);
    } else {
      AbsorbStep(alg, v, data);
      TickCounts(BLOCK * i, BLOCK);
      assert data[..BLOCK] == Block(m, i);
      assert data[BLOCK..] == m[BLOCK * (i + 1)..];
      var next := StateAt(alg, outlen, m, i + 1);
      AbsorbFrom(alg, outlen, m, i + 1);
      AbsorbIgnoresPending(alg, next, v.pending, data[BLOCK..]);
    }
  }

  /** After any input: the last 1 to 128 bytes wait in the buffer, all earlier
      blocks have been compressed, and the two-word counter counts them. */
  lemma StateAfter<H>(alg: Algorithm<H>, outlen: nat, m: Bytes)
    ensures BLOCK * FullBlocks(|m|) <= |m|
    ensures Updated(alg, Start(alg, outlen), m) == StateAt(alg, outlen, m, FullBlocks(|m|))
    ensures m != [] ==> 1 <= |Updated(alg, Start(alg, outlen), m).pending| <= BLOCK
  {
    AbsorbFrom(alg, outlen, m, 0);
    assert m[BLOCK * 0..] == m == [] + m;
    AbsorbIgnoresPending(alg, Start(alg, outlen), m, m);
  }

  /** The digest does not depend on how the message was cut, and is the one
      the RFC defines. */
  lemma AnyChunking<H(!new)>(alg: Algorithm<H>, outlen: nat, chunks: seq<Bytes>)
    requires ValidAlgorithm(alg) && outlen <= OUTBYTES
    ensures var v := UpdatedAll(alg, Start(alg, outlen), chunks);
            && |v.pending| <= BLOCK && v.f0 == 0
            && outlen <= |alg.output(Finished(alg, v))|
            && alg.output(Finished(alg, v))[..outlen] == Hash(alg, outlen, Joined(chunks))
  {
    var m := Joined(chunks);
    hide UpdatedAll, Updated, Chained;
    ChunksJoin(alg, Start(alg, outlen), chunks);
    StateAfter(alg, outlen, m);
    var dd := FullBlocks(|m|);
    TickCounts(BLOCK * dd, |m| - BLOCK * dd);
  }

  // ------------------------------------------------------------ the C structure

  class State<H(!new)> {
    const alg: Algorithm<H>
    var h: H
    var t0: nat
    var t1: nat
    var f0: nat
    const buf: array<bv8>
    var buflen: nat
    const outlen: nat

    ghost predicate Valid()
      reads this, buf
    {
      buf.Length == BLOCK && buflen <= BLOCK
    }

    ghost function Contents(): View<H>
      reads this, buf
      requires Valid()
    {
      View(h, t0, t1, f0, buf[..buflen], outlen)
    }

    /** `blake2b_init` for an output length it accepts. */
    constructor (alg: Algorithm<H>, outlen: nat)
      requires 1 <= outlen <= OUTBYTES
      ensures Valid() && fresh(buf) && this.alg == alg && this.outlen == outlen
      ensures Contents() == Start(alg, outlen)
    {
      this.alg, this.outlen := alg, outlen;
      h, t0, t1, f0, buflen := alg.init(outlen), 0, 0, 0, 0;
      buf := new bv8[BLOCK](_ => 0);
    }

    method IncrementCounter(inc: nat)
      modifies this`t0, this`t1
      ensures (t0, t1) == Tick(old(t0), old(t1), inc)
    {
      t0 := (t0 + inc) % WORD;
      t1 := (t1 + if t0 < inc then 1 else 0) % WORD;
    }

    /** Count a block and compress it. */
    method CompressBlock(block: Bytes)
      requires Valid()
      modifies this`h, this`t0, this`t1
      ensures Contents() == Compressed(alg, old(Contents()), block)
    {
      IncrementCounter(BLOCK);
      h := alg.compress(h, block, t0, t1, f0, 0);
    }

    /** Either `memcpy` into the buffer. */
    method Keep(rest: Bytes)
      requires Valid() && buflen + |rest| <= BLOCK
      modifies this`buflen, buf
      ensures Valid() && buflen == old(buflen) + |rest|
      ensures Contents() == old(Contents()).(pending := old(Contents()).pending + rest)
    {
      forall k | 0 <= k < |rest| { buf[buflen + k] := rest[k]; }
      buflen := buflen + |rest|;
      assert buf[..buflen] == old(buf[..buflen]) + rest;
    }

    /** `blake2b_update`: fills the buffer only when more follows, then
        compresses straight from the input while more than a block is left. */
    method Update(input: Bytes) returns (code: int)
      requires Valid()
      modifies this, buf
      ensures Valid()
      ensures Contents() == Updated(alg, old(Contents()), input)
      ensures input == [] || old(f0) != 0 ==> Contents() == old(Contents())
      ensures code == if input == [] || old(f0) == 0 then 0 else -1
    {
      hide Absorb, Compressed;
      if input == [] {
        return 0;
      }
      if f0 != 0 {
        return -1;
      }
      ghost var v, data := Contents(), buf[..buflen] + input;
      ghost var full := buflen + |input| > BLOCK;
      var pin := 0;
      if buflen + |input| > BLOCK {
        pin := BLOCK - buflen;
        Keep(input[..pin]);
        assert v.pending + input[..pin] == data[..BLOCK];
        assert buf[..] == buf[..buflen];
        assert data[BLOCK..] == input[pin..];
        ghost var filled := Contents();
        CompressBlock(buf[..]);
        AbsorbStep(alg, filled, data);
        AbsorbIgnoresPending(alg, v, filled.pending, data);
        AbsorbIgnoresPending(alg, Contents(), [], input[pin..]);
        buflen := 0;
        assert buf[..0] == [];
        while |input| - pin > BLOCK
          invariant pin < |input| && buflen == 0 && f0 == 0
          invariant Absorb(alg, Contents(), input[pin..]) == Absorb(alg, v, data)
        {
          AbsorbStep(alg, Contents(), input[pin..]);
          assert input[pin..][..BLOCK] == input[pin..pin + BLOCK];
          assert input[pin..][BLOCK..] == input[pin + BLOCK..];
          CompressBlock(input[pin..pin + BLOCK]);
          pin := pin + BLOCK;
        }
      }
      ghost var w := Contents();
      AbsorbShort(alg, w, w.pending + input[pin..]);
      assert w.pending + input[pin..] == if full then input[pin..] else data;
      Keep(input[pin..]);
      code := 0;
    }

    /** `blake2b_final`; the state cannot be used again. */
    method Final(outlen': nat) returns (code: int, digest: Bytes)
      requires Valid() && ValidAlgorithm(alg) && outlen <= OUTBYTES
      modifies this, buf
      ensures Valid()
      ensures code == if outlen' < outlen || old(f0) != 0 then -1 else 0
      ensures code == 0 ==>
                && f0 == ALL_ONES
                && outlen <= |alg.output(Finished(alg, old(Contents())))|
                && digest == alg.output(Finished(alg, old(Contents())))[..outlen]
      ensures code != 0 ==> Contents() == old(Contents())
    {
      digest := [];
      if outlen' < outlen || f0 != 0 {
        return -1, digest;
      }
      ghost var v := Contents();
      IncrementCounter(buflen);
      f0 := ALL_ONES;
      forall k | buflen <= k < BLOCK { buf[k] := 0; }
      assert buf[..] == v.pending + Repeated(0, BLOCK - |v.pending|);
      h := alg.compress(h, buf[..], t0, t1, f0, 0);
      var buffer := alg.output(h);
      code, digest := 0, buffer[..outlen];
    }
  }

  // ------------------------------------------------------------ one-shot and variable-length hashing

  lemma HashLength<H(!new)>(alg: Algorithm<H>, outlen: nat, m: Bytes)
    requires ValidAlgorithm(alg) && outlen <= OUTBYTES
    ensures |Hash(alg, outlen, m)| == outlen
  {
  }

  /** `blake2b`. */
  method OneShot<H(!new)>(alg: Algorithm<H>, outlen: nat, input: Bytes, key: Bytes) returns (code: int, digest: Bytes)
    requires ValidAlgorithm(alg)
    ensures code == if 1 <= outlen <= OUTBYTES && |key| <= KEYBYTES then 0 else -1
    ensures code == 0 ==> digest == KeyedHash(alg, outlen, key, input)
  {
    if outlen == 0 || outlen > OUTBYTES || |key| > KEYBYTES {
      return -1, [];
    }
    hide Hash, Finished, Updated;
    if |key| > 0 {
      code, digest := HashOfTwo(WithKey(alg, |key|), outlen, key + Repeated(0, BLOCK - |key|), input);
    } else {
      OneChunk(alg, outlen, input);
      var s := new State(alg, outlen);
      code := s.Update(input);
      code, digest := s.Final(outlen);
    }
  }

  lemma OneChunk<H(!new)>(alg: Algorithm<H>, outlen: nat, a: Bytes)
    requires ValidAlgorithm(alg) && outlen <= OUTBYTES
    ensures var v := Updated(alg, Start(alg, outlen), a);
            && v.f0 == 0 && |v.pending| <= BLOCK && outlen <= |alg.output(Finished(alg, v))|
            && alg.output(Finished(alg, v))[..outlen] == Hash(alg, outlen, a)
  {
    hide Hash, Finished, Updated;
    AnyChunking(alg, outlen, [a]);
    assert [a][1..] == [];
    JoinedFirst(a, []);
    assert UpdatedAll(alg, Start(alg, outlen), [a]) == Updated(alg, Start(alg, outlen), a);
  }

  /** init, two updates, final. */
  method HashOfTwo<H(!new)>(alg: Algorithm<H>, outlen: nat, a: Bytes, b: Bytes) returns (code: int, digest: Bytes)
    requires ValidAlgorithm(alg) && 1 <= outlen <= OUTBYTES
    ensures code == 0 && digest == Hash(alg, outlen, a + b)
  {
    hide Hash, Finished, Updated;
    var s := new State(alg, outlen);
    TwoChunks(alg, outlen, a, b);
    OneChunk(alg, outlen, a);
    code := s.Update(a);
    code := s.Update(b);
    code, digest := s.Final(outlen);
  }

  lemma TwoChunks<H(!new)>(alg: Algorithm<H>, outlen: nat, a: Bytes, b: Bytes)
    requires ValidAlgorithm(alg) && outlen <= OUTBYTES
    ensures var v := Updated(alg, Updated(alg, Start(alg, outlen), a), b);
            && v.f0 == 0
            && |v.pending| <= BLOCK && outlen <= |alg.output(Finished(alg, v))|
            && alg.output(Finished(alg, v))[..outlen] == Hash(alg, outlen, a + b)
  {
    hide Hash, Finished, Updated;
    AnyChunking(alg, outlen, [a, b]);
    assert [a, b][1..] == [b] && [b][1..] == [];
    JoinedFirst(b, []);
    JoinedFirst(a, [b]);
    assert [a] + [b] == [a, b];
    var start := Start(alg, outlen);
    assert UpdatedAll(alg, start, [a, b]) == UpdatedAll(alg, Updated(alg, start, a), [b]);
  }

  function LE32(n: nat): Bytes {
    [LowByte(n), LowByte(n / 256), LowByte(n / 65536), LowByte(n / 16777216)]
  }

  function LowByte(n: nat): bv8 { (n % 256) as bv8 }

  function Number(b: bv8): (n: nat)
    ensures n < 256
  {
    b as nat
  }

  /** Four bytes read as a number, the least significant first. */
  function Weighed(b: Bytes): nat
    requires |b| == 4
  {
    Number(b[0]) + 256 * Number(b[1]) + 65536 * Number(b[2]) + 16777216 * Number(b[3])
  }

  /** The four bytes stand for the number, and no others do. */
  lemma LE32Weighs(n: nat, b: Bytes)
    requires n <= 0xFFFF_FFFF
    ensures |LE32(n)| == 4 && Weighed(LE32(n)) == n
    ensures |b| == 4 && Weighed(b) == n ==> b == LE32(n)
  {
    hide LowByte, Number;
    NumberOfLow(n);
    NumberOfLow(n / 256);
    NumberOfLow(n / 65536);
    NumberOfLow(n / 16777216);
    SumOfDigits(n);
    if |b| == 4 && Weighed(b) == n {
      DigitsOfSum(n, Number(b[0]), Number(b[1]), Number(b[2]), Number(b[3]));
      LowOfNumber(b[0], n);
      LowOfNumber(b[1], n / 256);
      LowOfNumber(b[2], n / 65536);
      LowOfNumber(b[3], n / 16777216);
    }
  }

  lemma LowOfNumber(b: bv8, n: nat)
    requires Number(b) == n % 256
    ensures LowByte(n) == b
  {
  }

  lemma NumberOfLow(n: nat)
    ensures Number(LowByte(n)) == n % 256
  {
    hide LowByte, Number;
    var b := ByteFor(n % 256);
    LowOfNumber(b, n);
  }

  lemma {:induction false} ByteFor(k: nat) returns (b: bv8)
    requires k < 256
    ensures Number(b) == k
  {
    if k == 0 {
      b := 0;
    } else {
      b := ByteFor(k - 1);
      NextNumber(b);
      b := b + 1;
    }
  }

  lemma NextNumber(b: bv8)
    requires Number(b) < 255
    ensures Number(b + 1) == Number(b) + 1
  {
  }

  lemma SumOfDigits(n: nat)
    requires n <= 0xFFFF_FFFF
    ensures n == n % 256 + 256 * (n / 256 % 256) + 65536 * (n / 65536 % 256) + 16777216 * (n / 16777216 % 256)
  {
    var q1, q2, q3 := n / 256, n / 256 / 256, n / 256 / 256 / 256;
    DivModUnique(n, 65536, q2, q1 % 256 * 256 + n % 256);
    DivModUnique(n, 16777216, q3, q2 % 256 * 65536 + q1 % 256 * 256 + n % 256);
    ModSmall(q3, 256);
  }

  lemma DigitsOfSum(n: nat, d0: nat, d1: nat, d2: nat, d3: nat)
    requires d0 < 256 && d1 < 256 && d2 < 256 && d3 < 256
    requires n == d0 + 256 * d1 + 65536 * d2 + 16777216 * d3
    ensures d0 == n % 256 && d1 == n / 256 % 256 && d2 == n / 65536 % 256 && d3 == n / 16777216 % 256
  {
    var q1, q2 := d1 + 256 * d2 + 65536 * d3, d2 + 256 * d3;
    DivModUnique(n, 256, q1, d0);
    DivModUnique(n, 65536, q2, d0 + 256 * d1);
    DivModUnique(n, 16777216, d3, d0 + 256 * d1 + 65536 * d2);
    DivModUnique(q1, 256, q2, d1);
    DivModUnique(q2, 256, d3, d2);
    ModSmall(d3, 256);
  }

  /** V_i of RFC 9106 section 3.3. */
  function Chain<H>(alg: Algorithm<H>, v1: Bytes, i: nat): Bytes
    requires i >= 1
  {
    if i == 1 then v1 else Hash(alg, OUTBYTES, Chain(alg, v1, i - 1))
  }

  /** W_1 to W_r: the first halves. */
  function Halves<H>(alg: Algorithm<H>, v1: Bytes, r: nat): Bytes {
    if r == 0 then []
    else Halves(alg, v1, r - 1) + FirstHalf(Chain(alg, v1, r))
  }

  function FirstHalf(v: Bytes): Bytes {
    if |v| < 32 then v else v[..32]
  }

  /** H' of RFC 9106 section 3.3, with `T` bytes of output. */
  function HPrime<H>(alg: Algorithm<H>, T: nat, a: Bytes): Bytes {
    if T <= OUTBYTES then Hash(alg, T, LE32(T) + a)
    else
      var r := (T + 31) / 32 - 2;
      var v1 := Hash(alg, OUTBYTES, LE32(T) + a);
      Halves(alg, v1, r) + Hash(alg, T - 32 * r, Chain(alg, v1, r))
  }

  /** RFC 9106 section 3.3 piece by piece: `prefix` is the length as four bytes,
      `v` the hash chain, and the output its first halves and then the whole of
      the last, shorter one. */
  lemma HPrimePieces<H(!new)>(alg: Algorithm<H>, T: nat, a: Bytes, prefix: Bytes) returns (v: seq<Bytes>)
    requires ValidAlgorithm(alg) && 1 <= T <= 0xFFFF_FFFF
    requires |prefix| == 4
    requires Number(prefix[0]) + 256 * Number(prefix[1]) + 65536 * Number(prefix[2])
             + 16777216 * Number(prefix[3]) == T
    ensures T <= 64 ==> HPrime(alg, T, a) == Hash(alg, T, prefix + a)
    ensures T > 64 ==>
              var r := |v| - 1;
              && 32 * (r + 1) < T <= 32 * (r + 2)
              && v[0] == Hash(alg, 64, prefix + a)
              && (forall i :: 0 < i < r ==> v[i] == Hash(alg, 64, v[i - 1]))
              && r > 0 && v[r] == Hash(alg, T - 32 * r, v[r - 1])
              && |HPrime(alg, T, a)| == T
              && (forall i :: 0 <= i < r ==> |v[i]| == 64 && HPrime(alg, T, a)[32 * i..32 * i + 32] == v[i][..32])
              && HPrime(alg, T, a)[32 * r..] == v[r]
  {
    hide Hash, HPrime, LE32, ValidAlgorithm, Number;
    LE32Weighs(T, prefix);
    if T <= 64 {
      HPrimeShort(alg, T, a);
      v := [];
    } else {
      v := LongPieces(alg, T, a);
    }
  }

  lemma LongPieces<H(!new)>(alg: Algorithm<H>, T: nat, a: Bytes) returns (v: seq<Bytes>)
    requires ValidAlgorithm(alg) && 64 < T
    ensures var r := |v| - 1;
            && 32 * (r + 1) < T <= 32 * (r + 2)
            && v[0] == Hash(alg, 64, LE32(T) + a)
            && (forall i :: 0 < i < r ==> v[i] == Hash(alg, 64, v[i - 1]))
            && r > 0 && v[r] == Hash(alg, T - 32 * r, v[r - 1])
            && |HPrime(alg, T, a)| == T
            && (forall i :: 0 <= i < r ==> |v[i]| == 64 && HPrime(alg, T, a)[32 * i..32 * i + 32] == v[i][..32])
            && HPrime(alg, T, a)[32 * r..] == v[r]
  {
    hide Hash, HPrime, LE32;
    var r := (T + 31) / 32 - 2;
    HPrimeLong(alg, T, a, r);
    HPrimeLength(alg, T, a);
    var v1 := Hash(alg, OUTBYTES, LE32(T) + a);
    HashLength(alg, OUTBYTES, LE32(T) + a);
    v := ChainSeq(alg, v1, r) + [Hash(alg, T - 32 * r, Chain(alg, v1, r))];
    HalvesLength(alg, v1, r);
    var out := HPrime(alg, T, a);
    forall i | 0 <= i < r ensures |v[i]| == 64 && out[32 * i..32 * i + 32] == v[i][..32] {
      HalvesAt(alg, v1, r, i);
      assert out[32 * i..32 * i + 32] == Halves(alg, v1, r)[32 * i..32 * i + 32];
    }
  }

  function ChainSeq<H>(alg: Algorithm<H>, v1: Bytes, r: nat): (v: seq<Bytes>)
    ensures |v| == r && forall i :: 0 <= i < r ==> v[i] == Chain(alg, v1, i + 1)
  {
    seq(r, i requires 0 <= i => Chain(alg, v1, i + 1))
  }

  lemma {:induction false} HalvesAt<H(!new)>(alg: Algorithm<H>, v1: Bytes, r: nat, i: nat)
    requires ValidAlgorithm(alg) && |v1| == OUTBYTES && i < r
    ensures |Halves(alg, v1, r)| == 32 * r && |Chain(alg, v1, i + 1)| == OUTBYTES
    ensures Halves(alg, v1, r)[32 * i..32 * i + 32] == Chain(alg, v1, i + 1)[..32]
  {
    hide Hash;
    HalvesLength(alg, v1, r);
    HalvesLength(alg, v1, i + 1);
    if i < r - 1 {
      HalvesAt(alg, v1, r - 1, i);
      assert Halves(alg, v1, r)[32 * i..32 * i + 32] == Halves(alg, v1, r - 1)[32 * i..32 * i + 32];
    }
  }

  /** The pieces fill the output exactly, the last one with 33 to 64 bytes. */
  lemma {:induction false} HalvesLength<H(!new)>(alg: Algorithm<H>, v1: Bytes, r: nat)
    requires ValidAlgorithm(alg) && |v1| == OUTBYTES
    ensures |Halves(alg, v1, r)| == 32 * r
    ensures r >= 1 ==> |Chain(alg, v1, r)| == OUTBYTES
  {
    hide Hash;
    if r >= 1 {
      HalvesLength(alg, v1, r - 1);
      if r >= 2 {
        HashLength(alg, OUTBYTES, Chain(alg, v1, r - 1));
      }
    }
  }

  lemma HPrimeLength<H(!new)>(alg: Algorithm<H>, T: nat, a: Bytes)
    requires ValidAlgorithm(alg) && 1 <= T
    ensures |HPrime(alg, T, a)| == T
    ensures T > OUTBYTES ==> var r := (T + 31) / 32 - 2; r >= 1 && 33 <= T - 32 * r <= OUTBYTES
  {
    hide Hash, LE32;
    if T <= OUTBYTES {
      HashLength(alg, T, LE32(T) + a);
    } else {
      var r := (T + 31) / 32 - 2;
      var v1 := Hash(alg, OUTBYTES, LE32(T) + a);
      HashLength(alg, OUTBYTES, LE32(T) + a);
      HalvesLength(alg, v1, r);
      HashLength(alg, T - 32 * r, Chain(alg, v1, r));
    }
  }

  /** `blake2b_long`: refuses a length of 0 or above 32 bits, and otherwise
      writes H' and nothing past it. */
  method Blake2bLong<H(!new)>(alg: Algorithm<H>, out: array<bv8>, outlen: nat, input: Bytes) returns (ret: int)
    requires ValidAlgorithm(alg) && outlen <= out.Length
    modifies out
    ensures ret == if 1 <= outlen <= U32_MAX then 0 else -1
    ensures ret == 0 ==> out[..outlen] == HPrime(alg, outlen, input)
    ensures ret == 0 ==> out[outlen..] == old(out[outlen..])
    ensures ret != 0 ==> out[..] == old(out[..])
  {
    hide Hash, LE32, HPrime, ValidAlgorithm;
    ret := -1;
    if outlen > U32_MAX || outlen == 0 {
      return;
    }
    HPrimeLength(alg, outlen, input);
    var digest;
    if outlen <= OUTBYTES {
      ret, digest := HashOfTwo(alg, outlen, LE32(outlen), input);
      HPrimeShort(alg, outlen, input);
      Put(out, 0, digest);
      assert out[..outlen] == digest;
    } else {
      ret, digest := HashOfTwo(alg, OUTBYTES, LE32(outlen), input);
      ret := LongTail(alg, out, outlen, input, digest);
    }
  }

  lemma HPrimeShort<H>(alg: Algorithm<H>, T: nat, a: Bytes)
    requires T <= OUTBYTES
    ensures HPrime(alg, T, a) == Hash(alg, T, LE32(T) + a)
  {
    hide Hash, LE32;
  }

  lemma HPrimeLong<H>(alg: Algorithm<H>, T: nat, a: Bytes, r: nat)
    requires T > OUTBYTES && r == (T + 31) / 32 - 2
    ensures r >= 1 && T >= 32 * r
    ensures var v1 := Hash(alg, OUTBYTES, LE32(T) + a);
            HPrime(alg, T, a) == Halves(alg, v1, r) + Hash(alg, T - 32 * r, Chain(alg, v1, r))
  {
    hide Hash, LE32;
  }

  method Put(out: array<bv8>, off: nat, bytes: Bytes)
    requires off + |bytes| <= out.Length
    modifies out
    ensures out[..off] == old(out[..off]) && out[off..off + |bytes|] == bytes
    ensures out[off + |bytes|..] == old(out[off + |bytes|..])
  {
    forall k | 0 <= k < |bytes| { out[off + k] := bytes[k]; }
  }

  /** The part of `blake2b_long` for more than 64 bytes, after the first hash. */
  method LongTail<H(!new)>(alg: Algorithm<H>, out: array<bv8>, outlen: nat, input: Bytes, first: Bytes)
    returns (ret: int)
    requires ValidAlgorithm(alg) && OUTBYTES < outlen <= out.Length
    requires first == Hash(alg, OUTBYTES, LE32(outlen) + input)
    modifies out
    ensures ret == 0
    ensures out[..outlen] == HPrime(alg, outlen, input) && out[outlen..] == old(out[outlen..])
  {
    hide Hash, LE32, HPrime, ValidAlgorithm;
    HashLength(alg, OUTBYTES, LE32(outlen) + input);
    var outBuffer := first;
    Put(out, 0, outBuffer[..32]);
    var off, toproduce := 32, outlen - 32;
    ghost var k := 1;
    assert Halves(alg, first, 1) == Halves(alg, first, 0) + FirstHalf(first);
    assert out[..32] == Halves(alg, first, 1);
    while toproduce > OUTBYTES
      invariant off == 32 * k && k >= 1 && off + toproduce == outlen && toproduce > 32
      invariant outBuffer == Chain(alg, first, k)
      invariant out[..off] == Halves(alg, first, k)
      invariant out[outlen..] == old(out[outlen..])
    {
      var inBuffer := outBuffer;
      ret, outBuffer := OneShot(alg, OUTBYTES, inBuffer, []);
      k := k + 1;
      HalvesLength(alg, first, k);
      Put(out, off, outBuffer[..32]);
      assert out[..off + 32] == out[..off] + out[off..off + 32];
      off, toproduce := off + 32, toproduce - 32;
    }
    HPrimeLong(alg, outlen, input, k);
    HashLength(alg, toproduce, Chain(alg, first, k));
    ret, outBuffer := OneShot(alg, toproduce, outBuffer, []);
    Put(out, off, outBuffer);
    assert out[..outlen] == out[..off] + out[off..outlen];
  }
}
