/** The compression function of Argon2 on 1024-byte blocks: ref.c `fill_block`
    on 128 words, opt.c `fill_block` on 64 registers. Both compute the G of
    RFC 9106 section 3.5. */
module FillBlock {
  import opened BlakeRound
  import opened Arith

  type Block = b: seq<Word> | |b| == 128 witness seq(128, _ => 0)

  // ------------------------------------------------------------ specification

  /** A block is an 8x8 matrix of 16-byte registers. Word `k` belongs to row or
      column `Group` and is number `Place` of its sixteen words. */
  function Group(byRow: bool, k: nat): nat { if byRow then k / 16 else (k % 16) / 2 }
  function Place(byRow: bool, k: nat): nat { if byRow then k % 16 else 2 * (k / 16) + k % 2 }
  function Index(byRow: bool, g: nat, j: nat): nat { if byRow then 16 * g + j else 2 * g + 16 * (j / 2) + j % 2 }

  lemma Indexing(byRow: bool, k: nat, g: nat, j: nat)
    requires k < 128 && g < 8 && j < 16
    ensures Group(byRow, k) < 8 && Place(byRow, k) < 16 && Index(byRow, g, j) < 128
    ensures Index(byRow, Group(byRow, k), Place(byRow, k)) == k
    ensures Group(byRow, Index(byRow, g, j)) == g && Place(byRow, Index(byRow, g, j)) == j
  {
    IndexOfPlace(byRow, k);
    PlaceOfIndex(byRow, g, j);
  }

  lemma IndexOfPlace(byRow: bool, k: nat)
    requires k < 128
    ensures Group(byRow, k) < 8 && Place(byRow, k) < 16
    ensures Index(byRow, Group(byRow, k), Place(byRow, k)) == k
  {
    if !byRow {
      var a, c := k / 16, k % 16;
      var d, e := c / 2, c % 2;
      DivModUnique(k, 2, 8 * a + d, e);
      DivModUnique(2 * a + e, 2, a, e);
    }
  }

  lemma PlaceOfIndex(byRow: bool, g: nat, j: nat)
    requires g < 8 && j < 16
    ensures Index(byRow, g, j) < 128
    ensures Group(byRow, Index(byRow, g, j)) == g && Place(byRow, Index(byRow, g, j)) == j
  {
    var n := Index(byRow, g, j);
    if byRow {
      DivModUnique(n, 16, g, j);
    } else {
      var q, e := j / 2, j % 2;
      DivModUnique(n, 16, q, 2 * g + e);
      DivModUnique(2 * g + e, 2, g, e);
      DivModUnique(n, 2, g + 8 * q, e);
    }
  }

  function Gather(byRow: bool, b: Block, g: nat): Vec16
    requires g < 8
  {
    seq(16, j requires 0 <= j < 16 => Indexing(byRow, 0, g, j); b[Index(byRow, g, j)])
  }

  function Permuted(byRow: bool, b: Block, k: nat): Word
    requires k < 128
  {
    Indexing(byRow, k, 0, 0);
    Round(Gather(byRow, b, Group(byRow, k)))[Place(byRow, k)]
  }

  /** The first `n` rows (or columns) permuted, the others untouched. */
  function RoundsPrefix(byRow: bool, b: Block, n: nat): Block {
    seq(128, k requires 0 <= k < 128 => if Group(byRow, k) < n then Permuted(byRow, b, k) else b[k])
  }

  /** Row (or column) `g` alone permuted. */
  function RoundsStep(byRow: bool, b: Block, g: nat): Block {
    seq(128, k requires 0 <= k < 128 => if Group(byRow, k) == g then Permuted(byRow, b, k) else b[k])
  }

  lemma PrefixStep(byRow: bool, b: Block, n: nat)
    requires n < 8
    ensures RoundsStep(byRow, RoundsPrefix(byRow, b, n), n) == RoundsPrefix(byRow, b, n + 1)
  {
    hide Round;
    var c := RoundsPrefix(byRow, b, n);
    assert Gather(byRow, c, n) == Gather(byRow, b, n) by {
      forall j | 0 <= j < 16 ensures Gather(byRow, c, n)[j] == Gather(byRow, b, n)[j] {
        Indexing(byRow, 0, n, j);
      }
    }
  }

  function XorBlocks(a: Block, b: Block): Block {
    seq(128, k requires 0 <= k < 128 => Xor(a[k], b[k]))
  }

  /** P on every row, then on every column. */
  function PermuteBlock(b: Block): Block {
    RoundsPrefix(false, RoundsPrefix(true, b, 8), 8)
  }

  /** The block that replaces `next`. */
  function Compress(prev: Block, reference: Block, next: Block, withXor: bool): Block {
    var r := XorBlocks(reference, prev);
    XorBlocks(if withXor then XorBlocks(r, next) else r, PermuteBlock(r))
  }

  /** The words of a row and of a column, as the two loops of ref.c list them. */
  lemma RowAndColumn(b: Block, g: nat)
    requires g < 8
    ensures Gather(true, b, g) == b[16 * g..16 * g + 16]
    ensures Gather(false, b, g) ==
            [b[2 * g], b[2 * g + 1], b[2 * g + 16], b[2 * g + 17], b[2 * g + 32], b[2 * g + 33],
             b[2 * g + 48], b[2 * g + 49], b[2 * g + 64], b[2 * g + 65], b[2 * g + 80], b[2 * g + 81],
             b[2 * g + 96], b[2 * g + 97], b[2 * g + 112], b[2 * g + 113]]
  {
  }

  lemma GroupPermuted(byRow: bool, b: Block, g: nat)
    requires g < 8
    ensures Gather(byRow, RoundsPrefix(byRow, b, 8), g) == Round(Gather(byRow, b, g))
  {
    hide Round;
    var all, one := RoundsPrefix(byRow, b, 8), Round(Gather(byRow, b, g));
    forall j | 0 <= j < 16 ensures Gather(byRow, all, g)[j] == one[j] {
      Indexing(byRow, 0, g, j);
      hide Group, Place, Index;
    }
  }

  /** RFC 9106 section 3.5: `q` has every row of `b` permuted, and the result has
      every column of `q` permuted. */
  lemma RowsThenColumns(b: Block) returns (q: Block)
    ensures forall g :: 0 <= g < 8 ==> q[16 * g..16 * g + 16] == Round(b[16 * g..16 * g + 16])
    ensures forall g :: 0 <= g < 8 ==> Gather(false, PermuteBlock(b), g) == Round(Gather(false, q, g))
  {
    hide Round, RoundsPrefix;
    q := RoundsPrefix(true, b, 8);
    forall g | 0 <= g < 8
      ensures q[16 * g..16 * g + 16] == Round(b[16 * g..16 * g + 16])
      ensures Gather(false, PermuteBlock(b), g) == Round(Gather(false, q, g))
    {
      GroupPermuted(true, b, g);
      GroupPermuted(false, q, g);
      RowAndColumn(b, g);
      RowAndColumn(q, g);
      hide Gather, PermuteBlock;
    }
  }

  /** The present block matters only when it is added, and is then added word by
      word; otherwise the sum `r` of the two inputs is added to its permutation. */
  lemma PresentBlockAdded(prev: Block, reference: Block, next: Block, r: Block, k: nat)
    requires k < 128 && forall i :: 0 <= i < 128 ==> r[i] == Xor(prev[i], reference[i])
    ensures Compress(prev, reference, next, false)[k] == Xor(r[k], PermuteBlock(r)[k])
    ensures Compress(prev, reference, next, true)[k] ==
            Xor(next[k], Compress(prev, reference, next, false)[k])
  {
    XorCommutes(reference, prev);
    assert r == XorBlocks(reference, prev);
    XorMoves(r[k], next[k], PermuteBlock(r)[k]);
    hide Xor, PermuteBlock;
  }

  lemma XorMoves(x: Word, y: Word, z: Word)
    ensures Xor(Xor(x, y), z) == Xor(y, Xor(x, z))
  {
  }

  lemma XorCommutes(a: Block, b: Block)
    ensures XorBlocks(a, b) == XorBlocks(b, a)
  {
    forall k | 0 <= k < 128 ensures XorBlocks(a, b)[k] == XorBlocks(b, a)[k] {
      XorWords(a[k], b[k]);
    }
  }

  lemma XorWords(x: Word, y: Word)
    ensures Xor(x, y) == Xor(y, x)
  {
  }

  // ------------------------------------------------------------ ref.c

  method PermuteInPlace(r: array<Word>, byRow: bool)
    requires r.Length == 128
    modifies r
    ensures r[..] == RoundsPrefix(byRow, old(r[..]), 8)
  {
    hide Round;
    ghost var b: Block := r[..];
    assert RoundsPrefix(byRow, b, 0) == b;
    for i := 0 to 8
      invariant r[..] == RoundsPrefix(byRow, b, i)
    {
      PermuteGroup(r, byRow, i);
      PrefixStep(byRow, b, i);
    }
  }

  method PermuteGroup(r: array<Word>, byRow: bool, g: nat)
    requires r.Length == 128 && g < 8
    modifies r
    ensures r[..] == RoundsStep(byRow, old(r[..]), g)
  {
    hide Round;
    var before: Block := r[..];
    var w := BlakeRoundNoMsg(Gather(byRow, before, g));
    for j := 0 to 16
      invariant forall k :: 0 <= k < 128 ==>
                  r[k] == if Group(byRow, k) == g && Place(byRow, k) < j then w[Place(byRow, k)] else before[k]
    {
      Indexing(byRow, 0, g, j);
      r[Index(byRow, g, j)] := w[j];
      forall k | 0 <= k < 128 && Group(byRow, k) == g && Place(byRow, k) == j
        ensures k == Index(byRow, g, j)
      {
        Indexing(byRow, k, g, j);
      }
    }
    forall k | 0 <= k < 128 ensures r[k] == RoundsStep(byRow, before, g)[k] {
      Indexing(byRow, k, g, 0);
    }
  }

  /** `fill_block` of ref.c. */
  method FillBlockRef(prev: Block, reference: Block, next: Block, withXor: bool) returns (out: Block)
    ensures out == Compress(prev, reference, next, withXor)
  {
    hide RoundsPrefix;
    var blockR, blockTmp := new Word[128], new Word[128];
    CopyBlock(blockR, reference);
    XorBlock(blockR, prev);
    CopyBlock(blockTmp, blockR[..]);
    if withXor {
      XorBlock(blockTmp, next);
    }
    PermuteInPlace(blockR, true);
    PermuteInPlace(blockR, false);
    XorBlock(blockTmp, blockR[..]);
    out := blockTmp[..];
  }

  method CopyBlock(dst: array<Word>, src: Block)
    requires dst.Length == 128
    modifies dst
    ensures dst[..] == src
  {
    forall k | 0 <= k < 128 { dst[k] := src[k]; }
  }

  /** `xor_block` of core.c. */
  method XorBlock(dst: array<Word>, src: Block)
    requires dst.Length == 128
    modifies dst
    ensures dst[..] == XorBlocks(old(dst[..]), src)
  {
    for i := 0 to 128
      invariant forall k :: 0 <= k < 128 ==> dst[k] == if k < i then Xor(old(dst[k]), src[k]) else old(dst[k])
    {
      dst[i] := Xor(dst[i], src[i]);
    }
  }

  // ------------------------------------------------------------ opt.c

  /** Register number `j` of a row or column. */
  function Register(byRow: bool, g: nat, j: nat): nat { if byRow then 8 * g + j else 8 * j + g }

  function RegisterGroup(byRow: bool, m: nat): nat { if byRow then m / 8 else m % 8 }
  function RegisterPlace(byRow: bool, m: nat): nat { if byRow then m % 8 else m / 8 }

  lemma Registers(byRow: bool, g: nat, j: nat, m: nat)
    requires g < 8 && j < 8 && m < 64
    ensures Register(byRow, g, j) < 64
    ensures RegisterGroup(byRow, m) < 8 && RegisterPlace(byRow, m) < 8
    ensures m == Register(byRow, RegisterGroup(byRow, m), RegisterPlace(byRow, m))
    ensures RegisterGroup(byRow, Register(byRow, g, j)) == g && RegisterPlace(byRow, Register(byRow, g, j)) == j
  {
    DivModUnique(8 * g + j, 8, g, j);
    DivModUnique(8 * j + g, 8, j, g);
  }

  /** A register holds two words of one group, side by side. */
  lemma RegisterWords(byRow: bool, g: nat, j: nat)
    requires g < 8 && j < 8
    ensures Index(byRow, g, 2 * j) == 2 * Register(byRow, g, j)
    ensures Index(byRow, g, 2 * j + 1) == 2 * Register(byRow, g, j) + 1
  {
    DivModUnique(2 * j, 2, j, 0);
    DivModUnique(2 * j + 1, 2, j, 1);
  }

  lemma WordPlaces(byRow: bool, m: nat)
    requires m < 64
    ensures Group(byRow, 2 * m) == RegisterGroup(byRow, m) == Group(byRow, 2 * m + 1)
    ensures Place(byRow, 2 * m) == 2 * RegisterPlace(byRow, m)
    ensures Place(byRow, 2 * m + 1) == 2 * RegisterPlace(byRow, m) + 1
  {
    DivModUnique(2 * m, 16, m / 8, 2 * (m % 8));
    DivModUnique(2 * m + 1, 16, m / 8, 2 * (m % 8) + 1);
  }

  function RegistersOf(byRow: bool, s: seq<Oword>, g: nat): (r: seq<Oword>)
    requires |s| == 64 && g < 8
    ensures |r| == 8
  {
    seq(8, j requires 0 <= j < 8 => Registers(byRow, g, j, 0); s[Register(byRow, g, j)])
  }

  function WordsOfRegisters(r: seq<Oword>): Vec16
    requires |r| == 8
  {
    WordsOf8(r[0], r[1], r[2], r[3], r[4], r[5], r[6], r[7])
  }

  lemma GatheredRegister(byRow: bool, s: seq<Oword>, g: nat, j: nat)
    requires |s| == 64 && g < 8 && j < 8
    ensures WordsOfRegisters(RegistersOf(byRow, s, g))[2 * j] == Gather(byRow, WordsOf(s), g)[2 * j]
    ensures WordsOfRegisters(RegistersOf(byRow, s, g))[2 * j + 1] == Gather(byRow, WordsOf(s), g)[2 * j + 1]
  {
    hide WordsOf8, Index, Register;
    WordsOf8At(RegistersOf(byRow, s, g), j);
    Registers(byRow, g, j, 0);
    RegisterWords(byRow, g, j);
  }

  lemma GatheredRegisters(byRow: bool, s: seq<Oword>, g: nat)
    requires |s| == 64 && g < 8
    ensures WordsOfRegisters(RegistersOf(byRow, s, g)) == Gather(byRow, WordsOf(s), g)
  {
    hide WordsOf8, WordsOfRegisters, RegistersOf, Gather;
    var v, w := WordsOfRegisters(RegistersOf(byRow, s, g)), Gather(byRow, WordsOf(s), g);
    forall k | 0 <= k < 16 ensures v[k] == w[k] {
      GatheredRegister(byRow, s, g, k / 2);
      assert k == 2 * (k / 2) || k == 2 * (k / 2) + 1;
    }
    assert v == w;
  }

  /** Replacing the registers of one group by the round's result permutes the
      words of that group. */
  lemma ScatteredRegisters(byRow: bool, s: seq<Oword>, t: seq<Oword>, g: nat, w: seq<Oword>)
    requires |s| == |t| == 64 && |w| == 8 && g < 8
    requires WordsOfRegisters(w) == Round(Gather(byRow, WordsOf(s), g))
    requires forall m :: 0 <= m < 64 ==> RegisterPlace(byRow, m) < 8
    requires forall m :: 0 <= m < 64 ==>
               t[m] == if RegisterGroup(byRow, m) == g then w[RegisterPlace(byRow, m)] else s[m]
    ensures WordsOf(t) == RoundsStep(byRow, WordsOf(s), g)
  {
    hide WordsOf8, Round, Gather, RegisterPlace, RegisterGroup, Place, Group;
    forall k | 0 <= k < 128 ensures WordsOf(t)[k] == RoundsStep(byRow, WordsOf(s), g)[k] {
      var m := k / 2;
      Registers(byRow, g, 0, m);
      WordPlaces(byRow, m);
      WordsOf8At(w, RegisterPlace(byRow, m));
      assert k == 2 * m || k == 2 * m + 1;
    }
  }

  method PermuteRegisters(state: array<Oword>, byRow: bool)
    requires state.Length == 64
    modifies state
    ensures WordsOf(state[..]) == RoundsPrefix(byRow, WordsOf(old(state[..])), 8)
  {
    hide Round;
    ghost var b: Block := WordsOf(state[..]);
    assert RoundsPrefix(byRow, b, 0) == b;
    for i := 0 to 8
      invariant WordsOf(state[..]) == RoundsPrefix(byRow, b, i)
    {
      PermuteRegisterGroup(state, byRow, i);
      PrefixStep(byRow, b, i);
    }
  }

  method PermuteRegisterGroup(state: array<Oword>, byRow: bool, g: nat)
    requires state.Length == 64 && g < 8
    modifies state
    ensures WordsOf(state[..]) == RoundsStep(byRow, WordsOf(old(state[..])), g)
  {
    hide Round, WordsOf8, Gather, RegisterPlace, RegisterGroup, Register;
    var s := state[..];
    var r := RegistersOf(byRow, s, g);
    var w0, w1, w2, w3, w4, w5, w6, w7 := BlakeRound128(r[0], r[1], r[2], r[3], r[4], r[5], r[6], r[7]);
    var w := [w0, w1, w2, w3, w4, w5, w6, w7];
    GatheredRegisters(byRow, s, g);
    forall m | 0 <= m < 64 ensures 0 <= RegisterPlace(byRow, m) < 8 {
      Registers(byRow, 0, 0, m);
    }
    for j := 0 to 8
      invariant forall m :: 0 <= m < 64 ==>
                  state[m] == if RegisterGroup(byRow, m) == g && RegisterPlace(byRow, m) < j
                              then w[RegisterPlace(byRow, m)] else s[m]
    {
      Registers(byRow, g, j, 0);
      state[Register(byRow, g, j)] := w[j];
      forall m | 0 <= m < 64 && RegisterGroup(byRow, m) == g && RegisterPlace(byRow, m) == j
        ensures m == Register(byRow, g, j)
      {
        Registers(byRow, g, j, m);
      }
    }
    ScatteredRegisters(byRow, s, state[..], g, w);
  }

  function OwordsOf(b: Block): (s: seq<Oword>)
    ensures |s| == 64 && WordsOf(s) == b
  {
    var s := seq(64, m requires 0 <= m < 64 => Oword(b[2 * m], b[2 * m + 1]));
    assert forall k :: 0 <= k < 128 ==> WordsOf(s)[k] == b[k];
    s
  }

  /** `_mm_xor_si128` of every register with the same part of a block. */
  function XorRegisters(s: seq<Oword>, t: seq<Oword>): (r: seq<Oword>)
    requires |s| == |t| == 64
    ensures |r| == 64 && WordsOf(r) == XorBlocks(WordsOf(s), WordsOf(t))
  {
    var r := seq(64, m requires 0 <= m < 64 => Xor128(s[m], t[m]));
    assert forall k :: 0 <= k < 128 ==> WordsOf(r)[k] == XorBlocks(WordsOf(s), WordsOf(t))[k];
    r
  }

  /** `fill_block` of opt.c: `state` comes in as the previous block and goes
      out as the new one. */
  method FillBlockOpt(state: array<Oword>, reference: Block, next: Block, withXor: bool) returns (out: Block)
    requires state.Length == 64
    modifies state
    ensures out == Compress(WordsOf(old(state[..])), reference, next, withXor)
    ensures WordsOf(state[..]) == out
  {
    hide RoundsPrefix, XorBlocks;
    ghost var prev: Block := WordsOf(state[..]);
    var r := XorRegisters(state[..], OwordsOf(reference));
    XorCommutes(prev, reference);
    var blockXY := if withXor then XorRegisters(r, OwordsOf(next)) else r;
    forall m | 0 <= m < 64 { state[m] := r[m]; }
    assert state[..] == r;
    PermuteRegisters(state, true);
    PermuteRegisters(state, false);
    XorCommutes(WordsOf(state[..]), WordsOf(blockXY));
    var z := XorRegisters(state[..], blockXY);
    forall m | 0 <= m < 64 { state[m] := z[m]; }
    assert state[..] == z;
    out := WordsOf(state[..]);
  }
}
