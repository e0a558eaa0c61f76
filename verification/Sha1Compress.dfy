/** shaCompress of mfbt/SHA1.cpp: a 16-word circular schedule held in the H array and
    rounds that rename registers instead of moving them, against the 80-word schedule
    and shifting registers of FIPS 180-4 section 6.1.2. */
module Sha1Compress {
  import opened Arith
  import opened Bits
  import opened Sha1Spec

  // ---------- the macros ----------

  /** 32-bit unsigned addition. */
  function Plus(x: Word, y: Word): Word { (x + y) % TWO32 }

  function WordOr(x: Word, y: Word): Word { Pow2Of32(); Or(x, y, 32) }

  lemma OrBits(x: Word, y: Word, i: nat)
    requires i < 32
    ensures Bit(WordOr(x, y), i) == if Bit(x, i) == Bit(y, i) == 0 then 0 else 1
  {
    OrBit(x, y, 32, i);
  }

  /** SHA_ROTL */
  function ShaRotl(t: Word, n: nat): Word
    requires 0 < n < 32
  {
    WordOr((t * Pow2(n)) % TWO32, Shr(t, 32 - n))
  }

  /** The two shifts make a rotation. */
  lemma ShaRotlIsRotl(t: Word, n: nat)
    requires 0 < n < 32
    ensures ShaRotl(t, n) == Rotl(t, n)
  {
    hide Bit, Pow2, Rotl, ShaRotl, Shr;
    forall j | 0 <= j < 32 ensures Bit(ShaRotl(t, n), j) == Bit(Rotl(t, n), j) {
      var i := if j < n then j + 32 - n else j - n;
      RotlBit(t, n, i);
      ShaRotlBit(t, n, j);
    }
    SameWord(ShaRotl(t, n), Rotl(t, n));
  }

  lemma IsMask(x: nat)
    ensures x % TWO32 == Mask(x, 32)
  {
    Pow2Of32();
  }

  lemma ShaRotlBit(t: Word, n: nat, j: nat)
    requires 0 < n < 32 && j < 32
    ensures Bit(ShaRotl(t, n), j) == Bit(t, if j < n then j + 32 - n else j - n)
  {
    hide Bit, Pow2, WordOr, Shr, Mask;
    Pow2Of32();
    var up, down := (t * Pow2(n)) % TWO32, Shr(t, 32 - n);
    IsMask(t * Pow2(n));
    RotlFits(t, n);
    MaskedBit(t * Pow2(n), 32, j);
    RaisedBit(t, n, j);
    ShiftedBit(t, 32 - n, j);
    if j >= n {
      NoBitAbove(t, 32, 32 - n + j);
    }
    OrBits(up, down, j);
  }

  /** SHA_F1 to SHA_F4 */
  function F1(x: Word, y: Word, z: Word): Word { WordXor(WordAnd(WordXor(y, z), x), z) }

  function F2(x: Word, y: Word, z: Word): Word { WordXor(WordXor(x, y), z) }

  function F3(x: Word, y: Word, z: Word): Word { WordOr(WordAnd(x, y), WordAnd(z, WordOr(x, y))) }

  function F4(x: Word, y: Word, z: Word): Word { WordXor(WordXor(x, y), z) }

  const K0: Word := 0x5a827999
  const K1: Word := 0x6ed9eba1
  const K2: Word := 0x8f1bbcdc
  const K3: Word := 0xca62c1d6

  lemma F1Bit(x: Word, y: Word, z: Word, i: nat)
    requires i < 32
    ensures Bit(F1(x, y, z), i) == if Bit(x, i) == 1 then Bit(y, i) else Bit(z, i)
  {
    hide Bit, WordXor, WordAnd;
    WordBits(y, z, i);
    WordBits(WordXor(y, z), x, i);
    WordBits(WordAnd(WordXor(y, z), x), z, i);
  }

  lemma F3Bit(x: Word, y: Word, z: Word, i: nat)
    requires i < 32
    ensures Bit(F3(x, y, z), i) == (Bit(x, i) + Bit(y, i) + Bit(z, i)) / 2
  {
    hide Bit, WordOr, WordAnd;
    WordBits(x, y, i);
    OrBits(x, y, i);
    WordBits(z, WordOr(x, y), i);
    OrBits(WordAnd(x, y), WordAnd(z, WordOr(x, y)), i);
  }

  /** The select and majority macros are the standard's Ch and Maj. */
  lemma MacrosMatch(x: Word, y: Word, z: Word)
    ensures F1(x, y, z) == Ch(x, y, z) && F3(x, y, z) == Maj(x, y, z)
    ensures F2(x, y, z) == F4(x, y, z) == Parity(x, y, z)
  {
    hide Bit, F1, F3, Ch, Maj;
    forall i | 0 <= i < 32
      ensures Bit(F1(x, y, z), i) == Bit(Ch(x, y, z), i) && Bit(F3(x, y, z), i) == Bit(Maj(x, y, z), i)
    {
      F1Bit(x, y, z, i);
      ChBit(x, y, z, i);
      F3Bit(x, y, z, i);
      MajBit(x, y, z, i);
    }
    SameWord(F1(x, y, z), Ch(x, y, z));
    SameWord(F3(x, y, z), Maj(x, y, z));
  }

  lemma WrapOnce(x: nat, y: nat)
    ensures (x % TWO32 + y) % TWO32 == (x + y) % TWO32
  {
  }

  // Wrapping after every addition is wrapping once at the end.
  lemma PlusChain(r: Word, f: Word, a: Word, w: Word, k: Word)
    ensures Plus(Plus(Plus(Plus(r, f), a), w), k) == (r + f + a + k + w) % TWO32
  {
    WrapOnce(r + f, a);
    WrapOnce(r + f + a, w);
    WrapOnce(r + f + a + w, k);
  }

  /** The right-hand side SHA_RND1 .. SHA_RND4 assigns to a in round t. */
  function Rnd(t: nat, a: Word, b: Word, c: Word, d: Word, e: Word, w: Word): Word {
    var (f, k) := if t < 20 then (F1(c, d, e), K0)
                  else if t < 40 then (F2(c, d, e), K1)
                  else if t < 60 then (F3(c, d, e), K2)
                  else (F4(c, d, e), K3);
    Plus(Plus(Plus(Plus(ShaRotl(b, 5), f), a), w), k)
  }

  /** With registers b, c, d, e, a playing a .. e, one macro line is one round. */
  lemma RndIsRound(t: nat, a: Word, b: Word, c: Word, d: Word, e: Word, w: Word)
    ensures Round(State(b, c, d, e, a), t, w) == State(Rnd(t, a, b, c, d, e, w), b, Rotl(c, 30), d, e)
  {
    hide F1, F2, F3, F4, Ch, Maj, Parity, Rotl, ShaRotl, Plus;
    MacrosMatch(c, d, e);
    ShaRotlIsRotl(b, 5);
    PlusChain(Rotl(b, 5), F(t, c, d, e), a, w, K(t));
  }

  /** The words SHA_MIX(n, ...) combines with word n. */
  function MixArgs(n: nat): (r: (nat, nat, nat))
    requires n < 16
    ensures r.0 < 16 && r.1 < 16 && r.2 < 16
  {
    match n
    case 0 => (13, 8, 2)
    case 1 => (14, 9, 3)
    case 2 => (15, 10, 4)
    case 3 => (0, 11, 5)
    case 4 => (1, 12, 6)
    case 5 => (2, 13, 7)
    case 6 => (3, 14, 8)
    case 7 => (4, 15, 9)
    case 8 => (5, 0, 10)
    case 9 => (6, 1, 11)
    case 10 => (7, 2, 12)
    case 11 => (8, 3, 13)
    case 12 => (9, 4, 14)
    case 13 => (10, 5, 15)
    case 14 => (11, 6, 0)
    case _ => (12, 7, 1)
  }

  lemma MixArgsAreOffsets(t: nat)
    requires t >= 16
    ensures MixArgs(t % 16) == ((t - 3) % 16, (t - 8) % 16, (t - 14) % 16)
  {
    var q, n := t / 16, t % 16;
    assert t == 16 * q + n;
    Offset(q, n, 13, t - 3);
    Offset(q, n, 8, t - 8);
    Offset(q, n, 2, t - 14);
  }

  lemma Offset(q: nat, n: nat, k: nat, s: int)
    requires n < 16 && k < 16 && s == 16 * q + n + k - 16
    ensures s % 16 == if n + k < 16 then n + k else n + k - 16
  {
  }

  // ---------- the circular schedule ----------

  /** Of the words the schedule has produced before step t, the last 16 are in W. */
  ghost predicate Window(w: seq<Word>, m: Block, t: nat) {
    |w| == 16 && forall s: nat | s < t && t <= s + 16 :: w[s % 16] == Schedule(m, s)
  }

  /** The right-hand side of SHA_MIX */
  function ShaMix(a: Word, b: Word, c: Word, n: Word): Word {
    ShaRotl(WordXor(WordXor(WordXor(a, b), c), n), 1)
  }

  lemma ShaMixIs(a: Word, b: Word, c: Word, n: Word)
    ensures ShaMix(a, b, c, n) == Rotl(Xor4(a, b, c, n), 1)
  {
    hide ShaRotl, Rotl, WordXor;
    ShaRotlIsRotl(Xor4(a, b, c, n), 1);
  }

  lemma WindowStep(w: seq<Word>, m: Block, t: nat)
    requires Window(w, m, t)
    ensures Window(w[t % 16 := Schedule(m, t)], m, t + 1)
    ensures t >= 16 ==> var (a, b, c) := MixArgs(t % 16);
            ShaMix(w[a], w[b], w[c], w[t % 16]) == Schedule(m, t)
  {
    hide Rotl, Xor4, MixArgs, ShaMix;
    if t >= 16 {
      MixArgsAreOffsets(t);
      assert w[(t - 3) % 16] == Schedule(m, t - 3);
      assert w[(t - 8) % 16] == Schedule(m, t - 8);
      assert w[(t - 14) % 16] == Schedule(m, t - 14);
      assert (t - 16) % 16 == t % 16 && w[(t - 16) % 16] == Schedule(m, t - 16);
      ShaMixIs(Schedule(m, t - 3), Schedule(m, t - 8), Schedule(m, t - 14), Schedule(m, t - 16));
    }
    var u := w[t % 16 := Schedule(m, t)];
    forall s: nat | s < t + 1 && t + 1 <= s + 16 ensures u[s % 16] == Schedule(m, s) {
      if s < t {
        DistinctResidues(s, t);
      }
    }
  }

  lemma DistinctResidues(s: nat, t: nat)
    requires s < t < s + 16
    ensures s % 16 != t % 16
  {
  }

  lemma FirstWords(inbuf: seq<Byte>, t: nat)
    requires |inbuf| == 64 && t < 16
    ensures Schedule(BlockOf(inbuf), t) == WordAt(inbuf, t)
  {
  }

  /** LOAD or SHA_MIX at step t: X[n] holds word n of the schedule at H[5 + n]. */
  method NextWord(h: array<Word>, inbuf: seq<Byte>, t: nat)
    requires h.Length == 22 && |inbuf| == 64
    requires Window(h[5..21], BlockOf(inbuf), t)
    modifies h
    ensures Window(h[5..21], BlockOf(inbuf), t + 1)
    ensures h[5 + t % 16] == Schedule(BlockOf(inbuf), t)
    ensures h[..5] == old(h[..5])
  {
    hide ShaMix, MixArgs, Window, Schedule, BlockOf;
    ghost var m, w := BlockOf(inbuf), h[5..21];
    var n := t % 16;
    WindowStep(w, m, t);
    if t < 16 {
      FirstWords(inbuf, t);
      h[5 + n] := WordAt(inbuf, n);
    } else {
      MixArgsAreOffsets(t);
      var (a, b, c) := MixArgs(n);
      assert w[a] == h[5 + a] && w[b] == h[5 + b] && w[c] == h[5 + c] && w[n] == h[5 + n];
      h[5 + n] := ShaMix(h[5 + a], h[5 + b], h[5 + c], h[5 + n]);
    }
    assert h[5..21] == w[n := Schedule(m, t)];
  }

  // ---------- the rounds ----------

  lemma RoundsStep(h0: State, m: Block, t: nat, a: Word, b: Word, c: Word, d: Word, e: Word)
    requires State(b, c, d, e, a) == Rounds(h0, m, t)
    ensures State(Rnd(t, a, b, c, d, e, Schedule(m, t)), b, ShaRotl(c, 30), d, e) == Rounds(h0, m, t + 1)
  {
    hide Rnd, Rotl, ShaRotl, Round, Schedule;
    ShaRotlIsRotl(c, 30);
    RndIsRound(t, a, b, c, d, e, Schedule(m, t));
  }

  /** Five consecutive macro lines. Each line renames the registers of the one before,
      and after five the names are back where they were. */
  method FiveRounds(h: array<Word>, inbuf: seq<Byte>, t: nat, a0: Word, b0: Word, c0: Word, d0: Word, e0: Word,
                    ghost h0: State)
      returns (a: Word, b: Word, c: Word, d: Word, e: Word)
    requires h.Length == 22 && |inbuf| == 64 && Window(h[5..21], BlockOf(inbuf), t)
    requires State(a0, b0, c0, d0, e0) == Rounds(h0, BlockOf(inbuf), t)
    modifies h
    ensures Window(h[5..21], BlockOf(inbuf), t + 5) && h[..5] == old(h[..5])
    ensures State(a, b, c, d, e) == Rounds(h0, BlockOf(inbuf), t + 5)
  {
    hide Rnd, ShaRotl, Rotl, Rounds, Window, Schedule, BlockOf;
    ghost var m := BlockOf(inbuf);
    a, b, c, d, e := a0, b0, c0, d0, e0;
    NextWord(h, inbuf, t);
    RoundsStep(h0, m, t, e, a, b, c, d);
    e := Rnd(t, e, a, b, c, d, h[5 + t % 16]);
    b := ShaRotl(b, 30);
    NextWord(h, inbuf, t + 1);
    RoundsStep(h0, m, t + 1, d, e, a, b, c);
    d := Rnd(t + 1, d, e, a, b, c, h[5 + (t + 1) % 16]);
    a := ShaRotl(a, 30);
    NextWord(h, inbuf, t + 2);
    RoundsStep(h0, m, t + 2, c, d, e, a, b);
    c := Rnd(t + 2, c, d, e, a, b, h[5 + (t + 2) % 16]);
    e := ShaRotl(e, 30);
    NextWord(h, inbuf, t + 3);
    RoundsStep(h0, m, t + 3, b, c, d, e, a);
    b := Rnd(t + 3, b, c, d, e, a, h[5 + (t + 3) % 16]);
    d := ShaRotl(d, 30);
    NextWord(h, inbuf, t + 4);
    RoundsStep(h0, m, t + 4, a, b, c, d, e);
    a := Rnd(t + 4, a, b, c, d, e, h[5 + (t + 4) % 16]);
    c := ShaRotl(c, 30);
  }

  /** The chaining value kept in the first five elements of H. */
  function ChainOf(h: seq<Word>): State
    requires |h| >= 5
  {
    State(h[0], h[1], h[2], h[3], h[4])
  }

  lemma NoWordsYet(w: seq<Word>, m: Block)
    requires |w| == 16
    ensures Window(w, m, 0)
  {
  }

  /** One group of twenty lines, which share a round constant. */
  method TwentyRounds(h: array<Word>, inbuf: seq<Byte>, t: nat, a0: Word, b0: Word, c0: Word, d0: Word, e0: Word,
                      ghost h0: State)
      returns (a: Word, b: Word, c: Word, d: Word, e: Word)
    requires h.Length == 22 && |inbuf| == 64 && Window(h[5..21], BlockOf(inbuf), t)
    requires State(a0, b0, c0, d0, e0) == Rounds(h0, BlockOf(inbuf), t)
    modifies h
    ensures Window(h[5..21], BlockOf(inbuf), t + 20) && h[..5] == old(h[..5])
    ensures State(a, b, c, d, e) == Rounds(h0, BlockOf(inbuf), t + 20)
  {
    hide Window, BlockOf, Rounds, Schedule;
    a, b, c, d, e := FiveRounds(h, inbuf, t, a0, b0, c0, d0, e0, h0);
    a, b, c, d, e := FiveRounds(h, inbuf, t + 5, a, b, c, d, e, h0);
    a, b, c, d, e := FiveRounds(h, inbuf, t + 10, a, b, c, d, e, h0);
    a, b, c, d, e := FiveRounds(h, inbuf, t + 15, a, b, c, d, e, h0);
  }

  /** shaCompress, the 80 lines taken in four groups of twenty. */
  method ShaCompress(h: array<Word>, inbuf: seq<Byte>)
    requires h.Length == 22 && |inbuf| == 64
    modifies h
    ensures ChainOf(h[..5]) == Compress(ChainOf(old(h[..5])), BlockOf(inbuf))
  {
    hide Window, BlockOf, Rounds, Schedule;
    ghost var h0 := ChainOf(h[..5]);
    NoWordsYet(h[5..21], BlockOf(inbuf));
    RoundsStart(h0, BlockOf(inbuf));
    var A, B, C, D, E := h[0], h[1], h[2], h[3], h[4];
    A, B, C, D, E := TwentyRounds(h, inbuf, 0, A, B, C, D, E, h0);
    A, B, C, D, E := TwentyRounds(h, inbuf, 20, A, B, C, D, E, h0);
    A, B, C, D, E := TwentyRounds(h, inbuf, 40, A, B, C, D, E, h0);
    A, B, C, D, E := TwentyRounds(h, inbuf, 60, A, B, C, D, E, h0);
    assert h[..5] == old(h[..5]);
    assert forall i | 0 <= i < 5 :: h[i] == h[..5][i];
    h[0] := Plus(h[0], A);
    h[1] := Plus(h[1], B);
    h[2] := Plus(h[2], C);
    h[3] := Plus(h[3], D);
    h[4] := Plus(h[4], E);
  }

  lemma RoundsStart(h0: State, m: Block)
    ensures Rounds(h0, m, 0) == h0
  {
  }
}
