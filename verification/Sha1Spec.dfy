/** SHA-1 as FIPS 180-4 defines it: padding (section 5.1.1), the 80-word message
    schedule and the 80 rounds (section 6.1.2). */
module Sha1Spec {
  import opened Arith
  import opened Bits

  type Word = Uint32
  type Byte = n: nat | n < 256

  /** The five working variables, or a chaining value. */
  datatype State = State(a: Word, b: Word, c: Word, d: Word, e: Word)

  const INITIAL: State := State(0x67452301, 0xefcdab89, 0x98badcfe, 0x10325476, 0xc3d2e1f0)

  // ---------- operations on words, sections 2.2.2 and 3.2 ----------

  function WordAnd(x: Word, y: Word): Word { Pow2Of32(); And(x, y, 32) }

  function WordXor(x: Word, y: Word): Word { Pow2Of32(); Xor(x, y, 32) }

  function WordNot(x: Word): Word { Pow2Of32(); Not(x, 32) }

  lemma WordBits(x: Word, y: Word, i: nat)
    requires i < 32
    ensures Bit(WordAnd(x, y), i) == if Bit(x, i) == Bit(y, i) == 1 then 1 else 0
    ensures Bit(WordXor(x, y), i) == if Bit(x, i) == Bit(y, i) then 0 else 1
    ensures Bit(WordNot(x), i) == 1 - Bit(x, i)
  {
    hide Bit;
    Pow2Of32();
    AndBit(x, y, 32, i);
    XorBit(x, y, 32, i);
    NotBit(x, 32, i);
  }

  /** Words are told apart by their bits. */
  lemma SameWord(x: Word, y: Word)
    requires Agree(x, y, 0, 32)
    ensures x == y
  {
    Pow2Of32();
    SameBits(x, y, 32);
  }

  lemma RotlFits(x: Word, n: nat)
    requires 0 < n < 32
    ensures Mask(x, 32 - n) * Pow2(n) + Shr(x, 32 - n) < TWO32 && Shr(x, 32 - n) < Pow2(n)
  {
    hide Pow2;
    Pow2Of32();
    Pow2Add(n, 32 - n);
    QuotientBelow(x, Pow2(n), Pow2(32 - n));
    Beneath(Mask(x, 32 - n), Shr(x, 32 - n), Pow2(n), Pow2(32 - n));
  }

  lemma QuotientBelow(n: nat, a: nat, b: nat)
    requires b > 0 && n < a * b
    ensures Div(n, b) < a
  {
    var q, r := Quotient(n, b);
    assert q >= a ==> q * b >= a * b;
  }

  lemma Beneath(high: nat, low: nat, a: nat, b: nat)
    requires high < b && low < a
    ensures high * a + low < a * b
  {
    assert (high + 1) * a <= b * a;
  }

  /** The rotation by n to the left: the top n bits go to the bottom. */
  function Rotl(x: Word, n: nat): Word
    requires 0 < n < 32
  {
    RotlFits(x, n);
    Mask(x, 32 - n) * Pow2(n) + Shr(x, 32 - n)
  }

  /** Bit i goes to i + n modulo 32. */
  lemma RotlBit(x: Word, n: nat, i: nat)
    requires 0 < n < 32 && i < 32
    ensures Bit(Rotl(x, n), (i + n) % 32) == Bit(x, i)
  {
    hide Bit, Pow2, Mask, Shr;
    RotlFits(x, n);
    JoinedBit(Mask(x, 32 - n), Shr(x, 32 - n), n, (i + n) % 32);
    if i < 32 - n {
      MaskedBit(x, 32 - n, i);
    } else {
      ShiftedBit(x, 32 - n, i + n - 32);
    }
  }

  /** x, y, z and w added up bit by bit without carries */
  function Xor4(x: Word, y: Word, z: Word, w: Word): Word { WordXor(WordXor(WordXor(x, y), z), w) }

  lemma Xor4Bit(x: Word, y: Word, z: Word, w: Word, i: nat)
    requires i < 32
    ensures Bit(Xor4(x, y, z, w), i) == (Bit(x, i) + Bit(y, i) + Bit(z, i) + Bit(w, i)) % 2
  {
    hide Bit, WordXor;
    WordBits(x, y, i);
    WordBits(WordXor(x, y), z, i);
    WordBits(WordXor(WordXor(x, y), z), w, i);
  }

  // ---------- the functions and constants of sections 4.1.1 and 4.2.1 ----------

  function Ch(x: Word, y: Word, z: Word): Word { WordXor(WordAnd(x, y), WordAnd(WordNot(x), z)) }

  function Parity(x: Word, y: Word, z: Word): Word { WordXor(WordXor(x, y), z) }

  function Maj(x: Word, y: Word, z: Word): Word { WordXor(WordXor(WordAnd(x, y), WordAnd(x, z)), WordAnd(y, z)) }

  /** Choice: where x has a 1 the bit of y, elsewhere that of z. */
  lemma ChBit(x: Word, y: Word, z: Word, i: nat)
    requires i < 32
    ensures Bit(Ch(x, y, z), i) == if Bit(x, i) == 1 then Bit(y, i) else Bit(z, i)
  {
    hide Bit, WordXor, WordAnd, WordNot;
    WordBits(x, y, i);
    WordBits(WordNot(x), z, i);
    WordBits(WordAnd(x, y), WordAnd(WordNot(x), z), i);
  }

  lemma ParityBit(x: Word, y: Word, z: Word, i: nat)
    requires i < 32
    ensures Bit(Parity(x, y, z), i) == (Bit(x, i) + Bit(y, i) + Bit(z, i)) % 2
  {
    hide Bit, WordXor;
    WordBits(x, y, i);
    WordBits(WordXor(x, y), z, i);
  }

  /** What at least two of the three have. */
  lemma MajBit(x: Word, y: Word, z: Word, i: nat)
    requires i < 32
    ensures Bit(Maj(x, y, z), i) == (Bit(x, i) + Bit(y, i) + Bit(z, i)) / 2
  {
    hide Bit, WordXor, WordAnd;
    WordBits(x, y, i);
    WordBits(x, z, i);
    WordBits(y, z, i);
    WordBits(WordAnd(x, y), WordAnd(x, z), i);
    WordBits(WordXor(WordAnd(x, y), WordAnd(x, z)), WordAnd(y, z), i);
  }

  function F(t: nat, x: Word, y: Word, z: Word): Word {
    if t < 20 then Ch(x, y, z)
    else if t < 40 then Parity(x, y, z)
    else if t < 60 then Maj(x, y, z)
    else Parity(x, y, z)
  }

  function K(t: nat): Word {
    if t < 20 then 0x5a827999
    else if t < 40 then 0x6ed9eba1
    else if t < 60 then 0x8f1bbcdc
    else 0xca62c1d6
  }

  /** The constants are 2^30 times the square roots of 2, 3, 5 and 10, rounded down. */
  lemma KIsSquareRoot(t: nat)
    ensures var c := if t < 20 then 2 else if t < 40 then 3 else if t < 60 then 5 else 10;
            K(t) * K(t) <= c * 0x1000_0000_0000_0000 < (K(t) + 1) * (K(t) + 1)
  {
  }

  // ---------- compression of one block, section 6.1.2 ----------

  type Block = m: seq<Word> | |m| == 16 witness seq(16, _ => 0)

  function Schedule(m: Block, t: nat): Word {
    if t < 16 then m[t]
    else Rotl(Xor4(Schedule(m, t - 3), Schedule(m, t - 8), Schedule(m, t - 14), Schedule(m, t - 16)), 1)
  }

  function Round(s: State, t: nat, w: Word): State {
    var temp := (Rotl(s.a, 5) + F(t, s.b, s.c, s.d) + s.e + K(t) + w) % TWO32;
    State(temp, s.a, Rotl(s.b, 30), s.c, s.d)
  }

  /** The working variables after the first t rounds. */
  function Rounds(h: State, m: Block, t: nat): State {
    if t == 0 then h else Round(Rounds(h, m, t - 1), t - 1, Schedule(m, t - 1))
  }

  function Add(h: State, s: State): State {
    State((h.a + s.a) % TWO32, (h.b + s.b) % TWO32, (h.c + s.c) % TWO32,
          (h.d + s.d) % TWO32, (h.e + s.e) % TWO32)
  }

  function Compress(h: State, m: Block): State {
    Add(h, Rounds(h, m, 80))
  }

  // ---------- bytes and words, most significant byte first ----------

  function WordOfBytes(b0: Byte, b1: Byte, b2: Byte, b3: Byte): Word {
    b0 * 0x100_0000 + b1 * 0x1_0000 + b2 * 0x100 + b3
  }

  function WordAt(bytes: seq<Byte>, n: nat): Word
    requires 4 * n + 4 <= |bytes|
  {
    WordOfBytes(bytes[4 * n], bytes[4 * n + 1], bytes[4 * n + 2], bytes[4 * n + 3])
  }

  function BlockOf(bytes: seq<Byte>): (m: Block)
    requires |bytes| == 64
    ensures forall n | 0 <= n < 16 :: m[n] == WordAt(bytes, n)
  {
    seq(16, n requires 0 <= n < 16 => WordAt(bytes, n))
  }

  /** The low 32 bits of n as four bytes. */
  function BytesOf32(n: nat): (s: seq<Byte>)
    ensures |s| == 4
  {
    [(n / 0x100_0000) % 256, (n / 0x1_0000) % 256, (n / 0x100) % 256, n % 256]
  }

  /** The low 64 bits of n as eight bytes. */
  function BytesOf64(n: nat): (s: seq<Byte>)
    ensures |s| == 8
  {
    BytesOf32(n / 0x1_0000_0000) + BytesOf32(n)
  }

  function StateBytes(h: State): (s: seq<Byte>)
    ensures |s| == 20
  {
    BytesOf32(h.a) + BytesOf32(h.b) + BytesOf32(h.c)
      + BytesOf32(h.d) + BytesOf32(h.e)
  }

  /** The number whose base-256 digits are s, the most significant first. */
  function Digits(s: seq<Byte>): nat {
    if s == [] then 0 else 256 * Digits(s[..|s| - 1]) + s[|s| - 1]
  }

  /** Bytes make a word in this order ... */
  lemma WordIsDigits(bytes: seq<Byte>, n: nat)
    requires 4 * n + 4 <= |bytes|
    ensures WordAt(bytes, n) == Digits(bytes[4 * n..4 * n + 4])
  {
    var s := bytes[4 * n..4 * n + 4];
    assert s[..3][..2] == s[..2] && s[..2][..1] == s[..1] && s[..1][..0] == [];
    assert Digits(s[..1]) == s[0];
    assert Digits(s[..2]) == 256 * Digits(s[..1]) + s[1];
    assert Digits(s[..3]) == 256 * Digits(s[..2]) + s[2];
    assert Digits(s) == 256 * Digits(s[..3]) + s[3];
  }

  /** ... and are taken out of numbers in this order. */
  lemma BytesAreDigits(n: nat)
    ensures Digits(BytesOf32(n)) == n % TWO32
    ensures Digits(BytesOf64(n)) == n % (TWO32 * TWO32)
  {
    hide Digits, BytesOf32;
    BytesOf32Digits(n);
    BytesOf32Digits(n / TWO32);
    var high, low := BytesOf32(n / TWO32), BytesOf32(n);
    DigitsOfBoth(high, low);
    SplitAt32(n);
  }

  lemma BytesOf32Digits(n: nat)
    ensures Digits(BytesOf32(n)) == n % TWO32
  {
    hide Digits;
    WordIsDigits(BytesOf32(n), 0);
    assert BytesOf32(n)[0..4] == BytesOf32(n);
    FourDigits(n);
  }

  lemma FourDigits(n: nat)
    ensures ((n / 0x100_0000) % 256) * 0x100_0000 + ((n / 0x1_0000) % 256) * 0x1_0000 + ((n / 0x100) % 256) * 0x100
            + n % 256 == n % TWO32
  {
    assert n / 0x100 / 256 == n / 0x1_0000 && n / 0x1_0000 / 256 == n / 0x100_0000;
    assert n / 0x100_0000 / 256 == n / TWO32;
  }

  lemma SplitAt32(n: nat)
    ensures TWO32 * ((n / TWO32) % TWO32) + n % TWO32 == n % (TWO32 * TWO32)
  {
    assert n / TWO32 / TWO32 == n / (TWO32 * TWO32);
  }

  lemma LastDigit(high: seq<Byte>, low: seq<Byte>, k: nat)
    requires 0 < k <= |low|
    ensures Digits(high + low[..k]) == 256 * Digits(high + low[..k - 1]) + low[k - 1]
  {
    assert (high + low[..k])[..|high| + k - 1] == high + low[..k - 1];
  }

  lemma DigitsOfBoth(high: seq<Byte>, low: seq<Byte>)
    requires |low| == 4
    ensures Digits(high + low) == Digits(high) * TWO32 + Digits(low)
  {
    hide Digits;
    LastDigit(high, low, 4);
    LastDigit(high, low, 3);
    LastDigit(high, low, 2);
    LastDigit(high, low, 1);
    WordIsDigits(low, 0);
    assert low[..4] == low == low[0..4] && high + low[..0] == high;
  }

  /** The bytes of a chaining value are those of its words, a first. */
  lemma StateBytesHold(h: State)
    ensures var s := StateBytes(h);
            && WordAt(s, 0) == h.a && WordAt(s, 1) == h.b && WordAt(s, 2) == h.c
            && WordAt(s, 3) == h.d && WordAt(s, 4) == h.e
  {
    hide BytesOf32, WordAt;
    forall n, x: Word | 0 <= n < 5 && StateBytes(h)[4 * n..4 * n + 4] == BytesOf32(x)
      ensures WordAt(StateBytes(h), n) == x
    {
      WordIsDigits(StateBytes(h), n);
      BytesOf32Digits(x);
    }
    var s := StateBytes(h);
    assert s[0..4] == BytesOf32(h.a) && s[4..8] == BytesOf32(h.b) && s[8..12] == BytesOf32(h.c);
    assert s[12..16] == BytesOf32(h.d) && s[16..20] == BytesOf32(h.e);
    assert s[4 * 0..4 * 0 + 4] == s[0..4] && s[4 * 1..4 * 1 + 4] == s[4..8] && s[4 * 2..4 * 2 + 4] == s[8..12];
    assert s[4 * 3..4 * 3 + 4] == s[12..16] && s[4 * 4..4 * 4 + 4] == s[16..20];
  }

  /** The initial value is the bytes 01 23 .. ef, fe dc .. 10 and f0 e1 d2 c3, the least
      significant byte of each word first. */
  lemma InitialBytes(i: nat)
    requires i < 4
    ensures BytesOf32(INITIAL.a)[3 - i] == 0x01 + 0x22 * i && BytesOf32(INITIAL.b)[3 - i] == 0x89 + 0x22 * i
    ensures BytesOf32(INITIAL.c)[3 - i] == 0xfe - 0x22 * i && BytesOf32(INITIAL.d)[3 - i] == 0x76 - 0x22 * i
    ensures BytesOf32(INITIAL.e)[3 - i] == 0xf0 - 0x0f * i
  {
    assert BytesOf32(INITIAL.a) == [0x67, 0x45, 0x23, 0x01] && BytesOf32(INITIAL.b) == [0xef, 0xcd, 0xab, 0x89];
    assert BytesOf32(INITIAL.c) == [0x98, 0xba, 0xdc, 0xfe] && BytesOf32(INITIAL.d) == [0x10, 0x32, 0x54, 0x76];
    assert BytesOf32(INITIAL.e) == [0xc3, 0xd2, 0xe1, 0xf0];
  }

  // ---------- whole messages ----------

  function Zeros(n: nat): (s: seq<Byte>)
    ensures |s| == n && forall i | 0 <= i < n :: s[i] == 0
  {
    seq(n, _ => 0)
  }

  /** The least number of zero bytes that leaves exactly eight bytes in the last block. */
  function ZeroCount(length: nat): (z: nat)
    ensures z < 64 && (length + 1 + z) % 64 == 56
  {
    var r := length % 64;
    assert length == 64 * (length / 64) + r;
    if r <= 55 then 55 - r else 119 - r
  }

  lemma WholeBlocks(length: nat, z: nat)
    requires (length + 1 + z) % 64 == 56
    ensures (length + 1 + z + 8) % 64 == 0
  {
  }

  /** Section 5.1.1 on bytes: a one bit, the least number of zero bits that leaves room
      for the length, and the length in bits as 64 bits. The standard defines it for
      messages below 2^61 bytes. */
  function Pad(msg: seq<Byte>): (s: seq<Byte>)
    ensures |s| % 64 == 0 && |s| >= |msg| + 9
  {
    WholeBlocks(|msg|, ZeroCount(|msg|));
    msg + [0x80] + Zeros(ZeroCount(|msg|)) + BytesOf64(8 * |msg|)
  }

  /** The chaining value after the first k blocks of m. */
  function HashBlocks(m: seq<Byte>, k: nat): State
    requires 64 * k <= |m|
  {
    if k == 0 then INITIAL
    else Compress(HashBlocks(m, k - 1), BlockOf(m[64 * (k - 1)..64 * k]))
  }

  function Sha1(msg: seq<Byte>): (s: seq<Byte>)
    ensures |s| == 20
  {
    var p := Pad(msg);
    StateBytes(HashBlocks(p, |p| / 64))
  }

  lemma {:induction false} HashBlocksPrefix(m: seq<Byte>, more: seq<Byte>, k: nat)
    requires 64 * k <= |m|
    ensures HashBlocks(m + more, k) == HashBlocks(m, k)
  {
    hide Compress, BlockOf;
    if k > 0 {
      HashBlocksPrefix(m, more, k - 1);
      assert (m + more)[64 * (k - 1)..64 * k] == m[64 * (k - 1)..64 * k];
    }
  }
}
