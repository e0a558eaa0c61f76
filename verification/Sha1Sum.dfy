/** SHA1Sum of mfbt/SHA1.cpp: bytes arrive in chunks of any size; blocks are compressed
    as they fill up; finish pads and outputs. */
module Sha1Sum {
  import opened Arith
  import opened Sha1Spec
  import opened Sha1Compress

  const TWO64: nat := 0x1_0000_0000_0000_0000

  /** The chaining value and buffered tail after the bytes of msg. */
  ghost predicate Absorbed(msg: seq<Byte>, h: State, tail: seq<Byte>) {
    |tail| < 64 && exists k: nat :: AbsorbedAt(msg, h, tail, k)
  }

  ghost predicate AbsorbedAt(msg: seq<Byte>, h: State, tail: seq<Byte>, k: nat) {
    64 * k + |tail| == |msg| && msg[64 * k..] == tail && h == HashBlocks(msg, k)
  }

  lemma AbsorbNothing()
    ensures Absorbed([], INITIAL, [])
  {
    assert AbsorbedAt([], INITIAL, [], 0);
  }

  lemma DropInside(msg: seq<Byte>, data: seq<Byte>, n: nat)
    requires n <= |msg|
    ensures (msg + data)[n..] == msg[n..] + data
  {
  }

  // Bytes that do not fill the buffer only extend the tail.
  lemma AbsorbShort(msg: seq<Byte>, h: State, tail: seq<Byte>, data: seq<Byte>)
    requires Absorbed(msg, h, tail) && |tail| + |data| < 64
    ensures Absorbed(msg + data, h, tail + data)
  {
    hide HashBlocks;
    var k: nat :| AbsorbedAt(msg, h, tail, k);
    HashBlocksPrefix(msg, data, k);
    DropInside(msg, data, 64 * k);
    assert AbsorbedAt(msg + data, h, tail + data, k);
  }

  // Bytes that exactly fill the buffer make one more block.
  lemma AbsorbBlock(msg: seq<Byte>, h: State, tail: seq<Byte>, data: seq<Byte>)
    requires Absorbed(msg, h, tail) && |tail| + |data| == 64
    ensures Absorbed(msg + data, Compress(h, BlockOf(tail + data)), [])
  {
    hide Compress, BlockOf;
    var k: nat :| AbsorbedAt(msg, h, tail, k);
    var full := msg + data;
    HashBlocksPrefix(msg, data, k);
    DropInside(msg, data, 64 * k);
    assert full[64 * k..64 * (k + 1)] == full[64 * k..];
    assert full[64 * (k + 1)..] == [];
    assert AbsorbedAt(full, Compress(h, BlockOf(tail + data)), [], k + 1);
  }

  lemma TailLength(msg: seq<Byte>, h: State, tail: seq<Byte>)
    requires Absorbed(msg, h, tail)
    ensures |tail| == |msg| % 64 == (|msg| % TWO64) % 64
  {
    hide HashBlocks;
    var k: nat :| AbsorbedAt(msg, h, tail, k);
    TailArithmetic(|msg|, k, |tail|);
  }

  lemma TailArithmetic(n: nat, k: nat, r: nat)
    requires n == 64 * k + r && r < 64
    ensures r == n % 64 == (n % TWO64) % 64
  {
    var q, w := n / TWO64, n % TWO64;
    assert n == TWO64 * q + w;
    Residue64(n, k, r);
    Residue64(w, k - q * 0x400_0000_0000_0000, r);
  }

  lemma Residue64(n: nat, c: int, r: nat)
    requires n == 64 * c + r && r < 64
    ensures n % 64 == r
  {
  }

  class SHA1Sum {
    var u: array<Byte>
    var size: nat
    var H: array<Word>
    var mDone: bool

    /** All bytes given to update so far. */
    ghost var msg: seq<Byte>

    /** H is the fold over the complete blocks of msg, u holds the rest, and size counts
        modulo 2^64. */
    ghost predicate Valid()
      reads this, u, H
    {
      && u.Length == 64 && H.Length == 22
      && size == |msg| % TWO64
      && Absorbed(msg, ChainOf(H[..5]), u[..|msg| % 64])
    }

    constructor ()
      ensures Valid() && msg == [] && !mDone && fresh(u) && fresh(H)
    {
      u := new Byte[64](_ => 0);
      H := new Word[22](_ => 0);
      size, mDone, msg := 0, false, [];
      new;
      H[0], H[1], H[2], H[3], H[4] := 0x67452301, 0xefcdab89, 0x98badcfe, 0x10325476, 0xc3d2e1f0;
      AbsorbNothing();
      assert ChainOf(H[..5]) == INITIAL;
      assert u[..0] == [];
    }

    /** memcpy(u.b + at, data, |data|) */
    method CopyIn(at: nat, data: seq<Byte>)
      requires at + |data| <= u.Length
      modifies u
      ensures u[..at + |data|] == old(u[..at]) + data
    {
      for i := 0 to |data|
        invariant forall j | 0 <= j < at :: u[j] == old(u[j])
        invariant forall j | 0 <= j < i :: u[at + j] == data[j]
      {
        u[at + i] := data[i];
      }
    }

    /** The first part of update: top up a partly filled buffer, compressing it when it
        becomes full. m and tail are the bytes absorbed and still buffered. */
    method TopUp(lenB: nat, data: seq<Byte>, ghost m: seq<Byte>, ghost tail: seq<Byte>)
        returns (rest: seq<Byte>, ghost m': seq<Byte>, ghost tail': seq<Byte>)
      requires u.Length == 64 && H.Length == 22 && 0 < lenB < 64
      requires Absorbed(m, ChainOf(H[..5]), tail) && u[..lenB] == tail
      modifies u, H
      ensures Absorbed(m', ChainOf(H[..5]), tail') && m' + rest == m + data
      ensures |tail'| <= 64 && if rest == [] then u[..|tail'|] == tail' else tail' == []
    {
      hide Compress, BlockOf, Absorbed;
      var togo := 64 - lenB;
      if |data| < togo {
        togo := |data|;
      }
      var part := data[..togo];
      CopyIn(lenB, part);
      rest := data[togo..];
      m' := m + part;
      assert data == part + rest;
      var newLen := (lenB + togo) % 64;
      if newLen == 0 {
        AbsorbBlock(m, ChainOf(H[..5]), tail, part);
        assert u[..] == tail + part;
        ShaCompress(H, u[..]);
        tail' := [];
      } else {
        AbsorbShort(m, ChainOf(H[..5]), tail, part);
        tail' := tail + part;
      }
    }

    method Update(dataIn: seq<Byte>)
      requires Valid() && !mDone && |dataIn| < TWO32
      modifies this`size, this`msg, u, H
      ensures Valid() && msg == old(msg) + dataIn
    {
      hide Compress, BlockOf, Absorbed;
      if |dataIn| == 0 {
        return;
      }
      ghost var m, tail := msg, u[..|msg| % 64];
      TailLength(msg, ChainOf(H[..5]), tail);
      var data := dataIn;
      var lenB := size % 64;
      CountWraps(|msg|, |data|);
      size := (size + |data|) % TWO64;
      msg := msg + data;
      if lenB > 0 {
        data, m, tail := TopUp(lenB, data, m, tail);
      }
      while |data| >= 64
        invariant Absorbed(m, ChainOf(H[..5]), tail) && msg == m + data
        invariant |tail| <= 64 && if data == [] then u[..|tail|] == tail else tail == []
        modifies H
        decreases |data|
      {
        ghost var block := data[..64];
        AbsorbBlock(m, ChainOf(H[..5]), tail, block);
        assert tail + block == block && data == block + data[64..];
        ShaCompress(H, data[..64]);
        m := m + block;
        data := data[64..];
        assert u[..0] == [];
      }
      if |data| > 0 {
        CopyIn(0, data);
        AbsorbShort(m, ChainOf(H[..5]), tail, data);
        tail := tail + data;
        m := m + data;
      }
      assert m == msg;
      TailLength(msg, ChainOf(H[..5]), tail);
    }

    /** u.w[n] = swapToBigEndian(w), for n == at / 4 */
    method PutWord(at: nat, w: nat)
      requires at + 4 <= u.Length
      modifies u
      ensures u[..at + 4] == old(u[..at]) + BytesOf32(w)
    {
      CopyIn(at, BytesOf32(w));
    }

    /** The digest of everything given to update. */
    method Finish() returns (hashOut: seq<Byte>)
      requires Valid() && !mDone
      modifies this, u, H
      ensures hashOut == Sha1(old(msg)) && mDone
    {
      hide Compress, BlockOf, Absorbed, HashBlocks, BytesOf32, BytesOf64;
      ghost var m := msg;
      var size2 := size;
      var lenB := size2 % 64;
      TailLength(m, ChainOf(H[..5]), u[..|msg| % 64]);
      var padding := PadBytes((119 - lenB) % 64 + 1);
      PaddingMatches(|m|, lenB);
      Update(padding);
      ghost var h, tail := ChainOf(H[..5]), u[..|msg| % 64];
      TailLength(msg, h, tail);
      assert msg == m + [0x80] + Zeros(ZeroCount(|m|));
      assert |tail| == size % 64 == 56;
      size2 := (size2 * 8) % TWO64;
      LengthField(|m|, size2);
      PutLength(size2);
      AbsorbBlock(msg, h, tail, BytesOf64(8 * |m|));
      ShaCompress(H, u[..]);
      WholeMessage(Pad(m), ChainOf(H[..5]));
      PutDigest();
      hashOut := u[..20];
      mDone := true;
    }

    /** u.w[14] and u.w[15]: the length in bits, high word first. */
    method PutLength(size2: nat)
      requires u.Length == 64
      modifies u
      ensures u[..] == old(u[..56]) + (BytesOf32(size2 / TWO32) + BytesOf32(size2 % TWO32))
    {
      hide BytesOf32;
      PutWord(56, size2 / TWO32);
      PutWord(60, size2 % TWO32);
      assert u[..64] == u[..];
    }

    /** u.w[0] to u.w[4]: the chaining value. */
    method PutDigest()
      requires u.Length == 64 && H.Length == 22
      modifies u
      ensures u[..20] == StateBytes(ChainOf(H[..5]))
    {
      hide BytesOf32;
      PutWord(0, H[0]);
      PutWord(4, H[1]);
      PutWord(8, H[2]);
      PutWord(12, H[3]);
      PutWord(16, H[4]);
    }
  }

  /** The first n bytes of bulk_pad. */
  function PadBytes(n: nat): (s: seq<Byte>)
    requires 1 <= n <= 64
    ensures |s| == n
  {
    [0x80] + Zeros(n - 1)
  }

  lemma PaddingMatches(length: nat, lenB: nat)
    requires lenB == length % 64
    ensures (119 - lenB) % 64 == ZeroCount(length)
  {
  }

  lemma DivAdd(x: nat, k: nat, d: nat)
    requires d > 0
    ensures (x + d * k) / d == x / d + k
  {
    var q, r := Quotient(x, d);
    QuotientIs(x, q, r, d);
    assert (q + k) * d == q * d + d * k;
    QuotientIs(x + d * k, q + k, r, d);
  }

  lemma ByteAdd(y: nat, c: nat)
    ensures (y + 256 * c) % 256 == y % 256
  {
  }

  // Only the low 32 bits matter to BytesOf32.
  lemma Bytes32Wraps(x: nat, c: nat)
    ensures BytesOf32(x + TWO32 * c) == BytesOf32(x)
  {
    DivAdd(x, 256 * c, 0x100_0000);
    DivAdd(x, 0x1_0000 * c, 0x1_0000);
    DivAdd(x, 0x100_0000 * c, 0x100);
    ByteAdd(x / 0x100_0000, c);
    ByteAdd(x / 0x1_0000, 0x100 * c);
    ByteAdd(x / 0x100, 0x1_0000 * c);
    ByteAdd(x, 0x100_0000 * c);
  }

  lemma TimesEightWraps(n: nat)
    ensures ((n % TWO64) * 8) % TWO64 == (n * 8) % TWO64
  {
    var q, w := n / TWO64, n % TWO64;
    assert n == TWO64 * q + w;
  }

  // The 64-bit length field holds the low 64 bits of the bit count.
  lemma LengthField(length: nat, size2: nat)
    requires size2 == ((length % TWO64) * 8) % TWO64
    ensures BytesOf32(size2 / TWO32) + BytesOf32(size2 % TWO32) == BytesOf64(8 * length)
  {
    hide BytesOf32;
    TimesEightWraps(length);
    var n := 8 * length;
    var q := n / TWO64;
    assert n == TWO64 * q + size2;
    DivAdd(size2, TWO32 * q, TWO32);
    assert n == size2 + TWO32 * (TWO32 * q);
    Bytes32Wraps(size2 / TWO32, q);
    Bytes32Wraps(size2, TWO32 * q);
    Bytes32Wraps(size2 % TWO32, size2 / TWO32);
    assert size2 == size2 % TWO32 + TWO32 * (size2 / TWO32);
  }

  lemma WholeMessage(m: seq<Byte>, h: State)
    requires Absorbed(m, h, [])
    ensures |m| % 64 == 0 && h == HashBlocks(m, |m| / 64)
  {
    hide HashBlocks;
    var k: nat :| AbsorbedAt(m, h, [], k);
    assert |m| == 64 * k;
  }

  lemma CountWraps(n: nat, k: nat)
    ensures (n % TWO64 + k) % TWO64 == (n + k) % TWO64
  {
  }

  // ---------- whole runs ----------

  ghost function Concat(chunks: seq<seq<Byte>>): seq<Byte> {
    if chunks == [] then [] else Concat(chunks[..|chunks| - 1]) + chunks[|chunks| - 1]
  }

  /** However a message is split into chunks, the digest is that of the whole. */
  method HashChunks(chunks: seq<seq<Byte>>) returns (hash: seq<Byte>)
    requires forall c | c in chunks :: |c| < TWO32
    ensures hash == Sha1(Concat(chunks))
  {
    hide Absorbed, Sha1, ChainOf;
    var s := new SHA1Sum();
    for i := 0 to |chunks|
      invariant s.Valid() && !s.mDone && fresh(s) && fresh(s.u) && fresh(s.H)
      invariant s.msg == Concat(chunks[..i])
    {
      s.Update(chunks[i]);
      assert chunks[..i + 1][..i] == chunks[..i];
    }
    assert chunks[..|chunks|] == chunks;
    hash := s.Finish();
  }
}
