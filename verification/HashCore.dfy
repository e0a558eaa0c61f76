/** Entries, hashing and the table invariant of js/public/HashTable.h, on the value
    of the entry array. The class in HashTable.dfy mutates that array in place. */
module HashCore {
  import opened Arith
  import opened Bits
  import opened Wrappers

  const HASH_BITS: nat := 32
  const GOLDEN_RATIO: nat := 0x9E3779B9
  const MIN_CAPACITY_LOG2: nat := 2
  const MAX_CAPACITY_LOG2: nat := 24

  type HashNumber = Uint32

  datatype HashMapEntry<K, V> = HashMapEntry(key: K, value: V)

  /** One slot: keyHash is 0 when free, 1 when removed, and otherwise an even hash
      whose low bit records that some probe path runs over the slot. */
  datatype Entry<K, V> = Entry(keyHash: HashNumber, mem: Option<HashMapEntry<K, V>>) {
    predicate IsFree() { keyHash == 0 }

    predicate IsRemoved() { keyHash == 1 }

    predicate IsLive() { keyHash > 1 }

    predicate HasCollision() { keyHash % 2 == 1 }

    function GetKeyHash(): HashNumber { keyHash - keyHash % 2 }

    predicate MatchHash(hn: HashNumber) { GetKeyHash() == hn }

    function WithCollision(bit: bool): (r: Entry<K, V>)
      ensures r.mem == mem && r.GetKeyHash() == GetKeyHash()
      ensures IsLive() ==> r.IsLive()
      ensures r.HasCollision() == (bit || HasCollision())
    {
      if bit then Entry(GetKeyHash() + 1, mem) else this
    }

    function WithoutCollision(): Entry<K, V> { Entry(GetKeyHash(), mem) }
  }

  function FreeEntry<K, V>(): Entry<K, V> { Entry(0, None) }

  function RemovedEntry<K, V>(): Entry<K, V> { Entry(1, None) }

  // ---------- hashing ----------

  function ScrambleHashCode(h: HashNumber): HashNumber {
    (h * GOLDEN_RATIO) % TWO32
  }

  /** Moves a scrambled hash off the two reserved codes and clears the collision bit. */
  function AvoidReserved(s: HashNumber): (r: HashNumber)
    ensures r > 1 && r % 2 == 0
  {
    var keyHash := if s > 1 then s else s + TWO32 - 2;
    keyHash - keyHash % 2
  }

  function PrepareHash(h: HashNumber): (r: HashNumber)
    ensures r > 1 && r % 2 == 0
  {
    AvoidReserved(ScrambleHashCode(h))
  }

  /** The multiplier is 2^32 / phi, rounded down: phi squared is phi + 1. */
  lemma GoldenRatio()
    ensures GOLDEN_RATIO * (GOLDEN_RATIO + TWO32) <= TWO32 * TWO32
    ensures TWO32 * TWO32 < (GOLDEN_RATIO + 1) * (GOLDEN_RATIO + 1 + TWO32)
  {
  }

  /** The scrambled hash without its lowest bit; the two reserved codes become the
      greatest even one. */
  lemma PreparedHash(h: HashNumber)
    ensures var s := (h * GOLDEN_RATIO) % TWO32;
            if s > 1 then PrepareHash(h) / 2 == s / 2 else PrepareHash(h) == TWO32 - 2
  {
  }

  /** hash1 with hashShift == 32 - log2: the top log2 bits. */
  function Hash1(keyHash: HashNumber, log2: nat): (r: nat)
    requires log2 <= HASH_BITS
    ensures r < Pow2(log2)
  {
    Hash1Bound(keyHash, log2);
    Shr(keyHash, HASH_BITS - log2)
  }

  lemma Hash1Bound(keyHash: HashNumber, log2: nat)
    requires log2 <= HASH_BITS
    ensures Shr(keyHash, HASH_BITS - log2) < Pow2(log2)
  {
    Pow2Of32();
    Pow2Add(log2, HASH_BITS - log2);
    QuotientBound(keyHash, Pow2(log2), Pow2(HASH_BITS - log2));
  }

  lemma QuotientBound(n: nat, a: nat, b: nat)
    requires b > 0 && n < a * b
    ensures n / b < a
  {
    var q, r := Quotient(n, b);
    assert q >= a ==> q * b >= a * b;
  }

  /** hash2's stride: the bits below those of hash1, made odd. */
  function Hash2(keyHash: HashNumber, log2: nat): (r: nat)
    requires log2 <= HASH_BITS
    ensures r % 2 == 1
  {
    var bits := Shr((keyHash * Pow2(log2)) % TWO32, HASH_BITS - log2);
    if bits % 2 == 1 then bits else bits + 1
  }

  /** The first slot is the top log2 bits of the hash; the stride is the log2 bits below
      them, or for a table of more than half of them what is left, with the lowest set. */
  lemma HashBits(keyHash: HashNumber, log2: nat, i: nat)
    requires log2 <= HASH_BITS
    ensures Bit(Hash1(keyHash, log2), i) == Bit(keyHash, HASH_BITS - log2 + i)
    ensures Bit(Hash2(keyHash, log2), i) == if i == 0 then 1
                                            else if i >= log2 || HASH_BITS + i < 2 * log2 then 0
                                            else Bit(keyHash, HASH_BITS + i - 2 * log2)
  {
    hide Pow2;
    Pow2Of32();
    ShiftedBit(keyHash, HASH_BITS - log2, i);
    var up := keyHash * Pow2(log2);
    ShiftedBit(up % TWO32, HASH_BITS - log2, i);
    MaskedBit(up, HASH_BITS, HASH_BITS - log2 + i);
    RaisedBit(keyHash, log2, HASH_BITS - log2 + i);
    OneMoreBit(Shr(up % TWO32, HASH_BITS - log2), i);
  }

  /** Setting the lowest bit of an even number. */
  lemma OneMoreBit(x: nat, i: nat)
    ensures i > 0 && x % 2 == 0 ==> Bit(x + 1, i) == Bit(x, i)
  {
  }

  /** (h1 - h2) & sizeMask in 32-bit unsigned arithmetic. */
  function ApplyDoubleHash(h1: nat, h2: nat, log2: nat): (r: nat)
    ensures r < Pow2(log2)
  {
    ((h1 - h2) % TWO32) % Pow2(log2)
  }

  /** The probe loop's slot after j steps down from h1. */
  function Walk(h1: nat, h2: nat, log2: nat, j: nat): (r: nat)
    requires h1 < Pow2(log2)
    ensures r < Pow2(log2)
  {
    if j == 0 then h1 else ApplyDoubleHash(Walk(h1, h2, log2, j - 1), h2, log2)
  }

  /** Slot visited after j steps of the probe loop for keyHash. */
  function Probe(keyHash: HashNumber, log2: nat, j: nat): (r: nat)
    requires log2 <= HASH_BITS
    ensures r < Pow2(log2)
  {
    Walk(Hash1(keyHash, log2), Hash2(keyHash, log2), log2, j)
  }

  lemma ProbeStart(keyHash: HashNumber, log2: nat)
    requires log2 <= HASH_BITS
    ensures Probe(keyHash, log2, 0) == Hash1(keyHash, log2)
  {
  }

  lemma ProbeNext(keyHash: HashNumber, log2: nat, j: nat)
    requires log2 <= HASH_BITS
    ensures Probe(keyHash, log2, j + 1)
         == ApplyDoubleHash(Probe(keyHash, log2, j), Hash2(keyHash, log2), log2)
  {
  }

  lemma {:induction false} WalkClosedForm(h1: nat, h2: nat, log2: nat, j: nat)
    requires log2 <= HASH_BITS && h1 < Pow2(log2)
    ensures Walk(h1, h2, log2, j) == ProbeAt(h1, h2, Pow2(log2), j)
  {
    if j == 0 {
      ProbeAtZero(h1, h2, Pow2(log2));
    } else {
      WalkClosedForm(h1, h2, log2, j - 1);
      ApplyStep(h1, h2, log2, j);
    }
  }

  lemma ProbeAtZero(h1: nat, stride: int, cap: nat)
    requires h1 < cap
    ensures ProbeAt(h1, stride, cap, 0) == h1
  {
    ResidueIs(h1, h1, 0, cap);
  }

  lemma ApplyStep(h1: nat, h2: nat, log2: nat, j: nat)
    requires log2 <= HASH_BITS && j > 0
    ensures ApplyDoubleHash(ProbeAt(h1, h2, Pow2(log2), j - 1), h2, log2) == ProbeAt(h1, h2, Pow2(log2), j)
  {
    ApplyIsSubtraction(ProbeAt(h1, h2, Pow2(log2), j - 1), h2, log2);
    ProbeAtStep(h1, h2, Pow2(log2), j);
  }

  // The 32-bit wrap-around of h1 - h2 is invisible under the size mask.
  lemma ApplyIsSubtraction(h1: nat, h2: nat, log2: nat)
    requires log2 <= HASH_BITS
    ensures ApplyDoubleHash(h1, h2, log2) == (h1 - h2) % Pow2(log2)
  {
    Pow2Of32();
    ModModPow2(h1 - h2, log2);
  }

  lemma ProbeAtStep(h1: int, stride: int, cap: nat, j: nat)
    requires cap > 0 && j > 0
    ensures ProbeAt(h1, stride, cap, j) == (ProbeAt(h1, stride, cap, j - 1) - stride) % cap
  {
    ModStep(h1 - (j - 1) * stride, stride, cap);
    assert h1 - (j - 1) * stride - stride == h1 - j * stride;
  }

  /** The probe loop reaches every slot of the table within capacity() steps. */
  lemma ProbeCovers(keyHash: HashNumber, log2: nat, slot: nat) returns (j: nat)
    requires log2 <= HASH_BITS && slot < Pow2(log2)
    ensures j < Pow2(log2) && Probe(keyHash, log2, j) == slot
  {
    j := OddStrideCovers(Hash1(keyHash, log2), Hash2(keyHash, log2), log2, slot);
    WalkClosedForm(Hash1(keyHash, log2), Hash2(keyHash, log2), log2, j);
  }

  /** ... and visits no slot twice before that. */
  lemma ProbeInjective(keyHash: HashNumber, log2: nat, i: nat, j: nat)
    requires log2 <= HASH_BITS && i < j < Pow2(log2)
    ensures Probe(keyHash, log2, i) != Probe(keyHash, log2, j)
  {
    var h1, h2, cap := Hash1(keyHash, log2), Hash2(keyHash, log2), Pow2(log2);
    WalkClosedForm(Hash1(keyHash, log2), Hash2(keyHash, log2), log2, i);
    WalkClosedForm(Hash1(keyHash, log2), Hash2(keyHash, log2), log2, j);
    var inv, q := OddInverse(h2, log2);
    StrideSeparates(h1, h2, cap, inv, q, i, j);
  }

  lemma StrideSeparates(h1: int, stride: int, cap: nat, inv: nat, q: int, i: nat, j: nat)
    requires cap > 0 && stride * inv == 1 + q * cap && i < j < cap
    ensures ProbeAt(h1, stride, cap, i) != ProbeAt(h1, stride, cap, j)
  {
    var qi, ri := Quotient(h1 - i * stride, cap);
    var qj, rj := Quotient(h1 - j * stride, cap);
    ResidueIs(h1 - i * stride, ri, qi, cap);
    ResidueIs(h1 - j * stride, rj, qj, cap);
    if ri == rj {
      assert (qi - qj) * cap == qi * cap - qj * cap;
      assert (j - i) * stride == j * stride - i * stride;
      MultipleOfStride(j - i, stride, cap, inv, q, qi - qj);
    }
  }

  // A step count below cap whose travel is a multiple of cap is zero.
  lemma MultipleOfStride(d: nat, stride: int, cap: nat, inv: nat, q: int, c: int)
    requires cap > 0 && stride * inv == 1 + q * cap && d * stride == c * cap && d < cap
    ensures d == 0
  {
    calc {
      (c * inv) * cap;
      (c * cap) * inv;
      (d * stride) * inv;
      d * (stride * inv);
      d * (1 + q * cap);
      d + d * (q * cap);
      { MulAssoc(d, q, cap); }
      d + (d * q) * cap;
    }
    assert (c * inv - d * q) * cap == (c * inv) * cap - (d * q) * cap;
    MultipleWithin(c * inv - d * q, cap);
  }
}
