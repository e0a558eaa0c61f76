/** Integer arithmetic used across the modules: powers of two, residues, and the fact
    that an odd stride visits every slot of a table whose size is a power of two. */
module Arith {

  const TWO32: nat := 0x1_0000_0000

  type Uint32 = n: nat | n < TWO32 witness 0

  function Pow2(n: nat): (r: nat)
    ensures r >= 1
  {
    if n == 0 then 1 else 2 * Pow2(n - 1)
  }

  /** floor(log2 n) for n > 0 */
  function FloorLog2(n: nat): nat {
    if n <= 1 then 0 else 1 + FloorLog2(n / 2)
  }

  lemma {:induction false} FloorLog2Bounds(n: nat)
    requires n > 0
    ensures Pow2(FloorLog2(n)) <= n < 2 * Pow2(FloorLog2(n))
  {
    if n > 1 {
      FloorLog2Bounds(n / 2);
    }
  }

  /** JS_CEILING_LOG2W */
  function CeilingLog2(n: nat): nat {
    if n <= 1 then 0 else 1 + FloorLog2(n - 1)
  }

  /** It is the smallest power of two's exponent that reaches n. */
  lemma CeilingLog2Least(n: nat, k: nat)
    ensures n <= Pow2(CeilingLog2(n))
    ensures n <= Pow2(k) ==> CeilingLog2(n) <= k
  {
    if n > 1 {
      FloorLog2Bounds(n - 1);
      if n <= Pow2(k) && k <= FloorLog2(n - 1) {
        Pow2Monotone(k, FloorLog2(n - 1));
      }
    }
  }

  lemma {:induction false} Pow2Add(a: nat, b: nat)
    ensures Pow2(a + b) == Pow2(a) * Pow2(b)
  {
    if a > 0 {
      Pow2Add(a - 1, b);
      assert Pow2(a + b) == 2 * Pow2((a - 1) + b);
      assert 2 * (Pow2(a - 1) * Pow2(b)) == (2 * Pow2(a - 1)) * Pow2(b);
    }
  }

  lemma {:induction false} Pow2Monotone(a: nat, b: nat)
    requires a <= b
    ensures Pow2(a) <= Pow2(b)
    ensures a < b ==> 2 * Pow2(a) <= Pow2(b)
  {
    if a < b {
      Pow2Monotone(a, b - 1);
    }
  }

  lemma Pow2Of32()
    ensures Pow2(32) == TWO32
  {
    Pow2Add(16, 16);
    Pow2Add(8, 8);
    assert Pow2(8) == 256;
  }

  lemma ModShift(x: int, q: int, m: int)
    requires m > 0
    ensures (x + q * m) % m == x % m
  {
    var a, b := x / m, (x + q * m) / m;
    var r, s := x % m, (x + q * m) % m;
    assert (b - a - q) * m == r - s by {
      assert x == a * m + r && x + q * m == b * m + s;
      assert (b - a - q) * m == b * m - a * m - q * m;
    }
    MultipleWithin(b - a - q, m);
  }

  // A multiple of m lying strictly between -m and m is zero.
  lemma MultipleWithin(k: int, m: int)
    requires m > 0
    ensures -m < k * m < m ==> k == 0
  {
    if k >= 1 {
      assert k * m >= m;
    } else if k <= -1 {
      assert k * m <= -m;
    }
  }

  lemma ModStep(x: int, y: int, m: int)
    requires m > 0
    ensures (x % m - y) % m == (x - y) % m
  {
    assert x == (x / m) * m + x % m;
    ModShift(x % m - y, x / m, m);
  }

  lemma MulAssoc(a: int, b: int, c: int)
    ensures a * (b * c) == (a * b) * c
  {
  }

  lemma ModOfMultiple(x: int, a: nat, m: nat)
    requires a > 0 && m > 0 && a * m > 0
    ensures (x % (a * m)) % m == x % m
  {
    var n := a * m;
    var q, r := x / n, x % n;
    assert x == q * n + r;
    MulAssoc(q, a, m);
    ModShift(r, q * a, m);
  }

  // Reducing modulo 2^32 first, as unsigned 32-bit arithmetic does, changes nothing
  // for a smaller power of two.
  lemma ModModPow2(x: int, k: nat)
    requires k <= 32
    ensures (x % Pow2(32)) % Pow2(k) == x % Pow2(k)
  {
    Pow2Add(32 - k, k);
    ModOfMultiple(x, Pow2(32 - k), Pow2(k));
  }

  // One lifting step of the inverse: from modulo p to modulo 2p.
  lemma LiftInverse(a: int, p: nat, inv: nat, q: int) returns (inv': nat, q': int)
    requires a % 2 == 1 && a * inv == 1 + q * p
    ensures a * inv' == 1 + q' * (2 * p)
  {
    if q % 2 == 0 {
      inv', q' := inv, q / 2;
      MulAssoc(q', 2, p);
    } else {
      inv', q' := inv + p, (q + a) / 2;
      assert q' * 2 == q + a;
      MulAssoc(q', 2, p);
      assert a * inv' == a * inv + a * p;
      assert (q + a) * p == q * p + a * p;
    }
  }

  // An odd number has an inverse modulo every power of two.
  lemma {:induction false} OddInverse(a: int, k: nat) returns (inv: nat, q: int)
    requires a % 2 == 1
    ensures a * inv == 1 + q * Pow2(k)
  {
    if k == 0 {
      inv, q := 0, -1;
    } else {
      inv, q := OddInverse(a, k - 1);
      inv, q := LiftInverse(a, Pow2(k - 1), inv, q);
    }
  }

  /** Slot reached after j steps of the double-hash walk that starts at h1 and
      moves down by the stride, modulo the capacity. */
  function ProbeAt(h1: int, stride: int, cap: nat, j: int): (r: nat)
    requires cap > 0
    ensures r < cap
  {
    (h1 - j * stride) % cap
  }

  // Dividing the distance by the stride, modulo the capacity, gives the step count.
  lemma StrideDivides(h1: int, stride: int, cap: nat, slot: nat, inv: nat, q: int, j: nat, e: int)
    requires cap > 0 && stride * inv == 1 + q * cap
    requires (h1 - slot) * inv == e * cap + j
    ensures h1 - j * stride == slot + (e * stride - (h1 - slot) * q) * cap
  {
    var d := h1 - slot;
    calc {
      j * stride;
      (d * inv - e * cap) * stride;
      (d * inv) * stride - (e * cap) * stride;
      { assert (d * inv) * stride == d * (stride * inv); }
      d * (1 + q * cap) - (e * cap) * stride;
      { assert d * (1 + q * cap) == d + d * (q * cap); MulAssoc(d, q, cap); }
      d + (d * q) * cap - (e * cap) * stride;
      { assert (e * cap) * stride == (e * stride) * cap; }
      d + (d * q) * cap - (e * stride) * cap;
    }
    assert (e * stride - d * q) * cap == (e * stride) * cap - (d * q) * cap;
  }

  // An odd stride visits all 2^k slots within 2^k steps.
  lemma OddStrideCovers(h1: int, stride: int, k: nat, slot: nat) returns (j: nat)
    requires stride % 2 == 1
    requires slot < Pow2(k)
    ensures j < Pow2(k)
    ensures ProbeAt(h1, stride, Pow2(k), j) == slot
  {
    var inv, q := OddInverse(stride, k);
    j := CoverWith(h1, stride, Pow2(k), slot, inv, q);
  }

  lemma CoverWith(h1: int, stride: int, cap: nat, slot: nat, inv: nat, q: int) returns (j: nat)
    requires cap > 0 && slot < cap && stride * inv == 1 + q * cap
    ensures j < cap && ProbeAt(h1, stride, cap, j) == slot
  {
    var e: int;
    e, j := Quotient((h1 - slot) * inv, cap);
    StrideDivides(h1, stride, cap, slot, inv, q, j, e);
    ResidueIs(h1 - j * stride, slot, e * stride - (h1 - slot) * q, cap);
  }

  lemma Quotient(n: int, m: nat) returns (q: int, r: nat)
    requires m > 0
    ensures n == q * m + r && r < m
  {
    q, r := n / m, n % m;
  }

  lemma QuotientIs(n: int, q: int, r: nat, m: nat)
    requires r < m && n == q * m + r
    ensures n / m == q
  {
    var p, s := n / m, n % m;
    assert n == p * m + s;
    assert (p - q) * m == p * m - q * m;
    MultipleWithin(p - q, m);
  }

  lemma ResidueIs(x: int, r: nat, c: int, m: nat)
    requires r < m && x == r + c * m
    ensures x % m == r
  {
    ModShift(r, c, m);
    SmallResidue(r, m);
  }

  lemma SmallResidue(r: nat, m: nat)
    requires r < m
    ensures r % m == r
  {
  }
}
