/** The bits of natural numbers under shifts, masks and the bitwise operators. */
module Bits {
  import opened Arith

  function Div(x: nat, m: nat): nat
    requires m > 0
  {
    x / m
  }

  /** x >> n */
  function Shr(x: nat, n: nat): nat {
    Div(x, Pow2(n))
  }

  /** x & (2^n - 1) */
  function Mask(x: nat, n: nat): (r: nat)
    ensures r < Pow2(n)
  {
    x % Pow2(n)
  }

  /** Bit i of x, counted from the least significant one. */
  function Bit(x: nat, i: nat): (b: nat)
    ensures b < 2
  {
    if i == 0 then x % 2 else Bit(x / 2, i - 1)
  }

  /** It is a binary digit. */
  lemma BitIs(x: nat, i: nat)
    ensures Bit(x, i) == Shr(x, i) % 2
  {
    ShiftedBit(x, i, 0);
  }

  lemma HalveFirst(x: nat, m: nat)
    requires m > 0
    ensures x / (2 * m) == (x / 2) / m
    ensures (x % (2 * m)) / 2 == (x / 2) % m && (x % (2 * m)) % 2 == x % 2
  {
    var h, b := x / 2, x % 2;
    var q, r := Quotient(h, m);
    assert x == q * (2 * m) + (2 * r + b);
    QuotientIs(x, q, 2 * r + b, 2 * m);
    ResidueIs(x, 2 * r + b, q, 2 * m);
    QuotientIs(h, q, r, m);
    ResidueIs(h, r, q, m);
  }

  /** A shift to the right by n drops the lowest n bits. */
  lemma {:induction false} ShiftedBit(x: nat, n: nat, i: nat)
    ensures Bit(Shr(x, n), i) == Bit(x, n + i)
  {
    if n > 0 {
      HalveFirst(x, Pow2(n - 1));
      ShiftedBit(x / 2, n - 1, i);
    }
  }

  /** A mask of n bits keeps just those. */
  lemma {:induction false} MaskedBit(x: nat, n: nat, i: nat)
    ensures Bit(Mask(x, n), i) == if i < n then Bit(x, i) else 0
  {
    if n == 0 {
      NoBits(i);
    } else {
      HalveFirst(x, Pow2(n - 1));
      if i > 0 {
        MaskedBit(x / 2, n - 1, i - 1);
      }
    }
  }

  lemma {:induction false} NoBits(i: nat)
    ensures Bit(0, i) == 0
  {
    if i > 0 {
      NoBits(i - 1);
    }
  }

  /** A shift to the left by n puts n zeros below. */
  lemma {:induction false} RaisedBit(x: nat, n: nat, i: nat)
    ensures Bit(x * Pow2(n), i) == if i < n then 0 else Bit(x, i - n)
  {
    if n > 0 {
      var y := x * Pow2(n - 1);
      assert x * Pow2(n) == 2 * y;
      if i > 0 {
        RaisedBit(x, n - 1, i - 1);
      }
    }
  }

  /** x and y agree on the bits from low up to high. */
  ghost predicate Agree(x: nat, y: nat, low: nat, high: nat) {
    forall i | low <= i < high :: Bit(x, i) == Bit(y, i)
  }

  /** Numbers of n bits are told apart by them. */
  lemma {:induction false} SameBits(x: nat, y: nat, n: nat)
    requires x < Pow2(n) && y < Pow2(n) && Agree(x, y, 0, n)
    ensures x == y
  {
    if n > 0 {
      forall i | 0 <= i < n - 1 ensures Bit(x / 2, i) == Bit(y / 2, i) {
        assert Bit(x, i + 1) == Bit(y, i + 1);
      }
      SameBits(x / 2, y / 2, n - 1);
      assert Bit(x, 0) == Bit(y, 0);
    }
  }

  /** The n bits of x from bit low upwards: a shift and a mask. */
  function Field(x: nat, low: nat, n: nat): (f: nat)
    ensures f < Pow2(n)
  {
    Mask(Shr(x, low), n)
  }

  lemma LowField(x: nat, n: nat)
    ensures Field(x, 0, n) == Mask(x, n)
  {
    hide Mask;
    assert Shr(x, 0) == x;
  }

  lemma FieldBit(x: nat, low: nat, n: nat, i: nat)
    ensures Bit(Field(x, low, n), i) == if i < n then Bit(x, low + i) else 0
  {
    MaskedBit(Shr(x, low), n, i);
    ShiftedBit(x, low, i);
  }

  /** Fields are equal exactly when their bits are. */
  lemma SameField(x: nat, y: nat, low: nat, n: nat)
    ensures Field(x, low, n) == Field(y, low, n) <==> Agree(x, y, low, low + n)
  {
    hide Bit, Pow2, Field;
    var a, b := Field(x, low, n), Field(y, low, n);
    forall i | 0 <= i < n ensures Bit(a, i) == Bit(x, low + i) && Bit(b, i) == Bit(y, low + i) {
      FieldBit(x, low, n, i);
      FieldBit(y, low, n, i);
    }
    if a == b {
      forall i | low <= i < low + n ensures Bit(x, i) == Bit(y, i) {
        assert Bit(a, i - low) == Bit(x, low + (i - low)) && Bit(b, i - low) == Bit(y, low + (i - low));
      }
    } else if Agree(x, y, low, low + n) {
      SameBits(a, b, n);
    }
  }

  /** Two fields side by side, high above the n bits of low. */
  lemma JoinedBit(high: nat, low: nat, n: nat, i: nat)
    requires low < Pow2(n)
    ensures Bit(high * Pow2(n) + low, i) == if i < n then Bit(low, i) else Bit(high, i - n)
  {
    hide Bit, Pow2;
    var x := high * Pow2(n) + low;
    QuotientIs(x, high, low, Pow2(n));
    ResidueIs(x, low, high, Pow2(n));
    if i < n {
      MaskedBit(x, n, i);
    } else {
      ShiftedBit(x, n, i - n);
    }
  }

  lemma NoBitAbove(x: nat, n: nat, i: nat)
    requires x < Pow2(n) && i >= n
    ensures Bit(x, i) == 0
  {
    SmallResidue(x, Pow2(n));
    MaskedBit(x, n, i);
  }

  // ---------- bitwise operators on n bits ----------

  function Xor(a: nat, b: nat, n: nat): (r: nat)
    ensures r < Pow2(n)
  {
    if n == 0 then 0 else (a + b) % 2 + 2 * Xor(a / 2, b / 2, n - 1)
  }

  function And(a: nat, b: nat, n: nat): (r: nat)
    ensures r < Pow2(n)
  {
    if n == 0 then 0 else (if a % 2 == 1 && b % 2 == 1 then 1 else 0) + 2 * And(a / 2, b / 2, n - 1)
  }

  function Or(a: nat, b: nat, n: nat): (r: nat)
    ensures r < Pow2(n)
  {
    if n == 0 then 0 else (if a % 2 == 1 || b % 2 == 1 then 1 else 0) + 2 * Or(a / 2, b / 2, n - 1)
  }

  function Not(a: nat, n: nat): (r: nat)
    requires a < Pow2(n)
    ensures r < Pow2(n)
  {
    Pow2(n) - 1 - a
  }

  lemma LowBitFirst(b: nat, r: nat)
    requires b < 2
    ensures (b + 2 * r) % 2 == b && (b + 2 * r) / 2 == r
  {
  }

  lemma {:induction false} XorBit(a: nat, b: nat, n: nat, i: nat)
    requires i < n
    ensures Bit(Xor(a, b, n), i) == if Bit(a, i) == Bit(b, i) then 0 else 1
  {
    LowBitFirst((a + b) % 2, Xor(a / 2, b / 2, n - 1));
    if i > 0 {
      XorBit(a / 2, b / 2, n - 1, i - 1);
    }
  }

  lemma {:induction false} AndBit(a: nat, b: nat, n: nat, i: nat)
    requires i < n
    ensures Bit(And(a, b, n), i) == if Bit(a, i) == Bit(b, i) == 1 then 1 else 0
  {
    LowBitFirst(if a % 2 == 1 && b % 2 == 1 then 1 else 0, And(a / 2, b / 2, n - 1));
    if i > 0 {
      AndBit(a / 2, b / 2, n - 1, i - 1);
    }
  }

  lemma {:induction false} OrBit(a: nat, b: nat, n: nat, i: nat)
    requires i < n
    ensures Bit(Or(a, b, n), i) == if Bit(a, i) == Bit(b, i) == 0 then 0 else 1
  {
    LowBitFirst(if a % 2 == 1 || b % 2 == 1 then 1 else 0, Or(a / 2, b / 2, n - 1));
    if i > 0 {
      OrBit(a / 2, b / 2, n - 1, i - 1);
    }
  }

  lemma {:induction false} NotBit(a: nat, n: nat, i: nat)
    requires a < Pow2(n) && i < n
    ensures Bit(Not(a, n), i) == 1 - Bit(a, i)
  {
    if i > 0 {
      NotBit(a / 2, n - 1, i - 1);
    }
  }
}
