/** Machine integers of mfbt/CheckedInt.h: ranges, conversions, and the bit patterns that
    its sign-bit tricks work on. */
module CheckedBits {
  import opened Arith
  import opened Bits

  /** An integer type by its size in bytes and its signedness. */
  datatype IntType = IntType(size: nat, signed: bool) {
    predicate Supported() {
      size == 1 || size == 2 || size == 4 || size == 8
    }

    function Bits(): nat { 8 * size }
  }

  function SignBit(ty: IntType): nat
    requires ty.Supported()
  {
    Pow2(ty.Bits() - 1)
  }

  function Modulus(ty: IntType): nat
    requires ty.Supported()
    ensures Modulus(ty) == 2 * SignBit(ty)
  {
    Pow2(ty.Bits())
  }

  predicate InRange(ty: IntType, x: int)
    requires ty.Supported()
  {
    var half: int := SignBit(ty);
    if ty.signed then -half <= x < half else 0 <= x < Modulus(ty)
  }

  /** The bit pattern of a value: conversion to the unsigned type of the same size. */
  function Pattern(ty: IntType, x: int): (p: nat)
    requires ty.Supported()
    ensures p < Modulus(ty)
  {
    x % Modulus(ty)
  }

  /** The value of a bit pattern. */
  function Value(ty: IntType, p: nat): (x: int)
    requires ty.Supported() && p < Modulus(ty)
    ensures InRange(ty, x)
  {
    if ty.signed && p >= SignBit(ty) then p - Modulus(ty) else p
  }

  /** Conversion of an integer to ty, modulo 2^n. */
  function Convert(ty: IntType, x: int): (r: int)
    requires ty.Supported()
    ensures InRange(ty, r)
  {
    Value(ty, Pattern(ty, x))
  }

  lemma PatternOf(ty: IntType, x: int)
    requires ty.Supported() && InRange(ty, x)
    ensures Pattern(ty, x) == if x < 0 then x + Modulus(ty) else x
    ensures Convert(ty, x) == x
  {
    var m := Modulus(ty);
    if x < 0 {
      ResidueIs(x, x + m, -1, m);
    } else {
      ResidueIs(x, x, 0, m);
    }
  }

  // ---------- the sign bit of a pattern ----------

  predicate HasSignBit(a: nat, n: nat)
    requires n > 0 && a < Pow2(n)
  {
    a / Pow2(n - 1) != 0
  }

  lemma SignBitIs(a: nat, n: nat)
    requires n > 0 && a < Pow2(n)
    ensures HasSignBit(a, n) <==> a >= Pow2(n - 1)
  {
    var p := Pow2(n - 1);
    if a >= p {
      QuotientIs(a, 1, a - p, p);
    } else {
      QuotientIs(a, 0, a, p);
    }
  }

  lemma {:induction false} XorSign(a: nat, b: nat, n: nat)
    requires n > 0 && a < Pow2(n) && b < Pow2(n)
    ensures HasSignBit(Xor(a, b, n), n) <==> HasSignBit(a, n) != HasSignBit(b, n)
  {
    SignBitIs(a, n);
    SignBitIs(b, n);
    SignBitIs(Xor(a, b, n), n);
    if n > 1 {
      XorSign(a / 2, b / 2, n - 1);
      SignBitIs(a / 2, n - 1);
      SignBitIs(b / 2, n - 1);
      SignBitIs(Xor(a / 2, b / 2, n - 1), n - 1);
    }
  }

  lemma {:induction false} AndSign(a: nat, b: nat, n: nat)
    requires n > 0 && a < Pow2(n) && b < Pow2(n)
    ensures HasSignBit(And(a, b, n), n) <==> HasSignBit(a, n) && HasSignBit(b, n)
  {
    SignBitIs(a, n);
    SignBitIs(b, n);
    SignBitIs(And(a, b, n), n);
    if n > 1 {
      AndSign(a / 2, b / 2, n - 1);
      SignBitIs(a / 2, n - 1);
      SignBitIs(b / 2, n - 1);
      SignBitIs(And(a / 2, b / 2, n - 1), n - 1);
    }
  }

  lemma NotSign(a: nat, n: nat)
    requires n > 0 && a < Pow2(n)
    ensures HasSignBit(Not(a, n), n) <==> !HasSignBit(a, n)
  {
    SignBitIs(a, n);
    SignBitIs(Not(a, n), n);
  }
}
