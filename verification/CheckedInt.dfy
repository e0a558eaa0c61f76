/** mfbt/CheckedInt.h: integers that remember whether the computation that led to them
    went out of range, for every supported width and signedness. */
module CheckedInt {
  import opened Arith
  import opened Bits
  import opened CheckedBits
  import opened Wrappers

  // ---------- extremes ----------

  function MinValue(ty: IntType): (r: int)
    requires ty.Supported()
    ensures InRange(ty, r)
  {
    if ty.signed then Value(ty, SignBit(ty)) else 0
  }

  function BinaryComplement(ty: IntType, x: int): (r: int)
    requires ty.Supported()
    ensures InRange(ty, r)
  {
    Value(ty, Not(Pattern(ty, x), ty.Bits()))
  }

  function MaxValue(ty: IntType): (r: int)
    requires ty.Supported()
    ensures InRange(ty, r)
  {
    BinaryComplement(ty, MinValue(ty))
  }

  lemma ComplementIs(ty: IntType, x: int)
    requires ty.Supported() && InRange(ty, x)
    ensures BinaryComplement(ty, x) == if ty.signed then -1 - x else Modulus(ty) - 1 - x
  {
    PatternOf(ty, x);
  }

  /** The computed extremes bound exactly the range. */
  lemma Extremes(ty: IntType, x: int)
    requires ty.Supported()
    ensures InRange(ty, x) <==> MinValue(ty) <= x <= MaxValue(ty)
  {
    ComplementIs(ty, MinValue(ty));
  }

  /** The extremes in numbers, type by type. */
  lemma Ranges(signed: bool)
    ensures var ty := IntType(1, signed);
            MinValue(ty) == (if signed then -128 else 0) && MaxValue(ty) == if signed then 127 else 255
    ensures var ty := IntType(2, signed);
            MinValue(ty) == (if signed then -32768 else 0) && MaxValue(ty) == if signed then 32767 else 65535
    ensures var ty := IntType(4, signed);
            MinValue(ty) == (if signed then -0x8000_0000 else 0)
            && MaxValue(ty) == if signed then 0x7fff_ffff else 0xffff_ffff
    ensures var ty := IntType(8, signed);
            MinValue(ty) == (if signed then -0x8000_0000_0000_0000 else 0)
            && MaxValue(ty) == if signed then 0x7fff_ffff_ffff_ffff else 0xffff_ffff_ffff_ffff
  {
    RangeOf(IntType(1, signed));
    RangeOf(IntType(2, signed));
    RangeOf(IntType(4, signed));
    RangeOf(IntType(8, signed));
    Widths();
  }

  lemma RangeOf(ty: IntType)
    requires ty.Supported()
    ensures MinValue(ty) == if ty.signed then -(Pow2(ty.Bits() - 1) as int) else 0
    ensures MaxValue(ty) == if ty.signed then Pow2(ty.Bits() - 1) - 1 else Pow2(ty.Bits()) - 1
  {
    ComplementIs(ty, MinValue(ty));
    PatternOf(ty, MinValue(ty));
  }

  lemma Widths()
    ensures Pow2(7) == 0x80 && Pow2(8) == 0x100 && Pow2(15) == 0x8000 && Pow2(16) == 0x1_0000
    ensures Pow2(31) == 0x8000_0000 && Pow2(32) == 0x1_0000_0000
    ensures Pow2(63) == 0x8000_0000_0000_0000 && Pow2(64) == 0x1_0000_0000_0000_0000
  {
    assert Pow2(7) == 0x80;
    Pow2Add(8, 8);
    Pow2Add(16, 16);
    Pow2Add(32, 32);
  }

  // ---------- range checks ----------

  predicate DoesRangeContainRange(t: IntType, u: IntType) {
    if t.signed == u.signed then t.size >= u.size
    else t.signed && t.size > u.size
  }

  /** IsInRange<T>(x) for an x of type U, one clause for each specialization. */
  predicate IsInRange(t: IntType, u: IntType, x: int)
    requires t.Supported() && u.Supported()
  {
    if DoesRangeContainRange(t, u) then true
    else if t.signed && u.signed then x <= MaxValue(t) && x >= MinValue(t)
    else if !t.signed && !u.signed then x <= MaxValue(t)
    else if t.signed then t.size > u.size || x <= Convert(u, MaxValue(t))
    else if t.size >= u.size then x >= 0
    else x >= 0 && x <= Convert(u, MaxValue(t))
  }

  lemma WiderHolds(narrow: IntType, wide: IntType, x: int)
    requires narrow.Supported() && wide.Supported() && InRange(narrow, x)
    requires if narrow.signed == wide.signed then narrow.size <= wide.size
             else if narrow.signed then x >= 0 && narrow.size <= wide.size else narrow.size < wide.size
    ensures InRange(wide, x)
  {
    Pow2Monotone(narrow.Bits(), wide.Bits());
    Pow2Monotone(narrow.Bits() - 1, wide.Bits() - 1);
    if narrow.size < wide.size {
      Pow2Monotone(narrow.Bits(), wide.Bits() - 1);
    }
  }

  /** Every specialization is exact on the values of its argument's type. */
  lemma IsInRangeIsExact(t: IntType, u: IntType, x: int)
    requires t.Supported() && u.Supported() && InRange(u, x)
    ensures IsInRange(t, u, x) <==> InRange(t, x)
  {
    Extremes(t, x);
    if DoesRangeContainRange(t, u) {
      WiderHolds(u, t, x);
    } else if t.signed != u.signed {
      ComplementIs(t, MinValue(t));
      if t.signed || t.size < u.size {
        WiderHolds(t, u, MaxValue(t));
        PatternOf(u, MaxValue(t));
      } else if x >= 0 {
        WiderHolds(u, t, x);
      }
    }
  }

  // ---------- validity of an operation ----------

  predicate IsAddValid(ty: IntType, x: int, y: int)
    requires ty.Supported()
  {
    var n, ux, uy := ty.Bits(), Pattern(ty, x), Pattern(ty, y);
    var result := Pattern(ty, ux + uy);
    if ty.signed then HasSignBit(Not(And(Xor(result, ux, n), Xor(result, uy, n), n), n), n)
    else BinaryComplement(ty, x) >= y
  }

  predicate IsSubValid(ty: IntType, x: int, y: int)
    requires ty.Supported()
  {
    var n, ux, uy := ty.Bits(), Pattern(ty, x), Pattern(ty, y);
    var result := Pattern(ty, ux - uy);
    if ty.signed then HasSignBit(Not(And(Xor(result, ux, n), Xor(ux, uy, n), n), n), n)
    else x >= y
  }

  /** The sign bit of a pattern is that of the value. */
  lemma PatternSign(ty: IntType, x: int)
    requires ty.Supported() && ty.signed && InRange(ty, x)
    ensures HasSignBit(Pattern(ty, x), ty.Bits()) <==> x < 0
  {
    PatternOf(ty, x);
    SignBitIs(Pattern(ty, x), ty.Bits());
  }

  /** A sum or difference of two values of ty, reduced modulo 2^n. */
  lemma WrappedOnce(ty: IntType, z: int)
    requires ty.Supported() && ty.signed
    requires 0 <= z + Modulus(ty) < 2 * Modulus(ty)
    ensures HasSignBit(Pattern(ty, z), ty.Bits()) <==>
            (if z >= 0 then z >= SignBit(ty) else z + Modulus(ty) >= SignBit(ty))
  {
    var m := Modulus(ty);
    if z < 0 {
      ResidueIs(z, z + m, -1, m);
    } else {
      ResidueIs(z, z, 0, m);
    }
    SignBitIs(Pattern(ty, z), ty.Bits());
  }

  lemma IsAddValidIsExact(ty: IntType, x: int, y: int)
    requires ty.Supported() && InRange(ty, x) && InRange(ty, y)
    ensures IsAddValid(ty, x, y) <==> InRange(ty, x + y)
  {
    hide Xor, And, Not, HasSignBit, Pow2, Pattern;
    if ty.signed {
      var n, ux, uy := ty.Bits(), Pattern(ty, x), Pattern(ty, y);
      var result := Pattern(ty, ux + uy);
      SamePattern(ty, x, y);
      PatternSign(ty, x);
      PatternSign(ty, y);
      WrappedOnce(ty, x + y);
      XorSign(result, ux, n);
      XorSign(result, uy, n);
      AndSign(Xor(result, ux, n), Xor(result, uy, n), n);
      NotSign(And(Xor(result, ux, n), Xor(result, uy, n), n), n);
    } else {
      ComplementIs(ty, x);
    }
  }

  /** Adding or subtracting patterns is adding or subtracting values modulo 2^n. */
  lemma SamePattern(ty: IntType, x: int, y: int)
    requires ty.Supported() && InRange(ty, x) && InRange(ty, y)
    ensures Pattern(ty, Pattern(ty, x) + Pattern(ty, y)) == Pattern(ty, x + y)
    ensures Pattern(ty, Pattern(ty, x) - Pattern(ty, y)) == Pattern(ty, x - y)
  {
    var m := Modulus(ty);
    PatternOf(ty, x);
    PatternOf(ty, y);
    var a: int, b: int := if x < 0 then 1 else 0, if y < 0 then 1 else 0;
    ModShift(x + y, a + b, m);
    ModShift(x - y, a - b, m);
    assert (a + b) * m == a * m + b * m && (a - b) * m == a * m - b * m;
  }

  lemma IsSubValidIsExact(ty: IntType, x: int, y: int)
    requires ty.Supported() && InRange(ty, x) && InRange(ty, y)
    ensures IsSubValid(ty, x, y) <==> InRange(ty, x - y)
  {
    hide Xor, And, Not, HasSignBit, Pow2, Pattern;
    if ty.signed {
      var n, ux: int, uy: int := ty.Bits(), Pattern(ty, x), Pattern(ty, y);
      var result := Pattern(ty, ux - uy);
      SamePattern(ty, x, y);
      PatternSign(ty, x);
      PatternSign(ty, y);
      WrappedOnce(ty, x - y);
      XorSign(result, ux, n);
      XorSign(ux, uy, n);
      AndSign(Xor(result, ux, n), Xor(ux, uy, n), n);
      NotSign(And(Xor(result, ux, n), Xor(ux, uy, n), n), n);
    }
  }

  /** C's division, which truncates towards zero. */
  function CDiv(a: int, b: int): int
    requires b != 0
  {
    if a >= 0 then if b > 0 then a / b else -(a / -b)
    else if b > 0 then -(-a / b) else -a / -b
  }

  /** What makes it the truncating quotient, whatever the signs: the remainder is smaller
      than the divisor and is 0 or has the sign of the dividend. */
  lemma CDivTruncates(a: int, b: int)
    requires b != 0
    ensures var r := a - CDiv(a, b) * b;
            && (if b > 0 then -b < r < b else b < r < -b)
            && (r > 0 ==> a > 0) && (r < 0 ==> a < 0)
  {
    hide CDiv;
    var x: nat, y: nat := if a >= 0 then a else -a, if b > 0 then b else -b;
    var q, r := Quotient(x, y);
    QuotientIs(x, q, r, y);
    CDivBySigns(a, b);
    SignedProduct(q, b);
  }

  lemma CDivBySigns(a: int, b: int)
    requires b != 0
    ensures var q := (if a >= 0 then a else -a) / if b > 0 then b else -b;
            CDiv(a, b) == if (a >= 0) == (b > 0) then q else -q
  {
  }

  lemma SignedProduct(q: int, b: int)
    ensures q * -b == -(q * b) && -q * b == -(q * b)
  {
  }

  function TwiceBigger(ty: IntType): IntType {
    IntType(2 * ty.size, ty.signed)
  }

  /** By a product in the type of twice the size, or without one by divisions. */
  predicate IsMulValid(ty: IntType, x: int, y: int)
    requires ty.Supported()
  {
    if ty.size < 8 then
      var twice := TwiceBigger(ty);
      IsInRange(ty, twice, Convert(twice, Convert(twice, x) * Convert(twice, y)))
    else if ty.signed then DividesInto(MinValue(ty), MaxValue(ty), x, y)
    else y == 0 || x <= MaxValue(ty) / y
  }

  predicate DividesInto(min: int, max: int, x: int, y: int) {
    if x == 0 || y == 0 then true
    else if x > 0 then if y > 0 then x <= CDiv(max, y) else y >= CDiv(min, x)
    else if y > 0 then x >= CDiv(min, y) else y >= CDiv(max, x)
  }

  lemma MulMonotone(x: int, a: int, y: nat)
    requires x <= a
    ensures x * y <= a * y
  {
    assert (a - x) * y == a * y - x * y;
  }

  lemma AtMostQuotient(a: int, b: int, m: int)
    requires b > 0 && m >= 0
    ensures a <= m / b <==> a * b <= m
  {
    var q, r := Quotient(m, b);
    QuotientIs(m, q, r, b);
    if a <= q {
      MulMonotone(a, q, b);
    } else {
      MulMonotone(q + 1, a, b);
      assert (q + 1) * b == q * b + b;
    }
  }

  lemma ProductBound(x: int, y: int, a: nat)
    requires -(a as int) <= x <= a && -(a as int) <= y <= a
    ensures -(a * a) <= x * y <= a * a
  {
    assert (a - x) * (a + y) >= 0 && (a + x) * (a - y) >= 0;
    assert (a - x) * (a - y) >= 0 && (a + x) * (a + y) >= 0;
  }

  lemma SquareBelow(m: nat, x: nat, y: nat)
    requires x < m && y < m
    ensures 0 <= x * y < m * m
  {
    MulMonotone(x, m, y);
    MulMonotone(y + 1, m, m);
    assert (y + 1) * m == m * y + m;
  }

  /** The product of two values of a type fits the type of twice its size. */
  lemma ProductFits(ty: IntType, x: int, y: int)
    requires ty.Supported() && ty.size < 8 && InRange(ty, x) && InRange(ty, y)
    ensures InRange(TwiceBigger(ty), x * y)
  {
    hide Pow2;
    var n, twice := ty.Bits(), TwiceBigger(ty);
    if ty.signed {
      ProductBound(x, y, SignBit(ty));
      Pow2Add(n - 1, n - 1);
      Pow2Monotone(n - 1 + n - 1, twice.Bits() - 1);
    } else {
      SquareBelow(Modulus(ty), x, y);
      Pow2Add(n, n);
    }
  }

  lemma IsMulValidIsExact(ty: IntType, x: int, y: int)
    requires ty.Supported() && InRange(ty, x) && InRange(ty, y)
    ensures IsMulValid(ty, x, y) <==> InRange(ty, x * y)
  {
    if ty.size < 8 {
      var twice := TwiceBigger(ty);
      WiderHolds(ty, twice, x);
      WiderHolds(ty, twice, y);
      PatternOf(twice, x);
      PatternOf(twice, y);
      ProductFits(ty, x, y);
      PatternOf(twice, x * y);
      IsInRangeIsExact(ty, twice, x * y);
    } else {
      ByDivision(ty, x, y);
    }
  }

  lemma ByDivision(ty: IntType, x: int, y: int)
    requires ty.Supported() && ty.size == 8 && InRange(ty, x) && InRange(ty, y)
    ensures IsMulValid(ty, x, y) <==> InRange(ty, x * y)
  {
    hide MinValue, MaxValue, InRange, DividesInto, Convert;
    ComplementIs(ty, MinValue(ty));
    Extremes(ty, x * y);
    ExtremesAroundZero(ty);
    if ty.signed {
      DividesIntoIsExact(MinValue(ty), MaxValue(ty), x, y);
    } else {
      NaturalProduct(ty, x, y);
    }
  }

  lemma ExtremesAroundZero(ty: IntType)
    requires ty.Supported()
    ensures MinValue(ty) <= 0 <= MaxValue(ty)
  {
    Extremes(ty, 0);
  }

  lemma NaturalProduct(ty: IntType, x: int, y: int)
    requires ty.Supported() && !ty.signed && InRange(ty, x) && InRange(ty, y)
    ensures y == 0 || x <= MaxValue(ty) / y <==> x * y <= MaxValue(ty)
    ensures MinValue(ty) <= x * y
  {
    hide Pow2, BinaryComplement;
    MulMonotone(0, x, y);
    ExtremesAroundZero(ty);
    if y != 0 {
      AtMostQuotient(x, y, MaxValue(ty));
    }
  }

  /** The four sign cases of the division test. */
  lemma DividesIntoIsExact(min: int, max: int, x: int, y: int)
    requires min <= 0 <= max
    ensures DividesInto(min, max, x, y) <==> min <= x * y <= max
  {
    if x == 0 || y == 0 {
      assert x * y == 0;
    } else {
      SignOfProduct(x, y);
      if x > 0 && y > 0 {
        AtMostQuotient(x, y, max);
      } else if x > 0 {
        AtLeastQuotient(y, x, min);
      } else if y > 0 {
        AtLeastQuotient(x, y, min);
      } else {
        AtMostQuotient(-y, -x, max);
      }
    }
  }

  lemma AtLeastQuotient(a: int, b: int, m: int)
    requires b > 0 && m <= 0
    ensures a >= CDiv(m, b) <==> a * b >= m
  {
    AtMostQuotient(-a, b, -m);
    assert -a * b == -(a * b);
    if m == 0 {
      QuotientIs(0, 0, 0, b);
    }
  }

  lemma SignOfProduct(x: int, y: int)
    requires x != 0 && y != 0
    ensures x * y > 0 <==> (x > 0) == (y > 0)
    ensures x * y != 0
    ensures -y * -x == x * y == y * x
  {
  }

  predicate IsDivValid(ty: IntType, x: int, y: int)
    requires ty.Supported()
  {
    y != 0 && !(ty.signed && x == MinValue(ty) && y == Convert(ty, -1))
  }

  lemma QuotientShrinks(a: nat, b: nat)
    requires b > 0
    ensures 0 <= a / b <= a && (b > 1 && a > 0 ==> a / b < a) && (b == 1 ==> a / b == a)
  {
    var q, r := Quotient(a, b);
    QuotientIs(a, q, r, b);
    Grows(q, b);
  }

  lemma Grows(q: int, b: nat)
    requires b > 0
    ensures q >= 0 ==> q * b >= q && (b > 1 && q > 0 ==> q * b > q)
    ensures q < 0 ==> q * b + b <= 0
    ensures b == 1 ==> q * b == q
  {
  }

  lemma IsDivValidIsExact(ty: IntType, x: int, y: int)
    requires ty.Supported() && InRange(ty, x) && InRange(ty, y)
    ensures IsDivValid(ty, x, y) <==> y != 0 && InRange(ty, CDiv(x, y))
  {
    if ty.signed {
      PatternOf(ty, -1);
    }
    if y != 0 {
      QuotientShrinks(if x >= 0 then x else -x, if y > 0 then y else -y);
    }
  }

  /** Remainders of negative operands count as invalid. */
  predicate IsModValid(ty: IntType, x: int, y: int) {
    if ty.signed then if x < 0 then false else y >= 1 else y >= 1
  }

  lemma IsModValidIsExact(ty: IntType, x: int, y: int)
    requires ty.Supported() && InRange(ty, x) && InRange(ty, y)
    ensures IsModValid(ty, x, y) <==> x >= 0 && y > 0
    ensures IsModValid(ty, x, y) ==> 0 <= x % y < y && x == CDiv(x, y) * y + x % y && InRange(ty, x % y)
  {
    hide Pow2;
    if x >= 0 && y > 0 {
      Remainder(x, y);
    }
  }

  lemma Remainder(x: nat, y: nat)
    requires y > 0
    ensures 0 <= x % y < y && x == (x / y) * y + x % y
  {
  }

  // ---------- checked integers ----------

  /** CheckedInt<T>, for a T given where it is used. */
  datatype Checked = Checked(mValue: int, mIsValid: bool)

  datatype Op = Add | Sub | Mul | Div | Mod

  predicate IsValid(ty: IntType, op: Op, x: int, y: int)
    requires ty.Supported()
  {
    match op
    case Add => IsAddValid(ty, x, y)
    case Sub => IsSubValid(ty, x, y)
    case Mul => IsMulValid(ty, x, y)
    case Div => IsDivValid(ty, x, y)
    case Mod => IsModValid(ty, x, y)
  }

  /** The exact result, where there is one. */
  function Exactly(op: Op, x: int, y: int): Option<int> {
    match op
    case Add => Some(x + y)
    case Sub => Some(x - y)
    case Mul => Some(x * y)
    case Div => if y == 0 then None else Some(CDiv(x, y))
    case Mod => if x < 0 || y <= 0 then None else Some(x % y)
  }

  /** An operation is valid exactly when it has an exact result in range. */
  lemma IsValidIsExact(ty: IntType, op: Op, x: int, y: int)
    requires ty.Supported() && InRange(ty, x) && InRange(ty, y)
    ensures IsValid(ty, op, x, y) <==> Exactly(op, x, y).Some? && InRange(ty, Exactly(op, x, y).value)
  {
    hide InRange, IsAddValid, IsSubValid, IsMulValid, IsDivValid, IsModValid, CDiv;
    match op
    case Add => IsAddValidIsExact(ty, x, y);
    case Sub => IsSubValidIsExact(ty, x, y);
    case Mul => IsMulValidIsExact(ty, x, y);
    case Div => IsDivValidIsExact(ty, x, y);
    case Mod => IsModValidIsExact(ty, x, y);
  }

  /** The constructor from a plain integer of type u. */
  function FromInt(ty: IntType, u: IntType, value: int): Checked
    requires ty.Supported() && u.Supported()
  {
    Checked(Convert(ty, value), IsInRange(ty, u, value))
  }

  /** toChecked<T> of a CheckedInt<U> */
  function ToChecked(ty: IntType, u: IntType, c: Checked): Checked
    requires ty.Supported() && u.Supported()
  {
    var ret := FromInt(ty, u, c.mValue);
    Checked(ret.mValue, ret.mIsValid && c.mIsValid)
  }

  function Negate(ty: IntType, c: Checked): Checked
    requires ty.Supported()
  {
    if !ty.signed then Checked(0, c.mIsValid && c.mValue == 0)
    else if !c.mIsValid || c.mValue == MinValue(ty) then Checked(c.mValue, false)
    else Checked(-c.mValue, true)
  }

  /** lhs.mValue OP rhs.mValue converted to the type, which keeps only the low n bits. */
  function Compute(ty: IntType, op: Op, x: int, y: int): (r: int)
    requires ty.Supported() && (op.Div? || op.Mod? ==> y != 0)
    ensures InRange(ty, r)
  {
    match op
    case Add => Convert(ty, x + y)
    case Sub => Convert(ty, x - y)
    case Mul => Convert(ty, x * y)
    case Div => Convert(ty, CDiv(x, y))
    case Mod => Convert(ty, x - CDiv(x, y) * y)
  }

  /** The binary operators. An invalid division is never carried out. */
  function Operate(ty: IntType, op: Op, l: Checked, r: Checked): (c: Checked)
    requires ty.Supported()
    ensures InRange(ty, c.mValue)
  {
    if !IsValid(ty, op, l.mValue, r.mValue) then Checked(0, false)
    else Checked(Compute(ty, op, l.mValue, r.mValue), l.mIsValid && r.mIsValid)
  }

  /** A valid operation loses no bits. */
  lemma ComputeIsExact(ty: IntType, op: Op, x: int, y: int)
    requires ty.Supported() && InRange(ty, x) && InRange(ty, y) && IsValid(ty, op, x, y)
    ensures (op.Div? || op.Mod? ==> y != 0) && Exactly(op, x, y) == Some(Compute(ty, op, x, y))
  {
    hide InRange, IsAddValid, IsSubValid, IsMulValid, CDiv, Convert;
    IsValidIsExact(ty, op, x, y);
    PatternOf(ty, Exactly(op, x, y).value);
    if op.Mod? {
      IsModValidIsExact(ty, x, y);
    }
  }

  predicate Equal(l: Checked, r: Checked) {
    l.mIsValid && r.mIsValid && l.mValue == r.mValue
  }

  lemma OperateIsExact(ty: IntType, op: Op, l: Checked, r: Checked)
    requires ty.Supported() && InRange(ty, l.mValue) && InRange(ty, r.mValue)
    ensures var c, x := Operate(ty, op, l, r), Exactly(op, l.mValue, r.mValue);
            (c.mIsValid <==> l.mIsValid && r.mIsValid && x.Some? && InRange(ty, x.value))
              && (c.mIsValid ==> x == Some(c.mValue))
  {
    hide InRange, IsValid, Exactly, Compute;
    IsValidIsExact(ty, op, l.mValue, r.mValue);
    if IsValid(ty, op, l.mValue, r.mValue) {
      ComputeIsExact(ty, op, l.mValue, r.mValue);
    }
  }

  // ---------- expressions ----------

  /** Plain integers of any supported type, the operators, and conversions between
      checked integers of different types. */
  datatype Expr = Lit(u: IntType, value: int) | Neg(e: Expr) | Bin(op: Op, l: Expr, r: Expr) | Cast(u: IntType, e: Expr)

  predicate WellTyped(e: Expr) {
    match e
    case Lit(u, value) => u.Supported() && InRange(u, value)
    case Neg(a) => WellTyped(a)
    case Bin(_, l, r) => WellTyped(l) && WellTyped(r)
    case Cast(u, a) => u.Supported() && WellTyped(a)
  }

  function Eval(ty: IntType, e: Expr): (c: Checked)
    requires ty.Supported() && WellTyped(e)
    ensures InRange(ty, c.mValue)
    decreases e
  {
    match e
    case Lit(u, value) => FromInt(ty, u, value)
    case Neg(a) => Negate(ty, Eval(ty, a))
    case Bin(op, l, r) =>
      Operate(ty, op, Eval(ty, l), Eval(ty, r))
    case Cast(u, a) => ToChecked(ty, u, Eval(u, a))
  }

  function Fit(ty: IntType, x: Option<int>): Option<int>
    requires ty.Supported()
  {
    if x.Some? && InRange(ty, x.value) then x else None
  }

  /** The value of an expression over the integers, if every intermediate result is in
      the range of its type. */
  function Exact(ty: IntType, e: Expr): Option<int>
    requires ty.Supported() && WellTyped(e)
    decreases e
  {
    match e
    case Lit(_, value) => Fit(ty, Some(value))
    case Neg(a) => var x := Exact(ty, a); if x == None then None else Fit(ty, Some(-x.value))
    case Bin(op, l, r) =>
      var x, y := Exact(ty, l), Exact(ty, r);
      if x == None || y == None then None else Fit(ty, Exactly(op, x.value, y.value))
    case Cast(u, a) => Fit(ty, Exact(u, a))
  }

  lemma NegateIsExact(ty: IntType, c: Checked)
    requires ty.Supported() && InRange(ty, c.mValue)
    ensures InRange(ty, Negate(ty, c).mValue)
    ensures Negate(ty, c).mIsValid <==> c.mIsValid && InRange(ty, -c.mValue)
    ensures Negate(ty, c).mIsValid ==> Negate(ty, c).mValue == -c.mValue
  {
  }

  lemma FromIntIsExact(ty: IntType, u: IntType, value: int)
    requires ty.Supported() && u.Supported() && InRange(u, value)
    ensures FromInt(ty, u, value).mIsValid <==> InRange(ty, value)
    ensures FromInt(ty, u, value).mIsValid ==> FromInt(ty, u, value).mValue == value
  {
    IsInRangeIsExact(ty, u, value);
    if InRange(ty, value) {
      PatternOf(ty, value);
    }
  }

  /** A checked computation is valid exactly when no intermediate result went out of
      range, and then its value is the exact one. */
  lemma {:induction false} EvalIsExact(ty: IntType, e: Expr)
    requires ty.Supported() && WellTyped(e)
    ensures Eval(ty, e).mIsValid <==> Exact(ty, e).Some?
    ensures Eval(ty, e).mIsValid ==> Exact(ty, e) == Some(Eval(ty, e).mValue)
    decreases e
  {
    hide InRange, IsValid, Exactly, Convert, IsInRange, Operate;
    match e
    case Lit(u, value) => FromIntIsExact(ty, u, value);
    case Neg(a) =>
      EvalIsExact(ty, a);
      NegateIsExact(ty, Eval(ty, a));
    case Bin(op, l, r) =>
      EvalIsExact(ty, l);
      EvalIsExact(ty, r);
      OperateIsExact(ty, op, Eval(ty, l), Eval(ty, r));
    case Cast(u, a) =>
      EvalIsExact(u, a);
      FromIntIsExact(ty, u, Eval(u, a).mValue);
  }

  /** Comparing with a plain integer compares the integers, whatever their types. */
  lemma EqualIsExact(ty: IntType, c: Checked, u: IntType, value: int)
    requires ty.Supported() && InRange(ty, c.mValue) && u.Supported() && InRange(u, value)
    ensures Equal(c, FromInt(ty, u, value)) <==> c.mIsValid && c.mValue == value
  {
    FromIntIsExact(ty, u, value);
  }

  /** A variable of type CheckedInt<T>, changed by compound assignment. */
  class CheckedVariable {
    const ty: IntType
    var mValue: int
    var mIsValid: bool

    predicate Ready()
      reads this
    {
      ty.Supported() && InRange(ty, mValue)
    }

    constructor (ty: IntType)
      requires ty.Supported()
      ensures Ready() && this.ty == ty && Get() == Checked(0, true)
    {
      this.ty, mValue, mIsValid := ty, 0, true;
    }

    function Get(): Checked
      reads this
    {
      Checked(mValue, mIsValid)
    }

    /** += and its like: *this = *this op rhs */
    method Assign(op: Op, rhs: Checked)
      requires Ready() && InRange(ty, rhs.mValue)
      modifies this
      ensures Ready() && Get() == Operate(ty, op, old(Get()), rhs)
      ensures var x := Exactly(op, old(mValue), rhs.mValue);
              mIsValid <==> old(mIsValid) && rhs.mIsValid && x.Some? && InRange(ty, x.value)
      ensures mIsValid ==> Exactly(op, old(mValue), rhs.mValue) == Some(mValue)
    {
      OperateIsExact(ty, op, Get(), rhs);
      var r := Operate(ty, op, Get(), rhs);
      mValue, mIsValid := r.mValue, r.mIsValid;
    }

    /** ++ (by 1) and -- (by -1), prefix or, from the old value returned, postfix. The
        literal is an int. */
    method Step(op: Op) returns (before: Checked)
      requires Ready() && (op.Add? || op.Sub?)
      modifies this
      ensures Ready() && before == old(Get())
      ensures var x := old(mValue) + if op.Add? then 1 else -1;
              (mIsValid <==> old(mIsValid) && InRange(ty, x)) && (mIsValid ==> mValue == x)
    {
      before := Get();
      One(ty);
      Assign(op, FromInt(ty, IntType(4, true), 1));
    }
  }

  lemma One(ty: IntType)
    requires ty.Supported()
    ensures FromInt(ty, IntType(4, true), 1) == Checked(1, true)
  {
    var n := ty.Bits();
    assert Pow2(1) == 2;
    Pow2Monotone(1, n - 1);
    Pow2Monotone(1, 31);
    FromIntIsExact(ty, IntType(4, true), 1);
  }
}
