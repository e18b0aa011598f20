/** Double to 128-bit integers: truncation toward zero, and how it undoes the other direction. */
module FloatFix {
  import opened PowersOfTwo
  import opened FloatFormat
  import opened FloatRounding
  import opened FloatConvert
  import opened FloatNearest

  // ----- the functions -----

  function AbsRep(a: nat): nat { a % U63 }

  function ExponentOf(a: nat): int { AbsRep(a) / P52 - 1023 }

  /** The fraction with the implicit bit. */
  function Significand(a: nat): nat { AbsRep(a) % P52 + P52 }

  function FixUnsDfTi(a: nat): nat
    requires a < U64
  {
    var exponent := ExponentOf(a);
    if a >= U63 || exponent < 0 then 0
    else if exponent >= 128 then U128 - 1
    else if exponent < 52 then Shr(Significand(a), 52 - exponent)
    else (Significand(a) * Pow2(exponent - 52)) % U128
  }

  /** A 128-bit word read as a signed integer. */
  function Wrap(x: int): int {
    var w := x % U128;
    if w >= I127 then w - U128 else w
  }

  function FixDfTi(a: nat): int
    requires a < U64
  {
    var exponent := ExponentOf(a);
    var sign := if a >= U63 then -1 else 1;
    if exponent < 0 then 0
    else if exponent >= 128 then if sign == 1 then I127 - 1 else -I127
    else if exponent < 52 then Wrap(sign * Shr(Significand(a), 52 - exponent))
    else Wrap(sign * Wrap(Significand(a) * Pow2(exponent - 52)))
  }

  // ----- what they should return -----

  /** The integer part, toward zero. */
  function Truncated(a: nat): int { if Double(a) < 0 then -((-Double(a)) / Unit()) else Double(a) / Unit() }

  function Clamp(x: int, lo: int, hi: int): int { if x < lo then lo else if x > hi then hi else x }

  /** The integer part of the magnitude. */
  function Whole(a: nat): int { Mag(52, AbsRep(a)) / Unit() }

  /** The integer part of a magnitude, by the size of its exponent. */
  lemma IntegerPart(a: nat)
    requires a < U64
    ensures var e, s, v := ExponentOf(a), Significand(a), Whole(a);
            && P52 <= s < P53
            && (e < 0 ==> v == 0)
            && (0 <= e < 52 ==> v == Shr(s, 52 - e) && v < P53)
            && (52 <= e ==> v == s * Pow2(e - 52))
            && (52 <= e < 128 ==> v < U128) && (52 <= e < 127 ==> v < I127) && (e >= 127 ==> v >= I127)
            && (e >= 128 ==> v >= U128)
  {
    hide Pow2, Mag;
    Powers();
    var e, s, x := ExponentOf(a), Significand(a), AbsRep(a);
    if e < 0 {
      SmallIsFraction(52, 1023, x);
      DivUnique(Mag(52, x), Unit(), 0, Mag(52, x));
    } else {
      Parts(52, x);
      MagIn(52, e + 1023, s - P52);
      if e < 52 {
        PartBelow(e, s);
      } else {
        PartAbove(e, s);
      }
    }
  }

  lemma PartBelow(e: nat, s: nat)
    requires e < 52 && P52 <= s < P53
    ensures (s * Pow2(e + 1022)) / Unit() == Shr(s, 52 - e) < P53
  {
    hide Pow2;
    Pow2Add(e + 1022, 52 - e);
    assert e + 1022 + (52 - e) == 1074;
    ScaleDiv(Pow2(e + 1022), s, Pow2(52 - e));
    assert s * Pow2(e + 1022) == Pow2(e + 1022) * s;
    DivNonneg(s, Pow2(52 - e));
    MulLe(1, Pow2(52 - e), s / Pow2(52 - e));
  }

  lemma PartAbove(e: nat, s: nat)
    requires e >= 52 && P52 <= s < P53
    ensures (s * Pow2(e + 1022)) / Unit() == s * Pow2(e - 52)
    ensures e < 128 ==> s * Pow2(e - 52) < U128
    ensures e < 127 ==> s * Pow2(e - 52) < I127
    ensures e >= 127 ==> s * Pow2(e - 52) >= I127
    ensures e >= 128 ==> s * Pow2(e - 52) >= U128
  {
    hide Pow2;
    Powers();
    Pow2Add(e - 52, 1074);
    assert e - 52 + 1074 == e + 1022;
    var p := Pow2(e - 52);
    assert s * (p * Unit()) == (s * p) * Unit();
    DivUnique(s * (p * Unit()), Unit(), s * p, 0);
    MulLt(s, P53, p);
    MulLe(P52, s, p);
    Pow2Add(53, e - 52);
    Pow2Add(52, e - 52);
    if e < 127 { Pow2Le(e + 1, 127); }
    if e < 128 { Pow2Le(e + 1, 128); }
    if e >= 127 { Pow2Le(127, e); }
    if e >= 128 { Pow2Le(128, e); }
  }

  lemma SignedParts(a: nat)
    requires a < U64
    ensures Double(a) == (if a >= U63 then -Mag(52, AbsRep(a)) else Mag(52, AbsRep(a))) && Mag(52, AbsRep(a)) >= 0
    ensures Truncated(a) == if a >= U63 then -Whole(a) else Whole(a)
    ensures IsFinite(a) <==> ExponentOf(a) < 1024
  {
    hide Pow2, Mag;
    Powers();
    MagPositive(52, AbsRep(a));
    DivUnique(0, Unit(), 0, 0);
  }

  /** ___fixunsdfti truncates toward zero and saturates: for a finite double, at 0 and the largest word. */
  lemma UnsignedTruncates(a: nat)
    requires a < U64
    ensures IsFinite(a) ==> FixUnsDfTi(a) == Clamp(Truncated(a), 0, U128 - 1)
    ensures !IsFinite(a) ==> FixUnsDfTi(a) == if a >= U63 then 0 else U128 - 1
  {
    hide Pow2, Mag, Truncated, Finite, AbsRep, Significand, Value, Shr, One;
    IntegerPart(a);
    SignedParts(a);
    WholeNonneg(a);
    if 52 <= ExponentOf(a) < 128 {
      DivUnique(Significand(a) * Pow2(ExponentOf(a) - 52), U128, 0, Significand(a) * Pow2(ExponentOf(a) - 52));
    }
  }

  lemma WholeNonneg(a: nat)
    requires a < U64
    ensures Whole(a) >= 0
  {
    MagPositive(52, AbsRep(a));
    DivNonneg(Mag(52, AbsRep(a)), Unit());
  }

  // ----- signed -----

  lemma WrapSmall(x: int)
    ensures -I127 <= x < I127 ==> Wrap(x) == x
    ensures I127 <= x < U128 ==> Wrap(x) == x - U128
    ensures x == I127 ==> Wrap(x) == -I127
  {
    if 0 <= x < U128 {
      DivUnique(x, U128, 0, x);
    } else if -I127 <= x < 0 {
      DivUnique(x, U128, -1, x + U128);
    }
  }

  /** The pattern of -2^127. */
  const MINUS_2_127: nat := 0xC7E0_0000_0000_0000

  lemma SmallestIs(a: nat)
    requires a < U64 && ExponentOf(a) == 127 && a >= U63
    ensures a == MINUS_2_127 <==> Significand(a) == P52
  {
  }

  /** What ___fixdfti returns, by the size of the exponent. */
  lemma SignedResult(a: nat)
    requires a < U64
    ensures var e, v, r := ExponentOf(a), Whole(a), FixDfTi(a);
            && (e < 127 ==> r == if a >= U63 then -v else v)
            && (e == 127 ==>
                  I127 <= v < U128 && r == if a < U63 then v - U128 else if v == I127 then -I127 else U128 - v)
            && (e >= 128 ==> r == if a >= U63 then -I127 else I127 - 1)
  {
    hide Pow2, Mag, AbsRep, Significand, Shr, One, Wrap, Whole, ExponentOf;
    IntegerPart(a);
    var e, s, v := ExponentOf(a), Significand(a), Whole(a);
    WholeNonneg(a);
    WrapSmall(v);
    WrapSmall(-v);
    WrapSmall(v - U128);
    WrapSmall(U128 - v);
  }

  /** ___fixdfti truncates toward zero and saturates, except that a number of exponent 127 wraps
      around: there only -2^127 comes out right. */
  lemma SignedTruncates(a: nat)
    requires a < U64
    ensures IsFinite(a) ==>
              (FixDfTi(a) == Clamp(Truncated(a), -I127, I127 - 1) <==> ExponentOf(a) != 127 || a == MINUS_2_127)
    ensures !IsFinite(a) ==> FixDfTi(a) == if a >= U63 then -I127 else I127 - 1
  {
    hide Pow2, Mag, Truncated, Finite, IsFinite, AbsRep, Value, One, FixDfTi, Significand, Whole, ExponentOf;
    SignedResult(a);
    SignedParts(a);
    SizeOfPart(a);
    if ExponentOf(a) == 127 { TopValue(a); }
  }

  lemma SizeOfPart(a: nat)
    requires a < U64
    ensures var v := Whole(a);
            v >= 0 && (ExponentOf(a) < 127 ==> v < I127) && (ExponentOf(a) >= 128 ==> v >= U128)
  {
    hide Pow2, Mag, AbsRep, Significand, Shr, One, Whole, ExponentOf;
    IntegerPart(a);
    WholeNonneg(a);
  }

  /** At exponent 127 the integer part is at least 2^127, and equal to it in two patterns. */
  lemma TopValue(a: nat)
    requires a < U64 && ExponentOf(a) == 127
    ensures var v := Whole(a);
            && I127 <= v < U128
            && (a >= U63 ==> (v == I127 <==> a == MINUS_2_127))
            && (a < U63 ==> a != MINUS_2_127)
  {
    hide Pow2, Mag, AbsRep, Significand, Shr, One, Whole, ExponentOf;
    IntegerPart(a);
    TopExponent(a);
  }

  lemma TopExponent(a: nat)
    requires a < U64 && ExponentOf(a) == 127
    ensures Significand(a) * Pow2(75) == I127 <==> Significand(a) == P52
    ensures a >= U63 ==> (a == MINUS_2_127 <==> Significand(a) == P52)
    ensures a == MINUS_2_127 ==> a >= U63
  {
    hide Pow2;
    Powers();
    Pow2Add(52, 75);
    if a >= U63 { SmallestIs(a); }
    MultipleBig(Significand(a) - P52, Pow2(75));
    assert (Significand(a) - P52) * Pow2(75) == Significand(a) * Pow2(75) - P52 * Pow2(75);
  }

  // ----- there and back -----

  /** The integer that rounding a to a double stands for, and the unit it was rounded to. */
  function RoundedInteger(a: nat): (n: int)
    requires a > 0
    ensures n >= 0
  {
    FewUnits(a);
    if Digits(a) <= 53 then a else RoundHalfEven(a, Digits(a) - 53) * Pow2(Digits(a) - 53)
  }

  function Ulp(a: nat): nat { if Digits(a) <= 53 then 1 else Pow2(Digits(a) - 53) }

  lemma FewUnits(a: nat)
    ensures Digits(a) > 53 ==> RoundHalfEven(a, Digits(a) - 53) * Pow2(Digits(a) - 53) >= 0
  {
    if Digits(a) > 53 { MulLe(0, RoundHalfEven(a, Digits(a) - 53), Pow2(Digits(a) - 53)); }
  }

  lemma RoundedValue(a: nat)
    requires 0 < a < U128
    ensures Double(FloatOf(a)) == RoundedInteger(a) * Unit() && FloatOf(a) < U63 && IsFinite(FloatOf(a))
    ensures Truncated(FloatOf(a)) == RoundedInteger(a)
  {
    hide Pow2, Digits, RoundHalfEven, Value, Finite, FloatOf, One;
    FloatValue(a);
    if Digits(a) > 53 {
      var m, p := RoundHalfEven(a, Digits(a) - 53), Pow2(Digits(a) - 53);
      assert (m * p) * Unit() == m * (p * Unit());
    }
    MulLe(0, RoundedInteger(a), Unit());
    DivUnique(RoundedInteger(a) * Unit(), Unit(), RoundedInteger(a), 0);
  }

  /** The rounded integer is at most half a unit away, and never above the next power of two. */
  lemma HalfUlp(a: nat)
    requires 0 < a < U128
    ensures Digits(a) <= 53 ==> RoundedInteger(a) == a
    ensures Digits(a) > 53 ==> 2 * Abs(RoundedInteger(a) - a) <= Ulp(a)
    ensures RoundedInteger(a) <= Pow2(Digits(a))
  {
    hide Pow2, Digits, RoundHalfEven, Halfway;
    DigitsBounds(a);
    if Digits(a) > 53 {
      var k := Digits(a) - 53;
      WholeHalfway(a, k);
      MultipleFarther(a, Pow2(k), 1, a / Pow2(k), a % Pow2(k), Pow2(k - 1), RoundHalfEven(a, k), 0);
      SignificandRange(a);
      Powers();
      Pow2Add(53, k);
      MulLe(RoundHalfEven(a, k), P53, Pow2(k));
    }
  }

  lemma WholeHalfway(a: nat, k: nat)
    requires k > 0
    ensures Halfway(a, Pow2(k), 1, a / Pow2(k), a % Pow2(k), Pow2(k - 1), RoundHalfEven(a, k))
  {
    hide Pow2;
    Pow2Positive(k);
    DivNonneg(a, Pow2(k));
  }

  /** Integer to double and back moves an unsigned number by at most half an ulp, and numbers of
      53 digits not at all; only what rounds up to 2^128 saturates, which is still nearer. */
  lemma UnsignedRoundTrip(a: nat)
    requires a < U128
    ensures FloatOf(a) < U64
    ensures a == 0 ==> FixUnsDfTi(FloatOf(a)) == 0
    ensures a > 0 ==> FixUnsDfTi(FloatOf(a)) == if RoundedInteger(a) < U128 then RoundedInteger(a) else U128 - 1
    ensures 2 * Abs(FixUnsDfTi(FloatOf(a)) - a) <= Ulp(a)
    ensures a <= P53 ==> FixUnsDfTi(FloatOf(a)) == a
  {
    hide Pow2, Digits, Truncated, FixUnsDfTi, RoundedInteger, FloatOf, Finite;
    if a == 0 {
      ZeroFloat();
    } else {
      RoundedValue(a);
      HalfUlp(a);
      FewDigits(a);
      Powers();
      UnsignedTruncates(FloatOf(a));
      Pow2Le(Digits(a), 128);
      SmallExact(a);
    }
  }

  lemma ZeroFloat()
    ensures FloatOf(0) == 0 && FixUnsDfTi(0) == 0 && FixDfTi(0) == 0 && Ulp(0) == 1
  {
  }

  lemma SmallExact(a: nat)
    requires 0 < a < U128
    ensures a <= P53 ==> RoundedInteger(a) == a
  {
    hide Pow2, Digits;
    Powers();
    DigitsBounds(a);
    HalfUlp(a);
    if a < P53 && Digits(a) > 53 {
      Pow2Le(53, Digits(a) - 1);
    } else if a == P53 {
      Pow2Positive(54);
      DigitsAre(P53, 54);
      ExactP53();
    }
  }

  lemma ExactP53()
    requires Digits(P53) == 54
    ensures RoundedInteger(P53) == P53
  {
    SmallPowers();
  }

  lemma ExactMultiple(c: nat, k: nat)
    requires k > 0
    ensures RoundHalfEven(c * Pow2(k), k) == c
  {
    hide Pow2;
    Pow2Positive(k);
    MulLe(0, c, Pow2(k));
    DivUnique(c * Pow2(k), Pow2(k), c, 0);
  }

  lemma MagnitudeBound(m: nat)
    requires 0 < m <= I127
    ensures RoundedInteger(m) <= I127 && Ulp(m) < I127
  {
    hide Pow2, Digits, RoundHalfEven;
    Powers();
    DigitsBounds(m);
    HalfUlp(m);
    FewDigits(m);
    if m == I127 {
      Pow2Positive(128);
      DigitsAre(m, 128);
      Pow2Add(52, 75);
      ExactMultiple(P52, 75);
    } else {
      if Digits(m) > 127 { Pow2Le(127, Digits(m) - 1); }
      Pow2Le(Digits(m), 127);
    }
    if Digits(m) > 53 { Pow2Lt(Digits(m) - 53, 127); }
  }

  lemma PositivePattern(m: nat)
    requires 0 < m < U128
    ensures var b, n := FloatOf(m), RoundedInteger(m);
            && b < U63 && Whole(b) == n && Whole(b + U63) == n && ExponentOf(b + U63) == ExponentOf(b)
            && IsFinite(b) && IsFinite(b + U63)
            && Truncated(b) == n && Truncated(b + U63) == -n
  {
    hide Pow2, Digits, RoundedInteger, FloatOf, Mag, Finite, Value, One, AbsRep, Truncated, Whole, ExponentOf;
    RoundedValue(m);
    var b := FloatOf(m);
    SamePart(b);
    SignedParts(b);
    SignedParts(b + U63);
  }

  /** The pattern of a signed number, and when its exponent is 127. */
  lemma SignedPattern(a: int)
    requires -I127 <= a < I127 && a != 0
    ensures var b, n := FloatOfSigned(a), RoundedInteger(Abs(a));
            && b < U64 && IsFinite(b) && Truncated(b) == (if a < 0 then -n else n)
            && FixDfTi(b) == if a < 0 then -n else if n == I127 then -I127 else n
  {
    hide Pow2, Digits, RoundedInteger, FloatOf, Mag, Finite, IsFinite, Value, One, AbsRep, FixDfTi, Truncated, Whole,
         ExponentOf;
    var m: nat, b := Abs(a), FloatOfSigned(a);
    MagnitudeBound(m);
    PositivePattern(m);
    SignedResult(b);
    SizeOfPart(b);
  }

  lemma SamePart(b: nat)
    requires b < U63
    ensures Whole(b + U63) == Whole(b) && ExponentOf(b + U63) == ExponentOf(b)
  {
    hide Mag, One;
    assert AbsRep(b + U63) == AbsRep(b);
  }

  /** The same for signed numbers: right exactly when the rounded magnitude is not 2^127, or a is negative. */
  lemma SignedRoundTrip(a: int)
    requires -I127 <= a < I127 && a != 0
    ensures FloatOfSigned(a) < U64
    ensures var n := RoundedInteger(Abs(a));
            var r := FixDfTi(FloatOfSigned(a));
            && n <= I127
            && (a < 0 ==> r == -n)
            && (a > 0 ==> r == if n < I127 then n else -I127)
            && (2 * Abs(r - a) <= Ulp(Abs(a)) <==> a < 0 || n < I127)
            && (Abs(a) <= P53 ==> r == a)
  {
    hide FixDfTi, FloatOfSigned, RoundedInteger, Ulp, Truncated, IsFinite, Finite, Pow2, Digits;
    SignedPattern(a);
    RoundedNear(Abs(a));
  }

  lemma RoundedNear(m: nat)
    requires 0 < m <= I127
    ensures RoundedInteger(m) <= I127 && 2 * Abs(RoundedInteger(m) - m) <= Ulp(m) < I127
    ensures m <= P53 ==> RoundedInteger(m) == m
  {
    hide RoundedInteger, Pow2, Digits;
    HalfUlp(m);
    MagnitudeBound(m);
    UlpPositive(m);
    SmallExact(m);
  }

  lemma UlpPositive(m: nat)
    ensures Ulp(m) >= 1
  {
  }
}
