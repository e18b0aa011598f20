/** Rounding floating-point patterns to integers by clearing fraction bits. */
module FloatRounding {
  import opened PowersOfTwo
  import opened FloatFormat

  /** The scaled value of 1, for exponent bias b. */
  function One(t: nat, b: nat): (one: nat)
    requires b > 0
    ensures one > 0
  {
    Pow2(b - 1 + t)
  }

  /** With fraction bits t and bias b, exponent e and fraction f stand for (1 + f / 2^t) * 2^(e - b). */
  lemma NormalValue(t: nat, b: nat, e: nat, f: nat)
    requires b > 0 && e > 0 && f < Pow2(t)
    ensures var x := e * Pow2(t) + f;
            if e >= b then Pow2(t) * Mag(t, x) == (Pow2(t) + f) * Pow2(e - b) * One(t, b)
            else Pow2(t) * Mag(t, x) * Pow2(b - e) == (Pow2(t) + f) * One(t, b)
  {
    hide Pow2, Mag;
    MagIn(t, e, f);
    Pow2Add(b - 1, t);
    var p, m, u := Pow2(t), Pow2(t) + f, Pow2(b - 1);
    if e >= b {
      Pow2Add(e - b, b - 1);
      Scaled(p, m, Pow2(e - b), u);
    } else {
      Pow2Add(b - e, e - 1);
      Scaled(p, m, Pow2(b - e), Pow2(e - 1));
    }
  }

  lemma Scaled(p: int, m: int, a: int, u: int)
    ensures p * (m * (a * u)) == (m * a) * (u * p)
    ensures (p * (m * u)) * a == m * ((a * u) * p)
  {
    var q := a * u;
    assert (m * a) * (u * p) == m * (a * (u * p)) && a * (u * p) == q * p;
    assert p * (m * q) == m * (q * p);
    assert (p * (m * u)) * a == p * ((m * u) * a) && (m * u) * a == m * q;
  }

  lemma MagPositive(t: nat, x: nat)
    ensures Mag(t, x) >= 0 && (Mag(t, x) == 0 <==> x == 0)
  {
    var e, f := Exponent(t, x), Fraction(t, x);
    Parts(t, x);
    if e > 0 {
      MulLt(0, Pow2(t) + f, Pow2(e - 1));
      MulLe(1, e, Pow2(t));
    }
  }

  /** At exponents from b + t on every value is an integer. */
  lemma LargeIsIntegral(t: nat, b: nat, x: nat)
    requires b > 0 && Exponent(t, x) >= b + t
    ensures Mag(t, x) % One(t, b) == 0
  {
    hide Pow2, Exponent, Fraction;
    var e, f := Exponent(t, x), Fraction(t, x);
    Pow2Add(e - b - t, b - 1 + t);
    assert e - b - t + (b - 1 + t) == e - 1;
    MultipleOf(Pow2(t) + f, Pow2(e - b - t), One(t, b));
  }

  /** At exponents below b every value is below 1. */
  lemma SmallIsFraction(t: nat, b: nat, x: nat)
    requires b > 0 && Exponent(t, x) < b
    ensures 0 <= Mag(t, x) < One(t, b)
  {
    var e, f := Exponent(t, x), Fraction(t, x);
    MagPositive(t, x);
    Parts(t, x);
    if e == 0 {
      Pow2Le(t, b - 1 + t);
    } else {
      MulLt(Pow2(t) + f, 2 * Pow2(t), Pow2(e - 1));
      Pow2Add(t + 1, e - 1);
      Pow2Le(t + e, b - 1 + t);
      assert t + 1 + (e - 1) == t + e && Pow2(t + 1) == 2 * Pow2(t);
    }
  }

  lemma LowBits(e: nat, c: nat, q: nat, f: nat)
    requires q > 0
    ensures (e * (c * q) + f) % q == f % q
  {
    assert e * (c * q) == (e * c) * q;
    assert (e * c + f / q) * q == (e * c) * q + (f / q) * q;
    DivUnique(e * (c * q) + f, q, e * c + f / q, f % q);
  }

  lemma NextMultiple(f: nat, q: nat, c: nat)
    requires q > 0 && f < c * q
    ensures f - f % q + q <= c * q
  {
    MultipleBig(f / q - c, q);
    assert (f / q - c) * q == (f / q) * q - c * q;
    DivNonneg(f, q);
    MulLe(f / q + 1, c, q);
  }

  lemma OneSplit(t: nat, b: nat, e: nat)
    requires 0 < b <= e < b + t
    ensures One(t, b) == Pow2(e - 1) * Pow2(b + t - e) && Pow2(t) == Pow2(e - b) * Pow2(b + t - e)
  {
    Pow2Add(e - 1, b + t - e);
    Pow2Add(e - b, b + t - e);
    assert e - 1 + (b + t - e) == b - 1 + t && e - b + (b + t - e) == t;
  }

  /** The fractional part of a value between 1 and the last fraction bit. */
  lemma FractionalPart(t: nat, b: nat, e: nat, f: nat)
    requires 0 < b <= e < b + t && f < Pow2(t)
    ensures Mag(t, e * Pow2(t) + f) % One(t, b) == Pow2(e - 1) * (f % Pow2(b + t - e))
    ensures One(t, b) == Pow2(e - 1) * Pow2(b + t - e)
    ensures (e * Pow2(t) + f) % Pow2(b + t - e) == f % Pow2(b + t - e)
  {
    hide Mag, Pow2, One;
    var q, w, c := Pow2(b + t - e), Pow2(e - 1), Pow2(e - b);
    OneSplit(t, b, e);
    LowBits(e, c, q, f);
    LowBits(1, c, q, f);
    MagIn(t, e, f);
    ScaleDiv(w, Pow2(t) + f, q);
    assert (Pow2(t) + f) * w == w * (Pow2(t) + f);
  }

  lemma CutDown(t: nat, e: nat, f: nat, r: nat)
    requires e > 0 && r <= f < Pow2(t)
    ensures Mag(t, e * Pow2(t) + f - r) == Mag(t, e * Pow2(t) + f) - Pow2(e - 1) * r
  {
    hide Mag, Pow2;
    MagIn(t, e, f - r);
    MagIn(t, e, f);
    var p, w := Pow2(t), Pow2(e - 1);
    assert (p + f - r) * w == (p + f) * w - w * r;
  }

  lemma CutUp(t: nat, e: nat, f: nat, u: nat)
    requires e > 0 && f + u <= Pow2(t) && f < Pow2(t)
    ensures Mag(t, e * Pow2(t) + f + u) == Mag(t, e * Pow2(t) + f) + Pow2(e - 1) * u
  {
    hide Mag, Pow2;
    MagIn(t, e, f + u);
    MagIn(t, e, f);
    var p, w := Pow2(t), Pow2(e - 1);
    assert (p + f + u) * w == (p + f) * w + w * u;
  }

  lemma ScaledUp(w: nat, q: nat, r: nat)
    requires r <= q && w > 0
    ensures w * (q - r) == w * q - w * r && (w * r == 0 <==> r == 0)
  {
    if r > 0 { MulLt(0, r, w); }
  }

  /** Cutting a pattern down or up at the last bit above 1, by its parts. */
  lemma CutParts(t: nat, b: nat, e: nat, f: nat, r: nat, q: nat)
    requires 0 < b <= e < b + t && f < Pow2(t) && q == Pow2(b + t - e) && r == f % q
    ensures r <= f && r < q
    ensures Mag(t, e * Pow2(t) + f - r) == Mag(t, e * Pow2(t) + f) - Pow2(e - 1) * r
    ensures Mag(t, e * Pow2(t) + f - r + q) == Mag(t, e * Pow2(t) + f) - Pow2(e - 1) * r + Pow2(e - 1) * q
    ensures Pow2(e - 1) * r == 0 <==> r == 0
  {
    hide Mag, Pow2;
    Remainder(f, q);
    OneSplit(t, b, e);
    NextMultiple(f, q, Pow2(e - b));
    CutDown(t, e, f, r);
    CutUp(t, e, f, q - r);
    ScaledUp(Pow2(e - 1), q, r);
  }

  lemma Remainder(f: nat, q: nat)
    requires q > 0
    ensures 0 <= f % q < q && f % q <= f
  {
    DivNonneg(f, q);
    MulLe(0, f / q, q);
  }

  /** In between, the lowest b + t - e bits of the pattern are the fractional part. */
  lemma Between(t: nat, b: nat, x: nat)
    requires 0 < b <= Exponent(t, x) < b + t
    ensures var q := Pow2(b + t - Exponent(t, x));
            && x % q <= x
            && Mag(t, x - x % q) == Mag(t, x) - Mag(t, x) % One(t, b)
            && (x % q == 0 <==> Mag(t, x) % One(t, b) == 0)
            && (x % q != 0 ==> Mag(t, x - x % q + q) == Mag(t, x) - Mag(t, x) % One(t, b) + One(t, b))
  {
    hide *;
    var e, f := Exponent(t, x), Fraction(t, x);
    var q := Pow2(b + t - e);
    Parts(t, x);
    FractionalPart(t, b, e, f);
    CutParts(t, b, e, f, f % q, q);
  }

  // ----- rounding a magnitude -----

  /** The pattern of the neighbouring integer, toward zero or away from it. */
  function MagRound(t: nat, b: nat, x: nat, away: bool): int {
    var e := Exponent(t, x);
    if e >= b + t then x
    else if e < b then if away && x != 0 then b * Pow2(t) else 0
    else
      var q := Pow2(b + t - e);
      if x % q == 0 then x else x - x % q + if away then q else 0
  }

  lemma IntegralParts(v: int, one: int)
    requires one > 0 && v >= 0
    ensures (v - v % one) % one == 0 && (v - v % one + one) % one == 0 && 0 <= v % one < one
  {
    DivUnique(v - v % one, one, v / one, 0);
    assert (v / one + 1) * one == v - v % one + one;
    DivUnique(v - v % one + one, one, v / one + 1, 0);
  }

  /** The value moves to an integer less than 1 away, on the side asked for. */
  lemma MagRoundOk(t: nat, b: nat, x: nat, away: bool)
    requires b > 0
    ensures var y := MagRound(t, b, x, away);
            && y >= 0 && (Exponent(t, x) < b + t ==> y < (b + t + 1) * Pow2(t))
            && Mag(t, y) % One(t, b) == 0
            && (if away then Mag(t, x) <= Mag(t, y) < Mag(t, x) + One(t, b)
                else Mag(t, y) <= Mag(t, x) < Mag(t, y) + One(t, b))
  {
    hide Mag, Exponent, Fraction, Pow2, One;
    var e, p, one := Exponent(t, x), Pow2(t), One(t, b);
    MagPositive(t, x);
    IntegralParts(Mag(t, x), one);
    if e >= b + t {
      LargeIsIntegral(t, b, x);
    } else if e < b {
      SmallIsFraction(t, b, x);
      SmallResults(t, b);
    } else {
      Between(t, b, x);
      MiddleBound(t, b, x);
    }
  }

  lemma SmallResults(t: nat, b: nat)
    requires b > 0
    ensures Mag(t, 0) == 0 && Mag(t, b * Pow2(t)) == One(t, b) && 0 <= b * Pow2(t) < (b + t + 1) * Pow2(t)
    ensures 0 % One(t, b) == 0 && One(t, b) % One(t, b) == 0
  {
    hide Mag, Pow2;
    MagPositive(t, 0);
    MagIn(t, b, 0);
    Pow2Add(b - 1, t);
    assert b * Pow2(t) + 0 == b * Pow2(t);
    assert Pow2(t) * Pow2(b - 1) == Pow2(b - 1) * Pow2(t);
    MulLt(b, b + t + 1, Pow2(t));
    MulLe(0, b, Pow2(t));
    IntegralParts(0, One(t, b));
    DivUnique(One(t, b), One(t, b), 1, 0);
  }

  lemma MiddleBound(t: nat, b: nat, x: nat)
    requires 0 < b <= Exponent(t, x) < b + t
    ensures x + Pow2(b + t - Exponent(t, x)) < (b + t + 1) * Pow2(t)
  {
    hide Exponent, Fraction, Pow2;
    Parts(t, x);
    var e, p := Exponent(t, x), Pow2(t);
    Pow2Le(b + t - e, t);
    MulLe(e + 1, b + t, p);
    assert (e + 1) * p == e * p + p && (b + t + 1) * p == (b + t) * p + p;
  }

  // ----- rounding a number -----

  datatype Mode = Up | Down | TowardZero

  /** r is the integer that rounding a in this direction gives; other patterns stay as they are,
      and so does the sign, of zeros as well. */
  ghost predicate Rounded(t: nat, b: nat, w: nat, mode: Mode, a: nat, r: nat)
    requires b > 0
  {
    if !Finite(t, w, a) then r == a
    else
      && Finite(t, w, r) && Negative(w, r) == Negative(w, a)
      && Value(t, w, r) % One(t, b) == 0
      && if mode == Up || (mode == TowardZero && Negative(w, a))
         then Value(t, w, a) <= Value(t, w, r) < Value(t, w, a) + One(t, b)
         else Value(t, w, r) <= Value(t, w, a) < Value(t, w, r) + One(t, b)
  }

  function RoundPattern(t: nat, b: nat, w: nat, mode: Mode, a: nat): int {
    if Negative(w, a) then Pow2(w) + MagRound(t, b, Magnitude(w, a), mode == Down)
    else MagRound(t, b, a, mode == Up)
  }

  lemma FiniteBound(t: nat, w: nat, y: nat, k: nat)
    requires t <= w && y < k * Pow2(t) && k <= Pow2(w - t) - 1
    ensures y < Pow2(w) && Exponent(t, y) < Pow2(w - t) - 1
  {
    hide Pow2, Fraction;
    Pow2Add(t, w - t);
    MulLe(k, Pow2(w - t), Pow2(t));
    assert t + (w - t) == w && Pow2(t) * Pow2(w - t) == Pow2(w - t) * Pow2(t);
    MultipleBig(Exponent(t, y) - k, Pow2(t));
    assert (Exponent(t, y) - k) * Pow2(t) == Exponent(t, y) * Pow2(t) - k * Pow2(t);
    Parts(t, y);
  }

  lemma NegatedInteger(v: int, one: nat)
    requires one > 0 && v % one == 0
    ensures (-v) % one == 0
  {
    assert -v == (-(v / one)) * one;
    DivUnique(-v, one, -(v / one), 0);
  }

  lemma RoundPatternOk(t: nat, b: nat, w: nat, mode: Mode, a: nat)
    requires b > 0 && t <= w && a < 2 * Pow2(w) && b + t + 2 <= Pow2(w - t)
    ensures RoundPattern(t, b, w, mode, a) >= 0 && Rounded(t, b, w, mode, a, RoundPattern(t, b, w, mode, a))
  {
    hide Mag, Exponent, MagRound, Pow2, One;
    var x, away := Magnitude(w, a), if Negative(w, a) then mode == Down else mode == Up;
    var y := MagRound(t, b, x, away);
    MagRoundOk(t, b, x, away);
    MagRoundBound(t, b, w, x, away);
    NegatedInteger(Mag(t, y), One(t, b));
  }

  lemma MagRoundBound(t: nat, b: nat, w: nat, x: nat, away: bool)
    requires b > 0 && t <= w && b + t + 2 <= Pow2(w - t) && x < Pow2(w)
    ensures var y := MagRound(t, b, x, away);
            && y >= 0
            && if Exponent(t, x) < Pow2(w - t) - 1 then y < Pow2(w) && Exponent(t, y) < Pow2(w - t) - 1 else y == x
  {
    hide Pow2, Fraction, One;
    MagRoundOk(t, b, x, away);
    if Exponent(t, x) < b + t { FiniteBound(t, w, MagRound(t, b, x, away), b + t + 1); }
  }
}
