/** The conversions of integers to double are correctly rounded, monotone and within half an ulp. */
module FloatNearest {
  import opened PowersOfTwo
  import opened FloatFormat
  import opened FloatRounding
  import opened FloatConvert

  function Abs(x: int): nat { if x < 0 then -x else x }

  function Double(bits: nat): int { Value(52, 63, bits) }

  predicate IsFinite(bits: nat) { Finite(52, 63, bits) }

  /** The scaled value of 1. */
  function Unit(): nat { One(52, 1023) }

  /** No double is nearer to x; of two that are equally near, the result has the even pattern. */
  ghost predicate NearestEven(bits: nat, x: int) {
    && IsFinite(bits)
    && forall q: nat :: IsFinite(q) ==> Nearer(bits, q, x)
  }

  predicate Nearer(bits: nat, q: nat, x: int) {
    && Abs(Double(bits) - x) <= Abs(Double(q) - x)
    && (Abs(Double(bits) - x) == Abs(Double(q) - x) && Double(q) != Double(bits) ==> bits % 2 == 0)
  }

  // ----- the value of a packed pattern -----

  lemma PackValue(e: int, m: nat)
    requires 0 <= e < 1000 && P52 <= m < P53
    ensures var bits := Pack(e, m);
            && bits < U63 && IsFinite(bits) && !Negative(63, bits)
            && Double(bits) == m * Pow2(e + 1022) && (bits % 2 == 0 <==> m % 2 == 0)
  {
    hide Pow2, Exponent, Fraction;
    Powers();
    var bits := Pack(e, m);
    MagIn(52, e + 1023, m - P52);
    MulLe(e + 1023, 2022, P52);
    Parts(52, bits);
    FiniteBound(52, 63, bits, 2023);
  }

  /** Above 2^52 units of 2^j, every double is a multiple of 2^j. */
  lemma Spaced(x: nat, j: nat)
    requires Mag(52, x) >= P52 * Pow2(j)
    ensures Mag(52, x) % Pow2(j) == 0
  {
    hide Pow2, Exponent, Fraction;
    Powers();
    Parts(52, x);
    var e, f := Exponent(52, x), Fraction(52, x);
    if e > j {
      Pow2Add(e - 1 - j, j);
      MultipleOf(P52 + f, Pow2(e - 1 - j), Pow2(j));
    } else {
      TooSmall(e, f, j, x);
    }
  }

  lemma TooSmall(e: nat, f: nat, j: nat, x: nat)
    requires e <= j && f < P52 && Mag(52, x) == (if e == 0 then f else (P52 + f) * Pow2(e - 1))
    ensures Mag(52, x) < P52 * Pow2(j)
  {
    hide Pow2, Mag;
    if e == 0 {
      MulLe(1, Pow2(j), P52);
    } else {
      Pow2Lt(e - 1, j);
      MulLt(P52 + f, P53, Pow2(e - 1));
      MulLe(2 * Pow2(e - 1), Pow2(j), P52);
      assert P53 * Pow2(e - 1) == P52 * (2 * Pow2(e - 1));
    }
  }

  // ----- the rounded value -----

  /** The rounded integer is m units of 2^k. */
  lemma FloatValue(a: nat)
    requires 0 < a < U128
    ensures var sd := Digits(a);
            && IsFinite(FloatOf(a)) && FloatOf(a) < U63 && sd > 0
            && (sd <= 53 ==> Double(FloatOf(a)) == a * Unit())
            && (sd > 53 ==>
                  var m := RoundHalfEven(a, sd - 53);
                  && Double(FloatOf(a)) == m * (Pow2(sd - 53) * Unit())
                  && (FloatOf(a) % 2 == 0 <==> m % 2 == 0))
  {
    hide Pow2, Digits, RoundHalfEven, Pack, Value, Finite;
    SignificandRange(a);
    FewDigits(a);
    Powers();
    var sd, m, e := Digits(a), Rounding(a).0, Rounding(a).1;
    PackValue(e, m);
    if sd <= 53 {
      Pow2Add(53 - sd, sd + 1021);
      assert a * (Pow2(53 - sd) * Pow2(sd + 1021)) == (a * Pow2(53 - sd)) * Pow2(sd + 1021);
    } else {
      Pow2Add(sd - 53, 1074);
      Pow2Positive(sd + 1022);
    }
  }

  lemma FewDigits(a: nat)
    requires 0 < a < U128
    ensures 0 < Digits(a) <= 128
  {
    hide Pow2, Digits;
    DigitsBounds(a);
    Powers();
    if Digits(a) > 128 { Pow2Le(128, Digits(a) - 1); }
  }

  // ----- nearest among the multiples of a unit -----

  /** x is q units and r of 2h parts of one; m is the rounded number of units. */
  ghost predicate Halfway(x: int, u: int, s: int, q: int, r: int, h: int, m: int) {
    && s > 0 && h > 0 && 0 <= r < 2 * h && u == 2 * h * s && x == q * u + r * s
    && m == if r > h || (r == h && q % 2 == 1) then q + 1 else q
  }

  lemma ScaledParts(s: int, r: int, h: int)
    requires s > 0 && 0 <= r < 2 * h
    ensures 0 <= r * s < 2 * h * s
    ensures r < h ==> 2 * (r * s) < 2 * h * s
    ensures r == h ==> 2 * (r * s) == 2 * h * s
    ensures r > h ==> 2 * (r * s) > 2 * h * s
  {
    MulLe(0, r, s);
    MulLt(r, 2 * h, s);
    assert 2 * h * s == 2 * (h * s);
    if r < h { MulLt(r, h, s); } else if r > h { MulLt(h, r, s); }
  }

  /** Every multiple of the unit is at least as far from x as m units are; a tie means m is even. */
  lemma MultipleFarther(x: int, u: int, s: int, q: int, r: int, h: int, m: int, n: int)
    requires Halfway(x, u, s, q, r, h, m)
    ensures Abs(m * u - x) <= Abs(n * u - x)
    ensures Abs(m * u - x) == Abs(n * u - x) && n != m ==> m % 2 == 0
    ensures 2 * Abs(m * u - x) <= u
  {
    ScaledParts(s, r, h);
    var d := r * s;
    MultipleBig(n - q, u);
    MultipleBig(q + 1 - n, u);
    assert (n - q) * u == n * u - q * u;
    assert (q + 1 - n) * u == q * u + u - n * u;
    assert (q + 1) * u == q * u + u;
  }

  lemma IntegerParts(a: nat)
    requires 0 < a < U128 && Digits(a) > 53
    ensures var k := Digits(a) - 53;
            && Halfway(a * Unit(), Pow2(k) * Unit(), Unit(), a / Pow2(k), a % Pow2(k), Pow2(k - 1), RoundHalfEven(a, k))
            && P52 * (Pow2(k) * Unit()) <= a * Unit()
  {
    hide Digits, One, Pow2;
    var k, s := Digits(a) - 53, Unit();
    Pow2Positive(k);
    var q, p := a / Pow2(k), Pow2(k);
    assert a * s == q * (p * s) + (a % p) * s by { assert (q * p + a % p) * s == (q * p) * s + (a % p) * s; }
    DigitsBounds(a);
    Powers();
    Pow2Add(52, k);
    MulLe(P52 * p, a, s);
    assert (P52 * p) * s == P52 * (p * s);
  }

  /** A double in or above the binade of x is a whole number of units; one below it is farther away. */
  lemma DoubleFarther(bits: nat, x: int, u: int, s: int, q: int, r: int, h: int, m: int, j: nat)
    requires Halfway(x, u, s, q, r, h, m) && u == Pow2(j) && P52 * u <= x
    ensures Abs(m * u - x) <= Abs(Double(bits) - x)
    ensures Abs(m * u - x) == Abs(Double(bits) - x) && Double(bits) != m * u ==> m % 2 == 0
  {
    hide Pow2, Mag, Halfway;
    var v := Double(bits);
    MagPositive(52, Magnitude(63, bits));
    if v >= P52 * u {
      Spaced(Magnitude(63, bits), j);
      assert v == (v / u) * u;
      MultipleFarther(x, u, s, q, r, h, m, v / u);
    } else {
      MultipleFarther(x, u, s, q, r, h, m, P52);
    }
  }

  /** ___floatuntidf rounds every unsigned 128-bit integer to nearest, ties to even. */
  lemma UnsignedNearest(a: nat)
    requires a < U128
    ensures NearestEven(FloatOf(a), a * Unit())
  {
    hide Finite, Value, Pow2, Digits, RoundHalfEven, Rounding, Pack, One, Halfway;
    if a == 0 {
      ZeroIsZero();
    } else {
      FloatValue(a);
      if Digits(a) > 53 {
        var k := Digits(a) - 53;
        IntegerParts(a);
        UnitPower(k);
        forall q: nat | IsFinite(q) ensures Nearer(FloatOf(a), q, a * Unit()) {
          DoubleFarther(q, a * Unit(), Pow2(k) * Unit(), Unit(), a / Pow2(k), a % Pow2(k), Pow2(k - 1),
                        RoundHalfEven(a, k), k + 1074);
        }
      }
    }
  }

  lemma UnitPower(k: nat)
    ensures Pow2(k) * Unit() == Pow2(k + 1074) && Unit() == Pow2(1074)
  {
    hide Pow2;
    Pow2Add(k, 1074);
  }

  lemma ZeroIsZero()
    ensures IsFinite(0) && Double(0) == 0
  {
    hide Pow2, Exponent, Fraction;
    Powers();
    MagPositive(52, 0);
    Parts(52, 0);
    FiniteBound(52, 63, 0, 1);
  }

  // ----- signed integers -----

  function Opposite(bits: nat): nat { if bits < U63 then bits + U63 else bits - U63 }

  lemma OppositeValue(bits: nat)
    requires bits < U64
    ensures Double(Opposite(bits)) == -Double(bits) && (IsFinite(Opposite(bits)) <==> IsFinite(bits))
    ensures Opposite(Opposite(bits)) == bits
    ensures Opposite(bits) % 2 == bits % 2 && Opposite(bits) < U64
  {
    hide Pow2, Mag, Exponent;
    Powers();
  }

  lemma FiniteWord(bits: nat)
    requires IsFinite(bits)
    ensures bits < U64
  {
    hide Pow2, Exponent;
    Powers();
  }

  /** ___floattidf rounds every signed 128-bit integer to nearest, ties to even. */
  lemma SignedNearest(a: int)
    requires -I127 <= a < I127
    ensures NearestEven(FloatOfSigned(a), a * Unit())
  {
    hide Finite, Value, FloatOf, One;
    if a >= 0 {
      UnsignedNearest(a);
    } else {
      UnsignedNearest(-a);
      var b := FloatOf(-a);
      FiniteWord(b);
      FloatPositive(-a);
      OppositeValue(b);
      forall q: nat | IsFinite(q) ensures Nearer(FloatOfSigned(a), q, a * Unit()) {
        FiniteWord(q);
        OppositeValue(q);
        assert Nearer(b, Opposite(q), -a * Unit());
      }
    }
  }

  lemma FloatPositive(a: nat)
    requires a < U128
    ensures FloatOf(a) < U63
  {
    if a > 0 { FloatValue(a); }
  }

  // ----- order -----

  /** Rounding to nearest never reverses an order. */
  lemma NearestMonotone(p: nat, x: int, q: nat, y: int)
    requires NearestEven(p, x) && NearestEven(q, y) && x <= y
    requires x == y ==> p == q
    ensures Double(p) <= Double(q)
  {
    hide Value, Finite;
    assert Nearer(p, q, x) && Nearer(q, p, y);
  }

  lemma Monotone(a: int, b: int)
    requires -I127 <= a <= b < I127
    ensures Double(FloatOfSigned(a)) <= Double(FloatOfSigned(b))
  {
    hide FloatOfSigned, Value, NearestEven, One;
    SignedNearest(a);
    SignedNearest(b);
    if a < b {
      ScaleOrder(a, b, Unit());
      NearestMonotone(FloatOfSigned(a), a * Unit(), FloatOfSigned(b), b * Unit());
    }
  }

  lemma MonotoneUnsigned(a: nat, b: nat)
    requires a <= b < U128
    ensures Double(FloatOf(a)) <= Double(FloatOf(b))
  {
    hide FloatOf, Value, NearestEven, One;
    UnsignedNearest(a);
    UnsignedNearest(b);
    if a < b {
      ScaleOrder(a, b, Unit());
      NearestMonotone(FloatOf(a), a * Unit(), FloatOf(b), b * Unit());
    }
  }

  lemma ScaleOrder(a: int, b: int, s: int)
    requires a < b && s > 0
    ensures a * s < b * s
  {
    MultipleBig(b - a, s);
    assert (b - a) * s == b * s - a * s;
  }
}
