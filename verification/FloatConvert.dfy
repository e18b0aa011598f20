/** 128-bit integers to double, rounding half to even, and double to 128-bit integers. */
module FloatConvert {
  import opened PowersOfTwo
  import opened FloatFormat
  import opened FloatRounding

  const U128: nat := 0x1_0000_0000_0000_0000_0000_0000_0000_0000
  const U64: nat := 0x1_0000_0000_0000_0000
  const U63: nat := 0x8000_0000_0000_0000
  const I127: int := 0x8000_0000_0000_0000_0000_0000_0000_0000
  const P52: nat := 0x10_0000_0000_0000
  const P53: nat := 0x20_0000_0000_0000

  // ----- significant digits -----

  function Digits(a: nat): nat { if a == 0 then 0 else 1 + Digits(a / 2) }

  lemma {:induction false} DigitsBounds(a: nat)
    requires a > 0
    ensures Digits(a) > 0 && Pow2(Digits(a) - 1) <= a < Pow2(Digits(a))
  {
    if a > 1 { DigitsBounds(a / 2); }
  }

  /** Only one number of digits fits. */
  lemma DigitsAre(a: nat, n: nat)
    requires n > 0 && Pow2(n - 1) <= a < Pow2(n)
    ensures Digits(a) == n
  {
    DigitsBounds(a);
    if Digits(a) < n {
      Pow2Le(Digits(a), n - 1);
    } else if Digits(a) > n {
      Pow2Le(n, Digits(a) - 1);
    }
  }

  /** __builtin_clzll, which is defined for nonzero words. */
  function Clz64(x: nat): int
    requires 0 < x < U64
  {
    64 - Digits(x)
  }

  function ClzTi(a: nat): (zeros: int)
    requires 0 < a < U128
    ensures zeros == 128 - Digits(a)
  {
    var high, low := a / U64, a % U64;
    SplitDigits(high, low);
    var f := if high == 0 then -1 else 0;
    Clz64(if f == -1 then low else high) + if f == -1 then 64 else 0
  }

  lemma SplitDigits(high: nat, low: nat)
    requires low < U64
    ensures high == 0 ==> Digits(high * U64 + low) == Digits(low)
    ensures high > 0 ==> Digits(high * U64 + low) == 64 + Digits(high)
  {
    hide Pow2, Digits;
    if high > 0 {
      DigitsBounds(high);
      var d := Digits(high);
      Powers();
      Pow2Add(d - 1, 64);
      Pow2Add(d, 64);
      MulLe(Pow2(d - 1), high, U64);
      MulLe(high + 1, Pow2(d), U64);
      DigitsAre(high * U64 + low, d + 64);
    }
  }

  lemma Powers()
    ensures Pow2(52) == P52 && Pow2(53) == P53 && Pow2(63) == U63 && Pow2(64) == U64 && Pow2(128) == U128
    ensures Pow2(20) == 0x10_0000 && Pow2(32) == 0x1_0000_0000 && Pow2(11) == 0x800
    ensures Pow2(127) == I127
  {
    hide Pow2;
    SmallPowers();
    Pow2Add(1, 10);
    Pow2Add(10, 10);
    Pow2Add(20, 10);
    Pow2Add(30, 2);
    Pow2Add(32, 20);
    Pow2Add(1, 52);
    Pow2Add(53, 10);
    Pow2Add(1, 63);
    Pow2Add(64, 64);
    Pow2Add(64, 63);
  }

  // ----- integer to double -----

  /** a / 2^k to the nearest integer, to the even one of two. */
  function RoundHalfEven(a: nat, k: nat): nat
    requires k > 0
  {
    DivNonneg(a, Pow2(k));
    var q, r, half := a / Pow2(k), a % Pow2(k), Pow2(k - 1);
    if r > half || (r == half && q % 2 == 1) then q + 1 else q
  }

  /** The pattern of m * 2^(e - 52), for a significand m of 53 bits. */
  function Pack(e: int, m: nat): nat
    requires 0 <= e && P52 <= m < P53
  {
    (e + 1023) * P52 + (m - P52)
  }

  /** The significand and the exponent of the rounded number. */
  function Rounding(a: nat): (p: (nat, int))
    requires a > 0
    ensures P52 <= p.0 < P53 && p.1 >= 0
  {
    SignificandRange(a);
    var sd := Digits(a);
    if sd <= 53 then (a * Pow2(53 - sd), sd - 1)
    else
      var m := RoundHalfEven(a, sd - 53);
      if m == P53 then (P52, sd) else (m, sd - 1)
  }

  function FloatOf(a: nat): nat { if a == 0 then 0 else Pack(Rounding(a).1, Rounding(a).0) }

  function FloatOfSigned(a: int): nat { if a < 0 then U63 + FloatOf(-a) else FloatOf(a) }

  lemma SignificandRange(a: nat)
    requires a > 0
    ensures Digits(a) > 0
    ensures Digits(a) <= 53 ==> P52 <= a * Pow2(53 - Digits(a)) < P53
    ensures Digits(a) > 53 ==> P52 <= RoundHalfEven(a, Digits(a) - 53) <= P53
  {
    hide Pow2, Digits;
    DigitsBounds(a);
    Powers();
    var sd := Digits(a);
    if sd <= 53 {
      Pow2Add(sd, 53 - sd);
      Pow2Add(sd - 1, 53 - sd);
      MulLt(a, Pow2(sd), Pow2(53 - sd));
      MulLe(Pow2(sd - 1), a, Pow2(53 - sd));
    } else {
      Pow2Add(53, sd - 53);
      Pow2Add(52, sd - 53);
      QuotientRange(a, Pow2(sd - 53), P52, P53);
    }
  }

  lemma QuotientRange(a: nat, d: nat, lo: int, hi: int)
    requires d > 0 && lo * d <= a < hi * d
    ensures lo <= a / d < hi
  {
    MultipleBig(lo - a / d, d);
    MultipleBig(a / d - hi + 1, d);
    assert (lo - a / d) * d == lo * d - (a / d) * d;
    assert (a / d - hi + 1) * d == (a / d) * d - hi * d + d;
  }

  // ----- the bits of the algorithm -----

  /** v | 1 when `bit` is set. */
  function OrBit(v: nat, bit: bool): nat { if bit && v % 2 == 0 then v + 1 else v }

  /** The quotient, the half bit Q and the sticky bit R, as the shifted word holds them. */
  function Shifted(a: nat, k: nat): nat
    requires k > 0
  {
    DivNonneg(a, Pow2(k));
    var q, r, half := a / Pow2(k), a % Pow2(k), Pow2(k - 1);
    4 * q + (if r >= half then 2 else 0) + (if r != 0 && r != half then 1 else 0)
  }

  /** The word before rounding: shifted left by one, as it is, or right with the lost bits kept in one. */
  lemma ShiftedIs(a: nat, k: nat)
    requires k > 0
    ensures k == 1 ==> Shifted(a, k) == 2 * a
    ensures k == 2 ==> Shifted(a, k) == a
    ensures k > 2 ==> Shifted(a, k) == OrBit(Shr(a, k - 2), a % Pow2(k - 2) != 0)
  {
    hide Shifted, Shr, OrBit, Pow2;
    ShiftedSmall(a);
    if k > 2 { ShiftedLarge(a, k); }
  }

  lemma ShiftedSmall(a: nat)
    ensures Shifted(a, 1) == 2 * a && Shifted(a, 2) == a
  {
    SmallPowers();
  }

  lemma ShiftedLarge(a: nat, k: nat)
    requires k > 2
    ensures Shifted(a, k) == OrBit(Shr(a, k - 2), a % Pow2(k - 2) != 0)
  {
    hide Pow2;
    var d := Pow2(k - 2);
    Pow2Positive(k);
    Pow2Positive(k - 1);
    DivNonneg(a, d);
    FourParts(a, d);
  }

  lemma FourParts(a: nat, d: nat)
    requires d > 0
    ensures var y, z, q, r := a / d, a % d, a / (4 * d), a % (4 * d);
            && y == 4 * q + y % 4 && r == (y % 4) * d + z && y >= 0
            && (r >= 2 * d <==> y % 4 >= 2)
            && (r == 0 <==> y % 4 == 0 && z == 0) && (r == 2 * d <==> y % 4 == 2 && z == 0)
  {
    DivNonneg(a, d);
    var y, z := a / d, a % d;
    var q, p := y / 4, y % 4;
    assert a == q * (4 * d) + (p * d + z) by { assert (4 * q + p) * d == q * (4 * d) + p * d; }
    MulLe(p, 3, d);
    MulLe(0, p, d);
    DivUnique(a, 4 * d, q, p * d + z);
    if p >= 2 { MulLe(2, p, d); } else { MulLe(p, 1, d); }
  }

  /** Or P into R, add one, drop Q and R: round half to even. */
  lemma FinishRounds(a: nat, k: nat)
    requires k > 0
    ensures var v := Shifted(a, k); (OrBit(v, (v / 4) % 2 == 1) + 1) / 4 == RoundHalfEven(a, k)
  {
    hide Pow2;
    DivNonneg(a, Pow2(k));
    Pow2Positive(k);
    Finish(a / Pow2(k), a % Pow2(k) > Pow2(k - 1), a % Pow2(k) == Pow2(k - 1), a % Pow2(k) == 0);
  }

  lemma Pow2Positive(k: nat)
    requires k > 0
    ensures Pow2(k) == 2 * Pow2(k - 1) && Pow2(k - 1) > 0
  {
  }

  lemma Finish(q: nat, above: bool, tie: bool, zero: bool)
    requires !(above && tie) && !(zero && tie) && !(zero && above)
    ensures var v := 4 * q + (if above || tie then 2 else 0) + (if !zero && !tie then 1 else 0);
            (OrBit(v, (v / 4) % 2 == 1) + 1) / 4 == if above || (tie && q % 2 == 1) then q + 1 else q
  {
    var low := (if above || tie then 2 else 0) + (if !zero && !tie then 1 else 0);
    DivUnique(4 * q + low, 4, q, low);
    var bit := if low % 2 == 0 && q % 2 == 1 then low + 2 else low + 1;
    if bit < 4 { DivUnique(4 * q + bit, 4, q, bit); } else { DivUnique(4 * q + 4, 4, q + 1, 0); }
  }

  /** The significand of a, rounded to 53 bits, and its exponent. */
  method RoundTo53(a0: nat) returns (a: nat, e: int)
    requires 0 < a0 < U128
    ensures (a, e) == Rounding(a0)
  {
    hide Pow2, Digits, Shifted, RoundHalfEven, Shr, OrBit;
    DigitsBounds(a0);
    SignificandRange(a0);
    a := a0;
    var sd := 128 - ClzTi(a);
    e := sd - 1;
    if sd > 53 {
      ghost var k: nat := sd - 53;
      ShiftedIs(a0, k);
      FinishRounds(a0, k);
      if sd == 54 {
        ShlOne(a0);
        a := (a * 2) % U128;
      } else if sd == 55 {
      } else {
        a := OrBit(Shr(a, sd - 55), a % Pow2(sd - 55) != 0);
      }
      a := OrBit(a, (a / 4) % 2 == 1);
      a := a + 1;
      a := a / 4;
      if (a / P53) % 2 == 1 {
        a := a / 2;
        e := e + 1;
      }
    } else {
      a := a * Pow2(53 - sd);
    }
  }

  /** Shifting a number of 54 bits left loses nothing. */
  lemma ShlOne(a: nat)
    requires a > 0 && Digits(a) == 54
    ensures (a * 2) % U128 == a * 2
  {
    hide Pow2, Digits;
    DigitsBounds(a);
    Powers();
    Pow2Add(1, 53);
    SmallPowers();
  }

  /** The two words of the result; the fields do not overlap. */
  function Fields(sign: bool, e: int, a: nat): nat
    requires 0 <= e
  {
    var high := (if sign then 0x8000_0000 else 0) + (e + 1023) * 0x10_0000 + (a / 0x1_0000_0000) % 0x10_0000;
    var low := a % 0x1_0000_0000;
    high * 0x1_0000_0000 + low
  }

  lemma FieldsPack(sign: bool, e: int, a: nat)
    requires 0 <= e && P52 <= a < P53
    ensures Fields(sign, e, a) == (if sign then U63 else 0) + Pack(e, a)
  {
    var f := a - P52;
    assert (a / 0x1_0000_0000) % 0x10_0000 == f / 0x1_0000_0000;
    assert a % 0x1_0000_0000 == f % 0x1_0000_0000;
  }

  method FloatUnTiDf(a: nat) returns (bits: nat)
    requires a < U128
    ensures bits == FloatOf(a)
  {
    hide Rounding, Fields, Pack;
    if a == 0 { return 0; }
    var m, e := RoundTo53(a);
    FieldsPack(false, e, m);
    bits := Fields(false, e, m);
  }

  method FloatTiDf(a: int) returns (bits: nat)
    requires -I127 <= a < I127
    ensures bits == FloatOfSigned(a)
  {
    hide Rounding, Fields, Pack;
    if a == 0 { return 0; }
    var s := if a < 0 then -1 else 0;
    // a ^ s is -1 - a for a negative a; the smallest a becomes the unsigned word 2^127
    var word := (if s == -1 then -1 - a else a) - s;
    var m, e := RoundTo53(word);
    FieldsPack(s == -1, e, m);
    bits := Fields(s == -1, e, m);
  }
}
