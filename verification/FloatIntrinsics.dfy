/** ceil, floor and trunc on the bits of a float, as the native intrinsics compute them. */
module FloatIntrinsics {
  import opened PowersOfTwo
  import opened FloatFormat
  import opened FloatRounding

  const U32: nat := 0x1_0000_0000

  /** v << 1 in 32 bits: the sign falls out. */
  function ShlOne(v: nat): nat { (v * 2) % U32 }

  lemma ShiftedOut(v: nat)
    requires v < U32
    ensures ShlOne(v) == 0 <==> v % 0x8000_0000 == 0
    ensures v % 0x8000_0000 == 0 ==> v == 0 || v == 0x8000_0000
  {
  }

  /** v & m, for a mask m of low ones. */
  function AndLow(v: nat, m: nat): (r: nat)
    ensures r == v % (m + 1) && r <= v
  {
    Remainder(v, m + 1);
    v % (m + 1)
  }

  /** The exponent field, with the sign masked away. */
  lemma ExponentField(t: nat, w: nat, v: nat)
    requires t <= w && v < 2 * Pow2(w)
    ensures Shr(v, t) % Pow2(w - t) == Exponent(t, Magnitude(w, v))
    ensures Shr(v, w) == if Negative(w, v) then 1 else 0
  {
    hide Pow2;
    var x := Magnitude(w, v);
    Pow2Add(w - t, t);
    assert w - t + t == w;
    TopPart(x, Pow2(t), Pow2(w - t));
    if Negative(w, v) {
      DivUnique(v, Pow2(w), 1, x);
    } else {
      DivUnique(v, Pow2(w), 0, v);
    }
  }

  /** A bit above the quotient is masked away. */
  lemma TopPart(x: nat, p: nat, q: nat)
    requires p > 0 && q > 0 && x < q * p
    ensures (x / p) % q == x / p && ((q * p + x) / p) % q == x / p
  {
    DivNonneg(x, p);
    var e: int, f: int := x / p, x % p;
    MultipleBig(e - q, p);
    assert (e - q) * p == e * p - q * p;
    DivUnique(e, q, 0, e);
    assert (q + e) * p == q * p + e * p;
    DivUnique(q * p + x, p, q + e, f);
    DivUnique(q + e, q, 1, e);
  }

  /** A run of t ones shifted right by e. */
  lemma ShiftedMask(t: nat, e: nat)
    requires e <= t
    ensures Shr(Pow2(t) - 1, e) == Pow2(t - e) - 1
  {
    hide Pow2;
    Pow2Add(t - e, e);
    assert t - e + e == t;
    assert (Pow2(t - e) - 1) * Pow2(e) == Pow2(t - e) * Pow2(e) - Pow2(e);
    DivUnique(Pow2(t) - 1, Pow2(e), Pow2(t - e) - 1, Pow2(e) - 1);
  }

  lemma LowBitsOfMagnitude(w: nat, k: nat, v: nat)
    requires k <= w
    ensures v % Pow2(k) == Magnitude(w, v) % Pow2(k) && v % Pow2(k) <= Magnitude(w, v)
  {
    hide Pow2;
    if Negative(w, v) {
      Pow2Add(w - k, k);
      assert w - k + k == w;
      LowBits(1, Pow2(w - k), Pow2(k), v - Pow2(w));
    }
    Remainder(Magnitude(w, v), Pow2(k));
  }

  /** Adding the mask and then clearing it rounds up. */
  lemma CarryUp(v: nat, q: nat)
    requires q > 0 && v % q != 0
    ensures v + (q - 1) - (v + (q - 1)) % q == v - v % q + q
  {
    assert (v / q + 1) * q == v - v % q + q;
    DivUnique(v + (q - 1), q, v / q + 1, v % q - 1);
  }

  lemma Constants32()
    ensures Pow2(23) == 0x80_0000 && Pow2(31) == 0x8000_0000 && Pow2(8) == 0x100
  {
    assert Pow2(8) == 0x100 && Pow2(15) == 0x8000;
    Pow2Add(8, 15);
    Pow2Add(8, 23);
  }

  lemma Fields32(a: nat)
    requires a < U32
    ensures Exponent(23, Magnitude(31, a)) == Shr(a, 23) % 0x100 && (a >= 0x8000_0000 <==> Negative(31, a))
    ensures a < 2 * Pow2(31)
    ensures Shr(a, 31) == (if Negative(31, a) then 1 else 0) && Magnitude(31, a) == a % 0x8000_0000
    ensures a % 0x8000_0000 < (Shr(a, 23) % 0x100 + 1) * 0x80_0000
  {
    hide Pow2, Exponent, Fraction;
    Constants32();
    Parts(23, Magnitude(31, a));
    ExponentField(23, 31, a);
  }

  lemma SignBit32(a: nat)
    requires a < U32
    ensures Shr(a, 31) == if a >= 0x8000_0000 then 1 else 0
  {
    Fields32(a);
  }

  /** The mask of the fraction bits below 1, and what adding and clearing it does. */
  lemma Mask32(a: nat, e: nat)
    requires a < U32 && e < 23
    ensures var m, q := Shr(0x7F_FFFF, e), Pow2(23 - e);
            && AndLow(a, m) == Magnitude(31, a) % q <= Magnitude(31, a)
            && q <= 0x80_0000
            && m <= 0x7F_FFFF
            && (AndLow(a, m) != 0 ==> a + m - AndLow(a + m, m) == a - AndLow(a, m) + q)
  {
    hide Pow2;
    Constants32();
    ShiftedMask(23, e);
    LowBitsOfMagnitude(31, 23 - e, a);
    Pow2Le(23 - e, 23);
    if a % Pow2(23 - e) != 0 { CarryUp(a, Pow2(23 - e)); }
  }

  lemma NoOverflow32(a: nat, m: nat)
    requires a < U32 && Shr(a, 23) % 0x100 < 150 && m <= 0x7F_FFFF
    ensures a + m < U32 && (a + m) % U32 == a + m
  {
    hide *;
    Fields32(a);
    SmallSum(a, m, Shr(a, 23) % 0x100);
  }

  lemma SmallSum(a: nat, m: nat, f: int)
    requires a < U32 && f < 150 && m <= 0x7F_FFFF && a % 0x8000_0000 < (f + 1) * 0x80_0000
    ensures a + m < U32 && (a + m) % U32 == a + m
  {
  }

  lemma MagRound32(a: nat, away: bool)
    requires a < U32
    ensures var e, x := Shr(a, 23) % 0x100 - 0x7F, Magnitude(31, a);
            MagRound(23, 127, x, away) ==
              if e >= 23 then x
              else if e < 0 then (if away && x != 0 then 0x3F80_0000 else 0)
              else var q := Pow2(23 - e); if x % q == 0 then x else x - x % q + if away then q else 0
  {
    hide Pow2, Exponent, Shr;
    Constants32();
    Fields32(a);
  }

  /** The rounded pattern, in the terms of the 32-bit functions. */
  lemma Steps32(a: nat, mode: Mode)
    requires a < U32
    ensures var e, r := Shr(a, 23) % 0x100 - 0x7F, RoundPattern(23, 127, 31, mode, a);
            var away := if a >= 0x8000_0000 then mode == Down else mode == Up;
            && (e >= 23 ==> r == a)
            && (0 <= e < 23 ==>
                  var m := Shr(0x7F_FFFF, e);
                  && a + m < U32 && (a + m) % U32 == a + m
                  && r == if AndLow(a, m) == 0 then a else if away then a + m - AndLow(a + m, m) else a - AndLow(a, m))
            && (e < 0 && a < 0x8000_0000 ==> r == if away && ShlOne(a) != 0 then 0x3F80_0000 else 0)
            && (e < 0 && a >= 0x8000_0000 ==> r == if away && ShlOne(a) != 0 then 0xBF80_0000 else 0x8000_0000)
            && (ShlOne(a) == 0 ==> a == 0 || a == 0x8000_0000)
  {
    hide Pow2, Exponent, Shr, AndLow, ShlOne, MagRound;
    Constants32();
    Fields32(a);
    ShiftedOut(a);
    var e := Shr(a, 23) % 0x100 - 0x7F;
    MagRound32(a, if a >= 0x8000_0000 then mode == Down else mode == Up);
    if 0 <= e < 23 {
      Mask32(a, e);
      NoOverflow32(a, Shr(0x7F_FFFF, e));
    }
  }

  lemma RoundPattern32(a: nat, mode: Mode)
    requires a < U32
    ensures RoundPattern(23, 127, 31, mode, a) >= 0 && Rounded(23, 127, 31, mode, a, RoundPattern(23, 127, 31, mode, a))
  {
    hide Rounded, RoundPattern, Pow2;
    Constants32();
    RoundPatternOk(23, 127, 31, mode, a);
  }

  method F32Ceil(af: nat) returns (r: nat)
    requires af < U32
    ensures Rounded(23, 127, 31, Up, af, r)
  {
    hide Rounded, Pow2, Shr, AndLow, ShlOne, RoundPattern;
    SignBit32(af);
    Steps32(af, Up);
    RoundPattern32(af, Up);
    var v := af;
    var e := Shr(v, 23) % 0x100 - 0x7F;
    if e >= 23 { return af; }
    if e >= 0 {
      var m := Shr(0x7F_FFFF, e);
      if AndLow(v, m) == 0 { return af; }
      if Shr(v, 31) == 0 { v := (v + m) % U32; }
      v := v - AndLow(v, m);
    } else {
      if Shr(v, 31) != 0 {
        v := 0x8000_0000;
      } else if ShlOne(v) != 0 {
        v := 0x3F80_0000;
      }
    }
    r := v;
  }

  method F32Floor(af: nat) returns (r: nat)
    requires af < U32
    ensures Rounded(23, 127, 31, Down, af, r)
  {
    hide Rounded, Pow2, Shr, AndLow, ShlOne, RoundPattern;
    SignBit32(af);
    Steps32(af, Down);
    RoundPattern32(af, Down);
    var v := af;
    var e := Shr(v, 23) % 0x100 - 0x7F;
    if e >= 23 { return af; }
    if e >= 0 {
      var m := Shr(0x7F_FFFF, e);
      if AndLow(v, m) == 0 { return af; }
      if Shr(v, 31) != 0 { v := (v + m) % U32; }
      v := v - AndLow(v, m);
    } else {
      if Shr(v, 31) == 0 {
        v := 0;
      } else if ShlOne(v) != 0 {
        v := 0xBF80_0000;
      }
    }
    r := v;
  }

  method F32Trunc(af: nat) returns (r: nat)
    requires af < U32
    ensures Rounded(23, 127, 31, TowardZero, af, r)
  {
    hide Rounded, Pow2, Shr, AndLow, ShlOne, RoundPattern;
    SignBit32(af);
    Steps32(af, TowardZero);
    RoundPattern32(af, TowardZero);
    var v := af;
    var e := Shr(v, 23) % 0x100 - 0x7F + 9;
    if e >= 23 + 9 { return af; }
    if e < 9 { e := 1; }
    var m := Shr(U32 - 1, e);
    TruncMask32(v, e);
    if AndLow(v, m) == 0 { return af; }
    v := v - AndLow(v, m);
    r := v;
  }

  /** The mask of trunc, cut from 32 ones, is the mask of the fraction bits below 1. */
  lemma TruncMask32(a: nat, e: int)
    requires 1 <= e < 32
    ensures e >= 9 ==> Shr(U32 - 1, e) == Shr(0x7F_FFFF, e - 9)
    ensures e == 1 ==> AndLow(a, Shr(U32 - 1, e)) == a % 0x8000_0000
  {
    hide Pow2;
    Constants32();
    Pow2Add(1, 31);
    SmallPowers();
    ShiftedMask(32, e);
    if e >= 9 { ShiftedMask(23, e - 9); }
  }

  // ----- double -----

  const U64: nat := 0x1_0000_0000_0000_0000

  lemma Constants64()
    ensures Pow2(52) == 0x10_0000_0000_0000 && Pow2(63) == 0x8000_0000_0000_0000 && Pow2(11) == 0x800 && Pow2(64) == U64
  {
    hide Pow2;
    Constants32();
    Pow2Add(31, 31);
    Pow2Add(1, 62);
    Pow2Add(1, 63);
    SmallPowers();
    Pow2Add(23, 23);
    SmallPowers();
    Pow2Add(46, 6);
  }

  lemma Fields64(a: nat)
    requires a < U64
    ensures Exponent(52, Magnitude(63, a)) == Shr(a, 52) % 0x800 && a < 2 * Pow2(63)
    ensures Magnitude(63, a) == a % 0x8000_0000_0000_0000 && (Negative(63, a) <==> a >= 0x8000_0000_0000_0000)
  {
    hide Pow2, Exponent;
    Constants64();
    ExponentField(52, 63, a);
  }

  /** What trunc clears: everything below the sign, or the fraction bits below 1. */
  lemma Mask64(a: nat, e: int)
    requires 1 <= e < 64
    ensures e >= 12 ==> AndLow(a, Shr(U64 - 1, e)) == Magnitude(63, a) % Pow2(64 - e) <= Magnitude(63, a)
    ensures e == 1 ==> AndLow(a, Shr(U64 - 1, e)) == a % 0x8000_0000_0000_0000
  {
    hide Pow2;
    Constants64();
    ShiftedMask(64, e);
    if e >= 12 { LowBitsOfMagnitude(63, 64 - e, a); }
  }

  lemma RoundPattern64(a: nat)
    requires a < U64
    ensures RoundPattern(52, 1023, 63, TowardZero, a) >= 0
    ensures Rounded(52, 1023, 63, TowardZero, a, RoundPattern(52, 1023, 63, TowardZero, a))
  {
    hide Rounded, RoundPattern, Pow2;
    Constants64();
    RoundPatternOk(52, 1023, 63, TowardZero, a);
  }

  lemma Steps64(a: nat)
    requires a < U64
    ensures var e, r := Shr(a, 52) % 0x800 - 0x3FF + 12, RoundPattern(52, 1023, 63, TowardZero, a);
            && (e >= 64 ==> r == a)
            && (e < 64 ==> r == a - AndLow(a, Shr(U64 - 1, if e < 12 then 1 else e)))
  {
    hide Pow2, Exponent, Shr, AndLow;
    Constants64();
    Fields64(a);
    var e := Shr(a, 52) % 0x800 - 0x3FF + 12;
    if e < 64 { Mask64(a, if e < 12 then 1 else e); }
  }

  method F64Trunc(af: nat) returns (r: nat)
    requires af < U64
    ensures Rounded(52, 1023, 63, TowardZero, af, r)
  {
    hide Rounded, Pow2, Shr, AndLow, RoundPattern;
    Steps64(af);
    RoundPattern64(af);
    var v := af;
    var e := Shr(v, 52) % 0x800 - 0x3FF + 12;
    if e >= 52 + 12 { return af; }
    if e < 12 { e := 1; }
    var m := Shr(U64 - 1, e);
    if AndLow(v, m) == 0 { return af; }
    v := v - AndLow(v, m);
    r := v;
  }
}
