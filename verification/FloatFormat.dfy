/** Binary floating-point patterns read as exact integers: a value is scaled so that the smallest
    positive number is 1. The two formats have t = 23 and t = 52 fraction bits. */
module FloatFormat {
  import opened PowersOfTwo

  // ----- patterns -----

  function Exponent(t: nat, x: nat): nat {
    DivNonneg(x, Pow2(t));
    x / Pow2(t)
  }

  function Fraction(t: nat, x: nat): nat { x % Pow2(t) }

  lemma Parts(t: nat, x: nat)
    ensures x == Exponent(t, x) * Pow2(t) + Fraction(t, x) && Fraction(t, x) < Pow2(t)
  {
  }

  /** The scaled value of the pattern x of exponent and fraction, without the sign. */
  function Mag(t: nat, x: nat): int {
    var e, f := Exponent(t, x), Fraction(t, x);
    if e == 0 then f else (Pow2(t) + f) * Pow2(e - 1)
  }

  /** Inside a binade, and up to the first pattern of the next one. */
  lemma MagIn(t: nat, e: nat, f: nat)
    requires e > 0 && f <= Pow2(t)
    ensures Mag(t, e * Pow2(t) + f) == (Pow2(t) + f) * Pow2(e - 1)
  {
    var p := Pow2(t);
    if f < p {
      DivUnique(e * p + f, p, e, f);
    } else {
      assert e * p + f == (e + 1) * p + 0;
      DivUnique(e * p + f, p, e + 1, 0);
      assert Pow2(e) == 2 * Pow2(e - 1);
      assert p * (2 * Pow2(e - 1)) == (p + p) * Pow2(e - 1);
    }
  }

  /** A pattern without its sign, which is bit w. */
  function Magnitude(w: nat, bits: nat): nat { if bits < Pow2(w) then bits else bits - Pow2(w) }

  function Negative(w: nat, bits: nat): bool { bits >= Pow2(w) }

  /** The scaled value of a pattern. */
  function Value(t: nat, w: nat, bits: nat): int {
    if Negative(w, bits) then -Mag(t, Magnitude(w, bits)) else Mag(t, Magnitude(w, bits))
  }

  /** Not an infinity or a NaN: the exponent is not all ones. */
  predicate Finite(t: nat, w: nat, bits: nat) {
    t <= w && bits < 2 * Pow2(w) && Exponent(t, Magnitude(w, bits)) < Pow2(w - t) - 1
  }
}
