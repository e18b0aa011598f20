/** Powers, and products and quotients of numbers that are not constants. */
module PowersOfTwo {

  function Pow2(n: nat): (p: nat)
    ensures p > 0
  {
    if n == 0 then 1 else 2 * Pow2(n - 1)
  }

  lemma {:induction false} Pow2Add(m: nat, n: nat)
    ensures Pow2(m + n) == Pow2(m) * Pow2(n)
    decreases m
  {
    if m > 0 {
      Pow2Add(m - 1, n);
      assert Pow2(m + n) == 2 * Pow2(m - 1 + n);
      assert 2 * (Pow2(m - 1) * Pow2(n)) == (2 * Pow2(m - 1)) * Pow2(n);
    }
  }

  lemma {:induction false} Pow2Le(m: nat, n: nat)
    requires m <= n
    ensures Pow2(m) <= Pow2(n)
    decreases n
  {
    if m < n { Pow2Le(m, n - 1); }
  }

  lemma Pow2Lt(m: nat, n: nat)
    requires m < n
    ensures 2 * Pow2(m) <= Pow2(n)
  {
    Pow2Le(m + 1, n);
  }

  lemma SmallPowers()
    ensures Pow2(1) == 2 && Pow2(2) == 4 && Pow2(6) == 0x40 && Pow2(10) == 0x400 && Pow2(11) == 0x800
  {
  }

  // ----- powers of any base -----

  function Product(x: nat, y: nat): nat {
    MulLe(0, x, y);
    x * y
  }

  function Power(base: nat, n: nat): nat { if n == 0 then 1 else Product(base, Power(base, n - 1)) }

  lemma PowerStep(base: nat, n: nat)
    requires n > 0
    ensures Power(base, n) == base * Power(base, n - 1)
  {
  }

  lemma PowerZero(base: nat)
    ensures Power(base, 0) == 1
  {
  }

  lemma {:induction false} PowerPositive(base: nat, n: nat)
    requires base > 0
    ensures Power(base, n) > 0
  {
    if n > 0 {
      PowerPositive(base, n - 1);
      MulLt(0, base, Power(base, n - 1));
    }
  }

  lemma {:induction false} PowerAdd(base: nat, m: nat, n: nat)
    ensures Power(base, m + n) == Power(base, m) * Power(base, n)
    decreases m
  {
    hide Power;
    if m == 0 {
      PowerZero(base);
    } else {
      PowerAdd(base, m - 1, n);
      PowerStep(base, m);
      PowerStep(base, m + n);
      Associate(base, Power(base, m - 1), Power(base, n));
    }
  }

  // ----- products and quotients -----

  lemma Associate(x: int, y: int, z: int)
    ensures (x * y) * z == x * (y * z)
  {
  }

  lemma MulLe(x: nat, y: nat, w: nat)
    requires x <= y
    ensures x * w <= y * w
  {
  }

  lemma MulLt(x: nat, y: nat, w: nat)
    requires x < y && w > 0
    ensures x * w < y * w && x * w + w <= y * w
  {
    MulLe(x + 1, y, w);
    assert (x + 1) * w == x * w + w;
  }

  lemma MultipleBig(k: int, d: int)
    requires d > 0
    ensures k >= 1 ==> k * d >= d
    ensures k <= -1 ==> k * d <= -d
  {
    if k >= 1 {
      assert k * d == (k - 1) * d + d;
    } else if k <= -1 {
      assert k * d == (k + 1) * d - d;
    }
  }

  lemma DivNonneg(x: nat, d: nat)
    requires d > 0
    ensures x / d >= 0
  {
    MultipleBig(x / d, d);
    assert x == (x / d) * d + x % d;
  }

  /** The only quotient and remainder. */
  lemma DivUnique(x: int, d: nat, q: int, r: int)
    requires d > 0 && x == q * d + r && 0 <= r < d
    ensures x / d == q && x % d == r
  {
    MultipleBig(q - x / d, d);
    assert (q - x / d) * d == x % d - r;
  }

  lemma ScaleDiv(w: nat, x: int, d: nat)
    requires w > 0 && d > 0
    ensures w * d > 0 && (w * x) / (w * d) == x / d && (w * x) % (w * d) == w * (x % d)
  {
    var q, r := x / d, x % d;
    MulLt(r, d, w);
    assert w * x == q * (w * d) + w * r by {
      assert x == q * d + r;
      assert w * x == w * (q * d) + w * r;
      assert w * (q * d) == q * (w * d);
    }
    DivUnique(w * x, w * d, q, w * r);
  }

  lemma MultipleOf(a: nat, b: nat, d: nat)
    requires d > 0
    ensures (a * (b * d)) % d == 0
  {
    assert a * (b * d) == (a * b) * d;
    DivUnique(a * (b * d), d, a * b, 0);
  }

  /** v >> k */
  function Shr(v: nat, k: nat): nat {
    DivNonneg(v, Pow2(k));
    v / Pow2(k)
  }
}
