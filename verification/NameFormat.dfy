/** Names: twelve base-32 characters and one base-16 character in a 64-bit word. */
module NameFormat {
  import opened PowersOfTwo
  import opened Options

  const U64: nat := 0x1_0000_0000_0000_0000
  const CHARMAP := ".12345abcdefghijklmnopqrstuvwxyz"

  // ----- characters -----

  /** The value of an allowed character. */
  function CharToValue(c: char): Option<nat> {
    if c == '.' then Some(0)
    else if '1' <= c <= '5' then Some((c as int - '1' as int) + 1)
    else if 'a' <= c <= 'z' then Some((c as int - 'a' as int) + 6)
    else None
  }

  function CharOf(x: nat): char
    requires x < 32
  {
    CHARMAP[x]
  }

  lemma CharBack(c: char, x: nat)
    requires x < 32
    ensures CharToValue(c) == Some(x) <==> CharOf(x) == c
  {
    CharIs(x);
  }

  lemma CharIs(x: nat)
    requires x < 32
    ensures CharOf(x) as int == if x == 0 then '.' as int else if x < 6 then '1' as int + x - 1 else 'a' as int + x - 6
  {
  }

  lemma CharRange(c: char)
    ensures CharToValue(c).Some? ==> CharToValue(c).value < 32
  {
  }

  /** The characters are in the order of their values. */
  lemma CharOrder(x: nat, y: nat)
    requires x < 32 && y < 32
    ensures x < y <==> CharOf(x) < CharOf(y)
    ensures x == y <==> CharOf(x) == CharOf(y)
  {
    CharIs(x);
    CharIs(y);
  }

  // ----- digits -----

  function Base(i: nat): nat { if i < 12 then 32 else 16 }

  /** The weight of everything from digit i on. */
  function Weight(i: nat): (w: nat)
    ensures w > 0
    decreases 13 - i
  {
    if i >= 13 then 1 else Base(i) * Weight(i + 1)
  }

  predicate IsDigits(d: seq<nat>) { |d| == 13 && forall i :: 0 <= i < 13 ==> d[i] < Base(i) }

  /** The number that the digits from i on stand for. */
  function Number(d: seq<nat>, i: nat): int
    requires |d| == 13
    decreases 13 - i
  {
    if i >= 13 then 0 else d[i] * Weight(i + 1) + Number(d, i + 1)
  }

  lemma {:induction false} NumberRange(d: seq<nat>, i: nat)
    requires IsDigits(d) && i <= 13
    ensures 0 <= Number(d, i) < Weight(i)
    decreases 13 - i
  {
    if i < 13 {
      NumberRange(d, i + 1);
      MulLe(d[i] + 1, Base(i), Weight(i + 1));
      MulLe(0, d[i], Weight(i + 1));
      assert (d[i] + 1) * Weight(i + 1) == d[i] * Weight(i + 1) + Weight(i + 1);
    }
  }

  lemma Weights()
    ensures Weight(13) == 1 && Weight(12) == 0x10 && Weight(0) == U64
  {
    assert Weight(9) == 0x8_0000;
    assert Weight(6) == 0x4_0000_0000;
    assert Weight(3) == 0x2_0000_0000_0000;
  }

  /** Digit i of a word. */
  function Digit(v: nat, i: nat): (x: nat)
    ensures x < Base(i)
  {
    DivNonneg(v, Weight(i + 1));
    (v / Weight(i + 1)) % Base(i)
  }

  function DigitsOf(v: nat): (d: seq<nat>)
    ensures IsDigits(d)
  {
    seq(13, i requires 0 <= i < 13 => Digit(v, i))
  }

  lemma RestOf(v: nat, b: nat, w: nat)
    requires b > 0 && w > 0
    ensures v % (b * w) == ((v / w) % b) * w + v % w
  {
    DivNonneg(v, w);
    var q, r := v / w, v % w;
    DivNonneg(q, b);
    var h, x := q / b, q % b;
    MulLe(x + 1, b, w);
    MulLe(0, x, w);
    assert (x + 1) * w == x * w + w;
    assert q * w == h * (b * w) + x * w;
    DivUnique(v, b * w, h, x * w + r);
  }

  /** The digits of a word stand for it. */
  lemma {:induction false} DigitsNumber(v: nat, i: nat)
    requires i <= 13
    ensures Number(DigitsOf(v), i) == v % Weight(i)
    decreases 13 - i
  {
    if i < 13 {
      DigitsNumber(v, i + 1);
      RestOf(v, Base(i), Weight(i + 1));
    }
  }

  lemma WordNumber(v: nat)
    requires v < U64
    ensures Number(DigitsOf(v), 0) == v
  {
    hide Number, DigitsOf, Weight;
    DigitsNumber(v, 0);
    Weights();
    DivUnique(v, U64, 0, v);
  }

  // ----- text -----

  /** The characters from i on, up to where only dots are left. */
  function Text(d: seq<nat>, i: nat): string
    requires IsDigits(d)
    decreases 13 - i
  {
    if i >= 13 || Number(d, i) == 0 then "" else [CharOf(d[i])] + Text(d, i + 1)
  }

  /** The string of a name. */
  function NameText(v: nat): (s: string)
    ensures |s| <= 13
  {
    TextShape(DigitsOf(v), 0);
    Text(DigitsOf(v), 0)
  }

  /** Dictionary order, where the beginning of a string comes before it. */
  predicate Before(s: string, t: string) {
    if t == "" then false
    else if s == "" then true
    else s[0] < t[0] || (s[0] == t[0] && Before(s[1..], t[1..]))
  }

  lemma {:induction false} TextOrder(d: seq<nat>, e: seq<nat>, i: nat)
    requires IsDigits(d) && IsDigits(e) && i <= 13
    ensures Number(d, i) < Number(e, i) <==> Before(Text(d, i), Text(e, i))
    ensures Number(d, i) == Number(e, i) <==> Text(d, i) == Text(e, i)
    decreases 13 - i
  {
    NumberRange(d, i);
    NumberRange(e, i);
    if i < 13 {
      TextOrder(d, e, i + 1);
      CharOrder(d[i], e[i]);
      DigitDecides(d, e, i);
      TextParts(d, i);
      TextParts(e, i);
    }
  }

  lemma DigitDecides(d: seq<nat>, e: seq<nat>, i: nat)
    requires IsDigits(d) && IsDigits(e) && i < 13
    ensures d[i] < e[i] ==> Number(d, i) < Number(e, i)
    ensures d[i] > e[i] ==> Number(d, i) > Number(e, i)
    ensures d[i] == e[i] ==> Number(d, i) - Number(e, i) == Number(d, i + 1) - Number(e, i + 1)
  {
    NumberRange(d, i + 1);
    NumberRange(e, i + 1);
    var w := Weight(i + 1);
    if d[i] < e[i] {
      MulLt(d[i], e[i], w);
    } else if d[i] > e[i] {
      MulLt(e[i], d[i], w);
    }
  }

  lemma TextParts(d: seq<nat>, i: nat)
    requires IsDigits(d) && i < 13
    ensures Number(d, i) != 0 ==> Text(d, i) != "" && Text(d, i)[0] == CharOf(d[i]) && Text(d, i)[1..] == Text(d, i + 1)
  {
  }

  /** The numeric order of names is the dictionary order of their strings. */
  lemma NameOrder(v: nat, w: nat)
    requires v < U64 && w < U64
    ensures v < w <==> Before(NameText(v), NameText(w))
    ensures v == w <==> NameText(v) == NameText(w)
  {
    WordNumber(v);
    WordNumber(w);
    TextOrder(DigitsOf(v), DigitsOf(w), 0);
  }

  // ----- from strings -----

  /** What the constructor accepts: thirteen allowed characters, the last of them up to j. */
  predicate Valid(s: string) {
    && |s| <= 13
    && (forall i :: 0 <= i < |s| ==> CharToValue(s[i]).Some?)
    && (|s| == 13 ==> CharToValue(s[12]).value <= 15)
  }

  function Padded(s: string): (d: seq<nat>)
    requires Valid(s)
    ensures IsDigits(d)
  {
    seq(13, i requires 0 <= i < 13 => if i < |s| then DigitOf(s, i) else 0)
  }

  function DigitOf(s: string, i: nat): (x: nat)
    requires Valid(s) && i < |s|
    ensures x < Base(i)
  {
    CharRange(s[i]);
    CharToValue(s[i]).value
  }

  function NameOf(s: string): (v: nat)
    requires Valid(s)
    ensures v < U64
  {
    NumberRange(Padded(s), 0);
    Weights();
    Number(Padded(s), 0)
  }

  predicate AllDots(s: string) { forall i :: 0 <= i < |s| ==> s[i] == '.' }

  function TrimDots(s: string): string { if AllDots(s) then "" else [s[0]] + TrimDots(s[1..]) }

  lemma DotsSplit(s: string)
    requires s != ""
    ensures AllDots(s) <==> s[0] == '.' && AllDots(s[1..])
  {
    if s[0] == '.' && AllDots(s[1..]) {
      forall i | 0 <= i < |s| ensures s[i] == '.' {
        if i > 0 { assert s[1..][i - 1] == s[i]; }
      }
    }
  }

  /** Trimming removes the dots at the end and nothing else. */
  lemma {:induction false} TrimmedIs(s: string)
    ensures |TrimDots(s)| <= |s| && s[..|TrimDots(s)|] == TrimDots(s) && AllDots(s[|TrimDots(s)|..])
    ensures TrimDots(s) != "" ==> TrimDots(s)[|TrimDots(s)| - 1] != '.'
  {
    if !AllDots(s) {
      TrimmedIs(s[1..]);
      var r := TrimDots(s[1..]);
      assert s[|TrimDots(s)|..] == s[1..][|r|..];
      assert s[..|TrimDots(s)|] == [s[0]] + s[1..][..|r|];
      DotsSplit(s);
    }
  }

  lemma PaddedZero(s: string, i: nat)
    requires Valid(s) && i <= 13
    ensures Number(Padded(s), i) == 0 <==> forall j :: i <= j < |s| ==> s[j] == '.'
  {
    hide Number;
    var d := Padded(s);
    ZeroFrom(d, i);
    forall k | 0 <= k < |s| ensures d[k] == 0 <==> s[k] == '.' {
      assert d[k] == DigitOf(s, k);
    }
  }

  lemma {:induction false} PaddedText(s: string, i: nat)
    requires Valid(s) && i <= |s|
    ensures Text(Padded(s), i) == TrimDots(s[i..])
    decreases 13 - i
  {
    PaddedZero(s, i);
    SameDots(s, i);
    if !AllDots(s[i..]) {
      CharBack(s[i], DigitOf(s, i));
      PaddedText(s, i + 1);
      assert s[i..][1..] == s[i + 1..];
    }
  }

  lemma SameDots(s: string, i: nat)
    requires i <= |s|
    ensures AllDots(s[i..]) <==> forall j :: i <= j < |s| ==> s[j] == '.'
  {
    if AllDots(s[i..]) {
      forall j | i <= j < |s| ensures s[j] == '.' { assert s[i..][j - i] == s[j]; }
    }
  }

  /** Reading a string and writing it back removes only its trailing dots. */
  lemma StringRoundTrip(s: string)
    requires Valid(s)
    ensures NameText(NameOf(s)) == TrimDots(s)
  {
    NumberRange(Padded(s), 0);
    SameDigits(Padded(s));
    PaddedText(s, 0);
    assert s[0..] == s;
  }

  lemma SameDigits(d: seq<nat>)
    requires IsDigits(d)
    ensures 0 <= Number(d, 0) < U64 && Text(DigitsOf(Number(d, 0)), 0) == Text(d, 0)
  {
    NumberRange(d, 0);
    Weights();
    WordNumber(Number(d, 0));
    TextOrder(DigitsOf(Number(d, 0)), d, 0);
  }

  // ----- from words -----

  lemma {:induction false} ZeroFrom(d: seq<nat>, i: nat)
    requires IsDigits(d) && i <= 13
    ensures Number(d, i) == 0 <==> forall k :: i <= k < 13 ==> d[k] == 0
    decreases 13 - i
  {
    if i < 13 {
      ZeroFrom(d, i + 1);
      NumberRange(d, i + 1);
      MulLe(0, d[i], Weight(i + 1));
      if d[i] > 0 { MulLe(1, d[i], Weight(i + 1)); }
    }
  }

  /** The text is as long as the digits up to the last nonzero one, and shows them. */
  lemma {:induction false} TextShape(d: seq<nat>, i: nat)
    requires IsDigits(d) && i <= 13
    ensures |Text(d, i)| <= 13 - i
    ensures forall k :: 0 <= k < |Text(d, i)| ==> Text(d, i)[k] == CharOf(d[i + k])
    ensures forall k :: i + |Text(d, i)| <= k < 13 ==> d[k] == 0
    ensures Text(d, i) != "" ==> d[i + |Text(d, i)| - 1] != 0
    decreases 13 - i
  {
    hide Number, CharOf;
    ZeroFrom(d, i);
    if Number(d, i) != 0 {
      var t := Text(d, i + 1);
      TextShape(d, i + 1);
      assert Text(d, i) == [CharOf(d[i])] + t;
      forall k | 0 <= k < |Text(d, i)| ensures Text(d, i)[k] == CharOf(d[i + k]) {
        if k > 0 { assert Text(d, i)[k] == t[k - 1]; }
      }
    }
  }

  lemma WordText(v: nat)
    requires v < U64
    ensures Valid(NameText(v)) && Padded(NameText(v)) == DigitsOf(v)
  {
    var d, s := DigitsOf(v), NameText(v);
    TextShape(d, 0);
    forall k | 0 <= k < |s| ensures CharToValue(s[k]) == Some(d[k]) { CharBack(s[k], d[k]); }
  }

  /** Every word is the name of its own string. */
  lemma WordRoundTrip(v: nat)
    requires v < U64
    ensures Valid(NameText(v)) && NameOf(NameText(v)) == v
  {
    WordText(v);
    WordNumber(v);
  }

  // ----- the text after the last dot -----

  function AfterLastDot(s: string): string { if '.' in s then AfterLastDot(s[1..]) else s }

  /** What follows the last dot: no dot in it, and a dot before it unless it is everything. */
  lemma {:induction false} AfterLastDotIs(s: string)
    ensures var r := AfterLastDot(s);
            && '.' !in r && |r| <= |s| && s[|s| - |r|..] == r
            && (|r| == |s| || s[|s| - |r| - 1] == '.')
  {
    if '.' in s { AfterLastDotIs(s[1..]); }
  }

  /** The digits from q on, moved to the front. */
  function Moved(d: seq<nat>, q: nat): (e: seq<nat>)
    requires IsDigits(d) && 1 <= q <= 12
    ensures IsDigits(e)
  {
    seq(13, j requires 0 <= j < 13 => if q + j <= 12 then d[q + j] else 0)
  }

  lemma {:induction false} MovedText(d: seq<nat>, q: nat, j: nat)
    requires IsDigits(d) && 1 <= q <= 12 && j <= 13
    ensures Text(Moved(d, q), j) == if q + j <= 13 then Text(d, q + j) else ""
    decreases 13 - j
  {
    var e := Moved(d, q);
    ZeroFrom(e, j);
    if q + j <= 12 {
      ZeroFrom(d, q + j);
      MovedText(d, q, j + 1);
      SameTail(d, q, j);
    }
  }

  lemma SameTail(d: seq<nat>, q: nat, j: nat)
    requires IsDigits(d) && 1 <= q && q + j <= 12
    ensures (forall k :: j <= k < 13 ==> Moved(d, q)[k] == 0) <==> (forall k :: q + j <= k < 13 ==> d[k] == 0)
  {
    var e := Moved(d, q);
    if forall k :: j <= k < 13 ==> e[k] == 0 {
      forall k | q + j <= k < 13 ensures d[k] == 0 { assert e[k - q] == d[k]; }
    }
  }

  /** The digits from q on hold no dot that text follows, and a dot that text follows is before them. */
  predicate LastDotBefore(d: seq<nat>, q: nat) {
    && |d| == 13 && q <= 12
    && (q > 0 ==> d[q - 1] == 0 && exists k :: q <= k < 13 && d[k] != 0)
    && (forall k, m :: q <= k < m < 13 && d[k] == 0 ==> d[m] == 0)
  }

  lemma {:induction false} SuffixText(d: seq<nat>, q: nat, i: nat)
    requires IsDigits(d) && LastDotBefore(d, q) && i <= q
    ensures AfterLastDot(Text(d, i)) == Text(d, q)
    decreases q - i
  {
    if i == q {
      NoDots(d, q);
    } else {
      DotInside(d, q, i);
      SuffixText(d, q, i + 1);
      TextParts(d, i);
    }
  }

  lemma NoDots(d: seq<nat>, q: nat)
    requires IsDigits(d) && LastDotBefore(d, q)
    ensures '.' !in Text(d, q)
  {
    TextShape(d, q);
    var s := Text(d, q);
    forall k | 0 <= k < |s| ensures s[k] != '.' {
      CharIs(d[q + k]);
      assert d[q + (|s| - 1)] != 0;
    }
  }

  lemma DotInside(d: seq<nat>, q: nat, i: nat)
    requires IsDigits(d) && LastDotBefore(d, q) && i < q
    ensures '.' in Text(d, i) && Number(d, i) != 0
  {
    ZeroFrom(d, i);
    TextShape(d, i);
    var s := Text(d, i);
    assert q - 1 - i < |s|;
    CharIs(d[q - 1]);
    assert s[q - 1 - i] == CharOf(d[i + (q - 1 - i)]);
  }

  /** The number of the moved digits, from the rest of the word after the dot. */
  lemma {:induction false} MovedNumber(d: seq<nat>, q: nat, j: nat)
    requires IsDigits(d) && 1 <= q && q + j <= 12
    ensures Number(Moved(d, q), j) == 2 * Weight(13 - q) * (Number(d, q + j) - d[12]) + d[12] * Weight(13 - q)
    decreases 13 - j
  {
    hide Weight, Number, Moved;
    var e, h := Moved(d, q), Weight(13 - q);
    MovedAt(d, q, j);
    NumberStep(e, j);
    if q + j == 12 {
      LastDigit(d);
      TailZero(d, q, j + 1);
      assert Weight(j + 1) == h && 2 * h * (d[12] - d[12]) == 0;
    } else {
      MovedNumber(d, q, j + 1);
      NumberStep(d, q + j);
      WeightProduct(q, j + 1);
      Distribute(h, d[q + j], Weight(q + j + 1), Number(d, q + j + 1), d[12]);
    }
  }

  lemma MovedAt(d: seq<nat>, q: nat, j: nat)
    requires IsDigits(d) && 1 <= q && q + j <= 12
    ensures Moved(d, q)[j] == d[q + j]
  {
  }

  lemma NumberStep(d: seq<nat>, i: nat)
    requires |d| == 13 && i < 13
    ensures Number(d, i) == d[i] * Weight(i + 1) + Number(d, i + 1)
  {
  }

  lemma TailZero(d: seq<nat>, q: nat, j: nat)
    requires IsDigits(d) && 1 <= q <= 12 && q + j == 13
    ensures Number(Moved(d, q), j) == 0
  {
    ZeroFrom(Moved(d, q), j);
  }

  lemma LastDigit(d: seq<nat>)
    requires IsDigits(d)
    ensures Number(d, 12) == d[12]
  {
    Weights();
  }

  lemma Distribute(h: int, x: int, w: int, n: int, c: int)
    ensures x * (2 * h * w) + (2 * h * (n - c) + c * h) == 2 * h * (x * w + n - c) + c * h
  {
    assert x * (2 * h * w) == 2 * h * (x * w);
  }

  lemma {:induction false} WeightPower(i: nat)
    requires i <= 12
    ensures Weight(i) == Pow2(64 - 5 * i)
    decreases 12 - i
  {
    if i == 12 {
      Weights();
    } else {
      WeightPower(i + 1);
      Pow2Add(5, 59 - 5 * i);
    }
  }

  lemma WeightProduct(q: nat, j: nat)
    requires 1 <= q && q + j <= 12
    ensures Weight(j) == 2 * Weight(13 - q) * Weight(q + j)
  {
    WeightPower(j);
    WeightPower(13 - q);
    WeightPower(q + j);
    Pow2Add(1, 5 * q - 1);
    Pow2Add(5 * q, 64 - 5 * (q + j));
  }
}
