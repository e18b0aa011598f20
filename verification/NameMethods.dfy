/** The loops of the library's name class and of the tools' own encoder. */
module NameMethods {
  import opened PowersOfTwo
  import opened Options
  import opened NameFormat

  // ----- the library -----

  /** The constructor from a string; the check fails for strings that are no names. */
  method FromString(s: string) returns (ok: bool, value: nat)
    ensures ok <==> Valid(s)
    ensures ok ==> value == NameOf(s)
  {
    hide Weight, Number, CharToValue;
    value := 0;
    if |s| > 13 { return false, 0; }
    if |s| == 0 {
      EmptyName();
      return true, 0;
    }
    var n := if |s| < 12 then |s| else 12;
    var i := 0;
    while i < n
      invariant 0 <= i <= n && (forall k :: 0 <= k < i ==> CharToValue(s[k]).Some?)
      invariant value == Leading(s, i)
    {
      if CharToValue(s[i]).None? { return false, 0; }
      value := value * 32 + CharToValue(s[i]).value;
      i := i + 1;
    }
    value := value * Pow2(4 + 5 * (12 - n));
    if |s| == 13 {
      if CharToValue(s[12]).None? { return false, 0; }
      var v := CharToValue(s[12]).value;
      if v > 15 { return false, 0; }
      value := value + v;
    }
    LeadingNumber(s, n);
    ok := true;
  }

  /** The first n characters read in base 32. */
  function Leading(s: string, n: nat): nat
    requires n <= |s| && forall k :: 0 <= k < n ==> CharToValue(s[k]).Some?
  {
    if n == 0 then 0 else Leading(s, n - 1) * 32 + CharToValue(s[n - 1]).value
  }

  lemma EmptyName()
    ensures Valid("") && NameOf("") == 0
  {
    PaddedZero("", 0);
  }

  /** The characters read so far, moved to their place, and the digits that follow. */
  lemma {:induction false} LeadingShifted(s: string, n: nat)
    requires Valid(s) && n <= |s| && n <= 12
    ensures Number(Padded(s), 0) == Leading(s, n) * Weight(n) + Number(Padded(s), n)
  {
    hide Weight, Number, Padded, CharToValue;
    if n > 0 {
      LeadingShifted(s, n - 1);
      PaddedAt(s, n - 1);
      NumberStep(Padded(s), n - 1);
      WeightStep(n - 1);
      MovedUp(Leading(s, n - 1), CharToValue(s[n - 1]).value, Weight(n));
    }
  }

  lemma MovedUp(l: int, c: int, w: int)
    ensures (l * 32 + c) * w == l * (32 * w) + c * w
  {
    assert (l * 32) * w == l * (32 * w);
  }

  lemma PaddedAt(s: string, i: nat)
    requires Valid(s) && i < |s|
    ensures Padded(s)[i] == CharToValue(s[i]).value
  {
  }

  lemma WeightStep(i: nat)
    requires i < 13
    ensures Weight(i) == Base(i) * Weight(i + 1)
  {
  }

  lemma LeadingNumber(s: string, n: nat)
    requires Valid(s) && n == if |s| < 12 then |s| else 12
    ensures NameOf(s) == Leading(s, n) * Pow2(4 + 5 * (12 - n)) + if |s| == 13 then CharToValue(s[12]).value else 0
  {
    hide Weight, Number;
    LeadingShifted(s, n);
    WeightPower(n);
    if n == 12 {
      LastDigit(Padded(s));
    } else {
      PaddedZero(s, n);
    }
  }

  /** What is left of the word when i characters have been shifted out, and its top character. */
  function Shifted(value: nat, i: nat): nat { (value % Weight(i)) * Pow2(5 * i) }

  lemma ShiftStep(value: nat, i: nat)
    requires i < 12
    ensures Shifted(value, i) / Pow2(59) == Digit(value, i)
    ensures Shifted(value, i) % Pow2(59) == (value % Weight(i + 1)) * Pow2(5 * i)
    ensures Shifted(value, i) < Pow2(64)
  {
    hide Pow2, Weight, Base, Digit;
    ShiftSizes(i);
    DigitAndRest(value, i);
    var g, w := Pow2(5 * i), Weight(i + 1);
    MovedParts(Digit(value, i), w, value % w, g);
    MulLt(value % Weight(i), Weight(i), g);
  }

  lemma ShiftSizes(i: nat)
    requires i < 12
    ensures Pow2(5 * i) * Weight(i + 1) == Pow2(59) && Weight(i) * Pow2(5 * i) == Pow2(64)
  {
    hide Pow2, Weight;
    WeightPower(i + 1);
    WeightPower(i);
    Pow2Add(5 * i, 59 - 5 * i);
    Pow2Add(5 * i, 64 - 5 * i);
  }

  lemma DigitAndRest(value: nat, i: nat)
    requires i < 12
    ensures value % Weight(i) == Digit(value, i) * Weight(i + 1) + value % Weight(i + 1)
  {
    hide Weight;
    WeightStep(i);
    RestOf(value, Base(i), Weight(i + 1));
  }

  /** A number in two parts, moved up. */
  lemma MovedParts(x: nat, w: nat, r: nat, g: nat)
    requires r < w && g > 0
    ensures g * w > 0 && ((x * w + r) * g) / (g * w) == x && ((x * w + r) * g) % (g * w) == r * g
  {
    MulLt(r, w, g);
    MulLe(0, r, g);
    assert (x * w + r) * g == x * (g * w) + r * g by {
      assert (x * w) * g == x * (g * w);
    }
    DivUnique((x * w + r) * g, g * w, x, r * g);
  }

  /** v << 5 in 64 bits. */
  function ShlFive(v: nat): nat { (v * 32) % U64 }

  lemma ShlFiveIs(v: nat)
    ensures ShlFive(v) == (v % Pow2(59)) * 32
  {
    Pow59();
    ScaleDiv(32, v, 0x800_0000_0000_0000);
    assert v * 32 == 32 * v;
  }

  lemma Pow59()
    ensures Pow2(59) == 0x800_0000_0000_0000 && Pow2(60) == 0x1000_0000_0000_0000 && Pow2(64) == U64
  {
    hide Pow2;
    Pow10();
    Pow2Add(10, 10);
    Pow2Add(20, 20);
    Pow2Add(40, 10);
    Pow2Add(50, 9);
    Pow2Add(50, 10);
    Pow2Add(60, 4);
  }

  lemma Pow10()
    ensures Pow2(10) == 0x400 && Pow2(9) == 0x200 && Pow2(5) == 32 && Pow2(4) == 16
  {
  }

  lemma ShiftMore(value: nat, i: nat)
    requires i < 12
    ensures ShlFive(Shifted(value, i)) == Shifted(value, i + 1)
  {
    hide Pow2, Weight, Shifted;
    ShlFiveIs(Shifted(value, i));
    ShiftStep(value, i);
    ShiftedIs(value, i + 1);
    Pow2Add(5 * i, 5);
    Pow10();
    assert (value % Weight(i + 1)) * Pow2(5 * i) * 32 == (value % Weight(i + 1)) * (Pow2(5 * i) * 32);
  }

  lemma ShiftedIs(value: nat, i: nat)
    ensures Shifted(value, i) == (value % Weight(i)) * Pow2(5 * i)
    ensures Shifted(value, i) == 0 <==> value % Weight(i) == 0
  {
    if value % Weight(i) > 0 { MulLt(0, value % Weight(i), Pow2(5 * i)); }
  }

  /** The last four bits, when they have arrived at the top. */
  lemma LastShift(value: nat)
    ensures Shifted(value, 12) == Digit(value, 12) * Pow2(60)
    ensures Digit(value, 12) == value % 16
  {
    Weights();
    DivUnique(value, 1, value, 0);
  }

  lemma ShiftStart(value: nat)
    requires value < U64
    ensures Shifted(value, 0) == value
  {
    Weights();
    DivUnique(value, U64, 0, value);
  }

  /** The top five bits, moved down to a character. */
  function TopBits(v: nat, i: nat): int {
    (v - v % 0x800_0000_0000_0000) / if i == 12 then 0x1000_0000_0000_0000 else 0x800_0000_0000_0000
  }

  lemma TopDigit(value: nat, i: nat)
    requires i < 13
    ensures TopBits(Shifted(value, i), i) == Digit(value, i)
    ensures Shifted(value, i) >= 0x800_0000_0000_0000 <==> Digit(value, i) != 0
  {
    hide Pow2, Weight, Shifted;
    Pow59();
    if i < 12 {
      ShiftStep(value, i);
      DivNonneg(Shifted(value, i), 0x800_0000_0000_0000);
    } else {
      LastShift(value);
    }
  }

  /** The characters go to the buffer from `begin` on; nothing is written when there is no room for 13. */
  method WriteAsString(value: nat, buffer: array<char>, begin: nat) returns (end: nat)
    requires value < U64 && begin <= buffer.Length
    modifies buffer
    ensures end == if begin + 13 > buffer.Length then begin else begin + |NameText(value)|
    ensures forall k :: begin <= k < end ==> buffer[k] == NameText(value)[k - begin]
    ensures forall k :: 0 <= k < begin || end <= k < buffer.Length ==> buffer[k] == old(buffer[k])
  {
    hide Shifted, Digit, Weight, Number, TopBits, ShlFive, NameText, Text;
    end := begin;
    if begin + 13 > buffer.Length { return; }
    var v := value;
    var i := 0;
    ShiftStart(value);
    ghost var text := NameText(value);
    WholeText(value);
    while i < 13
      invariant 0 <= i <= 13 && end == begin + i && (i < 13 ==> v == Shifted(value, i))
      invariant i <= |text| && Text(DigitsOf(value), i) == text[i..]
      invariant forall k :: begin <= k < end ==> buffer[k] == text[k - begin]
      invariant forall k :: 0 <= k < begin || end <= k < buffer.Length ==> buffer[k] == old(buffer[k])
    {
      ZeroWhen(value, i);
      TextUnfold(value, i);
      if v == 0 { return; }
      TopDigit(value, i);
      var indx := TopBits(v, i);
      RestOfText(text, i, CharOf(indx), Text(DigitsOf(value), i + 1));
      buffer[end] := CHARMAP[indx];
      end := end + 1;
      if i < 12 { ShiftMore(value, i); }
      v := ShlFive(v);
      i := i + 1;
    }
  }

  lemma WholeText(value: nat)
    ensures Text(DigitsOf(value), 0) == NameText(value)[0..]
  {
  }

  lemma RestOfText(text: string, i: nat, c: char, rest: string)
    requires i <= |text| && text[i..] == [c] + rest
    ensures i < |text| && text[i] == c && text[i + 1..] == rest
  {
    assert text[i..][1..] == rest;
  }

  lemma ZeroWhen(value: nat, i: nat)
    requires i < 13
    ensures Shifted(value, i) == 0 <==> Number(DigitsOf(value), i) == 0
  {
    ShiftedIs(value, i);
    DigitsNumber(value, i);
  }

  lemma TextUnfold(value: nat, i: nat)
    requires i < 13
    ensures Text(DigitsOf(value), i) ==
              if Number(DigitsOf(value), i) == 0 then "" else [CharOf(Digit(value, i))] + Text(DigitsOf(value), i + 1)
  {
  }

  method Length(value: nat) returns (l: nat)
    requires value < U64
    ensures l == |NameText(value)|
  {
    hide Shifted, Digit, Weight, Number, ShlFive;
    if value == 0 {
      ZeroText();
      return 0;
    }
    l := 0;
    var i := 0;
    var v := value;
    ShiftStart(value);
    while i < 13
      invariant 0 <= i <= 13 && (i < 13 ==> v == Shifted(value, i)) && l < 13
      invariant forall k :: l < k < i ==> Digit(value, k) == 0
      invariant l > 0 ==> l < i && Digit(value, l) != 0
      invariant l == 0 ==> forall k :: 0 < k < i ==> Digit(value, k) == 0
    {
      TopDigit(value, i);
      // (v & mask) > 0, for a mask of the top five bits
      if v >= 0x800_0000_0000_0000 { l := i; }
      if i < 12 { ShiftMore(value, i); }
      v := ShlFive(v);
      i := i + 1;
    }
    LengthIs(value, l);
    l := l + 1;
  }

  lemma ZeroText()
    ensures NameText(0) == ""
  {
    WordNumber(0);
  }

  lemma LengthIs(value: nat, l: nat)
    requires 0 < value < U64 && l < 13
    requires forall k :: l < k < 13 ==> Digit(value, k) == 0
    requires l > 0 ==> Digit(value, l) != 0
    ensures |NameText(value)| == l + 1
  {
    hide Digit, Weight;
    var d := DigitsOf(value);
    WordNumber(value);
    TextShape(d, 0);
    var n := |NameText(value)|;
    assert forall k :: 0 <= k < 13 ==> d[k] == Digit(value, k);
    assert d[n - 1] != 0;
    assert d[l] == 0 || n > l;
  }

  // ----- the suffix -----

  /** The remaining bits after the dot before digit q; 0 when there is none. */
  function BitsAfter(q: nat): int { if q == 0 then 0 else 64 - 5 * q }

  /** Digit t - 1 is the last dot before i. */
  predicate LastZero(d: seq<nat>, t: nat, i: nat) {
    |d| == 13 && t <= i <= 13 && (t > 0 ==> d[t - 1] == 0) && forall k :: t <= k < i ==> d[k] != 0
  }

  /** Digit l - 1 is the last dot before i that something else follows before i. */
  predicate LastActual(d: seq<nat>, l: nat, i: nat) {
    && |d| == 13 && l <= i <= 13
    && (l > 0 ==> d[l - 1] == 0 && exists k :: l <= k < i && d[k] != 0)
    && (forall k, m :: l <= k < m < i && d[k] == 0 ==> d[m] == 0)
  }

  lemma DigitAt(value: nat, i: nat)
    requires i < 12
    ensures Digit(value, i) == (value / Pow2(59 - 5 * i)) % 32
  {
    WeightPower(i + 1);
  }

  /** One more character: a dot is remembered, anything else makes the remembered dot an actual one. */
  lemma NextDot(d: seq<nat>, t: nat, l: nat, i: nat)
    requires i < 13 && LastZero(d, t, i) && LastActual(d, l, i)
    ensures d[i] == 0 ==> LastZero(d, i + 1, i + 1) && LastActual(d, l, i + 1)
    ensures d[i] != 0 ==> LastZero(d, t, i + 1) && LastActual(d, t, i + 1)
  {
  }

  /** The bits that remain after the last dot that something follows; 0 when there is none. */
  method BitsAfterLastDot(value: nat) returns (last: int, ghost l: nat)
    requires value < U64
    ensures last == BitsAfter(l) && LastActual(DigitsOf(value), l, 13)
    ensures exists q: nat :: LastActual(DigitsOf(value), q, 13) && last == BitsAfter(q)
  {
    hide Digit, Weight, LastZero, LastActual, Pow2;
    ghost var d := DigitsOf(value);
    var tmp := 0;
    last := 0;
    ghost var t: nat, i := 0, 0;
    l := 0;
    NoDotYet(d);
    var bits := 59;
    while bits >= 4
      invariant 0 <= i <= 12 && bits == 59 - 5 * i
      invariant last == BitsAfter(l) && tmp == BitsAfter(t) && LastZero(d, t, i) && LastActual(d, l, i)
      decreases bits
    {
      DigitAt(value, i);
      NextDot(d, t, l, i);
      assert d[i] == Digit(value, i);
      var c := (value / Pow2(bits)) % 32;
      if c == 0 {
        tmp := bits;
        t := i + 1;
      } else {
        last := tmp;
        l := t;
      }
      bits := bits - 5;
      i := i + 1;
    }
    LastShift(value);
    NextDot(d, t, l, 12);
    assert d[12] == Digit(value, 12);
    if value % 16 != 0 {
      last := tmp;
      l := t;
    }
  }

  lemma NoDotYet(d: seq<nat>)
    requires |d| == 13
    ensures LastZero(d, 0, 0) && LastActual(d, 0, 0)
  {
  }

  /** The name of what follows the last dot. */
  method Suffix(value: nat) returns (r: nat)
    requires value < U64
    ensures r < U64 && NameText(r) == AfterLastDot(NameText(value))
  {
    hide Digit, Weight, Number, NameText, Text, AfterLastDot, LastActual, Pow2;
    ghost var l;
    var last;
    last, l := BitsAfterLastDot(value);
    var thirteenth := value % 16;
    SuffixIs(value, l);
    if last == 0 { return value; }
    // the mask leaves the bits below `last` except for the lowest four
    var shift := 64 - last;
    r := (((value % Pow2(last) - thirteenth) * Pow2(shift)) % U64 + (thirteenth * Pow2(shift - 1)) % U64) % U64;
  }

  lemma SuffixIs(value: nat, q: nat)
    requires value < U64 && LastActual(DigitsOf(value), q, 13)
    ensures q <= 12
    ensures q == 0 ==> AfterLastDot(NameText(value)) == NameText(value)
    ensures q > 0 ==>
              var bits, c := 64 - 5 * q, value % 16;
              var r := (((value % Pow2(bits) - c) * Pow2(5 * q)) % U64 + (c * Pow2(5 * q - 1)) % U64) % U64;
              0 <= r < U64 && NameText(r) == AfterLastDot(NameText(value))
  {
    hide Digit, Weight, Number, Text, AfterLastDot, Moved;
    var d := DigitsOf(value);
    SuffixText(d, q, 0);
    if q > 0 {
      var e := Moved(d, q);
      MovedText(d, q, 0);
      NumberRange(e, 0);
      SameDigits(e);
      SuffixWord(value, q);
    }
  }

  lemma SuffixWord(value: nat, q: nat)
    requires value < U64 && 1 <= q <= 12
    ensures var c := value % 16;
            (((value % Pow2(64 - 5 * q) - c) * Pow2(5 * q)) % U64 + (c * Pow2(5 * q - 1)) % U64) % U64
              == Number(Moved(DigitsOf(value), q), 0)
  {
    hide Digit, Weight, Number, Moved, Pow2;
    var d, c, h := DigitsOf(value), value % 16, Weight(13 - q);
    DigitsNumber(value, q);
    WeightPower(q);
    WeightPower(13 - q);
    Pow2Add(1, 5 * q - 1);
    Pow10();
    SmallPowers();
    MovedNumber(d, q, 0);
    NumberRange(Moved(d, q), 0);
    Weights();
    LastShift(value);
    assert d[12] == c;
    RestAtLeast(value, q);
    Wraps((Number(d, q) - c), c, h);
    assert (Number(d, q) - c) * (2 * h) == 2 * h * (Number(d, q) - c);
  }

  lemma {:induction false} RestAtLeast(value: nat, q: nat)
    requires q <= 12
    ensures Number(DigitsOf(value), q) >= value % 16
    decreases 12 - q
  {
    hide Digit, Number;
    var d := DigitsOf(value);
    LastShift(value);
    NumberStep(d, q);
    if q == 12 {
      LastDigit(d);
      assert d[12] == Digit(value, 12);
    } else {
      RestAtLeast(value, q + 1);
      MulLe(0, d[q], Weight(q + 1));
    }
  }

  lemma Wraps(n: int, c: int, h: int)
    requires n >= 0 && c >= 0 && h > 0 && 2 * h * n + c * h < U64
    ensures ((n * (2 * h)) % U64 + (c * h) % U64) % U64 == 2 * h * n + c * h
  {
    MulLe(0, c, h);
    MulLe(0, n, 2 * h);
    assert n * (2 * h) == 2 * h * n;
    DivUnique(n * (2 * h), U64, 0, n * (2 * h));
    DivUnique(c * h, U64, 0, c * h);
    DivUnique(2 * h * n + c * h, U64, 0, 2 * h * n + c * h);
  }

  // ----- the tools -----

  /** Characters that are not allowed count as dots here. */
  function CharToSymbol(c: char): nat {
    if 'a' <= c <= 'z' then (c as int - 'a' as int) + 6
    else if '1' <= c <= '5' then (c as int - '1' as int) + 1
    else 0
  }

  /** The character of a C string, which a NUL ends. */
  function CharAt(s: string, i: nat): char { if i < |s| then s[i] else '\0' }

  function CLength(s: string): (n: nat)
    ensures n <= |s| && (n < |s| ==> s[n] == '\0') && forall k :: 0 <= k < n ==> s[k] != '\0'
  {
    if s == "" || s[0] == '\0' then 0 else 1 + CLength(s[1..])
  }

  function ToolDigits(s: string): (d: seq<nat>)
    ensures IsDigits(d)
  {
    seq(13, i requires 0 <= i < 13 => if i < CLength(s) then CharToSymbol(s[i]) % Base(i) else 0)
  }

  function ToolName(s: string): (v: nat)
    ensures v < U64
  {
    NumberRange(ToolDigits(s), 0);
    Weights();
    Number(ToolDigits(s), 0)
  }

  method StringToName(s: string) returns (name: nat)
    ensures name == ToolName(s)
  {
    hide Weight, Number, ToolDigits, CharToSymbol;
    var i := 0;
    name := 0;
    ghost var d := ToolDigits(s);
    while i < 12 && CharAt(s, i) != '\0'
      invariant 0 <= i <= 12 && i <= CLength(s)
      invariant name + Number(d, i) == Number(d, 0)
    {
      assert i < CLength(s);
      ToolDigitAt(s, i);
      NumberStep(d, i);
      WeightPower(i + 1);
      name := name + (CharToSymbol(s[i]) % 32) * Pow2(64 - 5 * (i + 1));
      i := i + 1;
    }
    if i == 12 {
      LastDigit(d);
      LastSymbol(s);
      name := name + CharToSymbol(CharAt(s, 12)) % 16;
    } else {
      assert i == CLength(s);
      ToolTail(s, i);
    }
  }

  lemma ToolDigitAt(s: string, i: nat)
    requires i < 12 && i < CLength(s)
    ensures ToolDigits(s)[i] == CharToSymbol(s[i]) % 32
  {
  }

  lemma LastSymbol(s: string)
    requires CLength(s) >= 12
    ensures ToolDigits(s)[12] == CharToSymbol(CharAt(s, 12)) % 16
  {
  }

  lemma ToolTail(s: string, i: nat)
    requires i == CLength(s) && i <= 12
    ensures Number(ToolDigits(s), i) == 0
  {
    ZeroFrom(ToolDigits(s), i);
  }

  /** On the strings that the library accepts, both encoders give the same word. */
  lemma EncodersAgree(s: string)
    requires Valid(s)
    ensures ToolName(s) == NameOf(s)
  {
    forall i | 0 <= i < |s| ensures CharToSymbol(s[i]) == CharToValue(s[i]).value && s[i] != '\0' { }
    assert CLength(s) == |s|;
    assert ToolDigits(s) == Padded(s);
  }

  /** All thirteen characters of a word, from i on. */
  function FullText(v: nat, i: nat): (s: string)
    requires i <= 13
    ensures |s| == 13 - i
    decreases 13 - i
  {
    if i == 13 then "" else [CharOf(Digit(v, i))] + FullText(v, i + 1)
  }

  lemma {:induction false} FullTrimmed(v: nat, i: nat)
    requires i <= 13
    ensures TrimDots(FullText(v, i)) == Text(DigitsOf(v), i)
    ensures AllDots(FullText(v, i)) <==> Number(DigitsOf(v), i) == 0
    decreases 13 - i
  {
    hide Weight, Number, Digit;
    var d := DigitsOf(v);
    ZeroFrom(d, i);
    if i < 13 {
      FullTrimmed(v, i + 1);
      ZeroFrom(d, i + 1);
      CharIs(d[i]);
      DotsSplit(FullText(v, i));
      assert FullText(v, i)[1..] == FullText(v, i + 1);
    }
  }

  lemma DivDiv(v: nat, a: nat, b: nat)
    requires a > 0 && b > 0
    ensures (v / a) / b == v / (a * b)
  {
    DivNonneg(v, a);
    var q, r := v / a, v % a;
    var h, x := q / b, q % b;
    MulLe(x + 1, b, a);
    MulLe(0, x, a);
    assert (x + 1) * a == x * a + a;
    assert q * a == h * (a * b) + x * a;
    DivUnique(v, a * b, h, x * a + r);
  }

  /** The loop that both tool functions share: the characters of a word from the last one back. */
  method AllCharacters(v: nat) returns (str: seq<char>)
    ensures str == FullText(v, 0)
  {
    hide Weight, Digit;
    str := seq(13, _ => '.');
    var tmp := v;
    var i := 0;
    Weights();
    DivUnique(v, 1, v, 0);
    while i <= 12
      invariant 0 <= i <= 13 && |str| == 13 && tmp == v / Weight(13 - i)
      invariant str[13 - i..] == FullText(v, 13 - i)
    {
      DigitIs(v, 12 - i);
      var c := CHARMAP[tmp % if i == 0 then 0x10 else 0x20];
      ghost var before := str;
      str := str[12 - i := c];
      assert str[12 - i..] == [c] + before[13 - i..];
      NextQuotient(v, 12 - i);
      tmp := tmp / if i == 0 then 0x10 else 0x20;
      i := i + 1;
    }
    assert str[0..] == str;
  }

  lemma DigitIs(v: nat, i: nat)
    requires i < 13
    ensures Digit(v, i) == (v / Weight(i + 1)) % Base(i) && v / Weight(i + 1) >= 0
  {
    DivNonneg(v, Weight(i + 1));
  }

  lemma NextQuotient(v: nat, i: nat)
    requires i < 13
    ensures v / Weight(i) == (v / Weight(i + 1)) / Base(i) && v / Weight(i) >= 0
  {
    hide Weight;
    WeightStep(i);
    DivDiv(v, Weight(i + 1), Base(i));
    DivNonneg(v, Weight(i));
    assert Weight(i + 1) * Base(i) == Weight(i);
  }

  /** The length without the dots at the end. */
  method LastNotDot(s: string) returns (n: nat)
    ensures n <= |s| && s[..n] == TrimDots(s)
    ensures n == 0 <==> AllDots(s)
  {
    n := |s|;
    while n > 0 && s[n - 1] == '.'
      invariant 0 <= n <= |s| && forall k :: n <= k < |s| ==> s[k] == '.'
    {
      n := n - 1;
    }
    TrimmedIs(s);
    TrimUnique(s, n);
  }

  lemma TrimUnique(s: string, n: nat)
    requires n <= |s| && (forall k :: n <= k < |s| ==> s[k] == '.') && (n > 0 ==> s[n - 1] != '.')
    ensures s[..n] == TrimDots(s)
  {
    TrimmedIs(s);
    var m := |TrimDots(s)|;
    assert m > 0 ==> s[m - 1] == TrimDots(s)[m - 1];
    assert forall k :: m <= k < |s| ==> s[k] == s[m..][k - m];
  }

  /** The tools' string of a word: the same as the library's, but thirteen dots for zero. */
  method NameToString(nm: nat) returns (str: string)
    requires nm < U64
    ensures str == if nm == 0 then "............." else NameText(nm)
  {
    var full := AllCharacters(nm);
    WordNumber(nm);
    FullTrimmed(nm, 0);
    var n := LastNotDot(full);
    str := if n > 0 then full[..n] else full;
  }

  /** What the tools accept is exactly what reading and writing back leaves as it is. */
  method ValidateName(s: string) returns (ok: bool)
    ensures ok <==> Valid(s) && NameText(NameOf(s)) == s
  {
    hide ToolName, NameOf, NameText, Padded, CharToValue;
    ValidWhen(s);
    if |s| > 13 { return false; }
    var value := StringToName(s);
    var full := AllCharacters(value);
    var n := LastNotDot(full);
    FullName(value);
    ok := full[..n] == s;
  }

  lemma FullName(v: nat)
    ensures TrimDots(FullText(v, 0)) == NameText(v)
  {
    FullTrimmed(v, 0);
  }

  lemma ValidWhen(s: string)
    ensures NameText(ToolName(s)) == s <==> Valid(s) && NameText(NameOf(s)) == s
  {
    if NameText(ToolName(s)) == s { WordRoundTrip(ToolName(s)); }
    if Valid(s) { EncodersAgree(s); }
  }
}
