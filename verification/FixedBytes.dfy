/** Fixed-size byte arrays kept as 128-bit words, most significant byte first. */
module FixedBytes {
  import opened PowersOfTwo

  type Byte = x: int | 0 <= x < 256

  const U128: nat := 0x1_0000_0000_0000_0000_0000_0000_0000_0000

  // ----- numbers in a base -----

  /** The digits read as a number, the first one highest. */
  function Fold(base: nat, ws: seq<nat>): nat {
    if ws == [] then 0 else Product(Fold(base, ws[..|ws| - 1]), base) + ws[|ws| - 1]
  }

  predicate Digits(base: nat, ws: seq<nat>) { forall i :: 0 <= i < |ws| ==> ws[i] < base }

  lemma {:induction false} PowerOfPower(base: nat, m: nat, n: nat)
    ensures m * n >= 0 && Power(Power(base, m), n) == Power(base, m * n)
    decreases n
  {
    hide Power;
    MulLe(0, m, n);
    if n == 0 {
      PowerZero(base);
      PowerZero(Power(base, m));
    } else {
      PowerOfPower(base, m, n - 1);
      OneMore(m, n);
      MulLe(0, m, n - 1);
      PowerAdd(base, m, m * (n - 1));
      PowerStep(Power(base, m), n);
    }
  }

  lemma {:induction false} FoldBound(base: nat, ws: seq<nat>)
    requires Digits(base, ws) && base > 0
    ensures Fold(base, ws) < Power(base, |ws|)
  {
    if ws != [] {
      var n := |ws| - 1;
      FoldBound(base, ws[..n]);
      MulLe(Fold(base, ws[..n]) + 1, Power(base, n), base);
      assert (Fold(base, ws[..n]) + 1) * base == Fold(base, ws[..n]) * base + base;
      assert Power(base, n) * base == base * Power(base, n);
    }
  }

  /** A number in two parts. */
  lemma {:induction false} FoldAppend(base: nat, s: seq<nat>, t: seq<nat>)
    ensures Fold(base, s + t) == Fold(base, s) * Power(base, |t|) + Fold(base, t)
    decreases |t|
  {
    if t == [] {
      assert s + t == s;
    } else {
      hide Fold, Power;
      var n := |t| - 1;
      FoldAppend(base, s, t[..n]);
      assert (s + t)[..|s + t| - 1] == s + t[..n];
      FoldLast(base, s + t);
      FoldLast(base, t);
      PowerStep(base, |t|);
      Regroup(Fold(base, s), Power(base, n), Fold(base, t[..n]), base);
    }
  }

  lemma FoldLast(base: nat, s: seq<nat>)
    requires s != []
    ensures Fold(base, s) == Fold(base, s[..|s| - 1]) * base + s[|s| - 1]
  {
  }

  lemma Regroup(a: int, p: int, f: int, b: int)
    ensures (a * p + f) * b == a * (b * p) + f * b
  {
    assert (a * p) * b == a * (b * p);
  }

  // ----- order -----

  /** Dictionary order of lists of equal length. */
  predicate Less(s: seq<nat>, t: seq<nat>)
    requires |s| == |t|
  {
    s != [] && (s[0] < t[0] || (s[0] == t[0] && Less(s[1..], t[1..])))
  }

  lemma {:induction false} LessAppend(s: seq<nat>, t: seq<nat>, u: seq<nat>, v: seq<nat>)
    requires |s| == |t| && |u| == |v|
    ensures Less(s + u, t + v) <==> Less(s, t) || (s == t && Less(u, v))
  {
    if s == [] {
      assert s + u == u && t + v == v;
    } else {
      assert (s + u)[1..] == s[1..] + u && (t + v)[1..] == t[1..] + v;
      LessAppend(s[1..], t[1..], u, v);
      assert s == [s[0]] + s[1..] && t == [t[0]] + t[1..];
    }
  }

  lemma {:induction false} LessIrreflexive(s: seq<nat>)
    ensures !Less(s, s)
  {
    if s != [] { LessIrreflexive(s[1..]); }
  }

  /** Numbers of equally many digits are in the order of their digits. */
  lemma {:induction false} FoldOrder(base: nat, s: seq<nat>, t: seq<nat>)
    requires |s| == |t| && Digits(base, s) && Digits(base, t) && base > 0
    ensures Fold(base, s) < Fold(base, t) <==> Less(s, t)
    ensures Fold(base, s) == Fold(base, t) <==> s == t
  {
    if s != [] {
      FoldOrder(base, s[1..], t[1..]);
      FirstDigit(base, s);
      FirstDigit(base, t);
      FoldBound(base, s[1..]);
      FoldBound(base, t[1..]);
      var p := Power(base, |s| - 1);
      if s[0] < t[0] { MulLt(s[0], t[0], p); } else if s[0] > t[0] { MulLt(t[0], s[0], p); }
      assert s == [s[0]] + s[1..] && t == [t[0]] + t[1..];
    }
  }

  lemma FirstDigit(base: nat, s: seq<nat>)
    requires s != [] && base > 0
    ensures Fold(base, s) == s[0] * Power(base, |s| - 1) + Fold(base, s[1..]) && Power(base, |s| - 1) > 0
  {
    assert s == [s[0]] + s[1..];
    FoldAppend(base, [s[0]], s[1..]);
    PowerPositive(base, |s| - 1);
    assert [s[0]][..0] == [];
  }

  // ----- words and their bytes -----

  function NumWords(size: nat): nat { (size + 15) / 16 }

  function PaddedBytes(size: nat): nat { NumWords(size) * 16 - size }

  /** The n bytes of a word, highest first. */
  function BigEndian(n: nat, x: nat): (s: seq<Byte>)
    ensures |s| == n
  {
    if n == 0 then [] else BigEndian(n - 1, x / 256) + [x % 256]
  }

  lemma {:induction false} BigEndianFold(n: nat, x: nat)
    requires x < Power(256, n)
    ensures Fold(256, BigEndian(n, x)) == x
  {
    if n > 0 {
      BigEndianFold(n - 1, x / 256);
      assert BigEndian(n, x)[..n - 1] == BigEndian(n - 1, x / 256);
    }
  }

  lemma {:induction false} FoldBigEndian(s: seq<Byte>)
    ensures BigEndian(|s|, Fold(256, s)) == s
  {
    hide Fold;
    if s != [] {
      var n := |s| - 1;
      FoldBigEndian(s[..n]);
      FoldLast(256, s);
      DivUnique(Fold(256, s), 256, Fold(256, s[..n]), s[n]);
      assert s == s[..n] + [s[n]];
    }
  }

  /** The bytes of all words, one after the other. */
  function BytesOf(n: nat, words: seq<nat>): seq<Byte> {
    if words == [] then [] else BigEndian(n, words[0]) + BytesOf(n, words[1..])
  }

  function Zeros(n: nat): (s: seq<Byte>)
    ensures |s| == n
  {
    seq(n, _ => 0)
  }

  /** The sizes of the words that a key can be built from. */
  predicate WordSize(b: nat) { b == 1 || b == 2 || b == 4 || b == 8 || b == 16 }

  function PerWord(b: nat): (p: nat)
    requires WordSize(b)
    ensures p >= 1 && b * p == 16
  {
    16 / b
  }

  /** What the constructor leaves in the words: full words, and the last one moved up by as many
      bytes as it lacks words. */
  function Packed(b: nat, arr: seq<nat>): seq<nat>
    requires WordSize(b)
    decreases |arr|
  {
    if arr == [] then []
    else if |arr| < PerWord(b) then
      [Product(Product(Fold(Power(256, b), arr), Power(256, b)), Power(256, PerWord(b) - |arr| - 1))]
    else [Fold(Power(256, b), arr[..PerWord(b)])] + Packed(b, arr[PerWord(b)..])
  }

  lemma Powers256()
    ensures Power(256, 1) == 0x100 && Power(256, 2) == 0x1_0000 && Power(256, 4) == 0x1_0000_0000
    ensures Power(256, 8) == 0x1_0000_0000_0000_0000 && Power(256, 16) == U128
  {
    Power256One();
    hide Power;
    PowerAdd(256, 1, 1);
    PowerAdd(256, 2, 2);
    PowerAdd(256, 4, 4);
    PowerAdd(256, 8, 8);
  }

  lemma Power256One()
    ensures Power(256, 1) == 256
  {
  }

  lemma WordPowers(b: nat)
    requires WordSize(b)
    ensures Power(256, b) > 0 && Power(256, 16) == U128 && Power(Power(256, b), PerWord(b)) == U128
  {
    hide Power;
    PowerPositive(256, b);
    PowerOfPower(256, b, PerWord(b));
    Powers256();
  }

  lemma {:induction false} PackedLength(b: nat, arr: seq<nat>)
    requires WordSize(b)
    ensures b * |arr| <= 16 * |Packed(b, arr)| < b * |arr| + 16
    decreases |arr|
  {
    hide Fold, Power, Product;
    var p := PerWord(b);
    if arr == [] {
      assert Packed(b, arr) == [];
    } else if |arr| < p {
      MulLe(1, |arr|, b);
      MulLt(|arr|, p, b);
      assert |Packed(b, arr)| == 1;
    } else {
      PackedLength(b, arr[p..]);
      assert |Packed(b, arr)| == 1 + |Packed(b, arr[p..])|;
      Distribute(b, |arr| - p, p);
    }
  }

  lemma Distribute(b: int, m: int, n: int)
    ensures b * (m + n) == b * m + b * n
  {
  }

  // ----- one word of the key -----

  lemma OneMore(b: nat, n: nat)
    ensures b * n == b + b * (n - 1)
  {
  }

  lemma BytesStep(b: nat, ws: seq<nat>)
    requires ws != []
    ensures BytesOf(b, ws) == BigEndian(b, ws[0]) + BytesOf(b, ws[1..])
  {
  }

  lemma NoBytes(b: nat)
    ensures BytesOf(b, []) == [] && Fold(256, []) == 0 && Fold(Power(256, b), []) == 0 && b * 0 == 0
  {
  }

  /** The bytes of words of b bytes, read together, are the words read in base 256^b. */
  lemma {:induction false} BytesFold(b: nat, ws: seq<nat>)
    requires Digits(Power(256, b), ws)
    ensures |BytesOf(b, ws)| == b * |ws| && Fold(256, BytesOf(b, ws)) == Fold(Power(256, b), ws)
    decreases |ws|
  {
    hide Fold, Power, BigEndian, BytesOf;
    if ws == [] {
      NoBytes(b);
    } else {
      BytesFold(b, ws[1..]);
      BytesStep(b, ws);
      BigEndianFold(b, ws[0]);
      FoldAppend(256, BigEndian(b, ws[0]), BytesOf(b, ws[1..]));
      PowerPositive(256, b);
      FirstDigit(Power(256, b), ws);
      PowerOfPower(256, b, |ws| - 1);
      OneMore(b, |ws|);
    }
  }

  /** A full word holds the bytes of its parts. */
  lemma FullWord(b: nat, ws: seq<nat>)
    requires WordSize(b) && |ws| == PerWord(b) && Digits(Power(256, b), ws)
    ensures BigEndian(16, Fold(Power(256, b), ws)) == BytesOf(b, ws)
  {
    BytesFold(b, ws);
    FoldBigEndian(BytesOf(b, ws));
  }

  lemma {:induction false} FoldZeros(n: nat)
    ensures Fold(256, Zeros(n)) == 0
  {
    if n > 0 {
      FoldZeros(n - 1);
      assert Zeros(n)[..n - 1] == Zeros(n - 1);
    }
  }

  /** Moved up by all the bytes it lacks, a partial word holds its parts and then zeros. */
  lemma PartialWord(b: nat, ws: seq<nat>)
    requires WordSize(b) && |ws| < PerWord(b) && Digits(Power(256, b), ws)
    ensures b * |ws| <= 16
    ensures BigEndian(16, Product(Fold(Power(256, b), ws), Power(256, 16 - b * |ws|)))
            == BytesOf(b, ws) + Zeros(16 - b * |ws|)
  {
    hide Fold, Power, BigEndian, BytesOf;
    MulLt(|ws|, PerWord(b), b);
    var n := 16 - b * |ws|;
    BytesFold(b, ws);
    FoldAppend(256, BytesOf(b, ws), Zeros(n));
    FoldZeros(n);
    FoldBigEndian(BytesOf(b, ws) + Zeros(n));
  }

  // ----- when the key holds the words it was built from -----

  /** The words that do not fill the last word of the key. */
  function Leftover(b: nat, arr: seq<nat>): seq<nat>
    requires WordSize(b)
    decreases |arr|
  {
    if |arr| < PerWord(b) then arr else Leftover(b, arr[PerWord(b)..])
  }

  /** Bytes are always packed right; wider words only when the last word of the key is full, lacks
      one word, or is zero. */
  predicate PacksRight(b: nat, arr: seq<nat>)
    requires WordSize(b)
  {
    var r := Leftover(b, arr);
    b == 1 || r == [] || |r| == PerWord(b) - 1 || forall i :: 0 <= i < |r| ==> r[i] == 0
  }

  lemma {:induction false} FoldIsZero(base: nat, ws: seq<nat>)
    requires base > 0
    ensures Fold(base, ws) == 0 <==> forall i :: 0 <= i < |ws| ==> ws[i] == 0
  {
    if ws != [] {
      var n := |ws| - 1;
      FoldIsZero(base, ws[..n]);
      MulLe(0, Fold(base, ws[..n]), base);
      if Fold(base, ws[..n]) > 0 { MulLe(1, Fold(base, ws[..n]), base); }
    }
  }

  /** The shift of a partial word is the right one exactly for one-byte words, one missing word, or zero. */
  lemma PartialShift(b: nat, f: nat, missing: nat)
    requires WordSize(b) && 1 <= missing < PerWord(b)
    ensures Product(Product(f, Power(256, b)), Power(256, missing - 1)) == Product(f, Power(256, b * missing))
            <==> b == 1 || missing == 1 || f == 0
  {
    hide Power;
    var p, q := Power(256, b), Power(256, missing - 1);
    PowerAdd(256, b, missing - 1);
    assert (f * p) * q == f * (p * q);
    MulLe(1, missing, b);
    if b == 1 || missing == 1 {
      assert b + (missing - 1) == b * missing;
    } else {
      MulLe(2, b, missing - 1);
      assert b * missing == b + b * (missing - 1);
      PowerGrows(b + (missing - 1), b * missing);
      if f > 0 { MulLt(Power(256, b + (missing - 1)), Power(256, b * missing), f); }
    }
  }

  lemma {:induction false} PowerGrows(m: nat, n: nat)
    requires m < n
    ensures Power(256, m) < Power(256, n)
  {
    PowerPositive(256, n - 1);
    if m < n - 1 { PowerGrows(m, n - 1); }
  }

  lemma {:induction false} BytesAppend(b: nat, s: seq<nat>, t: seq<nat>)
    ensures BytesOf(b, s + t) == BytesOf(b, s) + BytesOf(b, t)
  {
    if s == [] {
      assert s + t == t;
    } else {
      assert (s + t)[1..] == s[1..] + t;
      BytesAppend(b, s[1..], t);
    }
  }

  lemma {:induction false} BytesLength(b: nat, ws: seq<nat>)
    ensures |BytesOf(b, ws)| == b * |ws|
  {
    if ws != [] {
      BytesLength(b, ws[1..]);
      assert b * |ws| == b + b * (|ws| - 1);
    }
  }

  lemma SameWord(x: nat, y: nat)
    requires x < U128 && y < U128
    ensures BigEndian(16, x) == BigEndian(16, y) <==> x == y
  {
    Powers256();
    BigEndianFold(16, x);
    BigEndianFold(16, y);
  }

  lemma PartialRange(b: nat, ws: seq<nat>)
    requires WordSize(b) && 0 < |ws| < PerWord(b) && Digits(Power(256, b), ws)
    ensures b * |ws| <= 16
    ensures Product(Fold(Power(256, b), ws), Power(256, 16 - b * |ws|)) < U128
    ensures Product(Product(Fold(Power(256, b), ws), Power(256, b)), Power(256, PerWord(b) - |ws| - 1)) < U128
  {
    hide Power, Fold, Digits, PerWord;
    var f, m := Fold(Power(256, b), ws), PerWord(b) - |ws|;
    MissingBytes(b, |ws|);
    PowerPositive(256, b);
    FoldBound(Power(256, b), ws);
    PowerOfPower(256, b, |ws|);
    ShiftRange(f, b * |ws|);
    ShiftLess(f, b, m);
    ShiftTwice(f, b, m - 1);
  }

  lemma ShiftLess(f: nat, b: nat, m: nat)
    requires b >= 1 && m >= 1
    ensures b * m >= 0 && f * Power(256, b + (m - 1)) <= f * Power(256, b * m)
  {
    hide Power;
    SmallerShift(b, m);
    MulLe(Power(256, b + (m - 1)), Power(256, b * m), f);
  }

  lemma MissingBytes(b: nat, n: nat)
    requires WordSize(b) && n <= PerWord(b)
    ensures 0 <= b * (PerWord(b) - n) == 16 - b * n <= 16
  {
    MulLe(0, PerWord(b) - n, b);
    MulLe(0, n, b);
  }

  lemma ShiftRange(f: nat, n: nat)
    requires n <= 16 && f < Power(256, n)
    ensures f * Power(256, 16 - n) < U128
  {
    hide Power;
    PowerAdd(256, n, 16 - n);
    Powers256();
    PowerPositive(256, 16 - n);
    MulLt(f, Power(256, n), Power(256, 16 - n));
  }

  lemma ShiftTwice(f: nat, b: nat, n: nat)
    ensures Product(Product(f, Power(256, b)), Power(256, n)) == f * Power(256, b + n)
  {
    hide Power;
    PowerAdd(256, b, n);
    Associate(f, Power(256, b), Power(256, n));
  }

  lemma SmallerShift(b: nat, m: nat)
    requires b >= 1 && m >= 1
    ensures Power(256, b + (m - 1)) <= Power(256, b * m)
  {
    assert b * m == b + (m - 1) + (b - 1) * (m - 1);
    MulLe(0, b - 1, m - 1);
    if b + (m - 1) < b * m { PowerGrows(b + (m - 1), b * m); }
  }

  /** The key's bytes are the words' bytes and then zeros, exactly when the words pack right. */
  lemma {:induction false} PackedBytes(b: nat, arr: seq<nat>)
    requires WordSize(b) && Digits(Power(256, b), arr)
    ensures 16 * |Packed(b, arr)| >= b * |arr|
    ensures BytesOf(16, Packed(b, arr)) == BytesOf(b, arr) + Zeros(16 * |Packed(b, arr)| - b * |arr|)
            <==> PacksRight(b, arr)
    decreases |arr|
  {
    hide Fold, Power, BigEndian, BytesOf, Packed, Digits;
    var p := PerWord(b);
    PackedLength(b, arr);
    if arr == [] {
      NothingPacked(b);
    } else if |arr| < p {
      LastWord(b, arr);
    } else {
      DigitsFrom(Power(256, b), arr, p);
      PackedBytes(b, arr[p..]);
      FirstFull(b, arr);
      SamePrefix(BytesOf(b, arr[..p]), BytesOf(16, Packed(b, arr[p..])), BytesOf(b, arr[p..]),
                 Zeros(16 * |Packed(b, arr)| - b * |arr|));
    }
  }

  lemma NothingPacked(b: nat)
    requires WordSize(b)
    ensures b * 0 == 0 && |Packed(b, [])| == 0 && PacksRight(b, [])
    ensures BytesOf(16, Packed(b, [])) == BytesOf(b, []) + Zeros(0)
  {
    assert BytesOf(b, []) + Zeros(0) == [];
  }

  /** A full word comes first, whatever follows it. */
  lemma FirstFull(b: nat, arr: seq<nat>)
    requires WordSize(b) && |arr| >= PerWord(b) && Digits(Power(256, b), arr)
    ensures var p := PerWord(b);
            && |Packed(b, arr)| == 1 + |Packed(b, arr[p..])| && b * |arr| == b * |arr[p..]| + 16
            && BytesOf(16, Packed(b, arr)) == BytesOf(b, arr[..p]) + BytesOf(16, Packed(b, arr[p..]))
            && BytesOf(b, arr) == BytesOf(b, arr[..p]) + BytesOf(b, arr[p..])
            && (PacksRight(b, arr) <==> PacksRight(b, arr[p..]))
  {
    hide Fold, Power, BigEndian;
    var p := PerWord(b);
    FullWord(b, arr[..p]);
    BytesStep(16, Packed(b, arr));
    assert Packed(b, arr)[1..] == Packed(b, arr[p..]);
    assert arr == arr[..p] + arr[p..];
    BytesAppend(b, arr[..p], arr[p..]);
    Distribute(b, |arr| - p, p);
  }

  lemma SamePrefix(a: seq<Byte>, x: seq<Byte>, y: seq<Byte>, z: seq<Byte>)
    ensures a + x == (a + y) + z <==> x == y + z
  {
    assert (a + y) + z == a + (y + z);
    assert (a + x)[|a|..] == x && (a + (y + z))[|a|..] == y + z;
  }

  lemma LastWord(b: nat, ws: seq<nat>)
    requires WordSize(b) && 0 < |ws| < PerWord(b) && Digits(Power(256, b), ws)
    ensures |Packed(b, ws)| == 1 && b * |ws| <= 16
    ensures BytesOf(16, Packed(b, ws)) == BytesOf(b, ws) + Zeros(16 - b * |ws|) <==> PacksRight(b, ws)
  {
    hide Fold, Power, BigEndian, Product;
    var f, m := Fold(Power(256, b), ws), PerWord(b) - |ws|;
    PartialRange(b, ws);
    PartialWord(b, ws);
    PartialShift(b, f, m);
    assert b * m == 16 - b * |ws|;
    PowerPositive(256, b);
    FoldIsZero(Power(256, b), ws);
    var right, packed := Product(f, Power(256, b * m)), Product(Product(f, Power(256, b)), Power(256, m - 1));
    SameWord(packed, right);
    assert BytesOf(16, [packed]) == BigEndian(16, packed) + BytesOf(16, []);
    assert BigEndian(16, packed) + [] == BigEndian(16, packed);
  }

  // ----- the class -----

  /** A shift to the left in 128 bits, by a power of two. */
  function ShiftUp(x: nat, power: nat): nat {
    MulLe(0, x, power);
    (x * power) % U128
  }

  lemma ShiftFits(x: nat, power: nat)
    requires x * power < U128
    ensures ShiftUp(x, power) == Product(x, power)
  {
    MulLe(0, x, power);
    DivUnique(x * power, U128, 0, x * power);
  }

  class Key {
    const size: nat
    const data: array<nat>

    ghost predicate Valid()
      reads data
    {
      data.Length == NumWords(size) && forall k :: 0 <= k < data.Length ==> data[k] < U128
    }

    /** The default constructor sets all bytes to zero. */
    constructor (size: nat)
      ensures this.size == size && Valid() && fresh(data) && forall k :: 0 <= k < data.Length ==> data[k] == 0
    {
      this.size := size;
      this.data := new nat[NumWords(size)](_ => 0);
    }

    method SetFromWordSequence(b: nat, arr: seq<nat>)
      requires Valid() && WordSize(b) && Digits(Power(256, b), arr) && b * |arr| <= size
      modifies data
      ensures Valid() && |Packed(b, arr)| <= data.Length
      ensures data[..] == Packed(b, arr) + old(data[|Packed(b, arr)|..])
    {
      hide Fold, Power, Product, Digits, Packed, ShiftUp;
      PackedFits(b, arr, size);
      WordPowers(b);
      var base := Power(256, b);
      var numSubWords := PerWord(b);
      var itr, tempWord := 0, 0;
      var left: int := numSubWords;
      var i := 0;
      ghost var start := 0;
      ghost var before := data[..];
      EmptyPart(b);
      assert arr[0..] == arr && data[..0] == [] && arr[0..0] == [];
      while i < |arr|
        invariant 0 <= start <= i <= |arr| && i == start + (numSubWords - left) && 1 <= left <= numSubWords
        invariant tempWord == Product(Fold(base, arr[start..i]), base)
        invariant itr + |Packed(b, arr[start..])| == |Packed(b, arr)|
        invariant data[..itr] + Packed(b, arr[start..]) == Packed(b, arr) && data[itr..] == before[itr..]
        invariant Valid()
      {
        NextPart(b, arr, start, i);
        tempWord := tempWord + arr[i];
        if left > 1 {
          tempWord := ShiftUp(tempWord, base);
          left := left - 1;
          i := i + 1;
        } else {
          left := numSubWords;
          FullPart(b, arr, start);
          Stored(data[..itr], tempWord, Packed(b, arr[i + 1..]));
          data[itr] := tempWord;
          i := i + 1;
          start := i;
          tempWord := 0;
          itr := itr + 1;
          assert arr[start..i] == [];
        }
      }
      assert arr[start..i] == arr[start..];
      DigitsFrom(base, arr, start);
      if left != numSubWords {
        LastPart(b, arr[start..]);
        StoreLast(b, arr[start..], itr, tempWord, left);
      } else {
        EmptyPart(b);
      }
    }

    /** The word that was not filled. */
    method StoreLast(b: nat, ghost ws: seq<nat>, itr: nat, temp: nat, left: nat)
      requires Valid() && WordSize(b) && Digits(Power(256, b), ws) && 0 < |ws| < PerWord(b) && left == PerWord(b) - |ws|
      requires itr < data.Length && temp == Product(Fold(Power(256, b), ws), Power(256, b))
      modifies data
      ensures Valid() && |Packed(b, ws)| == 1 && data[..] == old(data[..itr]) + Packed(b, ws) + old(data[itr + 1..])
    {
      hide Fold, Power, Product, Digits, Packed, PerWord, ShiftUp;
      LastPart(b, ws);
      var tempWord := temp;
      if left > 1 { tempWord := ShiftUp(tempWord, Power(256, left - 1)); }
      data[itr] := tempWord;
    }

    /** The bytes of the words, without the padding of the last one. */
    method ExtractAsByteArray() returns (arr: array<Byte>)
      requires Valid()
      ensures fresh(arr) && arr.Length == size && size <= |BytesOf(16, data[..])|
      ensures arr[..] == BytesOf(16, data[..])[..size]
    {
      hide BytesOf, BigEndian;
      BytesLength(16, data[..]);
      arr := new Byte[size](_ => 0);
      var at, k, counter := 0, 0, data.Length;
      ghost var whole := BytesOf(16, data[..]);
      assert data[..][0..] == data[..];
      while counter > 0
        invariant counter == data.Length - k && k <= data.Length && at == 16 * k
        invariant at <= |whole| && BytesOf(16, data[..][k..]) == whole[at..]
        invariant if counter == 0 then arr[..] == whole[..size] else at <= size && arr[..at] == whole[..at]
      {
        var left := 16;
        var word := data[k];
        WordBytes(data[..], k, whole, at);
        if counter == 1 {
          left := left - PaddedBytes(size);
          PowerPositive(256, PaddedBytes(size));
          word := word / Power(256, PaddedBytes(size));
        }
        WordShifted(data[k], 16 - left);
        SizeParts(size);
        WriteWord(arr, at, left, word);
        Joined(arr[..], whole, at, left);
        at := at + 16;
        k := k + 1;
        counter := counter - 1;
      }
    }

    /** The inner loop: the bytes of a word from the last one back. */
    method WriteWord(arr: array<Byte>, at: nat, n: nat, w: nat)
      requires at + n <= arr.Length
      modifies arr
      ensures arr[at..at + n] == BigEndian(n, w) && arr[..at] == old(arr[..at]) && arr[at + n..] == old(arr[at + n..])
    {
      var left, word := n, w;
      ghost var done: seq<Byte> := [];
      while left > 0
        invariant 0 <= left <= n && |done| == n - left && word >= 0
        invariant BigEndian(left, word) + done == BigEndian(n, w)
        invariant arr[at + left..at + n] == done && arr[..at] == old(arr[..at]) && arr[at + n..] == old(arr[at + n..])
      {
        arr[at + left - 1] := word % 256;
        assert BigEndian(left, word) + done == BigEndian(left - 1, word / 256) + ([word % 256] + done);
        done := [word % 256] + done;
        word := word / 256;
        left := left - 1;
      }
      assert BigEndian(0, word) + done == done;
    }
  }

  lemma SizeParts(size: nat)
    ensures size > 0 ==> 16 * (NumWords(size) - 1) < size
    ensures size <= 16 * NumWords(size) && PaddedBytes(size) < 16 && PaddedBytes(size) == 16 * NumWords(size) - size
  {
  }

  lemma Joined(a: seq<Byte>, w: seq<Byte>, at: nat, n: nat)
    requires at + n <= |a| && at + 16 <= |w| && n <= 16 && a[..at] == w[..at] && a[at..at + n] == w[at..at + 16][..n]
    ensures a[..at + n] == w[..at + n]
  {
    assert a[..at + n] == a[..at] + a[at..at + n];
    assert w[at..at + 16][..n] == w[at..at + n];
    assert w[..at + n] == w[..at] + w[at..at + n];
  }

  lemma WordBytes(words: seq<nat>, k: nat, whole: seq<Byte>, at: nat)
    requires k < |words| && at <= |whole| && BytesOf(16, words[k..]) == whole[at..]
    ensures at + 16 <= |whole| && whole[at..at + 16] == BigEndian(16, words[k])
    ensures BytesOf(16, words[k + 1..]) == whole[at + 16..]
  {
    assert words[k..][0] == words[k] && words[k..][1..] == words[k + 1..];
    assert whole[at..][..16] == BigEndian(16, words[k]) && whole[at..][16..] == BytesOf(16, words[k + 1..]);
  }

  /** Shifting a word right drops its last bytes. */
  lemma {:induction false} WordShifted(w: nat, p: nat)
    requires p <= 16
    ensures Power(256, p) > 0 && w / Power(256, p) >= 0
    ensures BigEndian(16 - p, w / Power(256, p)) == BigEndian(16, w)[..16 - p]
  {
    PowerPositive(256, p);
    DivNonneg(w, Power(256, p));
    DropBytes(16, w, p);
  }

  lemma {:induction false} DropBytes(n: nat, w: nat, p: nat)
    requires p <= n && Power(256, p) > 0 && w / Power(256, p) >= 0
    ensures BigEndian(n - p, w / Power(256, p)) == BigEndian(n, w)[..n - p]
    decreases p
  {
    if p > 0 {
      PowerPositive(256, p - 1);
      DivNonneg(w / 256, Power(256, p - 1));
      DropBytes(n - 1, w / 256, p - 1);
      DivOfDiv(w, Power(256, p - 1));
      PowerStep(256, p);
    } else {
      PowerZero(256);
      DivUnique(w, 1, w, 0);
    }
  }

  lemma DivOfDiv(w: nat, d: nat)
    requires d > 0
    ensures (w / 256) / d == w / (256 * d)
  {
    var q, r := w / 256, w % 256;
    DivNonneg(q, d);
    var h, x := q / d, q % d;
    assert q == h * d + x;
    assert 256 * (h * d) == h * (256 * d);
    DivUnique(w, 256 * d, h, 256 * x + r);
  }

  lemma DigitsFrom(base: nat, ws: seq<nat>, start: nat)
    requires Digits(base, ws) && start <= |ws|
    ensures Digits(base, ws[start..])
  {
  }

  lemma PackedFits(b: nat, arr: seq<nat>, size: nat)
    requires WordSize(b) && b * |arr| <= size
    ensures |Packed(b, arr)| <= NumWords(size)
    ensures b == 1 && |arr| == size ==> |Packed(b, arr)| == NumWords(size)
  {
    hide Packed;
    PackedLength(b, arr);
  }

  lemma EmptyPart(b: nat)
    requires WordSize(b)
    ensures Product(Fold(Power(256, b), []), Power(256, b)) == 0 && Packed(b, []) == []
  {
  }

  lemma Stored(done: seq<nat>, word: nat, rest: seq<nat>)
    ensures done + ([word] + rest) == (done + [word]) + rest
  {
  }

  /** Taking one more part into the word loses nothing. */
  lemma NextPart(b: nat, arr: seq<nat>, start: nat, i: nat)
    requires WordSize(b) && Digits(Power(256, b), arr) && start <= i < |arr| && i - start < PerWord(b)
    ensures Product(Fold(Power(256, b), arr[start..i]), Power(256, b)) + arr[i]
            == Fold(Power(256, b), arr[start..i + 1]) < U128
    ensures i + 1 - start < PerWord(b) ==>
              ShiftUp(Fold(Power(256, b), arr[start..i + 1]), Power(256, b))
                == Product(Fold(Power(256, b), arr[start..i + 1]), Power(256, b))
  {
    hide Fold, Power;
    var base, ws := Power(256, b), arr[start..i + 1];
    FoldLast(base, ws);
    assert ws[..|ws| - 1] == arr[start..i];
    PowerPositive(256, b);
    FoldBound(base, ws);
    WordPowers(b);
    PowerLe(base, |ws|, PerWord(b));
    if |ws| < PerWord(b) {
      MulLt(Fold(base, ws), Power(base, |ws|), base);
      PowerStep(base, |ws| + 1);
      PowerLe(base, |ws| + 1, PerWord(b));
      assert Power(base, |ws|) * base == base * Power(base, |ws|);
      ShiftFits(Fold(base, ws), base);
    }
  }

  lemma {:induction false} PowerLe(base: nat, m: nat, n: nat)
    requires m <= n && base > 0
    ensures Power(base, m) <= Power(base, n)
    decreases n
  {
    if m < n {
      PowerLe(base, m, n - 1);
      PowerPositive(base, n - 1);
      MulLe(1, base, Power(base, n - 1));
    }
  }

  lemma FullPart(b: nat, arr: seq<nat>, start: nat)
    requires WordSize(b) && start + PerWord(b) <= |arr|
    ensures Packed(b, arr[start..])
            == [Fold(Power(256, b), arr[start..start + PerWord(b)])] + Packed(b, arr[start + PerWord(b)..])
  {
    hide Fold, Power;
    var p := PerWord(b);
    assert arr[start..][..p] == arr[start..start + p] && arr[start..][p..] == arr[start + p..];
  }

  lemma LastPart(b: nat, ws: seq<nat>)
    requires WordSize(b) && Digits(Power(256, b), ws) && 0 < |ws| < PerWord(b)
    ensures var t := Product(Fold(Power(256, b), ws), Power(256, b));
            var m := PerWord(b) - |ws| - 1;
            && Packed(b, ws) == [if m == 0 then t else ShiftUp(t, Power(256, m))]
            && (if m == 0 then t else ShiftUp(t, Power(256, m))) < U128
  {
    hide Power, Fold, Digits, ShiftUp;
    PartialRange(b, ws);
    PowerZero(256);
    var t, m := Product(Fold(Power(256, b), ws), Power(256, b)), PerWord(b) - |ws| - 1;
    ShiftFits(t, Power(256, m));
    assert t * 1 == t;
  }

  // ----- round trip and order -----

  /** Bytes are words of one byte. */
  lemma {:induction false} BytesAreWords(s: seq<Byte>)
    ensures Digits(Power(256, 1), s) && BytesOf(1, s) == s
  {
    Power256One();
    if s != [] {
      BytesAreWords(s[1..]);
      assert BigEndian(1, s[0]) == BigEndian(0, s[0] / 256) + [s[0] % 256] == [s[0]];
      assert s == [s[0]] + s[1..];
    }
  }

  /** A key built from bytes holds them, in the words of a key of that size, and zeros as padding. */
  lemma BytesRoundTrip(s: seq<Byte>)
    ensures Digits(Power(256, 1), s)
    ensures |Packed(1, s)| == NumWords(|s|)
    ensures BytesOf(16, Packed(1, s)) == s + Zeros(PaddedBytes(|s|))
    ensures BytesOf(16, Packed(1, s))[..|s|] == s
  {
    BytesAreWords(s);
    PackedBytes(1, s);
    PackedFits(1, s, |s|);
  }

  /** Building and extracting as the class does it. */
  method RoundTrip(s: seq<Byte>) returns (arr: array<Byte>)
    ensures arr[..] == s
  {
    BytesRoundTrip(s);
    var key := new Key(|s|);
    key.SetFromWordSequence(1, s);
    assert key.data[..] == Packed(1, s);
    arr := key.ExtractAsByteArray();
  }

  /** The words of two keys are in the order of their bytes. */
  lemma {:induction false} WordOrder(v: seq<nat>, w: seq<nat>)
    requires |v| == |w| && (forall k :: 0 <= k < |v| ==> v[k] < U128) && (forall k :: 0 <= k < |w| ==> w[k] < U128)
    ensures |BytesOf(16, v)| == |BytesOf(16, w)|
    ensures Less(v, w) <==> Less(BytesOf(16, v), BytesOf(16, w))
    ensures v == w <==> BytesOf(16, v) == BytesOf(16, w)
  {
    hide BigEndian;
    BytesLength(16, v);
    BytesLength(16, w);
    if v != [] {
      WordOrder(v[1..], w[1..]);
      var a, b := BigEndian(16, v[0]), BigEndian(16, w[0]);
      OneWordOrder(v[0], w[0]);
      LessAppend(a, b, BytesOf(16, v[1..]), BytesOf(16, w[1..]));
      assert v == [v[0]] + v[1..] && w == [w[0]] + w[1..];
      assert BytesOf(16, v)[..16] == a && BytesOf(16, w)[..16] == b;
      assert BytesOf(16, v)[16..] == BytesOf(16, v[1..]) && BytesOf(16, w)[16..] == BytesOf(16, w[1..]);
    }
  }

  lemma OneWordOrder(x: nat, y: nat)
    requires x < U128 && y < U128
    ensures x < y <==> Less(BigEndian(16, x), BigEndian(16, y))
    ensures x == y <==> BigEndian(16, x) == BigEndian(16, y)
  {
    hide Less, Power;
    Powers256();
    BigEndianFold(16, x);
    BigEndianFold(16, y);
    FoldOrder(256, BigEndian(16, x), BigEndian(16, y));
  }

  /** Comparing keys compares the bytes they were built from, dictionary fashion; equality too. */
  lemma KeyOrder(s: seq<Byte>, t: seq<Byte>)
    requires |s| == |t|
    ensures |Packed(1, s)| == |Packed(1, t)|
    ensures Less(Packed(1, s), Packed(1, t)) <==> Less(s, t)
    ensures Packed(1, s) == Packed(1, t) <==> s == t
  {
    hide Less, BytesOf, Packed, Fold, Power;
    BytesRoundTrip(s);
    BytesRoundTrip(t);
    PackedRange(1, s);
    PackedRange(1, t);
    WordOrder(Packed(1, s), Packed(1, t));
    var z := Zeros(PaddedBytes(|s|));
    LessAppend(s, t, z, z);
    LessIrreflexive(z);
    assert (s + z)[..|s|] == s && (t + z)[..|t|] == t;
  }

  lemma {:induction false} PackedRange(b: nat, arr: seq<nat>)
    requires WordSize(b) && Digits(Power(256, b), arr)
    ensures forall k :: 0 <= k < |Packed(b, arr)| ==> Packed(b, arr)[k] < U128
    decreases |arr|
  {
    hide Fold, Power, Product;
    var p := PerWord(b);
    if arr == [] {
    } else if |arr| < p {
      PartialRange(b, arr);
    } else {
      PackedRange(b, arr[p..]);
      WordPowers(b);
      FoldBound(Power(256, b), arr[..p]);
    }
  }

  /** Any two keys of one size compare as all their bytes do; as the extracted bytes do when the
      padding is zero. */
  lemma ExtractedOrder(size: nat, v: seq<nat>, w: seq<nat>)
    requires |v| == NumWords(size) && |w| == NumWords(size)
    requires (forall k :: 0 <= k < |v| ==> v[k] < U128) && (forall k :: 0 <= k < |w| ==> w[k] < U128)
    requires |BytesOf(16, v)| >= size && BytesOf(16, v)[size..] == Zeros(PaddedBytes(size))
    requires |BytesOf(16, w)| >= size && BytesOf(16, w)[size..] == Zeros(PaddedBytes(size))
    ensures Less(v, w) <==> Less(BytesOf(16, v)[..size], BytesOf(16, w)[..size])
    ensures v == w <==> BytesOf(16, v)[..size] == BytesOf(16, w)[..size]
  {
    hide Less, BytesOf;
    WordOrder(v, w);
    var a, b, z := BytesOf(16, v), BytesOf(16, w), Zeros(PaddedBytes(size));
    LessAppend(a[..size], b[..size], z, z);
    LessIrreflexive(z);
    assert a == a[..size] + z && b == b[..size] + z;
  }
}
