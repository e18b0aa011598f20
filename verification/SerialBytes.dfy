/** What the bytes of the format are, one by one, and what the order of set and map keys is. */
module SerialBytes {
  import opened Options
  import opened PowersOfTwo
  import opened SerialFormat

  // ----- integers -----

  /** The digit of n at place i in a base. For a negative n it is that of its two's complement. */
  function DigitAt(n: int, base: nat, i: nat): int
    requires base > 0
  {
    PowerPositive(base, i);
    (n / Power(base, i)) % base
  }

  /** Shifting out the lowest digit moves the others down. */
  lemma DigitMoves(n: int, base: nat, i: nat)
    requires base > 0 && i > 0
    ensures DigitAt(n, base, i) == DigitAt(n / base, base, i - 1)
  {
    hide Power;
    PowerPositive(base, i - 1);
    PowerStep(base, i);
    QuotientTwice(n, base, Power(base, i - 1));
  }

  lemma QuotientTwice(n: int, b: nat, p: nat)
    requires b > 0 && p > 0
    ensures b * p > 0 && n / (b * p) == (n / b) / p
  {
    var q, r := n / b, n % b;
    var h, s := q / p, q % p;
    MulLt(0, b, p);
    MulLt(s, p, b);
    assert n == h * (b * p) + (s * b + r) by {
      assert n == q * b + r && q == h * p + s;
      assert (h * p + s) * b == h * (b * p) + s * b;
    }
    MulLe(0, s, b);
    DivUnique(n, b * p, h, s * b + r);
  }

  lemma FirstDigitIs(n: int, base: nat)
    requires base > 0
    ensures DigitAt(n, base, 0) == n % base
  {
    PowerZero(base);
    DivUnique(n, 1, n, 0);
  }

  lemma {:induction false} LittleEndianAt(w: nat, n: nat, i: nat)
    requires i < w
    ensures LittleEndian(w, n)[i] == DigitAt(n, 256, i)
  {
    hide DigitAt;
    if i == 0 {
      FirstDigitIs(n, 256);
    } else {
      LittleEndianAt(w - 1, n / 256, i - 1);
      DigitMoves(n, 256, i);
    }
  }

  /** Adding a multiple of the whole width changes no digit. */
  lemma {:induction false} DigitPeriod(n: int, base: nat, w: nat, i: nat)
    requires base > 0 && i < w
    ensures DigitAt(n + Power(base, w), base, i) == DigitAt(n, base, i)
    decreases i
  {
    hide Power, DigitAt;
    var q, r := n / base, n % base;
    PowerStep(base, w);
    assert n + Power(base, w) == (q + Power(base, w - 1)) * base + r;
    DivUnique(n + Power(base, w), base, q + Power(base, w - 1), r);
    if i == 0 {
      FirstDigitIs(n, base);
      FirstDigitIs(n + Power(base, w), base);
    } else {
      DigitMoves(n, base, i);
      DigitMoves(n + Power(base, w), base, i);
      DigitPeriod(q, base, w - 1, i - 1);
    }
  }

  /** An integer takes its width, the lowest byte first, negative ones in two's complement. */
  lemma IntegerBytes(w: nat, signed: bool, n: int, i: nat)
    requires HasType(Integer(w, signed), Num(n)) && i < w
    ensures |Encode(Integer(w, signed), Num(n))| == w
    ensures Encode(Integer(w, signed), Num(n))[i] == DigitAt(n, 256, i)
  {
    hide LittleEndian, DigitAt, Power;
    LittleEndianAt(w, WordOf(w, signed, n), i);
    if n < 0 { DigitPeriod(n, 256, w, i); }
  }

  // ----- varints -----

  /** Seven bits a byte, low bits first, and the top bit set on all bytes but the last. */
  lemma {:induction false} VarByte(n: nat, i: nat)
    requires i < |VarBytes(n)|
    ensures VarBytes(n)[i] % 128 == DigitAt(n, 128, i)
    ensures VarBytes(n)[i] >= 128 <==> i + 1 < |VarBytes(n)|
    decreases i
  {
    hide DigitAt;
    if i == 0 {
      FirstDigitIs(n, 128);
      VarHead(n);
    } else {
      VarByte(n / 128, i - 1);
      DigitMoves(n, 128, i);
    }
  }

  lemma VarHead(n: nat)
    ensures VarBytes(n)[0] % 128 == n % 128 && (VarBytes(n)[0] >= 128 <==> |VarBytes(n)| > 1)
  {
  }

  /** No more bytes than the number needs. */
  lemma {:induction false} VarLength(n: nat, l: nat)
    ensures l >= 1 ==> (n < Power(128, l) <==> |VarBytes(n)| <= l)
    decreases l
  {
    if l >= 1 {
      hide Power;
      PowerStep(128, l);
      if l == 1 {
        PowerZero(128);
        VarOne(n);
      } else {
        VarLength(n / 128, l - 1);
        QuotientLess(n, 128, Power(128, l - 1));
        VarMore(n);
        if n < 128 {
          PowerPositive(128, l - 1);
          MulLe(1, Power(128, l - 1), 128);
        }
      }
    }
  }

  lemma VarOne(n: nat)
    ensures n < 128 <==> |VarBytes(n)| <= 1
  {
  }

  lemma VarMore(n: nat)
    ensures |VarBytes(n)| == if n < 128 then 1 else 1 + |VarBytes(n / 128)|
  {
  }

  lemma QuotientLess(n: nat, b: nat, p: nat)
    requires b > 0
    ensures n / b < p <==> n < b * p
  {
    var q, r := n / b, n % b;
    assert n == q * b + r;
    if q < p { MulLt(q, p, b); } else { MulLe(p, q, b); }
  }

  /** Whatever bytes are read as a number, its own code is not longer. */
  lemma VarShortest(bytes: seq<Byte>)
    ensures var r := DecodeVar(bytes);
            r.Some? ==> |r.value.1| < |bytes| && |VarBytes(r.value.0)| <= |bytes| - |r.value.1|
  {
    ReadBound(bytes, 1, 0);
    var r := DecodeVar(bytes);
    if r.Some? { VarLength(r.value.0, |bytes| - |r.value.1|); }
  }

  lemma {:induction false} ReadBound(bytes: seq<Byte>, m: nat, v: nat)
    requires m > 0 && v < m
    ensures var r := ReadVar(bytes, m, v);
            r.Some? ==> |r.value.1| < |bytes| && r.value.0 < m * Power(128, |bytes| - |r.value.1|)
    decreases |bytes|
  {
    hide Power;
    if bytes != [] {
      var c, v' := bytes[0] % 128, v + ((bytes[0] % 128) * m) % U32;
      MulLe(0, c, m);
      MulLe(c + 1, 128, m);
      assert (c + 1) * m == c * m + m;
      Below(c * m);
      Below(v');
      if bytes[0] < 128 {
        PowerStep(128, 1);
        PowerZero(128);
      } else if m < 0x1000_0000 {
        ReadBound(bytes[1..], m * 128, v');
        var r := ReadVar(bytes[1..], m * 128, v');
        if r.Some? {
          var k := |bytes| - |r.value.1|;
          PowerStep(128, k);
          Associate(m, 128, Power(128, k - 1));
        }
      }
    }
  }

  lemma Below(x: nat)
    ensures x % U32 <= x
  {
  }

  // ----- signed varints -----

  function Abs(n: int): nat { if n < 0 then -n else n }

  /** The codes go outward from zero: 0, -1, 1, -2, 2 and so on. */
  lemma ZigZagOrder(i: int, j: int)
    ensures ZigZag(i) < ZigZag(j) <==> Abs(i) < Abs(j) || (Abs(i) == Abs(j) && i < j)
  {
  }

  // ----- what any bytes are read as -----

  /** The low seven bits of the first k bytes, put together. */
  function Bits(bytes: seq<Byte>, k: nat): nat
    requires k <= |bytes|
  {
    if k == 0 then 0 else Bits(bytes, k - 1) + Product(bytes[k - 1] % 128, Power(128, k - 1))
  }

  /** The last byte of a varint is the first one without the top bit. */
  predicate EndsAt(bytes: seq<Byte>, k: nat) {
    0 < k <= |bytes| && bytes[k - 1] < 128 && forall i :: 0 <= i < k - 1 ==> bytes[i] >= 128
  }

  /** Any bytes are read as a number exactly when one of the first five has no top bit; the bits up to
      there, as a 32-bit word, are the number, and what follows is left. */
  lemma VarRead(bytes: seq<Byte>, k: nat)
    requires EndsAt(bytes, k)
    ensures var r := DecodeVar(bytes);
            if k > 5 then r == None
            else r.Some? && r.value.0 == Bits(bytes, k) % 0x1_0000_0000 && r.value.1 == bytes[k..]
  {
    PowerZero(128);
    ReadFrom(bytes, k, 0, 1, 0);
    assert bytes[0..] == bytes;
  }

  lemma VarUnread(bytes: seq<Byte>)
    requires forall k: nat :: !EndsAt(bytes, k)
    ensures DecodeVar(bytes) == None
  {
    forall i | 0 <= i < |bytes| ensures bytes[i] >= 128 { NoEnd(bytes, i); }
    NeverEnds(bytes, 1, 0);
  }

  lemma {:induction false} NoEnd(bytes: seq<Byte>, i: nat)
    requires i < |bytes| && forall k: nat :: !EndsAt(bytes, k)
    ensures forall j :: 0 <= j <= i ==> bytes[j] >= 128
  {
    if i > 0 { NoEnd(bytes, i - 1); }
    assert !EndsAt(bytes, i + 1);
  }

  lemma {:induction false} NeverEnds(bytes: seq<Byte>, m: nat, v: nat)
    requires forall i :: 0 <= i < |bytes| ==> bytes[i] >= 128
    ensures ReadVar(bytes, m, v) == None
    decreases |bytes|
  {
    if bytes != [] && m < 0x1000_0000 {
      NeverEnds(bytes[1..], m * 128, v + ((bytes[0] % 128) * m) % U32);
    }
  }

  /** Reading on at byte i, when the bits before it make up v modulo 2^32. */
  lemma {:induction false} ReadFrom(bytes: seq<Byte>, k: nat, i: nat, m: nat, v: nat)
    requires EndsAt(bytes, k) && i < k && i <= 4 && m == Power(128, i) && v % U32 == Bits(bytes, i) % U32
    ensures var r := ReadVar(bytes[i..], m, v);
            if k > 5 then r == None
            else r.Some? && r.value.0 == Bits(bytes, k) % U32 && r.value.1 == bytes[k..]
    decreases k - i
  {
    hide Power;
    SmallPowers128();
    MulLe(0, bytes[i] % 128, m);
    var x := (bytes[i] % 128) * m;
    var v' := v + x % U32;
    SumOfRests(v, Bits(bytes, i), x);
    assert bytes[i..][0] == bytes[i] && bytes[i..][1..] == bytes[i + 1..];
    if i + 1 < k && i < 4 {
      PowerStep(128, i + 1);
      ReadFrom(bytes, k, i + 1, m * 128, v');
    }
  }

  lemma SmallPowers128()
    ensures Power(128, 0) == 1 && Power(128, 1) == 0x80 && Power(128, 2) == 0x4000
    ensures Power(128, 3) == 0x20_0000 && Power(128, 4) == 0x1000_0000
  {
    hide Power;
    PowerZero(128);
    PowerStep(128, 1);
    PowerStep(128, 2);
    PowerStep(128, 3);
    PowerStep(128, 4);
  }

  lemma SumOfRests(v: nat, b: nat, x: nat)
    requires v % U32 == b % U32
    ensures (v + x % U32) % U32 == (b + x) % U32
  {
    var q := (b + x) / U32;
    assert b + x == q * U32 + (b + x) % U32;
    assert v == (v / U32) * U32 + v % U32 && b == (b / U32) * U32 + b % U32 && x == (x / U32) * U32 + x % U32;
    DivUnique(v + x % U32, U32, q - b / U32 + v / U32 - x / U32, (b + x) % U32);
  }

  /** An integer is read from any bytes of its width, and they are the ones it is written with. */
  lemma IntegerRead(w: nat, signed: bool, bytes: seq<Byte>)
    ensures var r := Decode(Integer(w, signed), bytes);
            if |bytes| < w then r == None
            else r.Some? && r.value.1 == bytes[w..] && HasType(Integer(w, signed), r.value.0)
                 && Encode(Integer(w, signed), r.value.0) == bytes[..w]
  {
    hide Power, LittleEndian, FromLittleEndian, FromWord, Word, InWidth;
    if |bytes| >= w {
      FromLittleEndianBound(bytes[..w]);
      WordBack(w, signed, FromLittleEndian(bytes[..w]));
      BytesBack(bytes[..w]);
    }
  }

  lemma WordBack(w: nat, signed: bool, x: nat)
    requires x < Power(256, w)
    ensures InWidth(w, signed, FromWord(w, signed, x)) && Word(w, FromWord(w, signed, x)) == x
  {
    hide Power;
  }

  lemma {:induction false} BytesBack(b: seq<Byte>)
    ensures LittleEndian(|b|, FromLittleEndian(b)) == b
  {
    if b != [] {
      BytesBack(b[1..]);
      DivUnique(FromLittleEndian(b), 256, FromLittleEndian(b[1..]), b[0]);
      assert b == [b[0]] + b[1..];
    }
  }

  // ----- flags -----

  /** One byte, 1 for true; any byte but 0 is read as true. */
  lemma BooleanFlag(v: Value, b: Byte, rest: seq<Byte>)
    ensures HasType(Boolean, v) ==> Encode(Boolean, v) == [if v == Num(0) then 0 else 1]
    ensures Decode(Boolean, [b] + rest) == Some((Num(if b == 0 then 0 else 1), rest))
  {
    assert ([b] + rest)[1..] == rest;
  }

  /** Any flag but 0 announces a value. */
  lemma FlagRead(elem: Schema, b: Byte, rest: seq<Byte>)
    ensures var r := Decode(elem, rest);
            Decode(Optional(elem), [b] + rest)
            == if b == 0 then Some((List([]), rest))
               else if r.Some? then Some((List([r.value.0]), r.value.1)) else None
  {
    assert ([b] + rest)[1..] == rest;
  }

  /** 0 alone, or 1 and the value. */
  lemma OptionalFlag(elem: Schema, v: Value)
    requires HasType(Optional(elem), v)
    ensures var e := Encode(Optional(elem), v);
            if v == List([]) then e == [0]
            else HasType(elem, v.items[0]) && |e| == 1 + |Encode(elem, v.items[0])| && e[0] == 1
  {
  }

  // ----- where the parts of a value lie -----

  /** The bytes that the first i elements take. */
  function SizeOf(elem: Schema, items: seq<Value>, i: nat): nat
    requires i <= |items| && forall k :: 0 <= k < |items| ==> HasType(elem, items[k])
  {
    if i == 0 then 0 else SizeOf(elem, items, i - 1) + |Encode(elem, items[i - 1])|
  }

  lemma {:induction false} SizeShift(elem: Schema, items: seq<Value>, i: nat)
    requires 0 < i <= |items| && forall k :: 0 <= k < |items| ==> HasType(elem, items[k])
    ensures SizeOf(elem, items, i) == |Encode(elem, items[0])| + SizeOf(elem, items[1..], i - 1)
  {
    hide HasType, Encode;
    if i > 1 {
      SizeShift(elem, items, i - 1);
      assert items[1..][i - 2] == items[i - 1];
    } else {
      assert SizeOf(elem, items, 0) == 0 && SizeOf(elem, items[1..], 0) == 0;
    }
  }

  /** The bytes of an element begin where those of the elements before it end. */
  lemma {:induction false} ElementAt(elem: Schema, items: seq<Value>, i: nat)
    requires i < |items| && forall k :: 0 <= k < |items| ==> HasType(elem, items[k])
    ensures var e, at, n := EncodeAll(elem, items), SizeOf(elem, items, i), |Encode(elem, items[i])|;
            at + n <= |e| && e[at..at + n] == Encode(elem, items[i])
  {
    hide HasType, Encode, EncodeAll, SizeOf;
    var first, rest := Encode(elem, items[0]), EncodeAll(elem, items[1..]);
    AllSplit(elem, items);
    if i == 0 {
      assert (first + rest)[..|first|] == first;
    } else {
      ElementAt(elem, items[1..], i - 1);
      SizeShift(elem, items, i);
      Later(first, rest, SizeOf(elem, items[1..], i - 1), |Encode(elem, items[i])|);
    }
  }

  lemma AllSplit(elem: Schema, items: seq<Value>)
    requires items != [] && forall k :: 0 <= k < |items| ==> HasType(elem, items[k])
    ensures EncodeAll(elem, items) == Encode(elem, items[0]) + EncodeAll(elem, items[1..])
    ensures SizeOf(elem, items, 0) == 0
  {
  }

  lemma Later(s: seq<Byte>, t: seq<Byte>, at: nat, n: nat)
    requires at + n <= |t|
    ensures (s + t)[|s| + at..|s| + at + n] == t[at..at + n]
  {
  }

  lemma {:induction false} AllSize(elem: Schema, items: seq<Value>)
    requires forall k :: 0 <= k < |items| ==> HasType(elem, items[k])
    ensures |EncodeAll(elem, items)| == SizeOf(elem, items, |items|)
  {
    hide HasType, Encode, EncodeAll, SizeOf;
    if items == [] {
      NoneSize(elem);
    } else {
      AllSize(elem, items[1..]);
      AllSplit(elem, items);
      SizeShift(elem, items, |items|);
    }
  }

  lemma NoneSize(elem: Schema)
    ensures |EncodeAll(elem, [])| == SizeOf(elem, [], 0) == 0
  {
  }

  /** An alternative: the code of its index, then the value and nothing else. */
  lemma VariantBytes(alternatives: seq<Schema>, v: Value)
    requires HasType(Variant(alternatives), v)
    ensures HasType(alternatives[v.index], v.v)
    ensures var e, n, x := Encode(Variant(alternatives), v), VarBytes(v.index), Encode(alternatives[v.index], v.v);
            n <= e && PartAt(e, |n|, x) && |e| == |n| + |x|
  {
    hide VarBytes;
  }

  /** A vector, set or map: the number of elements, then the elements in their order and nothing else. */
  lemma ContainerBytes(kind: Kind, elem: Schema, v: Value)
    requires HasType(Container(kind, elem), v)
    ensures var e, n := Encode(Container(kind, elem), v), VarBytes(|v.items|);
            && n <= e && |e| == |n| + SizeOf(elem, v.items, |v.items|)
            && forall i :: 0 <= i < |v.items| ==> PartAt(e, |n| + SizeOf(elem, v.items, i), Encode(elem, v.items[i]))
  {
    hide HasType, Encode, EncodeAll, SizeOf, PartAt;
    ContainerIs(kind, elem, v);
    PartsOfAll(elem, v.items, VarBytes(|v.items|));
  }

  lemma ContainerIs(kind: Kind, elem: Schema, v: Value)
    requires HasType(Container(kind, elem), v)
    ensures v.List? && forall k :: 0 <= k < |v.items| ==> HasType(elem, v.items[k])
    ensures Encode(Container(kind, elem), v) == VarBytes(|v.items|) + EncodeAll(elem, v.items)
  {
    hide Sorted, VarBytes;
  }

  /** The part stands in the bytes at that place. */
  predicate PartAt(bytes: seq<Byte>, at: nat, part: seq<Byte>) {
    at + |part| <= |bytes| && bytes[at..at + |part|] == part
  }

  lemma PartsOfAll(elem: Schema, items: seq<Value>, n: seq<Byte>)
    requires forall k :: 0 <= k < |items| ==> HasType(elem, items[k])
    ensures var e := n + EncodeAll(elem, items);
            && |e| == |n| + SizeOf(elem, items, |items|)
            && forall i :: 0 <= i < |items| ==> PartAt(e, |n| + SizeOf(elem, items, i), Encode(elem, items[i]))
  {
    hide HasType, Encode, SizeOf, EncodeAll;
    AllSize(elem, items);
    forall i | 0 <= i < |items|
      ensures PartAt(n + EncodeAll(elem, items), |n| + SizeOf(elem, items, i), Encode(elem, items[i]))
    {
      ElementAt(elem, items, i);
      Later(n, EncodeAll(elem, items), SizeOf(elem, items, i), |Encode(elem, items[i])|);
    }
  }

  /** The bytes that the first i fields take. */
  function FieldsSize(fields: seq<Schema>, items: seq<Value>, i: nat): nat
    requires i <= |items| == |fields| && forall k :: 0 <= k < |fields| ==> HasType(fields[k], items[k])
  {
    if i == 0 then 0 else FieldsSize(fields, items, i - 1) + |Encode(fields[i - 1], items[i - 1])|
  }

  lemma {:induction false} FieldsShift(fields: seq<Schema>, items: seq<Value>, i: nat)
    requires 0 < i <= |items| == |fields| && forall k :: 0 <= k < |fields| ==> HasType(fields[k], items[k])
    ensures FieldsSize(fields, items, i) == |Encode(fields[0], items[0])| + FieldsSize(fields[1..], items[1..], i - 1)
  {
    hide HasType, Encode;
    if i > 1 {
      FieldsShift(fields, items, i - 1);
      assert items[1..][i - 2] == items[i - 1] && fields[1..][i - 2] == fields[i - 1];
    } else {
      assert FieldsSize(fields, items, 0) == 0 && FieldsSize(fields[1..], items[1..], 0) == 0;
    }
  }

  /** A pair, tuple or struct: its fields in their order and nothing else. */
  lemma {:induction false} FieldsBytes(fields: seq<Schema>, items: seq<Value>)
    requires |items| == |fields| && forall k :: 0 <= k < |fields| ==> HasType(fields[k], items[k])
    ensures |EncodeFields(fields, items)| == FieldsSize(fields, items, |items|)
    ensures forall i :: 0 <= i < |items| ==>
              PartAt(EncodeFields(fields, items), FieldsSize(fields, items, i), Encode(fields[i], items[i]))
    decreases |fields|
  {
    hide HasType, Encode, FieldsSize;
    NoFields(fields, items);
    if items != [] {
      var first, rest := Encode(fields[0], items[0]), EncodeFields(fields[1..], items[1..]);
      assert EncodeFields(fields, items) == first + rest;
      FieldsBytes(fields[1..], items[1..]);
      FieldsShift(fields, items, |items|);
      forall i | 0 <= i < |items|
        ensures PartAt(first + rest, FieldsSize(fields, items, i), Encode(fields[i], items[i]))
      {
        if i == 0 {
          assert (first + rest)[..|first|] == first;
        } else {
          FieldsShift(fields, items, i);
          var at := FieldsSize(fields[1..], items[1..], i - 1);
          assert PartAt(rest, at, Encode(fields[1..][i - 1], items[1..][i - 1]));
          Later(first, rest, at, |Encode(fields[i], items[i])|);
        }
      }
    }
  }

  lemma NoFields(fields: seq<Schema>, items: seq<Value>)
    requires |items| == |fields| && forall k :: 0 <= k < |fields| ==> HasType(fields[k], items[k])
    ensures FieldsSize(fields, items, 0) == 0
  {
  }

  // ----- the order of values -----

  /** The first s is a proper beginning of the second, or smaller at the first place where they differ. */
  ghost predicate Precedes(s: seq<Value>, t: seq<Value>, k: nat) {
    && k <= |s| && k <= |t| && s[..k] == t[..k]
    && (k == |s| < |t| || (k < |s| && k < |t| && Cmp(s[k], t[k]) < 0))
  }

  /** Numbers are in the order of their size, alternatives in that of their index and then of their value. */
  lemma CmpNumbers(m: int, n: int, i: nat, v: Value, j: nat, w: Value)
    ensures Cmp(Num(m), Num(n)) < 0 <==> m < n
    ensures Cmp(Alt(i, v), Alt(j, w)) < 0 <==> i < j || (i == j && Cmp(v, w) < 0)
  {
  }

  /** Elements of a map are ordered by their keys alone, those of a set as they are. */
  lemma CmpKeys(k: Value, v: Value, l: Value, w: Value)
    ensures CmpBy(Map, List([k, v]), List([l, w])) == Cmp(k, l)
    ensures CmpBy(Set, k, l) == Cmp(k, l)
  {
    hide Cmp;
  }

  /** Lists are in dictionary order. */
  lemma {:induction false} CmpLists(s: seq<Value>, t: seq<Value>)
    ensures Cmp(List(s), List(t)) < 0 <==> exists k: nat :: Precedes(s, t, k)
    decreases |s|
  {
    hide Cmp;
    CmpSeqIs(s, t);
    if s != [] && t != [] {
      CmpLists(s[1..], t[1..]);
      CmpSeqIs(s[1..], t[1..]);
      CmpEqual(s[0], t[0]);
      assert s == [s[0]] + s[1..] && t == [t[0]] + t[1..];
      if Cmp(s[0], t[0]) < 0 { assert Precedes(s, t, 0); }
      if s[0] == t[0] { PrecedesLater(s, t); }
      forall k: nat | Precedes(s, t, k) && s[0] != t[0] ensures Cmp(s[0], t[0]) < 0 {
        assert k > 0 ==> s[..k][0] == t[..k][0];
      }
    } else if s == [] && t != [] {
      assert Precedes(s, t, 0);
    }
  }

  lemma CmpSeqIs(s: seq<Value>, t: seq<Value>)
    ensures Cmp(List(s), List(t))
            == if s == [] then if t == [] then 0 else -1
               else if t == [] then 1
               else if Cmp(s[0], t[0]) != 0 then Cmp(s[0], t[0]) else Cmp(List(s[1..]), List(t[1..]))
  {
  }

  lemma PrecedesLater(s: seq<Value>, t: seq<Value>)
    requires s != [] && t != [] && s[0] == t[0]
    ensures (exists k: nat :: Precedes(s, t, k)) <==> exists k: nat :: Precedes(s[1..], t[1..], k)
  {
    hide Cmp;
    CmpSelf(s[0]);
    forall k: nat | Precedes(s, t, k) ensures k > 0 && Precedes(s[1..], t[1..], k - 1) {
      assert s[1..][..k - 1] == s[..k][1..] && t[1..][..k - 1] == t[..k][1..];
    }
    forall k: nat | Precedes(s[1..], t[1..], k) ensures Precedes(s, t, k + 1) {
      assert s[..k + 1] == [s[0]] + s[1..][..k] && t[..k + 1] == [t[0]] + t[1..][..k];
    }
  }

  lemma CmpSelf(v: Value)
    ensures Cmp(v, v) == 0
  {
    CmpEqual(v, v);
  }

  // ----- reading into a set or map -----

  /** Inserting keeps every element, and adds the new one exactly when no element has its key. */
  lemma {:induction false} InsertKeeps(kind: Kind, items: seq<Value>, v: Value)
    requires Sorted(kind, items)
    ensures forall x :: x in items ==> x in Insert(kind, items, v)
    ensures |Insert(kind, items, v)|
            == if exists i :: 0 <= i < |items| && CmpBy(kind, items[i], v) == 0 then |items| else |items| + 1
    ensures (forall i :: 0 <= i < |items| ==> CmpBy(kind, items[i], v) != 0) ==> v in Insert(kind, items, v)
  {
    hide CmpBy;
    if items != [] {
      var c := CmpBy(kind, v, items[0]);
      Opposite(kind, v, items[0]);
      InsertKeeps(kind, items[1..], v);
      assert items == [items[0]] + items[1..];
      if c < 0 {
        forall i | 0 <= i < |items| ensures CmpBy(kind, items[i], v) != 0 {
          Opposite(kind, v, items[i]);
          if i > 0 { Transitive(kind, v, items[0], items[i]); }
        }
      } else if c > 0 {
        forall i | 0 <= i < |items| ensures i > 0 ==> items[i] == items[1..][i - 1] { }
        if i :| 0 <= i < |items| && CmpBy(kind, items[i], v) == 0 {
          assert CmpBy(kind, items[1..][i - 1], v) == 0;
        }
      }
    }
  }

  lemma Opposite(kind: Kind, a: Value, b: Value)
    ensures CmpBy(kind, a, b) < 0 <==> CmpBy(kind, b, a) > 0
    ensures CmpBy(kind, a, b) > 0 <==> CmpBy(kind, b, a) < 0
  {
    CmpOpposite(KeyOf(kind, a), KeyOf(kind, b));
  }

  lemma Transitive(kind: Kind, a: Value, b: Value, c: Value)
    requires CmpBy(kind, a, b) < 0 && CmpBy(kind, b, c) < 0
    ensures CmpBy(kind, a, c) < 0
  {
    CmpTransitive(KeyOf(kind, a), KeyOf(kind, b), KeyOf(kind, c));
  }
}
