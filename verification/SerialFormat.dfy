/** The binary format: schemas, the bytes of a value and the value of bytes, and that unpacking
    undoes packing. */
module SerialFormat {
  import opened Options
  import opened PowersOfTwo

  type Byte = x: int | 0 <= x < 256

  const U32: nat := 0x1_0000_0000

  datatype Kind = Vector | Set | Map

  /** Strings are vectors of one-byte integers; pairs, structs and arrays are tuples; the elements
      of a map are tuples of key and value. */
  datatype Schema =
    | Integer(width: nat, signed: bool)
    | Boolean
    | VarUint
    | VarInt
    | Optional(elem: Schema)
    | Container(kind: Kind, elem: Schema)
    | Tuple(fields: seq<Schema>)
    | Variant(alternatives: seq<Schema>)

  /** An optional is a list of at most one value. */
  datatype Value = Num(n: int) | List(items: seq<Value>) | Alt(index: nat, v: Value)

  // ----- the order of values, which sets and maps are sorted by -----

  /** Negative, zero or positive: numbers by size, lists lexicographically, alternatives by index first. */
  function Cmp(a: Value, b: Value): int
    decreases a
  {
    match (a, b)
    case (Num(m), Num(n)) => m - n
    case (List(s), List(t)) => CmpSeq(s, t)
    case (Alt(i, v), Alt(j, w)) => if i != j then i - j else Cmp(v, w)
    case (Num(_), _) => -1
    case (_, Num(_)) => 1
    case (List(_), _) => -1
    case (_, List(_)) => 1
  }

  function CmpSeq(s: seq<Value>, t: seq<Value>): int
    decreases s
  {
    if s == [] then if t == [] then 0 else -1
    else if t == [] then 1
    else
      var c := Cmp(s[0], t[0]);
      if c != 0 then c else CmpSeq(s[1..], t[1..])
  }

  lemma {:induction false} CmpEqual(a: Value, b: Value)
    ensures Cmp(a, b) == 0 <==> a == b
    decreases a
  {
    match (a, b)
    case (List(s), List(t)) => CmpSeqEqual(s, t);
    case (Alt(i, v), Alt(j, w)) => CmpEqual(v, w);
    case _ =>
  }

  lemma {:induction false} CmpSeqEqual(s: seq<Value>, t: seq<Value>)
    ensures CmpSeq(s, t) == 0 <==> s == t
    decreases s
  {
    if s != [] && t != [] {
      CmpEqual(s[0], t[0]);
      CmpSeqEqual(s[1..], t[1..]);
      assert s == [s[0]] + s[1..] && t == [t[0]] + t[1..];
    }
  }

  lemma {:induction false} CmpOpposite(a: Value, b: Value)
    ensures (Cmp(a, b) < 0 <==> Cmp(b, a) > 0) && (Cmp(a, b) > 0 <==> Cmp(b, a) < 0)
    decreases a
  {
    match (a, b)
    case (List(s), List(t)) => CmpSeqOpposite(s, t);
    case (Alt(i, v), Alt(j, w)) => CmpOpposite(v, w);
    case _ =>
  }

  lemma {:induction false} CmpSeqOpposite(s: seq<Value>, t: seq<Value>)
    ensures (CmpSeq(s, t) < 0 <==> CmpSeq(t, s) > 0) && (CmpSeq(s, t) > 0 <==> CmpSeq(t, s) < 0)
    decreases s
  {
    if s != [] && t != [] {
      CmpOpposite(s[0], t[0]);
      CmpSeqOpposite(s[1..], t[1..]);
    }
  }

  lemma {:induction false} CmpTransitive(a: Value, b: Value, c: Value)
    requires Cmp(a, b) < 0 && Cmp(b, c) < 0
    ensures Cmp(a, c) < 0
    decreases a
  {
    match (a, b, c)
    case (List(s), List(t), List(u)) => CmpSeqTransitive(s, t, u);
    case (Alt(i, v), Alt(j, w), Alt(k, x)) => if i == j == k { CmpTransitive(v, w, x); }
    case _ =>
  }

  lemma {:induction false} CmpSeqTransitive(s: seq<Value>, t: seq<Value>, u: seq<Value>)
    requires CmpSeq(s, t) < 0 && CmpSeq(t, u) < 0
    ensures CmpSeq(s, u) < 0
    decreases s
  {
    if s != [] && t != [] && u != [] {
      CmpEqual(s[0], t[0]);
      CmpEqual(t[0], u[0]);
      if Cmp(s[0], t[0]) == 0 {
        if Cmp(t[0], u[0]) == 0 { CmpSeqTransitive(s[1..], t[1..], u[1..]); }
      } else if Cmp(t[0], u[0]) != 0 {
        CmpTransitive(s[0], t[0], u[0]);
      }
    }
  }

  // ----- sorted containers -----

  /** A map is sorted by its keys, a set by its elements. */
  function KeyOf(kind: Kind, v: Value): Value { if kind == Map && v.List? && |v.items| > 0 then v.items[0] else v }

  function CmpBy(kind: Kind, a: Value, b: Value): int { Cmp(KeyOf(kind, a), KeyOf(kind, b)) }

  predicate Sorted(kind: Kind, items: seq<Value>) {
    forall i, j :: 0 <= i < j < |items| ==> CmpBy(kind, items[i], items[j]) < 0
  }

  /** emplace: in order, and without effect when the key is there. */
  function Insert(kind: Kind, items: seq<Value>, v: Value): seq<Value> {
    if items == [] then [v]
    else
      var c := CmpBy(kind, v, items[0]);
      if c == 0 then items
      else if c < 0 then [v] + items
      else [items[0]] + Insert(kind, items[1..], v)
  }

  function Add(kind: Kind, items: seq<Value>, v: Value): seq<Value> {
    if kind == Vector then items + [v] else Insert(kind, items, v)
  }

  /** What is in order already is appended. */
  lemma {:induction false} InsertLast(kind: Kind, items: seq<Value>, v: Value)
    requires forall i :: 0 <= i < |items| ==> CmpBy(kind, items[i], v) < 0
    ensures Insert(kind, items, v) == items + [v]
  {
    if items != [] {
      CmpOpposite(KeyOf(kind, items[0]), KeyOf(kind, v));
      InsertLast(kind, items[1..], v);
      assert items == [items[0]] + items[1..];
    }
  }

  /** Inserting keeps a container sorted, whatever the order of arrival. */
  lemma {:induction false} InsertSorted(kind: Kind, items: seq<Value>, v: Value)
    requires Sorted(kind, items)
    ensures Sorted(kind, Insert(kind, items, v))
    ensures forall x :: x in Insert(kind, items, v) ==> x in items || x == v
  {
    hide Cmp;
    if items != [] {
      var c := CmpBy(kind, v, items[0]);
      if c < 0 {
        forall j | 0 <= j < |items| ensures CmpBy(kind, v, items[j]) < 0 {
          if j > 0 { CmpTransitive(KeyOf(kind, v), KeyOf(kind, items[0]), KeyOf(kind, items[j])); }
        }
      } else if c > 0 {
        CmpOpposite(KeyOf(kind, v), KeyOf(kind, items[0]));
        InsertSorted(kind, items[1..], v);
        var rest := Insert(kind, items[1..], v);
        forall j | 0 <= j < |rest| ensures CmpBy(kind, items[0], rest[j]) < 0 {
          assert rest[j] in rest;
          if rest[j] != v {
            var i :| 0 <= i < |items[1..]| && items[1..][i] == rest[j];
            assert items[i + 1] == rest[j];
          }
        }
      }
    }
  }

  // ----- integers -----

  function LittleEndian(w: nat, n: nat): (b: seq<Byte>)
    ensures |b| == w
  {
    if w == 0 then [] else [n % 256] + LittleEndian(w - 1, n / 256)
  }

  function FromLittleEndian(b: seq<Byte>): nat { if b == [] then 0 else b[0] + 256 * FromLittleEndian(b[1..]) }

  lemma {:induction false} LittleEndianBack(w: nat, n: nat)
    requires n < Power(256, w)
    ensures FromLittleEndian(LittleEndian(w, n)) == n
  {
    if w > 0 { LittleEndianBack(w - 1, n / 256); }
  }

  lemma {:induction false} FromLittleEndianBound(b: seq<Byte>)
    ensures FromLittleEndian(b) < Power(256, |b|)
  {
    if b != [] { FromLittleEndianBound(b[1..]); }
  }

  /** The two's complement word of a number. */
  function Word(w: nat, n: int): int { if n < 0 then n + Power(256, w) else n }

  function FromWord(w: nat, signed: bool, x: nat): int {
    if signed && 2 * x >= Power(256, w) then x - Power(256, w) else x
  }

  predicate InWidth(w: nat, signed: bool, n: int) {
    if signed then -2 * n <= Power(256, w) && 2 * n < Power(256, w) else 0 <= n < Power(256, w)
  }

  lemma IntegerBack(w: nat, signed: bool, n: int)
    requires InWidth(w, signed, n)
    ensures 0 <= Word(w, n) < Power(256, w)
    ensures FromWord(w, signed, FromLittleEndian(LittleEndian(w, Word(w, n)))) == n
  {
    LittleEndianBack(w, Word(w, n));
  }

  // ----- varints -----

  /** Seven bits a byte, low bits first; the top bit says that more follow. */
  function VarBytes(n: nat): (b: seq<Byte>)
    ensures |b| > 0
  {
    if n < 128 then [n] else [128 + n % 128] + VarBytes(n / 128)
  }

  /** Reading at weight m, with v read so far; a sixth byte is outside the format. */
  function ReadVar(bytes: seq<Byte>, m: nat, v: nat): Option<(nat, seq<Byte>)>
    decreases |bytes|
  {
    if bytes == [] then None
    else
      var v' := v + ((bytes[0] % 128) * m) % U32;
      if bytes[0] < 128 then Some((v' % U32, bytes[1..]))
      else if m >= 0x1000_0000 then None
      else ReadVar(bytes[1..], m * 128, v')
  }

  function DecodeVar(bytes: seq<Byte>): Option<(nat, seq<Byte>)> { ReadVar(bytes, 1, 0) }

  predicate Weight(m: nat) { m == 1 || m == 0x80 || m == 0x4000 || m == 0x20_0000 || m == 0x1000_0000 }

  lemma {:induction false} VarBack(n: nat, m: nat, v: nat, rest: seq<Byte>)
    requires Weight(m) && v < m && v + n * m < U32
    ensures ReadVar(VarBytes(n) + rest, m, v) == Some((v + n * m, rest))
    decreases n
  {
    hide ReadVar, Weight;
    if n < 128 {
      ReadLast(n, m, v, rest);
    } else {
      SplitBits(n, m, v);
      ReadMore(n % 128, m, v, VarBytes(n / 128) + rest);
      assert VarBytes(n) + rest == [128 + n % 128] + (VarBytes(n / 128) + rest);
      VarBack(n / 128, m * 128, v + (n % 128) * m, rest);
    }
  }

  lemma ReadLast(n: nat, m: nat, v: nat, rest: seq<Byte>)
    requires n < 128 && Weight(m) && v + n * m < U32
    ensures ReadVar([n] + rest, m, v) == Some((v + n * m, rest))
  {
    hide Weight;
    MulLe(0, n, m);
    var bytes := [n] + rest;
    assert bytes[1..] == rest && bytes[0] == n;
    SmallMod(n, 128);
    SmallMod(n * m, U32);
    SmallMod(v + n * m, U32);
  }

  lemma SmallMod(x: nat, d: nat)
    requires x < d
    ensures x % d == x
  {
  }

  lemma ReadMore(c: nat, m: nat, v: nat, tail: seq<Byte>)
    requires c < 128 && Weight(m) && m <= 0x20_0000 && c * m < U32
    ensures ReadVar([128 + c] + tail, m, v) == ReadVar(tail, m * 128, v + c * m)
  {
    hide Weight;
    MulLe(0, c, m);
    var bytes := [128 + c] + tail;
    assert bytes[1..] == tail && bytes[0] == 128 + c && (128 + c) % 128 == c;
    SmallMod(c * m, U32);
  }

  lemma SplitBits(n: nat, m: nat, v: nat)
    requires Weight(m) && n >= 128 && v < m && v + n * m < U32
    ensures m <= 0x20_0000 && Weight(m * 128)
    ensures v + (n % 128) * m < m * 128
    ensures (v + (n % 128) * m) + (n / 128) * (m * 128) == v + n * m
    ensures (n % 128) * m < U32
  {
    var c, h := n % 128, n / 128;
    assert n == c + 128 * h;
    assert n * m == c * m + h * (m * 128);
  }

  lemma DecodeVarBack(n: nat, rest: seq<Byte>)
    requires n < U32
    ensures DecodeVar(VarBytes(n) + rest) == Some((n, rest))
  {
    VarBack(n, 1, 0, rest);
  }

  /** The zig-zag word of a 32-bit number: its bits moved up, all flipped when negative. */
  function ZigZag(i: int): int { if i >= 0 then 2 * i else -2 * i - 1 }

  /** (v >> 1) ^ (~(v & 1) + 1ull), cut to 32 bits and read as signed. */
  function UnZigZag(v: nat): int {
    // the mask is 2^32 for an even v, whose bit is cut off, and 2^32 - 1 for an odd one
    var x := (if v % 2 == 0 then v / 2 + U32 else U32 - 1 - v / 2) % U32;
    if x >= 0x8000_0000 then x - U32 else x
  }

  lemma ZigZagBack(i: int)
    requires -0x8000_0000 <= i < 0x8000_0000
    ensures 0 <= ZigZag(i) < U32 && UnZigZag(ZigZag(i)) == i
  {
  }

  lemma UnZigZagRange(v: nat)
    requires v < U32
    ensures -0x8000_0000 <= UnZigZag(v) < 0x8000_0000 && ZigZag(UnZigZag(v)) == v
  {
  }

  // ----- values of a schema -----

  predicate HasType(s: Schema, v: Value)
    decreases s
  {
    match s
    case Integer(w, signed) => v.Num? && InWidth(w, signed, v.n)
    case Boolean => v.Num? && (v.n == 0 || v.n == 1)
    case VarUint => v.Num? && 0 <= v.n < U32
    case VarInt => v.Num? && -0x8000_0000 <= v.n < 0x8000_0000
    case Optional(elem) => v.List? && |v.items| <= 1 && forall i :: 0 <= i < |v.items| ==> HasType(elem, v.items[i])
    case Container(kind, elem) =>
      && v.List? && |v.items| < U32 && (forall i :: 0 <= i < |v.items| ==> HasType(elem, v.items[i]))
      && (kind != Vector ==> Sorted(kind, v.items))
    case Tuple(fields) =>
      v.List? && |v.items| == |fields| && forall i :: 0 <= i < |fields| ==> HasType(fields[i], v.items[i])
    case Variant(alternatives) =>
      v.Alt? && v.index < |alternatives| && v.index < 0x8000_0000 && HasType(alternatives[v.index], v.v)
  }

  function Encode(s: Schema, v: Value): seq<Byte>
    requires HasType(s, v)
    decreases s, 0
  {
    match s
    case Integer(w, signed) => LittleEndian(w, WordOf(w, signed, v.n))
    case Boolean => [v.n]
    case VarUint => VarBytes(v.n)
    case VarInt => ZigZagOf(v.n)
    case Optional(elem) => if v.items == [] then [0] else [1] + Encode(elem, v.items[0])
    case Container(kind, elem) => VarBytes(|v.items|) + EncodeAll(elem, v.items)
    case Tuple(fields) => EncodeFields(fields, v.items)
    case Variant(alternatives) => VarBytes(v.index) + Encode(alternatives[v.index], v.v)
  }

  function WordOf(w: nat, signed: bool, n: int): nat
    requires InWidth(w, signed, n)
  {
    IntegerBack(w, signed, n);
    Word(w, n)
  }

  function ZigZagOf(i: int): seq<Byte>
    requires -0x8000_0000 <= i < 0x8000_0000
  {
    ZigZagBack(i);
    VarBytes(ZigZag(i))
  }

  function EncodeAll(elem: Schema, items: seq<Value>): seq<Byte>
    requires forall i :: 0 <= i < |items| ==> HasType(elem, items[i])
    decreases elem, 1 + |items|
  {
    if items == [] then [] else Encode(elem, items[0]) + EncodeAll(elem, items[1..])
  }

  function EncodeFields(fields: seq<Schema>, items: seq<Value>): seq<Byte>
    requires |items| == |fields| && forall i :: 0 <= i < |fields| ==> HasType(fields[i], items[i])
    decreases fields, 0
  {
    if items == [] then [] else Encode(fields[0], items[0]) + EncodeFields(fields[1..], items[1..])
  }

  // ----- and back -----

  function Decode(s: Schema, bytes: seq<Byte>): Option<(Value, seq<Byte>)>
    decreases s, 0
  {
    match s
    case Integer(w, signed) =>
      if |bytes| < w then None else Some((Num(FromWord(w, signed, FromLittleEndian(bytes[..w]))), bytes[w..]))
    case Boolean => if bytes == [] then None else Some((Num(if bytes[0] != 0 then 1 else 0), bytes[1..]))
    case VarUint =>
      var r := DecodeVar(bytes);
      if r.None? then None else Some((Num(r.value.0), r.value.1))
    case VarInt =>
      var r := DecodeVar(bytes);
      if r.None? then None else Some((Num(UnZigZag(r.value.0)), r.value.1))
    case Optional(elem) =>
      if bytes == [] then None
      else if bytes[0] == 0 then Some((List([]), bytes[1..]))
      else
        var r := Decode(elem, bytes[1..]);
        if r.None? then None else Some((List([r.value.0]), r.value.1))
    case Container(kind, elem) =>
      var r := DecodeVar(bytes);
      if r.None? then None
      else
        var all := DecodeAll(kind, elem, r.value.0, r.value.1, []);
        if all.None? then None else Some((List(all.value.0), all.value.1))
    case Tuple(fields) =>
      var all := DecodeFields(fields, bytes);
      if all.None? then None else Some((List(all.value.0), all.value.1))
    case Variant(alternatives) =>
      var r := DecodeVar(bytes);
      if r.None? || r.value.0 >= |alternatives| || r.value.0 >= 0x8000_0000 then None
      else
        var x := Decode(alternatives[r.value.0], r.value.1);
        if x.None? then None else Some((Alt(r.value.0, x.value.0), x.value.1))
  }

  /** n more elements, added to those read so far. */
  function DecodeAll(kind: Kind, elem: Schema, n: nat, bytes: seq<Byte>, items: seq<Value>): Option<(seq<Value>,
                     seq<Byte>)>
    decreases elem, 1 + n
  {
    if n == 0 then Some((items, bytes))
    else
      var r := Decode(elem, bytes);
      if r.None? then None else DecodeAll(kind, elem, n - 1, r.value.1, Add(kind, items, r.value.0))
  }

  lemma DecodeNone(kind: Kind, elem: Schema, bytes: seq<Byte>, items: seq<Value>)
    ensures DecodeAll(kind, elem, 0, bytes, items) == Some((items, bytes))
  {
  }

  lemma DecodeOne(kind: Kind, elem: Schema, n: nat, bytes: seq<Byte>, items: seq<Value>)
    requires n > 0
    ensures var r := Decode(elem, bytes);
            DecodeAll(kind, elem, n, bytes, items)
            == if r.None? then None else DecodeAll(kind, elem, n - 1, r.value.1, Add(kind, items, r.value.0))
  {
    hide Decode, Add;
  }

  function DecodeFields(fields: seq<Schema>, bytes: seq<Byte>): Option<(seq<Value>, seq<Byte>)>
    decreases fields, 0
  {
    if fields == [] then Some(([], bytes))
    else
      var r := Decode(fields[0], bytes);
      if r.None? then None
      else
        var rest := DecodeFields(fields[1..], r.value.1);
        if rest.None? then None else Some(([r.value.0] + rest.value.0, rest.value.1))
  }
}
