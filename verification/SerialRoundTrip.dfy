/** Unpacking what was packed gives back the value and leaves the bytes that follow. */
module SerialRoundTrip {
  import opened Options
  import opened SerialFormat

  lemma {:induction false} RoundTrip(s: Schema, v: Value, rest: seq<Byte>)
    requires HasType(s, v)
    ensures Decode(s, Encode(s, v) + rest) == Some((v, rest))
    decreases s, 0
  {
    hide Decode, Encode, Sorted;
    match s
    case Integer(w, signed) => IntegerRound(w, signed, v, rest);
    case Boolean => BooleanRound(v, rest);
    case VarUint => VarsRound(s, v, rest);
    case VarInt => VarsRound(s, v, rest);
    case Optional(elem) =>
      if v.items != [] { RoundTrip(elem, v.items[0], rest); }
      OptionalRound(elem, v, rest);
    case Container(kind, elem) =>
      assert [] + v.items == v.items;
      AllBack(kind, elem, v.items, [], rest);
      ContainerRound(kind, elem, v, rest);
    case Tuple(fields) =>
      FieldsBack(fields, v.items, rest);
      TupleRound(fields, v, rest);
    case Variant(alternatives) =>
      RoundTrip(alternatives[v.index], v.v, rest);
      VariantRound(alternatives, v, rest);
  }

  lemma IntegerRound(w: nat, signed: bool, v: Value, rest: seq<Byte>)
    requires HasType(Integer(w, signed), v)
    ensures Decode(Integer(w, signed), Encode(Integer(w, signed), v) + rest) == Some((v, rest))
  {
    var b := Encode(Integer(w, signed), v) + rest;
    IntegerBack(w, signed, v.n);
    assert b[..w] == Encode(Integer(w, signed), v) && b[w..] == rest;
  }

  lemma BooleanRound(v: Value, rest: seq<Byte>)
    requires HasType(Boolean, v)
    ensures Decode(Boolean, Encode(Boolean, v) + rest) == Some((v, rest))
  {
    assert (Encode(Boolean, v) + rest)[1..] == rest;
  }

  lemma VarsRound(s: Schema, v: Value, rest: seq<Byte>)
    requires (s.VarUint? || s.VarInt?) && HasType(s, v)
    ensures Decode(s, Encode(s, v) + rest) == Some((v, rest))
  {
    if s.VarUint? {
      DecodeVarBack(v.n, rest);
    } else {
      ZigZagBack(v.n);
      DecodeVarBack(ZigZag(v.n), rest);
    }
  }

  lemma OptionalRound(elem: Schema, v: Value, rest: seq<Byte>)
    requires HasType(Optional(elem), v)
    requires v.items != [] ==> Decode(elem, Encode(elem, v.items[0]) + rest) == Some((v.items[0], rest))
    ensures Decode(Optional(elem), Encode(Optional(elem), v) + rest) == Some((v, rest))
  {
    hide HasType, Encode, Decode, Sorted;
    OptionalBytes(elem, v);
    DecodeFlag(elem, rest);
    if v.items != [] {
      var x := Encode(elem, v.items[0]) + rest;
      assert [1] + Encode(elem, v.items[0]) + rest == [1] + x;
      DecodeFlag(elem, x);
    }
  }

  lemma OptionalBytes(elem: Schema, v: Value)
    requires HasType(Optional(elem), v)
    ensures v.List? && |v.items| <= 1
    ensures v.items == [] ==> v == List([]) && Encode(Optional(elem), v) == [0]
    ensures v.items != [] ==>
              && v == List([v.items[0]]) && HasType(elem, v.items[0])
              && Encode(Optional(elem), v) == [1] + Encode(elem, v.items[0])
  {
    hide Sorted, Decode;
  }

  lemma DecodeFlag(elem: Schema, rest: seq<Byte>)
    ensures Decode(Optional(elem), [0] + rest) == Some((List([]), rest))
    ensures var r := Decode(elem, rest);
            r.Some? ==> Decode(Optional(elem), [1] + rest) == Some((List([r.value.0]), r.value.1))
  {
    assert ([0] + rest)[1..] == rest && ([1] + rest)[1..] == rest;
  }

  lemma ContainerRound(kind: Kind, elem: Schema, v: Value, rest: seq<Byte>)
    requires HasType(Container(kind, elem), v)
    requires DecodeAll(kind, elem, |v.items|, EncodeAll(elem, v.items) + rest, []) == Some((v.items, rest))
    ensures Decode(Container(kind, elem), Encode(Container(kind, elem), v) + rest) == Some((v, rest))
  {
    hide DecodeAll, EncodeAll, Sorted, DecodeVar, VarBytes;
    var all := EncodeAll(elem, v.items) + rest;
    assert Encode(Container(kind, elem), v) + rest == VarBytes(|v.items|) + all;
    DecodeVarBack(|v.items|, all);
  }

  lemma TupleRound(fields: seq<Schema>, v: Value, rest: seq<Byte>)
    requires HasType(Tuple(fields), v)
    requires DecodeFields(fields, EncodeFields(fields, v.items) + rest) == Some((v.items, rest))
    ensures Decode(Tuple(fields), Encode(Tuple(fields), v) + rest) == Some((v, rest))
  {
    hide DecodeFields, EncodeFields;
  }

  lemma VariantRound(alternatives: seq<Schema>, v: Value, rest: seq<Byte>)
    requires HasType(Variant(alternatives), v)
    requires Decode(alternatives[v.index], Encode(alternatives[v.index], v.v) + rest) == Some((v.v, rest))
    ensures Decode(Variant(alternatives), Encode(Variant(alternatives), v) + rest) == Some((v, rest))
  {
    hide DecodeVar, VarBytes;
    var x := Encode(alternatives[v.index], v.v) + rest;
    assert Encode(Variant(alternatives), v) + rest == VarBytes(v.index) + x;
    DecodeVarBack(v.index, x);
  }

  /** Elements arrive in the order they were written, so a sorted container is rebuilt as it was. */
  lemma {:induction false} AllBack(kind: Kind, elem: Schema, items: seq<Value>, before: seq<Value>, rest: seq<Byte>)
    requires forall i :: 0 <= i < |items| ==> HasType(elem, items[i])
    requires kind != Vector ==> Sorted(kind, before + items)
    ensures DecodeAll(kind, elem, |items|, EncodeAll(elem, items) + rest, before) == Some((before + items, rest))
    decreases elem, 1 + |items|
  {
    hide HasType, Decode, Encode, Sorted, EncodeAll, DecodeAll;
    if items == [] {
      NoElements(kind, elem, before, rest);
    } else {
      AddLast(kind, before, items);
      assert before + items == (before + [items[0]]) + items[1..];
      AllBack(kind, elem, items[1..], before + [items[0]], rest);
      RoundTrip(elem, items[0], EncodeAll(elem, items[1..]) + rest);
      FirstElementBack(kind, elem, items, before, rest);
    }
  }

  lemma NoElements(kind: Kind, elem: Schema, before: seq<Value>, rest: seq<Byte>)
    ensures DecodeAll(kind, elem, 0, EncodeAll(elem, []) + rest, before) == Some((before + [], rest))
  {
    assert EncodeAll(elem, []) + rest == rest && before + [] == before;
  }

  lemma FirstElementBack(kind: Kind, elem: Schema, items: seq<Value>, before: seq<Value>, rest: seq<Byte>)
    requires items != [] && forall i :: 0 <= i < |items| ==> HasType(elem, items[i])
    requires var tail := EncodeAll(elem, items[1..]) + rest;
             Decode(elem, Encode(elem, items[0]) + tail) == Some((items[0], tail))
    ensures DecodeAll(kind, elem, |items|, EncodeAll(elem, items) + rest, before) ==
            DecodeAll(kind, elem, |items| - 1, EncodeAll(elem, items[1..]) + rest, Add(kind, before, items[0]))
  {
    hide HasType, Decode, Encode, Add;
    var tail := EncodeAll(elem, items[1..]) + rest;
    assert EncodeAll(elem, items) + rest == Encode(elem, items[0]) + tail;
  }

  lemma AddLast(kind: Kind, before: seq<Value>, items: seq<Value>)
    requires items != [] && (kind != Vector ==> Sorted(kind, before + items))
    ensures Add(kind, before, items[0]) == before + [items[0]]
  {
    if kind != Vector {
      var all := before + items;
      forall i | 0 <= i < |before| ensures CmpBy(kind, before[i], items[0]) < 0 {
        assert all[i] == before[i] && all[|before|] == items[0];
      }
      InsertLast(kind, before, items[0]);
    }
  }

  lemma {:induction false} FieldsBack(fields: seq<Schema>, items: seq<Value>, rest: seq<Byte>)
    requires |items| == |fields| && forall i :: 0 <= i < |fields| ==> HasType(fields[i], items[i])
    ensures DecodeFields(fields, EncodeFields(fields, items) + rest) == Some((items, rest))
    decreases fields, 0
  {
    hide HasType, Decode, Encode, Sorted, EncodeFields, DecodeFields;
    if items == [] {
      NoFields(fields, rest);
    } else {
      FieldsBack(fields[1..], items[1..], rest);
      RoundTrip(fields[0], items[0], EncodeFields(fields[1..], items[1..]) + rest);
      FirstFieldBack(fields, items, rest);
    }
  }

  lemma NoFields(fields: seq<Schema>, rest: seq<Byte>)
    requires fields == []
    ensures DecodeFields(fields, EncodeFields(fields, []) + rest) == Some(([], rest))
  {
    assert EncodeFields(fields, []) + rest == rest;
  }

  lemma FirstFieldBack(fields: seq<Schema>, items: seq<Value>, rest: seq<Byte>)
    requires |items| == |fields| > 0 && forall i :: 0 <= i < |fields| ==> HasType(fields[i], items[i])
    requires var tail := EncodeFields(fields[1..], items[1..]) + rest;
             && Decode(fields[0], Encode(fields[0], items[0]) + tail) == Some((items[0], tail))
             && DecodeFields(fields[1..], tail) == Some((items[1..], rest))
    ensures DecodeFields(fields, EncodeFields(fields, items) + rest) == Some((items, rest))
  {
    hide HasType, Decode, Encode;
    var tail := EncodeFields(fields[1..], items[1..]) + rest;
    assert EncodeFields(fields, items) + rest == Encode(fields[0], items[0]) + tail;
    assert items == [items[0]] + items[1..];
  }

  /** No packed value is the beginning of another one's bytes, and different values pack differently. */
  lemma PackedUniquely(s: Schema, v: Value, w: Value, restV: seq<Byte>, restW: seq<Byte>)
    requires HasType(s, v) && HasType(s, w) && Encode(s, v) + restV == Encode(s, w) + restW
    ensures v == w && restV == restW
  {
    RoundTrip(s, v, restV);
    RoundTrip(s, w, restW);
  }

  // ----- what unpacking arbitrary bytes gives -----

  /** Whatever bytes are unpacked, the value has the schema's type: sets and maps come out sorted,
      and what is left is the end of the input. */
  lemma {:induction false} DecodeTyped(s: Schema, bytes: seq<Byte>)
    ensures Typed(s, bytes)
    decreases s, 0
  {
    hide HasType, Decode, EndOf, Typed, Sorted, Encode;
    var r := DecodeVar(bytes);
    match s
    case Integer(w, signed) => IntegerTyped(w, signed, bytes);
    case Boolean => BooleanTyped(bytes);
    case VarUint => VarsTyped(bytes);
    case VarInt => VarsTyped(bytes);
    case Optional(elem) =>
      if bytes != [] { DecodeTyped(elem, bytes[1..]); }
      OptionalTyped(elem, bytes);
    case Container(kind, elem) =>
      NoItems(kind, elem);
      if r.Some? { AllTyped(kind, elem, r.value.0, r.value.1, []); }
      ContainerTyped(kind, elem, bytes);
    case Tuple(fields) =>
      FieldsTyped(fields, bytes);
      TupleTyped(fields, bytes);
    case Variant(alternatives) =>
      if r.Some? && r.value.0 < |alternatives| { DecodeTyped(alternatives[r.value.0], r.value.1); }
      VariantTyped(alternatives, bytes);
  }

  /** What is unpacked with this schema has its type, and the rest is the end of the input. */
  ghost predicate Typed(s: Schema, bytes: seq<Byte>) {
    var r := Decode(s, bytes);
    r.Some? ==> HasType(s, r.value.0) && EndOf(r.value.1, bytes)
  }

  ghost predicate EndOf(rest: seq<Byte>, bytes: seq<Byte>) { |rest| <= |bytes| && rest == bytes[|bytes| - |rest|..] }

  lemma EndOfEnd(rest: seq<Byte>, mid: seq<Byte>, bytes: seq<Byte>)
    requires EndOf(rest, mid) && EndOf(mid, bytes)
    ensures EndOf(rest, bytes)
  {
  }

  lemma IntegerTyped(w: nat, signed: bool, bytes: seq<Byte>)
    ensures Typed(Integer(w, signed), bytes)
  {
    if |bytes| >= w { FromLittleEndianBound(bytes[..w]); }
  }

  lemma BooleanTyped(bytes: seq<Byte>)
    ensures Typed(Boolean, bytes)
  {
  }

  lemma VarsTyped(bytes: seq<Byte>)
    ensures Typed(VarUint, bytes) && Typed(VarInt, bytes)
  {
    VarEnd(bytes, 1, 0);
    var r := DecodeVar(bytes);
    if r.Some? { UnZigZagRange(r.value.0); }
  }

  lemma OptionalTyped(elem: Schema, bytes: seq<Byte>)
    requires bytes != [] ==> Typed(elem, bytes[1..])
    ensures Typed(Optional(elem), bytes)
  {
    var r := Decode(Optional(elem), bytes);
    if r.Some? {
      assert EndOf(bytes[1..], bytes);
      if bytes[0] != 0 { EndOfEnd(r.value.1, bytes[1..], bytes); }
    }
  }

  lemma NoItems(kind: Kind, elem: Schema)
    ensures AllHaveType(elem, []) && InOrder(kind, [])
  {
  }

  ghost predicate AllHaveType(elem: Schema, items: seq<Value>) {
    forall i :: 0 <= i < |items| ==> HasType(elem, items[i])
  }

  predicate InOrder(kind: Kind, items: seq<Value>) { kind != Vector ==> Sorted(kind, items) }

  /** The same for the items of a container. */
  ghost predicate ItemsTyped(kind: Kind, elem: Schema, n: nat, bytes: seq<Byte>, items: seq<Value>) {
    var r := DecodeAll(kind, elem, n, bytes, items);
    r.Some? ==>
      AllHaveType(elem, r.value.0) && InOrder(kind, r.value.0) && |r.value.0| <= |items| + n && EndOf(r.value.1, bytes)
  }

  lemma ContainerTyped(kind: Kind, elem: Schema, bytes: seq<Byte>)
    requires var r := DecodeVar(bytes); r.Some? ==> ItemsTyped(kind, elem, r.value.0, r.value.1, [])
    ensures Typed(Container(kind, elem), bytes)
  {
    hide DecodeAll, Sorted;
    VarEnd(bytes, 1, 0);
    var r := DecodeVar(bytes);
    if r.Some? {
      var all := DecodeAll(kind, elem, r.value.0, r.value.1, []);
      if all.Some? { EndOfEnd(all.value.1, r.value.1, bytes); }
    }
  }

  ghost predicate AllTypes(fields: seq<Schema>, items: seq<Value>) {
    |items| == |fields| && forall i :: 0 <= i < |fields| ==> HasType(fields[i], items[i])
  }

  lemma TupleTyped(fields: seq<Schema>, bytes: seq<Byte>)
    requires var r := DecodeFields(fields, bytes); r.Some? ==> AllTypes(fields, r.value.0) && EndOf(r.value.1, bytes)
    ensures Typed(Tuple(fields), bytes)
  {
    hide DecodeFields;
  }

  lemma VariantTyped(alternatives: seq<Schema>, bytes: seq<Byte>)
    requires var r := DecodeVar(bytes); r.Some? && r.value.0 < |alternatives| ==>
               Typed(alternatives[r.value.0], r.value.1)
    ensures Typed(Variant(alternatives), bytes)
  {
    VarEnd(bytes, 1, 0);
    var r := DecodeVar(bytes);
    if r.Some? && r.value.0 < |alternatives| {
      var x := Decode(alternatives[r.value.0], r.value.1);
      if x.Some? { EndOfEnd(x.value.1, r.value.1, bytes); }
    }
  }

  lemma {:induction false} VarEnd(bytes: seq<Byte>, m: nat, v: nat)
    ensures var r := ReadVar(bytes, m, v); r.Some? ==> r.value.0 < U32 && EndOf(r.value.1, bytes)
    decreases |bytes|
  {
    if bytes != [] && bytes[0] >= 128 && m < 0x1000_0000 {
      VarEnd(bytes[1..], m * 128, v + ((bytes[0] % 128) * m) % U32);
    }
  }

  lemma {:induction false} AllTyped(kind: Kind, elem: Schema, n: nat, bytes: seq<Byte>, items: seq<Value>)
    requires AllHaveType(elem, items) && InOrder(kind, items)
    ensures ItemsTyped(kind, elem, n, bytes, items)
    decreases elem, 1 + n
  {
    hide HasType, Decode, EndOf, Sorted, AllHaveType, InOrder;
    if n == 0 {
      WholeEnd(bytes);
    } else {
      DecodeTyped(elem, bytes);
      var r := Decode(elem, bytes);
      if r.Some? {
        AddTyped(kind, elem, items, r.value.0);
        AllTyped(kind, elem, n - 1, r.value.1, Add(kind, items, r.value.0));
        var all := DecodeAll(kind, elem, n, bytes, items);
        if all.Some? { EndOfEnd(all.value.1, r.value.1, bytes); }
      }
    }
  }

  lemma WholeEnd(bytes: seq<Byte>)
    ensures EndOf(bytes, bytes)
  {
  }

  lemma AddTyped(kind: Kind, elem: Schema, items: seq<Value>, v: Value)
    requires AllHaveType(elem, items) && HasType(elem, v) && InOrder(kind, items)
    ensures var more := Add(kind, items, v); AllHaveType(elem, more) && InOrder(kind, more) && |more| <= |items| + 1
  {
    InsertLength(kind, items, v);
    if kind != Vector { InsertSorted(kind, items, v); }
    var more := Add(kind, items, v);
    hide Sorted;
    forall i | 0 <= i < |more| ensures HasType(elem, more[i]) {
      assert more[i] in more;
    }
  }

  lemma {:induction false} InsertLength(kind: Kind, items: seq<Value>, v: Value)
    ensures |Insert(kind, items, v)| <= |items| + 1
  {
    if items != [] { InsertLength(kind, items[1..], v); }
  }

  lemma {:induction false} FieldsTyped(fields: seq<Schema>, bytes: seq<Byte>)
    ensures var r := DecodeFields(fields, bytes); r.Some? ==> AllTypes(fields, r.value.0) && EndOf(r.value.1, bytes)
    decreases fields, 0
  {
    hide HasType, Decode, EndOf;
    if fields == [] {
      WholeEnd(bytes);
    } else {
      DecodeTyped(fields[0], bytes);
      var r := Decode(fields[0], bytes);
      if r.Some? {
        FieldsTyped(fields[1..], r.value.1);
        var all := DecodeFields(fields, bytes);
        if all.Some? { EndOfEnd(all.value.1, r.value.1, bytes); }
      }
    }
  }

  /** Unpacked bytes may be another spelling of the value, but packing and unpacking again settles. */
  lemma Settles(s: Schema, bytes: seq<Byte>)
    requires Decode(s, bytes).Some?
    ensures HasType(s, Decode(s, bytes).value.0)
    ensures Decode(s, Encode(s, Decode(s, bytes).value.0)) == Some((Decode(s, bytes).value.0, []))
  {
    DecodeTyped(s, bytes);
    var v := Decode(s, bytes).value.0;
    RoundTrip(s, v, []);
    assert Encode(s, v) + [] == Encode(s, v);
  }
}
