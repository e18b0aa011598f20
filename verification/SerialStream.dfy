/** The streams: one that writes into and reads from a buffer, and one that only counts. */
module SerialStream {
  import opened Options
  import opened SerialFormat

  /** A 32-bit size cast to int32_t. */
  function AsInt32(s: nat): int {
    var low := s % U32;
    if low >= 0x8000_0000 then low - U32 else low
  }

  /** The check of write, which compares with the cast size, lets a write through that does not fit
      exactly from 2^31 bytes on. */
  lemma WriteCheck(remaining: nat, s: nat)
    requires s < U32
    ensures s <= remaining ==> remaining >= AsInt32(s)
    ensures s > remaining ==> (remaining >= AsInt32(s) <==> s >= 0x8000_0000)
  {
  }

  class Datastream {
    const buffer: array<Byte>
    var pos: nat

    ghost predicate Valid()
      reads this
    {
      pos <= buffer.Length
    }

    /** The bytes before the position, which writing has produced. */
    ghost function Written(): seq<Byte>
      requires Valid()
      reads this, buffer
    {
      buffer[..pos]
    }

    /** The bytes from the position on, which reading has still to see. */
    ghost function Remaining(): seq<Byte>
      requires Valid()
      reads this, buffer
    {
      buffer[pos..]
    }

    constructor (buffer: array<Byte>)
      ensures this.buffer == buffer && pos == 0 && Valid()
    {
      this.buffer, this.pos := buffer, 0;
    }

    method Write(d: seq<Byte>) returns (ok: bool)
      requires Valid()
      modifies this, buffer
      ensures Valid() && (ok <==> old(pos) + |d| <= buffer.Length)
      ensures ok ==> Written() == old(Written()) + d
      ensures !ok ==> pos == old(pos)
    {
      if buffer.Length - pos < AsInt32(|d|) { return false; }
      // a copy past the end of the buffer is outside the model
      if buffer.Length - pos < |d| { return false; }
      var i := 0;
      while i < |d|
        invariant 0 <= i <= |d| && pos == old(pos)
        invariant buffer[..pos + i] == old(buffer[..pos]) + d[..i]
      {
        buffer[pos + i] := d[i];
        i := i + 1;
      }
      pos := pos + |d|;
      ok := true;
    }

    method Get() returns (ok: bool, c: Byte)
      requires Valid()
      modifies `pos
      ensures Valid() && (ok <==> old(Remaining()) != [])
      ensures ok ==> c == old(Remaining())[0] && Remaining() == old(Remaining())[1..]
      ensures !ok ==> pos == old(pos)
    {
      if pos >= buffer.Length { return false, 0; }
      c := buffer[pos];
      pos := pos + 1;
      ok := true;
    }

    method Read(s: nat) returns (ok: bool, d: seq<Byte>)
      requires Valid()
      modifies `pos
      ensures Valid() && (ok <==> s <= |old(Remaining())|)
      ensures ok ==> d == old(Remaining())[..s] && Remaining() == old(Remaining())[s..]
    {
      if buffer.Length - pos < s { return false, []; }
      d := buffer[pos..pos + s];
      pos := pos + s;
      ok := true;
    }

    // ----- operator<< -----

    method PutVar(n: nat) returns (ok: bool)
      requires Valid()
      modifies this, buffer
      ensures Valid() && (ok <==> old(pos) + |VarBytes(n)| <= buffer.Length)
      ensures ok ==> Written() == old(Written()) + VarBytes(n)
    {
      hide Written;
      ghost var whole := old(Written()) + VarBytes(n);
      WrittenLength();
      var val := n;
      var more := true;
      while more
        invariant Valid() && |Written()| == pos
        invariant whole == if more then Written() + VarBytes(val) else Written()
        decreases if more then 1 + val else 0
      {
        ghost var left := VarBytes(val);
        var b := val % 128;
        val := val / 128;
        if val > 0 {
          b := b + 128;
          JoinParts(Written(), [b], VarBytes(val));
        }
        ok := Write([b]);
        if !ok { return false; }
        WrittenLength();
        more := val > 0;
      }
      ok := true;
    }

    method Put(s: Schema, v: Value) returns (ok: bool)
      requires Valid() && HasType(s, v)
      modifies this, buffer
      ensures Valid() && (ok <==> old(pos) + |Encode(s, v)| <= buffer.Length)
      ensures ok ==> Written() == old(Written()) + Encode(s, v)
      decreases s, 2
    {
      hide Written, LittleEndian, VarBytes, EncodeAll, EncodeFields, WordOf, InWidth, Sorted;
      match s
      case Integer(w, signed) => ok := Write(LittleEndian(w, WordOf(w, signed, v.n)));
      case Boolean => ok := Write([v.n]);
      case VarUint => ok := PutVar(v.n);
      case VarInt =>
        ZigZagBack(v.n);
        ok := PutVar(ZigZag(v.n));
      case Optional(elem) => ok := PutOptional(s, v);
      case Container(kind, elem) => ok := PutContainer(s, v);
      case Tuple(fields) => ok := PutFields(fields, v.items);
      case Variant(alternatives) => ok := PutVariant(s, v);
    }

    method PutOptional(s: Schema, opt: Value) returns (ok: bool)
      requires Valid() && s.Optional? && HasType(s, opt)
      modifies this, buffer
      ensures Valid() && (ok <==> old(pos) + |Encode(s, opt)| <= buffer.Length)
      ensures ok ==> Written() == old(Written()) + Encode(s, opt)
      decreases s, 1
    {
      hide Written;
      WrittenLength();
      ok := Write([|opt.items|]);
      if ok && |opt.items| > 0 {
        WrittenLength();
        ok := Put(s.elem, opt.items[0]);
        JoinParts(old(Written()), [1], Encode(s.elem, opt.items[0]));
      }
    }

    method PutContainer(s: Schema, v: Value) returns (ok: bool)
      requires Valid() && s.Container? && HasType(s, v)
      modifies this, buffer
      ensures Valid() && (ok <==> old(pos) + |Encode(s, v)| <= buffer.Length)
      ensures ok ==> Written() == old(Written()) + Encode(s, v)
      decreases s, 1
    {
      hide Written, VarBytes, EncodeAll, Sorted;
      WrittenLength();
      ok := PutVar(|v.items|);
      WrittenLength();
      if ok { ok := PutAll(s.elem, v.items); }
      JoinParts(old(Written()), VarBytes(|v.items|), EncodeAll(s.elem, v.items));
    }

    method PutVariant(s: Schema, x: Value) returns (ok: bool)
      requires Valid() && s.Variant? && HasType(s, x)
      modifies this, buffer
      ensures Valid() && (ok <==> old(pos) + |Encode(s, x)| <= buffer.Length)
      ensures ok ==> Written() == old(Written()) + Encode(s, x)
      decreases s, 1
    {
      hide Written, VarBytes;
      WrittenLength();
      ok := PutVar(x.index);
      WrittenLength();
      if ok { ok := Put(s.alternatives[x.index], x.v); }
      JoinParts(old(Written()), VarBytes(x.index), Encode(s.alternatives[x.index], x.v));
    }

    lemma WrittenLength()
      requires Valid()
      ensures |Written()| == pos
    {
    }

    method PutAll(elem: Schema, items: seq<Value>) returns (ok: bool)
      requires Valid() && forall i :: 0 <= i < |items| ==> HasType(elem, items[i])
      modifies this, buffer
      ensures Valid() && (ok <==> old(pos) + |EncodeAll(elem, items)| <= buffer.Length)
      ensures ok ==> Written() == old(Written()) + EncodeAll(elem, items)
      decreases elem, 3 + |items|
    {
      hide Written, HasType, Encode;
      WrittenLength();
      ghost var whole := old(Written()) + EncodeAll(elem, items);
      var i := 0;
      assert items[0..] == items;
      while i < |items|
        invariant 0 <= i <= |items| && Valid() && |Written()| == pos
        invariant Written() + EncodeAll(elem, items[i..]) == whole
      {
        assert items[i..][1..] == items[i + 1..];
        JoinParts(Written(), Encode(elem, items[i]), EncodeAll(elem, items[i + 1..]));
        ok := Put(elem, items[i]);
        if !ok { return false; }
        WrittenLength();
        i := i + 1;
      }
      ok := true;
    }

    method PutFields(fields: seq<Schema>, items: seq<Value>) returns (ok: bool)
      requires Valid() && |items| == |fields| && forall i :: 0 <= i < |fields| ==> HasType(fields[i], items[i])
      modifies this, buffer
      ensures Valid() && (ok <==> old(pos) + |EncodeFields(fields, items)| <= buffer.Length)
      ensures ok ==> Written() == old(Written()) + EncodeFields(fields, items)
      decreases fields, 0
    {
      hide Written, HasType, Encode;
      WrittenLength();
      ghost var whole := old(Written()) + EncodeFields(fields, items);
      var i := 0;
      assert items[0..] == items && fields[0..] == fields;
      while i < |fields|
        invariant 0 <= i <= |fields| && Valid() && |Written()| == pos
        invariant Written() + EncodeFields(fields[i..], items[i..]) == whole
      {
        assert items[i..][1..] == items[i + 1..] && fields[i..][1..] == fields[i + 1..];
        JoinParts(Written(), Encode(fields[i], items[i]), EncodeFields(fields[i + 1..], items[i + 1..]));
        ok := Put(fields[i], items[i]);
        if !ok { return false; }
        WrittenLength();
        i := i + 1;
      }
      ok := true;
    }

    // ----- operator>> -----

    method GetVar() returns (ok: bool, n: nat)
      requires Valid()
      modifies `pos
      ensures Valid()
      ensures var r := DecodeVar(old(Remaining()));
              (ok <==> r.Some?) && (ok ==> n == r.value.0 && Remaining() == r.value.1)
    {
      var v: nat, m: nat, more := 0, 1, true;
      while more
        invariant Valid() && (more ==> m >= 1 && DecodeVar(old(Remaining())) == ReadVar(Remaining(), m, v))
        invariant !more ==> DecodeVar(old(Remaining())) == Some((v % U32, Remaining()))
        decreases buffer.Length - pos
      {
        var b;
        ok, b := Get();
        if !ok { return false, 0; }
        v := v + ((b % 128) * m) % U32;
        more := b >= 128;
        // a sixth byte is outside the format
        if more && m >= 0x1000_0000 { return false, 0; }
        m := m * 128;
      }
      ok, n := true, v % U32;
    }

    method GetValue(s: Schema) returns (ok: bool, v: Value)
      requires Valid()
      modifies `pos
      ensures Valid()
      ensures var r := Decode(s, old(Remaining()));
              (ok <==> r.Some?) && (ok ==> v == r.value.0 && Remaining() == r.value.1)
      decreases s, 0
    {
      v := Num(0);
      match s
      case Integer(w, signed) =>
        var d;
        ok, d := Read(w);
        if ok { v := Num(FromWord(w, signed, FromLittleEndian(d))); }
      case Boolean =>
        var t;
        ok, t := Get();
        v := Num(if t != 0 then 1 else 0);
      case VarUint =>
        var n;
        ok, n := GetVar();
        v := Num(n);
      case VarInt =>
        var n;
        ok, n := GetVar();
        v := Num(UnZigZag(n));
      case Optional(elem) =>
        var valid;
        ok, valid := Get();
        v := List([]);
        if ok && valid != 0 {
          var x;
          ok, x := GetValue(elem);
          v := List([x]);
        }
      case Container(kind, elem) =>
        var size;
        ok, size := GetVar();
        if ok {
          var items;
          ok, items := GetAll(kind, elem, size);
          v := List(items);
        }
      case Tuple(fields) =>
        var items;
        ok, items := GetFields(fields);
        v := List(items);
      case Variant(alternatives) =>
        var index;
        ok, index := GetVar();
        if ok {
          if index >= |alternatives| || index >= 0x8000_0000 { return false, v; }
          var x;
          ok, x := GetValue(alternatives[index]);
          v := Alt(index, x);
        }
    }

    method GetAll(kind: Kind, elem: Schema, size: nat) returns (ok: bool, items: seq<Value>)
      requires Valid()
      modifies `pos
      ensures Valid()
      ensures var r := DecodeAll(kind, elem, size, old(Remaining()), []);
              (ok <==> r.Some?) && (ok ==> items == r.value.0 && Remaining() == r.value.1)
      decreases elem, 1 + size
    {
      hide Decode, DecodeAll, Add;
      items := [];
      var i := 0;
      while i < size
        invariant 0 <= i <= size && Valid()
        invariant DecodeAll(kind, elem, size, old(Remaining()), [])
                  == DecodeAll(kind, elem, size - i, Remaining(), items)
      {
        DecodeOne(kind, elem, size - i, Remaining(), items);
        var x;
        ok, x := GetValue(elem);
        if !ok { return; }
        items := Add(kind, items, x);
        i := i + 1;
      }
      DecodeNone(kind, elem, Remaining(), items);
      ok := true;
    }

    method GetFields(fields: seq<Schema>) returns (ok: bool, items: seq<Value>)
      requires Valid()
      modifies `pos
      ensures Valid()
      ensures var r := DecodeFields(fields, old(Remaining()));
              (ok <==> r.Some?) && (ok ==> items == r.value.0 && Remaining() == r.value.1)
      decreases fields, 0
    {
      hide Decode;
      items := [];
      PrependNothing(DecodeFields(fields, Remaining()));
      assert fields[0..] == fields;
      var i := 0;
      while i < |fields|
        invariant 0 <= i <= |fields| && Valid() && |items| == i
        invariant DecodeFields(fields, old(Remaining())) == Prepend(items, DecodeFields(fields[i..], Remaining()))
      {
        var x;
        assert fields[i..][1..] == fields[i + 1..];
        ghost var before := Remaining();
        ok, x := GetValue(fields[i]);
        if !ok {
          FieldsFail(fields[i..], before, items);
          return;
        }
        FieldsStep(fields[i..], before, x, Remaining());
        PrependTwice(items, x, DecodeFields(fields[i + 1..], Remaining()));
        items := items + [x];
        i := i + 1;
      }
      ok := true;
    }
  }

  ghost function Prepend(items: seq<Value>, r: Option<(seq<Value>, seq<Byte>)>): Option<(seq<Value>, seq<Byte>)> {
    if r.None? then None else Some((items + r.value.0, r.value.1))
  }

  lemma JoinParts(a: seq<Byte>, b: seq<Byte>, c: seq<Byte>)
    ensures (a + b) + c == a + (b + c)
  {
  }

  lemma FieldsStep(fields: seq<Schema>, bytes: seq<Byte>, x: Value, rest: seq<Byte>)
    requires fields != [] && Decode(fields[0], bytes) == Some((x, rest))
    ensures DecodeFields(fields, bytes) == Prepend([x], DecodeFields(fields[1..], rest))
  {
  }

  lemma FieldsFail(fields: seq<Schema>, bytes: seq<Byte>, items: seq<Value>)
    requires fields != [] && Decode(fields[0], bytes).None?
    ensures Prepend(items, DecodeFields(fields, bytes)).None?
  {
  }

  lemma PrependNothing(r: Option<(seq<Value>, seq<Byte>)>)
    ensures Prepend([], r) == r
  {
    if r.Some? { assert [] + r.value.0 == r.value.0; }
  }

  lemma PrependTwice(items: seq<Value>, x: Value, r: Option<(seq<Value>, seq<Byte>)>)
    ensures Prepend(items, Prepend([x], r)) == Prepend(items + [x], r)
  {
    if r.Some? { assert items + ([x] + r.value.0) == (items + [x]) + r.value.0; }
  }

  // ----- counting -----

  class SizeStream {
    var size: nat

    constructor ()
      ensures size == 0
    {
      size := 0;
    }

    method Write(s: nat)
      modifies this
      ensures size == old(size) + s
    {
      size := size + s;
    }

    method PutVar(n: nat)
      modifies this
      ensures size == old(size) + |VarBytes(n)|
    {
      var val := n;
      var more := true;
      while more
        invariant size + (if more then |VarBytes(val)| else 0) == old(size) + |VarBytes(n)|
        decreases if more then 1 + val else 0
      {
        val := val / 128;
        Write(1);
        more := val > 0;
      }
    }

    method Put(s: Schema, v: Value)
      requires HasType(s, v)
      modifies this
      ensures size == old(size) + |Encode(s, v)|
      decreases s, 0
    {
      match s
      case Integer(w, signed) => Write(w);
      case Boolean => Write(1);
      case VarUint => PutVar(v.n);
      case VarInt =>
        ZigZagBack(v.n);
        PutVar(ZigZag(v.n));
      case Optional(elem) =>
        Write(1);
        if |v.items| > 0 { Put(elem, v.items[0]); }
      case Container(kind, elem) =>
        PutVar(|v.items|);
        PutAll(elem, v.items);
      case Tuple(fields) => PutFields(fields, v.items);
      case Variant(alternatives) =>
        PutVar(v.index);
        Put(alternatives[v.index], v.v);
    }

    method PutAll(elem: Schema, items: seq<Value>)
      requires forall i :: 0 <= i < |items| ==> HasType(elem, items[i])
      modifies this
      ensures size == old(size) + |EncodeAll(elem, items)|
      decreases elem, 1 + |items|
    {
      var i := 0;
      while i < |items|
        invariant 0 <= i <= |items| && size + |EncodeAll(elem, items[i..])| == old(size) + |EncodeAll(elem, items)|
      {
        assert items[i..][1..] == items[i + 1..];
        Put(elem, items[i]);
        i := i + 1;
      }
    }

    method PutFields(fields: seq<Schema>, items: seq<Value>)
      requires |items| == |fields| && forall i :: 0 <= i < |fields| ==> HasType(fields[i], items[i])
      modifies this
      ensures size == old(size) + |EncodeFields(fields, items)|
      decreases fields, 0
    {
      var i := 0;
      while i < |fields|
        invariant 0 <= i <= |fields|
        invariant size + |EncodeFields(fields[i..], items[i..])| == old(size) + |EncodeFields(fields, items)|
      {
        assert items[i..][1..] == items[i + 1..] && fields[i..][1..] == fields[i + 1..];
        Put(fields[i], items[i]);
        i := i + 1;
      }
    }
  }

  // ----- pack and unpack -----

  method PackSize(s: Schema, v: Value) returns (size: nat)
    requires HasType(s, v)
    ensures size == |Encode(s, v)|
  {
    var ps := new SizeStream();
    ps.Put(s, v);
    size := ps.size;
  }

  /** The buffer of pack_size bytes is filled exactly, and no write fails. */
  method Pack(s: Schema, v: Value) returns (result: array<Byte>)
    requires HasType(s, v)
    ensures fresh(result) && result[..] == Encode(s, v)
  {
    hide Encode, HasType;
    var size := PackSize(s, v);
    result := new Byte[size];
    var ds := new Datastream(result);
    var ok := ds.Put(s, v);
    assert ds.pos == result.Length;
  }

  method Unpack(s: Schema, buffer: array<Byte>) returns (ok: bool, v: Value)
    ensures var r := Decode(s, buffer[..]); (ok <==> r.Some?) && (ok ==> v == r.value.0)
  {
    var ds := new Datastream(buffer);
    assert buffer[0..] == buffer[..];
    ok, v := ds.GetValue(s);
  }
}
