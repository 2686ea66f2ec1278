/** What the encoder writes, as bytes: fields in the order of the table, and each record type by type. */
module Records {
  import opened Bytes
  import opened Varint
  import opened Schema
  import opened DecodeSpec
  import opened EncodeSpec
  import opened WellFormed
  import opened RoundTrip
  import opened Normal
  import opened Wire

  // ----- The order of fields -----

  /** One encoding after the other, if there are both. */
  function Both(a: Option<seq<byte>>, b: Option<seq<byte>>): Option<seq<byte>> {
    if a.None? || b.None? then None else Some(a.value + b.value)
  }

  function BytesOfRecords(rs: Option<seq<Record>>): Option<seq<byte>> {
    if rs.None? then None else Some(Flatten(rs.value))
  }

  /** Records followed by others. */
  function Appended(first: Option<seq<Record>>, rest: Option<seq<Record>>): Option<seq<Record>> {
    if first.None? || rest.None? then None else Some(first.value + rest.value)
  }

  lemma AppendedBytes(first: Option<seq<Record>>, rest: Option<seq<Record>>)
    ensures BytesOfRecords(Appended(first, rest)) == Both(BytesOfRecords(first), BytesOfRecords(rest))
  {
    if first.Some? && rest.Some? {
      FlattenAppend(first.value, rest.value);
    }
  }

  lemma BothAgain(a: Option<seq<byte>>, b: Option<seq<byte>>, c: Option<seq<byte>>)
    ensures Both(a, Both(b, c)) == Both(Both(a, b), c)
    ensures Both(Some([]), c) == c
  {
    if a.Some? && b.Some? && c.Some? {
      assert a.value + (b.value + c.value) == a.value + b.value + c.value;
    }
    if c.Some? {
      assert [] + c.value == c.value;
    }
  }

  lemma {:induction false} RecordsOfBoth(a: seq<Field>, b: seq<Field>, m: Message, i: nat)
    requires i <= |a|
    ensures BytesOfRecords(RecordsFrom(a + b, m, i)) == Both(BytesOfRecords(RecordsFrom(a, m, i)), EncodeMessage(b, m))
    decreases |a| - i
  {
    if i == |a| {
      RecordsOfRest(a, b, m, 0);
      BothAgain(None, None, EncodeMessage(b, m));
    } else {
      RecordsOfBoth(a, b, m, i + 1);
      assert (a + b)[i] == a[i];
      var first, rest := FieldRecords(a[i], SlotOf(m, a[i])), RecordsFrom(a, m, i + 1);
      assert RecordsFrom(a, m, i) == Appended(first, rest);
      assert RecordsFrom(a + b, m, i) == Appended(first, RecordsFrom(a + b, m, i + 1));
      AppendedBytes(first, rest);
      AppendedBytes(first, RecordsFrom(a + b, m, i + 1));
      BothAgain(BytesOfRecords(first), BytesOfRecords(rest), EncodeMessage(b, m));
    }
  }

  lemma {:induction false} RecordsOfRest(a: seq<Field>, b: seq<Field>, m: Message, j: nat)
    requires j <= |b|
    ensures RecordsFrom(a + b, m, |a| + j) == RecordsFrom(b, m, j)
    decreases |b| - j
  {
    if j < |b| {
      RecordsOfRest(a, b, m, j + 1);
      assert (a + b)[|a| + j] == b[j];
    }
  }

  /** The fields of a message are written in the order of the table. */
  lemma FieldsInOrder(a: seq<Field>, b: seq<Field>, m: Message)
    ensures EncodeMessage(a + b, m) == Both(EncodeMessage(a, m), EncodeMessage(b, m))
  {
    RecordsOfBoth(a, b, m, 0);
  }

  /** A table of one field. */
  lemma OneField(f: Field, m: Message)
    requires f.Key() in m
    ensures EncodeMessage([f], m) == BytesOfRecords(FieldRecords(f, m[f.Key()]))
    ensures EncodeMessage([], m) == Some([])
  {
    assert RecordsFrom([f], m, 1) == Some([]);
    var rs := FieldRecords(f, m[f.Key()]);
    assert rs.Some? ==> rs.value + [] == rs.value;
  }

  // ----- One record -----

  /** The wire type of a single value. */
  function WireNumber(t: LType): nat {
    match t
    case LBool | LVarint | LUVarint | LSVarint => 0
    case LFixed64 => 1
    case LFixed32 => 5
    case LBytes | LString | LSubmessage | LFixedLengthBytes | LExtension => 2
  }

  /** The bytes of a value: a number as a varint, negative ones as 64-bit numbers or by zigzag, or in four or eight
      bytes; anything else after its length, a string up to its NUL. */
  function Payload(f: Field, v: Value): seq<byte>
    requires ValidField(f) && ValueOk(f, v)
  {
    match f.ltype
    case LBool => [if v.n == 0 then 0 else 1]
    case LUVarint => EncodeVarint(v.n)
    case LVarint => EncodeVarint(if v.n < 0 then v.n + 0x1_0000_0000_0000_0000 else v.n)
    case LSVarint => EncodeVarint(if v.n < 0 then -2 * v.n - 1 else 2 * v.n)
    case LFixed32 => FourBytes(v.n)
    case LFixed64 => FourBytes(v.n) + FourBytes(v.n / 0x1_0000_0000)
    case LBytes | LFixedLengthBytes => EncodeVarint(|v.bytes|) + v.bytes
    case LString => var n := StringLength(v.bytes, f.dataSize); EncodeVarint(n) + v.bytes[..n]
    case LSubmessage =>
      var b := EncodeMessage(f.ptr.fields, v.slots);
      if b.None? then [] else EncodeVarint(|b.value| % 0x1_0000_0000_0000_0000) + b.value
    case LExtension => []
  }

  lemma IntegerPayload(f: Field, v: Value)
    requires ValidField(f) && ValueOk(f, v) && f.ltype in {LBool, LVarint, LUVarint, LSVarint}
    ensures EncodeScalar(f, v) == Some(Payload(f, v))
  {
    match f.ltype {
      case LBool =>
      case LVarint =>
        if v.n < 0 {
          ModNegative(v.n);
        } else {
          SmallMod(v.n, TWO_64);
        }
      case LUVarint => SmallMod(v.n, TWO_64);
      case LSVarint => ZigZagIs(v.n, 0);
    }
  }

  lemma FixedPayload(f: Field, v: Value)
    requires ValidField(f) && ValueOk(f, v) && f.ltype in {LFixed32, LFixed64}
    ensures EncodeScalar(f, v) == Some(Payload(f, v))
  {
    SmallMod(v.n, if f.ltype.LFixed32? then TWO_32 else TWO_64);
    LittleEndianIs(v.n);
  }

  lemma DataPayload(f: Field, v: Value)
    requires ValidField(f) && ValueOk(f, v) && f.ltype in {LBytes, LString, LFixedLengthBytes}
    ensures EncodeScalar(f, v) == Some(Payload(f, v))
  {
    SmallMod(if f.ltype.LString? then StringLength(v.bytes, f.dataSize) else |v.bytes|, TWO_64);
  }

  lemma PayloadIs(f: Field, v: Value)
    requires ValidField(f) && ValueOk(f, v) && EncodeValue(f, v).Some?
    ensures EncodeValue(f, v).value == Payload(f, v)
  {
    if f.ltype in {LFixed32, LFixed64} {
      FixedPayload(f, v);
    } else if f.Packable() {
      IntegerPayload(f, v);
    } else if !f.ltype.LSubmessage? {
      DataPayload(f, v);
    }
  }

  /** The record of one value. */
  function RecordOf(f: Field, v: Value): seq<byte>
    requires ValidField(f) && ValueOk(f, v)
  {
    EncodeVarint(8 * f.tag + WireNumber(f.ltype)) + Payload(f, v)
  }

  lemma OneRecordIs(f: Field, v: Value)
    requires ValidField(f) && ValueOk(f, v) && OneRecord(f, v).Some?
    ensures Flatten(OneRecord(f, v).value) == RecordOf(f, v)
  {
    PayloadIs(f, v);
    OneRecordBytes(OneRecord(f, v).value[0]);
  }

  /** A field that is not an array, if it is written at all, is its tag, its wire type and its value. */
  lemma FieldIsWritten(f: Field, m: Message)
    requires ValidField(f) && !f.htype.Repeated? && f.Key() in m && SlotOk(f, m[f.Key()])
    requires EncodeMessage([f], m) != Some([])
    ensures ValueOk(f, m[f.Key()].v)
    ensures EncodeMessage([f], m) == Some(EncodeVarint(8 * f.tag + WireNumber(f.ltype)) + Payload(f, m[f.Key()].v))
  {
    var slot := m[f.Key()];
    OneField(f, m);
    assert Present(f, slot);
    SlotEncodes(f, slot);
    OneRecordIs(f, slot.v);
  }

  // ----- Arrays -----

  ghost predicate AllOk(f: Field, xs: seq<Value>) {
    forall i :: 0 <= i < |xs| ==> ValueOk(f, xs[i])
  }

  /** The values from index `i` on, back to back. */
  ghost function Payloads(f: Field, xs: seq<Value>, i: nat): seq<byte>
    requires ValidField(f) && AllOk(f, xs) && i <= |xs|
    decreases |xs| - i
  {
    if i == |xs| then [] else Payload(f, xs[i]) + Payloads(f, xs, i + 1)
  }

  /** One record for each of them. */
  ghost function RecordsOf(f: Field, xs: seq<Value>, i: nat): seq<byte>
    requires ValidField(f) && AllOk(f, xs) && i <= |xs|
    decreases |xs| - i
  {
    if i == |xs| then [] else RecordOf(f, xs[i]) + RecordsOf(f, xs, i + 1)
  }

  lemma {:induction false} PackedIs(f: Field, xs: seq<Value>, i: nat)
    requires ValidField(f) && f.Packable() && AllOk(f, xs) && i <= |xs|
    ensures EncodePacked(f, xs, i) == Some(Payloads(f, xs, i))
    decreases |xs| - i
  {
    if i < |xs| {
      PackedIs(f, xs, i + 1);
      ValueEncodes(f, xs[i]);
      PayloadIs(f, xs[i]);
    }
  }

  lemma {:induction false} UnpackedIs(f: Field, xs: seq<Value>, i: nat)
    requires ValidField(f) && AllOk(f, xs) && i <= |xs|
    ensures BytesOfRecords(UnpackedRecords(f, xs, i)) == Some(RecordsOf(f, xs, i))
    decreases |xs| - i
  {
    if i < |xs| {
      UnpackedIs(f, xs, i + 1);
      ValueEncodes(f, xs[i]);
      OneRecordIs(f, xs[i]);
      AppendedBytes(OneRecord(f, xs[i]), UnpackedRecords(f, xs, i + 1));
    }
  }

  /** An array of numbers is one record of wire type 2, which holds them back to back after their length; other arrays
      are a record for each element. More elements than there is room for, or fewer than a fixed number of them, are an
      error. */
  lemma ArrayIsWritten(f: Field, m: Message)
    requires ValidField(f) && f.htype.Repeated? && f.Key() in m && m[f.Key()].Items? && AllOk(f, m[f.Key()].items)
    ensures var xs := m[f.Key()].items;
            EncodeMessage([f], m) ==
            if |xs| > f.arraySize || (f.sizeOffset == 0 && |xs| < f.arraySize) then None
            else if xs == [] then Some([])
            else if f.ltype in {LBool, LVarint, LUVarint, LSVarint, LFixed32, LFixed64} then
              var p := Payloads(f, xs, 0);
              Some(EncodeVarint(8 * f.tag + 2) + (EncodeVarint(|p| % 0x1_0000_0000_0000_0000) + p))
            else Some(RecordsOf(f, xs, 0))
  {
    var xs := m[f.Key()].items;
    OneField(f, m);
    if xs != [] && |xs| <= f.arraySize {
      if f.Packable() {
        PackedIs(f, xs, 0);
        OneRecordBytes(Record(f.tag, 2, Prefixed(Payloads(f, xs, 0))));
      } else {
        UnpackedIs(f, xs, 0);
      }
    }
  }

  /** Neither can a byte string be written that is larger than its buffer. */
  lemma TooLongFails(f: Field, m: Message, b: seq<byte>)
    requires f.htype.Required? && f.Key() in m && m[f.Key()] == Single(Data(b))
    ensures f.ltype.LBytes? ==> (EncodeMessage([f], m) == None <==> |b| + 4 > f.dataSize)
    ensures f.ltype.LFixedLengthBytes? ==> (EncodeMessage([f], m) == None <==> |b| != f.dataSize)
    ensures f.ltype.LString? ==> EncodeMessage([f], m).Some?
  {
    OneField(f, m);
    assert !f.ltype.LSubmessage? ==> EncodeValue(f, Data(b)) == EncodeScalar(f, Data(b));
    assert FieldRecords(f, m[f.Key()]) == OneRecord(f, Data(b));
  }

  /** A bool is written as 1 unless it is 0, whatever byte the struct holds. */
  lemma AnyBoolIsOne(f: Field, m: Message, n: nat)
    requires f.htype.Required? && f.ltype.LBool? && f.Key() in m && m[f.Key()] == Single(Int(n))
    ensures EncodeMessage([f], m) == Some(EncodeVarint(8 * f.tag) + [if n == 0 then 0 else 1])
  {
    OneField(f, m);
    var r := Record(f.tag, 0, [if n == 0 then 0 else 1]);
    assert EncodeValue(f, Int(n)) == Some(r.payload);
    assert FieldRecords(f, m[f.Key()]) == Some([r]);
    OneRecordBytes(r);
  }

  // ----- Two messages -----

  /** A timestamp, 1 s and 0 ns: a zero is not written. */
  lemma OneSecond(fields: seq<Field>, m: Message)
    requires fields == [Field(1, Optional, LVarint, 0, 0, 8, 0, 0, Null),
                        Field(2, Optional, LVarint, 0, 0, 4, 0, 0, Null)]
    requires m == map[FieldKey(1) := Single(Int(1)), FieldKey(2) := Single(Int(0))]
    ensures ValidSchema(fields) && MessageOk(fields, m)
    ensures EncodeMessage(fields, m) == Some([8, 1])
  {
    var f, g := fields[0], fields[1];
    assert fields == [f] + [g];
    assert ValidField(f) && ValidField(g);
    FieldsInOrder([f], [g], m);
    OneField(g, m);
    assert EncodeMessage([g], m) == Some([]);
    OneNumber(f, m);
    assert EncodeVarint(8) == [8] && EncodeVarint(1) == [1];
    assert RecordOf(f, Int(1)) == [8] + [1];
    assert [8] + [1] + [] == [8, 1];
  }

  lemma OneNumber(f: Field, m: Message)
    requires ValidField(f) && f.Packable() && f.htype.Optional? && !f.HasSize()
    requires f.Key() in m && m[f.Key()].Single? && m[f.Key()].v != Int(0) && ValueOk(f, m[f.Key()].v)
    ensures EncodeMessage([f], m) == Some(RecordOf(f, m[f.Key()].v))
  {
    OneField(f, m);
    SlotEncodes(f, m[f.Key()]);
    FieldIsWritten(f, m);
  }

  /** A double, 1.0: eight bytes after the tag byte 9. */
  lemma OneDouble(fields: seq<Field>, m: Message, bits: nat)
    requires fields == [Field(1, Optional, LFixed64, 0, 0, 8, 0, 0, Null)]
    requires bits == 0x3FF0_0000_0000_0000 && m == map[FieldKey(1) := Single(Int(bits))]
    ensures ValidSchema(fields) && MessageOk(fields, m)
    ensures EncodeMessage(fields, m) == Some([9, 0, 0, 0, 0, 0, 0, 0xF0, 0x3F])
  {
    var f := fields[0];
    assert ValidField(f);
    OneNumber(f, m);
    BytesOfOne(bits);
    assert EncodeVarint(9) == [9];
    assert RecordOf(f, Int(bits)) == [9] + ([0, 0, 0, 0] + [0, 0, 0xF0, 0x3F]);
    assert [9] + ([0, 0, 0, 0] + [0, 0, 0xF0, 0x3F]) == [9, 0, 0, 0, 0, 0, 0, 0xF0, 0x3F];
  }

  lemma BytesOfOne(bits: nat)
    requires bits == 0x3FF0_0000_0000_0000
    ensures FourBytes(bits) == [0, 0, 0, 0] && FourBytes(bits / 0x1_0000_0000) == [0, 0, 0xF0, 0x3F]
  {
  }
}
