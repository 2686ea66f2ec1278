/** The encoder, working on streams and on the shared iterator, proved against `EncodeSpec`. A message is written in
    full exactly if it can be encoded and fits; counting and writing agree on every size. */
module Encoder {
  import opened Bytes
  import opened Varint
  import opened Schema
  import opened DecodeSpec
  import opened EncodeSpec
  import opened WellFormed
  import opened RoundTrip
  import opened Iterator
  import opened OutputStream
  import opened Omission

  method EncodeTag(stream: OStream, wire: nat, tag: nat) returns (ok: bool)
    requires stream.Valid() && wire < 8 && tag < TWO_32
    modifies stream, stream.buf
    ensures stream.Valid()
    ensures ok <==> old(stream.Room(|TagBytes(tag, wire)|))
    ensures ok ==> stream.log == old(stream.log) + TagBytes(tag, wire)
  {
    ok := stream.WriteVarint(8 * tag + wire);
  }

  function LengthBytes(length: nat): seq<byte> {
    EncodeVarint(length % TWO_64)
  }

  lemma PrefixedParts(s: seq<byte>)
    ensures Prefixed(s) == LengthBytes(|s|) + s
    ensures |Prefixed(s)| == |LengthBytes(|s|)| + |s|
  {
  }

  method EncodeLength(stream: OStream, length: nat) returns (ok: bool)
    requires stream.Valid()
    modifies stream, stream.buf
    ensures stream.Valid()
    ensures ok <==> old(stream.Room(|LengthBytes(length)|))
    ensures ok ==> stream.log == old(stream.log) + LengthBytes(length)
  {
    ok := stream.WriteVarint(length % TWO_64);
  }

  /** A length prefix and the bytes. */
  method EncodeString(stream: OStream, data: seq<byte>) returns (ok: bool)
    requires stream.Valid()
    modifies stream, stream.buf
    ensures stream.Valid()
    ensures ok <==> old(stream.Room(|Prefixed(data)|))
    ensures ok ==> stream.log == old(stream.log) + Prefixed(data)
  {
    PrefixedParts(data);
    ok := EncodeLength(stream, |data|);
    if !ok {
      return;
    }
    ok := stream.Write(data);
  }

  // ----- Scalars -----

  /** The bytes of `v`, lowest first, each cut out of it by a shift and a mask. */
  method FixedBytes(v: nat, n: nat) returns (bytes: seq<byte>)
    requires n in {4, 8}
    ensures bytes == LittleEndian(v, n)
  {
    var a: array<byte> := new byte[n](_ => 0);
    var i := 0;
    ghost var done: seq<byte> := [];
    while i < n
      invariant 0 <= i <= n && a[..i] == done
      invariant LittleEndian(v, n) == done + LittleEndian(ShrBytes(v, i), n - i)
    {
      ShrNext(v, i);
      LowByte(done, ShrBytes(v, i), n - i);
      a[i] := ShrBytes(v, i) % 256;
      done := done + [ShrBytes(v, i) % 256];
      i := i + 1;
    }
    bytes := a[..];
    assert a[..n] == a[..];
  }

  lemma LowByte(done: seq<byte>, v: nat, n: nat)
    requires n > 0
    ensures done + LittleEndian(v, n) == done + [v % 256] + LittleEndian(v / 256, n - 1)
  {
  }

  /** `v >> 8 * i` */
  function ShrBytes(v: nat, i: nat): nat {
    if i == 0 then v else ShrBytes(v / 256, i - 1)
  }

  lemma {:induction false} ShrNext(v: nat, i: nat)
    ensures ShrBytes(v, i + 1) == ShrBytes(v, i) / 256
  {
    if i > 0 {
      ShrNext(v / 256, i - 1);
    }
  }

  /** The length of a string in its buffer: a loop, since strnlen is not always there. */
  method StringSize(chars: seq<byte>, maxSize: nat) returns (size: nat)
    ensures size == StringLength(chars, maxSize)
  {
    size := 0;
    while size < maxSize && size < |chars| && chars[size] != 0
      invariant 0 <= size <= maxSize && size <= |chars|
      invariant StringLength(chars, maxSize) == size + StringLength(chars[size..], maxSize - size)
    {
      assert chars[size..][1..] == chars[size + 1..];
      size := size + 1;
    }
  }

  method EncScalar(stream: OStream, f: Field, v: Value) returns (ok: bool)
    requires stream.Valid()
    modifies stream, stream.buf
    ensures stream.Valid()
    ensures var b := EncodeScalar(f, v);
            (ok <==> b.Some? && old(stream.Room(|b.value|))) && (ok ==> stream.log == old(stream.log) + b.value)
  {
    if f.Packable() {
      ok := EncNumber(stream, f, v);
    } else {
      ok := EncData(stream, f, v);
    }
  }

  method EncNumber(stream: OStream, f: Field, v: Value) returns (ok: bool)
    requires stream.Valid() && f.Packable()
    modifies stream, stream.buf
    ensures stream.Valid()
    ensures var b := EncodeScalar(f, v);
            (ok <==> b.Some? && old(stream.Room(|b.value|))) && (ok ==> stream.log == old(stream.log) + b.value)
  {
    match f.ltype {
      case LBool => ok := stream.WriteVarint(if IntOf(v) != 0 then 1 else 0);
      case LVarint | LUVarint =>
        if !IntegerSize(f.dataSize) {
          return false;
        }
        ok := stream.WriteVarint(IntOf(v) % TWO_64);
      case LSVarint =>
        if !IntegerSize(f.dataSize) {
          return false;
        }
        ok := stream.WriteVarint(ZigZag(IntOf(v)));
      case LFixed32 =>
        var bytes := FixedBytes(IntOf(v) % TWO_32, 4);
        ok := stream.Write(bytes);
      case LFixed64 =>
        var bytes := FixedBytes(IntOf(v) % TWO_64, 8);
        ok := stream.Write(bytes);
    }
  }

  method EncData(stream: OStream, f: Field, v: Value) returns (ok: bool)
    requires stream.Valid() && !f.Packable()
    modifies stream, stream.buf
    ensures stream.Valid()
    ensures var b := EncodeScalar(f, v);
            (ok <==> b.Some? && old(stream.Room(|b.value|))) && (ok ==> stream.log == old(stream.log) + b.value)
  {
    if !v.Data? {
      return false;
    }
    match f.ltype {
      case LBytes =>
        if |v.bytes| + BYTES_HEADER > f.dataSize {
          return false;
        }
        ok := EncodeString(stream, v.bytes);
      case LString =>
        var size := StringSize(v.bytes, f.dataSize);
        ok := EncodeString(stream, v.bytes[..size]);
      case LFixedLengthBytes =>
        if |v.bytes| != f.dataSize {
          return false;
        }
        ok := EncodeString(stream, v.bytes);
      case LSubmessage | LExtension => ok := false;
    }
  }

  // ----- The proto3 default check -----

  /** Whether a field is at its proto3 default; a submessage is walked field by field. */
  method CheckDefault(f: Field, slot: Slot) returns (isDefault: bool)
    requires ValidField(f)
    ensures isDefault == SlotIsDefault(f, slot)
    ensures SlotOk(f, slot) ==> (isDefault <==> IsAbsent(f, slot))
    decreases f, 1
  {
    if SlotOk(f, slot) {
      AbsentIsDefault(f, slot);
    }
    match f.htype {
      case Required => isDefault := false;
      case Repeated => isDefault := f.HasSize() && ItemsOf(slot) == [];
      case Oneof => isDefault := slot.Union? && slot.which == 0;
      case Optional =>
        if f.HasSize() {
          isDefault := !(slot.Flagged? && slot.has);
        } else {
          isDefault := CheckDefaultValue(f, Held(slot));
        }
    }
  }

  lemma ValidTable(fields: seq<Field>)
    requires ValidSchema(fields)
    ensures Table(fields)
  {
    assert forall i :: 0 <= i < |fields| ==> ValidField(fields[i]);
  }

  method CheckDefaultValue(f: Field, v: Value) returns (isDefault: bool)
    requires ValidField(f)
    ensures isDefault == ValueIsDefault(f, v)
    ensures ValueOk(f, v) ==> (isDefault <==> IsZero(f, v))
    decreases f, 0
  {
    if ValueOk(f, v) {
      ZeroIsDefault(f, v);
    }
    match f.ltype {
      case LBytes => isDefault := v.Data? && v.bytes == [];
      case LString => isDefault := v.Data? && (v.bytes == [] || v.bytes[0] == 0);
      case LFixedLengthBytes => isDefault := f.dataSize == 0;
      case LSubmessage =>
        var fields, m := f.ptr.fields, SlotsOf(v);
        ValidTable(fields);
        var iter := new FieldIterator(fields, 0);
        var any := iter.Begin();
        if !any {
          return true;
        }
        var more := true;
        while more
          invariant iter.start == fields && iter.Fresh()
          invariant more ==> forall i :: 0 <= i < iter.pos ==> SlotIsDefault(fields[i], SlotOf(m, fields[i]))
          invariant !more ==> forall i :: 0 <= i < |fields| ==> SlotIsDefault(fields[i], SlotOf(m, fields[i]))
          decreases if more then |fields| - iter.pos + 1 else 0
        {
          var one := CheckDefault(fields[iter.pos], SlotOf(m, fields[iter.pos]));
          if !one {
            return false;
          }
          more := iter.Next();
        }
        return true;
      case _ => isDefault := v == Int(0);
    }
  }

  // ----- Fields -----

  /** The bytes of a sequence of records, if there is one. */
  function BytesOf(rs: Option<seq<Record>>): Option<seq<byte>> {
    if rs.None? then None else Some(Flatten(rs.value))
  }

  method EncValue(stream: OStream, f: Field, v: Value) returns (ok: bool)
    requires stream.Valid() && ValidField(f)
    modifies stream, stream.buf
    ensures stream.Valid()
    ensures var b := EncodeValue(f, v);
            (ok <==> b.Some? && old(stream.Room(|b.value|))) && (ok ==> stream.log == old(stream.log) + b.value)
    decreases f, 0
  {
    if f.ltype.LSubmessage? {
      if !v.Msg? {
        return false;
      }
      ok := EncodeSubmessage(stream, f.ptr.fields, v.slots);
    } else {
      ok := EncScalar(stream, f, v);
    }
  }

  function PrefixedMessage(fields: seq<Field>, m: Message): Option<seq<byte>> {
    var b := EncodeMessage(fields, m);
    if b.None? then None else Some(Prefixed(b.value))
  }

  /** A submessage is encoded twice: to count its bytes, then to write them into a window of just that size. The second
      pass writes exactly what the first one counted, so the check for a changed size never fires. */
  method EncodeSubmessage(stream: OStream, fields: seq<Field>, m: Message) returns (ok: bool)
    requires stream.Valid() && ValidSchema(fields)
    modifies stream, stream.buf
    ensures stream.Valid()
    ensures var b := PrefixedMessage(fields, m);
            (ok <==> b.Some? && old(stream.Room(|b.value|))) && (ok ==> stream.log == old(stream.log) + b.value)
    decreases fields, 8
  {
    var sizing := new OStream.Sizing();
    ok := Encode(sizing, fields, m);
    if !ok {
      return;
    }
    assert sizing.log == EncodeMessage(fields, m).value;
    ok := WriteSized(stream, fields, m, sizing.bytesWritten, sizing.log);
  }

  /** Once the size is known. */
  method WriteSized(stream: OStream, fields: seq<Field>, m: Message, size: nat, ghost b: seq<byte>)
    returns (ok: bool)
    requires stream.Valid() && ValidSchema(fields)
    requires EncodeMessage(fields, m) == Some(b) && size == |b|
    modifies stream, stream.buf
    ensures stream.Valid()
    ensures ok <==> old(stream.Room(|Prefixed(b)|))
    ensures ok ==> stream.log == old(stream.log) + Prefixed(b)
    decreases fields, 7
  {
    PrefixedParts(b);
    ghost var before, prefix := stream.log, LengthBytes(size);
    ok := EncodeLength(stream, size);
    if !ok {
      return;
    }
    assert stream.log == before + prefix;
    ok := WriteBody(stream, fields, m, size, b);
    assert ok ==> stream.log == before + prefix + b;
    assert before + prefix + b == before + (prefix + b);
  }

  /** Once the length is written. A stream that only counts takes the size as it is. */
  method WriteBody(stream: OStream, fields: seq<Field>, m: Message, size: nat, ghost b: seq<byte>)
    returns (ok: bool)
    requires stream.Valid() && ValidSchema(fields)
    requires EncodeMessage(fields, m) == Some(b) && size == |b|
    modifies stream, stream.buf
    ensures stream.Valid()
    ensures (ok <==> old(stream.Room(|b|))) && (ok ==> stream.log == old(stream.log) + b)
    decreases fields, 6
  {
    if !stream.writing {
      stream.CountOnly(size, b);
      return true;
    }
    ok := WriteWindow(stream, fields, m, size, b);
  }

  /** The second pass, in a window of the size that the first one found. */
  method WriteWindow(stream: OStream, fields: seq<Field>, m: Message, size: nat, ghost b: seq<byte>)
    returns (ok: bool)
    requires stream.Valid() && stream.writing && ValidSchema(fields)
    requires EncodeMessage(fields, m) == Some(b) && size == |b|
    modifies stream, stream.buf
    ensures stream.Valid()
    ensures (ok <==> old(stream.Room(|b|))) && (ok ==> stream.log == old(stream.log) + b)
    decreases fields, 5
  {
    if stream.bytesWritten + size > stream.maxSize {
      return false;
    }
    var window := new OStream.Window(stream, size);
    assert window.outside[stream.limit - window.limit..] == stream.outside;
    var status := Encode(window, fields, m);
    assert status && window.bytesWritten == size;
    stream.Adopt(window);
    if window.bytesWritten != size {
      return false;
    }
    return status;
  }

  method EncTagFor(stream: OStream, f: Field) returns (ok: bool)
    requires stream.Valid() && ValidField(f)
    modifies stream, stream.buf
    ensures stream.Valid()
    ensures WireType(f).Some?
    ensures var b := TagBytes(f.tag, WireType(f).value);
            (ok <==> old(stream.Room(|b|))) && (ok ==> stream.log == old(stream.log) + b)
  {
    var wire: nat := 0;
    match f.ltype {
      case LBool | LVarint | LUVarint | LSVarint => wire := WT_VARINT;
      case LFixed32 => wire := WT_32BIT;
      case LFixed64 => wire := WT_64BIT;
      case LBytes | LString | LSubmessage | LFixedLengthBytes => wire := WT_STRING;
    }
    ok := EncodeTag(stream, wire, f.tag);
  }

  method EncRecord(stream: OStream, f: Field, v: Value) returns (ok: bool)
    requires stream.Valid() && ValidField(f)
    modifies stream, stream.buf
    ensures stream.Valid()
    ensures var b := BytesOf(OneRecord(f, v));
            (ok <==> b.Some? && old(stream.Room(|b.value|))) && (ok ==> stream.log == old(stream.log) + b.value)
    decreases f, 1
  {
    OneRecordFlat(f, v);
    ok := EncTagFor(stream, f);
    if !ok {
      return;
    }
    ok := EncValue(stream, f, v);
  }

  lemma OneRecordFlat(f: Field, v: Value)
    requires ValidField(f)
    ensures WireType(f).Some?
    ensures BytesOf(OneRecord(f, v)) ==
            if EncodeValue(f, v).None? then None
            else Some(TagBytes(f.tag, WireType(f).value) + EncodeValue(f, v).value)
  {
    if EncodeValue(f, v).Some? {
      var r := Record(f.tag, WireType(f).value, EncodeValue(f, v).value);
      assert OneRecord(f, v) == Some([r]);
      OneRecordBytes(r);
    }
  }

  /** An array: scalars go into one packed record, whose size is computed or counted first. */
  method EncArray(stream: OStream, f: Field, items: seq<Value>) returns (ok: bool)
    requires stream.Valid() && ValidField(f)
    modifies stream, stream.buf
    ensures stream.Valid()
    ensures var b := BytesOf(ArrayRecords(f, items));
            (ok <==> b.Some? && old(stream.Room(|b.value|))) && (ok ==> stream.log == old(stream.log) + b.value)
    decreases f, 3
  {
    if items == [] {
      return true;
    }
    if |items| > f.arraySize {
      return false;
    }
    if f.Packable() {
      ok := EncPacked(stream, f, items);
    } else {
      ok := EncUnpacked(stream, f, items);
    }
  }

  /** Fixed-width elements need no counting pass. */
  lemma {:induction false} FixedSizes(f: Field, items: seq<Value>, i: nat)
    requires i <= |items| && f.ltype in {LFixed32, LFixed64}
    ensures EncodePacked(f, items, i).Some?
    ensures |EncodePacked(f, items, i).value| == (if f.ltype.LFixed32? then 4 else 8) * (|items| - i)
    decreases |items| - i
  {
    if i < |items| {
      FixedSizes(f, items, i + 1);
    }
  }

  /** All elements back to back. */
  method EncElements(stream: OStream, f: Field, items: seq<Value>) returns (ok: bool)
    requires stream.Valid() && f.Packable()
    modifies stream, stream.buf
    ensures stream.Valid()
    ensures var b := EncodePacked(f, items, 0);
            (ok <==> b.Some? && old(stream.Room(|b.value|))) && (ok ==> stream.log == old(stream.log) + b.value)
  {
    var i := 0;
    ghost var done: seq<byte> := [];
    ghost var whole := EncodePacked(f, items, 0);
    NothingFollowed(whole);
    while i < |items|
      invariant 0 <= i <= |items|
      invariant stream.Valid() && stream.log == old(stream.log) + done
      invariant whole == Followed(done, EncodePacked(f, items, i))
    {
      ghost var first := EncodeScalar(f, items[i]);
      FollowStep(whole, done, first, EncodePacked(f, items, i + 1));
      ok := EncScalar(stream, f, items[i]);
      if !ok {
        return;
      }
      done := done + first.value;
      i := i + 1;
    }
    return true;
  }

  method EncPacked(stream: OStream, f: Field, items: seq<Value>) returns (ok: bool)
    requires stream.Valid() && ValidField(f) && f.Packable() && items != [] && |items| <= f.arraySize
    modifies stream, stream.buf
    ensures stream.Valid()
    ensures var b := BytesOf(ArrayRecords(f, items));
            (ok <==> b.Some? && old(stream.Room(|b.value|))) && (ok ==> stream.log == old(stream.log) + b.value)
  {
    PackedFlat(f, items);
    ok := EncodeTag(stream, WT_STRING, f.tag);
    if !ok {
      return;
    }
    ok := EncPackedPayload(stream, f, items);
  }

  function PackedPayload(f: Field, items: seq<Value>): Option<seq<byte>> {
    var p := EncodePacked(f, items, 0);
    if p.None? then None else Some(Prefixed(p.value))
  }

  method EncPackedPayload(stream: OStream, f: Field, items: seq<Value>) returns (ok: bool)
    requires stream.Valid() && f.Packable()
    modifies stream, stream.buf
    ensures stream.Valid()
    ensures var b := PackedPayload(f, items);
            (ok <==> b.Some? && old(stream.Room(|b.value|))) && (ok ==> stream.log == old(stream.log) + b.value)
  {
    var size: nat;
    ok, size := PackedSize(f, items);
    if !ok {
      return;
    }
    PrefixedParts(EncodePacked(f, items, 0).value);
    ok := EncodeLength(stream, size);
    if !ok {
      return;
    }
    if !stream.writing {
      stream.CountOnly(size, EncodePacked(f, items, 0).value);
      return;
    }
    ok := EncElements(stream, f, items);
  }

  /** Four or eight bytes an element, or a counting pass. */
  method PackedSize(f: Field, items: seq<Value>) returns (ok: bool, size: nat)
    requires f.Packable()
    ensures ok <==> EncodePacked(f, items, 0).Some?
    ensures ok ==> size == |EncodePacked(f, items, 0).value|
  {
    if f.ltype.LFixed32? {
      FixedSizes(f, items, 0);
      return true, 4 * |items|;
    } else if f.ltype.LFixed64? {
      FixedSizes(f, items, 0);
      return true, 8 * |items|;
    }
    var sizing := new OStream.Sizing();
    ok := EncElements(sizing, f, items);
    size := sizing.bytesWritten;
  }

  lemma PackedFlat(f: Field, items: seq<Value>)
    requires f.Packable() && items != [] && |items| <= f.arraySize
    ensures BytesOf(ArrayRecords(f, items)) ==
            Followed(TagBytes(f.tag, WT_STRING), PackedPayload(f, items))
  {
    var p := PackedPayload(f, items);
    if p.Some? {
      var r := Record(f.tag, WT_STRING, p.value);
      assert ArrayRecords(f, items) == Some([r]);
      OneRecordBytes(r);
    }
  }

  method EncUnpacked(stream: OStream, f: Field, items: seq<Value>) returns (ok: bool)
    requires stream.Valid() && ValidField(f)
    modifies stream, stream.buf
    ensures stream.Valid()
    ensures var b := BytesOf(UnpackedRecords(f, items, 0));
            (ok <==> b.Some? && old(stream.Room(|b.value|))) && (ok ==> stream.log == old(stream.log) + b.value)
    decreases f, 2
  {
    var i := 0;
    ghost var done: seq<byte> := [];
    ghost var whole := BytesOf(UnpackedRecords(f, items, 0));
    NothingFollowed(whole);
    while i < |items|
      invariant 0 <= i <= |items|
      invariant stream.Valid() && stream.log == old(stream.log) + done
      invariant whole == Followed(done, BytesOf(UnpackedRecords(f, items, i)))
    {
      UnpackedFlat(f, items, i);
      ghost var first := BytesOf(OneRecord(f, items[i]));
      FollowStep(whole, done, first, BytesOf(UnpackedRecords(f, items, i + 1)));
      ok := EncRecord(stream, f, items[i]);
      if !ok {
        return;
      }
      done := done + first.value;
      i := i + 1;
    }
    return true;
  }

  lemma UnpackedFlat(f: Field, items: seq<Value>, i: nat)
    requires i < |items|
    ensures var first := BytesOf(OneRecord(f, items[i]));
            BytesOf(UnpackedRecords(f, items, i)) ==
            if first.None? then None else Followed(first.value, BytesOf(UnpackedRecords(f, items, i + 1)))
  {
    var first, rest := OneRecord(f, items[i]), UnpackedRecords(f, items, i + 1);
    if first.Some? && rest.Some? {
      FlattenAppend(first.value, rest.value);
    }
  }

  /** A field of the struct. */
  method EncField(stream: OStream, f: Field, slot: Slot) returns (ok: bool)
    requires stream.Valid() && ValidField(f)
    modifies stream, stream.buf
    ensures stream.Valid()
    ensures var b := BytesOf(FieldRecords(f, slot));
            (ok <==> b.Some? && old(stream.Room(|b.value|))) && (ok ==> stream.log == old(stream.log) + b.value)
    decreases f, 4
  {
    var implicitHas := true;
    if f.htype.Optional? && !f.HasSize() {
      var isDefault := CheckDefault(f, slot);
      implicitHas := !isDefault;
    }
    match f.htype {
      case Required => ok := EncRecord(stream, f, Held(slot));
      case Optional =>
        if (if f.HasSize() then slot.Flagged? && slot.has else implicitHas) {
          ok := EncRecord(stream, f, Held(slot));
        } else {
          ok := true;
        }
      case Repeated =>
        if f.FixedCount() && |ItemsOf(slot)| != f.arraySize {
          return false;
        }
        ok := EncArray(stream, f, ItemsOf(slot));
      case Oneof =>
        if slot.Union? && slot.which == f.tag {
          ok := EncRecord(stream, f, Held(slot));
        } else {
          ok := true;
        }
    }
  }

  /** Field `i` of a message: `rest` is the part of the message that is still to be written. */
  method EncodeFieldAt(stream: OStream, fields: seq<Field>, m: Message, i: nat, ghost rest: Option<seq<byte>>)
    returns (ok: bool, ghost part: seq<byte>, ghost next: Option<seq<byte>>)
    requires stream.Valid() && ValidSchema(fields) && i < |fields|
    requires rest == BytesOf(RecordsFrom(fields, m, i))
    modifies stream, stream.buf
    ensures stream.Valid()
    ensures !ok ==> rest.Some? ==> !old(stream.Room(|rest.value|))
    ensures ok ==> stream.log == old(stream.log) + part
    ensures ok ==> rest == Followed(part, next)
    ensures next == BytesOf(RecordsFrom(fields, m, i + 1))
    ensures i + 1 == |fields| ==> next == Some([])
    decreases fields, 1
  {
    MessageFlat(fields, m, i);
    ghost var first := BytesOf(FieldRecords(fields[i], SlotOf(m, fields[i])));
    next := BytesOf(RecordsFrom(fields, m, i + 1));
    ok := EncField(stream, fields[i], SlotOf(m, fields[i]));
    part := if ok then first.value else [];
  }

  /** `pb_encode`: the fields in table order. */
  method Encode(stream: OStream, fields: seq<Field>, m: Message) returns (ok: bool)
    requires stream.Valid() && ValidSchema(fields)
    modifies stream, stream.buf
    ensures stream.Valid()
    ensures var b := EncodeMessage(fields, m);
            (ok <==> b.Some? && old(stream.Room(|b.value|))) && (ok ==> stream.log == old(stream.log) + b.value)
    decreases fields, 4
  {
    ValidTable(fields);
    var iter := new FieldIterator(fields, 0);
    if fields == [] {
      return true;
    }
    ghost var b := EncodeMessage(fields, m);
    ok := EncodeFields(stream, fields, m, iter, b);
  }

  /** The loop of `pb_encode`, from the first field on; `whole` is all that is to be written. */
  method EncodeFields(
    stream: OStream, fields: seq<Field>, m: Message, iter: FieldIterator, ghost whole: Option<seq<byte>>)
    returns (ok: bool)
    requires stream.Valid() && ValidSchema(fields) && fields != []
    requires iter.start == fields && iter.Fresh() && iter.pos == 0
    requires whole == BytesOf(RecordsFrom(fields, m, 0))
    modifies stream, stream.buf, iter
    ensures stream.Valid()
    ensures ok <==> whole.Some? && old(stream.Room(|whole.value|))
    ensures ok ==> stream.log == old(stream.log) + whole.value
    decreases fields, 3
  {
    ghost var done: seq<byte> := [];
    ghost var rest := whole;
    NothingFollowed(whole);
    var more := true;
    while more
      invariant iter.start == fields && iter.Fresh()
      invariant stream.Valid() && stream.log == old(stream.log) + done
      invariant stream.bytesWritten == old(stream.bytesWritten) + |done|
      invariant whole == Followed(done, rest) && RestIs(fields, m, iter.pos, more, rest)
      decreases if more then |fields| - iter.pos else 0
    {
      ghost var part, next;
      ok, more, part, next := EncodeStep(stream, fields, m, iter, rest);
      if !ok {
        return;
      }
      FollowAgain(done, part, next);
      done, rest := done + part, next;
    }
    FollowedByNothing(done);
    return true;
  }

  /** What is still to be written while the iterator goes on. */
  predicate RestIs(fields: seq<Field>, m: Message, pos: nat, more: bool, rest: Option<seq<byte>>) {
    if more then pos < |fields| && rest == BytesOf(RecordsFrom(fields, m, pos)) else rest == Some([])
  }

  /** One field, and on to the next. */
  method EncodeStep(
    stream: OStream, fields: seq<Field>, m: Message, iter: FieldIterator, ghost rest: Option<seq<byte>>)
    returns (ok: bool, more: bool, ghost part: seq<byte>, ghost next: Option<seq<byte>>)
    requires stream.Valid() && ValidSchema(fields) && fields != []
    requires iter.start == fields && iter.Fresh() && RestIs(fields, m, iter.pos, true, rest)
    modifies stream, stream.buf, iter
    ensures stream.Valid() && (ok ==> iter.Fresh() && RestIs(fields, m, iter.pos, more, next))
    ensures !ok ==> rest.Some? ==> !old(stream.Room(|rest.value|))
    ensures ok ==> stream.log == old(stream.log) + part && rest == Followed(part, next)
    ensures ok && more ==> iter.pos == old(iter.pos) + 1
    decreases fields, 2
  {
    ok, part, next := EncodeFieldAt(stream, fields, m, iter.pos, rest);
    more := false;
    if ok {
      more := iter.Next();
    }
  }

  lemma MessageFlat(fields: seq<Field>, m: Message, i: nat)
    requires i < |fields|
    ensures var first := BytesOf(FieldRecords(fields[i], SlotOf(m, fields[i])));
            BytesOf(RecordsFrom(fields, m, i)) ==
            if first.None? then None else Followed(first.value, BytesOf(RecordsFrom(fields, m, i + 1)))
  {
    var first, rest := FieldRecords(fields[i], SlotOf(m, fields[i])), RecordsFrom(fields, m, i + 1);
    if first.Some? && rest.Some? {
      FlattenAppend(first.value, rest.value);
    }
  }

  // ----- Whole buffers -----

  /** `pb_get_encoded_size`: the counting pass alone. */
  method GetEncodedSize(fields: seq<Field>, m: Message) returns (ok: bool, size: nat)
    requires ValidSchema(fields)
    ensures ok <==> EncodeMessage(fields, m).Some?
    ensures ok ==> size == |EncodeMessage(fields, m).value|
  {
    var stream := new OStream.Sizing();
    ok := Encode(stream, fields, m);
    size := stream.bytesWritten;
  }

  /** A message can be written exactly if it can be encoded and its size fits. The buffer beyond the limit is left
      alone. */
  method EncodeInto(buf: array<byte>, size: nat, fields: seq<Field>, m: Message) returns (ok: bool, written: nat)
    requires size <= buf.Length && ValidSchema(fields)
    modifies buf
    ensures ok <==> EncodeMessage(fields, m).Some? && |EncodeMessage(fields, m).value| <= size
    ensures ok ==> written <= size && buf[..written] == EncodeMessage(fields, m).value
    ensures buf[size..] == old(buf[size..])
  {
    var stream := new OStream.FromBuffer(buf, size);
    ok := Encode(stream, fields, m);
    written := stream.bytesWritten;
  }
}
