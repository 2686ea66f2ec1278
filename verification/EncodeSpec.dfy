/** What the encoder writes: a message is a sequence of records, and its encoding is their bytes. */
module EncodeSpec {
  import opened Bytes
  import opened Varint
  import opened Schema
  import opened DecodeSpec

  datatype Record = Record(tag: nat, wire: nat, payload: seq<byte>)

  function TagBytes(tag: nat, wire: nat): seq<byte> {
    EncodeVarint(8 * tag + wire)
  }

  function RecordBytes(r: Record): seq<byte> {
    TagBytes(r.tag, r.wire) + r.payload
  }

  function Flatten(rs: seq<Record>): seq<byte> {
    if rs == [] then [] else RecordBytes(rs[0]) + Flatten(rs[1..])
  }

  // ----- Scalars -----

  function WireType(f: Field): Option<nat> {
    match f.ltype
    case LBool | LVarint | LUVarint | LSVarint => Some(WT_VARINT)
    case LFixed32 => Some(WT_32BIT)
    case LFixed64 => Some(WT_64BIT)
    case LBytes | LString | LSubmessage | LFixedLengthBytes => Some(WT_STRING)
    case LExtension => None
  }

  /** The length, as a 64-bit number, and the bytes. */
  function Prefixed(s: seq<byte>): seq<byte> {
    EncodeVarint(|s| % TWO_64) + s
  }

  /** strnlen: the characters before the first NUL, at most `limit`. */
  function StringLength(s: seq<byte>, limit: nat): (n: nat)
    ensures n <= |s| && n <= limit
    ensures forall i :: 0 <= i < n ==> s[i] != 0
    ensures n < |s| && n < limit ==> s[n] == 0
  {
    if s == [] || limit == 0 || s[0] == 0 then 0 else 1 + StringLength(s[1..], limit - 1)
  }

  predicate IntegerSize(size: nat) {
    size == 1 || size == 2 || size == 4 || size == 8
  }

  /** The number in a numeric field. */
  function IntOf(v: Value): int {
    if v.Int? then v.n else 0
  }

  /** Fails for an integer field of an odd size and for a byte string that does not fit its buffer. */
  function EncodeScalar(f: Field, v: Value): Option<seq<byte>> {
    match f.ltype
    case LBool => Some(EncodeVarint(if IntOf(v) != 0 then 1 else 0))
    case LVarint | LUVarint => if IntegerSize(f.dataSize) then Some(EncodeVarint(IntOf(v) % TWO_64)) else None
    case LSVarint => if IntegerSize(f.dataSize) then Some(EncodeVarint(ZigZag(IntOf(v)))) else None
    case LFixed32 => Some(LittleEndian(IntOf(v) % TWO_32, 4))
    case LFixed64 => Some(LittleEndian(IntOf(v) % TWO_64, 8))
    case LBytes =>
      if v.Data? && |v.bytes| + BYTES_HEADER <= f.dataSize then Some(Prefixed(v.bytes)) else None
    case LString => if v.Data? then Some(Prefixed(v.bytes[..StringLength(v.bytes, f.dataSize)])) else None
    case LFixedLengthBytes => if v.Data? && |v.bytes| == f.dataSize then Some(Prefixed(v.bytes)) else None
    case LSubmessage | LExtension => None
  }

  /** The elements of a packed array from index `i` on, back to back. */
  function EncodePacked(f: Field, items: seq<Value>, i: nat): Option<seq<byte>>
    requires i <= |items|
    decreases |items| - i
  {
    if i == |items| then Some([])
    else
      var first := EncodeScalar(f, items[i]);
      var rest := EncodePacked(f, items, i + 1);
      if first.None? || rest.None? then None else Some(first.value + rest.value)
  }

  // ----- The proto3 default check -----

  /** Whether a proto3 singular value is "zero". */
  predicate ValueIsDefault(f: Field, v: Value)
    decreases f, 0
  {
    match f.ltype
    case LBytes => v.Data? && v.bytes == []
    case LString => v.Data? && (v.bytes == [] || v.bytes[0] == 0)
    case LFixedLengthBytes => f.dataSize == 0
    case LSubmessage => f.ptr.Fields? ==> AllDefault(f.ptr.fields, SlotsOf(v))
    case _ => v == Int(0)
  }

  predicate SlotIsDefault(f: Field, slot: Slot)
    decreases f, 1
  {
    match f.htype
    case Required => false
    case Repeated => f.HasSize() && ItemsOf(slot) == []
    case Oneof => slot.Union? && slot.which == 0
    case Optional => if f.HasSize() then !(slot.Flagged? && slot.has) else ValueIsDefault(f, Held(slot))
  }

  predicate AllDefault(fields: seq<Field>, m: Message)
    decreases fields, 0
  {
    forall i :: 0 <= i < |fields| ==> SlotIsDefault(fields[i], SlotOf(m, fields[i]))
  }

  // ----- Fields and messages -----

  function EncodeValue(f: Field, v: Value): Option<seq<byte>>
    decreases f, 0
  {
    if f.ltype.LSubmessage? then
      if !f.ptr.Fields? || !v.Msg? then None
      else
        var b := EncodeMessage(f.ptr.fields, v.slots);
        if b.None? then None else Some(Prefixed(b.value))
    else EncodeScalar(f, v)
  }

  function OneRecord(f: Field, v: Value): Option<seq<Record>>
    decreases f, 1
  {
    var p := EncodeValue(f, v);
    if p.None? || WireType(f).None? then None else Some([Record(f.tag, WireType(f).value, p.value)])
  }

  /** One record for each element from index `i` on. */
  function UnpackedRecords(f: Field, items: seq<Value>, i: nat): Option<seq<Record>>
    requires i <= |items|
    decreases f, 2, |items| - i
  {
    if i == |items| then Some([])
    else
      var first := OneRecord(f, items[i]);
      var rest := UnpackedRecords(f, items, i + 1);
      if first.None? || rest.None? then None else Some(first.value + rest.value)
  }

  /** Arrays of scalars are always packed. */
  function ArrayRecords(f: Field, items: seq<Value>): Option<seq<Record>>
    decreases f, 3
  {
    if items == [] then Some([])
    else if |items| > f.arraySize then None
    else if f.Packable() then
      var p := EncodePacked(f, items, 0);
      if p.None? then None else Some([Record(f.tag, WT_STRING, Prefixed(p.value))])
    else UnpackedRecords(f, items, 0)
  }

  /** Whether a required, optional, singular or oneof field is written. */
  predicate Present(f: Field, slot: Slot) {
    match f.htype
    case Required => true
    case Optional => if f.HasSize() then slot.Flagged? && slot.has else !ValueIsDefault(f, Held(slot))
    case Oneof => slot.Union? && slot.which == f.tag
    case Repeated => true
  }

  function FieldRecords(f: Field, slot: Slot): Option<seq<Record>>
    decreases f, 4
  {
    if f.htype.Repeated? then
      if f.FixedCount() && |ItemsOf(slot)| != f.arraySize then None else ArrayRecords(f, ItemsOf(slot))
    else if Present(f, slot) then OneRecord(f, Held(slot))
    else Some([])
  }

  /** The records of the fields from index `i` on. */
  function RecordsFrom(fields: seq<Field>, m: Message, i: nat): Option<seq<Record>>
    requires i <= |fields|
    decreases fields, 1, |fields| - i
  {
    if i == |fields| then Some([])
    else
      var first := FieldRecords(fields[i], SlotOf(m, fields[i]));
      var rest := RecordsFrom(fields, m, i + 1);
      if first.None? || rest.None? then None else Some(first.value + rest.value)
  }

  function EncodeMessage(fields: seq<Field>, m: Message): Option<seq<byte>>
    decreases fields, 2
  {
    var rs := RecordsFrom(fields, m, 0);
    if rs.None? then None else Some(Flatten(rs.value))
  }

  lemma {:induction false} FlattenAppend(a: seq<Record>, b: seq<Record>)
    ensures Flatten(a + b) == Flatten(a) + Flatten(b)
  {
    if a == [] {
      assert a + b == b;
    } else {
      assert (a + b)[1..] == a[1..] + b;
      FlattenAppend(a[1..], b);
    }
  }
}
