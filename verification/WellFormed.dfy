/** Field tables a generator may produce, and the struct contents that fit them. */
module WellFormed {
  import opened Bytes
  import opened Schema
  import opened DecodeSpec
  import opened EncodeSpec

  /** A value that the storage of `f` can hold. */
  predicate ValueOk(f: Field, v: Value)
    decreases f, 0
  {
    match f.ltype
    case LBool => v.Int? && 0 <= v.n <= 1
    case LVarint | LSVarint => v.Int? && SignedFits(v.n, f.dataSize)
    case LUVarint => v.Int? && UnsignedFits(v.n, f.dataSize)
    case LFixed32 => v.Int? && 0 <= v.n < TWO_32
    case LFixed64 => v.Int? && 0 <= v.n < TWO_64
    case LBytes | LString | LFixedLengthBytes => v.Data? && LengthFits(f, |v.bytes|)
    case LSubmessage => v.Msg? && f.ptr.Fields? && MessageOk(f.ptr.fields, v.slots)
    case LExtension => false
  }

  predicate SlotOk(f: Field, slot: Slot)
    decreases f, 1
  {
    match f.htype
    case Required => slot.Single? && ValueOk(f, slot.v)
    case Optional => (if f.HasSize() then slot.Flagged? else slot.Single?) && ValueOk(f, slot.v)
    case Repeated =>
      slot.Items? && (forall i :: 0 <= i < |slot.items| ==> ValueOk(f, slot.items[i])) &&
      (if f.HasSize() then |slot.items| <= f.arraySize else |slot.items| == f.arraySize)
    case Oneof => slot.Union? && (slot.which == f.tag ==> ValueOk(f, slot.v))
  }

  /** A union either is empty or holds one of its members. */
  predicate SelectorOk(fields: seq<Field>, k: Key, slot: Slot) {
    slot.Union? ==>
      slot == Union(0, Int(0)) ||
      exists j :: 0 <= j < |fields| && fields[j].Key() == k && fields[j].tag == slot.which
  }

  /** A struct that matches the field table: every slot is there and holds what its field can hold. */
  predicate MessageOk(fields: seq<Field>, m: Message)
    decreases fields, 0
  {
    (forall i :: 0 <= i < |fields| ==> fields[i].Key() in m && SlotOk(fields[i], m[fields[i].Key()])) &&
    (forall k :: k in m ==> HasKey(fields, k) && SelectorOk(fields, k, m[k]))
  }

  predicate HasKey(fields: seq<Field>, k: Key) {
    exists i :: 0 <= i < |fields| && fields[i].Key() == k
  }

  const TAG_LIMIT: nat := 0x2000_0000

  predicate ValidField(f: Field)
    decreases f
  {
    1 <= f.tag < TAG_LIMIT && !f.ltype.LExtension? &&
    (f.ltype in {LVarint, LUVarint, LSVarint} ==> IntegerSize(f.dataSize)) &&
    (f.ltype.LBytes? ==> BYTES_HEADER <= f.dataSize) &&
    (f.ltype.LString? ==> 1 <= f.dataSize) && f.dataSize < TWO_32 &&
    (f.ltype.LSubmessage? <==> f.ptr.Fields?) &&
    (f.ptr.Fields? ==> ValidSchema(f.ptr.fields)) &&
    (f.ptr.Default? ==> ValueOk(f, f.ptr.value)) &&
    // A proto3 singular field has no default of its own.
    (f.htype.Optional? && !f.HasSize() ==> !f.ptr.Default?) &&
    (f.htype.Oneof? ==> f.HasSize())
  }

  predicate DistinctTags(fields: seq<Field>) {
    forall i, j :: 0 <= i < j < |fields| ==> fields[i].tag != fields[j].tag
  }

  predicate ValidSchema(fields: seq<Field>)
    decreases fields
  {
    DistinctTags(fields) && forall i :: 0 <= i < |fields| ==> ValidField(fields[i])
  }
}
