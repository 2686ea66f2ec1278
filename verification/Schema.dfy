/** Field descriptors and the values that a message struct holds, for statically allocated fields. */
module Schema {
  import opened Bytes

  /** Scalar type of a field (the low four bits of `pb_type_t`). */
  datatype LType =
    | LBool | LVarint | LUVarint | LSVarint | LFixed32 | LFixed64
    | LBytes | LString | LSubmessage | LExtension | LFixedLengthBytes

  /** Repetition rule of a field. */
  datatype HType = Required | Optional | Repeated | Oneof

  /** What the descriptor's `ptr` refers to: nothing, a default value, or the fields of a submessage. */
  datatype Ptr = Null | Default(value: Value) | Fields(fields: seq<Field>)

  /** One entry of a field table. `dataOffset == UNION_MEMBER` marks a further member of the union before it.
      `union` names the union that a oneof member belongs to. */
  datatype Field = Field(
    tag: nat, htype: HType, ltype: LType,
    dataOffset: nat, sizeOffset: int, dataSize: nat, arraySize: nat,
    union: nat, ptr: Ptr)
  {
    /** A has_ flag, a count or a which_ selector is stored beside the data. */
    predicate HasSize() {
      sizeOffset != 0
    }

    /** An array without a count: every element is always present. */
    predicate FixedCount() {
      htype.Repeated? && !HasSize()
    }

    predicate Packable() {
      ltype in {LBool, LVarint, LUVarint, LSVarint, LFixed32, LFixed64}
    }

    function Key(): Key {
      if htype.Oneof? then UnionKey(union) else FieldKey(tag)
    }
  }

  /** PB_SIZE_MAX for 32-bit field sizes (PB_FIELD_32BIT, as the app is built). */
  const UNION_MEMBER: nat := 0xFFFF_FFFF

  /** Where a field is stored: its own slot, or the slot of its union. */
  datatype Key = FieldKey(tag: nat) | UnionKey(union: nat)

  /** Integers and raw fixed-width bits, byte strings, and nested structs. `Unset` stands for storage that nobody has
      written to and of whose contents nothing is known. */
  datatype Value = Int(n: int) | Data(bytes: seq<byte>) | Msg(slots: Message) | Unset

  /** `spare` is what lies in the storage of an array behind the elements that count. */
  datatype Slot =
    | Single(v: Value)
    | Flagged(has: bool, v: Value)
    | Items(items: seq<Value>, spare: seq<Value>)
    | Union(which: nat, v: Value)

  type Message = map<Key, Slot>
}
