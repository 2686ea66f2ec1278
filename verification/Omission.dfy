/** What the encoder leaves out: absent fields, empty arrays and, for proto3 singular fields, zeros. */
module Omission {
  import opened Bytes
  import opened Schema
  import opened DecodeSpec
  import opened EncodeSpec
  import opened WellFormed
  import opened RoundTrip
  import opened Normal

  /** A value is zero: the number 0, no bytes, a string that is empty or begins with NUL, or a submessage all of whose
      fields are absent or zero. A required field never is, and neither is an array without a count. */
  predicate IsZero(f: Field, v: Value)
    decreases f, 0
  {
    match f.ltype
    case LBool | LVarint | LUVarint | LSVarint | LFixed32 | LFixed64 => v == Int(0)
    case LBytes => v == Data([])
    case LString => v == Data([]) || (v.Data? && |v.bytes| > 0 && v.bytes[0] == 0)
    case LFixedLengthBytes => f.dataSize == 0
    case LSubmessage =>
      f.ptr.Fields? && v.Msg? &&
      forall i :: 0 <= i < |f.ptr.fields| ==>
        var g := f.ptr.fields[i]; g.Key() in v.slots && IsAbsent(g, v.slots[g.Key()])
    case LExtension => false
  }

  predicate IsAbsent(f: Field, slot: Slot)
    decreases f, 1
  {
    match slot
    case Single(v) => f.htype.Optional? && IsZero(f, v)
    case Flagged(has, _) => !has
    case Items(items, _) => f.sizeOffset != 0 && items == []
    case Union(which, _) => which == 0
  }

  lemma {:induction false} ZeroIsDefault(f: Field, v: Value)
    requires ValidField(f) && ValueOk(f, v)
    ensures ValueIsDefault(f, v) <==> IsZero(f, v)
    decreases f, 0
  {
    if f.ltype.LSubmessage? {
      var fields := f.ptr.fields;
      forall i | 0 <= i < |fields|
        ensures var g := fields[i];
                g.Key() in v.slots &&
                (SlotIsDefault(g, SlotOf(v.slots, g)) <==> IsAbsent(g, v.slots[g.Key()]))
      {
        AbsentIsDefault(fields[i], v.slots[fields[i].Key()]);
      }
    }
  }

  lemma {:induction false} AbsentIsDefault(f: Field, slot: Slot)
    requires ValidField(f) && SlotOk(f, slot)
    ensures SlotIsDefault(f, slot) <==> IsAbsent(f, slot)
    decreases f, 1
  {
    if f.htype.Optional? && !f.HasSize() {
      ZeroIsDefault(f, slot.v);
    }
  }

  /** What is left out, rule by rule: nothing required; an optional field whose has_ flag is off, or, without one, whose
      value is zero; an empty array; the members of a union that are not selected. */
  lemma LeftOut(f: Field, slot: Slot)
    requires ValidField(f) && SlotOk(f, slot)
    ensures FieldRecords(f, slot) == Some([]) <==>
            match f.htype
            case Required => false
            case Optional => if f.sizeOffset != 0 then !slot.has else IsZero(f, slot.v)
            case Repeated => slot.items == []
            case Oneof => slot.which != f.tag
  {
    SlotEncodes(f, slot);
    if f.htype.Optional? && !f.HasSize() {
      ZeroIsDefault(f, slot.v);
    } else if f.htype.Repeated? && slot.items != [] && !f.Packable() {
      ElementsAreWritten(f, slot.items);
    }
  }

  lemma ElementsAreWritten(f: Field, items: seq<Value>)
    requires items != [] && UnpackedRecords(f, items, 0).Some?
    ensures UnpackedRecords(f, items, 0) != Some([])
  {
    var first, rest := OneRecord(f, items[0]), UnpackedRecords(f, items, 1);
    assert first.Some? && rest.Some? && |first.value| == 1;
    assert UnpackedRecords(f, items, 0) == Some(first.value + rest.value);
    assert |first.value + rest.value| >= 1;
  }

  /** A proto3 singular field is left out if and only if it is zero. */
  lemma ZeroIsLeftOut(f: Field, v: Value)
    requires ValidField(f) && ValueOk(f, v) && f.htype.Optional? && f.sizeOffset == 0
    ensures f.ltype in {LBool, LVarint, LUVarint, LSVarint, LFixed32, LFixed64} ==>
              (FieldRecords(f, Single(v)) == Some([]) <==> v == Int(0))
    ensures f.ltype.LBytes? ==> (FieldRecords(f, Single(v)) == Some([]) <==> v == Data([]))
    ensures f.ltype.LString? ==>
              (FieldRecords(f, Single(v)) == Some([]) <==> v.bytes == [] || v.bytes[0] == 0)
    ensures f.ltype.LFixedLengthBytes? ==> (FieldRecords(f, Single(v)) == Some([]) <==> f.dataSize == 0)
    ensures f.ltype.LSubmessage? ==>
              (FieldRecords(f, Single(v)) == Some([]) <==>
               forall i :: 0 <= i < |f.ptr.fields| ==>
                 var g := f.ptr.fields[i]; g.Key() in v.slots && IsAbsent(g, v.slots[g.Key()]))
  {
    LeftOut(f, Single(v));
  }

  lemma {:induction false} NoneWritten(fields: seq<Field>, m: Message, i: nat)
    requires i <= |fields|
    requires forall j :: 0 <= j < |fields| ==> FieldRecords(fields[j], SlotOf(m, fields[j])) == Some([])
    ensures RecordsFrom(fields, m, i) == Some([])
    decreases |fields| - i
  {
    if i < |fields| {
      NoneWritten(fields, m, i + 1);
      var none: seq<Record> := [];
      assert none + none == none;
    }
  }

  lemma {:induction false} AllLeftOut(fields: seq<Field>, m: Message, i: nat)
    requires i <= |fields| && RecordsFrom(fields, m, i) == Some([])
    ensures forall j :: i <= j < |fields| ==> FieldRecords(fields[j], SlotOf(m, fields[j])) == Some([])
    decreases |fields| - i
  {
    if i < |fields| {
      var first, rest := FieldRecords(fields[i], SlotOf(m, fields[i])), RecordsFrom(fields, m, i + 1);
      assert first.Some? && rest.Some? && |first.value + rest.value| == 0;
      AllLeftOut(fields, m, i + 1);
    }
  }

  lemma RecordsHaveBytes(rs: seq<Record>)
    requires rs != []
    ensures Flatten(rs) != []
  {
    assert |TagBytes(rs[0].tag, rs[0].wire)| >= 1;
  }

  /** A field of which nothing is written is absent. */
  lemma NothingThere(fields: seq<Field>, m: Message, i: nat)
    requires ValidSchema(fields) && MessageOk(fields, m) && i < |fields|
    requires forall j :: 0 <= j < |fields| ==> FieldRecords(fields[j], SlotOf(m, fields[j])) == Some([])
    requires fields[i].FixedCount() ==> fields[i].arraySize > 0
    ensures IsAbsent(fields[i], m[fields[i].Key()])
  {
    var f := fields[i];
    var slot := m[f.Key()];
    assert SlotOk(f, slot) && SlotOf(m, f) == slot;
    LeftOut(f, slot);
    if f.htype.Oneof? {
      forall j | 0 <= j < |fields| && fields[j].Key() == f.Key()
        ensures !Emits(fields[j], SlotOf(m, fields[j]))
      {
        assert SlotOk(fields[j], slot);
        LeftOut(fields[j], slot);
      }
      NothingSelected(fields, m, i);
    }
  }

  /** For a submessage, that is to say that there is nothing in it to be written: it is left out exactly if its own
      encoding has no bytes. Only an array of a fixed number of no elements would make a difference. */
  lemma EmptyIsLeftOut(f: Field, m: Message)
    requires ValidField(f) && f.htype.Optional? && f.sizeOffset == 0 && f.ltype.LSubmessage?
    requires MessageOk(f.ptr.fields, m)
    requires forall i :: 0 <= i < |f.ptr.fields| && f.ptr.fields[i].FixedCount() ==> f.ptr.fields[i].arraySize > 0
    ensures FieldRecords(f, Single(Msg(m))) == Some([]) <==> EncodeMessage(f.ptr.fields, m) == Some([])
  {
    var fields := f.ptr.fields;
    ZeroIsLeftOut(f, Msg(m));
    forall i | 0 <= i < |fields|
      ensures var g := fields[i];
              IsAbsent(g, m[g.Key()]) ==> FieldRecords(g, m[g.Key()]) == Some([])
    {
      LeftOut(fields[i], m[fields[i].Key()]);
    }
    if EncodeMessage(fields, m) == Some([]) {
      var rs := RecordsFrom(fields, m, 0).value;
      if rs != [] {
        RecordsHaveBytes(rs);
      }
      AllLeftOut(fields, m, 0);
      forall i | 0 <= i < |fields|
        ensures IsAbsent(fields[i], m[fields[i].Key()])
      {
        NothingThere(fields, m, i);
      }
    } else if forall i :: 0 <= i < |fields| ==> FieldRecords(fields[i], SlotOf(m, fields[i])) == Some([]) {
      NoneWritten(fields, m, 0);
    }
  }
}
