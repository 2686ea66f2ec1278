/** What is left of the old contents of a struct: which arrays that concerns, and what a caller can see to before the
    call, so that everything that is decoded fits. */
module Settled {
  import opened Bytes
  import opened Schema
  import opened DecodeSpec
  import opened EncodeSpec
  import opened WellFormed
  import opened RoundTrip
  import opened Projection
  import opened Storage
  import opened Leftovers

  // ----- Where something is unset -----

  /** Of the elements of field `i`, a fixed-count array, none is set before it occurs, and then those that have come
      in. */
  predicate Tracked(fields: seq<Field>, i: nat, st: DecodeState)
    requires i < |fields|
  {
    var f := fields[i];
    var items := ItemsOf(OldSlot(st.msg, f.Key()));
    |items| == f.arraySize && FixedOk(st.fixed) &&
    var current := st.fixed.Receiving? && st.fixed.f == f;
    if f.tag in st.seen then AllSet(items, if current then st.fixed.size else f.arraySize)
    else NoneSet(items) && !current
  }

  predicate AllSet(items: seq<Value>, n: nat) {
    forall k :: 0 <= k < n && k < |items| ==> !items[k].Unset?
  }

  predicate NoneSet(items: seq<Value>) {
    forall k :: 0 <= k < |items| ==> items[k].Unset?
  }

  lemma {:induction false} PackedSets(f: Field, items: seq<Value>, k: nat, s: seq<byte>)
    requires ValidField(f) && k <= f.arraySize == |items| && AllSet(items, k)
    ensures var r := DecodePacked(f, items, k, s);
            r.Some? ==> |r.value.0| == f.arraySize && r.value.1 <= f.arraySize && AllSet(r.value.0, r.value.1)
    ensures AllSet(items, f.arraySize) && DecodePacked(f, items, k, s).Some? ==>
              AllSet(DecodePacked(f, items, k, s).value.0, f.arraySize)
    decreases |s|
  {
    if s != [] && k < f.arraySize && DecodeScalar(f, s).Ok? {
      var v := DecodeScalar(f, s);
      ScalarFits(f, s);
      PackedSets(f, Put(items, k, v.value), k + 1, v.rest);
    }
  }

  lemma ValueIsSet(f: Field, prior: Value, s: seq<byte>)
    requires ValidField(f) && DecodeValue(f, prior, s).Ok?
    ensures !DecodeValue(f, prior, s).value.Unset?
  {
    if !f.ltype.LSubmessage? {
      ScalarFits(f, s);
    }
  }

  /** A record of a fixed-count array sets the elements up to its new count. */
  lemma SlotSets(f: Field, wire: nat, slot: Slot, k: nat, s: seq<byte>)
    requires ValidField(f) && f.FixedCount() && |ItemsOf(slot)| == f.arraySize && k <= f.arraySize
    requires AllSet(ItemsOf(slot), k) && DecodeSlot(f, wire, slot, k, s).Ok?
    ensures var r := DecodeSlot(f, wire, slot, k, s).value;
            |ItemsOf(r.0)| == f.arraySize && r.1 <= f.arraySize && AllSet(ItemsOf(r.0), r.1) &&
            (AllSet(ItemsOf(slot), f.arraySize) ==> AllSet(ItemsOf(r.0), f.arraySize))
  {
    if wire == WT_STRING && f.Packable() {
      PackedSets(f, ItemsOf(slot), k, Delimited(s).value);
    } else {
      ValueIsSet(f, Cell(slot, k), s);
    }
  }

  lemma RecordTracked(fields: seq<Field>, i: nat, st: DecodeState, wire: nat, tag: nat, s: seq<byte>)
    requires ValidSchema(fields) && i < |fields| && fields[i].FixedCount() && Tracked(fields, i, st)
    ensures var p := DecodeRecord(fields, st, wire, tag, s);
            p.Ok? && FixedOk(p.value.fixed) ==> Tracked(fields, i, p.value)
  {
    var found := Find(fields, tag);
    if found.Some? && DecodeRecord(fields, st, wire, tag, s).Ok? {
      var j :| 0 <= j < |fields| && fields[j] == found.value;
      if j == i {
        OwnTracked(fields, i, st, wire, s);
      } else {
        assert fields[i].tag != fields[j].tag && fields[i].Key() != fields[j].Key();
      }
    }
  }

  lemma OwnTracked(fields: seq<Field>, i: nat, st: DecodeState, wire: nat, s: seq<byte>)
    requires ValidSchema(fields) && i < |fields| && fields[i].FixedCount() && Tracked(fields, i, st)
    requires fields[i].Key() in st.msg || fields[i].arraySize == 0
    requires DecodeField(st, fields[i], wire, s).Ok?
    ensures Tracked(fields, i, DecodeField(st, fields[i], wire, s).value)
  {
    var f := fields[i];
    assert ValidField(f);
    var slot, k := SlotOf(st.msg, f), ItemCount(f, st);
    SlotSets(f, wire, slot, k, s);
  }

  lemma {:induction false} LoopTracked(fields: seq<Field>, i: nat, st: DecodeState, s: seq<byte>)
    requires ValidSchema(fields) && i < |fields| && fields[i].FixedCount() && Tracked(fields, i, st)
    requires StorageOk(fields, st.msg, true)
    ensures var p := DecodeLoop(fields, st, s); p.Ok? ==> Tracked(fields, i, p.value)
    decreases |s|
  {
    if s != [] {
      var t := DecodeTag(s);
      if t.Tag? {
        RecordTracked(fields, i, st, t.wire, t.tag, t.rest);
        RecordFits(fields, st, t.wire, t.tag, t.rest, true);
        var p := DecodeRecord(fields, st, t.wire, t.tag, t.rest);
        if p.Ok? {
          LoopTracked(fields, i, p.value, p.rest);
        }
      }
    }
  }

  /** Beyond its zero count, a fixed-count array is left unset if and only if it does not occur in the input: all of it,
      or nothing. */
  lemma UnsetIsAbsent(fields: seq<Field>, i: nat, s: seq<byte>)
    requires ValidSchema(fields) && i < |fields| && fields[i].FixedCount() && Decode(fields, map[], s).Ok?
    ensures var seen := DecodeLoop(fields, DecodeState(DefaultMessage(fields, map[]), {}, NoFixed), s).value.seen;
            var items := ItemsOf(OldSlot(Decode(fields, map[], s).value, fields[i].Key()));
            |items| == fields[i].arraySize &&
            if fields[i].tag in seen then AllSet(items, |items|) else NoneSet(items)
  {
    var st := DecodeState(DefaultMessage(fields, map[]), {}, NoFixed);
    DefaultMessageFits(fields, map[], true);
    DefaultsHold(fields, map[], |fields|, i);
    LoopTracked(fields, i, st, s);
  }

  // ----- What a caller can see to before the call -----

  /** Whatever a fixed-count array holds fits: then it does not matter which of them are in the input. */
  predicate SettledValue(f: Field, v: Value)
    decreases f, 0
  {
    f.ltype.LSubmessage? && f.ptr.Fields? ==> Settled(f.ptr.fields, SlotsOf(v))
  }

  predicate SettledSlot(f: Field, slot: Slot)
    decreases f, 1
  {
    match f.htype
    case Required | Optional => SettledValue(f, Held(slot))
    case Repeated =>
      forall k :: 0 <= k < f.arraySize ==>
        SettledValue(f, Cell(slot, k)) && (f.FixedCount() ==> ValueOk(f, Cell(slot, k)))
    case Oneof => true
  }

  predicate Settled(fields: seq<Field>, was: Message)
    decreases fields, 0
  {
    forall i :: 0 <= i < |fields| ==> SettledSlot(fields[i], OldSlot(was, fields[i].Key()))
  }

  lemma {:induction false} SettledValueFits(f: Field, v: Value, was: Value)
    requires ValidField(f) && StorageCell(f, v, true) && SettledValue(f, was) && (v.Unset? ==> ValueOk(f, was))
    ensures LeftoverValue(f, v, was)
    decreases f, 0
  {
    if f.ltype.LSubmessage? && v.Msg? {
      SettledFits(f.ptr.fields, v.slots, SlotsOf(was));
    }
  }

  lemma {:induction false} SettledSlotFits(f: Field, slot: Slot, was: Slot)
    requires ValidField(f) && StorageSlot(f, slot, true) && SettledSlot(f, was)
    ensures LeftoverSlot(f, slot, was)
    decreases f, 1
  {
    match f.htype {
      case Required => SettledValueFits(f, slot.v, Held(was));
      case Optional => SettledValueFits(f, slot.v, Held(was));
      case Oneof =>
      case Repeated =>
        forall i | 0 <= i < |slot.items|
          ensures LeftoverValue(f, slot.items[i], Cell(was, i))
        {
          assert StorageItem(f, slot.items[i], true);
          assert slot.items[i].Unset? ==> !StorageValue(f, slot.items[i], true);
          SettledValueFits(f, slot.items[i], Cell(was, i));
        }
    }
  }

  lemma {:induction false} SettledFits(fields: seq<Field>, m: Message, was: Message)
    requires ValidSchema(fields) && StorageOk(fields, m, true) && Settled(fields, was)
    ensures LeftoversFit(fields, m, was)
    decreases fields, 0
  {
    forall i | 0 <= i < |fields|
      ensures LeftoverSlot(fields[i], OldSlot(m, fields[i].Key()), OldSlot(was, fields[i].Key()))
    {
      SettledSlotFits(fields[i], m[fields[i].Key()], OldSlot(was, fields[i].Key()));
    }
  }

  /** In a struct whose fixed-count arrays hold what fits, everything that is decoded fits, whatever comes in. */
  lemma SettledIsEnough(fields: seq<Field>, was: Message, s: seq<byte>)
    requires ValidSchema(fields) && Settled(fields, was) && Decode(fields, was, s).Ok?
    ensures MessageOk(fields, Decode(fields, was, s).value)
  {
    DecodeFills(fields, was, s);
    DecodedFits(fields, was, s);
    SettledFits(fields, Decode(fields, map[], s).value, was);
  }

  /** A struct of zero bytes is one. */
  lemma {:induction false} ZeroIsSettled(fields: seq<Field>)
    requires ValidSchema(fields)
    ensures Settled(fields, ZeroMessage(fields))
    decreases fields, 0
  {
    forall i | 0 <= i < |fields|
      ensures SettledSlot(fields[i], OldSlot(ZeroMessage(fields), fields[i].Key()))
    {
      ZerosHold(fields, |fields|, i);
      ZeroFieldSettled(fields[i]);
    }
  }

  lemma {:induction false} ZeroFieldSettled(f: Field)
    requires ValidField(f)
    ensures SettledSlot(f, ZeroSlot(f))
    decreases f, 0
  {
    ZeroValueFits(f);
    StorageIsValueOk(f, ZeroValue(f));
    if f.ltype.LSubmessage? {
      ZeroIsSettled(f.ptr.fields);
    }
  }

  /** For a table without fixed-count arrays, every struct is. */
  predicate NoFixedArray(f: Field)
    decreases f
  {
    !f.FixedCount() && (f.ptr.Fields? ==> NoFixedArrays(f.ptr.fields))
  }

  predicate NoFixedArrays(fields: seq<Field>)
    decreases fields
  {
    forall i :: 0 <= i < |fields| ==> NoFixedArray(fields[i])
  }

  lemma {:induction false} NothingToSettle(fields: seq<Field>, was: Message)
    requires NoFixedArrays(fields)
    ensures Settled(fields, was)
    decreases fields, 0
  {
    forall i | 0 <= i < |fields|
      ensures SettledSlot(fields[i], OldSlot(was, fields[i].Key()))
    {
      forall v
        ensures SettledValue(fields[i], v)
      {
        NothingInValue(fields[i], v);
      }
    }
  }

  lemma {:induction false} NothingInValue(f: Field, v: Value)
    requires NoFixedArray(f)
    ensures SettledValue(f, v)
    decreases f, 0
  {
    if f.ptr.Fields? {
      NothingToSettle(f.ptr.fields, SlotsOf(v));
    }
  }

  /** Without that, a struct can be decoded from no bytes at all that cannot be encoded: the two elements of this array
      are never set, and the size of the second one exceeds its buffer. */
  lemma OldContentsShow(fields: seq<Field>, junk: seq<byte>, was: Message)
    requires fields == [Field(1, Repeated, LBytes, 0, 0, 8, 2, 0, Null)] && |junk| == 5
    requires was == map[FieldKey(1) := Items([Data([]), Data(junk)], [])]
    ensures ValidSchema(fields) && fields[0].FixedCount()
    ensures Decode(fields, was, []) == Ok(was, [])
    ensures EncodeMessage(fields, was) == None
  {
    var f, slot := fields[0], was[FieldKey(1)];
    assert ValidField(f) && f.Key() == FieldKey(1);
    assert StorageOf(slot) == [Data([]), Data(junk)];
    assert KeptItems(f, slot) == [Data([]), Data(junk)] && Behind(slot, 2) == [];
    assert DefaultSlot(f, slot) == slot;
    assert DefaultsUpTo(fields, was, 0) == map[];
    assert DefaultsUpTo(fields, was, 1) == was;
    assert EncodeValue(f, Data(junk)) == None;
    assert UnpackedRecords(f, slot.items, 1) == None;
    assert UnpackedRecords(f, slot.items, 0) == None;
    assert FieldRecords(f, slot) == None;
    assert RecordsFrom(fields, was, 0) == None;
  }
}
