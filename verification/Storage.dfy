/** Whatever bytes come in, what the decoder writes into a struct fits the field table. What a fixed-count array held
    before it holds afterwards, if it does not occur in the input. */
module Storage {
  import opened Bytes
  import opened Schema
  import opened DecodeSpec
  import opened WellFormed
  import opened RoundTrip
  import opened Normal
  import opened Projection

  // ----- Storage that fits -----

  /** With `open`, the cells of fixed-count arrays and what lies behind the elements of an array may be unset. Without,
      all the storage that elements can come to lie in fits as well. */
  predicate StorageValue(f: Field, v: Value, open: bool)
    decreases f, 0
  {
    if f.ltype.LSubmessage? then v.Msg? && f.ptr.Fields? && StorageOk(f.ptr.fields, v.slots, open) else ValueOk(f, v)
  }

  predicate StorageCell(f: Field, v: Value, open: bool)
    decreases f, 1
  {
    (open && v.Unset?) || StorageValue(f, v, open)
  }

  predicate StorageItem(f: Field, v: Value, open: bool)
    decreases f, 2
  {
    if f.FixedCount() then StorageCell(f, v, open) else StorageValue(f, v, open)
  }

  predicate StorageSlot(f: Field, slot: Slot, open: bool)
    decreases f, 3
  {
    match f.htype
    case Required => slot.Single? && StorageValue(f, slot.v, open)
    case Optional => (if f.HasSize() then slot.Flagged? else slot.Single?) && StorageValue(f, slot.v, open)
    case Repeated =>
      slot.Items? && (if f.HasSize() then |slot.items| <= f.arraySize else |slot.items| == f.arraySize) &&
      (forall i :: 0 <= i < |slot.items| ==> StorageItem(f, slot.items[i], open)) &&
      (f.ltype.LSubmessage? ==>
         (forall i :: 0 <= i < |slot.spare| ==> StorageCell(f, slot.spare[i], open)) &&
         (open || f.arraySize <= |slot.items| + |slot.spare|))
    case Oneof => slot.Union? && (slot.which == f.tag ==> StorageValue(f, slot.v, false))
  }

  predicate StorageOk(fields: seq<Field>, m: Message, open: bool)
    decreases fields, 0
  {
    (forall i :: 0 <= i < |fields| ==> fields[i].Key() in m && StorageSlot(fields[i], m[fields[i].Key()], open)) &&
    (forall k :: k in m ==> HasKey(fields, k) && SelectorOk(fields, k, m[k]))
  }

  /** Storage that fits throughout holds a struct that fits its table. */
  lemma {:induction false} StorageIsOk(fields: seq<Field>, m: Message)
    requires ValidSchema(fields) && StorageOk(fields, m, false)
    ensures MessageOk(fields, m)
    decreases fields, 0
  {
    forall i | 0 <= i < |fields|
      ensures SlotOk(fields[i], m[fields[i].Key()])
    {
      StorageIsSlotOk(fields[i], m[fields[i].Key()]);
    }
  }

  lemma {:induction false} StorageIsSlotOk(f: Field, slot: Slot)
    requires ValidField(f) && StorageSlot(f, slot, false)
    ensures SlotOk(f, slot)
    decreases f, 1
  {
    if f.htype.Repeated? {
      forall i | 0 <= i < |slot.items|
        ensures ValueOk(f, slot.items[i])
      {
        assert StorageItem(f, slot.items[i], false);
        assert StorageCell(f, slot.items[i], false) ==> StorageValue(f, slot.items[i], false);
        StorageIsValueOk(f, slot.items[i]);
      }
    } else if f.htype.Oneof? ==> slot.which == f.tag {
      StorageIsValueOk(f, Held(slot));
    }
  }

  lemma {:induction false} StorageIsValueOk(f: Field, v: Value)
    requires ValidField(f) && StorageValue(f, v, false)
    ensures ValueOk(f, v)
    decreases f, 0
  {
    if f.ltype.LSubmessage? {
      StorageIsOk(f.ptr.fields, v.slots);
    }
  }

  // ----- Arrays -----

  lemma CellFits(f: Field, slot: Slot, k: nat, open: bool)
    requires StorageSlot(f, slot, open) && f.htype.Repeated? && f.ltype.LSubmessage? && k < f.arraySize
    ensures StorageCell(f, Cell(slot, k), open)
  {
    if |slot.items| <= k < |StorageOf(slot)| {
      assert StorageOf(slot)[k] == slot.spare[k - |slot.items|];
    } else if k < |slot.items| {
      assert StorageItem(f, slot.items[k], open);
    }
  }

  lemma StoredFits(f: Field, slot: Slot, items: seq<Value>, open: bool)
    requires f.htype.Repeated? && slot.Items? && (StorageSlot(f, slot, open) || (open && StorageOf(slot) == []))
    requires if f.HasSize() then |items| <= f.arraySize else |items| == f.arraySize
    requires forall i :: 0 <= i < |items| ==> StorageItem(f, items[i], open)
    ensures StorageSlot(f, Stored(slot, items), open)
  {
    if f.ltype.LSubmessage? {
      var spare := Behind(slot, |items|);
      forall i | 0 <= i < |spare|
        ensures StorageCell(f, spare[i], open)
      {
        var k := |items| + i;
        assert spare[i] == StorageOf(slot)[k];
        if k < |slot.items| {
          assert StorageItem(f, slot.items[k], open);
        } else {
          assert StorageOf(slot)[k] == slot.spare[k - |slot.items|];
        }
      }
    }
  }

  // ----- Defaults and zeros -----

  lemma {:induction false} ZeroFits(fields: seq<Field>)
    requires ValidSchema(fields)
    ensures StorageOk(fields, ZeroMessage(fields), false)
    decreases fields, 0
  {
    var m := ZeroMessage(fields);
    forall i | 0 <= i < |fields|
      ensures fields[i].Key() in m && StorageSlot(fields[i], m[fields[i].Key()], false)
    {
      ZerosHold(fields, |fields|, i);
      ZeroSlotFits(fields[i]);
    }
    forall k | k in m
      ensures HasKey(fields, k) && SelectorOk(fields, k, m[k])
    {
      ZeroKeys(fields, |fields|, k);
      var i :| 0 <= i < |fields| && fields[i].Key() == k;
      ZerosHold(fields, |fields|, i);
    }
  }

  lemma {:induction false} ZeroSlotFits(f: Field)
    requires ValidField(f)
    ensures StorageSlot(f, ZeroSlot(f), false)
    decreases f, 1
  {
    ZeroValueFits(f);
  }

  lemma {:induction false} ZeroValueFits(f: Field)
    requires ValidField(f)
    ensures StorageValue(f, ZeroValue(f), false)
    decreases f, 0
  {
    if f.ltype.LSubmessage? {
      ZeroFits(f.ptr.fields);
    }
  }

  lemma {:induction false} DefaultValueFits(f: Field, was: Value, open: bool)
    requires ValidField(f) && (f.ltype.LSubmessage? ==> StorageCell(f, was, open))
    ensures StorageValue(f, DefaultValue(f, was), open)
    decreases f, 0
  {
    if f.ltype.LSubmessage? {
      DefaultMessageFits(f.ptr.fields, SlotsOf(was), open);
    }
  }

  lemma {:induction false} DefaultSlotFits(f: Field, was: Slot, open: bool)
    requires ValidField(f) && (StorageSlot(f, was, open) || (open && was == UNKNOWN))
    ensures StorageSlot(f, DefaultSlot(f, was), open)
    decreases f, 1
  {
    if f.htype.Repeated? {
      DefaultArrayFits(f, was, open);
    } else if !f.htype.Oneof? {
      DefaultValueFits(f, Held(was), open);
    }
  }

  lemma DefaultArrayFits(f: Field, was: Slot, open: bool)
    requires ValidField(f) && f.htype.Repeated? && (StorageSlot(f, was, open) || (open && was == UNKNOWN))
    ensures StorageSlot(f, DefaultSlot(f, was), open)
  {
    var kept := KeptItems(f, was);
    forall i | 0 <= i < |kept|
      ensures StorageItem(f, kept[i], open)
    {
      assert was.Items? ==> StorageItem(f, was.items[i], open) && kept[i] == was.items[i];
    }
    if was == UNKNOWN {
      assert Behind(was, |kept|) == [];
    } else {
      StoredFits(f, was, kept, open);
    }
  }

  lemma {:induction false} DefaultMessageFits(fields: seq<Field>, was: Message, open: bool)
    requires ValidSchema(fields) && (StorageOk(fields, was, open) || (open && was == map[]))
    ensures StorageOk(fields, DefaultMessage(fields, was), open)
    decreases fields, 0
  {
    var m := DefaultMessage(fields, was);
    forall i | 0 <= i < |fields|
      ensures fields[i].Key() in m && StorageSlot(fields[i], m[fields[i].Key()], open)
    {
      DefaultsHold(fields, was, |fields|, i);
      DefaultSlotFits(fields[i], OldSlot(was, fields[i].Key()), open);
    }
    forall k | k in m
      ensures HasKey(fields, k) && SelectorOk(fields, k, m[k])
    {
      DefaultKeys(fields, was, |fields|, k);
      var i :| 0 <= i < |fields| && fields[i].Key() == k;
      DefaultsHold(fields, was, |fields|, i);
    }
  }

  // ----- Decoding -----

  lemma FixedFits(p: Parse<seq<byte>>, n: nat)
    requires p.Ok? && |p.value| == n && n in {4, 8}
    ensures FixedValue(p).value.n < if n == 4 then TWO_32 else TWO_64
  {
    FromLittleEndianBound(p.value);
    Pow2At32(32);
    Pow2At64(64);
  }

  lemma ScalarFits(f: Field, s: seq<byte>)
    requires ValidField(f) && DecodeScalar(f, s).Ok?
    ensures ValueOk(f, DecodeScalar(f, s).value) && !f.ltype.LSubmessage?
  {
    match f.ltype {
      case LFixed32 => FixedFits(Take(s, 4), 4);
      case LFixed64 => FixedFits(Take(s, 8), 8);
      case LBytes | LString | LFixedLengthBytes => DataFits(f, s);
      case _ =>
    }
  }

  lemma DataFits(f: Field, s: seq<byte>)
    requires f.ltype in {LBytes, LString, LFixedLengthBytes} && f.dataSize < TWO_32 && DecodeData(f, s).Ok?
    ensures DecodeData(f, s).value.Data? && LengthFits(f, |DecodeData(f, s).value.bytes|)
  {
  }

  lemma {:induction false} PackedFitsArray(f: Field, items: seq<Value>, k: nat, s: seq<byte>, open: bool)
    requires ValidField(f) && f.htype.Repeated?
    requires forall i :: 0 <= i < |items| ==> StorageItem(f, items[i], open)
    requires k <= |items| && (if f.HasSize() then |items| == k <= f.arraySize else |items| == f.arraySize)
    ensures var r := DecodePacked(f, items, k, s);
            r.Some? ==>
              (forall i :: 0 <= i < |r.value.0| ==> StorageItem(f, r.value.0[i], open)) &&
              (if f.HasSize() then |r.value.0| <= f.arraySize else |r.value.0| == f.arraySize)
    decreases |s|
  {
    if s != [] && k < f.arraySize {
      var v := DecodeScalar(f, s);
      if v.Ok? {
        ScalarFits(f, s);
        assert StorageValue(f, v.value, open);
        assert StorageCell(f, v.value, open) && StorageItem(f, v.value, open);
        PackedFitsArray(f, Put(items, k, v.value), k + 1, v.rest, open);
      }
    }
  }

  /** What the decoder finds where a value of field `f` is to go. */
  predicate PriorOk(f: Field, prior: Value, open: bool) {
    f.ltype.LSubmessage? ==> if f.htype.Repeated? then StorageCell(f, prior, open) else StorageValue(f, prior, open)
  }

  lemma {:induction false} ValueFits(f: Field, prior: Value, s: seq<byte>, open: bool)
    requires ValidField(f) && DecodeValue(f, prior, s).Ok? && PriorOk(f, prior, open)
    ensures StorageValue(f, DecodeValue(f, prior, s).value, open)
    decreases |s|, 0
  {
    if f.ltype.LSubmessage? {
      var fields := f.ptr.fields;
      if f.htype.Repeated? {
        assert prior.Msg? <==> StorageValue(f, prior, open);
        assert prior.Msg? ==> StorageOk(fields, prior.slots, open);
        DefaultMessageFits(fields, SlotsOf(prior), open);
      }
      var start := if f.htype.Repeated? then DefaultMessage(fields, SlotsOf(prior)) else SlotsOf(prior);
      StorageFits(fields, start, Delimited(s).value, open);
    } else {
      ScalarFits(f, s);
    }
  }

  /** `k` counts the elements present, as the decoder tracks them. */
  predicate CountOk(f: Field, slot: Slot, k: nat) {
    f.htype.Repeated? ==> k <= |ItemsOf(slot)| && (f.HasSize() ==> k == |ItemsOf(slot)|)
  }

  lemma {:induction false} SlotFits(f: Field, wire: nat, slot: Slot, k: nat, s: seq<byte>, open: bool)
    requires ValidField(f) && StorageSlot(f, slot, open) && CountOk(f, slot, k)
    requires DecodeSlot(f, wire, slot, k, s).Ok?
    ensures StorageSlot(f, DecodeSlot(f, wire, slot, k, s).value.0, open)
    ensures f.htype.Oneof? ==> DecodeSlot(f, wire, slot, k, s).value.0.which == f.tag
    decreases |s|, 2
  {
    match f.htype {
      case Required => ValueFits(f, Held(slot), s, open);
      case Optional => ValueFits(f, Held(slot), s, open);
      case Repeated =>
        if wire == WT_STRING && f.Packable() {
          var b := Delimited(s).value;
          PackedFitsArray(f, ItemsOf(slot), k, b, open);
          StoredFits(f, slot, DecodePacked(f, ItemsOf(slot), k, b).value.0, open);
        } else {
          ElementFits(f, slot, k, s, open);
        }
      case Oneof => UnionFits(f, slot, s);
    }
  }

  lemma {:induction false} ElementFits(f: Field, slot: Slot, k: nat, s: seq<byte>, open: bool)
    requires ValidField(f) && f.htype.Repeated? && StorageSlot(f, slot, open) && CountOk(f, slot, k)
    requires k < f.arraySize && DecodeValue(f, Cell(slot, k), s).Ok?
    ensures StorageSlot(f, Stored(slot, Put(ItemsOf(slot), k, DecodeValue(f, Cell(slot, k), s).value)), open)
    decreases |s|, 1
  {
    if f.ltype.LSubmessage? {
      CellFits(f, slot, k, open);
    }
    ValueFits(f, Cell(slot, k), s, open);
    StoredFits(f, slot, Put(ItemsOf(slot), k, DecodeValue(f, Cell(slot, k), s).value), open);
  }

  lemma {:induction false} UnionFits(f: Field, slot: Slot, s: seq<byte>)
    requires ValidField(f) && f.htype.Oneof? && StorageSlot(f, slot, false)
    requires DecodeValue(f, if slot.which == f.tag then slot.v else UnionStart(f), s).Ok?
    ensures StorageValue(f, DecodeValue(f, if slot.which == f.tag then slot.v else UnionStart(f), s).value, false)
    decreases |s|, 1
  {
    ZeroValueFits(f);
    DefaultValueFits(f, ZeroValue(f), false);
    ValueFits(f, if slot.which == f.tag then slot.v else UnionStart(f), s, false);
  }

  /** The fixed-count array being received is not over-full. */
  predicate FixedOk(fixed: FixedTrack) {
    fixed.Receiving? ==> fixed.size <= fixed.f.arraySize
  }

  lemma {:induction false} PackedCount(f: Field, items: seq<Value>, k: nat, s: seq<byte>)
    requires k <= f.arraySize
    ensures var r := DecodePacked(f, items, k, s); r.Some? ==> r.value.1 <= f.arraySize
    decreases |s|
  {
    if s != [] && k < f.arraySize && DecodeScalar(f, s).Ok? {
      var v := DecodeScalar(f, s);
      PackedCount(f, Put(items, k, v.value), k + 1, v.rest);
    }
  }

  lemma {:induction false} RecordFits(
    fields: seq<Field>, st: DecodeState, wire: nat, tag: nat, s: seq<byte>, open: bool)
    requires ValidSchema(fields) && StorageOk(fields, st.msg, open) && FixedOk(st.fixed)
    ensures var p := DecodeRecord(fields, st, wire, tag, s);
            p.Ok? ==> StorageOk(fields, p.value.msg, open) && FixedOk(p.value.fixed)
    decreases |s|, 3
  {
    var found := Find(fields, tag);
    if found.Some? && DecodeRecord(fields, st, wire, tag, s).Ok? {
      var f := found.value;
      var i :| 0 <= i < |fields| && fields[i] == f;
      var slot := SlotOf(st.msg, f);
      var k := ItemCount(f, st);
      assert StorageSlot(f, slot, open) && ValidField(f);
      assert DecodeRecord(fields, st, wire, tag, s) == DecodeField(st, f, wire, s);
      SlotFits(f, wire, slot, k, s, open);
      var p := DecodeSlot(f, wire, slot, k, s);
      UpdateFits(fields, st.msg, i, p.value.0, open);
      if f.FixedCount() && wire == WT_STRING && f.Packable() {
        PackedCount(f, ItemsOf(slot), k, Delimited(s).value);
      }
    }
  }

  lemma UpdateFits(fields: seq<Field>, m: Message, i: nat, slot: Slot, open: bool)
    requires ValidSchema(fields) && StorageOk(fields, m, open) && i < |fields|
    requires StorageSlot(fields[i], slot, open) && (fields[i].htype.Oneof? ==> slot.which == fields[i].tag)
    ensures StorageOk(fields, m[fields[i].Key() := slot], open)
  {
    var m1 := m[fields[i].Key() := slot];
    forall j | 0 <= j < |fields|
      ensures fields[j].Key() in m1 && StorageSlot(fields[j], m1[fields[j].Key()], open)
    {
      if fields[j].Key() == fields[i].Key() && i != j {
        assert fields[j].tag != fields[i].tag;
      }
    }
    forall k | k in m1
      ensures HasKey(fields, k) && SelectorOk(fields, k, m1[k])
    {
      if k == fields[i].Key() {
        assert fields[i].Key() == k;
      }
    }
  }

  lemma {:induction false} LoopFits(fields: seq<Field>, st: DecodeState, s: seq<byte>, open: bool)
    requires ValidSchema(fields) && StorageOk(fields, st.msg, open) && FixedOk(st.fixed)
    ensures var p := DecodeLoop(fields, st, s); p.Ok? ==> StorageOk(fields, p.value.msg, open)
    decreases |s|, 4
  {
    if s != [] {
      var t := DecodeTag(s);
      if t.Tag? {
        RecordFits(fields, st, t.wire, t.tag, t.rest, open);
        var p := DecodeRecord(fields, st, t.wire, t.tag, t.rest);
        if p.Ok? {
          LoopFits(fields, p.value, p.rest, open);
        }
      }
    }
  }

  /** Decoding into storage that fits leaves storage that fits, for every input: counts within their arrays, byte
      strings within their buffers, integers within their types, and unions on a member of the table. */
  lemma {:induction false} StorageFits(fields: seq<Field>, m: Message, s: seq<byte>, open: bool)
    requires ValidSchema(fields) && StorageOk(fields, m, open)
    ensures var p := DecodeMessage(fields, m, s); p.Ok? ==> StorageOk(fields, p.value, open)
    decreases |s|, 5
  {
    LoopFits(fields, DecodeState(m, {}, NoFixed), s, open);
  }

  lemma MessageFits(fields: seq<Field>, m: Message, s: seq<byte>)
    requires ValidSchema(fields) && StorageOk(fields, m, false)
    ensures var p := DecodeMessage(fields, m, s);
            p.Ok? ==> StorageOk(fields, p.value, false) && MessageOk(fields, p.value)
  {
    StorageFits(fields, m, s, false);
    if DecodeMessage(fields, m, s).Ok? {
      StorageIsOk(fields, DecodeMessage(fields, m, s).value);
    }
  }
}
