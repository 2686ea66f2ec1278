/** What the round trip leaves of a message: absent fields fall back to their defaults, nothing else changes. */
module Normal {
  import opened Bytes
  import opened Schema
  import opened DecodeSpec
  import opened EncodeSpec
  import opened WellFormed
  import opened RoundTrip

  // ----- Every struct that fits its table can be encoded -----

  lemma {:induction false} ValueEncodes(f: Field, v: Value)
    requires ValidField(f) && ValueOk(f, v)
    ensures EncodeValue(f, v).Some? && WireType(f).Some?
    decreases f, 0
  {
    if f.ltype.LSubmessage? {
      MessageEncodes(f.ptr.fields, v.slots);
    } else {
      ScalarRoundTrip(f, v, []);
    }
  }

  lemma {:induction false} UnpackedEncodes(f: Field, items: seq<Value>, i: nat)
    requires ValidField(f) && i <= |items|
    requires forall j :: 0 <= j < |items| ==> ValueOk(f, items[j])
    ensures UnpackedRecords(f, items, i).Some?
    decreases f, 1, |items| - i
  {
    if i < |items| {
      ValueEncodes(f, items[i]);
      UnpackedEncodes(f, items, i + 1);
    }
  }

  lemma {:induction false} PackedEncodes(f: Field, items: seq<Value>, i: nat)
    requires f.Packable() && i <= |items|
    requires forall j :: 0 <= j < |items| ==> ValueOk(f, items[j])
    ensures EncodePacked(f, items, i).Some?
    decreases |items| - i
  {
    if i < |items| {
      NumberRoundTrip(f, items[i], []);
      PackedEncodes(f, items, i + 1);
    }
  }

  lemma {:induction false} SlotEncodes(f: Field, slot: Slot)
    requires ValidField(f) && SlotOk(f, slot)
    ensures FieldRecords(f, slot).Some?
    decreases f, 2
  {
    if f.htype.Repeated? {
      if f.Packable() {
        PackedEncodes(f, slot.items, 0);
      } else {
        UnpackedEncodes(f, slot.items, 0);
      }
    } else if Present(f, slot) {
      ValueEncodes(f, Held(slot));
    }
  }

  lemma {:induction false} RecordsEncode(fields: seq<Field>, m: Message, i: nat)
    requires ValidSchema(fields) && MessageOk(fields, m) && i <= |fields|
    ensures RecordsFrom(fields, m, i).Some?
    decreases fields, 0, |fields| - i
  {
    if i < |fields| {
      SlotEncodes(fields[i], SlotOf(m, fields[i]));
      RecordsEncode(fields, m, i + 1);
    }
  }

  lemma {:induction false} MessageEncodes(fields: seq<Field>, m: Message)
    requires ValidSchema(fields) && MessageOk(fields, m)
    ensures EncodeMessage(fields, m).Some?
    decreases fields, 1
  {
    RecordsEncode(fields, m, 0);
  }

  /** The whole round trip: a struct that fits its table encodes, and decoding into any struct gives its normal form
      back with no byte left over. */
  lemma EncodeDecode(fields: seq<Field>, m: Message, was: Message)
    requires ValidSchema(fields) && MessageOk(fields, m)
    ensures EncodeMessage(fields, m).Some?
    ensures var b := EncodeMessage(fields, m).value;
            |b| < TWO_32 ==> Decode(fields, was, b) == Ok(NormalMessage(fields, m, was), [])
  {
    MessageEncodes(fields, m);
    if |EncodeMessage(fields, m).value| < TWO_32 {
      MessageRoundTrip(fields, m, was, EncodeMessage(fields, m).value);
    }
  }

  // ----- The normal form, slot by slot -----

  /** A field leaves the slots of others alone, and its own if it is not present. */
  lemma LastFieldElsewhere(fields: seq<Field>, known: seq<Field>, m: Message, was: Message, n: nat, k: Key)
    requires 0 < n <= |fields|
    requires fields[n - 1].Key() != k || !Emits(fields[n - 1], SlotOf(m, fields[n - 1]))
    ensures var before, after := NormalUpTo(fields, known, m, was, n - 1), NormalUpTo(fields, known, m, was, n);
            (k in after <==> k in before) && (k in after ==> after[k] == before[k])
  {
  }

  /** A present field holds its normal value. */
  lemma {:induction false} EmittedSlot(
    fields: seq<Field>, known: seq<Field>, m: Message, was: Message, n: nat, i: nat)
    requires ValidSchema(fields) && MessageOk(fields, m) && i < n <= |fields|
    requires Knows(known, fields[i].tag) && Emits(fields[i], SlotOf(m, fields[i]))
    ensures var f := fields[i];
            var k := f.Key();
            k in NormalUpTo(fields, known, m, was, n) &&
            NormalUpTo(fields, known, m, was, n)[k] ==
            NormalSlot(f, Find(known, f.tag).value, SlotOf(m, f), OldSlot(was, k))
    decreases n
  {
    if i < n - 1 {
      EmittedSlot(fields, known, m, was, n - 1, i);
      if fields[n - 1].Key() == fields[i].Key() {
        OnlyOneEmits(fields, m, i, n - 1);
      }
      LastFieldElsewhere(fields, known, m, was, n, fields[i].Key());
    }
  }

  /** A slot of which no known field is present holds its default. */
  lemma SilentSlot(fields: seq<Field>, known: seq<Field>, m: Message, was: Message, j: nat)
    requires ValidSchema(known) && j < |known|
    requires forall i :: 0 <= i < |fields| && fields[i].Key() == known[j].Key() && Knows(known, fields[i].tag) ==>
               !Emits(fields[i], SlotOf(m, fields[i]))
    ensures var k := known[j].Key();
            k in NormalOnto(fields, known, m, was) &&
            NormalOnto(fields, known, m, was)[k] == DefaultSlot(known[j], OldSlot(was, k))
  {
    DefaultsHold(known, was, |known|, j);
    UntouchedSlot(fields, known, m, was, |fields|, known[j].Key());
  }

  lemma OwnField(fields: seq<Field>, i: nat)
    requires ValidSchema(fields) && i < |fields|
    ensures Find(fields, fields[i].tag) == Some(fields[i])
  {
    assert ValidField(fields[i]);
    FindIs(fields, 0, i);
  }

  // ----- Which slots a message comes back with -----

  lemma {:induction false} NormalKeys(
    fields: seq<Field>, known: seq<Field>, m: Message, was: Message, n: nat, k: Key)
    requires SubSchema(known, fields) && ValidSchema(fields) && ValidSchema(known) && n <= |fields|
    requires k in NormalUpTo(fields, known, m, was, n)
    ensures HasKey(known, k)
    decreases n
  {
    if n == 0 {
      DefaultKeys(known, was, |known|, k);
    } else if k == fields[n - 1].Key() && Knows(known, fields[n - 1].tag) {
      var j := KnownIs(fields, known, n - 1);
      assert known[j].Key() == k;
    } else {
      NormalKeys(fields, known, m, was, n - 1, k);
    }
  }

  lemma {:induction false} DefaultKeys(fields: seq<Field>, was: Message, n: nat, k: Key)
    requires n <= |fields| && k in DefaultsUpTo(fields, was, n)
    ensures HasKey(fields, k)
    decreases n
  {
    if n > 0 && k != fields[n - 1].Key() {
      DefaultKeys(fields, was, n - 1, k);
    }
  }

  // ----- Omitted fields -----

  lemma {:induction false} NothingEmits(fields: seq<Field>, m: Message, was: Message, n: nat)
    requires n <= |fields|
    requires forall i :: 0 <= i < |fields| ==> !Emits(fields[i], SlotOf(m, fields[i]))
    ensures NormalUpTo(fields, fields, m, was, n) == DefaultMessage(fields, was)
    decreases n
  {
    if n > 0 {
      NothingEmits(fields, m, was, n - 1);
    }
  }

  /** A proto3 field that the encoder omits as "zero" decodes to that same zero: the check looks at just the
      parts that its default fixes, through all levels of submessages. */
  lemma OmittedIsDefault(f: Field, v: Value, was: Value)
    requires ValidField(f) && ValueOk(f, v) && !f.ptr.Default?
    requires ValueIsDefault(f, v)
    ensures NormalValue(f, f, v, was) == DefaultValue(f, was)
  {
    if f.ltype.LSubmessage? {
      var fields, m := f.ptr.fields, v.slots;
      forall i | 0 <= i < |fields|
        ensures !Emits(fields[i], SlotOf(m, fields[i]))
      {
        assert ValidField(fields[i]) && SlotIsDefault(fields[i], SlotOf(m, fields[i]));
      }
      NothingEmits(fields, m, SlotsOf(was), |fields|);
      assert NormalValue(f, f, v, was) == Msg(NormalOnto(fields, fields, m, SlotsOf(was)));
    } else if f.ltype.LFixedLengthBytes? {
      assert v.bytes == Zeros(f.dataSize);
    }
  }

  // ----- Messages that come back unchanged -----

  /** A value that is the same after a round trip into storage that held `was`: strings have no NUL inside. */
  predicate CanonicalValue(f: Field, v: Value, was: Value)
    decreases f, 0
  {
    if f.ltype.LString? then v.Data? && StringLength(v.bytes, f.dataSize) == |v.bytes|
    else if f.ltype.LSubmessage? then f.ptr.Fields? && v.Msg? && Canonical(f.ptr.fields, v.slots, SlotsOf(was))
    else true
  }

  /** What is present is canonical, an absent optional field holds its default, and behind the elements of an array lies
      what lay there. */
  predicate CanonicalSlot(f: Field, slot: Slot, was: Slot)
    decreases f, 1
  {
    match f.htype
    case Required => CanonicalValue(f, Held(slot), Held(was))
    case Optional =>
      if Present(f, slot) then CanonicalValue(f, Held(slot), Held(was)) else Held(slot) == DefaultValue(f, Held(was))
    case Repeated =>
      slot.Items? && slot.spare == Behind(was, |slot.items|) &&
      forall i :: 0 <= i < |slot.items| ==> CanonicalValue(f, slot.items[i], Cell(was, i))
    case Oneof => Present(f, slot) ==> CanonicalValue(f, Held(slot), ZeroValue(f))
  }

  predicate Canonical(fields: seq<Field>, m: Message, was: Message)
    decreases fields, 0
  {
    forall i :: 0 <= i < |fields| ==>
      var k := fields[i].Key(); k in m && CanonicalSlot(fields[i], m[k], OldSlot(was, k))
  }

  lemma {:induction false} CanonicalValueStays(f: Field, v: Value, was: Value)
    requires ValidField(f) && ValueOk(f, v)
    ensures NormalValue(f, f, v, was) == v <==> CanonicalValue(f, v, was)
    decreases f, 0
  {
    if f.ltype.LSubmessage? {
      CanonicalStays(f.ptr.fields, v.slots, SlotsOf(was));
    }
  }

  lemma {:induction false} CanonicalItemsStay(f: Field, slot: Slot, was: Slot)
    requires ValidField(f) && SlotOk(f, slot) && f.htype.Repeated?
    ensures Stored(was, NormalItems(f, f, slot.items, was)) == slot <==> CanonicalSlot(f, slot, was)
    decreases f, 1
  {
    var normal := NormalItems(f, f, slot.items, was);
    forall i | 0 <= i < |slot.items|
      ensures normal[i] == slot.items[i] <==> CanonicalValue(f, slot.items[i], Cell(was, i))
    {
      CanonicalValueStays(f, slot.items[i], Cell(was, i));
    }
    assert normal == slot.items <==> forall i :: 0 <= i < |slot.items| ==> normal[i] == slot.items[i];
  }

  /** What a slot comes back as. */
  function SlotBack(f: Field, slot: Slot, was: Slot): Slot {
    if Emits(f, slot) then NormalSlot(f, f, slot, was) else DefaultSlot(f, was)
  }

  lemma {:induction false} CanonicalSlotStays(f: Field, slot: Slot, was: Slot)
    requires ValidField(f) && SlotOk(f, slot) && (f.htype.Oneof? ==> Present(f, slot))
    ensures SlotBack(f, slot, was) == slot <==> CanonicalSlot(f, slot, was)
    decreases f, 2
  {
    if f.htype.Repeated? {
      CanonicalItemsStay(f, slot, was);
      if slot.items == [] {
        assert DefaultSlot(f, was) == Stored(was, []);
        assert NormalItems(f, f, slot.items, was) == [];
      }
    } else if Present(f, slot) {
      CanonicalValueStays(f, Held(slot), if f.htype.Oneof? then ZeroValue(f) else Held(was));
    }
  }

  /** The slot of field `x`, in a message and in what comes back. */
  lemma {:induction false} CanonicalKeyStays(fields: seq<Field>, m: Message, was: Message, x: nat)
    requires ValidSchema(fields) && MessageOk(fields, m) && x < |fields|
    ensures var k := fields[x].Key();
            k in NormalMessage(fields, m, was) && k in m &&
            (NormalMessage(fields, m, was)[k] == m[k] <==>
             forall y :: 0 <= y < |fields| && fields[y].Key() == k ==> CanonicalSlot(fields[y], m[k], OldSlot(was, k)))
    decreases fields, 1
  {
    var k := fields[x].Key();
    assert k in m;
    if i :| 0 <= i < |fields| && fields[i].Key() == k && Emits(fields[i], SlotOf(m, fields[i])) {
      OwnField(fields, i);
      EmittedSlot(fields, fields, m, was, |fields|, i);
      assert SlotOk(fields[i], m[k]);
      CanonicalSlotStays(fields[i], m[k], OldSlot(was, k));
      OnlyOneMatters(fields, m, was, i);
    } else {
      SilentSlot(fields, fields, m, was, x);
      assert SlotOk(fields[x], m[k]);
      if fields[x].htype.Oneof? {
        NothingSelected(fields, m, x);
      } else {
        CanonicalSlotStays(fields[x], m[k], OldSlot(was, k));
        OnlyOneMatters(fields, m, was, x);
      }
    }
  }

  /** The members of a union that are not selected have no say. */
  lemma OnlyOneMatters(fields: seq<Field>, m: Message, was: Message, i: nat)
    requires ValidSchema(fields) && MessageOk(fields, m) && i < |fields|
    requires fields[i].htype.Oneof? ==> Emits(fields[i], SlotOf(m, fields[i]))
    ensures var k := fields[i].Key();
            k in m &&
            (CanonicalSlot(fields[i], m[k], OldSlot(was, k)) <==>
             forall y :: 0 <= y < |fields| && fields[y].Key() == k ==> CanonicalSlot(fields[y], m[k], OldSlot(was, k)))
  {
    var k := fields[i].Key();
    assert k in m;
    forall y | 0 <= y < |fields| && fields[y].Key() == k && y != i
      ensures CanonicalSlot(fields[y], m[k], OldSlot(was, k))
    {
      assert fields[y].tag != fields[i].tag;
      OnlyOneEmits(fields, m, i, y);
    }
  }

  lemma NothingSelected(fields: seq<Field>, m: Message, x: nat)
    requires MessageOk(fields, m) && x < |fields| && fields[x].htype.Oneof?
    requires forall i :: 0 <= i < |fields| && fields[i].Key() == fields[x].Key() ==>
               !Emits(fields[i], SlotOf(m, fields[i]))
    ensures m[fields[x].Key()] == Union(0, Int(0))
  {
    var k := fields[x].Key();
    assert SlotOk(fields[x], m[k]);
    assert SelectorOk(fields, k, m[k]);
  }

  lemma {:induction false} DefaultKeysStay(
    fields: seq<Field>, known: seq<Field>, m: Message, was: Message, n: nat, k: Key)
    requires n <= |fields| && k in DefaultMessage(known, was)
    ensures k in NormalUpTo(fields, known, m, was, n)
    decreases n
  {
    if n > 0 {
      DefaultKeysStay(fields, known, m, was, n - 1, k);
    }
  }

  /** There is a slot for each known field and no other. */
  lemma SlotsOfNormal(fields: seq<Field>, known: seq<Field>, m: Message, was: Message, k: Key)
    requires ValidSchema(fields) && ValidSchema(known) && SubSchema(known, fields)
    ensures k in NormalOnto(fields, known, m, was) <==> HasKey(known, k)
  {
    if k in NormalOnto(fields, known, m, was) {
      NormalKeys(fields, known, m, was, |fields|, k);
    } else if HasKey(known, k) {
      var x :| 0 <= x < |known| && known[x].Key() == k;
      DefaultsHold(known, was, |known|, x);
      DefaultKeysStay(fields, known, m, was, |fields|, k);
    }
  }

  lemma SameKeys(fields: seq<Field>, m: Message, was: Message)
    requires ValidSchema(fields) && MessageOk(fields, m)
    ensures NormalMessage(fields, m, was).Keys == m.Keys
  {
    SameTable(fields);
    forall k
      ensures k in NormalMessage(fields, m, was) <==> k in m
    {
      SlotsOfNormal(fields, fields, m, was, k);
    }
  }

  /** The canonical messages are just those that come back exactly as they were. */
  lemma {:induction false} CanonicalStays(fields: seq<Field>, m: Message, was: Message)
    requires ValidSchema(fields) && MessageOk(fields, m)
    ensures NormalMessage(fields, m, was) == m <==> Canonical(fields, m, was)
    decreases fields, 2
  {
    var normal := NormalMessage(fields, m, was);
    SameKeys(fields, m, was);
    forall x | 0 <= x < |fields|
      ensures var k := fields[x].Key();
              k in m && k in normal &&
              (normal[k] == m[k] <==>
               forall y :: 0 <= y < |fields| && fields[y].Key() == k ==>
                 CanonicalSlot(fields[y], m[k], OldSlot(was, k)))
    {
      CanonicalKeyStays(fields, m, was, x);
    }
    if Canonical(fields, m, was) {
      forall k | k in m
        ensures normal[k] == m[k]
      {
        assert HasKey(fields, k);
        var x :| 0 <= x < |fields| && fields[x].Key() == k;
      }
    }
  }

  lemma CanonicalRoundTrip(fields: seq<Field>, m: Message, was: Message, b: seq<byte>)
    requires ValidSchema(fields) && MessageOk(fields, m)
    requires EncodeMessage(fields, m) == Some(b) && |b| < TWO_32
    ensures Decode(fields, was, b) == Ok(m, []) <==> Canonical(fields, m, was)
  {
    MessageRoundTrip(fields, m, was, b);
    CanonicalStays(fields, m, was);
  }

  // ----- Two messages that do not come back as they were -----

  /** A string with a NUL inside loses what follows it. */
  lemma InnerNulIsCut(fields: seq<Field>, m: Message, was: Message)
    requires fields == [Field(1, Required, LString, 0, 0, 4, 0, 0, Null)]
    requires m == map[FieldKey(1) := Single(Data([65, 0, 66]))]
    ensures ValidSchema(fields) && MessageOk(fields, m) && !Canonical(fields, m, was)
    ensures EncodeMessage(fields, m) == Some([10, 1, 65])
    ensures Decode(fields, was, [10, 1, 65]) == Ok(map[FieldKey(1) := Single(Data([65]))], [])
  {
    var f, s: seq<byte> := fields[0], [65, 0, 66];
    OneFieldMessage(fields, m, was);
    assert s[1..][0] == 0 && StringLength(s[1..], 3) == 0 && StringLength(s, 4) == 1 && s[..1] == [65];
    assert EncodeScalar(f, Data(s)) == Some(Prefixed([65]));
    assert Prefixed([65]) == [1, 65] && TagBytes(1, 2) == [10];
    OneRecordBytes(Record(1, WT_STRING, [1, 65]));
    assert RecordBytes(Record(1, WT_STRING, [1, 65])) == [10, 1, 65];
    assert FieldRecords(f, m[FieldKey(1)]) == Some([Record(1, WT_STRING, [1, 65])]);
    assert NormalSlot(f, f, m[FieldKey(1)], OldSlot(was, FieldKey(1))) == Single(Data([65]));
    MessageRoundTrip(fields, m, was, [10, 1, 65]);
  }

  /** The value of an optional field whose has_ flag is off is not kept. */
  lemma ClearedFlagForgets(fields: seq<Field>, m: Message, was: Message)
    requires fields == [Field(1, Optional, LUVarint, 0, 4, 4, 0, 0, Null)]
    requires m == map[FieldKey(1) := Flagged(false, Int(7))]
    ensures ValidSchema(fields) && MessageOk(fields, m) && !Canonical(fields, m, was)
    ensures EncodeMessage(fields, m) == Some([])
    ensures Decode(fields, was, []) == Ok(map[FieldKey(1) := Flagged(false, Int(0))], [])
  {
    var f := fields[0];
    OneFieldMessage(fields, m, was);
    assert FieldRecords(f, m[FieldKey(1)]) == Some([]);
    MessageRoundTrip(fields, m, was, []);
  }

  /** What the encoder and the round trip make of a message of one field. */
  lemma OneFieldMessage(fields: seq<Field>, m: Message, was: Message)
    requires |fields| == 1 && ValidField(fields[0]) && fields[0].Key() in m
    ensures ValidSchema(fields)
    ensures RecordsFrom(fields, m, 0) == FieldRecords(fields[0], m[fields[0].Key()])
    ensures var f := fields[0];
            var k := f.Key();
            NormalMessage(fields, m, was) == map[k := SlotBack(f, m[k], OldSlot(was, k))]
  {
    var f, k := fields[0], fields[0].Key();
    assert RecordsFrom(fields, m, 1) == Some([]);
    var rs := FieldRecords(f, m[k]);
    assert rs.Some? ==> rs.value + [] == rs.value;
    assert DefaultsUpTo(fields, was, 0) == map[];
    assert DefaultMessage(fields, was) == map[k := DefaultSlot(f, OldSlot(was, k))];
    OwnField(fields, 0);
    assert NormalUpTo(fields, fields, m, was, 0) == DefaultMessage(fields, was);
    assert NormalUpTo(fields, fields, m, was, 1) == map[k := SlotBack(f, m[k], OldSlot(was, k))];
  }
}
