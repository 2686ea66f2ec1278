/** What decoding leaves of the fields that are not in the input, and which of them have to be there. */
module Absent {
  import opened Bytes
  import opened Varint
  import opened Schema
  import opened DecodeSpec
  import opened WellFormed
  import opened RoundTrip
  import opened Projection

  // ----- The numbers that occur -----

  /** Where a record ends, by the type of its field, or else by its wire type. */
  function BehindRecord(fields: seq<Field>, wire: nat, tag: nat, s: seq<byte>): (p: Parse<()>)
    ensures p.Ok? ==> |p.rest| < |s|
  {
    var f := Find(fields, tag);
    if f.None? then SkipField(if fields == [] && tag == 0 then 0 else wire, s)
    else if f.value.htype.Repeated? && f.value.Packable() && wire == 2 then SkipField(2, s)
    else
      match f.value.ltype
      case LBool | LVarint | LUVarint | LSVarint => SkipField(0, s)
      case LFixed32 => SkipField(5, s)
      case LFixed64 => SkipField(1, s)
      case LBytes | LString | LSubmessage | LFixedLengthBytes | LExtension => SkipField(2, s)
  }

  /** The numbers of the records of a message, up to its end or an end marker. */
  function Numbers(fields: seq<Field>, s: seq<byte>): set<nat>
    decreases |s|
  {
    if s == [] then {}
    else
      match DecodeTag(s)
      case EndOfMessage(_) | BadTag => {}
      case Tag(wire, tag, rest) =>
        var p := BehindRecord(fields, wire, tag, rest);
        {tag} + if p.Fail? then {} else Numbers(fields, p.rest)
  }

  lemma ScalarEnds(f: Field, s: seq<byte>)
    requires DecodeScalar(f, s).Ok?
    ensures var rest := DecodeScalar(f, s).rest;
            match f.ltype
            case LBool | LVarint | LUVarint | LSVarint => SkipField(0, s) == Ok((), rest)
            case LFixed32 => SkipField(5, s) == Ok((), rest)
            case LFixed64 => SkipField(1, s) == Ok((), rest)
            case LBytes | LString | LFixedLengthBytes => SkipField(2, s) == Ok((), rest)
            case LSubmessage | LExtension => false
  {
    match f.ltype {
      case LBool => Varint32Ends(s);
      case LVarint | LUVarint | LSVarint => Varint64StopsAt(s, 0, 0);
      case LBytes | LString | LFixedLengthBytes =>
        if Varint32(s).value == 0 {
          assert Varint32(s).rest[0..] == Varint32(s).rest;
        }
      case _ =>
    }
  }

  lemma Varint32Ends(s: seq<byte>)
    requires Varint32(s).Ok?
    ensures SkipVarint(s) == Ok((), Varint32(s).rest)
  {
    if s[0] >= 128 {
      Varint32StopsAt(s[1..], 7, Low7(s[0]));
    }
  }

  /** A record that is accepted ends where its type says, whatever is in the struct. */
  lemma RecordEnds(fields: seq<Field>, st: DecodeState, wire: nat, tag: nat, s: seq<byte>)
    requires ValidSchema(fields) && DecodeRecord(fields, st, wire, tag, s).Ok?
    ensures BehindRecord(fields, wire, tag, s) == Ok((), DecodeRecord(fields, st, wire, tag, s).rest)
  {
    var f := Find(fields, tag);
    if f.Some? {
      assert DecodeRecord(fields, st, wire, tag, s) == DecodeField(st, f.value, wire, s);
      SlotEnds(f.value, wire, SlotOf(st.msg, f.value), ItemCount(f.value, st), s);
    } else if fields == [] && tag == 0 {
      Varint32Ends(s);
    } else {
      var p := SkipField(wire, s);
      assert p == Ok((), p.rest) by {
        assert p.value == ();
      }
    }
  }

  lemma SlotEnds(f: Field, wire: nat, slot: Slot, k: nat, s: seq<byte>)
    requires DecodeSlot(f, wire, slot, k, s).Ok?
    ensures var rest := DecodeSlot(f, wire, slot, k, s).rest;
            if f.htype.Repeated? && f.Packable() && wire == 2 then SkipField(2, s) == Ok((), rest)
            else EndsLike(f, s, rest)
  {
    if !(f.htype.Repeated? && f.Packable() && wire == 2) {
      var prior :| DecodeValue(f, prior, s).Ok? &&
                   DecodeValue(f, prior, s).rest == DecodeSlot(f, wire, slot, k, s).rest;
      if !f.ltype.LSubmessage? {
        ScalarEnds(f, s);
      }
    }
  }

  predicate EndsLike(f: Field, s: seq<byte>, rest: seq<byte>) {
    match f.ltype
    case LBool | LVarint | LUVarint | LSVarint => SkipField(0, s) == Ok((), rest)
    case LFixed32 => SkipField(5, s) == Ok((), rest)
    case LFixed64 => SkipField(1, s) == Ok((), rest)
    case LBytes | LString | LSubmessage | LFixedLengthBytes | LExtension => SkipField(2, s) == Ok((), rest)
  }

  // ----- Fields that do not occur -----

  /** No field that is stored in this slot occurs. */
  predicate Untouched(fields: seq<Field>, k: Key, numbers: set<nat>) {
    forall j :: 0 <= j < |fields| && fields[j].Key() == k ==> fields[j].tag !in numbers
  }

  lemma RecordTouches(fields: seq<Field>, st: DecodeState, wire: nat, tag: nat, s: seq<byte>, k: Key)
    requires DecodeRecord(fields, st, wire, tag, s).Ok? && Untouched(fields, k, {tag})
    ensures var m := DecodeRecord(fields, st, wire, tag, s).value.msg;
            (k in m <==> k in st.msg) && (k in m ==> m[k] == st.msg[k])
  {
    var f := Find(fields, tag);
    if f.Some? {
      assert DecodeRecord(fields, st, wire, tag, s) == DecodeField(st, f.value, wire, s);
      var j :| 0 <= j < |fields| && fields[j] == f.value;
      assert fields[j].Key() != k;
    }
  }

  lemma {:induction false} LoopTouches(fields: seq<Field>, st: DecodeState, s: seq<byte>, k: Key)
    requires ValidSchema(fields) && DecodeLoop(fields, st, s).Ok? && Untouched(fields, k, Numbers(fields, s))
    ensures var m := DecodeLoop(fields, st, s).value.msg;
            (k in m <==> k in st.msg) && (k in m ==> m[k] == st.msg[k])
    decreases |s|
  {
    if s != [] {
      var t := DecodeTag(s);
      if t.Tag? {
        var p := DecodeRecord(fields, st, t.wire, t.tag, t.rest);
        RecordEnds(fields, st, t.wire, t.tag, t.rest);
        RecordTouches(fields, st, t.wire, t.tag, t.rest, k);
        LoopTouches(fields, p.value, p.rest, k);
      }
    }
  }

  /** Decoding into an existing struct leaves a slot alone of which no field occurs. */
  lemma AbsentStays(fields: seq<Field>, m: Message, s: seq<byte>, k: Key)
    requires ValidSchema(fields) && DecodeMessage(fields, m, s).Ok? && Untouched(fields, k, Numbers(fields, s))
    ensures var m1 := DecodeMessage(fields, m, s).value;
            (k in m1 <==> k in m) && (k in m1 ==> m1[k] == m[k])
  {
    LoopTouches(fields, DecodeState(m, {}, NoFixed), s, k);
  }

  // ----- Defaults, written out -----

  /** The default of the descriptor if it has one, else 0, no bytes or zero bytes. In a submessage, all of its fields
      are at their defaults. */
  predicate ValueAtDefault(f: Field, v: Value)
    decreases f, 0
  {
    if f.ltype.LSubmessage? then
      v.Msg? && f.ptr.Fields? &&
      forall i :: 0 <= i < |f.ptr.fields| ==>
        var g := f.ptr.fields[i]; g.Key() in v.slots && SlotAtDefault(g, v.slots[g.Key()])
    else if f.ptr.Default? then v == f.ptr.value
    else
      match f.ltype
      case LBytes | LString => v == Data([])
      case LFixedLengthBytes => v == Data(seq(f.dataSize, _ => 0))
      case _ => v == Int(0)
  }

  /** Flags are off, counts are zero and selectors are zero. */
  predicate SlotAtDefault(f: Field, slot: Slot)
    decreases f, 1
  {
    match slot
    case Single(v) => (f.htype.Required? || (f.htype.Optional? && f.sizeOffset == 0)) && ValueAtDefault(f, v)
    case Flagged(has, v) => f.htype.Optional? && f.sizeOffset != 0 && !has && ValueAtDefault(f, v)
    case Items(items, _) => f.htype.Repeated? && if f.sizeOffset != 0 then items == [] else |items| == f.arraySize
    case Union(which, _) => f.htype.Oneof? && which == 0
  }

  lemma {:induction false} DefaultValueIs(f: Field, was: Value)
    requires ValidField(f)
    ensures ValueAtDefault(f, DefaultValue(f, was))
    decreases f, 0
  {
    if f.ltype.LSubmessage? {
      var fields := f.ptr.fields;
      var m := DefaultMessage(fields, SlotsOf(was));
      forall i | 0 <= i < |fields|
        ensures fields[i].Key() in m && SlotAtDefault(fields[i], m[fields[i].Key()])
      {
        DefaultsHold(fields, SlotsOf(was), |fields|, i);
        DefaultSlotIs(fields[i], OldSlot(SlotsOf(was), fields[i].Key()));
      }
    } else if f.ltype.LFixedLengthBytes? {
      assert Zeros(f.dataSize) == seq(f.dataSize, _ => 0);
    }
  }

  lemma {:induction false} DefaultSlotIs(f: Field, was: Slot)
    requires ValidField(f)
    ensures SlotAtDefault(f, DefaultSlot(f, was))
    decreases f, 1
  {
    if f.htype.Required? || f.htype.Optional? {
      DefaultValueIs(f, Held(was));
    }
  }

  lemma DefaultsAre(fields: seq<Field>, was: Message)
    requires ValidSchema(fields)
    ensures var m := DefaultMessage(fields, was);
            forall i :: 0 <= i < |fields| ==> fields[i].Key() in m && SlotAtDefault(fields[i], m[fields[i].Key()])
  {
    forall i | 0 <= i < |fields|
      ensures fields[i].Key() in DefaultMessage(fields, was)
      ensures SlotAtDefault(fields[i], DefaultMessage(fields, was)[fields[i].Key()])
    {
      DefaultsHold(fields, was, |fields|, i);
      DefaultSlotIs(fields[i], OldSlot(was, fields[i].Key()));
    }
  }

  /** A field that is not in the input, and is not in a union with one that is, has its default: a required or optional
      one the value that its descriptor says, with its has_ flag off, through all levels of submessages. */
  lemma AbsentIsDefault(fields: seq<Field>, was: Message, s: seq<byte>, i: nat)
    requires ValidSchema(fields) && Decode(fields, was, s).Ok? && i < |fields|
    requires Untouched(fields, fields[i].Key(), Numbers(fields, s))
    ensures var f := fields[i];
            var m := Decode(fields, was, s).value;
            f.Key() in m && SlotAtDefault(f, m[f.Key()])
  {
    DefaultsHold(fields, was, |fields|, i);
    DefaultSlotIs(fields[i], OldSlot(was, fields[i].Key()));
    AbsentStays(fields, DefaultMessage(fields, was), s, fields[i].Key());
  }

  /** In particular, a number or byte string that is not in the input. */
  lemma AbsentValue(fields: seq<Field>, was: Message, s: seq<byte>, i: nat)
    requires ValidSchema(fields) && Decode(fields, was, s).Ok? && i < |fields|
    requires (fields[i].htype.Required? || fields[i].htype.Optional?) && !fields[i].ltype.LSubmessage?
    requires fields[i].tag !in Numbers(fields, s)
    ensures var f := fields[i];
            var m := Decode(fields, was, s).value;
            var v := if f.ptr.Default? then f.ptr.value
                     else match f.ltype
                          case LBytes | LString => Data([])
                          case LFixedLengthBytes => Data(seq(f.dataSize, _ => 0))
                          case _ => Int(0);
            FieldKey(f.tag) in m &&
            m[FieldKey(f.tag)] == if f.htype.Optional? && f.sizeOffset != 0 then Flagged(false, v) else Single(v)
  {
    AbsentIsDefault(fields, was, s, i);
  }

  /** An array that is not in the input keeps its storage, and, if it has no count of its own, its elements. */
  lemma AbsentArray(fields: seq<Field>, was: Message, s: seq<byte>, i: nat, xs: seq<Value>, ys: seq<Value>)
    requires ValidSchema(fields) && Decode(fields, was, s).Ok? && i < |fields| && fields[i].htype.Repeated?
    requires fields[i].tag !in Numbers(fields, s)
    requires FieldKey(fields[i].tag) in was && was[FieldKey(fields[i].tag)] == Items(xs, ys)
    ensures var f := fields[i];
            var m := Decode(fields, was, s).value;
            FieldKey(f.tag) in m &&
            (f.sizeOffset != 0 ==> m[FieldKey(f.tag)] == Items([], xs + ys)) &&
            (f.sizeOffset == 0 && |xs| == f.arraySize ==> m[FieldKey(f.tag)] == Items(xs, ys))
  {
    var f := fields[i];
    DefaultsHold(fields, was, |fields|, i);
    AbsentStays(fields, DefaultMessage(fields, was), s, f.Key());
    assert (xs + ys)[0..] == xs + ys && (xs + ys)[|xs|..] == ys;
    assert |xs| == f.arraySize ==> seq(|xs|, k requires 0 <= k < |xs| => (xs + ys)[k]) == xs;
    if f.FixedCount() && |xs| == f.arraySize {
      assert KeptItems(f, Items(xs, ys)) == xs;
    }
  }

  /** The default of a generated table: a network type that is not in the input is -1. */
  lemma NetworkTypeIsNone(fields: seq<Field>, was: Message)
    requires fields == [Field(1, Optional, LVarint, 4, -4, 4, 0, 0, Default(Int(-1))),
                        Field(2, Optional, LUVarint, 4, -4, 4, 0, 0, Default(Int(0)))]
    ensures ValidSchema(fields)
    ensures Decode(fields, was, []) ==
            Ok(map[FieldKey(1) := Flagged(false, Int(-1)), FieldKey(2) := Flagged(false, Int(0))], [])
  {
    assert ValidField(fields[0]) && ValidField(fields[1]);
    assert DefaultsUpTo(fields, was, 0) == map[];
    assert DefaultsUpTo(fields, was, 1) == map[FieldKey(1) := Flagged(false, Int(-1))];
    assert DefaultsUpTo(fields, was, 2) ==
           map[FieldKey(1) := Flagged(false, Int(-1)), FieldKey(2) := Flagged(false, Int(0))];
  }

  // ----- Storage of zero bytes, written out -----

  /** 0, no bytes or zero bytes, whatever the defaults are. */
  predicate HoldsZero(f: Field, v: Value)
    decreases f, 0
  {
    match f.ltype
    case LSubmessage =>
      v.Msg? && f.ptr.Fields? &&
      forall i :: 0 <= i < |f.ptr.fields| ==>
        var g := f.ptr.fields[i]; g.Key() in v.slots && SlotHoldsZero(g, v.slots[g.Key()])
    case LBytes | LString => v == Data([])
    case LFixedLengthBytes => v == Data(seq(f.dataSize, _ => 0))
    case _ => v == Int(0)
  }

  /** All of the storage of an array is zero; what a count of zero leaves of it lies behind its elements. */
  predicate SlotHoldsZero(f: Field, slot: Slot)
    decreases f, 1
  {
    match slot
    case Single(v) => HoldsZero(f, v)
    case Flagged(has, v) => !has && HoldsZero(f, v)
    case Items(items, spare) =>
      (if f.sizeOffset != 0 then items == [] else spare == []) && |items + spare| == f.arraySize &&
      forall k :: 0 <= k < f.arraySize ==> HoldsZero(f, (items + spare)[k])
    case Union(which, _) => which == 0
  }

  lemma {:induction false} ZeroValueIs(f: Field)
    requires ValidField(f)
    ensures HoldsZero(f, ZeroValue(f))
    decreases f, 0
  {
    if f.ltype.LSubmessage? {
      ZerosAre(f.ptr.fields);
    } else if f.ltype.LFixedLengthBytes? {
      assert Zeros(f.dataSize) == seq(f.dataSize, _ => 0);
    }
  }

  lemma {:induction false} ZeroSlotIs(f: Field)
    requires ValidField(f)
    ensures SlotHoldsZero(f, ZeroSlot(f))
    decreases f, 1
  {
    if !f.htype.Oneof? {
      ZeroValueIs(f);
    }
  }

  /** The struct that a union member starts from holds zeros only. */
  lemma {:induction false} ZerosAre(fields: seq<Field>)
    requires ValidSchema(fields)
    ensures var m := ZeroMessage(fields);
            forall i :: 0 <= i < |fields| ==>
              fields[i].Key() in m && SlotHoldsZero(fields[i], m[fields[i].Key()])
    decreases fields, 2
  {
    forall i | 0 <= i < |fields|
      ensures fields[i].Key() in ZeroMessage(fields) && SlotHoldsZero(fields[i], ZeroMessage(fields)[fields[i].Key()])
    {
      ZerosHold(fields, |fields|, i);
      ZeroSlotIs(fields[i]);
    }
  }

  // ----- Fields that have to occur -----

  lemma {:induction false} LoopSees(fields: seq<Field>, st: DecodeState, s: seq<byte>, i: nat)
    requires ValidSchema(fields) && DecodeLoop(fields, st, s).Ok? && i < |fields|
    ensures fields[i].tag in DecodeLoop(fields, st, s).value.seen <==>
            fields[i].tag in st.seen || fields[i].tag in Numbers(fields, s)
    decreases |s|
  {
    if s != [] {
      var t := DecodeTag(s);
      if t.Tag? {
        var p := DecodeRecord(fields, st, t.wire, t.tag, t.rest);
        RecordEnds(fields, st, t.wire, t.tag, t.rest);
        RecordSees(fields, st, t.wire, t.tag, t.rest, i);
        LoopSees(fields, p.value, p.rest, i);
      }
    }
  }

  lemma RecordSees(fields: seq<Field>, st: DecodeState, wire: nat, tag: nat, s: seq<byte>, i: nat)
    requires ValidSchema(fields) && DecodeRecord(fields, st, wire, tag, s).Ok? && i < |fields|
    ensures fields[i].tag in DecodeRecord(fields, st, wire, tag, s).value.seen <==>
            fields[i].tag in st.seen || fields[i].tag == tag
  {
    assert ValidField(fields[i]);
    var f := Find(fields, tag);
    if f.Some? {
      assert DecodeRecord(fields, st, wire, tag, s) == DecodeField(st, f.value, wire, s);
    } else if fields[i].tag == tag {
      FindIs(fields, 0, i);
    }
  }

  /** The required fields before field `i`. */
  function RequiredBefore(fields: seq<Field>, i: nat): set<nat>
    requires i <= |fields|
  {
    set j: nat | j < i && fields[j].htype.Required?
  }

  lemma {:induction false} RequiredIndexCounts(fields: seq<Field>, i: nat)
    requires i <= |fields|
    ensures RequiredIndex(fields, i) == |RequiredBefore(fields, i)|
  {
    if i == 0 {
      assert RequiredBefore(fields, 0) == {};
    } else {
      RequiredIndexCounts(fields, i - 1);
      var before := RequiredBefore(fields, i - 1);
      assert RequiredBefore(fields, i) == before + if fields[i - 1].htype.Required? then {i - 1} else {};
      assert i - 1 !in before;
    }
  }

  /** A message is accepted only if each required field occurs in it that has fewer than 64 others before it; from the
      65th on, none of them is missed. */
  lemma RequiredOccurs(fields: seq<Field>, m: Message, s: seq<byte>)
    requires ValidSchema(fields)
    ensures DecodeMessage(fields, m, s).Ok? <==>
            var p := DecodeLoop(fields, DecodeState(m, {}, NoFixed), s);
            p.Ok? && (p.value.fixed.Receiving? ==> p.value.fixed.size == p.value.fixed.f.arraySize) &&
            forall i :: 0 <= i < |fields| && fields[i].htype.Required? && |RequiredBefore(fields, i)| < 64 ==>
              fields[i].tag in Numbers(fields, s)
  {
    var p := DecodeLoop(fields, DecodeState(m, {}, NoFixed), s);
    if p.Ok? {
      forall i | 0 <= i < |fields|
        ensures RequiredIndex(fields, i) == |RequiredBefore(fields, i)|
        ensures fields[i].tag in p.value.seen <==> fields[i].tag in Numbers(fields, s)
      {
        RequiredIndexCounts(fields, i);
        LoopSees(fields, DecodeState(m, {}, NoFixed), s, i);
      }
    }
  }
}
