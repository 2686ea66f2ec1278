/** A decoder whose table lacks some fields, in the message or in submessages, gets what the whole table would have
    given, without those fields. */
module Projection {
  import opened Bytes
  import opened Schema
  import opened DecodeSpec
  import opened EncodeSpec
  import opened WellFormed
  import opened RoundTrip
  import opened Normal

  // ----- Dropping fields from a message -----

  function ProjectedValue(g: Field, v: Value): Value
    decreases g, 0
  {
    if g.ltype.LSubmessage? && g.ptr.Fields? && v.Msg? then Msg(Projected(g.ptr.fields, v.slots)) else v
  }

  function ProjectedItems(g: Field, items: seq<Value>): (r: seq<Value>)
    ensures |r| == |items|
    decreases g, 1
  {
    seq(|items|, i requires 0 <= i < |items| => ProjectedValue(g, items[i]))
  }

  /** A union whose selected member is dropped is empty. */
  function ProjectedSlot(known: seq<Field>, g: Field, slot: Slot): Slot
    requires g in known
    decreases known, 0
  {
    match slot
    case Single(v) => Single(ProjectedValue(g, v))
    case Flagged(has, v) => Flagged(has, ProjectedValue(g, v))
    case Items(items, spare) => Items(ProjectedItems(g, items), ProjectedItems(g, spare))
    case Union(which, v) =>
      var h := if g.htype.Oneof? then Find(known, which) else Some(g);
      if h.Some? then Union(which, ProjectedValue(h.value, v)) else Union(0, Int(0))
  }

  function ProjectedUpTo(known: seq<Field>, w: Message, n: nat): Message
    requires n <= |known|
    decreases known, 1, n
  {
    if n == 0 then map[]
    else
      var g := known[n - 1];
      ProjectedUpTo(known, w, n - 1)[g.Key() := ProjectedSlot(known, g, OldSlot(w, g.Key()))]
  }

  /** The part of a message that the table `known` has fields for. */
  function Projected(known: seq<Field>, w: Message): Message
    decreases known, 2
  {
    ProjectedUpTo(known, w, |known|)
  }

  lemma {:induction false} ProjectedHolds(known: seq<Field>, w: Message, n: nat, j: nat)
    requires ValidSchema(known) && j < n <= |known|
    requires known[j].htype.Oneof? ==> OldSlot(w, known[j].Key()).Union?
    ensures var k := known[j].Key();
            k in ProjectedUpTo(known, w, n) &&
            ProjectedUpTo(known, w, n)[k] == ProjectedSlot(known, known[j], OldSlot(w, k))
    decreases n
  {
    if j < n - 1 {
      ProjectedHolds(known, w, n - 1, j);
      assert known[j].tag != known[n - 1].tag;
    }
  }

  lemma ProjectedOld(known: seq<Field>, w: Message, j: nat)
    requires ValidSchema(known) && j < |known| && !known[j].htype.Oneof?
    ensures var k := known[j].Key();
            OldSlot(Projected(known, w), k) == ProjectedSlot(known, known[j], OldSlot(w, k))
  {
    ProjectedHolds(known, w, |known|, j);
  }

  lemma {:induction false} ProjectedKeys(known: seq<Field>, w: Message, n: nat, k: Key)
    requires n <= |known|
    ensures k in ProjectedUpTo(known, w, n) <==> exists j :: 0 <= j < n && known[j].Key() == k
    decreases n
  {
    if n > 0 {
      ProjectedKeys(known, w, n - 1, k);
    }
  }

  lemma {:induction false} NothingProjected(known: seq<Field>, n: nat, k: Key)
    requires n <= |known|
    ensures OldSlot(ProjectedUpTo(known, map[], n), k) == UNKNOWN
    decreases n
  {
    if n > 0 {
      NothingProjected(known, n - 1, k);
      assert ProjectedSlot(known, known[n - 1], UNKNOWN) == UNKNOWN;
    }
  }

  // ----- Only the slots matter of what lay in a struct -----

  ghost predicate SameSlotsIn(w1: Message, w2: Message) {
    forall k :: OldSlot(w1, k) == OldSlot(w2, k)
  }

  lemma {:induction false} SameDefaults(known: seq<Field>, w1: Message, w2: Message, n: nat)
    requires SameSlotsIn(w1, w2) && n <= |known|
    ensures DefaultsUpTo(known, w1, n) == DefaultsUpTo(known, w2, n)
    decreases n
  {
    if n > 0 {
      SameDefaults(known, w1, w2, n - 1);
      assert OldSlot(w1, known[n - 1].Key()) == OldSlot(w2, known[n - 1].Key());
    }
  }

  lemma {:induction false} SameNormal(
    fields: seq<Field>, known: seq<Field>, m: Message, w1: Message, w2: Message, n: nat)
    requires SameSlotsIn(w1, w2) && n <= |fields|
    ensures NormalUpTo(fields, known, m, w1, n) == NormalUpTo(fields, known, m, w2, n)
    decreases n
  {
    if n == 0 {
      SameDefaults(known, w1, w2, |known|);
    } else {
      SameNormal(fields, known, m, w1, w2, n - 1);
      assert OldSlot(w1, fields[n - 1].Key()) == OldSlot(w2, fields[n - 1].Key());
    }
  }

  lemma SlotsProjected(g: Field, was: Value)
    requires g.ltype.LSubmessage? && g.ptr.Fields?
    ensures SameSlotsIn(SlotsOf(ProjectedValue(g, was)), Projected(g.ptr.fields, SlotsOf(was)))
  {
    if !was.Msg? {
      forall k
        ensures OldSlot(map[], k) == OldSlot(Projected(g.ptr.fields, map[]), k)
      {
        NothingProjected(g.ptr.fields, |g.ptr.fields|, k);
      }
    }
  }

  // ----- Arrays -----

  lemma ProjectedStorage(known: seq<Field>, g: Field, slot: Slot)
    requires g in known
    ensures StorageOf(ProjectedSlot(known, g, slot)) == ProjectedItems(g, StorageOf(slot))
  {
  }

  lemma ProjectedCell(known: seq<Field>, g: Field, slot: Slot, k: nat)
    requires g in known
    ensures Cell(ProjectedSlot(known, g, slot), k) == ProjectedValue(g, Cell(slot, k))
  {
    ProjectedStorage(known, g, slot);
  }

  lemma ProjectedStored(known: seq<Field>, g: Field, slot: Slot, xs: seq<Value>)
    requires g in known
    ensures Stored(ProjectedSlot(known, g, slot), ProjectedItems(g, xs)) == ProjectedSlot(known, g, Stored(slot, xs))
  {
    ProjectedStorage(known, g, slot);
    assert Behind(ProjectedSlot(known, g, slot), |xs|) == ProjectedItems(g, Behind(slot, |xs|));
  }

  // ----- Dropping fields and setting defaults commute -----

  lemma {:induction false} ZeroValueProjected(f: Field, g: Field)
    requires ValidField(f) && ValidField(g) && SameField(f, g)
    ensures ZeroValue(g) == ProjectedValue(g, ZeroValue(f))
    decreases f, 0
  {
    if f.ltype.LSubmessage? {
      ZeroProjected(f.ptr.fields, g.ptr.fields);
    }
  }

  lemma {:induction false} ZeroSlotProjected(known: seq<Field>, j: nat, f: Field)
    requires ValidSchema(known) && j < |known| && ValidField(f) && SameField(f, known[j])
    ensures ZeroSlot(known[j]) == ProjectedSlot(known, known[j], ZeroSlot(f))
    decreases f, 1
  {
    var g := known[j];
    assert ValidField(g);
    ZeroValueProjected(f, g);
    if f.htype.Repeated? {
      var v, w := ZeroValue(f), ZeroValue(g);
      assert ProjectedItems(g, seq(f.arraySize, i => v)) == seq(f.arraySize, i => w);
      assert ProjectedItems(g, []) == [];
    } else if f.htype.Oneof? {
      NoTagZero(known, 0);
    }
  }

  lemma {:induction false} NoTagZero(known: seq<Field>, i: nat)
    requires ValidSchema(known) && i <= |known|
    ensures FindFrom(known, 0, i) == None
    decreases |known| - i
  {
    if i < |known| {
      assert ValidField(known[i]);
      NoTagZero(known, i + 1);
    }
  }

  lemma {:induction false} ZerosHold(fields: seq<Field>, n: nat, i: nat)
    requires ValidSchema(fields) && i < n <= |fields|
    ensures fields[i].Key() in ZerosUpTo(fields, n) && ZerosUpTo(fields, n)[fields[i].Key()] == ZeroSlot(fields[i])
    decreases n
  {
    if i < n - 1 {
      ZerosHold(fields, n - 1, i);
      assert fields[i].tag != fields[n - 1].tag;
    }
  }

  lemma {:induction false} ZeroKeys(fields: seq<Field>, n: nat, k: Key)
    requires n <= |fields|
    ensures k in ZerosUpTo(fields, n) <==> exists j :: 0 <= j < n && fields[j].Key() == k
    decreases n
  {
    if n > 0 {
      ZeroKeys(fields, n - 1, k);
    }
  }

  lemma {:induction false} ZeroProjected(fields: seq<Field>, known: seq<Field>)
    requires ValidSchema(fields) && ValidSchema(known) && SubSchema(known, fields)
    ensures ZeroMessage(known) == Projected(known, ZeroMessage(fields))
    decreases fields, 0
  {
    var zero := ZeroMessage(fields);
    forall k
      ensures k in ZeroMessage(known) <==> k in Projected(known, zero)
      ensures k in ZeroMessage(known) ==> ZeroMessage(known)[k] == Projected(known, zero)[k]
    {
      ZeroKeys(known, |known|, k);
      ProjectedKeys(known, zero, |known|, k);
      if k in ZeroMessage(known) {
        var j :| 0 <= j < |known| && known[j].Key() == k;
        var x := WholeField(fields, known, j);
        ZerosHold(known, |known|, j);
        ZerosHold(fields, |fields|, x);
        ProjectedHolds(known, zero, |known|, j);
        ZeroSlotProjected(known, j, fields[x]);
      }
    }
  }

  lemma WholeField(fields: seq<Field>, known: seq<Field>, j: nat) returns (x: nat)
    requires ValidSchema(fields) && SubSchema(known, fields) && j < |known|
    ensures x < |fields| && SameField(fields[x], known[j]) && ValidField(fields[x])
    ensures fields[x].Key() == known[j].Key()
  {
    assert Offers(fields, known[j]);
    x :| 0 <= x < |fields| && SameField(fields[x], known[j]);
  }

  lemma {:induction false} DefaultValueProjected(f: Field, g: Field, was: Value)
    requires ValidField(f) && ValidField(g) && SameField(f, g)
    ensures DefaultValue(g, ProjectedValue(g, was)) == ProjectedValue(g, DefaultValue(f, was))
    decreases f, 0
  {
    if f.ltype.LSubmessage? {
      SlotsProjected(g, was);
      var known := g.ptr.fields;
      SameDefaults(known, SlotsOf(ProjectedValue(g, was)), Projected(known, SlotsOf(was)), |known|);
      DefaultProjected(f.ptr.fields, g.ptr.fields, SlotsOf(was));
    }
  }

  lemma {:induction false} DefaultSlotProjected(known: seq<Field>, j: nat, f: Field, was: Slot, now: Slot)
    requires ValidSchema(known) && j < |known| && ValidField(f) && SameField(f, known[j])
    requires !f.htype.Oneof? ==> now == ProjectedSlot(known, known[j], was)
    ensures DefaultSlot(known[j], now) == ProjectedSlot(known, known[j], DefaultSlot(f, was))
    decreases f, 1
  {
    var g := known[j];
    assert ValidField(g);
    match f.htype {
      case Required => DefaultValueProjected(f, g, Held(was));
      case Optional => DefaultValueProjected(f, g, Held(was));
      case Oneof => NoTagZero(known, 0);
      case Repeated =>
        var kept := KeptItems(f, was);
        forall i | 0 <= i < |kept|
          ensures ProjectedItems(g, kept)[i] == Cell(now, i)
        {
          ProjectedCell(known, g, was, i);
        }
        assert DefaultSlot(g, now) == Stored(now, ProjectedItems(g, kept));
        ProjectedStored(known, g, was, kept);
    }
  }

  lemma {:induction false} DefaultProjected(fields: seq<Field>, known: seq<Field>, was: Message)
    requires ValidSchema(fields) && ValidSchema(known) && SubSchema(known, fields)
    ensures DefaultMessage(known, Projected(known, was)) == Projected(known, DefaultMessage(fields, was))
    decreases fields, 1
  {
    var now, whole := Projected(known, was), DefaultMessage(fields, was);
    forall k
      ensures k in DefaultMessage(known, now) <==> k in Projected(known, whole)
      ensures k in DefaultMessage(known, now) ==> DefaultMessage(known, now)[k] == Projected(known, whole)[k]
    {
      ProjectedKeys(known, whole, |known|, k);
      if k in DefaultMessage(known, now) {
        DefaultKeys(known, now, |known|, k);
      }
      if j :| 0 <= j < |known| && known[j].Key() == k {
        DefaultsHold(known, now, |known|, j);
        DefaultFieldProjected(fields, known, was, j);
      }
    }
  }

  lemma {:induction false} DefaultFieldProjected(fields: seq<Field>, known: seq<Field>, was: Message, j: nat)
    requires ValidSchema(fields) && ValidSchema(known) && SubSchema(known, fields) && j < |known|
    ensures var k := known[j].Key();
            var whole := DefaultMessage(fields, was);
            k in Projected(known, whole) &&
            Projected(known, whole)[k] == DefaultSlot(known[j], OldSlot(Projected(known, was), k))
    decreases fields, 0
  {
    var x := WholeField(fields, known, j);
    var k := known[j].Key();
    DefaultsHold(fields, was, |fields|, x);
    ProjectedHolds(known, DefaultMessage(fields, was), |known|, j);
    if !known[j].htype.Oneof? {
      ProjectedOld(known, was, j);
    }
    DefaultSlotProjected(known, j, fields[x], OldSlot(was, k), OldSlot(Projected(known, was), k));
  }

  // ----- Dropping fields and the round trip commute -----

  lemma {:induction false} ValueProjected(f: Field, g: Field, v: Value, was: Value)
    requires ValidField(f) && ValidField(g) && SameField(f, g) && ValueOk(f, v)
    ensures NormalValue(f, g, v, ProjectedValue(g, was)) == ProjectedValue(g, NormalValue(f, f, v, was))
    decreases f, 0
  {
    if f.ltype.LSubmessage? {
      var fields, known := f.ptr.fields, g.ptr.fields;
      SlotsProjected(g, was);
      SameNormal(fields, known, v.slots, SlotsOf(ProjectedValue(g, was)), Projected(known, SlotsOf(was)), |fields|);
      NormalProjected(fields, known, v.slots, SlotsOf(was));
    }
  }

  lemma {:induction false} SlotProjected(known: seq<Field>, j: nat, f: Field, slot: Slot, was: Slot, now: Slot)
    requires ValidSchema(known) && j < |known| && ValidField(f) && SameField(f, known[j]) && SlotOk(f, slot)
    requires Emits(f, slot) && (!f.htype.Oneof? ==> now == ProjectedSlot(known, known[j], was))
    ensures NormalSlot(f, known[j], slot, now) == ProjectedSlot(known, known[j], NormalSlot(f, f, slot, was))
    decreases f, 1
  {
    var g := known[j];
    assert ValidField(g);
    match f.htype {
      case Required => ValueProjected(f, g, Held(slot), Held(was));
      case Optional => ValueProjected(f, g, Held(slot), Held(was));
      case Oneof =>
        OwnField(known, j);
        ZeroValueProjected(f, g);
        ValueProjected(f, g, slot.v, ZeroValue(f));
      case Repeated =>
        var normal := NormalItems(f, f, slot.items, was);
        forall i | 0 <= i < |slot.items|
          ensures ProjectedItems(g, normal)[i] == NormalItems(f, g, slot.items, now)[i]
        {
          ProjectedCell(known, g, was, i);
          ValueProjected(f, g, slot.items[i], Cell(was, i));
        }
        assert ProjectedItems(g, normal) == NormalItems(f, g, slot.items, now);
        ProjectedStored(known, g, was, normal);
    }
  }

  /** One field of the decoder's table. */
  lemma {:induction false} FieldProjected(fields: seq<Field>, known: seq<Field>, m: Message, was: Message, j: nat)
    requires ValidSchema(fields) && MessageOk(fields, m)
    requires ValidSchema(known) && SubSchema(known, fields) && j < |known|
    ensures var k := known[j].Key();
            var whole := NormalMessage(fields, m, was);
            var part := NormalOnto(fields, known, m, Projected(known, was));
            k in whole && k in part && part[k] == ProjectedSlot(known, known[j], whole[k]) &&
            (known[j].htype.Oneof? ==> whole[k].Union?)
    decreases fields, 1
  {
    var k, now := known[j].Key(), Projected(known, was);
    var x := WholeField(fields, known, j);
    if !known[j].htype.Oneof? {
      ProjectedOld(known, was, j);
    }
    if i :| 0 <= i < |fields| && fields[i].Key() == k && Emits(fields[i], SlotOf(m, fields[i])) {
      PresentProjected(fields, known, m, was, j, x, i);
    } else {
      SilentSlot(fields, fields, m, was, x);
      SilentSlot(fields, known, m, now, j);
      DefaultSlotProjected(known, j, fields[x], OldSlot(was, k), OldSlot(now, k));
    }
  }

  lemma {:induction false} PresentProjected(
    fields: seq<Field>, known: seq<Field>, m: Message, was: Message, j: nat, x: nat, i: nat)
    requires ValidSchema(fields) && MessageOk(fields, m) && i < |fields| && x < |fields|
    requires ValidSchema(known) && SubSchema(known, fields) && j < |known| && SameField(fields[x], known[j])
    requires fields[i].Key() == known[j].Key() && Emits(fields[i], SlotOf(m, fields[i]))
    requires var k := known[j].Key();
             !known[j].htype.Oneof? ==>
               OldSlot(Projected(known, was), k) == ProjectedSlot(known, known[j], OldSlot(was, k))
    ensures var k := known[j].Key();
            var whole := NormalMessage(fields, m, was);
            var part := NormalOnto(fields, known, m, Projected(known, was));
            k in whole && k in part && part[k] == ProjectedSlot(known, known[j], whole[k]) &&
            (known[j].htype.Oneof? ==> whole[k].Union?)
    decreases fields, 0
  {
    var f, k, now := fields[i], known[j].Key(), Projected(known, was);
    OwnField(fields, i);
    EmittedSlot(fields, fields, m, was, |fields|, i);
    assert ValidField(f) && SlotOk(f, SlotOf(m, f));
    if Knows(known, f.tag) {
      var y := KnownIs(fields, known, i);
      EmittedSlot(fields, known, m, now, |fields|, i);
      SlotProjected(known, y, f, SlotOf(m, f), OldSlot(was, k), OldSlot(now, k));
      OneSlot(known, y, j);
    } else {
      forall z | 0 <= z < |fields| && fields[z].Key() == k && Knows(known, fields[z].tag)
        ensures !Emits(fields[z], SlotOf(m, fields[z]))
      {
        OnlyOneEmits(fields, m, i, z);
      }
      SilentSlot(fields, known, m, now, j);
      OwnField(known, j);
    }
  }

  /** Two fields with one slot are members of one union, or the same. */
  lemma OneSlot(known: seq<Field>, y: nat, j: nat)
    requires ValidSchema(known) && y < |known| && j < |known| && known[y].Key() == known[j].Key()
    ensures known[y].htype.Oneof? == known[j].htype.Oneof? && (!known[j].htype.Oneof? ==> y == j)
  {
    if !known[j].htype.Oneof? {
      SameTagSameField(known, y, j);
    }
  }

  lemma {:induction false} NormalProjected(fields: seq<Field>, known: seq<Field>, m: Message, was: Message)
    requires ValidSchema(fields) && MessageOk(fields, m)
    requires ValidSchema(known) && SubSchema(known, fields)
    ensures NormalOnto(fields, known, m, Projected(known, was)) ==
            Projected(known, NormalOnto(fields, fields, m, was))
    decreases fields, 2
  {
    var whole := NormalMessage(fields, m, was);
    var part := NormalOnto(fields, known, m, Projected(known, was));
    forall k
      ensures k in part <==> k in Projected(known, whole)
      ensures k in part ==> part[k] == Projected(known, whole)[k]
    {
      SlotsOfNormal(fields, known, m, Projected(known, was), k);
      ProjectedKeys(known, whole, |known|, k);
      if j :| 0 <= j < |known| && known[j].Key() == k {
        FieldProjected(fields, known, m, was, j);
        ProjectedHolds(known, whole, |known|, j);
      }
    }
  }

  /** Unknown fields are transparent: a decoder that lacks fields succeeds on what the encoder wrote, consumes all of
      it, and gets just what a decoder with the whole table gets, without the dropped fields. */
  lemma UnknownFieldsAreTransparent(fields: seq<Field>, known: seq<Field>, m: Message, was: Message, b: seq<byte>)
    requires ValidSchema(fields) && MessageOk(fields, m)
    requires ValidSchema(known) && SubSchema(known, fields)
    requires EncodeMessage(fields, m) == Some(b) && |b| < TWO_32
    ensures Decode(fields, was, b).Ok?
    ensures Decode(known, Projected(known, was), b) == Ok(Projected(known, Decode(fields, was, b).value), [])
  {
    MessageRoundTrip(fields, m, was, b);
    ProjectionRoundTrip(fields, known, m, Projected(known, was), b);
    NormalProjected(fields, known, m, was);
  }
}
