/** What was in a struct before shows where the decoder writes nothing. Decoding into an unknown struct tells where that
    is, and the struct that was there fills it in. Throughout, what was there is meant as it is once the zero counts are
    written: setting defaults begins with four zero bytes at the start of each fixed-count array. */
module Leftovers {
  import opened Bytes
  import opened Schema
  import opened DecodeSpec
  import opened EncodeSpec
  import opened WellFormed
  import opened RoundTrip
  import opened Normal
  import opened Storage

  // ----- Filling in what is unset -----

  function FillValue(f: Field, v: Value, was: Value): Value
    decreases f, 0
  {
    if v.Unset? then was
    else if f.ltype.LSubmessage? && f.ptr.Fields? && v.Msg? then Msg(Fill(f.ptr.fields, v.slots, SlotsOf(was)))
    else v
  }

  function FillItems(f: Field, items: seq<Value>, was: Slot): (r: seq<Value>)
    ensures |r| == |items|
    decreases f, 1
  {
    seq(|items|, i requires 0 <= i < |items| => FillValue(f, items[i], Cell(was, i)))
  }

  /** All the cells of an array. */
  function Overlay(f: Field, slot: Slot, was: Slot): seq<Value>
    decreases f, 2
  {
    FillItems(f, StorageOf(slot), was) + Behind(was, |StorageOf(slot)|)
  }

  /** A union holds nothing unset: it started from zeros. */
  function FillSlot(f: Field, slot: Slot, was: Slot): Slot
    decreases f, 3
  {
    match slot
    case Single(v) => Single(FillValue(f, v, Held(was)))
    case Flagged(has, v) => Flagged(has, FillValue(f, v, Held(was)))
    case Items(items, _) =>
      var cells := Overlay(f, slot, was);
      Items(cells[..|items|], cells[|items|..])
    case Union(_, _) => slot
  }

  function FillUpTo(fields: seq<Field>, m: Message, was: Message, n: nat): Message
    requires n <= |fields|
    decreases fields, 0, n
  {
    if n == 0 then map[]
    else
      var f := fields[n - 1];
      var k := f.Key();
      FillUpTo(fields, m, was, n - 1)[k := FillSlot(f, OldSlot(m, k), OldSlot(was, k))]
  }

  /** The struct that `m` stands for when `was` lay in its storage before. */
  function Fill(fields: seq<Field>, m: Message, was: Message): Message
    decreases fields, 1
  {
    FillUpTo(fields, m, was, |fields|)
  }

  // ----- Slot by slot -----

  lemma {:induction false} FillHolds(fields: seq<Field>, m: Message, was: Message, n: nat, i: nat)
    requires ValidSchema(fields) && i < n <= |fields|
    requires fields[i].htype.Oneof? ==> OldSlot(m, fields[i].Key()).Union?
    ensures var k := fields[i].Key();
            k in FillUpTo(fields, m, was, n) &&
            FillUpTo(fields, m, was, n)[k] == FillSlot(fields[i], OldSlot(m, k), OldSlot(was, k))
    decreases n
  {
    if i < n - 1 {
      FillHolds(fields, m, was, n - 1, i);
      assert fields[i].tag != fields[n - 1].tag;
    }
  }

  lemma {:induction false} FillKeys(fields: seq<Field>, m: Message, was: Message, n: nat, k: Key)
    requires n <= |fields|
    ensures k in FillUpTo(fields, m, was, n) <==> exists j :: 0 <= j < n && fields[j].Key() == k
    decreases n
  {
    if n > 0 {
      FillKeys(fields, m, was, n - 1, k);
    }
  }

  lemma FillAt(fields: seq<Field>, m: Message, was: Message, i: nat)
    requires ValidSchema(fields) && StorageOk(fields, m, true) && i < |fields|
    ensures var k := fields[i].Key();
            k in m && k in Fill(fields, m, was) &&
            Fill(fields, m, was)[k] == FillSlot(fields[i], m[k], OldSlot(was, k))
  {
    assert StorageSlot(fields[i], m[fields[i].Key()], true);
    FillHolds(fields, m, was, |fields|, i);
  }

  // ----- Arrays, cell by cell -----

  lemma OverlayCell(f: Field, slot: Slot, was: Slot, k: nat)
    requires slot.Items?
    ensures k < |Overlay(f, slot, was)| ==> Overlay(f, slot, was)[k] == FillValue(f, Cell(slot, k), Cell(was, k))
    ensures k >= |Overlay(f, slot, was)| ==> Cell(slot, k) == Unset && Cell(was, k) == Unset
  {
    var cells, n := Overlay(f, slot, was), |StorageOf(slot)|;
    if k < n {
      assert cells[k] == FillItems(f, StorageOf(slot), was)[k];
    } else if k < |cells| {
      assert cells[k] == Behind(was, n)[k - n];
    }
  }

  lemma FillParts(f: Field, slot: Slot, was: Slot)
    requires slot.Items?
    ensures StorageOf(FillSlot(f, slot, was)) == Overlay(f, slot, was)
    ensures ItemsOf(FillSlot(f, slot, was)) == FillItems(f, slot.items, was)
  {
    var cells := Overlay(f, slot, was);
    assert cells[..|slot.items|] + cells[|slot.items|..] == cells;
    forall i | 0 <= i < |slot.items|
      ensures cells[i] == FillItems(f, slot.items, was)[i]
    {
      OverlayCell(f, slot, was, i);
      assert Cell(slot, i) == slot.items[i];
    }
  }

  lemma CellOfFill(f: Field, slot: Slot, was: Slot, k: nat)
    requires slot.Items?
    ensures Cell(FillSlot(f, slot, was), k) == FillValue(f, Cell(slot, k), Cell(was, k))
  {
    FillParts(f, slot, was);
    OverlayCell(f, slot, was, k);
  }

  /** Two arrays with as many elements and the same cells are the same. */
  lemma SameArray(a: Slot, b: Slot)
    requires a.Items? && b.Items? && |a.items| == |b.items| && |StorageOf(a)| == |StorageOf(b)|
    requires forall k :: 0 <= k < |StorageOf(a)| ==> Cell(a, k) == Cell(b, k)
    ensures a == b
  {
    forall k | 0 <= k < |StorageOf(a)|
      ensures StorageOf(a)[k] == StorageOf(b)[k]
    {
      assert Cell(a, k) == Cell(b, k);
    }
    assert a.items == StorageOf(a)[..|a.items|] && a.spare == StorageOf(a)[|a.items|..];
    assert b.items == StorageOf(b)[..|b.items|] && b.spare == StorageOf(b)[|b.items|..];
  }

  lemma StorageOfStored(slot: Slot, xs: seq<Value>)
    ensures |StorageOf(Stored(slot, xs))| == if |xs| <= |StorageOf(slot)| then |StorageOf(slot)| else |xs|
    ensures forall k :: 0 <= k < |xs| ==> Cell(Stored(slot, xs), k) == xs[k]
    ensures forall k :: |xs| <= k ==> Cell(Stored(slot, xs), k) == Cell(slot, k)
  {
    forall k | |xs| <= k
      ensures Cell(Stored(slot, xs), k) == Cell(slot, k)
    {
      CellBehind(slot, xs, k);
    }
  }

  lemma StorageOfFill(f: Field, slot: Slot, was: Slot)
    requires slot.Items?
    ensures |StorageOf(FillSlot(f, slot, was))| ==
            if |StorageOf(slot)| <= |StorageOf(was)| then |StorageOf(was)| else |StorageOf(slot)|
  {
    FillParts(f, slot, was);
  }

  /** Filling in and storing elements commute. */
  lemma FillStored(f: Field, slot: Slot, was: Slot, xs: seq<Value>)
    requires slot.Items?
    ensures FillSlot(f, Stored(slot, xs), was) == Stored(FillSlot(f, slot, was), FillItems(f, xs, was))
  {
    var a, b := FillSlot(f, Stored(slot, xs), was), Stored(FillSlot(f, slot, was), FillItems(f, xs, was));
    StorageOfStored(slot, xs);
    StorageOfStored(FillSlot(f, slot, was), FillItems(f, xs, was));
    StorageOfFill(f, slot, was);
    StorageOfFill(f, Stored(slot, xs), was);
    forall k: nat
      ensures Cell(a, k) == Cell(b, k)
    {
      FillStoredCell(f, slot, was, xs, k);
    }
    FillParts(f, Stored(slot, xs), was);
    SameArray(a, b);
  }

  lemma FillStoredCell(f: Field, slot: Slot, was: Slot, xs: seq<Value>, k: nat)
    requires slot.Items?
    ensures Cell(FillSlot(f, Stored(slot, xs), was), k) ==
            Cell(Stored(FillSlot(f, slot, was), FillItems(f, xs, was)), k)
  {
    CellOfFill(f, Stored(slot, xs), was, k);
    CellOfFill(f, slot, was, k);
    StorageOfStored(slot, xs);
    StorageOfStored(FillSlot(f, slot, was), FillItems(f, xs, was));
    if k < |xs| {
      assert Cell(Stored(slot, xs), k) == xs[k];
      assert FillItems(f, xs, was)[k] == FillValue(f, xs[k], Cell(was, k));
    }
  }

  // ----- Filling in and setting defaults commute -----

  lemma {:induction false} FillDefaultValue(f: Field, v: Value, was: Value)
    requires ValidField(f) && (f.ltype.LSubmessage? ==> StorageCell(f, v, true))
    ensures FillValue(f, DefaultValue(f, v), was) == DefaultValue(f, FillValue(f, v, was))
    decreases f, 0
  {
    if f.ltype.LSubmessage? {
      assert v.Msg? <==> StorageValue(f, v, true);
      FillDefault(f.ptr.fields, SlotsOf(v), SlotsOf(was), SlotsOf(FillValue(f, v, was)));
    }
  }

  /** `now` is what `slot` stands for; of an unknown slot that is what was there. */
  predicate Now(f: Field, slot: Slot, was: Slot, now: Slot) {
    if slot == UNKNOWN then now == was else StorageSlot(f, slot, true) && now == FillSlot(f, slot, was)
  }

  lemma {:induction false} FillDefaultSlot(f: Field, slot: Slot, was: Slot, now: Slot)
    requires ValidField(f) && Now(f, slot, was, now)
    ensures FillSlot(f, DefaultSlot(f, slot), was) == DefaultSlot(f, now)
    decreases f, 1
  {
    if f.htype.Repeated? {
      FillDefaultArray(f, slot, was, now);
    } else if !f.htype.Oneof? {
      FillDefaultValue(f, Held(slot), Held(was));
    }
  }

  lemma FillDefaultArray(f: Field, slot: Slot, was: Slot, now: Slot)
    requires ValidField(f) && f.htype.Repeated? && Now(f, slot, was, now)
    ensures FillSlot(f, DefaultSlot(f, slot), was) == DefaultSlot(f, now)
  {
    var kept, keptNow := KeptItems(f, slot), KeptItems(f, now);
    if slot == UNKNOWN {
      UnknownCells(f, was, kept, keptNow);
    } else {
      forall i | 0 <= i < |kept|
        ensures FillItems(f, kept, was)[i] == keptNow[i]
      {
        CellOfFill(f, slot, was, i);
      }
      assert FillItems(f, kept, was) == keptNow;
      FillStored(f, slot, was, kept);
    }
  }

  lemma UnknownCells(f: Field, was: Slot, kept: seq<Value>, keptNow: seq<Value>)
    requires |kept| == |keptNow|
    requires forall i :: 0 <= i < |kept| ==> kept[i] == Unset && keptNow[i] == Cell(was, i)
    ensures FillSlot(f, Stored(UNKNOWN, kept), was) == Stored(was, keptNow)
  {
    var a, b := FillSlot(f, Stored(UNKNOWN, kept), was), Stored(was, keptNow);
    assert Stored(UNKNOWN, kept) == Items(kept, []) && StorageOf(Stored(UNKNOWN, kept)) == kept;
    FillParts(f, Items(kept, []), was);
    StorageOfFill(f, Items(kept, []), was);
    StorageOfStored(was, keptNow);
    forall k: nat
      ensures Cell(a, k) == Cell(b, k)
    {
      CellOfFill(f, Items(kept, []), was, k);
    }
    SameArray(a, b);
  }

  /** A struct of which nothing is known stands for what was there. */
  predicate NowMessage(fields: seq<Field>, m: Message, was: Message, now: Message) {
    (m == map[] && now == was) || (StorageOk(fields, m, true) && now == Fill(fields, m, was))
  }

  lemma {:induction false} FillDefault(fields: seq<Field>, m: Message, was: Message, now: Message)
    requires ValidSchema(fields) && NowMessage(fields, m, was, now)
    ensures Fill(fields, DefaultMessage(fields, m), was) == DefaultMessage(fields, now)
    decreases fields, 1
  {
    var a, b := Fill(fields, DefaultMessage(fields, m), was), DefaultMessage(fields, now);
    forall k
      ensures k in a <==> k in b
      ensures k in a ==> a[k] == b[k]
    {
      FillDefaultKey(fields, m, was, now, k);
      if k in a {
        var i :| 0 <= i < |fields| && fields[i].Key() == k;
        FillDefaultField(fields, m, was, now, i);
      }
    }
  }

  lemma FillDefaultKey(fields: seq<Field>, m: Message, was: Message, now: Message, k: Key)
    requires ValidSchema(fields)
    ensures k in Fill(fields, DefaultMessage(fields, m), was) <==> HasKey(fields, k)
    ensures k in DefaultMessage(fields, now) <==> HasKey(fields, k)
  {
    FillKeys(fields, DefaultMessage(fields, m), was, |fields|, k);
    if k in DefaultMessage(fields, now) {
      DefaultKeys(fields, now, |fields|, k);
    } else if HasKey(fields, k) {
      var i :| 0 <= i < |fields| && fields[i].Key() == k;
      DefaultsHold(fields, now, |fields|, i);
    }
  }

  lemma {:induction false} FillDefaultField(fields: seq<Field>, m: Message, was: Message, now: Message, i: nat)
    requires ValidSchema(fields) && NowMessage(fields, m, was, now) && i < |fields|
    ensures var k := fields[i].Key();
            k in Fill(fields, DefaultMessage(fields, m), was) && k in DefaultMessage(fields, now) &&
            Fill(fields, DefaultMessage(fields, m), was)[k] == DefaultMessage(fields, now)[k]
    decreases fields, 0
  {
    var f, k := fields[i], fields[i].Key();
    DefaultMessageFits(fields, m, true);
    DefaultsHold(fields, m, |fields|, i);
    DefaultsHold(fields, now, |fields|, i);
    FillAt(fields, DefaultMessage(fields, m), was, i);
    if StorageOk(fields, m, true) {
      FillAt(fields, m, was, i);
      NotUnknown(f, m[k]);
    }
    FillDefaultSlot(f, OldSlot(m, k), OldSlot(was, k), OldSlot(now, k));
  }

  lemma NotUnknown(f: Field, slot: Slot)
    requires StorageSlot(f, slot, true)
    ensures slot != UNKNOWN
  {
  }

  // ----- Filling in and decoding commute -----

  lemma FillPut(f: Field, items: seq<Value>, was: Slot, k: nat, v: Value)
    requires k <= |items|
    ensures FillItems(f, Put(items, k, v), was) == Put(FillItems(f, items, was), k, FillValue(f, v, Cell(was, k)))
  {
  }

  lemma {:induction false} PackedFills(f: Field, items: seq<Value>, was: Slot, k: nat, s: seq<byte>)
    requires ValidField(f) && k <= |items|
    ensures var r := DecodePacked(f, items, k, s);
            DecodePacked(f, FillItems(f, items, was), k, s) ==
            if r.None? then None else Some((FillItems(f, r.value.0, was), r.value.1))
    decreases |s|
  {
    if s != [] && k < f.arraySize && DecodeScalar(f, s).Ok? {
      var v := DecodeScalar(f, s);
      ScalarFits(f, s);
      assert FillValue(f, v.value, Cell(was, k)) == v.value;
      FillPut(f, items, was, k, v.value);
      PackedFills(f, Put(items, k, v.value), was, k + 1, v.rest);
    }
  }

  function FilledValue(f: Field, p: Parse<Value>, was: Value): Parse<Value> {
    if p.Fail? then Fail else Ok(FillValue(f, p.value, was), p.rest)
  }

  /** The struct that a submessage is decoded into. */
  function StartOf(f: Field, prior: Value): Message
    requires f.ptr.Fields?
  {
    if f.htype.Repeated? then DefaultMessage(f.ptr.fields, SlotsOf(prior)) else SlotsOf(prior)
  }

  lemma StartFills(f: Field, prior: Value, was: Value)
    requires ValidField(f) && f.ltype.LSubmessage? && PriorOk(f, prior, true)
    ensures StorageOk(f.ptr.fields, StartOf(f, prior), true)
    ensures StartOf(f, FillValue(f, prior, was)) == Fill(f.ptr.fields, StartOf(f, prior), SlotsOf(was))
  {
    assert prior.Msg? <==> StorageValue(f, prior, true);
    if f.htype.Repeated? {
      FillDefault(f.ptr.fields, SlotsOf(prior), SlotsOf(was), SlotsOf(FillValue(f, prior, was)));
      DefaultMessageFits(f.ptr.fields, SlotsOf(prior), true);
    }
  }

  lemma SubmessageIs(f: Field, prior: Value, s: seq<byte>)
    requires f.ltype.LSubmessage? && f.ptr.Fields?
    ensures DecodeValue(f, prior, s) ==
            var b := Delimited(s);
            if b.Fail? then Fail
            else
              var m := DecodeMessage(f.ptr.fields, StartOf(f, prior), b.value);
              if m.Fail? then Fail else Ok(Msg(m.value), b.rest)
  {
  }

  lemma {:induction false} ValueFills(f: Field, prior: Value, was: Value, s: seq<byte>)
    requires ValidField(f) && PriorOk(f, prior, true)
    ensures DecodeValue(f, FillValue(f, prior, was), s) == FilledValue(f, DecodeValue(f, prior, s), was)
    decreases |s|, 0
  {
    if f.ltype.LSubmessage? {
      StartFills(f, prior, was);
      SubmessageIs(f, prior, s);
      SubmessageIs(f, FillValue(f, prior, was), s);
      var b := Delimited(s);
      if b.Ok? {
        MessageFills(f.ptr.fields, StartOf(f, prior), SlotsOf(was), b.value);
      }
    } else if DecodeScalar(f, s).Ok? {
      ScalarFits(f, s);
    }
  }

  function FilledSlot(f: Field, p: Parse<(Slot, nat)>, was: Slot): Parse<(Slot, nat)> {
    if p.Fail? then Fail else Ok((FillSlot(f, p.value.0, was), p.value.1), p.rest)
  }

  lemma {:induction false} SlotFills(f: Field, wire: nat, slot: Slot, was: Slot, k: nat, s: seq<byte>)
    requires ValidField(f) && StorageSlot(f, slot, true) && CountOk(f, slot, k)
    ensures DecodeSlot(f, wire, FillSlot(f, slot, was), k, s) ==
            FilledSlot(f, DecodeSlot(f, wire, slot, k, s), was)
    decreases |s|, 2
  {
    match f.htype {
      case Required => ValueFills(f, Held(slot), Held(was), s);
      case Optional => ValueFills(f, Held(slot), Held(was), s);
      case Repeated =>
        if wire == WT_STRING && f.Packable() {
          PackedSlotFills(f, slot, was, k, s);
        } else if k < f.arraySize {
          ElementFills(f, wire, slot, was, k, s);
        }
      case Oneof =>
    }
  }

  lemma PackedSlotFills(f: Field, slot: Slot, was: Slot, k: nat, s: seq<byte>)
    requires ValidField(f) && f.htype.Repeated? && f.Packable() && slot.Items? && k <= |slot.items|
    ensures DecodeSlot(f, WT_STRING, FillSlot(f, slot, was), k, s) ==
            FilledSlot(f, DecodeSlot(f, WT_STRING, slot, k, s), was)
  {
    var b := Delimited(s);
    if b.Ok? {
      FillParts(f, slot, was);
      PackedFills(f, slot.items, was, k, b.value);
      var r := DecodePacked(f, slot.items, k, b.value);
      if r.Some? {
        FillStored(f, slot, was, r.value.0);
      }
    }
  }

  lemma {:induction false} ElementFills(f: Field, wire: nat, slot: Slot, was: Slot, k: nat, s: seq<byte>)
    requires ValidField(f) && f.htype.Repeated? && !(wire == WT_STRING && f.Packable())
    requires StorageSlot(f, slot, true) && CountOk(f, slot, k) && k < f.arraySize
    ensures DecodeSlot(f, wire, FillSlot(f, slot, was), k, s) ==
            FilledSlot(f, DecodeSlot(f, wire, slot, k, s), was)
    decreases |s|, 1
  {
    FillParts(f, slot, was);
    CellOfFill(f, slot, was, k);
    if f.ltype.LSubmessage? {
      CellFits(f, slot, k, true);
    }
    ValueFills(f, Cell(slot, k), Cell(was, k), s);
    var v := DecodeValue(f, Cell(slot, k), s);
    if v.Ok? {
      FillPut(f, slot.items, was, k, v.value);
      FillStored(f, slot, was, Put(slot.items, k, v.value));
    }
  }

  lemma FillUpdate(fields: seq<Field>, m: Message, was: Message, i: nat, slot: Slot)
    requires ValidSchema(fields) && StorageOk(fields, m, true) && i < |fields|
    requires StorageSlot(fields[i], slot, true) && (fields[i].htype.Oneof? ==> slot.which == fields[i].tag)
    ensures var k := fields[i].Key();
            Fill(fields, m[k := slot], was) == Fill(fields, m, was)[k := FillSlot(fields[i], slot, OldSlot(was, k))]
  {
    var key := fields[i].Key();
    var a := Fill(fields, m[key := slot], was);
    var b := Fill(fields, m, was)[key := FillSlot(fields[i], slot, OldSlot(was, key))];
    UpdateFits(fields, m, i, slot, true);
    forall k
      ensures k in a <==> k in b
      ensures k in a ==> a[k] == b[k]
    {
      FillKeys(fields, m[key := slot], was, |fields|, k);
      FillKeys(fields, m, was, |fields|, k);
      if k == key {
        FillAt(fields, m[key := slot], was, i);
      } else if j :| 0 <= j < |fields| && fields[j].Key() == k {
        FillAt(fields, m[key := slot], was, j);
        FillAt(fields, m, was, j);
      }
    }
  }

  function FillState(fields: seq<Field>, st: DecodeState, was: Message): DecodeState {
    st.(msg := Fill(fields, st.msg, was))
  }

  function FilledState(fields: seq<Field>, p: Parse<DecodeState>, was: Message): Parse<DecodeState> {
    if p.Fail? then Fail else Ok(FillState(fields, p.value, was), p.rest)
  }

  lemma {:induction false} RecordFills(
    fields: seq<Field>, st: DecodeState, was: Message, wire: nat, tag: nat, s: seq<byte>)
    requires ValidSchema(fields) && StorageOk(fields, st.msg, true) && FixedOk(st.fixed)
    ensures DecodeRecord(fields, FillState(fields, st, was), wire, tag, s) ==
            FilledState(fields, DecodeRecord(fields, st, wire, tag, s), was)
    decreases |s|, 4
  {
    var found := Find(fields, tag);
    if found.Some? {
      var i :| 0 <= i < |fields| && fields[i] == found.value;
      FieldFills(fields, i, st, was, wire, s);
    }
  }

  lemma {:induction false} FieldFills(
    fields: seq<Field>, i: nat, st: DecodeState, was: Message, wire: nat, s: seq<byte>)
    requires ValidSchema(fields) && StorageOk(fields, st.msg, true) && FixedOk(st.fixed) && i < |fields|
    ensures DecodeField(FillState(fields, st, was), fields[i], wire, s) ==
            FilledState(fields, DecodeField(st, fields[i], wire, s), was)
    decreases |s|, 3
  {
    var f, k := fields[i], fields[i].Key();
    var slot := st.msg[k];
    assert StorageSlot(f, slot, true) && ValidField(f);
    FilledField(fields, i, st, was);
    var n := ItemCount(f, st);
    SlotFills(f, wire, slot, OldSlot(was, k), n, s);
    var p := DecodeSlot(f, wire, slot, n, s);
    if p.Ok? {
      SlotFits(f, wire, slot, n, s, true);
      FillUpdate(fields, st.msg, was, i, p.value.0);
    }
  }

  /** The slot and the count that the field has there. */
  lemma FilledField(fields: seq<Field>, i: nat, st: DecodeState, was: Message)
    requires ValidSchema(fields) && StorageOk(fields, st.msg, true) && i < |fields|
    ensures var f, filled := fields[i], FillState(fields, st, was);
            f.Key() in st.msg &&
            SlotOf(filled.msg, f) == FillSlot(f, st.msg[f.Key()], OldSlot(was, f.Key())) &&
            ItemCount(f, filled) == ItemCount(f, st) && filled.fixed == st.fixed && filled.seen == st.seen
  {
    FillAt(fields, st.msg, was, i);
    SameCount(fields[i], st.msg[fields[i].Key()], OldSlot(was, fields[i].Key()));
  }

  lemma SameCount(f: Field, slot: Slot, was: Slot)
    ensures |ItemsOf(FillSlot(f, slot, was))| == |ItemsOf(slot)|
  {
    if slot.Items? {
      FillParts(f, slot, was);
    }
  }

  lemma {:induction false} LoopFills(fields: seq<Field>, st: DecodeState, was: Message, s: seq<byte>)
    requires ValidSchema(fields) && StorageOk(fields, st.msg, true) && FixedOk(st.fixed)
    ensures DecodeLoop(fields, FillState(fields, st, was), s) == FilledState(fields, DecodeLoop(fields, st, s), was)
    decreases |s|, 5
  {
    if s != [] {
      var t := DecodeTag(s);
      if t.Tag? {
        RecordFills(fields, st, was, t.wire, t.tag, t.rest);
        RecordFits(fields, st, t.wire, t.tag, t.rest, true);
        var p := DecodeRecord(fields, st, t.wire, t.tag, t.rest);
        if p.Ok? {
          LoopFills(fields, p.value, was, p.rest);
        }
      }
    }
  }

  function FilledMessage(fields: seq<Field>, p: Parse<Message>, was: Message): Parse<Message> {
    if p.Fail? then Fail else Ok(Fill(fields, p.value, was), p.rest)
  }

  /** Decoding a struct that `m` stands for gives what decoding `m` stands for. */
  lemma {:induction false} MessageFills(fields: seq<Field>, m: Message, was: Message, s: seq<byte>)
    requires ValidSchema(fields) && StorageOk(fields, m, true)
    ensures DecodeMessage(fields, Fill(fields, m, was), s) ==
            FilledMessage(fields, DecodeMessage(fields, m, s), was)
    decreases |s|, 6
  {
    LoopFills(fields, DecodeState(m, {}, NoFixed), was, s);
  }

  /** Hence decoding into any struct is decoding into an unknown one and filling in what was there. Whether it succeeds,
      and what it consumes, does not depend on the struct. */
  lemma DecodeFills(fields: seq<Field>, was: Message, s: seq<byte>)
    requires ValidSchema(fields)
    ensures Decode(fields, was, s) == FilledMessage(fields, Decode(fields, map[], s), was)
    ensures Decode(fields, map[], s).Ok? ==> StorageOk(fields, Decode(fields, map[], s).value, true)
  {
    DefaultMessageFits(fields, map[], true);
    FillDefault(fields, map[], was, was);
    MessageFills(fields, DefaultMessage(fields, map[]), was, s);
    StorageFits(fields, DefaultMessage(fields, map[]), s, true);
  }

  // ----- When the result fits -----

  /** What is left of the old contents fits, wherever anything is left of them. */
  predicate LeftoverValue(f: Field, v: Value, was: Value)
    decreases f, 0
  {
    if v.Unset? then ValueOk(f, was)
    else if f.ltype.LSubmessage? && f.ptr.Fields? && v.Msg? then LeftoversFit(f.ptr.fields, v.slots, SlotsOf(was))
    else true
  }

  predicate LeftoverSlot(f: Field, slot: Slot, was: Slot)
    decreases f, 1
  {
    match slot
    case Single(v) => LeftoverValue(f, v, Held(was))
    case Flagged(_, v) => LeftoverValue(f, v, Held(was))
    case Items(items, _) => forall i :: 0 <= i < |items| ==> LeftoverValue(f, items[i], Cell(was, i))
    case Union(_, _) => true
  }

  predicate LeftoversFit(fields: seq<Field>, m: Message, was: Message)
    decreases fields, 0
  {
    forall i :: 0 <= i < |fields| ==>
      var k := fields[i].Key(); LeftoverSlot(fields[i], OldSlot(m, k), OldSlot(was, k))
  }

  lemma {:induction false} FilledValueFits(f: Field, v: Value, was: Value)
    requires ValidField(f) && StorageCell(f, v, true)
    ensures ValueOk(f, FillValue(f, v, was)) <==> LeftoverValue(f, v, was)
    decreases f, 0
  {
    if f.ltype.LSubmessage? && v.Msg? {
      FilledFits(f.ptr.fields, v.slots, SlotsOf(was));
    }
  }

  lemma {:induction false} FilledSlotFits(f: Field, slot: Slot, was: Slot)
    requires ValidField(f) && StorageSlot(f, slot, true)
    ensures SlotOk(f, FillSlot(f, slot, was)) <==> LeftoverSlot(f, slot, was)
    decreases f, 1
  {
    match f.htype {
      case Required => FilledValueFits(f, slot.v, Held(was));
      case Optional => FilledValueFits(f, slot.v, Held(was));
      case Oneof =>
        if slot.which == f.tag {
          StorageIsValueOk(f, slot.v);
        }
      case Repeated =>
        FillParts(f, slot, was);
        forall i | 0 <= i < |slot.items|
          ensures ValueOk(f, FillItems(f, slot.items, was)[i]) <==> LeftoverValue(f, slot.items[i], Cell(was, i))
        {
          assert StorageItem(f, slot.items[i], true);
          FilledValueFits(f, slot.items[i], Cell(was, i));
        }
    }
  }

  lemma {:induction false} FilledFits(fields: seq<Field>, m: Message, was: Message)
    requires ValidSchema(fields) && StorageOk(fields, m, true)
    ensures MessageOk(fields, Fill(fields, m, was)) <==> LeftoversFit(fields, m, was)
    decreases fields, 0
  {
    var now := Fill(fields, m, was);
    forall i | 0 <= i < |fields|
      ensures var k := fields[i].Key();
              k in now && (SlotOk(fields[i], now[k]) <==> LeftoverSlot(fields[i], OldSlot(m, k), OldSlot(was, k)))
    {
      FillAt(fields, m, was, i);
      FilledSlotFits(fields[i], m[fields[i].Key()], OldSlot(was, fields[i].Key()));
    }
    forall k | k in now
      ensures HasKey(fields, k) && SelectorOk(fields, k, now[k])
    {
      FillKeys(fields, m, was, |fields|, k);
      var i :| 0 <= i < |fields| && fields[i].Key() == k;
      FillAt(fields, m, was, i);
      assert StorageSlot(fields[i], m[k], true) && SelectorOk(fields, k, m[k]);
    }
  }

  /** What was decoded fits its table if and only if each fixed-count array that did not occur in the input held, once
      its zero count was written, something that fits. Where those are is known from the input alone: what decoding it
      into an unknown struct leaves unset. */
  lemma DecodedFits(fields: seq<Field>, was: Message, s: seq<byte>)
    requires ValidSchema(fields) && Decode(fields, was, s).Ok?
    ensures Decode(fields, map[], s).Ok?
    ensures MessageOk(fields, Decode(fields, was, s).value) <==>
            LeftoversFit(fields, Decode(fields, map[], s).value, was)
  {
    DecodeFills(fields, was, s);
    FilledFits(fields, Decode(fields, map[], s).value, was);
  }

  /** The same for decoding on into a struct, given as what is known of it and what lay there before. */
  lemma MergedFits(fields: seq<Field>, m: Message, was: Message, s: seq<byte>)
    requires ValidSchema(fields) && StorageOk(fields, m, true) && DecodeMessage(fields, Fill(fields, m, was), s).Ok?
    ensures DecodeMessage(fields, m, s).Ok?
    ensures MessageOk(fields, DecodeMessage(fields, Fill(fields, m, was), s).value) <==>
            LeftoversFit(fields, DecodeMessage(fields, m, s).value, was)
  {
    MessageFills(fields, m, was, s);
    StorageFits(fields, m, s, true);
    FilledFits(fields, DecodeMessage(fields, m, s).value, was);
  }

  /** Then what was decoded, from any bytes at all, can be encoded, and decodes from that to its normal form. */
  lemma DecodeEncode(fields: seq<Field>, was: Message, s: seq<byte>, next: Message)
    requires ValidSchema(fields) && Decode(fields, was, s).Ok?
    requires Decode(fields, map[], s).Ok? ==> LeftoversFit(fields, Decode(fields, map[], s).value, was)
    ensures var m := Decode(fields, was, s).value;
            EncodeMessage(fields, m).Some? &&
            (|EncodeMessage(fields, m).value| < TWO_32 ==>
              Decode(fields, next, EncodeMessage(fields, m).value) == Ok(NormalMessage(fields, m, next), []))
  {
    DecodedFits(fields, was, s);
    EncodeDecode(fields, Decode(fields, was, s).value, next);
  }
}
