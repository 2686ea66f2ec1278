/** The order of records matters only within a slot, and the two forms of a repeated scalar agree. */
module Order {
  import opened Bytes
  import opened Varint
  import opened Schema
  import opened DecodeSpec
  import opened EncodeSpec
  import opened WellFormed
  import opened RoundTrip
  import opened Merge

  // ----- Records whose extent does not depend on the decoder's state -----

  /** A record with a legal number whose payload is one complete value of its wire type, and whose wire type is the
      field's own, or the packed form of an array of scalars. */
  predicate Framed(fields: seq<Field>, r: Record) {
    1 <= r.tag < TAG_LIMIT && r.wire < 8 && CompletePayload(r.wire, r.payload) &&
    var f := Find(fields, r.tag);
    f.Some? ==> Some(r.wire) == WireType(f.value) || PackedForm(f.value, r.wire)
  }

  predicate PackedForm(f: Field, wire: nat) {
    f.htype.Repeated? && f.Packable() && wire == WT_STRING
  }

  predicate AllFramed(fields: seq<Field>, rs: seq<Record>) {
    forall r :: r in rs ==> Framed(fields, r)
  }

  /** Reading `p`, all of it, from the front of `p + t`: the same outcome, with `t` left. */
  ghost predicate Exact<T>(p: Parse<T>, q: Parse<T>, t: seq<byte>) {
    if p.Ok? then p.rest == [] && q == Ok(p.value, t) else q.Fail?
  }

  lemma ExactFrom<T>(p: Parse<T>, q: Parse<T>, t: seq<byte>)
    requires Extends(p, q, t) && (p.Ok? ==> p.rest == []) && (q.Ok? ==> p.Ok?)
    ensures Exact(p, q, t)
  {
    assert [] + t == t;
  }

  lemma Varint32Exact(s: seq<byte>, t: seq<byte>)
    requires CompletePayload(WT_VARINT, s)
    ensures Exact(Varint32(s), Varint32(s + t), t)
  {
    Varint32Local(s, t);
    Varint32Complete(s, t);
    if s[0] >= 128 {
      Varint32StopsAt(s[1..], 7, Low7(s[0]));
    }
    ExactFrom(Varint32(s), Varint32(s + t), t);
  }

  lemma Varint64Exact(s: seq<byte>, t: seq<byte>)
    requires CompletePayload(WT_VARINT, s)
    ensures Exact(Varint64From(s, 0, 0), Varint64From(s + t, 0, 0), t)
  {
    Varint64FromLocal(s, t, 0, 0);
    Varint64Complete(s, t, 0, 0);
    Varint64StopsAt(s, 0, 0);
    ExactFrom(Varint64From(s, 0, 0), Varint64From(s + t, 0, 0), t);
  }

  lemma DelimitedExact(s: seq<byte>, t: seq<byte>)
    requires CompletePayload(WT_STRING, s)
    ensures Delimited(s).Ok? && Delimited(s).rest == []
    ensures Delimited(s + t) == Ok(Delimited(s).value, t)
    ensures Varint32(s).Ok? && Varint32(s + t) == Ok(Varint32(s).value, Varint32(s).rest + t)
  {
    DelimitedLocal(s, t);
    Varint32Local(s, t);
    assert [] + t == t;
  }

  lemma DataExact(f: Field, s: seq<byte>, t: seq<byte>)
    requires CompletePayload(WT_STRING, s)
    ensures Exact(DecodeData(f, s), DecodeData(f, s + t), t)
  {
    DelimitedExact(s, t);
    DataLocal(f, s, t);
    assert [] + t == t;
  }

  lemma ScalarExact(f: Field, s: seq<byte>, t: seq<byte>)
    requires WireType(f).Some? && CompletePayload(WireType(f).value, s) && !f.ltype.LSubmessage?
    ensures Exact(DecodeScalar(f, s), DecodeScalar(f, s + t), t)
  {
    match f.ltype {
      case LBool => Varint32Exact(s, t);
      case LVarint | LUVarint | LSVarint => Varint64Exact(s, t);
      case LFixed32 =>
        TakeLocal(s, t, 4);
        assert [] + t == t;
      case LFixed64 =>
        TakeLocal(s, t, 8);
        assert [] + t == t;
      case LBytes | LString | LFixedLengthBytes => DataExact(f, s, t);
    }
  }

  lemma ValueExact(f: Field, prior: Value, s: seq<byte>, t: seq<byte>)
    requires WireType(f).Some? && CompletePayload(WireType(f).value, s)
    ensures Exact(DecodeValue(f, prior, s), DecodeValue(f, prior, s + t), t)
  {
    if f.ltype.LSubmessage? {
      DelimitedExact(s, t);
    } else {
      ScalarExact(f, s, t);
    }
  }

  function UnionPrior(f: Field, slot: Slot): Value {
    if slot.Union? && slot.which == f.tag then slot.v else UnionStart(f)
  }

  lemma SlotExact(f: Field, wire: nat, slot: Slot, k: nat, s: seq<byte>, t: seq<byte>)
    requires CompletePayload(wire, s) && (Some(wire) == WireType(f) || PackedForm(f, wire))
    ensures Exact(DecodeSlot(f, wire, slot, k, s), DecodeSlot(f, wire, slot, k, s + t), t)
  {
    if PackedForm(f, wire) {
      DelimitedExact(s, t);
    } else if f.htype.Repeated? {
      ValueExact(f, Cell(slot, k), s, t);
    } else {
      ValueExact(f, if f.htype.Oneof? then UnionPrior(f, slot) else Held(slot), s, t);
    }
  }

  lemma RecordExact(fields: seq<Field>, st: DecodeState, r: Record, t: seq<byte>)
    requires Framed(fields, r)
    ensures Exact(DecodeRecord(fields, st, r.wire, r.tag, r.payload),
                  DecodeRecord(fields, st, r.wire, r.tag, r.payload + t), t)
  {
    var f := Find(fields, r.tag);
    if f.Some? {
      FieldExact(st, f.value, r, t);
    } else {
      SkipComplete(r.wire, r.payload, t);
    }
  }

  lemma FieldExact(st: DecodeState, f: Field, r: Record, t: seq<byte>)
    requires CompletePayload(r.wire, r.payload) && (Some(r.wire) == WireType(f) || PackedForm(f, r.wire))
    ensures Exact(DecodeField(st, f, r.wire, r.payload), DecodeField(st, f, r.wire, r.payload + t), t)
  {
    SlotExact(f, r.wire, SlotOf(st.msg, f), ItemCount(f, st), r.payload, t);
  }

  // ----- Running records one after the other -----

  function RunRecords(fields: seq<Field>, st: DecodeState, rs: seq<Record>): Option<DecodeState>
    decreases |rs|
  {
    if rs == [] then Some(st)
    else
      var p := DecodeRecord(fields, st, rs[0].wire, rs[0].tag, rs[0].payload);
      if p.Fail? then None else RunRecords(fields, p.value, rs[1..])
  }

  function Finished(st: Option<DecodeState>): Parse<DecodeState> {
    if st.Some? then Ok(st.value, []) else Fail
  }

  lemma {:induction false} LoopRuns(fields: seq<Field>, st: DecodeState, rs: seq<Record>)
    requires AllFramed(fields, rs)
    ensures DecodeLoop(fields, st, Flatten(rs)) == Finished(RunRecords(fields, st, rs))
    decreases |rs|
  {
    if rs != [] {
      var r := rs[0];
      assert r in rs && Framed(fields, r);
      LoopRecord(fields, st, r, Flatten(rs[1..]));
      RecordExact(fields, st, r, Flatten(rs[1..]));
      var p := DecodeRecord(fields, st, r.wire, r.tag, r.payload);
      if p.Ok? {
        LoopRuns(fields, p.value, rs[1..]);
      }
    }
  }

  // ----- Slot by slot -----

  /** The records that act on slot `k`. */
  predicate ActsOn(fields: seq<Field>, k: Key, r: Record) {
    var f := Find(fields, r.tag);
    f.Some? && f.value.Key() == k
  }

  /** The records for slot `k`, in their order. */
  function OfSlot(fields: seq<Field>, k: Key, rs: seq<Record>): seq<Record> {
    if rs == [] then []
    else if ActsOn(fields, k, rs[0]) then [rs[0]] + OfSlot(fields, k, rs[1..])
    else OfSlot(fields, k, rs[1..])
  }

  /** What records for one slot make of that slot, and of the count that is kept for a fixed-count array. */
  function RunSlot(fields: seq<Field>, slot: Slot, n: nat, rs: seq<Record>): Option<(Slot, nat)>
    decreases |rs|
  {
    if rs == [] then Some((slot, n))
    else
      var f := Find(fields, rs[0].tag);
      if f.None? then None
      else
        var fixed := f.value.FixedCount();
        var p := DecodeSlot(f.value, rs[0].wire, slot, if fixed then n else |ItemsOf(slot)|, rs[0].payload);
        if p.Fail? then None else RunSlot(fields, p.value.0, if fixed then p.value.1 else n, rs[1..])
  }

  /** Numbers of the known fields that occur. */
  function TagsSeen(fields: seq<Field>, rs: seq<Record>): set<nat> {
    set r | r in rs && Find(fields, r.tag).Some? :: r.tag
  }

  /** A message with a slot for every field. */
  predicate HasSlots(fields: seq<Field>, m: Message) {
    forall f :: f in fields ==> f.Key() in m
  }

  // ----- Fixed-count arrays come one at a time -----

  /** The decoder counts the elements of one fixed-count array at a time. So the records of such an array have to follow
      each other, but for those of other fields. Of those in `begun`, `cur` is the one that may go on. */
  predicate InBlocks(fields: seq<Field>, cur: Option<Field>, begun: set<nat>, rs: seq<Record>)
    decreases |rs|
  {
    rs == [] ||
    var f := Find(fields, rs[0].tag);
    if f.Some? && f.value.FixedCount() && f != cur
    then rs[0].tag !in begun && InBlocks(fields, f, begun + {rs[0].tag}, rs[1..])
    else InBlocks(fields, cur, begun, rs[1..])
  }

  function CurrentOf(fixed: FixedTrack): Option<Field> {
    if fixed.Receiving? then Some(fixed.f) else None
  }

  /** The array being received is one of the table that was begun. */
  predicate TrackOk(fields: seq<Field>, fixed: FixedTrack, begun: set<nat>) {
    fixed.Receiving? ==> fixed.f.FixedCount() && Find(fields, fixed.f.tag) == Some(fixed.f) && fixed.f.tag in begun
  }

  predicate Current(st: DecodeState, k: Key) {
    st.fixed.Receiving? && st.fixed.f.Key() == k
  }

  function SlotCount(st: DecodeState, k: Key): nat {
    if Current(st, k) then st.fixed.size else 0
  }

  /** The number of elements of the fixed-count array in this slot, if there is one. */
  function FixedSize(fields: seq<Field>, k: Key): Option<nat> {
    if !k.FieldKey? then None
    else
      var f := Find(fields, k.tag);
      if f.Some? && f.value.FixedCount() then Some(f.value.arraySize) else None
  }

  /** An array that was left is not begun again. */
  lemma {:induction false} NoMore(fields: seq<Field>, cur: Option<Field>, begun: set<nat>, rs: seq<Record>, g: Field)
    requires InBlocks(fields, cur, begun, rs) && g.tag in begun && cur != Some(g)
    requires g.FixedCount() && Find(fields, g.tag) == Some(g)
    ensures OfSlot(fields, g.Key(), rs) == []
    decreases |rs|
  {
    if rs != [] {
      var f := Find(fields, rs[0].tag);
      if f.Some? && f.value.FixedCount() && f != cur {
        NoMore(fields, f, begun + {rs[0].tag}, rs[1..], g);
      } else {
        NoMore(fields, cur, begun, rs[1..], g);
      }
    }
  }

  lemma {:induction false} BlocksWithout(fields: seq<Field>, cur: Option<Field>, begun: set<nat>, rs: seq<Record>)
    requires NoFixedCounts(fields)
    ensures InBlocks(fields, cur, begun, rs)
    decreases |rs|
  {
    if rs != [] {
      BlocksWithout(fields, cur, begun, rs[1..]);
    }
  }

  // ----- A run is the runs of its slots -----

  /** A run that ends with no array half received. */
  function RunEnds(fields: seq<Field>, st: DecodeState, rs: seq<Record>): Option<DecodeState> {
    var r := RunRecords(fields, st, rs);
    if r.Some? && FixedComplete(r.value.fixed) then r else None
  }

  function SlotRun(fields: seq<Field>, st: DecodeState, k: Key, rs: seq<Record>): Option<(Slot, nat)>
    requires k in st.msg
  {
    RunSlot(fields, st.msg[k], SlotCount(st, k), OfSlot(fields, k, rs))
  }

  /** Whether the records of a slot are accepted, and fill a fixed-count array if there are any. */
  predicate SlotRuns(fields: seq<Field>, st: DecodeState, k: Key, rs: seq<Record>) {
    k in st.msg && SlotRun(fields, st, k, rs).Some? &&
    var size := FixedSize(fields, k);
    size.Some? && (OfSlot(fields, k, rs) != [] || Current(st, k)) ==> SlotRun(fields, st, k, rs).value.1 == size.value
  }

  ghost predicate RunIsBySlot(fields: seq<Field>, st: DecodeState, rs: seq<Record>) {
    var r := RunEnds(fields, st, rs);
    (r.Some? <==> forall k :: k in st.msg ==> SlotRuns(fields, st, k, rs)) &&
    (r.Some? ==>
      r.value.msg.Keys == st.msg.Keys && r.value.seen == st.seen + TagsSeen(fields, rs) &&
      forall k :: k in st.msg ==>
        SlotRun(fields, st, k, rs).Some? && r.value.msg[k] == SlotRun(fields, st, k, rs).value.0)
  }

  lemma NothingRuns(fields: seq<Field>, st: DecodeState, begun: set<nat>)
    requires HasSlots(fields, st.msg) && TrackOk(fields, st.fixed, begun)
    ensures RunIsBySlot(fields, st, [])
  {
    if st.fixed.Receiving? {
      var k := st.fixed.f.Key();
      assert k in st.msg && FixedSize(fields, k) == Some(st.fixed.f.arraySize);
      assert SlotRuns(fields, st, k, []) <==> FixedComplete(st.fixed);
    }
  }

  /** What one record does: it changes the slot that it acts on, and the count if that is a fixed-count array. */
  predicate RecordRuns(fields: seq<Field>, st: DecodeState, r: Record, st1: DecodeState) {
    var f := Find(fields, r.tag);
    if f.None? then st1 == st
    else
      var k := f.value.Key();
      k in st.msg &&
      var slot := st.msg[k];
      var n := if f.value.FixedCount() then SlotCount(st, k) else |ItemsOf(slot)|;
      var p := DecodeSlot(f.value, r.wire, slot, n, r.payload);
      p.Ok? &&
      st1 == DecodeState(st.msg[k := p.value.0], st.seen + {r.tag},
                         if f.value.FixedCount() then Receiving(f.value, p.value.1) else st.fixed)
  }

  lemma FixedKeys(fields: seq<Field>, st: DecodeState, begun: set<nat>, f: Field)
    requires TrackOk(fields, st.fixed, begun) && Find(fields, f.tag) == Some(f)
    ensures Current(st, f.Key()) <==> st.fixed.Receiving? && st.fixed.f == f
  {
  }

  lemma OneRecordRuns(fields: seq<Field>, st: DecodeState, begun: set<nat>, r: Record)
    requires HasSlots(fields, st.msg) && TrackOk(fields, st.fixed, begun) && Framed(fields, r)
    ensures var p := DecodeRecord(fields, st, r.wire, r.tag, r.payload);
            p.Ok? ==> RecordRuns(fields, st, r, p.value)
  {
    var f := Find(fields, r.tag);
    var p := DecodeRecord(fields, st, r.wire, r.tag, r.payload);
    if f.Some? && p.Ok? {
      FixedKeys(fields, st, begun, f.value);
      assert p == DecodeField(st, f.value, r.wire, r.payload);
    }
  }

  lemma UnknownIsSkipped(fields: seq<Field>, st: DecodeState, r: Record)
    requires Framed(fields, r)
    ensures Find(fields, r.tag).None? ==> DecodeRecord(fields, st, r.wire, r.tag, r.payload).Ok?
  {
  }

  /** If a record fails, so does the run of its slot, or that of an array which was not filled. */
  lemma OneRecordFails(fields: seq<Field>, st: DecodeState, begun: set<nat>, rs: seq<Record>)
    requires HasSlots(fields, st.msg) && TrackOk(fields, st.fixed, begun)
    requires rs != [] && Framed(fields, rs[0]) && InBlocks(fields, CurrentOf(st.fixed), begun, rs)
    requires DecodeRecord(fields, st, rs[0].wire, rs[0].tag, rs[0].payload).Fail?
    ensures exists k :: k in st.msg && !SlotRuns(fields, st, k, rs)
  {
    var r, f := rs[0], Find(fields, rs[0].tag);
    UnknownIsSkipped(fields, st, r);
    var k := f.value.Key();
    FixedKeys(fields, st, begun, f.value);
    assert DecodeRecord(fields, st, r.wire, r.tag, r.payload) == DecodeField(st, f.value, r.wire, r.payload);
    if f.value.FixedCount() && f != CurrentOf(st.fixed) && !FixedComplete(st.fixed) {
      LeftHalf(fields, st, begun, rs);
    } else {
      assert OfSlot(fields, k, rs)[0] == r;
      assert !SlotRuns(fields, st, k, rs);
    }
  }

  lemma LeftHalf(fields: seq<Field>, st: DecodeState, begun: set<nat>, rs: seq<Record>)
    requires HasSlots(fields, st.msg) && TrackOk(fields, st.fixed, begun)
    requires rs != [] && InBlocks(fields, CurrentOf(st.fixed), begun, rs) && !FixedComplete(st.fixed)
    requires var f := Find(fields, rs[0].tag); f.Some? && f.value.FixedCount() && f != CurrentOf(st.fixed)
    ensures exists k :: k in st.msg && !SlotRuns(fields, st, k, rs)
  {
    var g, f := st.fixed.f, Find(fields, rs[0].tag);
    NoMore(fields, f, begun + {rs[0].tag}, rs[1..], g);
    assert OfSlot(fields, g.Key(), rs) == [];
    assert FixedSize(fields, g.Key()) == Some(g.arraySize);
    assert g.Key() in st.msg && !SlotRuns(fields, st, g.Key(), rs);
  }

  /** The run of each slot goes on as it began. */
  lemma SlotGoesOn(
    fields: seq<Field>, st: DecodeState, st1: DecodeState, begun: set<nat>, rs: seq<Record>, k: Key)
    requires HasSlots(fields, st.msg) && TrackOk(fields, st.fixed, begun) && k in st.msg
    requires rs != [] && InBlocks(fields, CurrentOf(st.fixed), begun, rs) && RecordRuns(fields, st, rs[0], st1)
    requires var f := Find(fields, rs[0].tag);
             f.Some? && f.value.FixedCount() && f != CurrentOf(st.fixed) ==> FixedComplete(st.fixed)
    ensures k in st1.msg
    ensures SlotRuns(fields, st, k, rs) <==> SlotRuns(fields, st1, k, rs[1..])
    ensures SlotRuns(fields, st, k, rs) ==>
              SlotRun(fields, st, k, rs).value.0 == SlotRun(fields, st1, k, rs[1..]).value.0
  {
    var r, f := rs[0], Find(fields, rs[0].tag);
    if f.Some? {
      FixedKeys(fields, st, begun, f.value);
    }
    if ActsOn(fields, k, r) {
      var mine := OfSlot(fields, k, rs);
      assert mine[0] == r && mine[1..] == OfSlot(fields, k, rs[1..]);
      ActingSlot(fields, st, st1, begun, rs, k);
    } else if Current(st, k) && f.Some? && f.value.FixedCount() {
      var g := st.fixed.f;
      NoMore(fields, f, begun + {r.tag}, rs[1..], g);
      assert OfSlot(fields, k, rs) == [] && FixedSize(fields, k) == Some(g.arraySize);
    }
  }

  lemma ActingSlot(
    fields: seq<Field>, st: DecodeState, st1: DecodeState, begun: set<nat>, rs: seq<Record>, k: Key)
    requires TrackOk(fields, st.fixed, begun) && k in st.msg && rs != []
    requires RecordRuns(fields, st, rs[0], st1) && ActsOn(fields, k, rs[0])
    requires var mine := OfSlot(fields, k, rs); mine[0] == rs[0] && mine[1..] == OfSlot(fields, k, rs[1..])
    ensures k in st1.msg
    ensures SlotRun(fields, st, k, rs) == SlotRun(fields, st1, k, rs[1..])
    ensures FixedSize(fields, k).Some? ==> Current(st1, k)
  {
    var f := Find(fields, rs[0].tag).value;
    FixedKeys(fields, st, begun, f);
    assert f.FixedCount() ==> Current(st1, k) && st1.fixed.f == f;
  }

  lemma SeenStep(fields: seq<Field>, st: DecodeState, st1: DecodeState, rs: seq<Record>)
    requires rs != [] && RecordRuns(fields, st, rs[0], st1)
    ensures st.seen + TagsSeen(fields, rs) == st1.seen + TagsSeen(fields, rs[1..])
    ensures st1.msg.Keys == st.msg.Keys
  {
    TagsStep(fields, rs);
  }

  lemma RunStep(fields: seq<Field>, st: DecodeState, st1: DecodeState, begun: set<nat>, rs: seq<Record>)
    requires rs != [] && HasSlots(fields, st.msg) && TrackOk(fields, st.fixed, begun) && Framed(fields, rs[0])
    requires InBlocks(fields, CurrentOf(st.fixed), begun, rs)
    requires DecodeRecord(fields, st, rs[0].wire, rs[0].tag, rs[0].payload) == Ok(st1, [])
    requires RunIsBySlot(fields, st1, rs[1..])
    ensures RunIsBySlot(fields, st, rs)
  {
    OneRecordRuns(fields, st, begun, rs[0]);
    SeenStep(fields, st, st1, rs);
    assert RunEnds(fields, st, rs) == RunEnds(fields, st1, rs[1..]);
    BegunWhenComplete(fields, st, rs[0]);
    forall k | k in st.msg
      ensures SlotRuns(fields, st, k, rs) <==> SlotRuns(fields, st1, k, rs[1..])
      ensures SlotRuns(fields, st, k, rs) ==>
                SlotRun(fields, st, k, rs).value.0 == SlotRun(fields, st1, k, rs[1..]).value.0
    {
      SlotGoesOn(fields, st, st1, begun, rs, k);
    }
    if forall k :: k in st1.msg ==> SlotRuns(fields, st1, k, rs[1..]) {
      assert forall k :: k in st.msg ==> SlotRuns(fields, st, k, rs);
    }
  }

  lemma BegunWhenComplete(fields: seq<Field>, st: DecodeState, r: Record)
    requires DecodeRecord(fields, st, r.wire, r.tag, r.payload).Ok?
    ensures var f := Find(fields, r.tag);
            f.Some? && f.value.FixedCount() && f != CurrentOf(st.fixed) ==> FixedComplete(st.fixed)
  {
    var f := Find(fields, r.tag);
    if f.Some? {
      assert DecodeRecord(fields, st, r.wire, r.tag, r.payload) == DecodeField(st, f.value, r.wire, r.payload);
    }
  }

  /** A run is the independent runs of its slots: it succeeds exactly when each of them does, and every slot ends as
      its own records make it. */
  lemma {:induction false} RunsBySlot(fields: seq<Field>, st: DecodeState, begun: set<nat>, rs: seq<Record>)
    requires HasSlots(fields, st.msg) && TrackOk(fields, st.fixed, begun) && AllFramed(fields, rs)
    requires InBlocks(fields, CurrentOf(st.fixed), begun, rs)
    ensures RunIsBySlot(fields, st, rs)
    decreases |rs|
  {
    if rs == [] {
      NothingRuns(fields, st, begun);
    } else {
      var r := rs[0];
      assert r in rs && Framed(fields, r);
      assert AllFramed(fields, rs[1..]);
      RecordExact(fields, st, r, []);
      var p := DecodeRecord(fields, st, r.wire, r.tag, r.payload);
      if p.Ok? {
        OneRecordRuns(fields, st, begun, r);
        var next := NextBegun(fields, st, begun, rs);
        RunsBySlot(fields, p.value, next, rs[1..]);
        RunStep(fields, st, p.value, begun, rs);
      } else {
        OneRecordFails(fields, st, begun, rs);
      }
    }
  }

  lemma NextBegun(fields: seq<Field>, st: DecodeState, begun: set<nat>, rs: seq<Record>) returns (next: set<nat>)
    requires rs != [] && HasSlots(fields, st.msg) && TrackOk(fields, st.fixed, begun)
    requires InBlocks(fields, CurrentOf(st.fixed), begun, rs)
    requires var p := DecodeRecord(fields, st, rs[0].wire, rs[0].tag, rs[0].payload);
             p.Ok? && RecordRuns(fields, st, rs[0], p.value)
    ensures var st1 := DecodeRecord(fields, st, rs[0].wire, rs[0].tag, rs[0].payload).value;
            HasSlots(fields, st1.msg) && TrackOk(fields, st1.fixed, next) &&
            InBlocks(fields, CurrentOf(st1.fixed), next, rs[1..])
  {
    var f := Find(fields, rs[0].tag);
    next := if f.Some? && f.value.FixedCount() && f != CurrentOf(st.fixed) then begun + {rs[0].tag} else begun;
  }

  lemma TagsStep(fields: seq<Field>, rs: seq<Record>)
    requires rs != []
    ensures TagsSeen(fields, rs) ==
            TagsSeen(fields, rs[1..]) + (if Find(fields, rs[0].tag).Some? then {rs[0].tag} else {})
  {
    forall r | r in rs
      ensures r == rs[0] || r in rs[1..]
    {
    }
  }

  /** The same records for every slot, in the same order. */
  ghost predicate SameSlots(fields: seq<Field>, rs1: seq<Record>, rs2: seq<Record>) {
    forall k :: OfSlot(fields, k, rs1) == OfSlot(fields, k, rs2)
  }

  lemma {:induction false} OfSlotMember(fields: seq<Field>, k: Key, rs: seq<Record>, r: Record)
    ensures r in OfSlot(fields, k, rs) <==> r in rs && ActsOn(fields, k, r)
  {
    if rs != [] {
      OfSlotMember(fields, k, rs[1..], r);
    }
  }

  lemma SameTags(fields: seq<Field>, rs1: seq<Record>, rs2: seq<Record>)
    requires SameSlots(fields, rs1, rs2)
    ensures TagsSeen(fields, rs1) <= TagsSeen(fields, rs2)
  {
    forall r | r in rs1 && Find(fields, r.tag).Some?
      ensures r in rs2
    {
      var k := Find(fields, r.tag).value.Key();
      OfSlotMember(fields, k, rs1, r);
      OfSlotMember(fields, k, rs2, r);
    }
  }

  /** Field order does not matter: rearranging the records of an encoding, keeping the order of those that share a
      field or a union, and the fixed-count arrays one at a time, changes neither whether it decodes nor what it decodes
      to. */
  lemma OrderIsIrrelevant(fields: seq<Field>, m: Message, rs1: seq<Record>, rs2: seq<Record>)
    requires HasSlots(fields, m)
    requires AllFramed(fields, rs1) && AllFramed(fields, rs2) && SameSlots(fields, rs1, rs2)
    requires InBlocks(fields, None, {}, rs1) && InBlocks(fields, None, {}, rs2)
    ensures DecodeMessage(fields, m, Flatten(rs1)) == DecodeMessage(fields, m, Flatten(rs2))
  {
    var st := DecodeState(m, {}, NoFixed);
    LoopRuns(fields, st, rs1);
    LoopRuns(fields, st, rs2);
    RunsBySlot(fields, st, {}, rs1);
    RunsBySlot(fields, st, {}, rs2);
    SameRuns(fields, st, rs1, rs2);
  }

  lemma SameRuns(fields: seq<Field>, st: DecodeState, rs1: seq<Record>, rs2: seq<Record>)
    requires SameSlots(fields, rs1, rs2)
    requires RunIsBySlot(fields, st, rs1) && RunIsBySlot(fields, st, rs2)
    ensures var r1, r2 := RunEnds(fields, st, rs1), RunEnds(fields, st, rs2);
            (r1.Some? <==> r2.Some?) &&
            (r1.Some? ==> r1.value.msg == r2.value.msg && r1.value.seen == r2.value.seen)
  {
    var r1, r2 := RunEnds(fields, st, rs1), RunEnds(fields, st, rs2);
    SameSuccess(fields, st, rs1, rs2);
    SameSuccess(fields, st, rs2, rs1);
    SameTags(fields, rs1, rs2);
    SameTags(fields, rs2, rs1);
    if r1.Some? {
      forall k | k in st.msg
        ensures r1.value.msg[k] == r2.value.msg[k]
      {
        assert OfSlot(fields, k, rs1) == OfSlot(fields, k, rs2);
      }
    }
  }

  lemma SameSuccess(fields: seq<Field>, st: DecodeState, rs1: seq<Record>, rs2: seq<Record>)
    requires SameSlots(fields, rs1, rs2)
    requires RunIsBySlot(fields, st, rs1) && RunIsBySlot(fields, st, rs2)
    ensures RunEnds(fields, st, rs1).Some? ==> RunEnds(fields, st, rs2).Some?
  {
    if RunEnds(fields, st, rs1).Some? {
      forall k | k in st.msg
        ensures SlotRuns(fields, st, k, rs2)
      {
        assert SlotRuns(fields, st, k, rs1);
        assert OfSlot(fields, k, rs1) == OfSlot(fields, k, rs2);
      }
    }
  }

  lemma {:induction false} OfSlotAppend(fields: seq<Field>, k: Key, a: seq<Record>, b: seq<Record>)
    ensures OfSlot(fields, k, a + b) == OfSlot(fields, k, a) + OfSlot(fields, k, b)
  {
    if a == [] {
      assert a + b == b;
    } else {
      assert (a + b)[1..] == a[1..] + b;
      OfSlotAppend(fields, k, a[1..], b);
    }
  }

  /** Swapping neighbours that act on different slots is such a rearrangement. */
  lemma SwapNeighbours(fields: seq<Field>, a: seq<Record>, r: Record, s: Record, b: seq<Record>)
    requires forall k :: !(ActsOn(fields, k, r) && ActsOn(fields, k, s))
    ensures SameSlots(fields, a + [r, s] + b, a + [s, r] + b)
  {
    forall k
      ensures OfSlot(fields, k, a + [r, s] + b) == OfSlot(fields, k, a + [s, r] + b)
    {
      OfSlotAppend(fields, k, a + [r, s], b);
      OfSlotAppend(fields, k, a, [r, s]);
      OfSlotAppend(fields, k, a + [s, r], b);
      OfSlotAppend(fields, k, a, [s, r]);
      assert [r, s][1..] == [s] && [s, r][1..] == [r] && [r][1..] == [] && [s][1..] == [];
    }
  }

  // ----- Encodings are made of such records -----

  /** Everything the encoder writes is framed for the table it was written with. */
  lemma {:induction false} EncodingIsFramed(fields: seq<Field>, m: Message, i: nat)
    requires ValidSchema(fields) && MessageOk(fields, m) && i <= |fields|
    requires RecordsFrom(fields, m, i).Some? && |Flatten(RecordsFrom(fields, m, i).value)| < TWO_32
    ensures AllFramed(fields, RecordsFrom(fields, m, i).value)
    decreases |fields| - i
  {
    if i < |fields| {
      var first := FieldRecords(fields[i], SlotOf(m, fields[i])).value;
      var rest := RecordsFrom(fields, m, i + 1).value;
      FlattenAppend(first, rest);
      FieldIsFramed(fields, i, SlotOf(m, fields[i]), first);
      EncodingIsFramed(fields, m, i + 1);
    }
  }

  lemma FieldIsFramed(fields: seq<Field>, i: nat, slot: Slot, rs: seq<Record>)
    requires ValidSchema(fields) && i < |fields|
    requires FieldRecords(fields[i], slot) == Some(rs) && |Flatten(rs)| < TWO_32
    ensures AllFramed(fields, rs)
  {
    var f := fields[i];
    assert ValidField(f);
    FindIs(fields, 0, i);
    if rs == [] {
    } else if !f.htype.Repeated? {
      OneRecordBytes(rs[0]);
      ValueComplete(f, Held(slot));
    } else if f.Packable() {
      var p := EncodePacked(f, ItemsOf(slot), 0).value;
      OneRecordBytes(rs[0]);
      assert Prefixed(p) + [] == Prefixed(p);
      DelimitedRoundTrip(p, []);
    } else {
      UnpackedIsFramed(fields, i, ItemsOf(slot), 0, rs);
    }
  }

  lemma {:induction false} UnpackedIsFramed(fields: seq<Field>, i: nat, items: seq<Value>, j: nat, rs: seq<Record>)
    requires ValidSchema(fields) && i < |fields| && j <= |items|
    requires UnpackedRecords(fields[i], items, j) == Some(rs) && |Flatten(rs)| < TWO_32
    ensures AllFramed(fields, rs)
    decreases |items| - j
  {
    if j < |items| {
      var f := fields[i];
      assert ValidField(f);
      FindIs(fields, 0, i);
      var r, rest := rs[0], UnpackedRecords(f, items, j + 1).value;
      assert rs == [r] + rest;
      OneRecordBytes(r);
      FlattenAppend([r], rest);
      ValueComplete(f, items[j]);
      UnpackedIsFramed(fields, i, items, j + 1, rest);
    }
  }

  lemma {:induction false} UnpackedTags(f: Field, items: seq<Value>, j: nat)
    requires j <= |items| && UnpackedRecords(f, items, j).Some?
    ensures forall r :: r in UnpackedRecords(f, items, j).value ==> r.tag == f.tag
    decreases |items| - j
  {
    if j < |items| {
      UnpackedTags(f, items, j + 1);
    }
  }

  lemma FieldTags(f: Field, slot: Slot)
    requires FieldRecords(f, slot).Some?
    ensures forall r :: r in FieldRecords(f, slot).value ==> r.tag == f.tag
  {
    if f.htype.Repeated? && !f.Packable() && 0 < |ItemsOf(slot)| <= f.arraySize {
      UnpackedTags(f, ItemsOf(slot), 0);
    }
  }

  /** Records of one field come as one block. */
  lemma {:induction false} OneBlock(
    fields: seq<Field>, cur: Option<Field>, begun: set<nat>, f: Field, a: seq<Record>, b: seq<Record>)
    requires Find(fields, f.tag) == Some(f) && forall r :: r in a ==> r.tag == f.tag
    requires cur == Some(f) || f.tag !in begun
    requires InBlocks(fields, cur, begun, b)
    requires f.FixedCount() ==> InBlocks(fields, Some(f), begun + {f.tag}, b)
    ensures InBlocks(fields, cur, begun, a + b)
    decreases |a|
  {
    if a == [] {
      assert a + b == b;
    } else {
      assert (a + b)[1..] == a[1..] + b && a[0] in a;
      if f.FixedCount() {
        assert begun + {f.tag} + {f.tag} == begun + {f.tag};
        OneBlock(fields, Some(f), begun + {f.tag}, f, a[1..], b);
        assert cur == Some(f) ==> InBlocks(fields, cur, begun, a[1..] + b) by {
          if cur == Some(f) {
            OneBlock(fields, cur, begun, f, a[1..], b);
          }
        }
      } else {
        OneBlock(fields, cur, begun, f, a[1..], b);
      }
    }
  }

  /** The encoder writes fixed-count arrays one at a time. */
  lemma {:induction false} EncodingIsInBlocks(
    fields: seq<Field>, m: Message, i: nat, cur: Option<Field>, begun: set<nat>)
    requires ValidSchema(fields) && i <= |fields| && RecordsFrom(fields, m, i).Some?
    requires forall j :: i <= j < |fields| ==> fields[j].tag !in begun
    ensures InBlocks(fields, cur, begun, RecordsFrom(fields, m, i).value)
    decreases |fields| - i
  {
    if i < |fields| {
      var f := fields[i];
      assert ValidField(f);
      FindIs(fields, 0, i);
      FieldTags(f, SlotOf(m, f));
      EncodingIsInBlocks(fields, m, i + 1, cur, begun);
      EncodingIsInBlocks(fields, m, i + 1, Some(f), begun + {f.tag});
      OneBlock(fields, cur, begun, f, FieldRecords(f, SlotOf(m, f)).value, RecordsFrom(fields, m, i + 1).value);
    }
  }

  // ----- Such records never end a message -----

  /** A record with a legal number is no marker. */
  lemma MarkedStep(fields: seq<Field>, st: DecodeState, r: Record, t: seq<byte>)
    requires 1 <= r.tag < TAG_LIMIT && r.wire < 8
    ensures Marked(fields, st, RecordBytes(r) + t) ==
            var p := DecodeRecord(fields, st, r.wire, r.tag, r.payload + t);
            p.Ok? && Marked(fields, p.value, p.rest)
  {
    assert RecordBytes(r) + t == TagBytes(r.tag, r.wire) + (r.payload + t);
    TagRoundTrip(r.tag, r.wire, r.payload + t);
  }

  /** No marker is met in a sequence of framed records. */
  lemma {:induction false} FramedIsUnmarked(fields: seq<Field>, st: DecodeState, rs: seq<Record>)
    requires AllFramed(fields, rs)
    ensures !Marked(fields, st, Flatten(rs))
    decreases |rs|
  {
    if rs != [] {
      var r, rest := rs[0], rs[1..];
      assert r in rs && Framed(fields, r);
      MarkedStep(fields, st, r, Flatten(rest));
      RecordExact(fields, st, r, Flatten(rest));
      var p := DecodeRecord(fields, st, r.wire, r.tag, r.payload);
      if p.Ok? {
        FramedIsUnmarked(fields, p.value, rest);
      }
    }
  }

  /** So what the encoder wrote can be concatenated: it decodes like one message after the other, unless its last
      fixed-count array is the first one of the next message. */
  lemma EncodingsMerge(fields: seq<Field>, x: Message, a: seq<byte>, b: seq<byte>, m: Message, m1: Message)
    requires ValidSchema(fields) && MessageOk(fields, x)
    requires EncodeMessage(fields, x) == Some(a) && |a| < TWO_32
    requires DecodeMessage(fields, m, a).Ok? && DecodeMessage(fields, m, a).value == m1
    requires DecodeMessage(fields, m1, b).Ok?
    ensures DecodeMessage(fields, m, a + b) ==
            if Clashes(fields, After(fields, m, a).value, b) then Fail else DecodeMessage(fields, m1, b)
    ensures NoFixedCounts(fields) ==> !Clashes(fields, After(fields, m, a).value, b)
  {
    var rs, st := RecordsFrom(fields, x, 0).value, DecodeState(m, {}, NoFixed);
    EncodingIsFramed(fields, x, 0);
    FramedIsUnmarked(fields, st, rs);
    LoopRuns(fields, st, rs);
    ConcatIs(fields, m, a, b);
    if NoFixedCounts(fields) {
      NothingClashes(fields, DecodeState(m1, {}, NoFixed), b);
    }
  }

  // ----- Packed and unpacked arrays -----

  /** One record for every element. */
  function ElementRecords(f: Field, xs: seq<Value>, i: nat): seq<Record>
    requires i <= |xs| && forall j :: 0 <= j < |xs| ==> EncodeScalar(f, xs[j]).Some?
    requires WireType(f).Some?
    decreases |xs| - i
  {
    if i == |xs| then []
    else [Record(f.tag, WireType(f).value, EncodeScalar(f, xs[i]).value)] + ElementRecords(f, xs, i + 1)
  }

  predicate ElementsOk(f: Field, xs: seq<Value>) {
    forall j :: 0 <= j < |xs| ==> ValueOk(f, xs[j])
  }

  /** A packed array that would run past the end of the storage is rejected. */
  lemma {:induction false} PackedOverflow(f: Field, cur: seq<Value>, k: nat, xs: seq<Value>, i: nat)
    requires f.Packable() && ElementsOk(f, xs) && i <= |xs| && k <= f.arraySize < k + (|xs| - i)
    ensures EncodePacked(f, xs, i).Some?
    ensures DecodePacked(f, cur, k, EncodePacked(f, xs, i).value).None?
    decreases |xs| - i
  {
    PackedSome(f, xs, i + 1);
    NumberRoundTrip(f, xs[i], EncodePacked(f, xs, i + 1).value);
    ScalarNotEmpty(f, xs[i]);
    if k < f.arraySize {
      PackedOverflow(f, Put(cur, k, xs[i]), k + 1, xs, i + 1);
    }
  }

  lemma {:induction false} PackedSome(f: Field, xs: seq<Value>, i: nat)
    requires f.Packable() && ElementsOk(f, xs) && i <= |xs|
    ensures EncodePacked(f, xs, i).Some?
    decreases |xs| - i
  {
    if i < |xs| {
      NumberRoundTrip(f, xs[i], []);
      PackedSome(f, xs, i + 1);
    }
  }

  /** An array field with a count, of scalars, and the elements in its slot. */
  predicate ScalarArray(fields: seq<Field>, i: nat, m: Message, cur: seq<Value>) {
    ValidSchema(fields) && i < |fields| &&
    fields[i].htype.Repeated? && fields[i].HasSize() && fields[i].Packable() &&
    fields[i].Key() in m && m[fields[i].Key()].Items? && m[fields[i].Key()].items == cur &&
    |cur| <= fields[i].arraySize
  }

  function WithItems(f: Field, st: DecodeState, items: seq<Value>): DecodeState {
    DecodeState(st.msg[f.Key() := Stored(SlotOf(st.msg, f), items)], st.seen + {f.tag}, st.fixed)
  }

  /** A packed record hands its elements to the slot. */
  lemma PackedStep(fields: seq<Field>, i: nat, st: DecodeState, cur: seq<Value>, payload: seq<byte>, b: seq<byte>)
    requires ScalarArray(fields, i, st.msg, cur) && Delimited(payload) == Ok(b, [])
    ensures var f := fields[i];
            var r := DecodePacked(f, cur, |cur|, b);
            DecodeRecord(fields, st, WT_STRING, f.tag, payload) ==
            if r.None? then Fail else Ok(WithItems(f, st, r.value.0), [])
  {
    KnownRecord(fields, i, st, WT_STRING, payload);
  }

  /** A record of a counted field is decoded into the field's slot. */
  lemma KnownRecord(fields: seq<Field>, i: nat, st: DecodeState, wire: nat, payload: seq<byte>)
    requires ValidSchema(fields) && i < |fields| && !fields[i].FixedCount()
    ensures var f := fields[i];
            var p := DecodeSlot(f, wire, SlotOf(st.msg, f), |ItemsOf(SlotOf(st.msg, f))|, payload);
            DecodeRecord(fields, st, wire, f.tag, payload) ==
            if p.Fail? then Fail
            else Ok(DecodeState(st.msg[f.Key() := p.value.0], st.seen + {f.tag}, st.fixed), p.rest)
  {
    var f := fields[i];
    assert ValidField(f);
    FindIs(fields, 0, i);
    assert DecodeRecord(fields, st, wire, f.tag, payload) == DecodeField(st, f, wire, payload);
  }

  /** A record of one element appends it if there is room. */
  lemma ElementStep(fields: seq<Field>, i: nat, st: DecodeState, cur: seq<Value>, x: Value)
    requires ScalarArray(fields, i, st.msg, cur) && ValueOk(fields[i], x)
    ensures var f := fields[i];
            EncodeScalar(f, x).Some? &&
            DecodeRecord(fields, st, WireType(f).value, f.tag, EncodeScalar(f, x).value) ==
            if |cur| < f.arraySize then Ok(WithItems(f, st, cur + [x]), []) else Fail
  {
    var f := fields[i];
    NumberRoundTrip(f, x, []);
    assert EncodeScalar(f, x).value + [] == EncodeScalar(f, x).value;
    KnownRecord(fields, i, st, WireType(f).value, EncodeScalar(f, x).value);
    assert DecodeValue(f, Cell(st.msg[f.Key()], |cur|), EncodeScalar(f, x).value) ==
           DecodeScalar(f, EncodeScalar(f, x).value);
  }

  lemma OneRun(fields: seq<Field>, st: DecodeState, r: Record)
    ensures RunRecords(fields, st, [r]) ==
            var p := DecodeRecord(fields, st, r.wire, r.tag, r.payload);
            if p.Fail? then None else Some(p.value)
  {
    assert [r][1..] == [];
  }

  /** The packed form: all elements are appended, or the record is rejected. */
  lemma PackedForms(fields: seq<Field>, i: nat, st: DecodeState, cur: seq<Value>, xs: seq<Value>, p: seq<byte>)
    requires ScalarArray(fields, i, st.msg, cur) && ElementsOk(fields[i], xs)
    requires EncodePacked(fields[i], xs, 0) == Some(p) && |p| < TWO_32
    ensures var f := fields[i];
            RunRecords(fields, st, [Record(f.tag, WT_STRING, Prefixed(p))]) ==
            if |cur| + |xs| <= f.arraySize then Some(WithItems(f, st, cur + xs)) else None
  {
    var f := fields[i];
    OneRun(fields, st, Record(f.tag, WT_STRING, Prefixed(p)));
    DelimitedRoundTrip(p, []);
    assert Prefixed(p) + [] == Prefixed(p);
    PackedStep(fields, i, st, cur, Prefixed(p), p);
    assert ValidField(f);
    if |cur| + |xs| <= f.arraySize {
      PackedFits(f, cur, xs, 0);
      assert xs[0..] == xs;
    } else {
      PackedOverflow(f, cur, |cur|, xs, 0);
    }
  }

  /** A packed array that fits is appended to what is there. */
  lemma {:induction false} PackedFits(f: Field, cur: seq<Value>, xs: seq<Value>, j: nat)
    requires f.Packable() && ElementsOk(f, xs) && j <= |xs|
    requires |cur| + (|xs| - j) <= f.arraySize
    ensures EncodePacked(f, xs, j).Some?
    ensures DecodePacked(f, cur, |cur|, EncodePacked(f, xs, j).value) == Some((cur + xs[j..], |cur| + (|xs| - j)))
    decreases |xs| - j
  {
    if j < |xs| {
      PackedFits(f, cur + [xs[j]], xs, j + 1);
      NumberRoundTrip(f, xs[j], EncodePacked(f, xs, j + 1).value);
      ScalarNotEmpty(f, xs[j]);
      assert cur + [xs[j]] + xs[j + 1..] == cur + xs[j..];
    } else {
      assert cur + xs[j..] == cur;
    }
  }

  /** The unpacked form: one record an element. */
  lemma {:induction false} UnpackedForms(
    fields: seq<Field>, i: nat, st: DecodeState, cur: seq<Value>, xs: seq<Value>, j: nat)
    requires ScalarArray(fields, i, st.msg, cur) && ElementsOk(fields[i], xs) && j <= |xs|
    requires forall x :: 0 <= x < |xs| ==> EncodeScalar(fields[i], xs[x]).Some?
    ensures var f := fields[i];
            RunRecords(fields, st, ElementRecords(f, xs, j)) ==
            if j == |xs| then Some(st)
            else if |cur| + (|xs| - j) <= f.arraySize then Some(WithItems(f, st, cur + xs[j..]))
            else None
    decreases |xs| - j
  {
    if j < |xs| {
      var f := fields[i];
      var rs := ElementRecords(f, xs, j);
      assert rs[0] == Record(f.tag, WireType(f).value, EncodeScalar(f, xs[j]).value);
      assert rs[1..] == ElementRecords(f, xs, j + 1);
      ElementStep(fields, i, st, cur, xs[j]);
      if |cur| < f.arraySize {
        var st1 := WithItems(f, st, cur + [xs[j]]);
        UnpackedForms(fields, i, st1, cur + [xs[j]], xs, j + 1);
        assert cur + [xs[j]] + xs[j + 1..] == cur + xs[j..];
        assert j + 1 == |xs| ==> xs[j..] == [xs[j]];
        StoredAgain(st.msg[f.Key()], cur + [xs[j]], cur + xs[j..]);
        assert WithItems(f, st1, cur + xs[j..]) == WithItems(f, st, cur + xs[j..]);
      }
    }
  }

  /** The two forms agree: from the same state, one packed record and one record an element both append the elements
      when they fit, and are both rejected when they do not. */
  lemma PackedIsUnpacked(fields: seq<Field>, i: nat, st: DecodeState, cur: seq<Value>, xs: seq<Value>, p: seq<byte>)
    requires ScalarArray(fields, i, st.msg, cur) && ElementsOk(fields[i], xs) && xs != []
    requires EncodePacked(fields[i], xs, 0) == Some(p) && |p| < TWO_32
    requires forall x :: 0 <= x < |xs| ==> EncodeScalar(fields[i], xs[x]).Some?
    ensures var f := fields[i];
            RunRecords(fields, st, [Record(f.tag, WT_STRING, Prefixed(p))]) ==
            RunRecords(fields, st, ElementRecords(f, xs, 0))
    ensures RunRecords(fields, st, ElementRecords(fields[i], xs, 0)).Some? <==> |cur| + |xs| <= fields[i].arraySize
  {
    PackedForms(fields, i, st, cur, xs, p);
    UnpackedForms(fields, i, st, cur, xs, 0);
    assert xs[0..] == xs;
  }
}
