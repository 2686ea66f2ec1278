/** Decoding one buffer after another: concatenation is merge, up to the end marker. */
module Merge {
  import opened Bytes
  import opened Varint
  import opened Schema
  import opened DecodeSpec
  import opened RoundTrip

  // ----- What a reader does does not depend on the bytes after it -----

  lemma SkipFieldLocal(wire: nat, s: seq<byte>, t: seq<byte>)
    ensures Extends(SkipField(wire, s), SkipField(wire, s + t), t)
  {
    SkipVarintLocal(s, t);
    TakeLocal(s, t, 8);
    TakeLocal(s, t, 4);
    DelimitedLocal(s, t);
  }

  lemma IntegerLocal(f: Field, s: seq<byte>, t: seq<byte>)
    ensures Extends(DecodeInteger(f, s), DecodeInteger(f, s + t), t)
  {
    Varint64FromLocal(s, t, 0, 0);
  }

  lemma DataLocal(f: Field, s: seq<byte>, t: seq<byte>)
    ensures Extends(DecodeData(f, s), DecodeData(f, s + t), t)
  {
    Varint32Local(s, t);
    var n := Varint32(s);
    if n.Ok? {
      TakeLocal(n.rest, t, n.value);
    }
  }

  lemma ScalarLocal(f: Field, s: seq<byte>, t: seq<byte>)
    ensures Extends(DecodeScalar(f, s), DecodeScalar(f, s + t), t)
  {
    match f.ltype {
      case LBool => Varint32Local(s, t);
      case LVarint | LUVarint | LSVarint => IntegerLocal(f, s, t);
      case LFixed32 => TakeLocal(s, t, 4);
      case LFixed64 => TakeLocal(s, t, 8);
      case LBytes | LString | LFixedLengthBytes => DataLocal(f, s, t);
      case LSubmessage | LExtension =>
    }
  }

  lemma ValueLocal(f: Field, prior: Value, s: seq<byte>, t: seq<byte>)
    ensures Extends(DecodeValue(f, prior, s), DecodeValue(f, prior, s + t), t)
  {
    if f.ltype.LSubmessage? {
      DelimitedLocal(s, t);
    } else {
      ScalarLocal(f, s, t);
    }
  }

  lemma SlotLocal(f: Field, wire: nat, slot: Slot, k: nat, s: seq<byte>, t: seq<byte>)
    ensures Extends(DecodeSlot(f, wire, slot, k, s), DecodeSlot(f, wire, slot, k, s + t), t)
  {
    match f.htype {
      case Required | Optional => ValueLocal(f, Held(slot), s, t);
      case Repeated =>
        DelimitedLocal(s, t);
        ValueLocal(f, Cell(slot, k), s, t);
      case Oneof => ValueLocal(f, if slot.Union? && slot.which == f.tag then slot.v else UnionStart(f), s, t);
    }
  }

  lemma RecordLocal(fields: seq<Field>, st: DecodeState, wire: nat, tag: nat, s: seq<byte>, t: seq<byte>)
    ensures Extends(DecodeRecord(fields, st, wire, tag, s), DecodeRecord(fields, st, wire, tag, s + t), t)
  {
    var f := Find(fields, tag);
    if f.Some? {
      SlotLocal(f.value, wire, SlotOf(st.msg, f.value), ItemCount(f.value, st), s, t);
    } else {
      Varint32Local(s, t);
      SkipFieldLocal(wire, s, t);
    }
  }

  lemma TagLocal(s: seq<byte>, t: seq<byte>)
    requires s != [] && !DecodeTag(s).BadTag?
    ensures var p := DecodeTag(s);
            DecodeTag(s + t) ==
            if p.Tag? then Tag(p.wire, p.tag, p.rest + t) else EndOfMessage(p.rest + t)
  {
    Varint32Local(s, t);
  }

  // ----- Two buffers -----

  /** Whether the loop stops at an end marker, a zero in place of a tag, rather than at the end of its bytes. */
  predicate Marked(fields: seq<Field>, st: DecodeState, s: seq<byte>)
    decreases |s|
  {
    s != [] &&
    match DecodeTag(s)
    case EndOfMessage(_) => true
    case BadTag => false
    case Tag(wire, tag, rest) =>
      var p := DecodeRecord(fields, st, wire, tag, rest);
      p.Ok? && Marked(fields, p.value, p.rest)
  }

  /** After `a` is consumed the loop goes on with `b`, unless `a` ended with a marker: then `b` is not looked at. */
  lemma {:induction false} LoopConcat(fields: seq<Field>, st: DecodeState, a: seq<byte>, b: seq<byte>)
    requires DecodeLoop(fields, st, a).Ok? && DecodeLoop(fields, st, a).rest == []
    ensures var st1 := DecodeLoop(fields, st, a).value;
            DecodeLoop(fields, st, a + b) ==
            if Marked(fields, st, a) then Ok(st1, b) else DecodeLoop(fields, st1, b)
    decreases |a|
  {
    if a == [] {
      assert a + b == b;
    } else {
      TagLocal(a, b);
      match DecodeTag(a)
      case EndOfMessage(rest) =>
        assert [] + b == b;
      case Tag(wire, tag, rest) =>
        RecordLocal(fields, st, wire, tag, rest, b);
        var p := DecodeRecord(fields, st, wire, tag, rest);
        LoopConcat(fields, p.value, p.rest, b);
    }
  }

  // ----- The bitmap of required fields does not leak between records -----

  function AlsoSeen(st: DecodeState, seen: set<nat>): DecodeState {
    st.(seen := st.seen + seen)
  }

  /** A loop that starts with some fields already seen does the same, and has seen those as well. */
  lemma {:induction false} LoopAlsoSeen(fields: seq<Field>, st: DecodeState, seen: set<nat>, s: seq<byte>)
    ensures var p, q := DecodeLoop(fields, st, s), DecodeLoop(fields, AlsoSeen(st, seen), s);
            if p.Fail? then q.Fail? else q == Ok(AlsoSeen(p.value, seen), p.rest)
    decreases |s|
  {
    if s != [] {
      var t := DecodeTag(s);
      if t.Tag? {
        RecordAlsoSeen(fields, st, seen, t.wire, t.tag, t.rest);
        var p := DecodeRecord(fields, st, t.wire, t.tag, t.rest);
        if p.Ok? {
          LoopAlsoSeen(fields, p.value, seen, p.rest);
        }
      }
    }
  }

  lemma RecordAlsoSeen(
    fields: seq<Field>, st: DecodeState, seen: set<nat>, wire: nat, tag: nat, s: seq<byte>)
    ensures var p, q := DecodeRecord(fields, st, wire, tag, s),
                        DecodeRecord(fields, AlsoSeen(st, seen), wire, tag, s);
            if p.Fail? then q.Fail? else q == Ok(AlsoSeen(p.value, seen), p.rest)
  {
    var f := Find(fields, tag);
    if f.Some? {
      assert ItemCount(f.value, st) == ItemCount(f.value, AlsoSeen(st, seen));
      assert st.seen + seen + {f.value.tag} == st.seen + {f.value.tag} + seen;
    }
  }

  /** What a record does to the state besides its slot. */
  lemma RecordEffects(fields: seq<Field>, st: DecodeState, wire: nat, tag: nat, s: seq<byte>)
    requires DecodeRecord(fields, st, wire, tag, s).Ok?
    ensures var st1 := DecodeRecord(fields, st, wire, tag, s).value;
            var f := Find(fields, tag);
            st.seen <= st1.seen &&
            if f.Some? && f.value.FixedCount() then st1.fixed.Receiving? && st1.fixed.f == f.value
            else st1.fixed == st.fixed
  {
    var f := Find(fields, tag);
    if f.Some? {
      assert DecodeRecord(fields, st, wire, tag, s) == DecodeField(st, f.value, wire, s);
    }
  }

  // ----- The counter of fixed-count arrays does -----

  /** The fixed-count array whose record is met first, if there is one. */
  function FirstFixed(fields: seq<Field>, st: DecodeState, s: seq<byte>): Option<Field>
    decreases |s|
  {
    if s == [] then None
    else
      match DecodeTag(s)
      case EndOfMessage(_) | BadTag => None
      case Tag(wire, tag, rest) =>
        var f := Find(fields, tag);
        if f.Some? && f.value.FixedCount() then f
        else
          var p := DecodeRecord(fields, st, wire, tag, rest);
          if p.Fail? then None else FirstFixed(fields, p.value, p.rest)
  }

  /** The state with the counter of a full array of field `f` left standing. */
  function LeftFull(st: DecodeState, f: Field): DecodeState {
    st.(fixed := Receiving(f, f.arraySize))
  }

  /** The same outcome, but for such a counter. */
  predicate SameButFull(p: Parse<DecodeState>, q: Parse<DecodeState>, f: Field) {
    if p.Fail? then q.Fail?
    else q == Ok(if p.value.fixed.NoFixed? then LeftFull(p.value, f) else p.value, p.rest)
  }

  /** A record of a field without a fixed count leaves the counter alone. */
  lemma RecordKeepsFixed(
    fields: seq<Field>, st: DecodeState, fixed: FixedTrack, wire: nat, tag: nat, s: seq<byte>)
    requires Find(fields, tag).Some? ==> !Find(fields, tag).value.FixedCount()
    ensures var p := DecodeRecord(fields, st, wire, tag, s);
            DecodeRecord(fields, st.(fixed := fixed), wire, tag, s) ==
            if p.Fail? then Fail else Ok(p.value.(fixed := fixed), p.rest)
    ensures var p := DecodeRecord(fields, st, wire, tag, s); p.Ok? ==> p.value.fixed == st.fixed
  {
  }

  /** The counter of a full array does not matter unless the next fixed-count array is the same one. */
  lemma {:induction false} LoopLeftFull(fields: seq<Field>, st: DecodeState, f: Field, s: seq<byte>)
    requires st.fixed.NoFixed? && (FirstFixed(fields, st, s) != Some(f) || f.arraySize == 0)
    ensures SameButFull(DecodeLoop(fields, st, s), DecodeLoop(fields, LeftFull(st, f), s), f)
    decreases |s|
  {
    if s != [] {
      var t := DecodeTag(s);
      if t.Tag? {
        var g := Find(fields, t.tag);
        if g.Some? && g.value.FixedCount() {
          assert DecodeRecord(fields, LeftFull(st, f), t.wire, t.tag, t.rest) ==
                 DecodeRecord(fields, st, t.wire, t.tag, t.rest);
          LoopStaysFixed(fields, st, t, s);
        } else {
          RecordKeepsFixed(fields, st, Receiving(f, f.arraySize), t.wire, t.tag, t.rest);
          var p := DecodeRecord(fields, st, t.wire, t.tag, t.rest);
          if p.Ok? {
            LoopLeftFull(fields, p.value, f, p.rest);
          }
        }
      }
    }
  }

  /** Once a fixed-count array was received, there is a counter. */
  lemma LoopStaysFixed(fields: seq<Field>, st: DecodeState, t: TagParse, s: seq<byte>)
    requires s != [] && DecodeTag(s) == t && t.Tag?
    requires Find(fields, t.tag).Some? && Find(fields, t.tag).value.FixedCount()
    ensures DecodeLoop(fields, st, s).Ok? ==> DecodeLoop(fields, st, s).value.fixed.Receiving?
  {
    var p := DecodeRecord(fields, st, t.wire, t.tag, t.rest);
    if p.Ok? {
      RecordEffects(fields, st, t.wire, t.tag, t.rest);
      LoopKeepsReceiving(fields, p.value, p.rest);
    }
  }

  lemma {:induction false} LoopKeepsReceiving(fields: seq<Field>, st: DecodeState, s: seq<byte>)
    requires st.fixed.Receiving?
    ensures DecodeLoop(fields, st, s).Ok? ==> DecodeLoop(fields, st, s).value.fixed.Receiving?
    decreases |s|
  {
    if s != [] {
      var t := DecodeTag(s);
      if t.Tag? {
        var p := DecodeRecord(fields, st, t.wire, t.tag, t.rest);
        if p.Ok? {
          RecordEffects(fields, st, t.wire, t.tag, t.rest);
          LoopKeepsReceiving(fields, p.value, p.rest);
        }
      }
    }
  }

  /** A full array takes nothing but an empty packed record. */
  lemma FullTakesNothing(f: Field, wire: nat, slot: Slot, s: seq<byte>)
    requires f.FixedCount() && f.arraySize > 0 && DecodeSlot(f, wire, slot, f.arraySize, s).Ok?
    ensures var p := DecodeSlot(f, wire, slot, f.arraySize, s);
            p.value.1 == f.arraySize && DecodeSlot(f, wire, slot, 0, s) == Ok((p.value.0, 0), p.rest)
  {
    assert wire == WT_STRING && f.Packable();
    assert Delimited(s).value == [];
  }

  /** If it is the same one, its records do not fit any more. */
  lemma {:induction false} FullAgain(fields: seq<Field>, st: DecodeState, f: Field, s: seq<byte>)
    requires st.fixed == Receiving(f, 0) && f.FixedCount() && f.arraySize > 0
    requires DecodeLoop(fields, st, s).Ok? && FixedComplete(DecodeLoop(fields, st, s).value.fixed)
    ensures DecodeLoop(fields, LeftFull(st, f), s).Fail?
    decreases |s|
  {
    var t := DecodeTag(s);
    var g := Find(fields, t.tag);
    if g.Some? && g.value.FixedCount() {
      FullRecord(fields, st, f, t.wire, t.tag, t.rest);
      var q := DecodeRecord(fields, LeftFull(st, f), t.wire, t.tag, t.rest);
      if q.Ok? {
        FullAgain(fields, DecodeRecord(fields, st, t.wire, t.tag, t.rest).value, f, q.rest);
      }
    } else {
      RecordKeepsFixed(fields, st, Receiving(f, f.arraySize), t.wire, t.tag, t.rest);
      var p := DecodeRecord(fields, st, t.wire, t.tag, t.rest);
      FullAgain(fields, p.value, f, p.rest);
    }
  }

  lemma FullRecord(fields: seq<Field>, st: DecodeState, f: Field, wire: nat, tag: nat, s: seq<byte>)
    requires st.fixed == Receiving(f, 0) && f.FixedCount() && f.arraySize > 0
    requires Find(fields, tag).Some? && Find(fields, tag).value.FixedCount()
    requires DecodeRecord(fields, st, wire, tag, s).Ok?
    ensures var p, q := DecodeRecord(fields, st, wire, tag, s), DecodeRecord(fields, LeftFull(st, f), wire, tag, s);
            q.Ok? ==> p.value.fixed == Receiving(f, 0) && q == Ok(LeftFull(p.value, f), p.rest)
  {
    var g := Find(fields, tag).value;
    assert DecodeRecord(fields, st, wire, tag, s) == DecodeField(st, g, wire, s);
    assert DecodeRecord(fields, LeftFull(st, f), wire, tag, s) == DecodeField(LeftFull(st, f), g, wire, s);
    assert g == f;
    if DecodeRecord(fields, LeftFull(st, f), wire, tag, s).Ok? {
      FullTakesNothing(f, wire, SlotOf(st.msg, f), s);
    }
  }

  /** Whether the counter that is left after `a` is in the way of `b`: the last fixed-count array that `a` fills is the
      first one that `b` is about. */
  predicate Clashes(fields: seq<Field>, last: DecodeState, b: seq<byte>) {
    last.fixed.Receiving? && last.fixed.f.arraySize > 0 &&
    FirstFixed(fields, DecodeState(last.msg, {}, NoFixed), b) == Some(last.fixed.f)
  }

  lemma {:induction false} ClashFails(fields: seq<Field>, st: DecodeState, f: Field, s: seq<byte>)
    requires st.fixed.NoFixed? && f.arraySize > 0 && FirstFixed(fields, st, s) == Some(f)
    requires DecodeLoop(fields, st, s).Ok? && FixedComplete(DecodeLoop(fields, st, s).value.fixed)
    ensures DecodeLoop(fields, LeftFull(st, f), s).Fail?
    decreases |s|
  {
    var t := DecodeTag(s);
    var g := Find(fields, t.tag);
    if g.Some? && g.value.FixedCount() {
      // The array is begun anew in one run, and is full in the other.
      assert DecodeRecord(fields, st, t.wire, t.tag, t.rest) ==
             DecodeRecord(fields, st.(fixed := Receiving(f, 0)), t.wire, t.tag, t.rest);
      FullAgain(fields, st.(fixed := Receiving(f, 0)), f, s);
    } else {
      RecordKeepsFixed(fields, st, Receiving(f, f.arraySize), t.wire, t.tag, t.rest);
      var p := DecodeRecord(fields, st, t.wire, t.tag, t.rest);
      ClashFails(fields, p.value, f, p.rest);
    }
  }

  // ----- Concatenation -----

  /** The state in which decoding `a` into `m` ends. */
  function After(fields: seq<Field>, m: Message, a: seq<byte>): Parse<DecodeState> {
    DecodeLoop(fields, DecodeState(m, {}, NoFixed), a)
  }

  /** What decoding makes of `a + b`, if it decodes `a` into `m`, with nothing left, and then `b` into the result. */
  lemma ConcatIs(fields: seq<Field>, m: Message, a: seq<byte>, b: seq<byte>)
    requires DecodeMessage(fields, m, a).Ok? && DecodeMessage(fields, m, a).rest == []
    requires DecodeMessage(fields, DecodeMessage(fields, m, a).value, b).Ok?
    ensures DecodeMessage(fields, m, a + b) ==
            if Marked(fields, DecodeState(m, {}, NoFixed), a) then Ok(DecodeMessage(fields, m, a).value, b)
            else if Clashes(fields, After(fields, m, a).value, b) then Fail
            else DecodeMessage(fields, DecodeMessage(fields, m, a).value, b)
  {
    var st := DecodeState(m, {}, NoFixed);
    var st1 := DecodeLoop(fields, st, a).value;
    LoopConcat(fields, st, a, b);
    if !Marked(fields, st, a) {
      GoesOnAs(fields, st1, b);
      var anew := DecodeState(st1.msg, {}, NoFixed);
      if Clashes(fields, st1, b) {
        ClashFails(fields, anew, st1.fixed.f, b);
      } else if st1.fixed.Receiving? {
        LoopLeftFull(fields, anew, st1.fixed.f, b);
      }
    }
  }

  /** What was seen before does not change what is read. */
  lemma GoesOnAs(fields: seq<Field>, st1: DecodeState, b: seq<byte>)
    ensures var p, q := DecodeLoop(fields, st1.(seen := {}), b), DecodeLoop(fields, st1, b);
            if p.Fail? then q.Fail? else q == Ok(AlsoSeen(p.value, st1.seen), p.rest)
  {
    var anew := st1.(seen := {});
    assert AlsoSeen(anew, st1.seen) == st1;
    LoopAlsoSeen(fields, anew, st1.seen, b);
  }

  /** Decoding takes at least one byte. */
  lemma LoopTakes(fields: seq<Field>, st: DecodeState, s: seq<byte>)
    requires s != [] && DecodeLoop(fields, st, s).Ok?
    ensures |DecodeLoop(fields, st, s).rest| < |s|
  {
    if DecodeTag(s).EndOfMessage? {
      assert |Varint32(s).rest| < |s|;
    }
  }

  /** Concatenation is merge: `a + b` decodes like `b` after `a`, if and only if `a` does not end with a marker and its
      last fixed-count array is not the first one of `b`; or if there is nothing in `b`. */
  lemma ConcatIsMerge(fields: seq<Field>, m: Message, a: seq<byte>, b: seq<byte>)
    requires DecodeMessage(fields, m, a).Ok? && DecodeMessage(fields, m, a).rest == []
    requires DecodeMessage(fields, DecodeMessage(fields, m, a).value, b).Ok?
    ensures DecodeMessage(fields, m, a + b) == DecodeMessage(fields, DecodeMessage(fields, m, a).value, b) <==>
            (!Marked(fields, DecodeState(m, {}, NoFixed), a) && !Clashes(fields, After(fields, m, a).value, b)) ||
            b == []
  {
    var m1 := DecodeMessage(fields, m, a).value;
    ConcatIs(fields, m, a, b);
    if b == [] {
      assert a + b == a;
    } else {
      LoopTakes(fields, DecodeState(m1, {}, NoFixed), b);
    }
  }

  /** Without fixed-count arrays there is no clash. */
  predicate NoFixedCounts(fields: seq<Field>) {
    forall f :: f in fields ==> !f.FixedCount()
  }

  lemma {:induction false} NothingClashes(fields: seq<Field>, st: DecodeState, s: seq<byte>)
    requires NoFixedCounts(fields)
    ensures FirstFixed(fields, st, s) == None
    decreases |s|
  {
    if s != [] && DecodeTag(s).Tag? {
      var t := DecodeTag(s);
      var p := DecodeRecord(fields, st, t.wire, t.tag, t.rest);
      if p.Ok? {
        NothingClashes(fields, p.value, p.rest);
      }
    }
  }

  /** The exception is real: a lone zero byte is a complete message that hides whatever is appended to it. */
  lemma MarkerHidesTheRest(fields: seq<Field>, m: Message, b: seq<byte>)
    requires forall i :: 0 <= i < |fields| ==> !fields[i].htype.Required?
    ensures DecodeMessage(fields, m, [0]) == Ok(m, [])
    ensures DecodeMessage(fields, m, [0] + b) == Ok(m, b)
  {
    var st := DecodeState(m, {}, NoFixed);
    assert [0][1..] == [];
    assert DecodeTag([0]) == EndOfMessage([]);
    assert DecodeLoop(fields, st, [0]) == Ok(st, []);
    LoopConcat(fields, st, [0], b);
  }

  /** So is the other: a message of one fixed-count array cannot be followed by itself. */
  lemma SecondArrayOverflows(fields: seq<Field>, m: Message, m1: Message, a: seq<byte>)
    requires fields == [Field(1, Repeated, LBool, 0, 0, 1, 1, 0, Null)] && a == [8, 1]
    requires m == map[FieldKey(1) := Items([Int(0)], [])] && m1 == map[FieldKey(1) := Items([Int(1)], [])]
    ensures fields[0].FixedCount()
    ensures DecodeMessage(fields, m, a) == Ok(m1, []) && DecodeMessage(fields, m1, a) == Ok(m1, [])
    ensures DecodeMessage(fields, m, a + a) == Fail
  {
    OneBool(fields, m, m1, m[FieldKey(1)], a);
    OneBool(fields, m1, m1, m1[FieldKey(1)], a);
    ConcatIs(fields, m, a, a);
  }

  lemma OneBool(fields: seq<Field>, m: Message, m1: Message, slot: Slot, a: seq<byte>)
    requires fields == [Field(1, Repeated, LBool, 0, 0, 1, 1, 0, Null)] && a == [8, 1]
    requires m == map[FieldKey(1) := slot] && slot.Items? && |slot.items| == 1 && slot.spare == []
    requires m1 == map[FieldKey(1) := Items([Int(1)], [])]
    ensures DecodeMessage(fields, m, a) == Ok(m1, []) && !Marked(fields, DecodeState(m, {}, NoFixed), a)
    ensures After(fields, m, a) == Ok(DecodeState(m1, {1}, Receiving(fields[0], 1)), [])
    ensures FirstFixed(fields, DecodeState(m, {}, NoFixed), a) == Some(fields[0])
  {
    var f, st := fields[0], DecodeState(m, {}, NoFixed);
    var b: seq<byte> := [1];
    assert a[1..] == b && b[1..] == [];
    assert DecodeTag(a) == Tag(WT_VARINT, 1, b);
    assert Find(fields, 1) == Some(f);
    assert DecodeValue(f, Cell(slot, 0), b) == Ok(Int(1), []);
    assert Put(slot.items, 0, Int(1)) == [Int(1)] && Behind(slot, 1) == [];
    assert DecodeSlot(f, WT_VARINT, slot, 0, b) == Ok((Items([Int(1)], []), 1), []);
    assert DecodeRecord(fields, st, WT_VARINT, 1, b) == DecodeField(st, f, WT_VARINT, b);
    assert f.Key() == FieldKey(1) && SlotOf(m, f) == slot && ItemCount(f, st) == 0;
    assert m[FieldKey(1) := Items([Int(1)], [])] == m1 && {} + {1} == {1};
    var st1 := DecodeState(m1, {1}, Receiving(f, 1));
    assert DecodeField(st, f, WT_VARINT, b) == Ok(st1, []);
    assert DecodeLoop(fields, st1, []) == Ok(st1, []) && !Marked(fields, st1, []);
    assert DecodeLoop(fields, st, a) == DecodeLoop(fields, st1, []);
  }
}
