/** Submessages on the wire: a record adds to the submessage that is there, so that a submessage may come in pieces. */
module Submerge {
  import opened Bytes
  import opened Varint
  import opened Schema
  import opened DecodeSpec
  import opened EncodeSpec
  import opened WellFormed
  import opened RoundTrip
  import opened Merge
  import opened Scalars

  /** The bytes of a record of a submessage: its tag, wire type 2, and its length and contents. */
  function SubmessageBytes(f: Field, a: seq<byte>): seq<byte> {
    EncodeVarint(8 * f.tag + 2) + (EncodeVarint(|a|) + a)
  }

  /** Field `i` is a submessage, not an array of them, and holds `m`. */
  predicate HoldsSubmessage(fields: seq<Field>, i: nat, st: DecodeState, m: Message) {
    ValidSchema(fields) && i < |fields| && fields[i].ltype.LSubmessage? &&
    var k := fields[i].Key(); k in st.msg && Holds(fields[i], st.msg[k], Msg(m))
  }

  lemma PrefixedIs(a: seq<byte>, t: seq<byte>)
    requires |a| < TWO_32
    ensures EncodeVarint(|a|) + a == Prefixed(a) && Delimited(EncodeVarint(|a|) + a + t) == Ok(a, t)
  {
    SmallMod(|a|, TWO_64);
    DelimitedRoundTrip(a, t);
  }

  lemma RecordBytesAre(f: Field, a: seq<byte>, t: seq<byte>)
    requires |a| < TWO_32
    ensures RecordBytes(Record(f.tag, 2, Prefixed(a))) == SubmessageBytes(f, a)
    ensures Delimited(Prefixed(a) + t) == Ok(a, t)
  {
    PrefixedIs(a, t);
  }

  /** The loop on a record of a known field. */
  lemma LoopSubmessage(fields: seq<Field>, i: nat, st: DecodeState, a: seq<byte>, t: seq<byte>)
    requires ValidSchema(fields) && i < |fields| && !fields[i].FixedCount() && |a| < TWO_32
    ensures var f := fields[i];
            var p := DecodeSlot(f, 2, SlotOf(st.msg, f), ItemCount(f, st), Prefixed(a) + t);
            DecodeLoop(fields, st, SubmessageBytes(f, a) + t) ==
            if p.Fail? then Fail
            else DecodeLoop(fields, DecodeState(st.msg[f.Key() := p.value.0], st.seen + {f.tag}, st.fixed), p.rest)
    ensures Delimited(Prefixed(a) + t) == Ok(a, t)
  {
    RecordBytesAre(fields[i], a, t);
    LoopField(fields, i, st, Record(fields[i].tag, 2, Prefixed(a)), t);
  }

  /** A record of a submessage is decoded into the submessage that is there. */
  lemma RecordAdds(fields: seq<Field>, i: nat, st: DecodeState, m: Message, a: seq<byte>, t: seq<byte>)
    requires HoldsSubmessage(fields, i, st, m) && |a| < TWO_32
    ensures var f := fields[i];
            f.ptr.Fields? &&
            DecodeLoop(fields, st, SubmessageBytes(f, a) + t) ==
            var p := DecodeMessage(f.ptr.fields, m, a);
            if p.Fail? then Fail else DecodeLoop(fields, With(st, f, Msg(p.value)), t)
  {
    var f := fields[i];
    assert ValidField(f);
    LoopSubmessage(fields, i, st, a, t);
    assert DecodeValue(f, Msg(m), Prefixed(a) + t) ==
           var p := DecodeMessage(f.ptr.fields, m, a); if p.Fail? then Fail else Ok(Msg(p.value), t);
  }

  /** It may come in two records, unless the first one holds an end marker, or fills the fixed-count array with which
      the second begins: then that is the same as one record with the bytes of both. */
  lemma TwoRecordsAreOne(
    fields: seq<Field>, i: nat, st: DecodeState, m: Message, a: seq<byte>, b: seq<byte>, t: seq<byte>)
    requires HoldsSubmessage(fields, i, st, m) && fields[i].ptr.Fields? && |a + b| < TWO_32
    requires DecodeMessage(fields[i].ptr.fields, m, a).Ok? && DecodeMessage(fields[i].ptr.fields, m, a).rest == []
    requires DecodeMessage(fields[i].ptr.fields, DecodeMessage(fields[i].ptr.fields, m, a).value, b).Ok?
    requires !Marked(fields[i].ptr.fields, DecodeState(m, {}, NoFixed), a)
    requires !Clashes(fields[i].ptr.fields, After(fields[i].ptr.fields, m, a).value, b)
    ensures var f := fields[i];
            DecodeLoop(fields, st, SubmessageBytes(f, a) + (SubmessageBytes(f, b) + t)) ==
            DecodeLoop(fields, st, SubmessageBytes(f, a + b) + t)
  {
    var f := fields[i];
    var m1 := DecodeMessage(f.ptr.fields, m, a).value;
    var st1 := With(st, f, Msg(m1));
    RecordAdds(fields, i, st, m, a, SubmessageBytes(f, b) + t);
    RecordAdds(fields, i, st1, m1, b, t);
    RecordAdds(fields, i, st, m, a + b, t);
    ConcatIs(f.ptr.fields, m, a, b);
    var m2 := DecodeMessage(f.ptr.fields, m1, b).value;
    assert With(st1, f, Msg(m2)) == With(st, f, Msg(m2)) by {
      assert st.seen + {f.tag} + {f.tag} == st.seen + {f.tag};
    }
  }

  /** A record without any bytes leaves the submessage that was there, and marks it as present. */
  lemma EmptyRecordKeeps(fields: seq<Field>, i: nat, st: DecodeState, m: Message, t: seq<byte>)
    requires HoldsSubmessage(fields, i, st, m) && fields[i].ptr.Fields?
    requires forall j :: 0 <= j < |fields[i].ptr.fields| ==> !fields[i].ptr.fields[j].htype.Required?
    ensures DecodeLoop(fields, st, EncodeVarint(8 * fields[i].tag + 2) + [0] + t) ==
            DecodeLoop(fields, With(st, fields[i], Msg(m)), t)
  {
    var f := fields[i];
    RecordAdds(fields, i, st, m, [], t);
    assert EncodeVarint(0) + [] == [0];
    assert EncodeVarint(8 * f.tag + 2) + [0] == SubmessageBytes(f, []);
    assert DecodeMessage(f.ptr.fields, m, []) == Ok(m, []);
  }

  /** Two pieces of one submessage, with a field each, come together. */
  lemma PiecesComeTogether(sub: seq<Field>, fields: seq<Field>, was: Message, m: Message)
    requires sub == [Field(1, Optional, LUVarint, 0, 4, 4, 0, 0, Null),
                     Field(2, Optional, LUVarint, 0, 4, 4, 0, 0, Null)]
    requires fields == [Field(1, Optional, LSubmessage, 0, 4, 16, 0, 0, Fields(sub))]
    requires m == map[FieldKey(1) := Flagged(true, Int(5)), FieldKey(2) := Flagged(true, Int(7))]
    ensures ValidSchema(fields)
    ensures Decode(fields, was, [10, 2, 8, 5, 10, 2, 16, 7]) == Ok(map[FieldKey(1) := Flagged(true, Msg(m))], [])
  {
    var f := fields[0];
    assert ValidField(sub[0]) && ValidField(sub[1]) && ValidSchema(sub) && ValidField(f);
    var m0: Message := map[FieldKey(1) := Flagged(false, Int(0)), FieldKey(2) := Flagged(false, Int(0))];
    var m1: Message := map[FieldKey(1) := Flagged(true, Int(5)), FieldKey(2) := Flagged(false, Int(0))];
    PieceDefaults(sub, fields, was, m0);
    BothPieces(sub, m0, m1, m);
    PieceBytes(f);
    assert [10, 2, 8, 5] + [10, 2, 16, 7] == [10, 2, 8, 5, 10, 2, 16, 7];
    TwoPieces(f, sub, [8, 5], [16, 7], m0, m1, m);
  }

  lemma BothPieces(sub: seq<Field>, m0: Message, m1: Message, m: Message)
    requires sub == [Field(1, Optional, LUVarint, 0, 4, 4, 0, 0, Null),
                     Field(2, Optional, LUVarint, 0, 4, 4, 0, 0, Null)]
    requires ValidSchema(sub)
    requires m0 == map[FieldKey(1) := Flagged(false, Int(0)), FieldKey(2) := Flagged(false, Int(0))]
    requires m1 == map[FieldKey(1) := Flagged(true, Int(5)), FieldKey(2) := Flagged(false, Int(0))]
    requires m == map[FieldKey(1) := Flagged(true, Int(5)), FieldKey(2) := Flagged(true, Int(7))]
    ensures DecodeMessage(sub, m0, [8, 5]) == Ok(m1, []) && DecodeMessage(sub, m1, [16, 7]) == Ok(m, [])
  {
    OnePiece(sub, 0, m0, 5, [8, 5]);
    OnePiece(sub, 1, m1, 7, [16, 7]);
    assert m0[FieldKey(1) := Flagged(true, Int(5))] == m1 && m1[FieldKey(2) := Flagged(true, Int(7))] == m;
  }

  lemma TwoPieces(f: Field, sub: seq<Field>, a: seq<byte>, b: seq<byte>, m0: Message, m1: Message, m: Message)
    requires ValidSchema([f]) && f.htype.Optional? && f.HasSize() && f.ltype.LSubmessage? && f.ptr == Fields(sub)
    requires |a| < TWO_32 && |b| < TWO_32
    requires DecodeMessage(sub, m0, a) == Ok(m1, []) && DecodeMessage(sub, m1, b) == Ok(m, [])
    ensures var m2: Message := map[f.Key() := Flagged(false, Msg(m0))];
            DecodeMessage([f], m2, SubmessageBytes(f, a) + SubmessageBytes(f, b)) ==
            Ok(map[f.Key() := Flagged(true, Msg(m))], [])
  {
    var st0 := DecodeState(map[f.Key() := Flagged(false, Msg(m0))], {}, NoFixed);
    var st1 := With(st0, f, Msg(m1));
    RecordAdds([f], 0, st0, m0, a, SubmessageBytes(f, b));
    RecordAdds([f], 0, st1, m1, b, []);
    assert SubmessageBytes(f, b) + [] == SubmessageBytes(f, b);
    LastPiece(f, st1, Msg(m));
    Ends(f, st0.msg, SubmessageBytes(f, a) + SubmessageBytes(f, b), With(st1, f, Msg(m)));
  }

  lemma LastPiece(f: Field, st: DecodeState, v: Value)
    requires f.htype.Optional? && f.HasSize() && st.fixed.NoFixed? && st.msg.Keys == {f.Key()}
    ensures With(st, f, v).msg == map[f.Key() := Flagged(true, v)] && With(st, f, v).fixed.NoFixed?
  {
  }

  lemma Ends(f: Field, m: Message, s: seq<byte>, st: DecodeState)
    requires !f.htype.Required? && st.fixed.NoFixed?
    requires DecodeLoop([f], DecodeState(m, {}, NoFixed), s) == DecodeLoop([f], st, [])
    ensures DecodeMessage([f], m, s) == Ok(st.msg, [])
  {
  }

  lemma PieceBytes(f: Field)
    requires f.tag == 1
    ensures SubmessageBytes(f, [8, 5]) == [10, 2, 8, 5] && SubmessageBytes(f, [16, 7]) == [10, 2, 16, 7]
  {
    assert EncodeVarint(10) == [10] && EncodeVarint(2) == [2];
  }

  lemma PieceDefaults(sub: seq<Field>, fields: seq<Field>, was: Message, m0: Message)
    requires sub == [Field(1, Optional, LUVarint, 0, 4, 4, 0, 0, Null),
                     Field(2, Optional, LUVarint, 0, 4, 4, 0, 0, Null)]
    requires fields == [Field(1, Optional, LSubmessage, 0, 4, 16, 0, 0, Fields(sub))]
    requires m0 == map[FieldKey(1) := Flagged(false, Int(0)), FieldKey(2) := Flagged(false, Int(0))]
    ensures DefaultMessage(fields, was) == map[FieldKey(1) := Flagged(false, Msg(m0))]
  {
    var inner := SlotsOf(Held(OldSlot(was, FieldKey(1))));
    assert DefaultsUpTo(sub, inner, 0) == map[];
    assert DefaultsUpTo(sub, inner, 1) == map[FieldKey(1) := Flagged(false, Int(0))];
    assert DefaultsUpTo(sub, inner, 2) == m0;
    assert DefaultMessage(sub, inner) == m0;
    var f := fields[0];
    assert f.Key() == FieldKey(1) && DefaultSlot(f, OldSlot(was, FieldKey(1))) == Flagged(false, Msg(m0));
    assert DefaultsUpTo(fields, was, 0) == map[];
    assert DefaultsUpTo(fields, was, 1) == map[FieldKey(1) := Flagged(false, Msg(m0))];
  }

  /** A message of one optional number below 128. */
  lemma OnePiece(sub: seq<Field>, i: nat, m: Message, n: byte, s: seq<byte>)
    requires ValidSchema(sub) && i < |sub| && NoneRequired(sub)
    requires sub[i].htype.Optional? && sub[i].sizeOffset != 0 && sub[i].ltype.LUVarint? && sub[i].dataSize == 4
    requires sub[i].tag < 16 && n < 128 && s == [8 * sub[i].tag, n]
    ensures DecodeMessage(sub, m, s) == Ok(m[FieldKey(sub[i].tag) := Flagged(true, Int(n))], [])
  {
    var f, st := sub[i], DecodeState(m, {}, NoFixed);
    assert ValidField(f);
    ReadsUnsigned(sub, i, st, 0, n, []);
    assert EncodeVarint(8 * f.tag + 0) == [8 * f.tag] && EncodeVarint(n) == [n] && [n] + [] == [n];
    assert [8 * f.tag] + [n] == s;
    assert DecodeLoop(sub, With(st, f, Int(n)), []) == Ok(With(st, f, Int(n)), []);
  }

  predicate NoneRequired(fields: seq<Field>) {
    forall i :: 0 <= i < |fields| ==> !fields[i].htype.Required?
  }

  // ----- Where a submessage starts anew -----

  /** A union member that becomes the selected one does not see what its predecessor left: it starts from zero bytes,
      and then from its defaults. */
  lemma SelectedStartsAnew(
    fields: seq<Field>, i: nat, st: DecodeState, which: nat, v: Value, a: seq<byte>, t: seq<byte>)
    requires ValidSchema(fields) && i < |fields| && fields[i].ltype.LSubmessage? && fields[i].htype.Oneof?
    requires fields[i].Key() in st.msg && st.msg[fields[i].Key()] == Union(which, v) && which != fields[i].tag
    requires |a| < TWO_32
    ensures var f := fields[i];
            f.ptr.Fields? &&
            DecodeLoop(fields, st, SubmessageBytes(f, a) + t) ==
            var p := Decode(f.ptr.fields, ZeroMessage(f.ptr.fields), a);
            if p.Fail? then Fail else DecodeLoop(fields, With(st, f, Msg(p.value)), t)
  {
    var f := fields[i];
    assert ValidField(f);
    LoopSubmessage(fields, i, st, a, t);
    assert DecodeValue(f, UnionStart(f), Prefixed(a) + t) ==
           var p := Decode(f.ptr.fields, ZeroMessage(f.ptr.fields), a);
           if p.Fail? then Fail else Ok(Msg(p.value), t);
  }

  /** An element of an array starts from its defaults, in the storage behind the elements that are there. */
  lemma ElementStartsAnew(
    fields: seq<Field>, i: nat, st: DecodeState, xs: seq<Value>, spare: seq<Value>, a: seq<byte>, t: seq<byte>)
    requires ValidSchema(fields) && i < |fields| && fields[i].ltype.LSubmessage? && fields[i].htype.Repeated?
    requires fields[i].sizeOffset != 0
    requires fields[i].Key() in st.msg && st.msg[fields[i].Key()] == Items(xs, spare) && |a| < TWO_32
    ensures var f := fields[i];
            f.ptr.Fields? &&
            DecodeLoop(fields, st, SubmessageBytes(f, a) + t) ==
            var p := Decode(f.ptr.fields, if spare == [] then map[] else SlotsOf(spare[0]), a);
            if |xs| >= f.arraySize || p.Fail? then Fail
            else
              var slot := Items(xs + [Msg(p.value)], if spare == [] then [] else spare[1..]);
              DecodeLoop(fields, DecodeState(st.msg[f.Key() := slot], st.seen + {f.tag}, st.fixed), t)
  {
    var f := fields[i];
    assert ValidField(f);
    LoopSubmessage(fields, i, st, a, t);
    var cell := if spare == [] then Unset else spare[0];
    assert DecodeValue(f, cell, Prefixed(a) + t) ==
           var p := Decode(f.ptr.fields, SlotsOf(cell), a); if p.Fail? then Fail else Ok(Msg(p.value), t);
    var p := Decode(f.ptr.fields, SlotsOf(cell), a);
    NextCell(xs, spare, if p.Ok? then Msg(p.value) else Unset);
  }

  lemma NextCell(xs: seq<Value>, spare: seq<Value>, v: Value)
    ensures Cell(Items(xs, spare), |xs|) == if spare == [] then Unset else spare[0]
    ensures Stored(Items(xs, spare), Put(xs, |xs|, v)) == Items(xs + [v], if spare == [] then [] else spare[1..])
  {
    assert spare != [] ==> (xs + spare)[|xs| + 1..] == spare[1..];
  }
}
