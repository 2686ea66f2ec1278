/** What the decoder makes of the elements of arrays, with a count of their own and without one. */
module Arrays {
  import opened Bytes
  import opened Varint
  import opened Schema
  import opened DecodeSpec
  import opened WellFormed
  import opened Scalars

  /** A record of field `i`, an array, that holds one element: it is not the packed form of an array of numbers. */
  predicate IsElement(fields: seq<Field>, i: nat, wire: nat) {
    ValidSchema(fields) && i < |fields| && wire < 8 && fields[i].htype.Repeated? && !fields[i].ltype.LSubmessage? &&
    (wire == 2 ==> fields[i].ltype in {LBytes, LString, LFixedLengthBytes})
  }

  /** The loop on that record, `k` elements having come in before. */
  lemma ElementRecord(fields: seq<Field>, i: nat, st: DecodeState, wire: nat, k: nat, s: seq<byte>)
    requires IsElement(fields, i, wire)
    requires fields[i].FixedCount() && st.fixed.Receiving? && st.fixed.f != fields[i] ==> FixedComplete(st.fixed)
    requires k == ItemCount(fields[i], st)
    ensures var f := fields[i];
            LoopOn(fields, i, st, wire, s) ==
            var p := DecodeScalar(f, s);
            if k >= f.arraySize || p.Fail? then Fail
            else
              var slot := Stored(SlotOf(st.msg, f), Put(ItemsOf(SlotOf(st.msg, f)), k, p.value));
              DecodeLoop(fields, DecodeState(st.msg[f.Key() := slot], st.seen + {f.tag},
                                             if f.FixedCount() then Receiving(f, k + 1) else st.fixed), p.rest)
  {
    KnownRecord(fields, i, st, wire, s);
    ElementSlot(fields[i], wire, SlotOf(st.msg, fields[i]), k, s);
  }

  lemma ElementSlot(f: Field, wire: nat, slot: Slot, k: nat, s: seq<byte>)
    requires f.htype.Repeated? && !f.ltype.LSubmessage? && (wire == 2 ==> !f.Packable())
    ensures DecodeSlot(f, wire, slot, k, s) ==
            var p := DecodeScalar(f, s);
            if k >= f.arraySize || p.Fail? then Fail
            else Ok((Stored(slot, Put(ItemsOf(slot), k, p.value)), k + 1), p.rest)
  {
    assert DecodeValue(f, Cell(slot, k), s) == DecodeScalar(f, s);
  }

  /** An element is appended to an array with a count, while there is room. */
  lemma ElementIsAppended(
    fields: seq<Field>, i: nat, st: DecodeState, wire: nat, xs: seq<Value>, spare: seq<Value>, s: seq<byte>)
    requires IsElement(fields, i, wire) && fields[i].sizeOffset != 0
    requires fields[i].Key() in st.msg && st.msg[fields[i].Key()] == Items(xs, spare)
    ensures var f := fields[i];
            LoopOn(fields, i, st, wire, s) ==
            var p := DecodeScalar(f, s);
            if |xs| >= f.arraySize || p.Fail? then Fail
            else
              var slot := Items(xs + [p.value], if spare == [] then [] else spare[1..]);
              DecodeLoop(fields, DecodeState(st.msg[f.Key() := slot], st.seen + {f.tag}, st.fixed), p.rest)
  {
    ElementRecord(fields, i, st, wire, |xs|, s);
    assert spare != [] ==> (xs + spare)[|xs| + 1..] == spare[1..];
  }

  /** In an array without a count it goes to the place of the next one, after `n` that have come in; the array is begun
      anew after another one. */
  lemma ElementIsPlaced(
    fields: seq<Field>, i: nat, st: DecodeState, wire: nat, xs: seq<Value>, n: nat, s: seq<byte>)
    requires IsElement(fields, i, wire) && fields[i].sizeOffset == 0 && |xs| == fields[i].arraySize
    requires fields[i].Key() in st.msg && st.msg[fields[i].Key()] == Items(xs, [])
    requires st.fixed == Receiving(fields[i], n) || (n == 0 && st.fixed.NoFixed?) ||
             (n == 0 && st.fixed.Receiving? && st.fixed.f != fields[i] && st.fixed.size == st.fixed.f.arraySize)
    ensures var f := fields[i];
            LoopOn(fields, i, st, wire, s) ==
            var p := DecodeScalar(f, s);
            if n >= |xs| || p.Fail? then Fail
            else DecodeLoop(fields, DecodeState(st.msg[f.Key() := Items(xs[n := p.value], [])], st.seen + {f.tag},
                                                Receiving(f, n + 1)), p.rest)
  {
    ElementRecord(fields, i, st, wire, n, s);
  }

  /** Unless that other one is not full: then it is an error, whatever the record holds. */
  lemma OneArrayAtATime(fields: seq<Field>, i: nat, st: DecodeState, wire: nat, s: seq<byte>)
    requires ValidSchema(fields) && i < |fields| && wire < 8
    requires fields[i].htype.Repeated? && fields[i].sizeOffset == 0
    requires st.fixed.Receiving? && st.fixed.f != fields[i] && st.fixed.size != st.fixed.f.arraySize
    ensures LoopOn(fields, i, st, wire, s) == Fail
  {
    KnownRecord(fields, i, st, wire, s);
  }

  /** An array without a count is to be complete: one of two bools is not enough, and three are too many. */
  lemma TwoBools(fields: seq<Field>, m: Message)
    requires fields == [Field(1, Repeated, LBool, 0, 0, 1, 2, 0, Null)]
    requires m == map[FieldKey(1) := Items([Int(0), Int(0)], [])]
    ensures ValidSchema(fields)
    ensures DecodeMessage(fields, m, [8, 1]) == Fail
    ensures DecodeMessage(fields, m, [8, 1, 8, 1]) == Ok(map[FieldKey(1) := Items([Int(1), Int(1)], [])], [])
    ensures DecodeMessage(fields, m, [8, 1, 8, 1, 8, 1]) == Fail
  {
    assert ValidField(fields[0]);
    var none, one, both := [Int(0), Int(0)], [Int(1), Int(0)], [Int(1), Int(1)];
    assert none[0 := Int(1)] == one && one[1 := Int(1)] == both;
    RunBools(fields, none, one, both, []);
    RunBools(fields, none, one, both, [8, 1]);
    assert [8, 1] + [] == [8, 1] && [8, 1, 8, 1] + [] == [8, 1, 8, 1] && [8, 1, 8, 1] + [8, 1] == [8, 1, 8, 1, 8, 1];
    OneMore(fields, none, 0, []);
    OneMore(fields, both, 2, []);
    BoolsEnd(fields, m, none, [8, 1], one, 1);
    BoolsEnd(fields, m, none, [8, 1, 8, 1], both, 2);
  }

  lemma RunBools(fields: seq<Field>, none: seq<Value>, one: seq<Value>, both: seq<Value>, t: seq<byte>)
    requires fields == [Field(1, Repeated, LBool, 0, 0, 1, 2, 0, Null)] && ValidSchema(fields)
    requires |none| == |one| == 2 && none[0 := Int(1)] == one && one[1 := Int(1)] == both
    ensures DecodeLoop(fields, AfterBools(fields, none, 0), [8, 1, 8, 1] + t) ==
            DecodeLoop(fields, AfterBools(fields, both, 2), t)
  {
    assert [8, 1, 8, 1] + t == [8, 1] + ([8, 1] + t);
    OneMore(fields, none, 0, [8, 1] + t);
    OneMore(fields, one, 1, t);
  }

  lemma BoolsEnd(fields: seq<Field>, m: Message, none: seq<Value>, s: seq<byte>, xs: seq<Value>, n: nat)
    requires fields == [Field(1, Repeated, LBool, 0, 0, 1, 2, 0, Null)] && m == map[FieldKey(1) := Items(none, [])]
    requires n > 0 && DecodeLoop(fields, AfterBools(fields, none, 0), s) ==
                      DecodeLoop(fields, AfterBools(fields, xs, n), [])
    ensures DecodeMessage(fields, m, s) == if n == 2 then Ok(map[FieldKey(1) := Items(xs, [])], []) else Fail
  {
    assert AfterBools(fields, none, 0) == DecodeState(m, {}, NoFixed);
  }

  /** The state after `n` elements. */
  function AfterBools(fields: seq<Field>, xs: seq<Value>, n: nat): DecodeState
    requires fields != []
  {
    DecodeState(map[FieldKey(1) := Items(xs, [])], if n == 0 then {} else {1},
                if n == 0 then NoFixed else Receiving(fields[0], n))
  }

  /** One more `true`. */
  lemma OneMore(fields: seq<Field>, xs: seq<Value>, n: nat, t: seq<byte>)
    requires fields == [Field(1, Repeated, LBool, 0, 0, 1, 2, 0, Null)] && ValidSchema(fields) && |xs| == 2
    ensures DecodeLoop(fields, AfterBools(fields, xs, n), [8, 1] + t) ==
            if n < 2 then DecodeLoop(fields, AfterBools(fields, xs[n := Int(1)], n + 1), t) else Fail
  {
    var st := AfterBools(fields, xs, n);
    ElementIsPlaced(fields, 0, st, 0, xs, n, [1] + t);
    assert EncodeVarint(8) == [8] && [8] + ([1] + t) == [8, 1] + t;
    assert ([1] + t)[1..] == t;
    assert DecodeScalar(fields[0], [1] + t) == Ok(Int(1), t);
    if n < 2 {
      assert st.msg[FieldKey(1) := Items(xs[n := Int(1)], [])] == map[FieldKey(1) := Items(xs[n := Int(1)], [])];
      assert st.seen + {1} == {1};
    }
  }

  /** A table without fields has a terminator that answers to the number 0, as a bool: a record with that number takes
      up a varint there, whatever its wire type. */
  lemma NumberZero(fields: seq<Field>, m: Message, wire: nat, n: nat, t: seq<byte>)
    requires 1 <= wire < 8 && n < 0x1_0000_0000
    ensures fields == [] ==>
              DecodeLoop(fields, DecodeState(m, {}, NoFixed), [wire] + (EncodeVarint(n) + t)) ==
              DecodeLoop(fields, DecodeState(m, {}, NoFixed), t)
  {
    var s := EncodeVarint(n) + t;
    assert ([wire] + s)[1..] == s;
    assert DecodeTag([wire] + s) == Tag(wire, 0, s);
    SmallIsRead(n, t);
  }
}
