/** Decoding what was encoded gives the message back. */
module RoundTrip {
  import opened Bytes
  import opened Varint
  import opened Schema
  import opened DecodeSpec
  import opened EncodeSpec
  import opened WellFormed

  // ----- Tables that know fewer fields -----

  /** The same field for the codec. Where it lies in the struct may differ; a submessage may know fewer fields, and take
      less room for it. */
  predicate SameField(f: Field, g: Field)
    decreases g, 0
  {
    f.tag == g.tag && f.htype == g.htype && f.ltype == g.ltype && f.arraySize == g.arraySize && f.union == g.union &&
    (f.HasSize() <==> g.HasSize()) &&
    if f.ltype.LSubmessage? then
      (f.ptr.Fields? <==> g.ptr.Fields?) && (g.ptr.Fields? ==> SubSchema(g.ptr.fields, f.ptr.fields))
    else f.dataSize == g.dataSize && f.ptr == g.ptr
  }

  /** `known` is what is left of `fields` when some fields are dropped, in submessages too. */
  predicate SubSchema(known: seq<Field>, fields: seq<Field>)
    decreases known, 2
  {
    forall j :: 0 <= j < |known| ==> Offers(fields, known[j])
  }

  predicate Offers(fields: seq<Field>, g: Field)
    decreases g, 1
  {
    exists i :: 0 <= i < |fields| && SameField(fields[i], g)
  }

  /** Whether a table has a field with this tag. */
  predicate Knows(known: seq<Field>, tag: nat) {
    Find(known, tag).Some?
  }

  // ----- The message that comes back -----

  /** The value of field `f` that comes back where field `g` is kept, when `was` lay in its storage: a string ends at
      its first NUL, a submessage has the fields that are known there. */
  function NormalValue(f: Field, g: Field, v: Value, was: Value): Value
    decreases f, 0
  {
    if f.ltype.LString? && v.Data? then Data(v.bytes[..StringLength(v.bytes, f.dataSize)])
    else if f.ltype.LSubmessage? && f.ptr.Fields? && g.ptr.Fields?
    then Msg(NormalOnto(f.ptr.fields, g.ptr.fields, SlotsOf(v), SlotsOf(was)))
    else v
  }

  function NormalItems(f: Field, g: Field, items: seq<Value>, was: Slot): (r: seq<Value>)
    ensures |r| == |items|
    decreases f, 1
  {
    seq(|items|, i requires 0 <= i < |items| => NormalValue(f, g, items[i], Cell(was, i)))
  }

  function NormalSlot(f: Field, g: Field, slot: Slot, was: Slot): Slot
    decreases f, 2
  {
    match f.htype
    case Required => Single(NormalValue(f, g, Held(slot), Held(was)))
    case Optional =>
      var v := NormalValue(f, g, Held(slot), Held(was));
      if f.HasSize() then Flagged(true, v) else Single(v)
    case Repeated => Stored(was, NormalItems(f, g, ItemsOf(slot), was))
    case Oneof => Union(f.tag, NormalValue(f, g, Held(slot), ZeroValue(g)))
  }

  /** Whether the field leaves any record in the encoding. */
  predicate Emits(f: Field, slot: Slot) {
    if f.htype.Repeated? then ItemsOf(slot) != [] else Present(f, slot)
  }

  /** The defaults of the table `known`, with those of the first `n` fields filled in that it knows and that are
      present. */
  function NormalUpTo(fields: seq<Field>, known: seq<Field>, m: Message, was: Message, n: nat): Message
    requires n <= |fields|
    decreases fields, 0, n
  {
    if n == 0 then DefaultMessage(known, was)
    else
      var f := fields[n - 1];
      var g := Find(known, f.tag);
      var before := NormalUpTo(fields, known, m, was, n - 1);
      if g.Some? && Emits(f, SlotOf(m, f))
      then before[f.Key() := NormalSlot(f, g.value, SlotOf(m, f), OldSlot(was, f.Key()))]
      else before
  }

  /** What a decoder with the table `known` makes of a message, in a struct that held `was`. */
  function NormalOnto(fields: seq<Field>, known: seq<Field>, m: Message, was: Message): Message
    decreases fields, 1
  {
    NormalUpTo(fields, known, m, was, |fields|)
  }

  /** The message as it comes back in a struct that held `was`: absent fields are at their defaults. */
  function NormalMessage(fields: seq<Field>, m: Message, was: Message): Message
    decreases fields, 2
  {
    NormalOnto(fields, fields, m, was)
  }

  // ----- Framing -----

  lemma DelimitedRoundTrip(b: seq<byte>, t: seq<byte>)
    requires |b| < TWO_32
    ensures Delimited(Prefixed(b) + t) == Ok(b, t)
  {
    SmallMod(|b|, TWO_64);
    assert Prefixed(b) + t == EncodeVarint(|b|) + (b + t);
    SmallIsRead(|b|, b + t);
    assert (b + t)[..|b|] == b && (b + t)[|b|..] == t;
  }

  lemma TagParts(tag: nat, wire: nat)
    requires wire < 8
    ensures (8 * tag + wire) / 8 == tag && (8 * tag + wire) % 8 == wire
  {
  }

  lemma TagRoundTrip(tag: nat, wire: nat, t: seq<byte>)
    requires 1 <= tag < TAG_LIMIT && wire < 8
    ensures DecodeTag(TagBytes(tag, wire) + t) == Tag(wire, tag, t)
    ensures TagBytes(tag, wire) + t != []
  {
    TagParts(tag, wire);
    SmallIsRead(8 * tag + wire, t);
    assert |EncodeVarint(8 * tag + wire)| > 0;
  }

  /** The loop takes a record off the front. */
  lemma LoopRecord(fields: seq<Field>, st: DecodeState, r: Record, t: seq<byte>)
    requires 1 <= r.tag < TAG_LIMIT && r.wire < 8
    ensures DecodeLoop(fields, st, RecordBytes(r) + t) ==
            var p := DecodeRecord(fields, st, r.wire, r.tag, r.payload + t);
            if p.Fail? then Fail else DecodeLoop(fields, p.value, p.rest)
  {
    assert RecordBytes(r) + t == TagBytes(r.tag, r.wire) + (r.payload + t);
    TagRoundTrip(r.tag, r.wire, r.payload + t);
  }

  lemma {:induction false} FindIs(fields: seq<Field>, i: nat, j: nat)
    requires DistinctTags(fields) && i <= j < |fields| && !fields[j].ltype.LExtension?
    ensures FindFrom(fields, fields[j].tag, i) == Some(fields[j])
    decreases j - i
  {
    if i < j {
      FindIs(fields, i + 1, j);
    }
  }

  // ----- Scalars -----

  lemma ReadIntegerBack(f: Field, x: int, t: seq<byte>)
    requires f.ltype.LVarint? && SignedFits(x, f.dataSize)
    ensures DecodeInteger(f, EncodeVarint(x % TWO_64) + t) == Ok(Int(x), t)
  {
    VarintRoundTrip(x % TWO_64, t);
    SignedValueBack(x, f.dataSize);
  }

  lemma SignedValueBack(x: int, size: nat)
    requires SignedFits(x, size)
    ensures SignedValue(x % TWO_64, size) == x
  {
    if x < 0 {
      ModNegative(x);
    }
  }

  lemma ModNegative(x: int)
    requires -TWO_63 <= x < 0
    ensures x % TWO_64 == x + TWO_64
    ensures -TWO_31 <= x ==> (x + TWO_64) % TWO_32 == x + TWO_32
  {
    assert x + TWO_64 == TWO_32 * (TWO_32 - 1) + (x + TWO_32);
  }

  lemma ReadUnsignedBack(f: Field, x: int, t: seq<byte>)
    requires f.ltype.LUVarint? && UnsignedFits(x, f.dataSize)
    ensures DecodeInteger(f, EncodeVarint(x % TWO_64) + t) == Ok(Int(x), t)
  {
    SmallMod(x, TWO_64);
    VarintRoundTrip(x, t);
  }

  lemma ReadZigZagBack(f: Field, x: int, t: seq<byte>)
    requires f.ltype.LSVarint? && SignedFits(x, f.dataSize)
    ensures DecodeInteger(f, EncodeVarint(ZigZag(x)) + t) == Ok(Int(x), t)
  {
    ZigZagBijection(x, 0);
    VarintRoundTrip(ZigZag(x), t);
  }

  lemma ReadFixedBack(n: nat, k: nat, t: seq<byte>)
    requires n < Pow2(8 * k)
    ensures FixedValue(Take(LittleEndian(n, k) + t, k)) == Ok(Int(n), t)
  {
    LittleEndianRoundTrip(n, k);
    var s := LittleEndian(n, k) + t;
    assert s[..k] == LittleEndian(n, k) && s[k..] == t;
  }

  lemma ReadFixed32Back(n: nat, t: seq<byte>)
    requires n < TWO_32
    ensures FixedValue(Take(LittleEndian(n % TWO_32, 4) + t, 4)) == Ok(Int(n), t)
  {
    SmallMod(n, TWO_32);
    Pow2At32(32);
    ReadFixedBack(n, 4, t);
  }

  lemma ReadFixed64Back(n: nat, t: seq<byte>)
    requires n < TWO_64
    ensures FixedValue(Take(LittleEndian(n % TWO_64, 8) + t, 8)) == Ok(Int(n), t)
  {
    SmallMod(n, TWO_64);
    Pow2At64(64);
    ReadFixedBack(n, 8, t);
  }

  lemma ReadDataBack(f: Field, b: seq<byte>, t: seq<byte>)
    requires f.ltype in {LBytes, LString, LFixedLengthBytes} && LengthFits(f, |b|) && f.dataSize < TWO_32
    ensures DecodeData(f, Prefixed(b) + t) == Ok(Data(b), t)
  {
    DelimitedRoundTrip(b, t);
    SmallMod(|b|, TWO_64);
    assert Prefixed(b) + t == EncodeVarint(|b|) + (b + t);
    SmallIsRead(|b|, b + t);
    if |b| == 0 && f.ltype.LFixedLengthBytes? {
      assert Zeros(f.dataSize) == b && b + t == t;
    }
  }

  lemma NumberRoundTrip(f: Field, v: Value, t: seq<byte>)
    requires f.Packable() && ValueOk(f, v)
    ensures EncodeScalar(f, v).Some?
    ensures DecodeScalar(f, EncodeScalar(f, v).value + t) == Ok(v, t)
  {
    match f.ltype {
      case LBool => SmallIsRead(v.n, t);
      case LVarint => ReadIntegerBack(f, v.n, t);
      case LUVarint => ReadUnsignedBack(f, v.n, t);
      case LSVarint => ReadZigZagBack(f, v.n, t);
      case LFixed32 => ReadFixed32Back(v.n, t);
      case LFixed64 => ReadFixed64Back(v.n, t);
    }
  }

  lemma ScalarRoundTrip(f: Field, v: Value, t: seq<byte>)
    requires ValidField(f) && ValueOk(f, v) && !f.ltype.LSubmessage?
    ensures EncodeScalar(f, v).Some?
    ensures DecodeScalar(f, EncodeScalar(f, v).value + t) == Ok(NormalValue(f, f, v, Unset), t)
  {
    if f.Packable() {
      NumberRoundTrip(f, v, t);
    } else if f.ltype.LString? {
      ReadDataBack(f, v.bytes[..StringLength(v.bytes, f.dataSize)], t);
    } else {
      ReadDataBack(f, v.bytes, t);
    }
  }

  // ----- Arrays -----

  lemma StoredAgain(slot: Slot, xs: seq<Value>, ys: seq<Value>)
    requires |xs| <= |ys|
    ensures Stored(Stored(slot, xs), ys) == Stored(slot, ys)
  {
    var storage := StorageOf(slot);
    if |ys| <= |storage| {
      assert (xs + storage[|xs|..])[|ys|..] == storage[|ys|..];
    }
  }

  /** Storing elements leaves the cells behind them alone. */
  lemma CellBehind(slot: Slot, xs: seq<Value>, k: nat)
    requires |xs| <= k
    ensures Cell(Stored(slot, xs), k) == Cell(slot, k)
  {
    var storage := StorageOf(slot);
    if |xs| <= |storage| && k < |storage| {
      assert (xs + storage[|xs|..])[k] == storage[k];
    }
  }

  /** Writing element `k` leaves the cells behind it alone. */
  lemma CellAfterPut(slot: Slot, k: nat, v: Value, x: nat)
    requires k <= |ItemsOf(slot)| && k < x
    ensures Cell(Stored(slot, Put(ItemsOf(slot), k, v)), x) == Cell(slot, x)
  {
    var items := Put(ItemsOf(slot), k, v);
    if |items| <= x {
      CellBehind(slot, items, x);
    }
  }

  // ----- What the decoder's state becomes -----

  function AfterItem(f: Field, st: DecodeState, x: Value): DecodeState {
    var k := ItemCount(f, st);
    var slot := SlotOf(st.msg, f);
    DecodeState(st.msg[f.Key() := Stored(slot, Put(ItemsOf(slot), k, x))], st.seen + {f.tag},
                if f.FixedCount() then Receiving(f, k + 1) else st.fixed)
  }

  function AfterItems(f: Field, st: DecodeState, xs: seq<Value>, j: nat): DecodeState
    requires j <= |xs|
    decreases |xs| - j
  {
    if j == |xs| then st else AfterItems(f, AfterItem(f, st, xs[j]), xs, j + 1)
  }

  /** The state after all records of field `f`, kept as field `g`, which was at its default before. */
  function AfterField(f: Field, g: Field, slot: Slot, was: Slot, st: DecodeState): DecodeState {
    if !Emits(f, slot) then st
    else
      DecodeState(st.msg[g.Key() := NormalSlot(f, g, slot, was)], st.seen + {g.tag},
                  if g.FixedCount() then Receiving(g, |ItemsOf(slot)|) else st.fixed)
  }

  function PutAll(cur: seq<Value>, k: nat, xs: seq<Value>, j: nat): (r: seq<Value>)
    requires j <= |xs|
    ensures |cur| <= |r|
    decreases |xs| - j
  {
    if j == |xs| then cur else PutAll(Put(cur, k, xs[j]), k + 1, xs, j + 1)
  }

  lemma {:induction false} PutAllIs(cur: seq<Value>, xs: seq<Value>, j: nat)
    requires j <= |xs| && j <= |cur| && (|cur| == j || |cur| == |xs|)
    requires forall i :: 0 <= i < j ==> cur[i] == xs[i]
    ensures PutAll(cur, j, xs, j) == xs
    decreases |xs| - j
  {
    if j < |xs| {
      PutAllIs(Put(cur, j, xs[j]), xs, j + 1);
    }
  }

  lemma AfterOneItem(f: Field, st: DecodeState, x: Value)
    requires f.htype.Repeated?
    requires !f.FixedCount() ==> f.Key() in st.msg && ItemCount(f, st) == |ItemsOf(SlotOf(st.msg, f))|
    ensures var st1, slot, k := AfterItem(f, st, x), SlotOf(st.msg, f), ItemCount(f, st);
            var one := Put(ItemsOf(slot), k, x);
            SlotOf(st1.msg, f) == Stored(slot, one) && ItemsOf(SlotOf(st1.msg, f)) == one && ItemCount(f, st1) == k + 1
    ensures f.FixedCount() || f.Key() in AfterItem(f, st, x).msg
  {
  }

  /** What was written to the slot last counts. */
  lemma AfterBoth(f: Field, st: DecodeState, x: Value, slot: Slot, fixed: FixedTrack)
    ensures var st1 := AfterItem(f, st, x);
            DecodeState(st1.msg[f.Key() := slot], st1.seen + {f.tag}, fixed) ==
            DecodeState(st.msg[f.Key() := slot], st.seen + {f.tag}, fixed)
  {
    assert st.seen + {f.tag} + {f.tag} == st.seen + {f.tag};
  }

  lemma {:induction false} AfterItemsIs(f: Field, st: DecodeState, xs: seq<Value>, j: nat)
    requires j < |xs| && f.htype.Repeated?
    requires !f.FixedCount() ==> f.Key() in st.msg
    requires !f.FixedCount() ==> ItemCount(f, st) == |ItemsOf(SlotOf(st.msg, f))|
    ensures var slot := SlotOf(st.msg, f);
            var k := ItemCount(f, st);
            AfterItems(f, st, xs, j) ==
            DecodeState(st.msg[f.Key() := Stored(slot, PutAll(ItemsOf(slot), k, xs, j))], st.seen + {f.tag},
                        if f.FixedCount() then Receiving(f, k + |xs| - j) else st.fixed)
    decreases |xs| - j
  {
    var st1 := AfterItem(f, st, xs[j]);
    var slot := SlotOf(st.msg, f);
    var k := ItemCount(f, st);
    var one := Put(ItemsOf(slot), k, xs[j]);
    AfterOneItem(f, st, xs[j]);
    if j + 1 < |xs| {
      AfterItemsIs(f, st1, xs, j + 1);
      var all := PutAll(one, k + 1, xs, j + 1);
      StoredAgain(slot, one, all);
      AfterBoth(f, st, xs[j], Stored(slot, all),
                if f.FixedCount() then Receiving(f, k + 1 + |xs| - (j + 1)) else st1.fixed);
    } else {
      assert PutAll(ItemsOf(slot), k, xs, j) == one;
    }
  }

  // ----- Values and messages -----

  /** What the decoder finds in the storage of a value: array elements as they lie there, other submessages set to their
      defaults. */
  predicate StartsFrom(g: Field, prior: Value, was: Value) {
    g.ltype.LSubmessage? ==> prior == if g.htype.Repeated? then was else DefaultValue(g, was)
  }

  /** A well-formed value whose encoding is short enough for its length to be read back. */
  predicate Encodes(f: Field, v: Value, p: seq<byte>) {
    ValidField(f) && ValueOk(f, v) && EncodeValue(f, v) == Some(p) && |p| < TWO_32
  }

  lemma SameScalar(f: Field, g: Field, s: seq<byte>)
    requires SameField(f, g) && !f.ltype.LSubmessage?
    ensures DecodeScalar(f, s) == DecodeScalar(g, s)
  {
  }

  lemma {:induction false} ValueRoundTrip(
    f: Field, g: Field, v: Value, was: Value, prior: Value, p: seq<byte>, t: seq<byte>)
    requires Encodes(f, v, p) && ValidField(g) && SameField(f, g) && StartsFrom(g, prior, was)
    ensures DecodeValue(g, prior, p + t) == Ok(NormalValue(f, g, v, was), t)
    decreases f.ptr, 0
  {
    if f.ltype.LSubmessage? {
      var b := EncodeMessage(f.ptr.fields, v.slots).value;
      DelimitedRoundTrip(b, t);
      ProjectionRoundTrip(f.ptr.fields, g.ptr.fields, v.slots, SlotsOf(was), b);
    } else {
      ScalarRoundTrip(f, v, t);
      SameScalar(f, g, p + t);
    }
  }

  lemma {:induction false} SameTable(fields: seq<Field>)
    ensures SubSchema(fields, fields)
    decreases fields
  {
    forall j | 0 <= j < |fields|
      ensures Offers(fields, fields[j])
    {
      SameAsItself(fields[j]);
    }
  }

  lemma {:induction false} SameAsItself(f: Field)
    ensures SameField(f, f)
    decreases f
  {
    if f.ptr.Fields? {
      SameTable(f.ptr.fields);
    }
  }

  lemma MessageRoundTrip(fields: seq<Field>, m: Message, was: Message, b: seq<byte>)
    requires ValidSchema(fields) && MessageOk(fields, m)
    requires EncodeMessage(fields, m) == Some(b) && |b| < TWO_32
    ensures Decode(fields, was, b) == Ok(NormalMessage(fields, m, was), [])
  {
    SameTable(fields);
    ProjectionRoundTrip(fields, fields, m, was, b);
  }

  /** A decoder that knows only some of the fields, here and in submessages, gets exactly those. */
  lemma {:induction false} ProjectionRoundTrip(
    fields: seq<Field>, known: seq<Field>, m: Message, was: Message, b: seq<byte>)
    requires ValidSchema(fields) && MessageOk(fields, m)
    requires ValidSchema(known) && SubSchema(known, fields)
    requires EncodeMessage(fields, m) == Some(b) && |b| < TWO_32
    ensures Decode(known, was, b) == Ok(NormalOnto(fields, known, m, was), [])
    decreases fields, 4
  {
    var st := DecodeState(DefaultMessage(known, was), {}, NoFixed);
    var last := LoopRoundTrip(fields, known, m, was, 0, st, b);
    AllRequiredSeen(fields, known, m, was, last);
  }

  /** The records of the fields from `i` on, decoded after those before. */
  lemma {:induction false} LoopRoundTrip(
    fields: seq<Field>, known: seq<Field>, m: Message, was: Message, i: nat, st: DecodeState, s: seq<byte>)
    returns (last: DecodeState)
    requires ValidSchema(fields) && MessageOk(fields, m) && i <= |fields|
    requires ValidSchema(known) && SubSchema(known, fields)
    requires WritesFrom(fields, m, i, s) && |s| < TWO_32
    requires Reached(fields, known, m, was, i, st)
    ensures Reached(fields, known, m, was, |fields|, last)
    ensures DecodeLoop(known, st, s) == Ok(last, [])
    decreases fields, 3, |fields| - i
  {
    if i == |fields| {
      last := st;
    } else {
      var first, rest := FirstAndRest(fields, m, i, s);
      var next := FieldOntoRoundTrip(fields, known, m, was, i, st, first, rest);
      last := LoopRoundTrip(fields, known, m, was, i + 1, next, rest);
    }
  }

  /** The fields from `i` on are written as these bytes. */
  predicate WritesFrom(fields: seq<Field>, m: Message, i: nat, s: seq<byte>)
    requires i <= |fields|
  {
    RecordsFrom(fields, m, i).Some? && s == Flatten(RecordsFrom(fields, m, i).value)
  }

  lemma FirstAndRest(fields: seq<Field>, m: Message, i: nat, s: seq<byte>)
    returns (first: seq<Record>, rest: seq<byte>)
    requires i < |fields| && WritesFrom(fields, m, i, s)
    ensures FieldRecords(fields[i], SlotOf(m, fields[i])) == Some(first) && WritesFrom(fields, m, i + 1, rest)
    ensures s == Flatten(first) + rest && |Flatten(first)| <= |s| && |rest| <= |s|
  {
    first := FieldRecords(fields[i], SlotOf(m, fields[i])).value;
    rest := Flatten(RecordsFrom(fields, m, i + 1).value);
    FlattenAppend(first, RecordsFrom(fields, m, i + 1).value);
  }

  /** The records of one field, for a decoder that may or may not know it. */
  lemma {:induction false} FieldOntoRoundTrip(
    fields: seq<Field>, known: seq<Field>, m: Message, was: Message, i: nat, st: DecodeState,
    rs: seq<Record>, t: seq<byte>)
    returns (next: DecodeState)
    requires ValidSchema(fields) && MessageOk(fields, m) && i < |fields|
    requires ValidSchema(known) && SubSchema(known, fields)
    requires FieldRecords(fields[i], SlotOf(m, fields[i])) == Some(rs) && |Flatten(rs)| < TWO_32
    requires Reached(fields, known, m, was, i, st)
    ensures Reached(fields, known, m, was, i + 1, next)
    ensures DecodeLoop(known, st, Flatten(rs) + t) == DecodeLoop(known, next, t)
    decreases fields, 2
  {
    var f := fields[i];
    var slot := SlotOf(m, f);
    assert SlotOk(f, slot) && ValidField(f);
    if !Emits(f, slot) {
      SilentField(f, slot);
      assert [] + t == t;
      next := st;
      ReachedSilent(fields, known, m, was, i, st);
    } else if !Knows(known, f.tag) {
      SkipRecords(known, f, slot, st, rs, t);
      next := st;
      ReachedUnknown(fields, known, m, was, i, st);
    } else {
      var j := KnownIs(fields, known, i);
      var g, cell := known[j], OldSlot(was, known[j].Key());
      ReachedDefault(fields, known, m, was, i, st, j);
      FieldRoundTrip(f, known, j, st, slot, cell, rs, t);
      next := AfterField(f, g, slot, cell, st);
      ReachedNext(fields, known, m, was, i, st, j);
    }
  }

  lemma SilentField(f: Field, slot: Slot)
    requires !Emits(f, slot) && FieldRecords(f, slot).Some?
    ensures FieldRecords(f, slot).value == [] && Flatten([]) == []
  {
  }

  /** The state after the records of the first `i` fields. */
  predicate Reached(fields: seq<Field>, known: seq<Field>, m: Message, was: Message, i: nat, st: DecodeState)
    requires i <= |fields|
  {
    st.msg == NormalUpTo(fields, known, m, was, i) && FixedComplete(st.fixed) &&
    (st.fixed.Receiving? ==> exists j :: 0 <= j < i && st.fixed.f.tag == fields[j].tag) &&
    (forall j :: 0 <= j < i && fields[j].htype.Required? && Knows(known, fields[j].tag) ==> fields[j].tag in st.seen)
  }

  /** A field whose slot holds its default, in a state in which its records may begin. */
  predicate Ready(fields: seq<Field>, i: nat, was: Slot, st: DecodeState) {
    ValidSchema(fields) && i < |fields| &&
    fields[i].Key() in st.msg && st.msg[fields[i].Key()] == DefaultSlot(fields[i], was) &&
    FixedComplete(st.fixed) && (st.fixed.Receiving? ==> st.fixed.f != fields[i])
  }

  /** The records of `f`, with the contents `slot`, for a decoder that keeps it as field `j` of its table. */
  lemma {:induction false} FieldRoundTrip(
    f: Field, known: seq<Field>, j: nat, st: DecodeState, slot: Slot, was: Slot, rs: seq<Record>, t: seq<byte>)
    requires Ready(known, j, was, st) && SameField(f, known[j])
    requires ValidField(f) && SlotOk(f, slot) && Emits(f, slot)
    requires FieldRecords(f, slot) == Some(rs) && |Flatten(rs)| < TWO_32
    ensures DecodeLoop(known, st, Flatten(rs) + t) == DecodeLoop(known, AfterField(f, known[j], slot, was, st), t)
    decreases f
  {
    var g := known[j];
    assert ValidField(g);
    if !f.htype.Repeated? {
      SingleRoundTrip(f, known, j, st, slot, was, rs, t);
    } else if f.Packable() {
      PackedFieldRoundTrip(f, known, j, st, slot, was, rs, t);
    } else {
      CellsOfDefault(g, was);
      UnpackedRoundTrip(f, known, j, st, slot.items, was, 0, rs, t);
      UnpackedResult(f, g, st, slot, was);
    }
  }

  lemma OneRecordBytes(r: Record)
    ensures Flatten([r]) == RecordBytes(r)
    ensures |r.payload| < |RecordBytes(r)|
  {
    assert [r][1..] == [];
    assert RecordBytes(r) + [] == RecordBytes(r);
  }

  /** Once its tag is read, a record of a known field is up to that field. */
  lemma LoopField(fields: seq<Field>, i: nat, st: DecodeState, r: Record, t: seq<byte>)
    requires ValidSchema(fields) && i < |fields| && r.tag == fields[i].tag && r.wire < 8
    requires !fields[i].FixedCount() || !st.fixed.Receiving? || st.fixed.f == fields[i] || FixedComplete(st.fixed)
    ensures DecodeLoop(fields, st, RecordBytes(r) + t) ==
            var f := fields[i];
            var p := DecodeSlot(f, r.wire, SlotOf(st.msg, f), ItemCount(f, st), r.payload + t);
            if p.Fail? then Fail
            else DecodeLoop(fields, DecodeState(st.msg[f.Key() := p.value.0], st.seen + {f.tag},
                                                if f.FixedCount() then Receiving(f, p.value.1) else st.fixed), p.rest)
  {
    assert ValidField(fields[i]);
    LoopRecord(fields, st, r, t);
    FindIs(fields, 0, i);
  }

  lemma {:induction false} SingleRoundTrip(
    f: Field, known: seq<Field>, j: nat, st: DecodeState, slot: Slot, was: Slot, rs: seq<Record>, t: seq<byte>)
    requires Ready(known, j, was, st) && SameField(f, known[j])
    requires ValidField(f) && SlotOk(f, slot) && !f.htype.Repeated? && Present(f, slot)
    requires FieldRecords(f, slot) == Some(rs) && |Flatten(rs)| < TWO_32
    ensures DecodeLoop(known, st, Flatten(rs) + t) == DecodeLoop(known, AfterField(f, known[j], slot, was, st), t)
    decreases f.ptr, 1
  {
    var g := known[j];
    assert ValidField(g);
    var v, r := Held(slot), rs[0];
    OneRecordBytes(r);
    assert EncodeValue(f, v) == Some(r.payload);
    LoopField(known, j, st, r, t);
    if f.htype.Oneof? {
      ValueRoundTrip(f, g, v, ZeroValue(g), UnionStart(g), r.payload, t);
    } else {
      ValueRoundTrip(f, g, v, Held(was), DefaultValue(g, Held(was)), r.payload, t);
    }
  }

  lemma {:induction false} PackedRoundTrip(f: Field, cur: seq<Value>, k: nat, items: seq<Value>, j: nat)
    requires ValidField(f) && f.Packable() && j <= |items| && k + (|items| - j) <= f.arraySize
    requires forall i :: 0 <= i < |items| ==> ValueOk(f, items[i])
    ensures EncodePacked(f, items, j).Some?
    ensures DecodePacked(f, cur, k, EncodePacked(f, items, j).value) ==
            Some((PutAll(cur, k, items, j), k + (|items| - j)))
    decreases |items| - j
  {
    if j < |items| {
      PackedRoundTrip(f, Put(cur, k, items[j]), k + 1, items, j + 1);
      ScalarRoundTrip(f, items[j], EncodePacked(f, items, j + 1).value);
      ScalarNotEmpty(f, items[j]);
    }
  }

  lemma ScalarNotEmpty(f: Field, v: Value)
    requires f.Packable() && EncodeScalar(f, v).Some?
    ensures EncodeScalar(f, v).value != []
  {
  }

  /** A packed record replaces the elements of an empty array, or of a fixed-count one. */
  lemma PackedSlot(f: Field, slot: Slot, items: seq<Value>, t: seq<byte>)
    requires ValidField(f) && f.Packable() && f.htype.Repeated?
    requires ItemsOf(slot) == [] || |ItemsOf(slot)| == |items|
    requires |items| <= f.arraySize && forall i :: 0 <= i < |items| ==> ValueOk(f, items[i])
    requires EncodePacked(f, items, 0).Some? && |EncodePacked(f, items, 0).value| < TWO_32
    ensures DecodeSlot(f, WT_STRING, slot, 0, Prefixed(EncodePacked(f, items, 0).value) + t) ==
            Ok((Stored(slot, items), |items|), t)
  {
    var p := EncodePacked(f, items, 0).value;
    DelimitedRoundTrip(p, t);
    PackedRoundTrip(f, ItemsOf(slot), 0, items, 0);
    assert Delimited(Prefixed(p) + t) == Ok(p, t);
    PutAllIs(ItemsOf(slot), items, 0);
  }

  lemma {:induction false} PackedFieldRoundTrip(
    f: Field, known: seq<Field>, j: nat, st: DecodeState, slot: Slot, was: Slot, rs: seq<Record>, t: seq<byte>)
    requires Ready(known, j, was, st) && SameField(f, known[j])
    requires ValidField(f) && SlotOk(f, slot) && f.htype.Repeated? && f.Packable() && ItemsOf(slot) != []
    requires FieldRecords(f, slot) == Some(rs) && |Flatten(rs)| < TWO_32
    ensures DecodeLoop(known, st, Flatten(rs) + t) == DecodeLoop(known, AfterField(f, known[j], slot, was, st), t)
  {
    var g, items := known[j], slot.items;
    assert ValidField(g);
    OneRecordBytes(rs[0]);
    LoopField(known, j, st, rs[0], t);
    SamePacked(f, g, items, 0);
    PackedSlot(g, DefaultSlot(g, was), items, t);
    PackedIsNormal(f, g, items, was);
    DefaultStored(g, was, items);
  }

  lemma {:induction false} SamePacked(f: Field, g: Field, items: seq<Value>, i: nat)
    requires SameField(f, g) && f.Packable() && i <= |items|
    ensures EncodePacked(f, items, i) == EncodePacked(g, items, i)
    ensures forall v :: ValueOk(f, v) <==> ValueOk(g, v)
    decreases |items| - i
  {
    if i < |items| {
      SamePacked(f, g, items, i + 1);
    }
  }

  lemma PackedIsNormal(f: Field, g: Field, items: seq<Value>, was: Slot)
    requires f.Packable()
    ensures NormalItems(f, g, items, was) == items
  {
  }

  /** Setting an array to its default leaves its storage alone. */
  lemma CellsOfDefault(f: Field, was: Slot)
    requires f.htype.Repeated?
    ensures forall k :: 0 <= k < f.arraySize ==> Cell(DefaultSlot(f, was), k) == Cell(was, k)
  {
    forall k | 0 <= k < f.arraySize
      ensures Cell(DefaultSlot(f, was), k) == Cell(was, k)
    {
      if f.HasSize() {
        CellBehind(was, [], k);
      }
    }
  }

  lemma DefaultStored(f: Field, was: Slot, items: seq<Value>)
    requires f.htype.Repeated? && (f.FixedCount() ==> |items| == f.arraySize)
    ensures Stored(DefaultSlot(f, was), items) == Stored(was, items)
  {
    StoredAgain(was, ItemsOf(DefaultSlot(f, was)), items);
  }

  /** A state in which array elements may come in for field `x`, with `j` of them present. */
  predicate Receives(known: seq<Field>, x: nat, st: DecodeState, j: nat) {
    ValidSchema(known) && x < |known| && known[x].htype.Repeated? &&
    var g := known[x];
    (!g.FixedCount() || !st.fixed.Receiving? || st.fixed.f == g || FixedComplete(st.fixed)) &&
    g.Key() in st.msg && st.msg[g.Key()].Items? && ItemCount(g, st) == j <= |st.msg[g.Key()].items|
  }

  lemma {:induction false} ElementRoundTrip(
    f: Field, known: seq<Field>, x: nat, st: DecodeState, j: nat, v: Value, r: Record, t: seq<byte>)
    requires Receives(known, x, st, j) && SameField(f, known[x]) && !f.Packable() && j < f.arraySize
    requires ValidField(f) && ValueOk(f, v) && OneRecord(f, v) == Some([r]) && |r.payload| < TWO_32
    ensures var g := known[x];
            DecodeLoop(known, st, RecordBytes(r) + t) ==
            DecodeLoop(known, AfterItem(g, st, NormalValue(f, g, v, Cell(st.msg[g.Key()], j))), t)
    decreases f.ptr, 1
  {
    var g := known[x];
    assert ValidField(g);
    LoopField(known, x, st, r, t);
    ValueRoundTrip(f, g, v, Cell(st.msg[g.Key()], j), Cell(st.msg[g.Key()], j), r.payload, t);
  }

  lemma AfterReceives(known: seq<Field>, x: nat, st: DecodeState, j: nat, v: Value)
    requires Receives(known, x, st, j)
    ensures Receives(known, x, AfterItem(known[x], st, v), j + 1)
  {
  }

  lemma {:induction false} UnpackedRoundTrip(
    f: Field, known: seq<Field>, x: nat, st: DecodeState, items: seq<Value>, was: Slot, j: nat,
    rs: seq<Record>, t: seq<byte>)
    requires Receives(known, x, st, j) && SameField(f, known[x]) && !f.Packable()
    requires ValidField(f) && j <= |items| <= f.arraySize
    requires forall i :: 0 <= i < |items| ==> ValueOk(f, items[i])
    requires UnpackedRecords(f, items, j) == Some(rs) && |Flatten(rs)| < TWO_32
    requires forall k :: j <= k < |items| ==> Cell(st.msg[known[x].Key()], k) == Cell(was, k)
    ensures DecodeLoop(known, st, Flatten(rs) + t) ==
            DecodeLoop(known, AfterItems(known[x], st, NormalItems(f, known[x], items, was), j), t)
    decreases f.ptr, 2, |items| - j
  {
    if j == |items| {
      assert rs == [] && [] + t == t;
    } else {
      var g, r := known[x], rs[0];
      var rest := UnpackedRecords(f, items, j + 1).value;
      RecordAndRest(r, rest, t);
      assert rs == [r] + rest;
      ElementRoundTrip(f, known, x, st, j, items[j], r, Flatten(rest) + t);
      var v := NormalItems(f, g, items, was)[j];
      AfterReceives(known, x, st, j, v);
      CellsAfterItem(g, st, v, items, was, j);
      UnpackedRoundTrip(f, known, x, AfterItem(g, st, v), items, was, j + 1, rest, t);
    }
  }

  lemma RecordAndRest(r: Record, rest: seq<Record>, t: seq<byte>)
    ensures Flatten([r] + rest) + t == RecordBytes(r) + (Flatten(rest) + t)
    ensures |r.payload| + |Flatten(rest)| < |Flatten([r] + rest)|
  {
    OneRecordBytes(r);
    FlattenAppend([r], rest);
  }

  lemma CellsAfterItem(g: Field, st: DecodeState, v: Value, items: seq<Value>, was: Slot, j: nat)
    requires g.Key() in st.msg && st.msg[g.Key()].Items?
    requires ItemCount(g, st) == j <= |st.msg[g.Key()].items|
    requires forall k :: j <= k < |items| ==> Cell(st.msg[g.Key()], k) == Cell(was, k)
    ensures forall k :: j + 1 <= k < |items| ==> Cell(AfterItem(g, st, v).msg[g.Key()], k) == Cell(was, k)
  {
    forall k | j + 1 <= k < |items|
      ensures Cell(AfterItem(g, st, v).msg[g.Key()], k) == Cell(was, k)
    {
      CellAfterPut(st.msg[g.Key()], j, v, k);
    }
  }

  lemma UnpackedResult(f: Field, g: Field, st: DecodeState, slot: Slot, was: Slot)
    requires SameField(f, g) && f.htype.Repeated? && slot.Items? && slot.items != []
    requires g.Key() in st.msg && st.msg[g.Key()] == DefaultSlot(g, was)
    requires g.FixedCount() ==> |slot.items| == g.arraySize && (st.fixed.Receiving? ==> st.fixed.f != g)
    ensures AfterItems(g, st, NormalItems(f, g, slot.items, was), 0) == AfterField(f, g, slot, was, st)
  {
    var xs := NormalItems(f, g, slot.items, was);
    AfterItemsIs(g, st, xs, 0);
    PutAllIs(ItemsOf(DefaultSlot(g, was)), xs, 0);
    DefaultStored(g, was, xs);
  }

  // ----- Untouched slots keep their defaults -----

  lemma {:induction false} DefaultsHold(fields: seq<Field>, was: Message, n: nat, i: nat)
    requires ValidSchema(fields) && i < n <= |fields|
    ensures var k := fields[i].Key();
            k in DefaultsUpTo(fields, was, n) &&
            DefaultsUpTo(fields, was, n)[k] == DefaultSlot(fields[i], OldSlot(was, k))
    decreases n
  {
    if i < n - 1 {
      DefaultsHold(fields, was, n - 1, i);
      assert fields[i].tag != fields[n - 1].tag;
    }
  }

  lemma {:induction false} UntouchedSlot(
    fields: seq<Field>, known: seq<Field>, m: Message, was: Message, n: nat, k: Key)
    requires n <= |fields|
    requires forall j :: 0 <= j < n && fields[j].Key() == k ==>
               !Knows(known, fields[j].tag) || !Emits(fields[j], SlotOf(m, fields[j]))
    ensures k in NormalUpTo(fields, known, m, was, n) <==> k in DefaultMessage(known, was)
    ensures k in DefaultMessage(known, was) ==>
              NormalUpTo(fields, known, m, was, n)[k] == DefaultMessage(known, was)[k]
    decreases n
  {
    if n > 0 {
      UntouchedSlot(fields, known, m, was, n - 1, k);
    }
  }

  /** Distinct fields with one slot are members of a union, and only one of them can be selected. */
  lemma OnlyOneEmits(fields: seq<Field>, m: Message, i: nat, j: nat)
    requires ValidSchema(fields) && i < |fields| && j < |fields| && i != j
    requires fields[i].Key() == fields[j].Key()
    requires Emits(fields[i], SlotOf(m, fields[i])) && fields[i].Key() in m
    ensures !Emits(fields[j], SlotOf(m, fields[j]))
  {
    assert fields[i].tag != fields[j].tag;
  }

  lemma ReachedDefault(
    fields: seq<Field>, known: seq<Field>, m: Message, was: Message, i: nat, st: DecodeState, j: nat)
    requires ValidSchema(fields) && MessageOk(fields, m) && i < |fields|
    requires ValidSchema(known) && j < |known| && SameField(fields[i], known[j])
    requires Reached(fields, known, m, was, i, st)
    requires Emits(fields[i], SlotOf(m, fields[i]))
    ensures Ready(known, j, OldSlot(was, known[j].Key()), st)
  {
    var f := fields[i];
    DefaultsHold(known, was, |known|, j);
    forall x | 0 <= x < i && fields[x].Key() == f.Key()
      ensures !Emits(fields[x], SlotOf(m, fields[x]))
    {
      OnlyOneEmits(fields, m, i, x);
    }
    UntouchedSlot(fields, known, m, was, i, f.Key());
    if st.fixed.Receiving? {
      var x :| 0 <= x < i && st.fixed.f.tag == fields[x].tag;
      assert fields[x].tag != f.tag;
    }
  }

  lemma ReachedSilent(fields: seq<Field>, known: seq<Field>, m: Message, was: Message, i: nat, st: DecodeState)
    requires i < |fields| && Reached(fields, known, m, was, i, st)
    requires !Emits(fields[i], SlotOf(m, fields[i]))
    ensures Reached(fields, known, m, was, i + 1, st)
  {
    if st.fixed.Receiving? {
      var x :| 0 <= x < i && st.fixed.f.tag == fields[x].tag;
    }
  }

  lemma ReachedUnknown(fields: seq<Field>, known: seq<Field>, m: Message, was: Message, i: nat, st: DecodeState)
    requires i < |fields| && Reached(fields, known, m, was, i, st)
    requires !Knows(known, fields[i].tag)
    ensures Reached(fields, known, m, was, i + 1, st)
  {
    if st.fixed.Receiving? {
      var x :| 0 <= x < i && st.fixed.f.tag == fields[x].tag;
    }
  }

  lemma ReachedNext(
    fields: seq<Field>, known: seq<Field>, m: Message, was: Message, i: nat, st: DecodeState, j: nat)
    requires ValidSchema(fields) && MessageOk(fields, m) && i < |fields|
    requires j < |known| && SameField(fields[i], known[j]) && Find(known, fields[i].tag) == Some(known[j])
    requires Reached(fields, known, m, was, i, st)
    requires Emits(fields[i], SlotOf(m, fields[i]))
    ensures var f := fields[i];
            Reached(fields, known, m, was, i + 1,
                    AfterField(f, known[j], SlotOf(m, f), OldSlot(was, known[j].Key()), st))
  {
    var f, slot := fields[i], SlotOf(m, fields[i]);
    assert SlotOk(f, slot) && f.Key() == known[j].Key();
    if st.fixed.Receiving? {
      var x :| 0 <= x < i && st.fixed.f.tag == fields[x].tag;
    }
  }

  lemma AllRequiredSeen(fields: seq<Field>, known: seq<Field>, m: Message, was: Message, st: DecodeState)
    requires ValidSchema(known) && SubSchema(known, fields) && Reached(fields, known, m, was, |fields|, st)
    ensures RequiredSeen(known, st.seen)
  {
    forall j | 0 <= j < |known| && known[j].htype.Required?
      ensures known[j].tag in st.seen
    {
      assert Offers(fields, known[j]);
      var i :| 0 <= i < |fields| && SameField(fields[i], known[j]);
      assert ValidField(known[j]);
      FindIs(known, 0, j);
    }
  }

  // ----- Dropped fields -----

  lemma KnownIs(fields: seq<Field>, known: seq<Field>, i: nat) returns (j: nat)
    requires ValidSchema(fields) && ValidSchema(known) && SubSchema(known, fields)
    requires i < |fields| && Knows(known, fields[i].tag)
    ensures j < |known| && SameField(fields[i], known[j]) && Find(known, fields[i].tag) == Some(known[j])
  {
    j := FoundAt(known, fields[i].tag, 0);
    assert Offers(fields, known[j]);
    var x :| 0 <= x < |fields| && SameField(fields[x], known[j]);
    SameTagSameField(fields, i, x);
  }

  lemma {:induction false} FoundAt(known: seq<Field>, tag: nat, i: nat) returns (j: nat)
    requires i <= |known| && FindFrom(known, tag, i).Some?
    ensures i <= j < |known| && known[j].tag == tag && FindFrom(known, tag, i) == Some(known[j])
    decreases |known| - i
  {
    if known[i].tag == tag && !known[i].ltype.LExtension? {
      j := i;
    } else {
      j := FoundAt(known, tag, i + 1);
    }
  }

  lemma SameTagSameField(fields: seq<Field>, i: nat, x: nat)
    requires DistinctTags(fields) && i < |fields| && x < |fields| && fields[i].tag == fields[x].tag
    ensures i == x
  {
  }

  // ----- Skipping -----

  /** A payload that is exactly one value of its wire type. */
  predicate CompletePayload(wire: nat, p: seq<byte>) {
    SkipField(wire, p) == Ok((), [])
  }

  lemma SkipComplete(wire: nat, p: seq<byte>, t: seq<byte>)
    requires CompletePayload(wire, p)
    ensures SkipField(wire, p + t) == Ok((), t)
  {
    assert [] + t == t;
    if wire == WT_VARINT {
      SkipVarintLocal(p, t);
    } else if wire == WT_STRING {
      DelimitedLocal(p, t);
    } else {
      assert (p + t)[|p|..] == t;
    }
  }

  lemma TakeLocal(s: seq<byte>, t: seq<byte>, n: nat)
    ensures Extends(Take(s, n), Take(s + t, n), t)
  {
    if n <= |s| {
      assert (s + t)[..n] == s[..n] && (s + t)[n..] == s[n..] + t;
    }
  }

  lemma DelimitedLocal(s: seq<byte>, t: seq<byte>)
    ensures Extends(Delimited(s), Delimited(s + t), t)
  {
    Varint32Local(s, t);
    if Varint32(s).Ok? {
      TakeLocal(Varint32(s).rest, t, Varint32(s).value);
    }
  }

  lemma ScalarComplete(f: Field, v: Value)
    requires EncodeScalar(f, v).Some? && |EncodeScalar(f, v).value| < TWO_32
    ensures CompletePayload(WireType(f).value, EncodeScalar(f, v).value)
  {
    var p := EncodeScalar(f, v).value;
    assert p + [] == p;
    match f.ltype {
      case LBool => SkipEncoded(if IntOf(v) != 0 then 1 else 0, []);
      case LVarint | LUVarint => SkipEncoded(IntOf(v) % TWO_64, []);
      case LSVarint => SkipEncoded(ZigZag(IntOf(v)), []);
      case LFixed32 =>
      case LFixed64 =>
      case LBytes | LFixedLengthBytes => DelimitedRoundTrip(v.bytes, []);
      case LString => DelimitedRoundTrip(v.bytes[..StringLength(v.bytes, f.dataSize)], []);
    }
  }

  lemma ValueComplete(f: Field, v: Value)
    requires EncodeValue(f, v).Some? && |EncodeValue(f, v).value| < TWO_32
    ensures WireType(f).Some? && CompletePayload(WireType(f).value, EncodeValue(f, v).value)
  {
    if f.ltype.LSubmessage? {
      var b := EncodeMessage(f.ptr.fields, v.slots).value;
      assert Prefixed(b) + [] == Prefixed(b);
      DelimitedRoundTrip(b, []);
    } else {
      ScalarComplete(f, v);
    }
  }

  lemma SkipRecord(known: seq<Field>, st: DecodeState, r: Record, t: seq<byte>)
    requires 1 <= r.tag < TAG_LIMIT && r.wire < 8 && !Knows(known, r.tag)
    requires CompletePayload(r.wire, r.payload)
    ensures DecodeLoop(known, st, RecordBytes(r) + t) == DecodeLoop(known, st, t)
  {
    LoopRecord(known, st, r, t);
    SkipComplete(r.wire, r.payload, t);
  }

  /** All records of a field that the decoder does not know are stepped over. */
  lemma SkipRecords(known: seq<Field>, f: Field, slot: Slot, st: DecodeState, rs: seq<Record>, t: seq<byte>)
    requires ValidField(f) && !Knows(known, f.tag)
    requires FieldRecords(f, slot) == Some(rs) && |Flatten(rs)| < TWO_32
    ensures DecodeLoop(known, st, Flatten(rs) + t) == DecodeLoop(known, st, t)
  {
    if rs == [] {
      assert [] + t == t;
    } else if !f.htype.Repeated? {
      OneRecordBytes(rs[0]);
      ValueComplete(f, Held(slot));
      SkipRecord(known, st, rs[0], t);
    } else if f.Packable() {
      var p := EncodePacked(f, ItemsOf(slot), 0).value;
      OneRecordBytes(rs[0]);
      assert Prefixed(p) + [] == Prefixed(p);
      DelimitedRoundTrip(p, []);
      SkipRecord(known, st, rs[0], t);
    } else {
      SkipUnpacked(known, f, ItemsOf(slot), 0, st, rs, t);
    }
  }

  lemma {:induction false} SkipUnpacked(
    known: seq<Field>, f: Field, items: seq<Value>, j: nat, st: DecodeState, rs: seq<Record>, t: seq<byte>)
    requires ValidField(f) && !Knows(known, f.tag) && j <= |items|
    requires UnpackedRecords(f, items, j) == Some(rs) && |Flatten(rs)| < TWO_32
    ensures DecodeLoop(known, st, Flatten(rs) + t) == DecodeLoop(known, st, t)
    decreases |items| - j
  {
    if j == |items| {
      assert [] + t == t;
    } else {
      var r := rs[0];
      var rest := UnpackedRecords(f, items, j + 1).value;
      assert rs == [r] + rest;
      OneRecordBytes(r);
      FlattenAppend([r], rest);
      ValueComplete(f, items[j]);
      assert Flatten(rs) + t == RecordBytes(r) + (Flatten(rest) + t);
      SkipRecord(known, st, r, Flatten(rest) + t);
      SkipUnpacked(known, f, items, j + 1, st, rest, t);
    }
  }
}
