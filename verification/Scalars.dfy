/** What the decoder makes of a record of a known field that is not a submessage: the numbers and bytes that it stores,
    and those that it rejects. */
module Scalars {
  import opened Bytes
  import opened Varint
  import opened Schema
  import opened DecodeSpec
  import opened WellFormed
  import opened RoundTrip
  import opened Wire

  /** The slot of a field holds this value: in a union, as its selected member. */
  predicate Holds(f: Field, slot: Slot, v: Value) {
    match slot
    case Single(x) => x == v && (f.htype.Required? || (f.htype.Optional? && f.sizeOffset == 0))
    case Flagged(_, x) => x == v && f.htype.Optional? && f.sizeOffset != 0
    case Union(which, x) => x == v && f.htype.Oneof? && which == f.tag
    case Items(_, _) => false
  }

  /** The slot of a field that has come in with this value; of an array, its only element. */
  function SlotWith(f: Field, v: Value): Slot {
    match f.htype
    case Required => Single(v)
    case Optional => if f.sizeOffset != 0 then Flagged(true, v) else Single(v)
    case Repeated => Items([v], [])
    case Oneof => Union(f.tag, v)
  }

  /** The state once a field that is not an array has come in with this value. */
  function With(st: DecodeState, f: Field, v: Value): DecodeState {
    DecodeState(st.msg[f.Key() := SlotWith(f, v)], st.seen + {f.tag}, st.fixed)
  }

  /** The decoding loop on a record of field `i`, `s` being what follows its tag; the wire type is not looked at. */
  function LoopOn(fields: seq<Field>, i: nat, st: DecodeState, wire: nat, s: seq<byte>): Parse<DecodeState>
    requires i < |fields|
  {
    DecodeLoop(fields, st, EncodeVarint(8 * fields[i].tag + wire) + s)
  }

  /** It stores a value and goes on with `t`, if the value fits. */
  function Goes(fields: seq<Field>, i: nat, st: DecodeState, ok: bool, v: Value, t: seq<byte>): Parse<DecodeState>
    requires i < |fields|
  {
    if ok then DecodeLoop(fields, With(st, fields[i], v), t) else Fail
  }

  /** A field that is no array and no submessage. */
  predicate IsScalar(fields: seq<Field>, i: nat) {
    ValidSchema(fields) && i < |fields| && !fields[i].htype.Repeated? && !fields[i].ltype.LSubmessage?
  }

  lemma ScalarRecord(fields: seq<Field>, i: nat, st: DecodeState, wire: nat, s: seq<byte>)
    requires IsScalar(fields, i) && wire < 8
    ensures LoopOn(fields, i, st, wire, s) ==
            var p := DecodeScalar(fields[i], s);
            if p.Fail? then Fail else DecodeLoop(fields, With(st, fields[i], p.value), p.rest)
  {
    KnownRecord(fields, i, st, wire, s);
    SlotIsWith(fields[i], wire, SlotOf(st.msg, fields[i]), ItemCount(fields[i], st), st, s);
  }

  lemma KnownRecord(fields: seq<Field>, i: nat, st: DecodeState, wire: nat, s: seq<byte>)
    requires ValidSchema(fields) && i < |fields| && wire < 8
    ensures LoopOn(fields, i, st, wire, s) ==
            var p := DecodeField(st, fields[i], wire, s);
            if p.Fail? then Fail else DecodeLoop(fields, p.value, p.rest)
  {
    var f := fields[i];
    assert ValidField(f);
    TagRoundTrip(f.tag, wire, s);
    FindIs(fields, 0, i);
    assert DecodeRecord(fields, st, wire, f.tag, s) == DecodeField(st, f, wire, s);
  }

  lemma SlotIsWith(f: Field, wire: nat, slot: Slot, k: nat, st: DecodeState, s: seq<byte>)
    requires !f.htype.Repeated? && !f.ltype.LSubmessage?
    ensures DecodeSlot(f, wire, slot, k, s) ==
            var p := DecodeScalar(f, s);
            if p.Fail? then Fail else Ok((With(st, f, p.value).msg[f.Key()], k), p.rest)
  {
    forall prior
      ensures DecodeValue(f, prior, s) == DecodeScalar(f, s)
    {
    }
  }

  /** The number of values of an integer of `size` bytes. */
  function Limit(size: nat): int {
    if size == 1 then 0x100
    else if size == 2 then 0x1_0000
    else if size == 4 then 0x1_0000_0000
    else 0x1_0000_0000_0000_0000
  }

  /** A bool is whether the number that came in is not zero. */
  lemma ReadsBool(fields: seq<Field>, i: nat, st: DecodeState, wire: nat, n: nat, t: seq<byte>)
    requires IsScalar(fields, i) && fields[i].ltype.LBool? && wire < 8 && n < 0x1_0000_0000
    ensures LoopOn(fields, i, st, wire, EncodeVarint(n) + t) ==
            Goes(fields, i, st, true, Int(if n == 0 then 0 else 1), t)
  {
    ScalarRecord(fields, i, st, wire, EncodeVarint(n) + t);
    SmallIsRead(n, t);
  }

  /** An unsigned number has to fit its field. */
  lemma ReadsUnsigned(fields: seq<Field>, i: nat, st: DecodeState, wire: nat, n: nat, t: seq<byte>)
    requires IsScalar(fields, i) && fields[i].ltype.LUVarint? && wire < 8 && n < 0x1_0000_0000_0000_0000
    ensures LoopOn(fields, i, st, wire, EncodeVarint(n) + t) ==
            Goes(fields, i, st, n < Limit(fields[i].dataSize), Int(n), t)
  {
    assert ValidField(fields[i]);
    ScalarRecord(fields, i, st, wire, EncodeVarint(n) + t);
    VarintRoundTrip(n, t);
  }

  /** `n` as a signed number of as many values as `limit`. */
  function Signed(n: nat, limit: nat): int {
    if 2 * n < limit then n else n - limit
  }

  /** So has a signed one. What came in counts as a 64-bit number in a field of eight bytes; for smaller fields its
      upper half is dropped first. */
  lemma ReadsSigned(fields: seq<Field>, i: nat, st: DecodeState, wire: nat, n: nat, t: seq<byte>)
    requires IsScalar(fields, i) && fields[i].ltype.LVarint? && wire < 8 && n < 0x1_0000_0000_0000_0000
    ensures var size := fields[i].dataSize;
            var x := if size == 8 then Signed(n, 0x1_0000_0000_0000_0000)
                     else Signed(n % 0x1_0000_0000, 0x1_0000_0000);
            LoopOn(fields, i, st, wire, EncodeVarint(n) + t) ==
            Goes(fields, i, st, -Limit(size) <= 2 * x < Limit(size), Int(x), t)
  {
    assert ValidField(fields[i]);
    ScalarRecord(fields, i, st, wire, EncodeVarint(n) + t);
    VarintRoundTrip(n, t);
  }

  /** In zigzag form 0, 1, 2, 3, ... stand for 0, -1, 1, -2, ... */
  lemma ReadsZigZag(fields: seq<Field>, i: nat, st: DecodeState, wire: nat, n: nat, t: seq<byte>)
    requires IsScalar(fields, i) && fields[i].ltype.LSVarint? && wire < 8 && n < 0x1_0000_0000_0000_0000
    ensures var size := fields[i].dataSize;
            var x := if n % 2 == 1 then -(n / 2) - 1 else n / 2;
            LoopOn(fields, i, st, wire, EncodeVarint(n) + t) ==
            Goes(fields, i, st, -Limit(size) <= 2 * x < Limit(size), Int(x), t)
  {
    assert ValidField(fields[i]);
    ScalarRecord(fields, i, st, wire, EncodeVarint(n) + t);
    VarintRoundTrip(n, t);
    ZigZagIs(0, n);
  }

  /** Fixed-width numbers have their lowest byte first. */
  lemma ReadsFixed(fields: seq<Field>, i: nat, st: DecodeState, wire: nat, b: seq<byte>, t: seq<byte>)
    requires IsScalar(fields, i) && wire < 8
    ensures fields[i].ltype.LFixed32? && |b| == 4 ==>
              LoopOn(fields, i, st, wire, b + t) ==
              Goes(fields, i, st, true, Int(OfFourBytes(b[0], b[1], b[2], b[3])), t)
    ensures fields[i].ltype.LFixed32? && |b| < 4 ==> LoopOn(fields, i, st, wire, b) == Fail
    ensures fields[i].ltype.LFixed64? && |b| == 8 ==>
              LoopOn(fields, i, st, wire, b + t) ==
              Goes(fields, i, st, true,
                   Int(OfFourBytes(b[0], b[1], b[2], b[3]) + 0x1_0000_0000 * OfFourBytes(b[4], b[5], b[6], b[7])), t)
    ensures fields[i].ltype.LFixed64? && |b| < 8 ==> LoopOn(fields, i, st, wire, b) == Fail
  {
    ScalarRecord(fields, i, st, wire, b + t);
    ScalarRecord(fields, i, st, wire, b);
    FromLittleEndianIs(b);
    assert (b + t)[..|b|] == b && (b + t)[|b|..] == t;
  }

  /** Bytes have to fit the buffer of their field behind its four-byte count, a string with its NUL, and bytes of a
      fixed length have to be just as many; for none of those, zeros are stored. */
  lemma ReadsData(fields: seq<Field>, i: nat, st: DecodeState, wire: nat, n: nat, t: seq<byte>)
    requires IsScalar(fields, i) && wire < 8 && n < 0x1_0000_0000
    requires fields[i].ltype in {LBytes, LString, LFixedLengthBytes}
    ensures var f := fields[i];
            var ok := match f.ltype
                      case LBytes => n + 4 <= f.dataSize
                      case LString => n + 1 <= f.dataSize
                      case _ => n == f.dataSize;
            LoopOn(fields, i, st, wire, EncodeVarint(n) + t) ==
            if f.ltype.LFixedLengthBytes? && n == 0 then Goes(fields, i, st, true, Data(seq(f.dataSize, _ => 0)), t)
            else if n <= |t| then Goes(fields, i, st, ok, Data(t[..n]), t[n..])
            else Fail
  {
    assert ValidField(fields[i]);
    ScalarRecord(fields, i, st, wire, EncodeVarint(n) + t);
    SmallIsRead(n, t);
    assert Zeros(fields[i].dataSize) == seq(fields[i].dataSize, _ => 0);
  }

  /** Of two records of a field, the last one counts. */
  lemma LastOneCounts(st: DecodeState, f: Field, v: Value, w: Value)
    ensures With(With(st, f, v), f, w) == With(st, f, w)
  {
    assert st.seen + {f.tag} + {f.tag} == st.seen + {f.tag};
  }
}
