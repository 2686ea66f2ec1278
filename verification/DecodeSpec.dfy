/** What the decoder computes, as functions from the bytes left in the stream. */
module DecodeSpec {
  import opened Bytes
  import opened Varint
  import opened Schema

  // ----- Wire types and payloads -----

  const WT_VARINT: nat := 0
  const WT_64BIT: nat := 1
  const WT_STRING: nat := 2
  const WT_32BIT: nat := 5

  function Take(s: seq<byte>, n: nat): (p: Parse<seq<byte>>)
    ensures p.Ok? ==> |p.rest| == |s| - n && |p.value| == n
  {
    if n <= |s| then Ok(s[..n], s[n..]) else Fail
  }

  /** A length prefix and as many bytes. */
  function Delimited(s: seq<byte>): (p: Parse<seq<byte>>)
    ensures p.Ok? ==> |p.rest| < |s| && |p.value| < |s|
  {
    var n := Varint32(s);
    if n.Fail? then Fail else Take(n.rest, n.value)
  }

  function Skipped(p: Parse<seq<byte>>): (q: Parse<()>)
    ensures q.Ok? <==> p.Ok?
    ensures p.Ok? ==> q.rest == p.rest
  {
    if p.Ok? then Ok((), p.rest) else Fail
  }

  function SkipField(wire: nat, s: seq<byte>): (p: Parse<()>)
    ensures p.Ok? ==> |p.rest| < |s|
  {
    if wire == WT_VARINT then SkipVarint(s)
    else if wire == WT_64BIT then Skipped(Take(s, 8))
    else if wire == WT_STRING then Skipped(Delimited(s))
    else if wire == WT_32BIT then Skipped(Take(s, 4))
    else Fail
  }

  /** The start of a record. A zero in place of a tag ends the message. */
  datatype TagParse = EndOfMessage(rest: seq<byte>) | BadTag | Tag(wire: nat, tag: nat, rest: seq<byte>)

  function DecodeTag(s: seq<byte>): (p: TagParse)
    ensures p.EndOfMessage? ==> |p.rest| <= |s|
    ensures p.Tag? ==> |p.rest| < |s|
  {
    if s == [] then EndOfMessage(s)
    else
      var n := Varint32(s);
      if n.Fail? then BadTag
      else if n.value == 0 then EndOfMessage(n.rest)
      else Tag(n.value % 8, n.value / 8, n.rest)
  }

  // ----- Scalars -----

  predicate SignedFits(x: int, size: nat) {
    if size == 8 then -TWO_63 <= x < TWO_63
    else if size == 4 then -TWO_31 <= x < TWO_31
    else if size == 2 then -0x8000 <= x < 0x8000
    else size == 1 && -0x80 <= x < 0x80
  }

  predicate UnsignedFits(x: int, size: nat) {
    if size == 8 then 0 <= x < TWO_64
    else if size == 4 then 0 <= x < TWO_32
    else if size == 2 then 0 <= x < 0x1_0000
    else size == 1 && 0 <= x < 0x100
  }

  /** An int32 or int64 field. Fields of up to 32 bits first drop the upper half of what was read. */
  function SignedValue(v: nat, size: nat): int {
    if size == 8 then TwosComplement(v, TWO_63) else TwosComplement(v % TWO_32, TWO_31)
  }

  function Checked(ok: bool, v: Value, rest: seq<byte>): Parse<Value> {
    if ok then Ok(v, rest) else Fail
  }

  function DecodeInteger(f: Field, s: seq<byte>): (p: Parse<Value>)
    ensures p.Ok? ==> |p.rest| < |s|
  {
    var v := Varint64From(s, 0, 0);
    if v.Fail? then Fail
    else if f.ltype.LVarint? then
      var x := SignedValue(v.value, f.dataSize);
      Checked(SignedFits(x, f.dataSize), Int(x), v.rest)
    else if f.ltype.LUVarint? then
      Checked(UnsignedFits(v.value, f.dataSize), Int(v.value), v.rest)
    else
      var x := UnZigZag(v.value);
      Checked(SignedFits(x, f.dataSize), Int(x), v.rest)
  }

  function FixedValue(p: Parse<seq<byte>>): Parse<Value> {
    if p.Fail? then Fail else Ok(Int(FromLittleEndian(p.value)), p.rest)
  }

  function DataValue(p: Parse<seq<byte>>): Parse<Value> {
    if p.Fail? then Fail else Ok(Data(p.value), p.rest)
  }

  /** sizeof(pb_size_t), the size prefix of a pb_bytes_array_t. */
  const BYTES_HEADER: nat := 4

  /** Whether `n` bytes fit into the storage of a bytes, string or fixed-length-bytes field. */
  predicate LengthFits(f: Field, n: nat) {
    match f.ltype
    case LBytes => n + BYTES_HEADER <= f.dataSize
    case LString => n + 1 < TWO_32 && n + 1 <= f.dataSize
    case _ => n == f.dataSize
  }

  function Zeros(n: nat): (s: seq<byte>)
    ensures |s| == n
  {
    seq(n, i => 0)
  }

  function DecodeData(f: Field, s: seq<byte>): (p: Parse<Value>)
    ensures p.Ok? ==> |p.rest| < |s|
  {
    var n := Varint32(s);
    if n.Fail? then Fail
    else if f.ltype.LFixedLengthBytes? && n.value == 0 then Ok(Data(Zeros(f.dataSize)), n.rest)
    else if !LengthFits(f, n.value) then Fail
    else DataValue(Take(n.rest, n.value))
  }

  function DecodeBool(s: seq<byte>): (p: Parse<Value>)
    ensures p.Ok? ==> |p.rest| < |s|
  {
    var v := Varint32(s);
    if v.Fail? then Fail else Ok(Int(if v.value != 0 then 1 else 0), v.rest)
  }

  function DecodeScalar(f: Field, s: seq<byte>): (p: Parse<Value>)
    ensures p.Ok? ==> |p.rest| < |s|
  {
    match f.ltype
    case LBool => DecodeBool(s)
    case LVarint | LUVarint | LSVarint => DecodeInteger(f, s)
    case LFixed32 => FixedValue(Take(s, 4))
    case LFixed64 => FixedValue(Take(s, 8))
    case LBytes | LString | LFixedLengthBytes => DecodeData(f, s)
    case LSubmessage | LExtension => Fail
  }

  // ----- What is in a struct -----

  /** A slot of which nothing is known. */
  const UNKNOWN: Slot := Single(Unset)

  function OldSlot(m: Message, k: Key): Slot {
    if k in m then m[k] else UNKNOWN
  }

  function Held(slot: Slot): Value {
    match slot
    case Single(v) => v
    case Flagged(_, v) => v
    case Union(_, v) => v
    case Items(_, _) => Unset
  }

  function ItemsOf(slot: Slot): seq<Value> {
    if slot.Items? then slot.items else []
  }

  function SlotsOf(v: Value): Message {
    if v.Msg? then v.slots else map[]
  }

  /** The storage of an array: the elements that count and what lies behind them. */
  function StorageOf(slot: Slot): seq<Value> {
    if slot.Items? then slot.items + slot.spare else []
  }

  function Cell(slot: Slot, k: nat): Value {
    if k < |StorageOf(slot)| then StorageOf(slot)[k] else Unset
  }

  /** The storage from element `n` on. */
  function Behind(slot: Slot, n: nat): seq<Value> {
    if n <= |StorageOf(slot)| then StorageOf(slot)[n..] else []
  }

  /** The array with these elements in front. */
  function Stored(slot: Slot, items: seq<Value>): Slot {
    Items(items, Behind(slot, |items|))
  }

  // ----- Default values -----

  /** Storage filled with zero bytes. */
  function ZeroValue(f: Field): Value
    decreases f, 0
  {
    match f.ltype
    case LBytes | LString => Data([])
    case LFixedLengthBytes => Data(Zeros(f.dataSize))
    case LSubmessage => Msg(if f.ptr.Fields? then ZeroMessage(f.ptr.fields) else map[])
    case _ => Int(0)
  }

  function ZeroSlot(f: Field): Slot
    decreases f, 1
  {
    match f.htype
    case Required => Single(ZeroValue(f))
    case Optional => if f.HasSize() then Flagged(false, ZeroValue(f)) else Single(ZeroValue(f))
    case Repeated =>
      var v := ZeroValue(f);
      var storage := seq(f.arraySize, i => v);
      if f.HasSize() then Items([], storage) else Items(storage, [])
    case Oneof => Union(0, Int(0))
  }

  function ZerosUpTo(fields: seq<Field>, n: nat): Message
    requires n <= |fields|
    decreases fields, 0, n
  {
    if n == 0 then map[] else ZerosUpTo(fields, n - 1)[fields[n - 1].Key() := ZeroSlot(fields[n - 1])]
  }

  function ZeroMessage(fields: seq<Field>): Message
    decreases fields, 1
  {
    ZerosUpTo(fields, |fields|)
  }

  /** What a value is set to by default when `was` lay in its storage. */
  function DefaultValue(f: Field, was: Value): Value
    decreases f, 0
  {
    if f.ltype.LSubmessage? then Msg(if f.ptr.Fields? then DefaultMessage(f.ptr.fields, SlotsOf(was)) else map[])
    else if f.ptr.Default? then f.ptr.value
    else ZeroValue(f)
  }

  /** The elements that an array has by default. A fixed-count array has all of its cells. */
  function KeptItems(f: Field, was: Slot): seq<Value> {
    if f.HasSize() then [] else seq(f.arraySize, i requires 0 <= i < f.arraySize => Cell(was, i))
  }

  /** Only the count of an array is set. A fixed-count array has none, but four zero bytes are written at its start all
      the same: `was` is what is there once they are. Beyond them, it keeps all that was in its storage. */
  function DefaultSlot(f: Field, was: Slot): Slot
    decreases f, 1
  {
    match f.htype
    case Required => Single(DefaultValue(f, Held(was)))
    case Optional =>
      if f.HasSize() then Flagged(false, DefaultValue(f, Held(was))) else Single(DefaultValue(f, Held(was)))
    case Repeated => Stored(was, KeptItems(f, was))
    case Oneof => Union(0, Int(0))
  }

  function DefaultsUpTo(fields: seq<Field>, was: Message, n: nat): Message
    requires n <= |fields|
    decreases fields, 0, n
  {
    if n == 0 then map[]
    else
      var f := fields[n - 1];
      DefaultsUpTo(fields, was, n - 1)[f.Key() := DefaultSlot(f, OldSlot(was, f.Key()))]
  }

  /** A struct set to its defaults, when `was` lay in its storage, once the zero counts are written. */
  function DefaultMessage(fields: seq<Field>, was: Message): Message
    decreases fields, 1
  {
    DefaultsUpTo(fields, was, |fields|)
  }

  /** A submessage that becomes the selected member of a union starts from zero bytes and defaults. */
  function UnionStart(f: Field): Value {
    DefaultValue(f, ZeroValue(f))
  }

  // ----- Fields -----

  /** The fixed-count array being received, and how many of its elements have come in. */
  datatype FixedTrack = NoFixed | Receiving(f: Field, size: nat)

  predicate FixedComplete(fixed: FixedTrack) {
    fixed.Receiving? ==> fixed.size == fixed.f.arraySize
  }

  /** State of the decoding loop. */
  datatype DecodeState = DecodeState(msg: Message, seen: set<nat>, fixed: FixedTrack)

  function SlotOf(m: Message, f: Field): Slot {
    if f.Key() in m then m[f.Key()] else DefaultSlot(f, UNKNOWN)
  }

  /** Writes element `k` of an array, which is at most one past its end. */
  function Put(items: seq<Value>, k: nat, v: Value): seq<Value> {
    if k < |items| then items[k := v] else items + [v]
  }

  /** The elements of a packed array, from index `k` on. */
  function DecodePacked(f: Field, items: seq<Value>, k: nat, s: seq<byte>): Option<(seq<Value>, nat)>
    decreases |s|
  {
    if s == [] then Some((items, k))
    else if k >= f.arraySize then None
    else
      var v := DecodeScalar(f, s);
      if v.Fail? then None else DecodePacked(f, Put(items, k, v.value), k + 1, v.rest)
  }

  function FindFrom(fields: seq<Field>, tag: nat, i: nat): (f: Option<Field>)
    requires i <= |fields|
    ensures f.Some? ==> f.value in fields && f.value.tag == tag && !f.value.ltype.LExtension?
    decreases |fields| - i
  {
    if i == |fields| then None
    else if fields[i].tag == tag && !fields[i].ltype.LExtension? then Some(fields[i])
    else FindFrom(fields, tag, i + 1)
  }

  function Find(fields: seq<Field>, tag: nat): (f: Option<Field>)
    ensures f.Some? ==> f.value in fields && f.value.tag == tag && !f.value.ltype.LExtension?
  {
    FindFrom(fields, tag, 0)
  }

  /** A single value of a field; `prior` is what is in its storage. Elements of arrays are set to their defaults first,
      other submessages are merged into. */
  function DecodeValue(f: Field, prior: Value, s: seq<byte>): (p: Parse<Value>)
    ensures p.Ok? ==> |p.rest| < |s|
    decreases |s|, 0
  {
    if f.ltype.LSubmessage? then
      var sub := Delimited(s);
      if sub.Fail? || !f.ptr.Fields? then Fail
      else
        var start := if f.htype.Repeated? then DefaultMessage(f.ptr.fields, SlotsOf(prior)) else SlotsOf(prior);
        var m := DecodeMessage(f.ptr.fields, start, sub.value);
        if m.Fail? then Fail else Ok(Msg(m.value), sub.rest)
    else DecodeScalar(f, s)
  }

  /** What a record of field `f` does to the field's slot; `k` is the number of array elements present. */
  function DecodeSlot(f: Field, wire: nat, slot: Slot, k: nat, s: seq<byte>): (p: Parse<(Slot, nat)>)
    ensures p.Ok? ==> |p.rest| < |s|
    decreases |s|, 1
  {
    match f.htype
    case Required =>
      var v := DecodeValue(f, Held(slot), s);
      if v.Fail? then Fail else Ok((Single(v.value), k), v.rest)
    case Optional =>
      var v := DecodeValue(f, Held(slot), s);
      if v.Fail? then Fail
      else Ok((if f.HasSize() then Flagged(true, v.value) else Single(v.value), k), v.rest)
    case Repeated =>
      if wire == WT_STRING && f.Packable() then
        var sub := Delimited(s);
        if sub.Fail? then Fail
        else
          var r := DecodePacked(f, ItemsOf(slot), k, sub.value);
          if r.None? then Fail else Ok((Stored(slot, r.value.0), r.value.1), sub.rest)
      else if k >= f.arraySize then Fail
      else
        var v := DecodeValue(f, Cell(slot, k), s);
        if v.Fail? then Fail else Ok((Stored(slot, Put(ItemsOf(slot), k, v.value)), k + 1), v.rest)
    case Oneof =>
      var prior := if slot.Union? && slot.which == f.tag then slot.v else UnionStart(f);
      var v := DecodeValue(f, prior, s);
      if v.Fail? then Fail else Ok((Union(f.tag, v.value), k), v.rest)
  }

  /** How many elements of the array of `f` are present; none for a fixed-count array that is begun anew. */
  function ItemCount(f: Field, st: DecodeState): nat {
    if f.FixedCount() then if st.fixed.Receiving? && st.fixed.f == f then st.fixed.size else 0
    else |ItemsOf(SlotOf(st.msg, f))|
  }

  /** A record of the known field `f`. Another fixed-count array may only begin once the last one is full. */
  function DecodeField(st: DecodeState, f: Field, wire: nat, s: seq<byte>): (p: Parse<DecodeState>)
    ensures p.Ok? ==> |p.rest| < |s|
    decreases |s|, 2
  {
    if f.FixedCount() && st.fixed.Receiving? && st.fixed.f != f && !FixedComplete(st.fixed) then Fail
    else
      var p := DecodeSlot(f, wire, SlotOf(st.msg, f), ItemCount(f, st), s);
      if p.Fail? then Fail
      else
        var fixed := if f.FixedCount() then Receiving(f, p.value.1) else st.fixed;
        Ok(DecodeState(st.msg[f.Key() := p.value.0], st.seen + {f.tag}, fixed), p.rest)
  }

  /** One record after its tag. An empty message type has a terminator of tag 0 and type bool, so that a
      record numbered 0 is read as a bool there, into no field. */
  function DecodeRecord(fields: seq<Field>, st: DecodeState, wire: nat, tag: nat, s: seq<byte>)
    : (p: Parse<DecodeState>)
    ensures p.Ok? ==> |p.rest| < |s|
    decreases |s|, 3
  {
    var f := Find(fields, tag);
    if f.Some? then DecodeField(st, f.value, wire, s)
    else if fields == [] && tag == 0 then
      var v := DecodeBool(s);
      if v.Fail? then Fail else Ok(st, v.rest)
    else
      var p := SkipField(wire, s);
      if p.Fail? then Fail else Ok(st, p.rest)
  }

  function DecodeLoop(fields: seq<Field>, st: DecodeState, s: seq<byte>): (p: Parse<DecodeState>)
    ensures p.Ok? ==> |p.rest| <= |s|
    decreases |s|, 4
  {
    if s == [] then Ok(st, s)
    else
      match DecodeTag(s)
      case EndOfMessage(rest) => Ok(st, rest)
      case BadTag => Fail
      case Tag(wire, tag, rest) =>
        var p := DecodeRecord(fields, st, wire, tag, rest);
        if p.Fail? then Fail else DecodeLoop(fields, p.value, p.rest)
  }

  const MAX_REQUIRED_FIELDS: nat := 64

  /** The number of required fields before field `i`. */
  function RequiredIndex(fields: seq<Field>, i: nat): (k: nat)
    requires i <= |fields|
    ensures k <= i
  {
    if i == 0 then 0 else RequiredIndex(fields, i - 1) + (if fields[i - 1].htype.Required? then 1 else 0)
  }

  /** Each of the first 64 required fields occurred. */
  predicate RequiredSeen(fields: seq<Field>, seen: set<nat>) {
    forall i :: 0 <= i < |fields| && fields[i].htype.Required? && RequiredIndex(fields, i) < MAX_REQUIRED_FIELDS ==>
      fields[i].tag in seen
  }

  /** `pb_decode_noinit`: decodes into an existing message. */
  function DecodeMessage(fields: seq<Field>, m: Message, s: seq<byte>): (p: Parse<Message>)
    decreases |s|, 5
  {
    var p := DecodeLoop(fields, DecodeState(m, {}, NoFixed), s);
    if p.Ok? && FixedComplete(p.value.fixed) && RequiredSeen(fields, p.value.seen) then Ok(p.value.msg, p.rest)
    else Fail
  }

  /** `pb_decode`: decodes into a struct set to its defaults. `was` is what it held, once the zero counts are
      written. */
  function Decode(fields: seq<Field>, was: Message, s: seq<byte>): Parse<Message> {
    DecodeMessage(fields, DefaultMessage(fields, was), s)
  }
}
