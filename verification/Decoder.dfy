/** The decoder, working on streams and on the shared iterator, proved against `DecodeSpec`. */
module Decoder {
  import opened Bytes
  import opened Varint
  import opened Schema
  import opened DecodeSpec
  import opened EncodeSpec
  import opened WellFormed
  import opened RoundTrip
  import opened Iterator
  import opened InputStream
  import opened Bitmap
  import opened Scalars
  import opened Absent

  // ----- Scalars -----

  /** The value of `x` after a cast to a signed type of `size` bytes. */
  function NarrowSigned(x: int, size: nat): int {
    if size == 8 then TwosComplement(x % TWO_64, TWO_63)
    else if size == 4 then TwosComplement(x % TWO_32, TWO_31)
    else if size == 2 then TwosComplement(x % 0x1_0000, 0x8000)
    else TwosComplement(x % 0x100, 0x80)
  }

  function NarrowUnsigned(x: int, size: nat): int {
    if size == 8 then x % TWO_64
    else if size == 4 then x % TWO_32
    else if size == 2 then x % 0x1_0000
    else x % 0x100
  }

  /** A cast keeps a number exactly if the type can hold it. */
  lemma CastKeeps(x: int, size: nat)
    requires IntegerSize(size)
    ensures NarrowSigned(x, size) == x <==> SignedFits(x, size)
    ensures NarrowUnsigned(x, size) == x <==> UnsignedFits(x, size)
  {
  }

  method DecBool(stream: IStream) returns (ok: bool, v: Value)
    requires stream.Valid()
    modifies stream
    ensures stream.Valid() && stream.End() == old(stream.End())
    ensures ok <==> DecodeBool(old(stream.Rest())).Ok?
    ensures ok ==> Ok(v, stream.Rest()) == DecodeBool(old(stream.Rest()))
  {
    var value: nat;
    ok, value := stream.DecodeVarint32();
    v := Int(if value != 0 then 1 else 0);
  }

  method DecVarint(stream: IStream, f: Field) returns (ok: bool, v: Value)
    requires stream.Valid() && f.ltype.LVarint?
    modifies stream
    ensures stream.Valid() && stream.End() == old(stream.End())
    ensures ok <==> DecodeInteger(f, old(stream.Rest())).Ok?
    ensures ok ==> Ok(v, stream.Rest()) == DecodeInteger(f, old(stream.Rest()))
  {
    var value: nat;
    v := Int(0);
    ok, value := stream.DecodeVarint();
    if !ok {
      return;
    }
    var svalue := if f.dataSize == 8 then TwosComplement(value, TWO_63) else TwosComplement(value % TWO_32, TWO_31);
    if !IntegerSize(f.dataSize) {
      return false, v;
    }
    CastKeeps(svalue, f.dataSize);
    var clamped := NarrowSigned(svalue, f.dataSize);
    return clamped == svalue, Int(clamped);
  }

  method DecUVarint(stream: IStream, f: Field) returns (ok: bool, v: Value)
    requires stream.Valid() && f.ltype.LUVarint?
    modifies stream
    ensures stream.Valid() && stream.End() == old(stream.End())
    ensures ok <==> DecodeInteger(f, old(stream.Rest())).Ok?
    ensures ok ==> Ok(v, stream.Rest()) == DecodeInteger(f, old(stream.Rest()))
  {
    var value: nat;
    v := Int(0);
    ok, value := stream.DecodeVarint();
    if !ok {
      return;
    }
    if !IntegerSize(f.dataSize) {
      return false, v;
    }
    CastKeeps(value, f.dataSize);
    var clamped := NarrowUnsigned(value, f.dataSize);
    return clamped == value, Int(clamped);
  }

  method DecSVarint(stream: IStream, f: Field) returns (ok: bool, v: Value)
    requires stream.Valid() && f.ltype.LSVarint?
    modifies stream
    ensures stream.Valid() && stream.End() == old(stream.End())
    ensures ok <==> DecodeInteger(f, old(stream.Rest())).Ok?
    ensures ok ==> Ok(v, stream.Rest()) == DecodeInteger(f, old(stream.Rest()))
  {
    var value: nat;
    v := Int(0);
    ok, value := stream.DecodeVarint();
    if !ok {
      return;
    }
    var x := UnZigZag(value);
    if !IntegerSize(f.dataSize) {
      return false, v;
    }
    CastKeeps(x, f.dataSize);
    var clamped := NarrowSigned(x, f.dataSize);
    return clamped == x, Int(clamped);
  }

  /** Or-ing shifted bytes together is reading them as a little-endian number. */
  lemma {:induction false} OrOfBytes(s: seq<byte>)
    ensures OrBytes(s) == FromLittleEndian(s)
  {
    if s != [] {
      var n := |s| - 1;
      OrOfBytes(s[..n]);
      FromLittleEndianBound(s[..n]);
      OrDisjoint(FromLittleEndian(s[..n]), s[n], 8 * n);
      LastByte(s);
    }
  }

  /** `bytes[0] << 0 | bytes[1] << 8 | ...` */
  function OrBytes(s: seq<byte>): nat {
    if s == [] then 0 else Or(OrBytes(s[..|s| - 1]), Shl(s[|s| - 1], 8 * (|s| - 1)))
  }

  lemma {:induction false} LastByte(s: seq<byte>)
    requires s != []
    ensures FromLittleEndian(s) == FromLittleEndian(s[..|s| - 1]) + Shl(s[|s| - 1], 8 * (|s| - 1))
    decreases |s|
  {
    var n := |s| - 1;
    if n > 0 {
      LastByte(s[1..]);
      assert s[1..][..n - 1] == s[..n][1..];
      ShlLow(Shl(s[n], 8 * (n - 1)));
      ShlShl(s[n], 8 * (n - 1), 8);
    }
  }

  method DecFixed(stream: IStream, n: nat) returns (ok: bool, v: Value)
    requires stream.Valid() && n in {4, 8}
    modifies stream
    ensures stream.Valid() && stream.End() == old(stream.End())
    ensures ok <==> Take(old(stream.Rest()), n).Ok?
    ensures ok ==> Ok(v, stream.Rest()) == FixedValue(Take(old(stream.Rest()), n))
  {
    var bytes: seq<byte>;
    ok, bytes := stream.Read(n);
    v := Int(0);
    if ok {
      OrOfBytes(bytes);
      v := Int(OrBytes(bytes));
    }
  }

  /** Bytes, string and fixed-length-bytes fields. The storage needed is computed in 32 bits for a string. */
  method DecData(stream: IStream, f: Field) returns (ok: bool, v: Value)
    requires stream.Valid() && f.ltype in {LBytes, LString, LFixedLengthBytes}
    modifies stream
    ensures stream.Valid() && stream.End() == old(stream.End())
    ensures ok <==> DecodeData(f, old(stream.Rest())).Ok?
    ensures ok ==> Ok(v, stream.Rest()) == DecodeData(f, old(stream.Rest()))
  {
    var size: nat;
    v := Int(0);
    ok, size := stream.DecodeVarint32();
    if !ok {
      return;
    }
    if f.ltype.LBytes? {
      if size + BYTES_HEADER > f.dataSize {
        return false, v;
      }
    } else if f.ltype.LString? {
      var allocSize := (size + 1) % TWO_32;
      if allocSize < size || allocSize > f.dataSize {
        return false, v;
      }
    } else {
      if size == 0 {
        return true, Data(Zeros(f.dataSize));
      }
      if size != f.dataSize {
        return false, v;
      }
    }
    var bytes: seq<byte>;
    ok, bytes := stream.Read(size);
    v := Data(bytes);
  }

  method DecScalar(stream: IStream, f: Field) returns (ok: bool, v: Value)
    requires stream.Valid()
    modifies stream
    ensures stream.Valid() && stream.End() == old(stream.End())
    ensures ok <==> DecodeScalar(f, old(stream.Rest())).Ok?
    ensures ok ==> Ok(v, stream.Rest()) == DecodeScalar(f, old(stream.Rest()))
  {
    match f.ltype {
      case LBool => ok, v := DecBool(stream);
      case LVarint => ok, v := DecVarint(stream, f);
      case LUVarint => ok, v := DecUVarint(stream, f);
      case LSVarint => ok, v := DecSVarint(stream, f);
      case LFixed32 => ok, v := DecFixed(stream, 4);
      case LFixed64 => ok, v := DecFixed(stream, 8);
      case LBytes | LString | LFixedLengthBytes => ok, v := DecData(stream, f);
      case LSubmessage | LExtension => ok, v := false, Int(0);
    }
  }

  // ----- Fields -----

  /** The elements of a packed array, up to the end of its window or of the storage. */
  method DecPacked(sub: IStream, f: Field, items: seq<Value>, size: nat)
    returns (ok: bool, result: seq<Value>, count: nat)
    requires sub.Valid() && f.Packable()
    modifies sub
    ensures sub.Valid() && sub.End() == old(sub.End())
    ensures var r := DecodePacked(f, items, size, old(sub.Rest()));
            if ok && sub.bytesLeft == 0 then r == Some((result, count)) else r.None?
  {
    ok, result, count := true, items, size;
    ghost var whole := DecodePacked(f, items, size, sub.Rest());
    while sub.bytesLeft > 0 && count < f.arraySize
      invariant sub.Valid() && sub.End() == old(sub.End())
      invariant whole == DecodePacked(f, result, count, sub.Rest())
      decreases sub.bytesLeft
    {
      var v: Value;
      ghost var before := sub.Rest();
      ok, v := DecScalar(sub, f);
      if !ok {
        return;
      }
      result, count := Put(result, count, v), count + 1;
    }
  }

  /** One value. A submessage is decoded from a window that is strictly shorter than what was left. */
  method DecValue(stream: IStream, f: Field, prior: Value) returns (ok: bool, v: Value)
    requires stream.Valid() && ValidField(f)
    modifies stream
    ensures stream.Valid()
    ensures ok <==> DecodeValue(f, prior, old(stream.Rest())).Ok?
    ensures ok ==> Ok(v, stream.Rest()) == DecodeValue(f, prior, old(stream.Rest()))
    ensures ok ==> stream.End() == old(stream.End())
    decreases stream.bytesLeft, 1
  {
    if f.ltype.LSubmessage? {
      SubmessageValue(f, prior, stream.Rest());
      ok, v := DecSubmessage(stream, f, prior);
    } else {
      ok, v := DecScalar(stream, f);
    }
  }

  lemma SubmessageValue(f: Field, prior: Value, s: seq<byte>)
    requires ValidField(f) && f.ltype.LSubmessage?
    ensures DecodeValue(f, prior, s) ==
            var sub, m := Delimited(s), SlotsOf(prior);
            var p := if sub.Fail? then Fail
                     else if f.htype.Repeated? then Decode(f.ptr.fields, m, sub.value)
                     else DecodeMessage(f.ptr.fields, m, sub.value);
            if p.Fail? then Fail else Ok(Msg(p.value), sub.rest)
  {
  }

  method DecSubmessage(stream: IStream, f: Field, prior: Value) returns (ok: bool, v: Value)
    requires stream.Valid() && ValidField(f) && f.ltype.LSubmessage?
    modifies stream
    ensures stream.Valid()
    ensures var sub, m := Delimited(old(stream.Rest())), SlotsOf(prior);
            var p := if sub.Fail? then Fail
                     else if f.htype.Repeated? then Decode(f.ptr.fields, m, sub.value)
                     else DecodeMessage(f.ptr.fields, m, sub.value);
            (ok <==> p.Ok?) && (ok ==> v == Msg(p.value) && stream.Rest() == sub.rest)
    ensures ok ==> stream.End() == old(stream.End())
    decreases stream.bytesLeft, 0
  {
    v := Int(0);
    var sub;
    ok, sub := stream.MakeStringSubstream();
    if !ok {
      return;
    }
    if !f.ptr.Fields? {
      return false, v;
    }
    var status, m := false, SlotsOf(prior);
    if f.htype.Repeated? {
      status, m := DecodeFresh(sub, f.ptr.fields, m);
    } else {
      status, m := DecodeNoInit(sub, f.ptr.fields, m);
    }
    if !status {
      return false, v;
    }
    ok := stream.CloseStringSubstream(sub);
    v := Msg(m);
  }

  /** The slot of a field after a record of it, and the number of array elements it then has. */
  method DecSlot(stream: IStream, f: Field, wire: nat, slot: Slot, size: nat)
    returns (ok: bool, result: Slot, count: nat)
    requires stream.Valid() && ValidField(f)
    modifies stream
    ensures stream.Valid()
    ensures ok <==> DecodeSlot(f, wire, slot, size, old(stream.Rest())).Ok?
    ensures ok ==> Ok((result, count), stream.Rest()) == DecodeSlot(f, wire, slot, size, old(stream.Rest()))
    ensures !f.htype.Repeated? && Holds(f, slot, Held(slot)) ==>
              var p := DecodeValue(f, Held(slot), old(stream.Rest()));
              (ok <==> p.Ok?) && (ok ==> result == SlotWith(f, p.value) && count == size)
    ensures ok ==> stream.End() == old(stream.End())
    decreases stream.bytesLeft, 2
  {
    var v: Value;
    result, count := slot, size;
    match f.htype {
      case Required =>
        ok, v := DecValue(stream, f, Held(slot));
        result := Single(v);
      case Optional =>
        ok, v := DecValue(stream, f, Held(slot));
        result := if f.HasSize() then Flagged(true, v) else Single(v);
      case Repeated =>
        if wire == WT_STRING && f.Packable() {
          ok, result, count := DecPackedField(stream, f, slot, size);
        } else {
          if size >= f.arraySize {
            return false, slot, size;
          }
          ok, v := DecValue(stream, f, Cell(slot, size));
          result, count := Stored(slot, Put(ItemsOf(slot), size, v)), size + 1;
        }
      case Oneof =>
        var prior: Value;
        if slot.Union? && slot.which == f.tag {
          prior := slot.v;
        } else {
          prior := SetValueToDefault(f, ZeroValue(f));
        }
        ok, v := DecValue(stream, f, prior);
        result := Union(f.tag, v);
    }
  }

  method DecPackedField(stream: IStream, f: Field, slot: Slot, size: nat)
    returns (ok: bool, result: Slot, count: nat)
    requires stream.Valid() && f.htype.Repeated? && f.Packable()
    modifies stream
    ensures stream.Valid()
    ensures ok <==> DecodeSlot(f, WT_STRING, slot, size, old(stream.Rest())).Ok?
    ensures ok ==> Ok((result, count), stream.Rest()) == DecodeSlot(f, WT_STRING, slot, size, old(stream.Rest()))
    ensures ok ==> stream.End() == old(stream.End())
  {
    result, count := slot, size;
    var sub;
    ok, sub := stream.MakeStringSubstream();
    if !ok {
      return;
    }
    var status, items, n := DecPacked(sub, f, ItemsOf(slot), size);
    if sub.bytesLeft != 0 {
      return false, slot, size;
    }
    if !status {
      return false, slot, size;
    }
    ok := stream.CloseStringSubstream(sub);
    result, count := Stored(slot, items), n;
  }

  // ----- Messages -----

  /** The variables of the decoding loop besides the stream. A fixed-count array is remembered by its position. */
  datatype LoopVars = LoopVars(msg: Message, fixedField: Option<nat>, fixedSize: nat)

  predicate VarsOk(fields: seq<Field>, vars: LoopVars) {
    vars.fixedField.Some? ==> vars.fixedField.value < |fields| && fields[vars.fixedField.value].FixedCount()
  }

  /** The state that these variables stand for. */
  function StateOf(fields: seq<Field>, vars: LoopVars, seen: set<nat>): DecodeState
    requires VarsOk(fields, vars)
  {
    DecodeState(vars.msg, seen,
                if vars.fixedField.None? then NoFixed else Receiving(fields[vars.fixedField.value], vars.fixedSize))
  }

  /** While a size reference is redirected, it is for the fixed-count array that is being received. */
  predicate IterOk(fields: seq<Field>, iter: FieldIterator, vars: LoopVars)
    reads iter
  {
    iter.start == fields && iter.Sized() &&
    (fields != [] && iter.pSize.LocalCounter? ==> vars.fixedField == Some(iter.pos))
  }

  /** One record, after its tag. */
  method DecodeOneRecord(
    stream: IStream, fields: seq<Field>, iter: FieldIterator, seenBits: array<nat>,
    vars: LoopVars, ghost seen: set<nat>, wire: nat, tag: nat)
    returns (ok: bool, next: LoopVars, ghost nextSeen: set<nat>)
    requires stream.Valid() && ValidSchema(fields) && VarsOk(fields, vars) && IterOk(fields, iter, vars)
    requires seenBits.Length == 2 && Words(seenBits[..])
    requires fields != [] ==> Records(seenBits[..], fields, seen)
    modifies stream, iter, seenBits
    ensures stream.Valid()
    ensures ok <==> DecodeRecord(fields, StateOf(fields, vars, seen), wire, tag, old(stream.Rest())).Ok?
    ensures ok ==> VarsOk(fields, next) && IterOk(fields, iter, next)
    ensures ok ==> Ok(StateOf(fields, next, nextSeen), stream.Rest()) ==
                   DecodeRecord(fields, StateOf(fields, vars, seen), wire, tag, old(stream.Rest()))
    ensures ok ==> stream.End() == old(stream.End())
    ensures ok ==> Words(seenBits[..]) && (fields != [] ==> Records(seenBits[..], fields, nextSeen))
    decreases stream.bytesLeft, 4
  {
    next, nextSeen := vars, seen;
    var found := iter.Find(tag);
    if !found {
      FindNothing(fields, tag, 0);
      ok := stream.SkipField(wire);
    } else if fields == [] {
      MarkSeen(seenBits, 0);
      var v: Value;
      ok, v := DecBool(stream);
    } else {
      FindIs(fields, 0, iter.pos);
      ok, next, nextSeen := DecodeFound(stream, fields, iter, seenBits, vars, seen, wire);
    }
  }

  lemma {:induction false} FindNothing(fields: seq<Field>, tag: nat, i: nat)
    requires i <= |fields| && forall j :: i <= j < |fields| ==> !Matches(fields[j], tag)
    ensures FindFrom(fields, tag, i) == None
    decreases |fields| - i
  {
    if i < |fields| {
      assert !Matches(fields[i], tag);
      FindNothing(fields, tag, i + 1);
    }
  }

  /** A record of the field that the iterator stands on. */
  method DecodeFound(
    stream: IStream, fields: seq<Field>, iter: FieldIterator, seenBits: array<nat>,
    vars: LoopVars, ghost seen: set<nat>, wire: nat)
    returns (ok: bool, next: LoopVars, ghost nextSeen: set<nat>)
    requires stream.Valid() && ValidSchema(fields) && VarsOk(fields, vars) && IterOk(fields, iter, vars)
    requires fields != [] && seenBits.Length == 2 && Words(seenBits[..]) && Records(seenBits[..], fields, seen)
    modifies stream, iter, seenBits
    ensures stream.Valid()
    ensures var f := fields[old(iter.pos)];
            ok <==> DecodeField(StateOf(fields, vars, seen), f, wire, old(stream.Rest())).Ok?
    ensures ok ==> VarsOk(fields, next) && IterOk(fields, iter, next)
    ensures var f := fields[old(iter.pos)];
            ok ==> Ok(StateOf(fields, next, nextSeen), stream.Rest()) ==
                   DecodeField(StateOf(fields, vars, seen), f, wire, old(stream.Rest()))
    ensures ok ==> stream.End() == old(stream.End())
    ensures ok ==> Words(seenBits[..]) && Records(seenBits[..], fields, nextSeen)
    decreases stream.bytesLeft, 3
  {
    next, nextSeen := vars, seen;
    var f := fields[iter.pos];
    ghost var st := StateOf(fields, vars, seen);
    RepeatedSize(fields, iter.dest, iter.pos);
    OwnArray(fields, iter.pos, vars, seen);
    if f.htype.Repeated? && iter.pSize == At(iter.pData) {
      if vars.fixedField != Some(iter.pos) {
        if vars.fixedField.Some? && vars.fixedSize != fields[vars.fixedField.value].arraySize {
          return false, vars, seen;
        }
        next := LoopVars(vars.msg, Some(iter.pos), 0);
      }
      iter.pSize := LocalCounter;
    }
    MarkField(fields, iter, seenBits, seen);
    nextSeen := seen + {f.tag};
    var slot := SlotOf(vars.msg, f);
    var size := if iter.pSize.LocalCounter? then next.fixedSize else |ItemsOf(slot)|;
    assert size == ItemCount(f, st);
    var result: Slot;
    var count: nat;
    ok, result, count := DecSlot(stream, f, wire, slot, size);
    if ok {
      next := LoopVars(vars.msg[f.Key() := result], next.fixedField,
                       if iter.pSize.LocalCounter? then count else next.fixedSize);
    }
  }

  /** An array keeps its count beside its data unless it has none. */
  lemma RepeatedSize(fields: seq<Field>, dest: int, i: nat)
    requires i < |fields|
    ensures fields[i].htype.Repeated? ==>
              (SizeAddress(fields, dest, i) == DataAddress(fields, dest, i) <==> fields[i].FixedCount())
  {
  }

  /** The array being received is told by its position. */
  lemma OwnArray(fields: seq<Field>, i: nat, vars: LoopVars, seen: set<nat>)
    requires ValidSchema(fields) && VarsOk(fields, vars) && i < |fields|
    ensures var fixed := StateOf(fields, vars, seen).fixed;
            fixed.Receiving? ==> (fixed.f == fields[i] <==> vars.fixedField == Some(i))
  {
    if vars.fixedField.Some? && fields[vars.fixedField.value].tag == fields[i].tag {
      SameTagSameField(fields, vars.fixedField.value, i);
    }
  }

  method MarkField(fields: seq<Field>, iter: FieldIterator, seenBits: array<nat>, ghost seen: set<nat>)
    requires ValidSchema(fields) && fields != [] && iter.start == fields && iter.Standing()
    requires seenBits.Length == 2 && Words(seenBits[..]) && Records(seenBits[..], fields, seen)
    modifies seenBits
    ensures Words(seenBits[..]) && Records(seenBits[..], fields, seen + {fields[iter.pos].tag})
  {
    ghost var was := seenBits[..];
    if fields[iter.pos].htype.Required? && iter.requiredIndex < MAX_REQUIRED_FIELDS {
      MarkSeen(seenBits, iter.requiredIndex);
      MarkRecords(was, seenBits[..], fields, seen, iter.pos);
    } else {
      NothingToMark(was, fields, seen, iter.pos);
    }
  }

  /** The number of required fields, found by walking on from wherever the iterator stopped. */
  method CountRequired(fields: seq<Field>, iter: FieldIterator) returns (count: nat)
    requires Table(fields) && iter.start == fields && iter.Sized()
    modifies iter
    ensures count == RequiredIndex(fields, |fields|)
  {
    count := iter.requiredIndex;
    var lastRequired := fields != [] && fields[iter.pos].htype.Required?;
    var more := iter.Next();
    while more
      invariant iter.Sized()
      invariant fields == [] ==> count == 0 && !more
      invariant more ==> 0 < iter.pos < |fields| && iter.Fresh()
      invariant more ==> count == RequiredIndex(fields, iter.pos - 1)
      invariant more ==> lastRequired == fields[iter.pos - 1].htype.Required?
      invariant !more ==> fields == [] || (count == RequiredIndex(fields, |fields| - 1) &&
                                           lastRequired == fields[|fields| - 1].htype.Required?)
      decreases if more then |fields| - iter.pos + 1 else 0
    {
      count := iter.requiredIndex;
      lastRequired := fields[iter.pos].htype.Required?;
      more := iter.Next();
    }
    if lastRequired && fields != [] {
      count := count + 1;
    }
  }

  /** The final check: each of the first 64 required fields was seen. */
  method RequiredPresent(fields: seq<Field>, iter: FieldIterator, seenBits: array<nat>, ghost seen: set<nat>)
    returns (ok: bool)
    requires ValidSchema(fields) && iter.start == fields && iter.Sized()
    requires seenBits.Length == 2 && Words(seenBits[..])
    requires fields != [] ==> Records(seenBits[..], fields, seen)
    modifies iter
    ensures ok <==> RequiredSeen(fields, seen)
  {
    var count := CountRequired(fields, iter);
    if count > MAX_REQUIRED_FIELDS {
      count := MAX_REQUIRED_FIELDS;
    }
    if fields == [] {
      return true;
    }
    BitsAreFields(seenBits[..], fields, seen, count);
    if count > 0 {
      ok := AllSeen(seenBits, count);
    } else {
      ok := true;
    }
  }

  /** The decoding loop: records until the stream is empty or an end marker comes. */
  method DecodeRecords(stream: IStream, fields: seq<Field>, iter: FieldIterator, seenBits: array<nat>, dest: Message)
    returns (ok: bool, vars: LoopVars, ghost seen: set<nat>)
    requires stream.Valid() && ValidSchema(fields)
    requires iter.start == fields && iter.Fresh()
    requires seenBits.Length == 2 && seenBits[..] == [0, 0]
    modifies stream, iter, seenBits
    ensures stream.Valid()
    ensures ok <==> DecodeLoop(fields, DecodeState(dest, {}, NoFixed), old(stream.Rest())).Ok?
    ensures ok ==> VarsOk(fields, vars) &&
                   Ok(StateOf(fields, vars, seen), stream.Rest()) ==
                   DecodeLoop(fields, DecodeState(dest, {}, NoFixed), old(stream.Rest()))
    ensures ok ==> stream.End() == old(stream.End()) && iter.Sized()
    ensures ok ==> Words(seenBits[..]) && (fields != [] ==> Records(seenBits[..], fields, seen))
    decreases stream.bytesLeft, 5
  {
    vars, seen := LoopVars(dest, None, 0), {};
    var stopped := false;
    ok := true;
    FreshBitmap(seenBits[..], fields);
    ghost var whole := DecodeLoop(fields, StateOf(fields, vars, seen), stream.Rest());
    while !stopped && stream.bytesLeft > 0
      invariant stream.Valid() && stream.End() == old(stream.End()) && stream.bytesLeft <= old(stream.bytesLeft)
      invariant VarsOk(fields, vars) && IterOk(fields, iter, vars)
      invariant Words(seenBits[..]) && (fields != [] ==> Records(seenBits[..], fields, seen))
      invariant whole == if stopped then Ok(StateOf(fields, vars, seen), stream.Rest())
                         else DecodeLoop(fields, StateOf(fields, vars, seen), stream.Rest())
      decreases stream.bytesLeft, !stopped
    {
      var tagOk, wire, tag, eof := stream.DecodeTag();
      if !tagOk {
        if !eof {
          return false, vars, seen;
        }
        stopped := true;
      } else {
        ok, vars, seen := DecodeOneRecord(stream, fields, iter, seenBits, vars, seen, wire, tag);
        if !ok {
          return;
        }
      }
    }
    ok := true;
  }

  /** `pb_decode_noinit`. */
  method DecodeNoInit(stream: IStream, fields: seq<Field>, dest: Message) returns (ok: bool, msg: Message)
    requires stream.Valid() && ValidSchema(fields)
    modifies stream
    ensures stream.Valid()
    ensures ok <==> DecodeMessage(fields, dest, old(stream.Rest())).Ok?
    ensures ok ==> Ok(msg, stream.Rest()) == DecodeMessage(fields, dest, old(stream.Rest()))
    ensures ok ==> stream.End() == old(stream.End())
    decreases stream.bytesLeft, 6
  {
    var seenBits := new nat[2](_ => 0);
    var iter := new FieldIterator(fields, 0);
    var vars: LoopVars;
    ghost var seen;
    ok, vars, seen := DecodeRecords(stream, fields, iter, seenBits, dest);
    msg := dest;
    if !ok {
      return;
    }
    if vars.fixedField.Some? && vars.fixedSize != fields[vars.fixedField.value].arraySize {
      return false, dest;
    }
    ok := RequiredPresent(fields, iter, seenBits, seen);
    msg := vars.msg;
  }

  /** `pb_decode`, into a struct that held `was`, once the zero counts are written. */
  method DecodeFresh(stream: IStream, fields: seq<Field>, was: Message) returns (ok: bool, msg: Message)
    requires stream.Valid() && ValidSchema(fields)
    modifies stream
    ensures stream.Valid()
    ensures ok <==> Decode(fields, was, old(stream.Rest())).Ok?
    ensures ok ==> Ok(msg, stream.Rest()) == Decode(fields, was, old(stream.Rest()))
    ensures ok ==> stream.End() == old(stream.End())
    decreases stream.bytesLeft, 7
  {
    msg := SetToDefaults(fields, was);
    ok, msg := DecodeNoInit(stream, fields, msg);
  }

  // ----- Setting defaults -----

  /** `pb_message_set_to_defaults`: field by field, in the order of the table. */
  method SetToDefaults(fields: seq<Field>, was: Message) returns (msg: Message)
    requires ValidSchema(fields)
    ensures msg == DefaultMessage(fields, was)
    ensures forall i :: 0 <= i < |fields| ==>
              fields[i].Key() in msg && SlotAtDefault(fields[i], msg[fields[i].Key()])
    decreases fields, 0
  {
    msg := map[];
    assert forall i :: 0 <= i < |fields| ==> ValidField(fields[i]);
    DefaultsAre(fields, was);
    var iter := new FieldIterator(fields, 0);
    var any := iter.Begin();
    if !any {
      return;
    }
    var more := true;
    while more
      invariant iter.start == fields && iter.Fresh()
      invariant more ==> msg == DefaultsUpTo(fields, was, iter.pos)
      invariant !more ==> msg == DefaultMessage(fields, was)
      decreases if more then |fields| - iter.pos + 1 else 0
    {
      var f := fields[iter.pos];
      var slot := SetFieldToDefault(f, OldSlot(was, f.Key()));
      msg := msg[f.Key() := slot];
      more := iter.Next();
    }
  }

  /** `pb_field_set_to_default`: of an array only the count is set, and of a union only the selector. `was` is what is
      there once the zero count is written over a fixed-count array. */
  method SetFieldToDefault(f: Field, was: Slot) returns (slot: Slot)
    requires ValidField(f)
    ensures slot == DefaultSlot(f, was) && SlotAtDefault(f, slot)
    decreases f, 1
  {
    DefaultSlotIs(f, was);
    match f.htype {
      case Optional =>
        var v := SetValueToDefault(f, Held(was));
        slot := if f.HasSize() then Flagged(false, v) else Single(v);
      case Repeated =>
        if f.HasSize() {
          slot := Stored(was, []);
        } else {
          slot := Stored(was, KeptItems(f, was));
        }
      case Oneof => slot := Union(0, Int(0));
      case Required =>
        var v := SetValueToDefault(f, Held(was));
        slot := Single(v);
    }
  }

  method SetValueToDefault(f: Field, was: Value) returns (v: Value)
    requires ValidField(f)
    ensures v == DefaultValue(f, was) && ValueAtDefault(f, v)
    decreases f, 0
  {
    DefaultValueIs(f, was);
    if f.ltype.LSubmessage? {
      var m := SetToDefaults(f.ptr.fields, SlotsOf(was));
      v := Msg(m);
    } else if f.ptr.Default? {
      v := f.ptr.value;
    } else {
      v := ZeroValue(f);
    }
  }

  /** A fixed-count array with all its elements is left just as it is, once its zero count is written. */
  lemma FixedCountIsKept(f: Field, was: Slot)
    requires f.FixedCount() && was.Items? && |was.items| == f.arraySize
    ensures DefaultSlot(f, was) == was
  {
    assert KeptItems(f, was) == was.items;
    assert (was.items + was.spare)[|was.items|..] == was.spare;
  }
}
