/** Base 128 varints and zigzag numbers: the encoder, the three readers of the decoder, and how they agree. */
module Varint {
  import opened Bytes

  /** The minimal varint of `v`: seven bits a byte, least significant group first. */
  function EncodeVarint(v: nat): (s: seq<byte>)
    ensures |s| >= 1
  {
    if v <= 0x7F then [v] else [v % 128 + 128] + EncodeVarint(v / 128)
  }

  /** The payload bits of a varint byte. */
  function Low7(b: byte): (d: byte)
  {
    if b >= 128 then b - 128 else b
  }

  /** The 64-bit reader: at most ten bytes, bits above 64 are dropped. */
  function Varint64(s: seq<byte>): Parse<nat>
  {
    Varint64From(s, 0, 0)
  }

  /** The bits of `result` are all below `bitpos`, so or-ing in the next group adds it. */
  function Varint64From(s: seq<byte>, bitpos: nat, result: nat): (p: Parse<nat>)
    ensures p.Ok? ==> |p.rest| < |s|
  {
    if bitpos >= 64 || s == [] then Fail
    else
      var r := result + Shl(Low7(s[0]), bitpos) % TWO_64;
      if s[0] < 128 then Ok(r, s[1..]) else Varint64From(s[1..], bitpos + 7, r)
  }

  /** The 32-bit reader, which also accepts the ten-byte form of negative 32-bit numbers. */
  function Varint32(s: seq<byte>): (p: Parse<nat>)
    ensures p.Ok? ==> |p.rest| < |s|
  {
    if s == [] then Fail
    else if s[0] < 128 then Ok(s[0], s[1..])
    else Varint32From(s[1..], 7, Low7(s[0]))
  }

  /** The reader's bit counter is eight bits wide: it wraps around on runs of 37 and more bytes. */
  function Low8(bitpos: nat): nat {
    if bitpos < 256 then bitpos else bitpos % 256
  }

  function SignExtension(bitpos: nat): byte {
    if bitpos < 63 then 0xFF else 0x01
  }

  /** A byte past bit 32 must be empty, or repeat the sign of a negative number. */
  predicate Overflows32(b: byte, bitpos: nat, result: nat) {
    Low8(bitpos) >= 32 && Low7(b) != 0 && (result < TWO_31 || b != SignExtension(Low8(bitpos)))
  }

  /** Below bit 32 the group lands on clear bits and is added; after a wrap-around it may meet set ones. */
  function Accumulate32(b: byte, bitpos: nat, result: nat): nat {
    if bitpos < 32 then result + Shl(Low7(b), bitpos) % TWO_32
    else if Low8(bitpos) >= 32 then result
    else Or(result, Shl(Low7(b), Low8(bitpos)) % TWO_32)
  }

  function Varint32From(s: seq<byte>, bitpos: nat, result: nat): (p: Parse<nat>)
    ensures p.Ok? ==> |p.rest| < |s|
  {
    if s == [] || Overflows32(s[0], bitpos, result) then Fail
    else
      var r := Accumulate32(s[0], bitpos, result);
      if s[0] >= 128 then Varint32From(s[1..], bitpos + 7, r)
      else if Low8(bitpos + 7) == 35 && s[0] >= 16 then Fail
      else Ok(r, s[1..])
  }

  /** One round of the 32-bit reader's loop, in terms of its wrapped counter. */
  lemma Front32(b: byte, rest: seq<byte>, bitpos: nat, result: nat)
    ensures Varint32From([b] + rest, bitpos, result) ==
            if Low8(bitpos) >= 32 && Low7(b) != 0 &&
               (result / TWO_31 == 0 || b != SignExtension(Low8(bitpos))) then Fail
            else if b >= 128 then Varint32From(rest, bitpos + 7, Accumulate32(b, bitpos, result))
            else if Low8(bitpos + 7) == 35 && b >= 16 then Fail
            else Ok(Accumulate32(b, bitpos, result), rest)
    ensures Low8(bitpos + 7) == (Low8(bitpos) + 7) % 256
  {
    assert ([b] + rest)[1..] == rest;
  }

  lemma Front64(b: byte, rest: seq<byte>, bitpos: nat, result: nat)
    requires bitpos < 64
    ensures Varint64From([b] + rest, bitpos, result) ==
            var r := result + Shl(Low7(b), bitpos) % TWO_64;
            if b < 128 then Ok(r, rest) else Varint64From(rest, bitpos + 7, r)
  {
    assert ([b] + rest)[1..] == rest;
  }

  /** Skipping a varint only looks for its last byte. */
  function SkipVarint(s: seq<byte>): (p: Parse<()>)
    ensures p.Ok? ==> |p.rest| < |s|
  {
    if s == [] then Fail
    else if s[0] < 128 then Ok((), s[1..])
    else SkipVarint(s[1..])
  }

  /** The encoder's output, first byte first. */
  lemma EncodeFront(w: nat, t: seq<byte>)
    ensures EncodeVarint(w) + t == if w <= 0x7F then [w] + t else [w % 128 + 128] + (EncodeVarint(w / 128) + t)
  {
  }

  // ----- The 64-bit reader inverts the encoder -----

  lemma {:induction false} VarintRoundTrip(v: nat, t: seq<byte>)
    requires v < TWO_64
    ensures Varint64(EncodeVarint(v) + t) == Ok(v, t)
  {
    VarintRoundTripFrom(v, 0, 0, t);
  }

  lemma {:induction false} VarintRoundTripFrom(w: nat, bitpos: nat, result: nat, t: seq<byte>)
    requires result < Pow2(bitpos) && bitpos < 64
    requires Shl(w, bitpos) < TWO_64
    ensures Varint64From(EncodeVarint(w) + t, bitpos, result) == Ok(result + Shl(w, bitpos), t)
    decreases w
  {
    var d, q := w % 128, w / 128;
    Group(q, d, bitpos);
    EncodeFront(w, t);
    if w <= 0x7F {
      Step64(w, t, bitpos, result);
    } else {
      Step64(d + 128, EncodeVarint(q) + t, bitpos, result);
      BelowTop(q, bitpos);
      VarintRoundTripFrom(q, bitpos + 7, result + Shl(d, bitpos), t);
    }
  }

  /** While nothing is lost off the top, reading one byte adds its group. */
  lemma Step64(b: byte, rest: seq<byte>, bitpos: nat, result: nat)
    requires bitpos < 64 && result < Pow2(bitpos)
    requires Shl(Low7(b), bitpos) < TWO_64
    ensures Varint64From([b] + rest, bitpos, result) ==
            var r := result + Shl(Low7(b), bitpos);
            if b < 128 then Ok(r, rest) else Varint64From(rest, bitpos + 7, r)
  {
    assert ([b] + rest)[1..] == rest;
    SmallMod(Shl(Low7(b), bitpos), TWO_64);
  }

  lemma SmallMod(x: nat, m: nat)
    requires x < m
    ensures x % m == x
  {
  }

  /** A number shifted into place is its lowest group plus the rest, shifted seven further. */
  lemma Group(q: nat, d: nat, bitpos: nat)
    requires d < 128
    ensures Shl(d + 128 * q, bitpos) == Shl(d, bitpos) + Shl(q, bitpos + 7)
    ensures Shl(d, bitpos) + Pow2(bitpos) <= Pow2(bitpos + 7)
  {
    ShlAdd(d, 128 * q, bitpos);
    Shl7(q, bitpos);
    ShlAdd(d, 1, bitpos);
    ShlMonotone(d + 1, 128, bitpos);
    Shl7(1, bitpos);
  }

  lemma BelowTop(q: nat, bitpos: nat)
    requires 1 <= q && Shl(q, bitpos + 7) < TWO_64
    ensures bitpos + 7 < 64
  {
    if bitpos + 7 >= 64 {
      Pow2At64(64);
      Pow2Monotone(64, bitpos + 7);
      ShlMonotone(1, q, bitpos + 7);
      assert false;
    }
  }

  lemma {:induction false} VarintLength(v: nat, n: nat)
    requires n > 0
    ensures |EncodeVarint(v)| <= n <==> v < Pow2(7 * n)
    decreases v
  {
    Shl7(1, 7 * (n - 1));
    if v > 0x7F {
      if n == 1 {
        assert Pow2(0) == 1;
      } else {
        VarintLength(v / 128, n - 1);
      }
    } else {
      Pow2Monotone(7, 7 * n);
      ShlLow(1);
    }
  }

  /** Every 64-bit number fits the encoder's ten-byte buffer. */
  lemma VarintFitsTenBytes(v: nat)
    requires v < TWO_64
    ensures |EncodeVarint(v)| <= 10
  {
    Pow2At64(64);
    Pow2Monotone(64, 70);
    VarintLength(v, 10);
  }

  lemma {:induction false} SkipEncoded(v: nat, t: seq<byte>)
    ensures SkipVarint(EncodeVarint(v) + t) == Ok((), t)
    decreases v
  {
    var s := EncodeVarint(v) + t;
    if v <= 0x7F {
      assert s[1..] == t;
    } else {
      assert s[1..] == EncodeVarint(v / 128) + t;
      SkipEncoded(v / 128, t);
    }
  }

  // ----- Zigzag -----

  function ZigZag(x: int): nat {
    if x < 0 then TWO_64 - 1 - 2 * (x + TWO_64) % TWO_64 else 2 * x % TWO_64
  }

  function UnZigZag(u: nat): int {
    if u % 2 == 1 then TwosComplement(TWO_64 - 1 - u / 2, TWO_63) else TwosComplement(u / 2, TWO_63)
  }

  /** The signed reading of an unsigned number below `2 * half`. */
  function TwosComplement(v: int, half: nat): int {
    if v < half then v else v - 2 * half
  }

  /** Zigzag is a bijection between the 64-bit integers and the 64-bit unsigned numbers. */
  lemma ZigZagBijection(x: int, u: nat)
    requires -TWO_63 <= x < TWO_63 && u < TWO_64
    ensures ZigZag(x) < TWO_64 && UnZigZag(ZigZag(x)) == x
    ensures ZigZag(UnZigZag(u)) == u
  {
  }

  // ----- The 32-bit reader on the encoder's output -----

  predicate SignGroup(g: nat) {
    g % 128 == 0 || g % 128 == 127
  }

  /** Which 64-bit numbers the 32-bit reader lets through. Numbers of 32 bits pass. So does every number
      with bits 31 and 63 set whose groups of bits 35-41, 42-48, 49-55 and 56-62 are all zeros or all ones:
      bits 32-34 are never looked at, and an all-zero group is taken for trailing padding. */
  predicate Accepted32(v: nat) {
    v < TWO_32 ||
    (v >= TWO_63 && v / TWO_31 % 2 == 1 &&
     SignGroup(v / 0x8_0000_0000) && SignGroup(v / 0x400_0000_0000) &&
     SignGroup(v / 0x2_0000_0000_0000) && SignGroup(v / 0x100_0000_0000_0000))
  }

  lemma Varint32OnEncoded(v: nat, t: seq<byte>)
    requires v < TWO_64
    ensures Varint32(EncodeVarint(v) + t) == if Accepted32(v) then Ok(v % TWO_32, t) else Fail
  {
    Varint32ByGroups(v, t);
    AcceptedByGroups(v);
  }

  lemma Varint32ByGroups(v: nat, t: seq<byte>)
    requires v < TWO_64
    ensures Varint32(EncodeVarint(v) + t) == if PassesGroups(v) then Ok(v % TWO_32, t) else Fail
  {
    FirstByte32(v, t);
    if v > 0x7F {
      ReadEncoded(v / 128, 7, v % 128, t);
      GroupsOfValue(v / 128);
      ShlLow(v / 128);
      ShlLow(1);
      ReadFromBit7(GroupsOf(v / 128), v % 128, v);
    } else {
      ShortPasses(v);
    }
  }

  lemma FirstByte32(v: nat, t: seq<byte>)
    ensures Varint32(EncodeVarint(v) + t) ==
            if v <= 0x7F then Ok(v, t) else Varint32From(EncodeVarint(v / 128) + t, 7, v % 128)
  {
    EncodeFront(v, t);
    if v > 0x7F {
      assert ([v % 128 + 128] + (EncodeVarint(v / 128) + t))[1..] == EncodeVarint(v / 128) + t;
    } else {
      assert ([v] + t)[1..] == t;
    }
  }

  /** The seven-bit groups of a number, least significant first. */
  datatype Groups = Last(d: nat) | More(d: nat, rest: Groups)

  function GroupsOf(v: nat): Groups {
    if v <= 0x7F then Last(v) else More(v % 128, GroupsOf(v / 128))
  }

  function Value(g: Groups): nat {
    match g
    case Last(d) => d
    case More(d, rest) => d + 128 * Value(rest)
  }

  /** Groups of seven bits, the top one not zero. */
  predicate Minimal(g: Groups) {
    1 <= Value(g) && g.d < 128 && (g.More? ==> Minimal(g.rest))
  }

  lemma {:induction false} GroupsOfValue(v: nat)
    ensures Value(GroupsOf(v)) == v
    ensures v >= 1 ==> Minimal(GroupsOf(v))
    decreases v
  {
    if v > 0x7F {
      GroupsOfValue(v / 128);
    }
  }

  /** The 32-bit reader run on the groups of a number instead of on its bytes. */
  function ReadGroups(g: Groups, bitpos: nat, result: nat): Option<nat>
    requires Minimal(g)
  {
    var b := if g.Last? then g.d else g.d + 128;
    if Overflows32(b, bitpos, result) then None
    else
      var r := Accumulate32(b, bitpos, result);
      if g.More? then ReadGroups(g.rest, bitpos + 7, r)
      else if Low8(bitpos + 7) == 35 && b >= 16 then None
      else Some(r)
  }

  lemma {:induction false} ReadEncoded(w: nat, bitpos: nat, result: nat, t: seq<byte>)
    requires w >= 1
    ensures Minimal(GroupsOf(w))
    ensures Varint32From(EncodeVarint(w) + t, bitpos, result) ==
            var r := ReadGroups(GroupsOf(w), bitpos, result); if r.Some? then Ok(r.value, t) else Fail
    decreases w
  {
    EncodeFront(w, t);
    GroupsOfValue(w);
    if w <= 0x7F {
      assert ([w] + t)[1..] == t;
    } else {
      var b := w % 128 + 128;
      assert ([b] + (EncodeVarint(w / 128) + t))[1..] == EncodeVarint(w / 128) + t;
      if !Overflows32(b, bitpos, result) {
        ReadEncoded(w / 128, bitpos + 7, Accumulate32(b, bitpos, result), t);
      }
    }
  }

  lemma ReadFromBit7(g: Groups, result: nat, v: nat)
    requires Minimal(g) && result < Pow2(7)
    requires v == result + Shl(Value(g), 7) < TWO_64
    ensures ReadGroups(g, 7, result) == if PassesGroups(v) then Some(v % TWO_32) else None
  {
    OneGroup(g, 7, result);
    if g.Last? {
      ShortPasses(v);
    } else {
      ReadFromBit14(g.rest, result + Shl(g.d, 7), v);
    }
  }

  lemma ReadFromBit14(g: Groups, result: nat, v: nat)
    requires Minimal(g) && result < Pow2(14)
    requires v == result + Shl(Value(g), 14) < TWO_64
    ensures ReadGroups(g, 14, result) == if PassesGroups(v) then Some(v % TWO_32) else None
  {
    OneGroup(g, 14, result);
    if g.Last? {
      ShortPasses(v);
    } else {
      ReadFromBit21(g.rest, result + Shl(g.d, 14), v);
    }
  }

  lemma ReadFromBit21(g: Groups, result: nat, v: nat)
    requires Minimal(g) && result < Pow2(21)
    requires v == result + Shl(Value(g), 21) < TWO_64
    ensures ReadGroups(g, 21, result) == if PassesGroups(v) then Some(v % TWO_32) else None
  {
    OneGroup(g, 21, result);
    if g.Last? {
      ShortPasses(v);
    } else {
      Pow2At28(28);
      Shl28(Value(g.rest));
      GroupAt28(g.rest, result + Shl(g.d, 21), v);
    }
  }

  lemma ShortPasses(v: nat)
    requires v < 0x1000_0000
    ensures PassesGroups(v) && v % TWO_32 == v
  {
  }

  /** A group below bit 28 is added to the result. */
  lemma OneGroup(g: Groups, bitpos: nat, result: nat)
    requires Minimal(g) && bitpos <= 21 && result < Pow2(bitpos)
    ensures g.Last? ==>
            ReadGroups(g, bitpos, result) == Some(result + Shl(g.d, bitpos)) && result + Shl(g.d, bitpos) < 0x1000_0000
    ensures g.More? ==>
            var r := result + Shl(g.d, bitpos);
            ReadGroups(g, bitpos, result) == ReadGroups(g.rest, bitpos + 7, r) && r < Pow2(bitpos + 7) &&
            r + Shl(Value(g.rest), bitpos + 7) == result + Shl(Value(g), bitpos)
  {
    ShiftFits32(g.d, bitpos);
    match g {
      case Last(d) =>
        Group(0, d, bitpos);
        Below28(result + Shl(d, bitpos), bitpos);
      case More(d, rest) =>
        Group(Value(rest), d, bitpos);
    }
  }

  lemma Below28(x: nat, bitpos: nat)
    requires bitpos <= 21 && x < Pow2(bitpos + 7)
    ensures x < 0x1000_0000
  {
    Pow2At28(28);
    Pow2Monotone(bitpos + 7, 28);
  }

  lemma ShiftFits32(d: nat, bitpos: nat)
    requires d < 128 && bitpos <= 21
    ensures Shl(d, bitpos) % TWO_32 == Shl(d, bitpos)
  {
    Group(0, d, bitpos);
    Below28(Shl(d, bitpos), bitpos);
    SmallMod(Shl(d, bitpos), TWO_32);
  }

  /** The group at bit 28 is cut to its low four bits; what it loses is caught only in a five-byte varint. */
  lemma GroupAt28(g: Groups, result: nat, v: nat)
    requires Minimal(g) && result < 0x1000_0000
    requires v == result + 0x1000_0000 * Value(g) < TWO_64
    ensures ReadGroups(g, 28, result) == if PassesGroups(v) then Some(v % TWO_32) else None
  {
    match g {
      case Last(d) =>
        CutShift(d);
        FiveBytes(d, result);
      case More(d, rest) =>
        MoreBytes(d, Value(rest), result);
        MoreAt28(d, rest, result);
        GroupsUnique(rest);
    }
  }

  lemma MoreAt28(d: nat, rest: Groups, result: nat)
    requires Minimal(More(d, rest)) && result < 0x1000_0000 && Value(rest) < 0x2000_0000
    ensures var low := result + 0x1000_0000 * (d % 16);
            ReadGroups(More(d, rest), 28, result) == if HighAccepted(rest, 35, low >= TWO_31) then Some(low) else None
  {
    CutShift(d);
    HighGroups(rest, 35, result + 0x1000_0000 * (d % 16));
  }

  lemma FiveBytes(d: nat, result: nat)
    requires 1 <= d < 128 && result < 0x1000_0000
    ensures var v := result + 0x1000_0000 * d;
            (PassesGroups(v) <==> d < 16) && (d < 16 ==> v % TWO_32 == result + 0x1000_0000 * (d % 16))
  {
  }

  lemma MoreBytes(d: nat, q: nat, result: nat)
    requires d < 128 && q >= 1 && result < 0x1000_0000
    ensures var v := result + 0x1000_0000 * (d + 128 * q);
            v / 0x8_0000_0000 == q && v % TWO_32 == result + 0x1000_0000 * (d % 16)
  {
    var v := result + 0x1000_0000 * (d + 128 * q);
    assert v == 0x8_0000_0000 * q + (result + 0x1000_0000 * d);
    assert v == TWO_32 * (8 * q + d / 16) + (result + 0x1000_0000 * (d % 16));
  }

  lemma {:induction false} GroupsUnique(g: Groups)
    requires Minimal(g)
    ensures GroupsOf(Value(g)) == g
  {
    if g.More? {
      GroupsUnique(g.rest);
    }
  }

  lemma CutShift(d: nat)
    requires d < 128
    ensures Shl(d, 28) % TWO_32 == 0x1000_0000 * (d % 16)
  {
    Shl28(d);
  }

  /** What the reader demands of the groups from bit 35 on, for a number it so far takes to be negative or not. */
  predicate HighAccepted(g: Groups, bitpos: nat, negative: bool)
  {
    match g
    case Last(d) => bitpos == 63 && d == 1 && negative
    case More(d, rest) => (d == 0 || (negative && d == 127 && bitpos < 63)) && HighAccepted(rest, bitpos + 7, negative)
  }

  lemma {:induction false} HighGroups(g: Groups, bitpos: nat, r: nat)
    requires Minimal(g) && bitpos in {35, 42, 49, 56, 63}
    requires bitpos == 63 ==> g.Last?
    requires bitpos == 56 ==> Value(g) < 0x100
    requires bitpos == 49 ==> Value(g) < 0x8000
    requires bitpos == 42 ==> Value(g) < 0x40_0000
    requires bitpos == 35 ==> Value(g) < 0x2000_0000
    ensures ReadGroups(g, bitpos, r) == if HighAccepted(g, bitpos, r >= TWO_31) then Some(r) else None
    decreases g
  {
    if g.More? {
      assert bitpos == 56 ==> Value(g.rest) <= 1;
      assert g.rest.More? ==> Minimal(g.rest.rest) && Value(g.rest) >= 128;
      HighGroups(g.rest, bitpos + 7, r);
    }
  }

  lemma HighIsSign(q: nat, negative: bool)
    requires 1 <= q < 0x2000_0000
    ensures HighAccepted(GroupsOf(q), 35, negative) <==>
            negative && q >= 0x1000_0000 &&
            SignGroup(q) && SignGroup(q / 0x80) && SignGroup(q / 0x4000) && SignGroup(q / 0x20_0000)
  {
    var q1 := q / 128;
    var q2 := q1 / 128;
    var q3 := q2 / 128;
    var q4 := q3 / 128;
    assert q2 == q / 0x4000 && q3 == q / 0x20_0000 && q4 == q / 0x1000_0000;
    assert HighAccepted(GroupsOf(q4), 63, negative) <==> q4 == 1 && negative;
    assert q3 >= 1 ==> (HighAccepted(GroupsOf(q3), 56, negative) <==> q4 == 1 && negative && SignGroup(q3));
    assert q2 >= 1 ==>
        (HighAccepted(GroupsOf(q2), 49, negative) <==> q4 == 1 && negative && SignGroup(q3) && SignGroup(q2));
    assert q1 >= 1 ==> (HighAccepted(GroupsOf(q1), 42, negative) <==>
                        q4 == 1 && negative && SignGroup(q3) && SignGroup(q2) && SignGroup(q1));
  }

  /** The same condition, group by group. */
  predicate PassesGroups(v: nat) {
    v < TWO_32 || (v >= 0x8_0000_0000 && HighAccepted(GroupsOf(v / 0x8_0000_0000), 35, v % TWO_32 >= TWO_31))
  }

  lemma AcceptedByGroups(v: nat)
    requires v < TWO_64
    ensures Accepted32(v) <==> PassesGroups(v)
  {
    SignBit(v);
    if v >= 0x8_0000_0000 {
      HighIsSign(v / 0x8_0000_0000, v % TWO_32 >= TWO_31);
      DivDiv(v);
    }
  }

  lemma DivDiv(v: nat)
    ensures var q := v / 0x8_0000_0000;
            q / 0x80 == v / 0x400_0000_0000 && q / 0x4000 == v / 0x2_0000_0000_0000 &&
            q / 0x20_0000 == v / 0x100_0000_0000_0000
  {
    var q, r := v / 0x8_0000_0000, v % 0x8_0000_0000;
    assert v == 0x400_0000_0000 * (q / 0x80) + (0x8_0000_0000 * (q % 0x80) + r);
    assert v == 0x2_0000_0000_0000 * (q / 0x4000) + (0x8_0000_0000 * (q % 0x4000) + r);
    assert v == 0x100_0000_0000_0000 * (q / 0x20_0000) + (0x8_0000_0000 * (q % 0x20_0000) + r);
  }

  lemma SignBit(v: nat)
    ensures v % TWO_32 >= TWO_31 <==> v / TWO_31 % 2 == 1
  {
    var a := v / TWO_31;
    assert v == TWO_31 * a + v % TWO_31;
    assert v == TWO_32 * (a / 2) + (TWO_31 * (a % 2) + v % TWO_31);
  }

  /** The 64-bit sign extension of a negative 32-bit number, given by its 32-bit pattern. */
  function SignExtended(v: nat): nat
    requires TWO_31 <= v < TWO_32
  {
    v + (TWO_32 - 1) * TWO_32
  }

  /** The cases that matter to a caller: 32-bit numbers and sign-extended negative ones are read back,
      anything else below 2^63 is rejected. */
  lemma Varint32Cases(v: nat, t: seq<byte>)
    ensures v < TWO_32 ==> Varint32(EncodeVarint(v) + t) == Ok(v, t)
    ensures TWO_31 <= v < TWO_32 ==> Varint32(EncodeVarint(SignExtended(v)) + t) == Ok(v, t)
    ensures TWO_32 <= v < TWO_63 ==> Varint32(EncodeVarint(v) + t) == Fail
  {
    if v < TWO_32 {
      SmallIsRead(v, t);
    } else if v < TWO_63 {
      MiddleIsRejected(v, t);
    }
    if TWO_31 <= v < TWO_32 {
      SignExtendedIsRead(v, t);
    }
  }

  lemma SmallIsRead(v: nat, t: seq<byte>)
    requires v < TWO_32
    ensures Varint32(EncodeVarint(v) + t) == Ok(v, t)
  {
    Varint32ByGroups(v, t);
    SmallMod(v, TWO_32);
  }

  lemma MiddleIsRejected(v: nat, t: seq<byte>)
    requires TWO_32 <= v < TWO_63
    ensures Varint32(EncodeVarint(v) + t) == Fail
  {
    Varint32OnEncoded(v, t);
  }

  lemma SignExtendedIsRead(v: nat, t: seq<byte>)
    requires TWO_31 <= v < TWO_32
    ensures Varint32(EncodeVarint(SignExtended(v)) + t) == Ok(v, t)
  {
    SignExtendedAccepted(v);
    Varint32OnEncoded(SignExtended(v), t);
  }

  lemma SignExtendedAccepted(v: nat)
    requires TWO_31 <= v < TWO_32
    ensures Accepted32(SignExtended(v)) && SignExtended(v) % TWO_32 == v
  {
    var x := SignExtended(v);
    assert x / 0x8_0000_0000 == 0x1FFF_FFFF;
    assert x / 0x400_0000_0000 == 0x3F_FFFF;
    assert x / 0x2_0000_0000_0000 == 0x7FFF;
    assert x / 0x100_0000_0000_0000 == 0xFF;
    assert x / TWO_31 == 0x1_FFFF_FFFF;
  }

  /** The reader also accepts numbers that are not sign-extended 32-bit numbers: 2^63 + 2^31 reads as 2^31. */
  lemma Varint32AcceptsMore(v: nat, t: seq<byte>)
    requires v == TWO_63 + TWO_31
    ensures Varint32(EncodeVarint(v) + t) == Ok(TWO_31, t)
    ensures forall x :: TWO_31 <= x < TWO_32 ==> v != SignExtended(x)
  {
    MoreIsAccepted(v);
    Varint32OnEncoded(v, t);
  }

  lemma MoreIsAccepted(v: nat)
    requires v == TWO_63 + TWO_31
    ensures Accepted32(v) && v % TWO_32 == TWO_31
  {
    assert v / 0x8_0000_0000 == 0x1000_0000 && v / TWO_31 == TWO_32 + 1;
  }

  // ----- Reading looks no further than the last byte of the varint -----

  /** A parse of `s` that ended before the end of `s` does not notice what follows. */
  ghost predicate Extends<T>(p: Parse<T>, q: Parse<T>, t: seq<byte>) {
    p.Ok? ==> q == Ok(p.value, p.rest + t)
  }

  lemma {:induction false} Varint64FromLocal(s: seq<byte>, t: seq<byte>, bitpos: nat, result: nat)
    ensures Extends(Varint64From(s, bitpos, result), Varint64From(s + t, bitpos, result), t)
    decreases s
  {
    if s != [] && bitpos < 64 {
      assert (s + t)[1..] == s[1..] + t;
      if s[0] >= 128 {
        Varint64FromLocal(s[1..], t, bitpos + 7, result + Shl(Low7(s[0]), bitpos) % TWO_64);
      }
    }
  }

  lemma {:induction false} Varint32FromLocal(s: seq<byte>, t: seq<byte>, bitpos: nat, result: nat)
    ensures Extends(Varint32From(s, bitpos, result), Varint32From(s + t, bitpos, result), t)
    decreases s
  {
    if s != [] && !Overflows32(s[0], bitpos, result) {
      assert (s + t)[1..] == s[1..] + t;
      if s[0] >= 128 {
        Varint32FromLocal(s[1..], t, bitpos + 7, Accumulate32(s[0], bitpos, result));
      }
    }
  }

  lemma Varint32Local(s: seq<byte>, t: seq<byte>)
    ensures Extends(Varint32(s), Varint32(s + t), t)
  {
    if s != [] {
      assert (s + t)[1..] == s[1..] + t;
      if s[0] >= 128 {
        Varint32FromLocal(s[1..], t, 7, Low7(s[0]));
      }
    }
  }

  lemma {:induction false} SkipVarintLocal(s: seq<byte>, t: seq<byte>)
    ensures Extends(SkipVarint(s), SkipVarint(s + t), t)
  {
    if s != [] {
      assert (s + t)[1..] == s[1..] + t;
      if s[0] >= 128 {
        SkipVarintLocal(s[1..], t);
      }
    }
  }

  /** Both readers stop where the skipper stops, or fail. */
  lemma {:induction false} Varint64StopsAt(s: seq<byte>, bitpos: nat, result: nat)
    ensures var p := Varint64From(s, bitpos, result); p.Ok? ==> SkipVarint(s) == Ok((), p.rest)
    decreases s
  {
    if s != [] && bitpos < 64 && s[0] >= 128 {
      Varint64StopsAt(s[1..], bitpos + 7, result + Shl(Low7(s[0]), bitpos) % TWO_64);
    }
  }

  lemma {:induction false} Varint32StopsAt(s: seq<byte>, bitpos: nat, result: nat)
    ensures var p := Varint32From(s, bitpos, result); p.Ok? ==> SkipVarint(s) == Ok((), p.rest)
    decreases s
  {
    if s != [] && !Overflows32(s[0], bitpos, result) && s[0] >= 128 {
      Varint32StopsAt(s[1..], bitpos + 7, Accumulate32(s[0], bitpos, result));
    }
  }

  /** On a complete varint the readers decide by themselves: nothing that follows changes success or failure. */
  lemma {:induction false} Varint64Complete(s: seq<byte>, t: seq<byte>, bitpos: nat, result: nat)
    requires SkipVarint(s).Ok?
    ensures Varint64From(s + t, bitpos, result).Ok? ==> Varint64From(s, bitpos, result).Ok?
    decreases s
  {
    if bitpos < 64 {
      assert (s + t)[1..] == s[1..] + t;
      if s[0] >= 128 {
        Varint64Complete(s[1..], t, bitpos + 7, result + Shl(Low7(s[0]), bitpos) % TWO_64);
      }
    }
  }

  lemma {:induction false} Varint32FromComplete(s: seq<byte>, t: seq<byte>, bitpos: nat, result: nat)
    requires SkipVarint(s).Ok?
    ensures Varint32From(s + t, bitpos, result).Ok? ==> Varint32From(s, bitpos, result).Ok?
    decreases s
  {
    if !Overflows32(s[0], bitpos, result) {
      assert (s + t)[1..] == s[1..] + t;
      if s[0] >= 128 {
        Varint32FromComplete(s[1..], t, bitpos + 7, Accumulate32(s[0], bitpos, result));
      }
    }
  }

  lemma Varint32Complete(s: seq<byte>, t: seq<byte>)
    requires SkipVarint(s).Ok?
    ensures Varint32(s + t).Ok? ==> Varint32(s).Ok?
  {
    assert (s + t)[1..] == s[1..] + t;
    if s[0] >= 128 {
      Varint32FromComplete(s[1..], t, 7, Low7(s[0]));
    }
  }

  // ----- What a step of the readers adds stays within the width of the result -----

  lemma Grow64(b: byte, bitpos: nat, result: nat) returns (r: nat)
    requires bitpos < 64 && result < Pow2(bitpos)
    ensures r == result + Shl(Low7(b), bitpos) % TWO_64 < TWO_64
    ensures bitpos + 7 < 64 ==> r < Pow2(bitpos + 7)
    ensures Or(result, Shl(Low7(b), bitpos) % TWO_64) == r
  {
    r := result + Shl(Low7(b), bitpos) % TWO_64;
    Pow2At64(64);
    CutGroup(Low7(b), bitpos, 64);
    Group(0, Low7(b), bitpos);
    ModAtMost(Shl(Low7(b), bitpos), TWO_64);
  }

  lemma ModAtMost(x: nat, m: nat)
    requires m > 0
    ensures x % m <= x
  {
  }

  lemma Grow32(b: byte, bitpos: nat, result: nat)
    requires result < TWO_32 && (bitpos < 32 ==> result < Pow2(bitpos))
    ensures Accumulate32(b, bitpos, result) < TWO_32
    ensures bitpos + 7 < 32 ==> Accumulate32(b, bitpos, result) < Pow2(bitpos + 7)
    ensures Low8(bitpos) < 32 ==>
            Accumulate32(b, bitpos, result) == Or(result, Shl(Low7(b), Low8(bitpos)) % TWO_32)
    ensures Low8(bitpos) >= 32 ==> Accumulate32(b, bitpos, result) == result
  {
    Pow2At32(32);
    if bitpos < 32 {
      CutGroup(Low7(b), bitpos, 32);
      Group(0, Low7(b), bitpos);
      ModAtMost(Shl(Low7(b), bitpos), TWO_32);
    } else if Low8(bitpos) < 32 {
      OrBound(result, Shl(Low7(b), Low8(bitpos)) % TWO_32, 32);
    }
  }
}
