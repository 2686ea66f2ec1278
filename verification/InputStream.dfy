/** Input streams over a buffer, and the readers that work on them. */
module InputStream {
  import opened Bytes
  import opened Varint
  import opened DecodeSpec

  /** A window splits into its first `n` bytes and the `m` after them. */
  lemma SplitWindow(buf: seq<byte>, i: nat, n: nat, m: nat)
    requires i + n + m <= |buf|
    ensures buf[i..i + n + m][..n] == buf[i..i + n]
    ensures buf[i..i + n + m][n..] == buf[i + n..i + n + m]
  {
  }

  /** A window of a buffer: `state` is the read position, `bytesLeft` the size of the window from there on. */
  class IStream {
    const buf: seq<byte>
    var state: nat
    var bytesLeft: nat

    predicate Valid()
      reads this
    {
      state + bytesLeft <= |buf|
    }

    /** The unread bytes. */
    function Rest(): seq<byte>
      requires Valid()
      reads this
    {
      buf[state..state + bytesLeft]
    }

    /** The fixed end of the window: position plus bytes left. */
    function End(): nat
      reads this
    {
      state + bytesLeft
    }

    constructor (buf: seq<byte>, state: nat, bytesLeft: nat)
      requires state + bytesLeft <= |buf|
      ensures Valid() && this.buf == buf && this.state == state && this.bytesLeft == bytesLeft
    {
      this.buf := buf;
      this.state := state;
      this.bytesLeft := bytesLeft;
    }

    constructor FromBuffer(buf: seq<byte>)
      ensures Valid() && Rest() == buf
    {
      this.buf := buf;
      state := 0;
      bytesLeft := |buf|;
    }

    /** Takes `count` bytes, all or none. */
    method Read(count: nat) returns (ok: bool, data: seq<byte>)
      requires Valid()
      modifies this
      ensures Valid() && End() == old(End())
      ensures ok <==> Take(old(Rest()), count).Ok?
      ensures ok ==> Ok(data, Rest()) == Take(old(Rest()), count)
      ensures !ok ==> unchanged(this)
    {
      if count == 0 {
        return true, [];
      }
      if bytesLeft < count {
        return false, [];
      }
      data := buf[state..state + count];
      assert data == Rest()[..count];
      state := state + count;
      bytesLeft := bytesLeft - count;
      assert Rest() == old(Rest())[count..];
      return true, data;
    }

    method ReadByte() returns (ok: bool, b: byte)
      requires Valid()
      modifies this
      ensures Valid() && End() == old(End())
      ensures ok <==> old(bytesLeft) > 0
      ensures ok ==> old(Rest()) == [b] + Rest() && bytesLeft == old(bytesLeft) - 1
      ensures ok ==> old(Rest())[0] == b && old(Rest())[1..] == Rest()
      ensures !ok ==> unchanged(this)
    {
      if bytesLeft == 0 {
        return false, 0;
      }
      b := buf[state];
      state := state + 1;
      bytesLeft := bytesLeft - 1;
      return true, b;
    }

    /** `eof` tells a stream that was empty from one that ended inside the varint. */
    method DecodeVarint32Eof() returns (ok: bool, value: nat, eof: bool)
      requires Valid()
      modifies this
      ensures Valid() && End() == old(End())
      ensures ok <==> Varint32(old(Rest())).Ok?
      ensures ok ==> Ok(value, Rest()) == Varint32(old(Rest())) && value < TWO_32
      ensures eof <==> old(bytesLeft) == 0
      ensures eof ==> Rest() == []
    {
      var b: byte;
      ok, b := ReadByte();
      eof := false;
      if !ok {
        return false, 0, bytesLeft == 0;
      }
      if b < 128 {
        return true, b, false;
      }
      ghost var s := Rest();
      var bitpos: nat := 7;
      ghost var bits: nat := 7;
      value := Low7(b);
      ShlLow(1);
      ghost var whole := Varint32From(s, 7, value);
      while b >= 128
        invariant Valid() && End() == old(End())
        invariant bitpos == Low8(bits) && value < TWO_32 && (bits < 32 ==> value < Pow2(bits))
        invariant b >= 128 ==> whole == Varint32From(Rest(), bits, value)
        invariant b < 128 ==> whole == if bitpos == 35 && b >= 16 then Fail else Ok(value, Rest())
        decreases bytesLeft, b
      {
        ok, b := ReadByte();
        if !ok {
          return false, 0, false;
        }
        Front32(b, Rest(), bits, value);
        Grow32(b, bits, value);
        if bitpos >= 32 {
          var sign: byte := if bitpos < 63 then 0xFF else 0x01;
          if Low7(b) != 0 && (value / TWO_31 == 0 || b != sign) {
            return false, 0, false;
          }
        } else {
          value := Or(value, Shl(Low7(b), bitpos) % TWO_32);
        }
        bitpos := (bitpos + 7) % 256;
        bits := bits + 7;
      }
      if bitpos == 35 && b / 16 % 8 != 0 {
        return false, 0, false;
      }
      return true, value, false;
    }

    method DecodeVarint32() returns (ok: bool, value: nat)
      requires Valid()
      modifies this
      ensures Valid() && End() == old(End())
      ensures ok <==> Varint32(old(Rest())).Ok?
      ensures ok ==> Ok(value, Rest()) == Varint32(old(Rest())) && value < TWO_32
    {
      var eof: bool;
      ok, value, eof := DecodeVarint32Eof();
    }

    method DecodeVarint() returns (ok: bool, value: nat)
      requires Valid()
      modifies this
      ensures Valid() && End() == old(End())
      ensures ok <==> Varint64(old(Rest())).Ok?
      ensures ok ==> Ok(value, Rest()) == Varint64(old(Rest())) && value < TWO_64
    {
      var bitpos: nat := 0;
      var more := true;
      value := 0;
      ghost var whole := Varint64From(Rest(), 0, 0);
      while more
        invariant Valid() && End() == old(End())
        invariant value < TWO_64 && (bitpos < 64 ==> value < Pow2(bitpos))
        invariant whole == if more then Varint64From(Rest(), bitpos, value) else Ok(value, Rest())
        decreases bytesLeft, more
      {
        if bitpos >= 64 {
          return false, 0;
        }
        var b: byte;
        ok, b := ReadByte();
        if !ok {
          return false, 0;
        }
        Front64(b, Rest(), bitpos, value);
        var r := Grow64(b, bitpos, value);
        value := Or(value, Shl(Low7(b), bitpos) % TWO_64);
        bitpos := bitpos + 7;
        more := b >= 128;
      }
      return true, value;
    }

    method SkipVarint() returns (ok: bool)
      requires Valid()
      modifies this
      ensures Valid() && End() == old(End())
      ensures ok <==> Varint.SkipVarint(old(Rest())).Ok?
      ensures ok ==> Ok((), Rest()) == Varint.SkipVarint(old(Rest()))
    {
      var more := true;
      ghost var whole := Varint.SkipVarint(Rest());
      while more
        invariant Valid() && End() == old(End())
        invariant whole == if more then Varint.SkipVarint(Rest()) else Ok((), Rest())
        decreases bytesLeft, more
      {
        var b: byte;
        ok, b := ReadByte();
        if !ok {
          return false;
        }
        more := b >= 128;
      }
      return true;
    }

    method SkipString() returns (ok: bool)
      requires Valid()
      modifies this
      ensures Valid() && End() == old(End())
      ensures ok <==> Delimited(old(Rest())).Ok?
      ensures ok ==> Rest() == Delimited(old(Rest())).rest
    {
      var length: nat;
      ok, length := DecodeVarint32();
      if !ok {
        return false;
      }
      var skipped;
      ok, skipped := Read(length);
    }

    /** A zero in place of a tag is reported like the end of the stream. */
    method DecodeTag() returns (ok: bool, wire: nat, tag: nat, eof: bool)
      requires Valid()
      modifies this
      ensures Valid() && End() == old(End())
      ensures match DecodeSpec.DecodeTag(old(Rest()))
              case EndOfMessage(rest) => !ok && eof && Rest() == rest
              case BadTag => !ok && !eof
              case Tag(w, t, rest) => ok && !eof && wire == w && tag == t && Rest() == rest
    {
      var value: nat;
      ok, value, eof := DecodeVarint32Eof();
      if !ok {
        return false, 0, 0, eof;
      }
      if value == 0 {
        return false, 0, 0, true;
      }
      return true, value % 8, value / 8, false;
    }

    method SkipField(wire: nat) returns (ok: bool)
      requires Valid()
      modifies this
      ensures Valid() && End() == old(End())
      ensures ok <==> DecodeSpec.SkipField(wire, old(Rest())).Ok?
      ensures ok ==> Ok((), Rest()) == DecodeSpec.SkipField(wire, old(Rest()))
      ensures wire == 1 ==> (ok <==> old(bytesLeft) >= 8) && (ok ==> Rest() == old(Rest())[8..])
      ensures wire == 5 ==> (ok <==> old(bytesLeft) >= 4) && (ok ==> Rest() == old(Rest())[4..])
      ensures wire == 2 ==> (ok <==> Delimited(old(Rest())).Ok?)
      ensures wire > 0 && wire != 1 && wire != 2 && wire != 5 ==> !ok
    {
      var skipped;
      if wire == WT_VARINT {
        ok := SkipVarint();
      } else if wire == WT_64BIT {
        ok, skipped := Read(8);
      } else if wire == WT_STRING {
        ok := SkipString();
      } else if wire == WT_32BIT {
        ok, skipped := Read(4);
      } else {
        ok := false;
      }
    }

    /** Opens a window on the next length-delimited payload. Until it is closed this stream stands at the start of the
        payload while its count of bytes left already excludes it. */
    method MakeStringSubstream() returns (ok: bool, sub: IStream)
      requires Valid()
      modifies this
      ensures Valid() && fresh(sub) && sub.Valid() && sub.buf == buf
      ensures ok <==> Delimited(old(Rest())).Ok?
      ensures ok ==> sub.Rest() == Delimited(old(Rest())).value && sub.bytesLeft < old(bytesLeft)
      ensures ok ==> state == sub.state && state + sub.bytesLeft + bytesLeft == old(End())
      ensures ok ==> sub.End() + bytesLeft <= |buf|
      ensures ok ==> buf[sub.End()..sub.End() + bytesLeft] == Delimited(old(Rest())).rest
      ensures !ok ==> End() == old(End())
    {
      var size: nat;
      ok, size := DecodeVarint32();
      if !ok {
        sub := new IStream(buf, state, bytesLeft);
        return;
      }
      ghost var rest := Rest();
      sub := new IStream(buf, state, bytesLeft);
      if sub.bytesLeft < size {
        return false, sub;
      }
      sub.bytesLeft := size;
      bytesLeft := bytesLeft - size;
      SplitWindow(buf, state, size, bytesLeft);
    }

    /** Closing drains what is left of the window: however much of it was read, this stream then stands exactly at
        the end of the payload. */
    method CloseStringSubstream(sub: IStream) returns (ok: bool)
      requires Valid() && sub.Valid() && sub != this && sub.buf == buf
      requires sub.End() + bytesLeft <= |buf|
      modifies this, sub
      ensures ok && Valid() && state == old(sub.End()) && bytesLeft == old(bytesLeft)
      ensures Rest() == buf[old(sub.End())..old(sub.End()) + bytesLeft]
    {
      if sub.bytesLeft > 0 {
        var skipped;
        ok, skipped := sub.Read(sub.bytesLeft);
        if !ok {
          return false;
        }
      }
      state := sub.state;
      return true;
    }
  }
}
