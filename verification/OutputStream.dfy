/** Output streams: into a buffer, or only counting. */
module OutputStream {
  import opened Bytes
  import opened Varint

  /** `state` is the write position in the buffer. A stream without a writer counts the bytes and drops them. The ghost
      fields say what has gone through the stream, and what lies outside of its part of the buffer. */
  class OStream {
    const writing: bool
    const buf: array<byte>
    const maxSize: nat
    var state: nat
    var bytesWritten: nat

    ghost var log: seq<byte>
    ghost const base: nat
    ghost const limit: nat
    ghost const outside: seq<byte>

    /** The buffer up to the write position is the log, and beyond the limit it is as it was. */
    ghost predicate Valid()
      reads this, buf
    {
      base <= |log| && bytesWritten == |log| - base &&
      (writing ==>
        bytesWritten <= maxSize && limit == state + (maxSize - bytesWritten) <= buf.Length &&
        buf[..state] == log && buf[limit..] == outside)
    }

    /** Whether `n` more bytes are accepted. */
    predicate Room(n: nat)
      reads this
    {
      writing ==> bytesWritten + n <= maxSize
    }

    constructor FromBuffer(buf: array<byte>, size: nat)
      requires size <= buf.Length
      ensures Valid() && writing && this.buf == buf && maxSize == size && bytesWritten == 0 && log == []
      ensures outside == buf[size..] && limit == size
    {
      writing := true;
      this.buf := buf;
      state := 0;
      maxSize := size;
      bytesWritten := 0;
      log, base, limit, outside := [], 0, size, buf[size..];
    }

    constructor Sizing()
      ensures Valid() && !writing && bytesWritten == 0 && log == [] && fresh(buf)
    {
      writing := false;
      buf := new byte[0];
      state := 0;
      maxSize := 0;
      bytesWritten := 0;
      log, base, limit, outside := [], 0, 0, [];
    }

    /** A stream that goes on where another one stands, with a limit of its own. */
    constructor Window(stream: OStream, size: nat)
      requires stream.Valid() && stream.writing && stream.Room(size)
      ensures Valid() && writing && buf == stream.buf && state == stream.state && maxSize == size && bytesWritten == 0
      ensures log == stream.log && limit == state + size && outside == buf[limit..]
    {
      writing := true;
      buf := stream.buf;
      state := stream.state;
      maxSize := size;
      bytesWritten := 0;
      log, base, limit := stream.log, |stream.log|, stream.state + size;
      outside := stream.buf[stream.state + size..];
    }

    /** All of the bytes are written, or none. */
    method Write(data: seq<byte>) returns (ok: bool)
      requires Valid()
      modifies this, buf
      ensures Valid()
      ensures ok <==> old(Room(|data|))
      ensures log == old(log) + if ok then data else []
    {
      if |data| > 0 && writing {
        if bytesWritten + |data| > maxSize {
          return false;
        }
        BufWrite(data);
      }
      bytesWritten := bytesWritten + |data|;
      log := log + data;
      return true;
    }

    method BufWrite(data: seq<byte>)
      requires writing && state + |data| <= buf.Length
      modifies `state, buf
      ensures state == old(state) + |data|
      ensures buf[..state] == old(buf[..state]) + data
      ensures buf[state..] == old(buf[state + |data|..])
    {
      var i := 0;
      while i < |data|
        invariant 0 <= i <= |data| && state == old(state)
        invariant buf[..state + i] == old(buf[..state]) + data[..i]
        invariant buf[state + i..] == old(buf[..])[state + i..]
      {
        buf[state + i] := data[i];
        i := i + 1;
      }
      state := state + |data|;
    }

    /** Counts bytes without being given them. */
    method CountOnly(count: nat, ghost data: seq<byte>)
      requires Valid() && !writing && |data| == count
      modifies this
      ensures Valid() && log == old(log) + data
    {
      bytesWritten := bytesWritten + count;
      log := log + data;
    }

    /** Goes on where a window on this stream stopped. */
    method Adopt(window: OStream)
      requires window.Valid() && window.writing && window.buf == buf && window != this
      requires writing && window.base == |log| && log <= window.log && bytesWritten == |log| - base && base <= |log|
      requires window.limit <= limit <= buf.Length && bytesWritten + window.maxSize <= maxSize
      requires limit == state + (maxSize - bytesWritten) && window.limit == state + window.maxSize
      requires window.outside[limit - window.limit..] == outside
      modifies this
      ensures Valid() && log == window.log && bytesWritten == old(bytesWritten) + window.bytesWritten
    {
      bytesWritten := bytesWritten + window.bytesWritten;
      state := window.state;
      log := window.log;
      assert buf[limit..] == buf[window.limit..][limit - window.limit..];
    }

    method WriteVarint(value: nat) returns (ok: bool)
      requires Valid() && value < TWO_64
      modifies this, buf
      ensures Valid()
      ensures ok <==> old(Room(|EncodeVarint(value)|))
      ensures log == old(log) + if ok then EncodeVarint(value) else []
    {
      if value <= 0x7F {
        ok := Write([value]);
        return;
      }
      var bytes := VarintBytes(value);
      ok := Write(bytes);
    }
  }

  /** The groups of a varint are put into a ten-byte array; the last one loses its continuation bit. */
  method VarintBytes(value: nat) returns (bytes: seq<byte>)
    requires 0x7F < value < TWO_64
    ensures bytes == EncodeVarint(value)
  {
    var buffer: array<byte> := new byte[10](_ => 0);
    var i := 0;
    var v: nat := value;
    VarintFitsTenBytes(value);
    while v > 0
      invariant 0 <= i <= 10
      invariant v > 0 ==> EncodeVarint(value) == buffer[..i] + EncodeVarint(v)
      invariant v == 0 ==> i > 0 && buffer[i - 1] >= 128 &&
                           EncodeVarint(value) == buffer[..i - 1] + [buffer[i - 1] - 128]
      decreases v
    {
      assert |EncodeVarint(v)| >= 1;
      ghost var before := buffer[..i];
      buffer[i] := v % 128 + 128;
      assert buffer[..i] == before;
      v := v / 128;
      i := i + 1;
    }
    buffer[i - 1] := buffer[i - 1] - 128;
    bytes := buffer[..i];
  }
}
