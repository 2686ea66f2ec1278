/** Encoding negative numbers with 32-bit registers only: the upper 32 bits of the sign extension are never held, they
    are shifted in from a counter of missing ones. */
module NegativeVarint {
  import opened Bytes
  import opened Varint
  import opened OutputStream

  /** Bitwise exclusive or of two unsigned integers. */
  function Xor(a: nat, b: nat): nat
    decreases a + b
  {
    if a == 0 then b
    else if b == 0 then a
    else 2 * Xor(a / 2, b / 2) + (if a % 2 != b % 2 then 1 else 0)
  }

  lemma {:induction false} XorDisjoint(a: nat, b: nat, k: nat)
    requires a < Pow2(k)
    ensures Xor(a, Shl(b, k)) == a + Shl(b, k)
    decreases k
  {
    if a != 0 && b != 0 {
      XorDisjoint(a / 2, b, k - 1);
      assert Shl(b, k) / 2 == Shl(b, k - 1) && Shl(b, k) % 2 == 0;
    } else if b == 0 {
      ShlAdd(0, 0, k);
    }
  }

  /** `0xFF >> (8 - bits)` */
  function Ones(bits: nat): byte
    requires bits <= 8
    decreases 8 - bits
  {
    if bits == 8 then 0xFF else Ones(bits + 1) / 2
  }

  lemma {:induction false} OnesArePow2(bits: nat)
    requires bits <= 8
    ensures Ones(bits) == Pow2(bits) - 1
    decreases 8 - bits
  {
    if bits == 8 {
      ShlLow(1);
    } else {
      OnesArePow2(bits + 1);
    }
  }

  /** The number still to be written: a register, below as many ones as are missing. */
  function Remaining(register: nat, missing: nat): nat {
    register + (Pow2(missing) - 1) * TWO_32
  }

  /** How many ones are moved into the register next. */
  function Moved(missing: nat): (bits: nat)
    ensures bits <= missing && bits <= 7
  {
    if missing > 7 then 7 else missing
  }

  lemma ShlAt25(v: nat, k: nat)
    requires k == 25
    ensures Shl(v, k) == 0x200_0000 * v
  {
    ShlLow(v);
    ShlShl(v, 4, 7);
    ShlLow(16 * v);
    ShlShl(v, 11, 7);
    ShlLow(0x800 * v);
    ShlShl(v, 18, 7);
    ShlLow(0x4_0000 * v);
  }

  /** Writing one group and moving ones in divides what remains by 128. */
  lemma Compensate(register: nat, missing: nat)
    requires register < TWO_32 && missing in {32, 25, 18, 11, 4}
    ensures var bits := Moved(missing);
            var next := Xor(register / 128, Shl(Ones(bits), 25));
            0 < next < TWO_32 && Remaining(next, missing - bits) == Remaining(register, missing) / 128
    ensures register % 128 == Remaining(register, missing) % 128
  {
    var bits, k: nat := Moved(missing), 25;
    var low := register / 128;
    var ones := Ones(bits);
    var after := Pow2(missing - bits);
    ShlAt25(1, k);
    ShlAt25(ones, k);
    XorDisjoint(low, ones, k);
    OnesArePow2(bits);
    ShlLow(1);
    if missing == 4 {
      assert after == 1 && ones == 15;
    } else {
      Shl7(1, missing - 7);
      assert ones == 127;
    }
    assert Pow2(missing) == (ones + 1) * after;
    if missing == 4 {
      assert Remaining(register, missing) == register + 15 * TWO_32;
    } else {
      assert Remaining(register, missing) == register + (128 * after - 1) * TWO_32;
    }
  }

  /** One step of the loop, on the register and the number of missing ones. */
  function Step(register: nat, missing: nat): (nat, nat) {
    var bits := Moved(missing);
    (if missing > 0 then Xor(register / 128, Shl(Ones(bits), 25)) else register / 128, missing - bits)
  }

  /** What the loop keeps of its two counters. */
  predicate Counters(register: nat, missing: nat) {
    missing in {32, 25, 18, 11, 4, 0} && register < TWO_32 && (missing > 0 ==> register > 0)
  }

  lemma StepDivides(register: nat, missing: nat)
    requires Counters(register, missing) && register > 0
    ensures var next := Step(register, missing);
            Counters(next.0, next.1) && Remaining(next.0, next.1) == Remaining(register, missing) / 128
    ensures register % 128 == Remaining(register, missing) % 128
    ensures Remaining(register, missing) <= 0x7F <==> Step(register, missing).0 == 0
  {
    if missing > 0 {
      Compensate(register, missing);
      Pow2Monotone(1, missing);
    }
  }

  /** The groups still to be written. */
  function Rest(register: nat, missing: nat): seq<byte> {
    EncodeVarint(Remaining(register, missing))
  }

  /** Takes a group off the register and moves ones in. */
  method NextGroup(register: nat, missing: nat) returns (group: byte, next: nat, left: nat)
    requires Counters(register, missing) && register > 0
    ensures Counters(next, left) && (left < missing || (left == missing && next < register))
    ensures group < 128
    ensures Rest(register, missing) == if next == 0 then [group] else [group + 128] + Rest(next, left)
  {
    StepDivides(register, missing);
    group, next, left := register % 128, register / 128, missing;
    if missing > 0 {
      var bits := Moved(missing);
      next := Xor(next, Shl(Ones(bits), 25));
      left := missing - bits;
    }
  }

  method NegativeVarintBytes(value: nat) returns (bytes: seq<byte>)
    requires TWO_31 <= value < TWO_32
    ensures bytes == EncodeVarint(SignExtended(value))
    ensures |bytes| == 10
  {
    ExtensionWidth(value, 32);
    bytes := CompensatedVarint(value, 32);
  }

  /** The groups that are done have their continuation bit set; the last of all has to lose it again. */
  predicate Emitted(whole: seq<byte>, done: seq<byte>, rest: seq<byte>) {
    var n := |done|;
    if rest != [] then whole == done + rest
    else n > 0 && done[n - 1] >= 128 && whole == done[..n - 1] + [done[n - 1] - 128]
  }

  function RestOrNone(register: nat, missing: nat): seq<byte> {
    if register == 0 then [] else Rest(register, missing)
  }

  lemma EmitGroup(whole: seq<byte>, done: seq<byte>, group: byte, rest: seq<byte>)
    requires group < 128 && whole == done + if rest == [] then [group] else [group + 128] + rest
    ensures Emitted(whole, done + [group + 128], rest)
    ensures |done| < |whole|
  {
    assert (done + [group + 128])[..|done|] == done;
  }

  method CompensatedVarint(value: nat, missing: nat) returns (bytes: seq<byte>)
    requires Counters(value, missing) && value > 0 && |Rest(value, missing)| <= 10
    ensures bytes == Rest(value, missing)
  {
    var buffer: array<byte> := new byte[10](_ => 0);
    var i, compensation, register: nat := 0, missing, value;
    ghost var whole := Rest(value, missing);
    ghost var done, rest: seq<byte> := [], whole;
    while register > 0
      invariant Counters(register, compensation) && 0 <= i <= |whole| && buffer[..i] == done
      invariant Emitted(whole, done, rest) && (register == 0 <==> rest == [])
      invariant register > 0 ==> rest == Rest(register, compensation)
      decreases compensation, register
    {
      var group: byte;
      group, register, compensation := NextGroup(register, compensation);
      rest := RestOrNone(register, compensation);
      EmitGroup(whole, done, group, rest);
      buffer[i] := group + 128;
      done := done + [group + 128];
      i := i + 1;
    }
    buffer[i - 1] := buffer[i - 1] - 128;
    bytes := buffer[..i];
  }

  lemma ExtensionWidth(value: nat, missing: nat)
    requires TWO_31 <= value < TWO_32 && missing == 32
    ensures SignExtended(value) == Remaining(value, missing) < TWO_64
    ensures |EncodeVarint(SignExtended(value))| == 10
  {
    Pow2At32(missing);
    VarintFitsTenBytes(SignExtended(value));
    var n: nat := 63;
    NeedsTenBytes(SignExtended(value), n);
  }

  lemma NeedsTenBytes(v: nat, n: nat)
    requires TWO_63 <= v && n == 63
    ensures |EncodeVarint(v)| > 9
  {
    Pow2At64(n + 1);
    VarintLength(v, 9);
  }

  /** The bytes are those of the 64-bit encoder for the same number. */
  lemma NegativeIsExtended(n: int)
    requires -TWO_31 <= n < 0
    ensures EncodeVarint(n % TWO_64) == EncodeVarint(SignExtended(n + TWO_32))
  {
    assert n % TWO_64 == n + TWO_64;
  }

  method EncodeNegativeVarint(stream: OStream, n: int) returns (ok: bool)
    requires stream.Valid() && -TWO_31 <= n < 0
    modifies stream, stream.buf
    ensures stream.Valid()
    ensures ok <==> old(stream.Room(10))
    ensures stream.log == old(stream.log) + if ok then EncodeVarint(n % TWO_64) else []
  {
    NegativeIsExtended(n);
    var bytes := NegativeVarintBytes(n + TWO_32);
    ok := stream.Write(bytes);
  }
}
