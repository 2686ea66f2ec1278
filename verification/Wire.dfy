/** The bytes on the wire: what a number, a length and a record look like, type by type. */
module Wire {
  import opened Bytes
  import opened Varint
  import opened Schema
  import opened DecodeSpec
  import opened WellFormed
  import opened RoundTrip

  // ----- Varints -----

  /** The number that a string of seven-bit groups stands for, lowest group first. */
  function Base128(s: seq<byte>): nat {
    if s == [] then 0 else s[0] % 128 + 128 * Base128(s[1..])
  }

  /** The first byte of `s` without a continuation bit is byte `k`. */
  predicate EndsAt(s: seq<byte>, k: nat) {
    k < |s| && s[k] < 128 && forall i :: 0 <= i < k ==> s[i] >= 128
  }

  /** The encoder writes a number in base 128, ends it with its last group, and writes no empty group at the end. */
  lemma {:induction false} EncodedInBase128(v: nat)
    ensures var s := EncodeVarint(v);
            Base128(s) == v && EndsAt(s, |s| - 1) && (|s| > 1 ==> s[|s| - 1] != 0)
    decreases v
  {
    if v > 0x7F {
      var s, rest := EncodeVarint(v), EncodeVarint(v / 128);
      assert s[1..] == rest;
      EncodedInBase128(v / 128);
      assert forall i :: 0 < i < |s| ==> s[i] == rest[i - 1];
    } else {
      var s := EncodeVarint(v);
      assert s[1..] == [];
    }
  }

  lemma ModOfSum(a: nat, b: nat, m: nat)
    requires m > 0 && a + b % m < m
    ensures (a + b) % m == a + b % m
  {
    var q := b / m;
    assert a + b == m * q + (a + b % m);
    QuotientUnique(a + b, m, q, a + b % m);
  }

  /** A whole varint: all bytes but the last have a continuation bit. */
  predicate Whole(p: seq<byte>) {
    p != [] && EndsAt(p, |p| - 1)
  }

  lemma WholeFront(p: seq<byte>)
    requires Whole(p)
    ensures p == [p[0]] + p[1..]
    ensures |p| > 1 ==> p[0] >= 128 && Whole(p[1..])
    ensures |p| == 1 ==> p[0] < 128 && p == [p[0]]
  {
  }

  lemma Base128Front(b: byte, rest: seq<byte>)
    ensures Base128([b] + rest) == b % 128 + 128 * Base128(rest)
  {
    assert ([b] + rest)[1..] == rest;
  }

  /** The number that is read when `result` came from the bytes before byte `j`, and the others stand for `v`. */
  function Value64(result: nat, v: nat, j: nat): nat {
    (result + Shl(v, 7 * j)) % TWO_64
  }

  /** One byte of the 64-bit reader. */
  function Added64(b: byte, bitpos: nat, result: nat): nat {
    result + Shl(Low7(b), bitpos) % TWO_64
  }

  /** The 64-bit reader from byte `j` of a varint on. */
  lemma {:induction false} ReadsFrom64(p: seq<byte>, t: seq<byte>, j: nat, bitpos: nat, result: nat)
    requires Whole(p) && j < 10 && bitpos == 7 * j && result < Pow2(bitpos)
    ensures Varint64From(p + t, bitpos, result) ==
            if |p| + j <= 10 then Ok(Value64(result, Base128(p), j), t) else Fail
    decreases |p|
  {
    WholeFront(p);
    var b, rest := p[0], p[1..];
    Base128Front(b, rest);
    assert p + t == [b] + (rest + t);
    FrontAdded64(b, rest + t, bitpos, result);
    if |p| == 1 {
      assert rest + t == t && Base128(rest) == 0;
      LastGroup64(b, j, bitpos, result);
    } else if j < 9 {
      NextGroup64(b, Base128(rest), j, bitpos, result);
      ReadsFrom64(rest, t, j + 1, bitpos + 7, Added64(b, bitpos, result));
    }
  }

  lemma FrontAdded64(b: byte, rest: seq<byte>, bitpos: nat, result: nat)
    requires bitpos < 64
    ensures Varint64From([b] + rest, bitpos, result) ==
            var r := Added64(b, bitpos, result);
            if b < 128 then Ok(r, rest) else if bitpos + 7 >= 64 then Fail else Varint64From(rest, bitpos + 7, r)
  {
    Front64(b, rest, bitpos, result);
  }

  lemma LastGroup64(b: byte, j: nat, bitpos: nat, result: nat)
    requires b < 128 && j < 10 && bitpos == 7 * j && result < Pow2(bitpos)
    ensures Value64(result, b % 128 + 128 * 0, j) == Added64(b, bitpos, result)
  {
    var r := Grow64(b, bitpos, result);
    ModOfSum(result, Shl(b, bitpos), TWO_64);
  }

  lemma NextGroup64(b: byte, more: nat, j: nat, bitpos: nat, result: nat)
    requires b >= 128 && j < 9 && bitpos == 7 * j && result < Pow2(bitpos)
    ensures var r := Added64(b, bitpos, result);
            r < Pow2(bitpos + 7) && Value64(r, more, j + 1) == Value64(result, b % 128 + 128 * more, j)
  {
    var d := b % 128;
    Group(more, d, bitpos);
    Group(0, d, bitpos);
    NothingLost(d, j);
    assert bitpos + 7 == 7 * (j + 1);
  }

  /** The first nine groups fit. */
  lemma NothingLost(d: nat, j: nat)
    requires d < 128 && j < 9
    ensures Shl(d, 7 * j) % TWO_64 == Shl(d, 7 * j)
  {
    Group(0, d, 7 * j);
    Pow2Monotone(7 * j + 7, 64);
    Pow2At64(64);
    SmallMod(Shl(d, 7 * j), TWO_64);
  }

  /** Whatever the bytes, the 64-bit reader takes a varint of up to ten of them, padded or not, for its number modulo
      2^64. */
  lemma Varint64Meaning(p: seq<byte>, t: seq<byte>)
    requires Whole(p)
    ensures Varint64(p + t) == if |p| <= 10 then Ok(Base128(p) % TWO_64, t) else Fail
  {
    AtZero();
    ReadsFrom64(p, t, 0, 0, 0);
    assert Value64(0, Base128(p), 0) == Base128(p) % TWO_64;
  }

  lemma AtZero()
    ensures Pow2(0) == 1
  {
  }

  // ----- The 32-bit reader on any varint -----

  /** The number of the first `n` groups. */
  function LowGroups(p: seq<byte>, n: nat): nat {
    if p == [] || n == 0 then 0 else p[0] % 128 + 128 * LowGroups(p[1..], n - 1)
  }

  /** Bytes 5 and on of a varint add nothing, or repeat the sign bit of the number as bits 35 to 63. `p` begins with
      byte `i`. */
  predicate Padding(p: seq<byte>, i: nat, value: nat) {
    forall k :: 0 <= k < |p| && i + k >= 5 ==>
      p[k] % 128 == 0 || (value >= 0x8000_0000 && p[k] == if i + k < 9 then 0xFF else 0x01)
  }

  /** A varint that ends with byte 4 has no more than four bits there. */
  predicate LastFits(p: seq<byte>, i: nat) {
    i + |p| == 5 && p != [] ==> p[|p| - 1] < 16
  }

  /** The number that is read when `result` came from the bytes before byte `i`. */
  function Value32(p: seq<byte>, i: nat, result: nat): nat {
    if i < 5 then (result + Shl(LowGroups(p, 5 - i), 7 * i)) % TWO_32 else result
  }

  lemma PaddingFront(b: byte, rest: seq<byte>, i: nat, value: nat)
    ensures Padding([b] + rest, i, value) <==>
            Padding(rest, i + 1, value) &&
            (i >= 5 ==> b % 128 == 0 || (value >= 0x8000_0000 && b == if i < 9 then 0xFF else 0x01))
    ensures rest != [] ==> (LastFits([b] + rest, i) <==> LastFits(rest, i + 1))
  {
    var p := [b] + rest;
    assert forall k :: 0 <= k < |rest| ==> p[k + 1] == rest[k];
    assert p[0] == b;
    if Padding(p, i, value) {
      forall k | 0 <= k < |rest| && i + 1 + k >= 5
        ensures rest[k] % 128 == 0 || (value >= 0x8000_0000 && rest[k] == if i + 1 + k < 9 then 0xFF else 0x01)
      {
        assert p[k + 1] == rest[k];
      }
    }
  }

  /** One of the first four groups, and the fifth one, which is cut. */
  lemma LowFront(b: byte, rest: seq<byte>, i: nat, result: nat)
    requires 1 <= i <= 3 && result < Pow2(7 * i)
    ensures var r := Accumulate32(b, 7 * i, result);
            r == result + Shl(b % 128, 7 * i) && r < Pow2(7 * (i + 1)) <= TWO_32 &&
            result + Shl(LowGroups([b] + rest, 5 - i), 7 * i) == r + Shl(LowGroups(rest, 4 - i), 7 * (i + 1))
  {
    assert ([b] + rest)[1..] == rest;
    var d, more := b % 128, LowGroups(rest, 4 - i);
    Group(more, d, 7 * i);
    Group(0, d, 7 * i);
    ShiftFits32(d, 7 * i);
    assert 7 * i + 7 == 7 * (i + 1);
    Pow2At32(32);
    Pow2Monotone(7 * (i + 1), 32);
  }

  lemma CutFront(b: byte, rest: seq<byte>, result: nat)
    requires result < Pow2(28)
    ensures Accumulate32(b, 28, result) == Value32([b] + rest, 4, result) < TWO_32
  {
    assert ([b] + rest)[1..] == rest;
    assert LowGroups(rest, 0) == 0 && LowGroups([b] + rest, 1) == b % 128;
    Pow2At28(28);
    Grow32(b, 28, result);
    ModOfSum(result, Shl(b % 128, 28), TWO_32);
  }

  lemma ValueFront(b: byte, rest: seq<byte>, i: nat, result: nat)
    requires 1 <= i <= 36 && result < TWO_32 && (i < 5 ==> result < Pow2(7 * i))
    ensures var r := Accumulate32(b, 7 * i, result);
            r < TWO_32 && (i + 1 < 5 ==> r < Pow2(7 * (i + 1))) &&
            Value32([b] + rest, i, result) == Value32(rest, i + 1, r) &&
            (rest == [] ==> Value32([b] + rest, i, result) == r)
    ensures i >= 5 ==> Accumulate32(b, 7 * i, result) == result
  {
    if i < 4 {
      LowFront(b, rest, i, result);
      ShlOfNothing(7 * (i + 1));
      if rest == [] {
        SmallMod(Accumulate32(b, 7 * i, result), TWO_32);
      }
    } else if i == 4 {
      CutFront(b, rest, result);
    } else {
      StepBits(i);
    }
  }

  lemma {:induction false} ShlOfNothing(k: nat)
    ensures Shl(0, k) == 0
  {
    if k > 0 {
      ShlOfNothing(k - 1);
    }
  }

  lemma {:induction false} ReadsFrom32(p: seq<byte>, t: seq<byte>, i: nat, result: nat)
    requires Whole(p) && 1 <= i && i + |p| <= 37 && result < TWO_32 && (i < 5 ==> result < Pow2(7 * i))
    ensures Varint32From(p + t, 7 * i, result) ==
            var v := Value32(p, i, result);
            if Padding(p, i, v) && LastFits(p, i) then Ok(v, t) else Fail
    decreases |p|
  {
    WholeFront(p);
    var b, rest := p[0], p[1..];
    assert p + t == [b] + (rest + t);
    Front32(b, rest + t, 7 * i, result);
    ValueFront(b, rest, i, result);
    PaddingFront(b, rest, i, Value32(p, i, result));
    StepBits(i);
    if |p| == 1 {
      assert rest + t == t;
    } else {
      ReadsFrom32(rest, t, i + 1, Accumulate32(b, 7 * i, result));
    }
  }

  lemma StepBits(i: nat)
    requires 1 <= i <= 36
    ensures Low8(7 * i) == 7 * i && (7 * i >= 32 <==> i >= 5) && (7 * i < 63 <==> i < 9)
    ensures Low8(7 * i + 7) == 35 <==> i == 4
    ensures 7 * i + 7 == 7 * (i + 1)
  {
  }

  /** Whatever the bytes, up to the wrap-around of its counter after 36 of them: the 32-bit reader takes the low 32 bits
      of the first five groups, if the rest is padding. */
  lemma Varint32Meaning(p: seq<byte>, t: seq<byte>)
    requires Whole(p) && |p| <= 37
    ensures Varint32(p + t) ==
            var v := Base128(p[..if |p| < 5 then |p| else 5]) % 0x1_0000_0000;
            if (forall k :: 5 <= k < |p| ==>
                  p[k] % 128 == 0 || (v >= 0x8000_0000 && p[k] == if k < 9 then 0xFF else 0x01)) &&
               (|p| == 5 ==> p[4] < 16) then Ok(v, t) else Fail
  {
    LowIsBase128(p, 5);
    var v := LowGroups(p, 5) % TWO_32;
    FirstByte(p, t, 1, v);
    assert Padding(p, 0, v) <==> forall k :: 5 <= k < |p| ==>
      p[k] % 128 == 0 || (v >= 0x8000_0000 && p[k] == if k < 9 then 0xFF else 0x01);
  }

  lemma FirstByte(p: seq<byte>, t: seq<byte>, i: nat, v: nat)
    requires Whole(p) && |p| <= 37 && i == 1 && v == LowGroups(p, 6 - i) % TWO_32
    ensures Varint32(p + t) == if Padding(p, 0, v) && LastFits(p, 0) then Ok(v, t) else Fail
  {
    WholeFront(p);
    var b, rest := p[0], p[1..];
    assert (p + t)[1..] == rest + t && (p + t)[0] == b;
    FirstValue(b, rest, i);
    PaddingFront(b, rest, 0, v);
    if |p| == 1 {
      assert rest == [] && rest + t == t;
      assert Padding(rest, 1, v);
    } else {
      SecondByte(p, t, b, rest, i);
    }
  }

  lemma SecondByte(p: seq<byte>, t: seq<byte>, b: byte, rest: seq<byte>, i: nat)
    requires p == [b] + rest && b >= 128 && Whole(rest) && |rest| <= 36 && i == 1 && b % 128 < Pow2(7 * i)
    ensures Varint32(p + t) ==
            var v := Value32(rest, i, b % 128);
            if Padding(rest, i, v) && LastFits(rest, i) then Ok(v, t) else Fail
  {
    assert (p + t)[1..] == rest + t && (p + t)[0] == b;
    ReadsFrom32(rest, t, i, b % 128);
  }

  lemma FirstValue(b: byte, rest: seq<byte>, i: nat)
    requires i == 1
    ensures b % 128 < Pow2(7 * i)
    ensures LowGroups([b] + rest, 6 - i) % TWO_32 == Value32(rest, i, b % 128)
    ensures rest == [] ==> LowGroups([b] + rest, 6 - i) % TWO_32 == b % 128
  {
    assert ([b] + rest)[1..] == rest;
    ShlLow(LowGroups(rest, 5 - i));
    ShlLow(1);
  }

  lemma {:induction false} LowIsBase128(p: seq<byte>, n: nat)
    ensures LowGroups(p, n) == Base128(p[..if |p| < n then |p| else n])
    decreases n
  {
    if p != [] && n > 0 {
      LowIsBase128(p[1..], n - 1);
      var m := if |p| < n then |p| else n;
      assert p[..m][1..] == p[1..][..m - 1];
    }
  }

  lemma {:induction false} EmptyGroups(n: nat, t: seq<byte>, bitpos: nat)
    ensures Varint32From(seq(n, _ => 128) + t, bitpos, 0) == Varint32From(t, bitpos + 7 * n, 0)
    decreases n
  {
    var empty: seq<byte> := seq(n, _ => 128);
    if n == 0 {
      assert empty + t == t;
    } else {
      var fewer: seq<byte> := seq(n - 1, _ => 128);
      assert empty + t == [128] + (fewer + t);
      Front32(128, fewer + t, bitpos, 0);
      ShlOfNothing(Low8(bitpos));
      ShlOfNothing(bitpos);
      EmptyGroups(n - 1, t, bitpos + 7);
    }
  }

  /** The wrap-around shows: 37 empty groups and a 1, which stand for 2^259, read as 8. */
  lemma CounterWrapsAround(s: seq<byte>, t: seq<byte>)
    requires |s| == 38 && s[37] == 1 && forall i :: 0 <= i < 37 ==> s[i] == 128
    ensures Varint32(s + t) == Ok(8, t)
  {
    var empty: seq<byte> := seq(36, _ => 128);
    assert s + t == [128] + (empty + ([1] + t));
    assert (s + t)[1..] == empty + ([1] + t);
    EmptyGroups(36, [1] + t, 7);
    Front32(1, t, 259, 0);
    assert Shl(1, 1) == 2 && Shl(1, 2) == 4 && Shl(1, 3) == 8;
  }

  /** It rejects what does not end, and so do the 32-bit reader and the skipper. */
  predicate Endless(s: seq<byte>) {
    forall i :: 0 <= i < |s| ==> s[i] >= 128
  }

  lemma {:induction false} EndlessFails(s: seq<byte>, bitpos: nat, result: nat)
    requires Endless(s)
    ensures Varint64From(s, bitpos, result) == Fail && Varint32From(s, bitpos, result) == Fail && SkipVarint(s) == Fail
    decreases |s|
  {
    if s != [] {
      EndlessFails(s[1..], bitpos + 7, result + Shl(Low7(s[0]), bitpos) % TWO_64);
      EndlessFails(s[1..], bitpos + 7, Accumulate32(s[0], bitpos, result));
    }
  }

  /** Every string begins with a varint or has no end of one. */
  lemma {:induction false} WholeOrEndless(s: seq<byte>) returns (n: nat)
    requires !Endless(s)
    ensures n <= |s| && Whole(s[..n])
    decreases |s|
  {
    if s[0] < 128 {
      n := 1;
    } else {
      var m := WholeOrEndless(s[1..]);
      n := m + 1;
      assert s[1..][..m] == s[..n][1..];
    }
  }

  lemma EndlessIsRejected(s: seq<byte>)
    requires Endless(s)
    ensures Varint64(s) == Fail && Varint32(s) == Fail && SkipVarint(s) == Fail
  {
    EndlessFails(s, 0, 0);
    if s != [] {
      EndlessFails(s[1..], 7, Low7(s[0]));
    }
  }

  /** Zigzag: 0, -1, 1, -2, ... become 0, 1, 2, 3, ... */
  lemma ZigZagIs(x: int, u: nat)
    requires -TWO_63 <= x < TWO_63 && u < TWO_64
    ensures ZigZag(x) == if x < 0 then -2 * x - 1 else 2 * x
    ensures UnZigZag(u) == if u % 2 == 1 then -(u / 2) - 1 else u / 2
  {
    if x < 0 {
      var y := x + TWO_64;
      assert 2 * y == TWO_64 + (TWO_64 + 2 * x);
      QuotientUnique(2 * y, TWO_64, 1, TWO_64 + 2 * x);
    } else {
      SmallMod(2 * x, TWO_64);
    }
  }

  // ----- Fixed-width numbers -----

  /** The four bytes of a 32-bit number, lowest first. */
  function FourBytes(n: nat): seq<byte> {
    [n % 256, n / 0x100 % 256, n / 0x1_0000 % 256, n / 0x100_0000 % 256]
  }

  lemma LittleEndianIs(n: nat)
    ensures LittleEndian(n, 4) == FourBytes(n)
    ensures LittleEndian(n, 8) == FourBytes(n) + FourBytes(n / 0x1_0000_0000)
  {
    var a := n / 256;
    var b := a / 256;
    var c := b / 256;
    var d := c / 256;
    assert b == n / 0x1_0000 && c == n / 0x100_0000 && d == n / 0x1_0000_0000;
    LittleEndian4(n, a, b, c, 0);
    LittleEndian4(n, a, b, c, 4);
    LittleEndian4(d, d / 256, d / 256 / 256, d / 256 / 256 / 256, 0);
    assert d / 256 / 256 == d / 0x1_0000 && d / 256 / 256 / 256 == d / 0x100_0000;
  }

  lemma LittleEndian4(n: nat, a: nat, b: nat, c: nat, k: nat)
    requires a == n / 256 && b == a / 256 && c == b / 256
    ensures LittleEndian(n, k + 4) == [n % 256, a % 256, b % 256, c % 256] + LittleEndian(c / 256, k)
  {
    assert LittleEndian(c, k + 1) == [c % 256] + LittleEndian(c / 256, k);
    assert LittleEndian(b, k + 2) == [b % 256] + LittleEndian(c, k + 1);
    assert LittleEndian(a, k + 3) == [a % 256] + LittleEndian(b, k + 2);
  }

  /** The number with these four bytes, lowest first. */
  function OfFourBytes(a: nat, b: nat, c: nat, d: nat): nat {
    a + 0x100 * b + 0x1_0000 * c + 0x100_0000 * d
  }

  lemma FromLittleEndianIs(s: seq<byte>)
    ensures |s| == 4 ==> FromLittleEndian(s) == OfFourBytes(s[0], s[1], s[2], s[3])
    ensures |s| == 8 ==>
              FromLittleEndian(s) ==
              OfFourBytes(s[0], s[1], s[2], s[3]) + 0x1_0000_0000 * OfFourBytes(s[4], s[5], s[6], s[7])
  {
    if |s| == 4 {
      FromFour(s, []);
      assert s + [] == s;
    } else if |s| == 8 {
      FromFour(s[..4], s[4..]);
      FromFour(s[4..], []);
      assert s[4..] + [] == s[4..] && s[..4] + s[4..] == s;
    }
  }

  lemma LowFirst(b: byte, rest: seq<byte>)
    ensures FromLittleEndian([b] + rest) == b + 256 * FromLittleEndian(rest)
  {
    assert ([b] + rest)[1..] == rest;
  }

  lemma FromFour(s: seq<byte>, rest: seq<byte>)
    requires |s| == 4
    ensures FromLittleEndian(s + rest) ==
            OfFourBytes(s[0], s[1], s[2], s[3]) + 0x1_0000_0000 * FromLittleEndian(rest)
  {
    var d := [s[3]] + rest;
    var c := [s[2]] + d;
    var b := [s[1]] + c;
    assert s + rest == [s[0]] + b;
    LowFirst(s[3], rest);
    LowFirst(s[2], d);
    LowFirst(s[1], c);
    LowFirst(s[0], b);
  }

  // ----- Skipping -----

  lemma {:induction false} SkipsWhole(p: seq<byte>, t: seq<byte>)
    requires Whole(p)
    ensures SkipVarint(p + t) == Ok((), t)
    decreases |p|
  {
    WholeFront(p);
    var rest := p[1..];
    assert (p + t)[1..] == rest + t;
    if |p| == 1 {
      assert rest + t == t;
    } else {
      SkipsWhole(rest, t);
    }
  }

  /** What a record of each wire type takes up when it is skipped: eight bytes for 1, four for 5, a length and as many
      bytes for 2. Of the others, only 0 can be skipped, to the end of the varint. */
  lemma SkippedBytes(wire: nat, s: seq<byte>)
    ensures wire == 0 ==> forall p, t :: Whole(p) && s == p + t ==> SkipField(wire, s) == Ok((), t)
    ensures wire == 0 && Endless(s) ==> SkipField(wire, s) == Fail
    ensures wire == 1 ==> SkipField(wire, s) == if |s| >= 8 then Ok((), s[8..]) else Fail
    ensures wire == 5 ==> SkipField(wire, s) == if |s| >= 4 then Ok((), s[4..]) else Fail
    ensures wire == 2 ==>
              SkipField(wire, s) ==
              match Varint32(s)
              case Fail => Fail
              case Ok(n, rest) => if n <= |rest| then Ok((), rest[n..]) else Fail
    ensures wire > 0 && wire != 1 && wire != 2 && wire != 5 ==> SkipField(wire, s) == Fail
  {
    if wire == 0 {
      forall p, t | Whole(p) && s == p + t
        ensures SkipField(wire, s) == Ok((), t)
      {
        SkipsWhole(p, t);
      }
      if Endless(s) {
        EndlessIsRejected(s);
      }
    }
  }

  /** So the decoder goes on behind a field that it does not know. */
  lemma UnknownIsSkipped(fields: seq<Field>, st: DecodeState, tag: nat, wire: nat, s: seq<byte>)
    requires 1 <= tag < TAG_LIMIT && wire < 8 && forall i :: 0 <= i < |fields| ==> fields[i].tag != tag
    ensures var p := DecodeLoop(fields, st, EncodeVarint(8 * tag + wire) + s);
            (wire == 0 && Endless(s) ==> p == Fail) &&
            (wire == 1 ==> p == if |s| >= 8 then DecodeLoop(fields, st, s[8..]) else Fail) &&
            (wire == 5 ==> p == if |s| >= 4 then DecodeLoop(fields, st, s[4..]) else Fail) &&
            (wire == 2 ==>
              p == match Varint32(s)
                   case Fail => Fail
                   case Ok(n, rest) => if n <= |rest| then DecodeLoop(fields, st, rest[n..]) else Fail) &&
            (wire in {3, 4, 6, 7} ==> p == Fail)
    ensures wire == 0 ==>
              forall p, t :: Whole(p) && s == p + t ==>
                DecodeLoop(fields, st, EncodeVarint(8 * tag + wire) + s) == DecodeLoop(fields, st, t)
  {
    TagRoundTrip(tag, wire, s);
    assert Find(fields, tag).None?;
    SkippedBytes(wire, s);
    assert DecodeRecord(fields, st, wire, tag, s) ==
           var p := SkipField(wire, s); if p.Fail? then Fail else Ok(st, p.rest);
  }
}
