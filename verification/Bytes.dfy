/** Bytes, parse results and the small amount of bit arithmetic that the wire format needs. */
module Bytes {

  type byte = x: int | 0 <= x < 256

  datatype Option<+T> = None | Some(value: T)

  /** The outcome of reading a value from the front of a byte string: the value and what is left. */
  datatype Parse<+T> = Fail | Ok(value: T, rest: seq<byte>)

  const TWO_31 := 0x8000_0000
  const TWO_32 := 0x1_0000_0000
  const TWO_63 := 0x8000_0000_0000_0000
  const TWO_64 := 0x1_0000_0000_0000_0000

  /** `v << k` on unbounded integers. */
  function Shl(v: nat, k: nat): (r: nat)
    ensures v <= r
  {
    if k == 0 then v else 2 * Shl(v, k - 1)
  }

  function Pow2(n: nat): (p: nat)
    ensures p >= 1
  {
    Shl(1, n)
  }

  lemma {:induction false} ShlAdd(a: nat, b: nat, k: nat)
    ensures Shl(a + b, k) == Shl(a, k) + Shl(b, k)
  {
    if k > 0 {
      ShlAdd(a, b, k - 1);
    }
  }

  lemma {:induction false} ShlMonotone(a: nat, b: nat, k: nat)
    requires a <= b
    ensures Shl(a, k) <= Shl(b, k)
  {
    ShlAdd(a, b - a, k);
  }

  lemma {:induction false} ShlShl(v: nat, j: nat, k: nat)
    ensures Shl(Shl(v, j), k) == Shl(v, j + k)
  {
    if k > 0 {
      ShlShl(v, j, k - 1);
    }
  }

  lemma ShlLow(v: nat)
    ensures Shl(v, 4) == 16 * v && Shl(v, 7) == 128 * v && Shl(v, 8) == 256 * v
  {
    assert Shl(v, 1) == 2 * v;
    assert Shl(v, 2) == 4 * v;
    assert Shl(v, 3) == 8 * v;
    assert Shl(v, 4) == 16 * v;
    assert Shl(v, 5) == 32 * v;
    assert Shl(v, 6) == 64 * v;
  }

  /** Moving seven bits at a time. */
  lemma Shl7(v: nat, k: nat)
    ensures Shl(v, k + 7) == Shl(128 * v, k)
    ensures Pow2(k + 7) == 128 * Pow2(k)
  {
    ShlLow(v);
    ShlShl(v, 7, k);
    ShlLow(Pow2(k));
    ShlShl(1, k, 7);
  }

  lemma {:induction false} Pow2Monotone(m: nat, n: nat)
    requires m <= n
    ensures Pow2(m) <= Pow2(n)
  {
    ShlShl(1, m, n - m);
  }

  /** The powers of two that are register widths. The exponent is a variable so that callers do not unfold it. */
  lemma Pow2At28(k: nat)
    requires k == 28
    ensures Pow2(k) == 0x1000_0000
  {
    ShlLow(1);
    Shl7(1, 7);
    Shl7(1, 14);
    Shl7(1, 21);
  }

  lemma Pow2At32(k: nat)
    requires k == 32
    ensures Pow2(k) == TWO_32
  {
    Pow2At28(28);
    ShlShl(1, 28, 4);
    ShlLow(Pow2(28));
  }

  lemma Pow2At64(k: nat)
    requires k == 64
    ensures Pow2(k) == TWO_64
  {
    Pow2At32(32);
    var m: nat := 32;
    Pow2Square(m);
  }

  lemma {:induction false} Pow2Square(m: nat)
    requires m == 32
    ensures Pow2(m + 32) == TWO_32 * TWO_32
  {
    var p := Pow2(m);
    ShlShl(1, m, 28);
    Shl28(p);
    Pow2At32(m);
    ShlShl(1, m + 28, 4);
    ShlLow(Pow2(m + 28));
  }

  lemma Shl28(w: nat)
    ensures Shl(w, 28) == 0x1000_0000 * w
  {
    ShlLow(w);
    ShlShl(w, 7, 7);
    ShlLow(128 * w);
    ShlShl(w, 14, 7);
    ShlLow(0x4000 * w);
    ShlShl(w, 21, 7);
    ShlLow(0x20_0000 * w);
  }

  lemma DoubleMod(x: nat, m: nat)
    requires m > 0
    ensures 2 * x % (2 * m) == 2 * (x % m)
  {
    var q, r := x / m, x % m;
    assert x == m * q + r;
    assert 2 * x == (2 * m) * q + 2 * r;
    QuotientUnique(2 * x, 2 * m, q, 2 * r);
  }

  lemma QuotientUnique(v: nat, m: nat, q: nat, r: nat)
    requires m > 0 && v == m * q + r && r < m
    ensures v / m == q && v % m == r
  {
    var k := v / m;
    assert v == m * k + v % m;
    if k < q {
      ProductStep(m, k, q);
      assert false;
    } else if q < k {
      ProductStep(m, q, k);
      assert false;
    }
  }

  lemma {:induction false} ProductStep(m: nat, a: nat, b: nat)
    requires a < b
    ensures m * a + m <= m * b
  {
    if a + 1 < b {
      ProductStep(m, a, b - 1);
    }
    assert m * b == m * (b - 1) + m;
  }

  /** Cutting a shifted number to `n` bits keeps its low `n - k` bits. */
  lemma {:induction false} ShlMod(d: nat, k: nat, n: nat)
    requires k <= n
    ensures Shl(d, k) % Pow2(n) == Shl(d % Pow2(n - k), k)
  {
    if k > 0 {
      ShlMod(d, k - 1, n - 1);
      DoubleMod(Shl(d, k - 1), Pow2(n - 1));
    }
  }

  /** The bits of a cut, shifted group lie between `k` and `n`. */
  lemma CutGroup(d: nat, k: nat, n: nat)
    requires k <= n
    ensures Shl(d, k) % Pow2(n) + Pow2(k) <= Pow2(n)
    ensures forall a :: 0 <= a < Pow2(k) ==> Or(a, Shl(d, k) % Pow2(n)) == a + Shl(d, k) % Pow2(n)
  {
    ShlMod(d, k, n);
    var c := d % Pow2(n - k);
    ShlAdd(c, 1, k);
    ShlMonotone(c + 1, Pow2(n - k), k);
    ShlShl(1, n - k, k);
    forall a | 0 <= a < Pow2(k)
      ensures Or(a, Shl(d, k) % Pow2(n)) == a + Shl(d, k) % Pow2(n)
    {
      OrDisjoint(a, c, k);
    }
  }

  /** Bitwise or of two unsigned integers. */
  function Or(a: nat, b: nat): (r: nat)
    decreases a + b
  {
    if a == 0 then b
    else if b == 0 then a
    else 2 * Or(a / 2, b / 2) + (if a % 2 == 1 || b % 2 == 1 then 1 else 0)
  }

  /** Or-ing in a group of bits above everything that is already set is addition. */
  lemma {:induction false} OrDisjoint(a: nat, b: nat, k: nat)
    requires a < Pow2(k)
    ensures Or(a, Shl(b, k)) == a + Shl(b, k)
    decreases k
  {
    if a != 0 && b != 0 {
      OrDisjoint(a / 2, b, k - 1);
      assert Shl(b, k) / 2 == Shl(b, k - 1) && Shl(b, k) % 2 == 0;
    } else if b == 0 {
      ShlAdd(0, 0, k);
    }
  }

  lemma {:induction false} OrBound(a: nat, b: nat, k: nat)
    requires a < Pow2(k) && b < Pow2(k)
    ensures Or(a, b) < Pow2(k)
    decreases k
  {
    if a != 0 && b != 0 {
      OrBound(a / 2, b / 2, k - 1);
    }
  }

  /** What is done, followed by what is to come. */
  function Followed(done: seq<byte>, rest: Option<seq<byte>>): Option<seq<byte>> {
    if rest.None? then None else Some(done + rest.value)
  }

  lemma NothingFollowed(rest: Option<seq<byte>>)
    ensures Followed([], rest) == rest
  {
    if rest.Some? {
      assert [] + rest.value == rest.value;
    }
  }

  lemma FollowedByNothing(done: seq<byte>)
    ensures Followed(done, Some([])) == Some(done)
  {
    assert done + [] == done;
  }

  /** One more part is done: what it means for the whole that the part fails, and that it succeeds. */
  lemma FollowStep(whole: Option<seq<byte>>, done: seq<byte>, first: Option<seq<byte>>, rest: Option<seq<byte>>)
    requires whole == Followed(done, if first.None? then None else Followed(first.value, rest))
    ensures first.None? ==> whole.None?
    ensures first.Some? ==> whole == Followed(done + first.value, rest)
    ensures first.Some? && whole.Some? ==> |done| + |first.value| <= |whole.value|
  {
    if first.Some? && rest.Some? {
      assert done + (first.value + rest.value) == done + first.value + rest.value;
    }
  }

  lemma FollowAgain(done: seq<byte>, part: seq<byte>, rest: Option<seq<byte>>)
    ensures Followed(done, Followed(part, rest)) == Followed(done + part, rest)
  {
    if rest.Some? {
      assert done + (part + rest.value) == done + part + rest.value;
    }
  }

  /** Little-endian bytes of the low `n` bytes of `v`. */
  function LittleEndian(v: nat, n: nat): (s: seq<byte>)
    ensures |s| == n
  {
    if n == 0 then [] else [v % 256] + LittleEndian(v / 256, n - 1)
  }

  function FromLittleEndian(s: seq<byte>): nat
  {
    if s == [] then 0 else s[0] + 256 * FromLittleEndian(s[1..])
  }

  lemma Pow2Byte(n: nat)
    ensures Pow2(8 * (n + 1)) == 256 * Pow2(8 * n)
  {
    ShlShl(1, 8 * n, 8);
    ShlLow(Pow2(8 * n));
  }

  lemma {:induction false} LittleEndianRoundTrip(v: nat, n: nat)
    requires v < Pow2(8 * n)
    ensures FromLittleEndian(LittleEndian(v, n)) == v
  {
    if n > 0 {
      Pow2Byte(n - 1);
      LittleEndianRoundTrip(v / 256, n - 1);
      assert LittleEndian(v, n)[1..] == LittleEndian(v / 256, n - 1);
    }
  }

  lemma {:induction false} FromLittleEndianBound(s: seq<byte>)
    ensures FromLittleEndian(s) < Pow2(8 * |s|)
  {
    if s != [] {
      FromLittleEndianBound(s[1..]);
      Pow2Byte(|s| - 1);
    }
  }
}
