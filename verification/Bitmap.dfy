/** The bitmap in which the decoder notes which required fields have occurred: two 32-bit words. */
module Bitmap {
  import opened Bytes
  import opened Schema
  import opened DecodeSpec

  // ----- Bits of an unsigned word -----

  predicate Bit(w: nat, k: nat) {
    if k == 0 then w % 2 == 1 else Bit(w / 2, k - 1)
  }

  /** `w >> k`. */
  function Shr(w: nat, k: nat): nat {
    if k == 0 then w else Shr(w / 2, k - 1)
  }

  lemma {:induction false} NoBits(k: nat)
    ensures !Bit(0, k)
  {
    if k > 0 {
      NoBits(k - 1);
    }
  }

  lemma OrHalf(a: nat, b: nat)
    ensures Or(a, b) / 2 == Or(a / 2, b / 2)
    ensures Or(a, b) % 2 == 1 <==> a % 2 == 1 || b % 2 == 1
  {
    if a != 0 && b != 0 {
      var c := Or(a / 2, b / 2);
      assert Or(a, b) == 2 * c + (if a % 2 == 1 || b % 2 == 1 then 1 else 0);
    }
  }

  lemma {:induction false} OrBit(a: nat, b: nat, k: nat)
    ensures Bit(Or(a, b), k) <==> Bit(a, k) || Bit(b, k)
    decreases k
  {
    OrHalf(a, b);
    if k > 0 {
      OrBit(a / 2, b / 2, k - 1);
    }
  }

  lemma {:induction false} OneBit(k: nat, j: nat)
    ensures Bit(Shl(1, k), j) <==> j == k
  {
    if k == 0 {
      if j > 0 {
        NoBits(j - 1);
      }
    } else {
      assert Shl(1, k) / 2 == Shl(1, k - 1) && Shl(1, k) % 2 == 0;
      if j > 0 {
        OneBit(k - 1, j - 1);
      }
    }
  }

  /** A word of `n` bits is determined by them. */
  lemma {:induction false} SameBits(v: nat, w: nat, n: nat)
    requires v < Pow2(n) && w < Pow2(n)
    requires forall k :: 0 <= k < n ==> (Bit(v, k) <==> Bit(w, k))
    ensures v == w
    decreases n
  {
    if n > 0 {
      assert Bit(v, 0) <==> Bit(w, 0);
      forall k | 0 <= k < n - 1
        ensures Bit(v / 2, k) <==> Bit(w / 2, k)
      {
        assert Bit(v, k + 1) <==> Bit(w, k + 1);
      }
      SameBits(v / 2, w / 2, n - 1);
    }
  }

  lemma {:induction false} LowBits(n: nat, k: nat)
    ensures Bit(Pow2(n) - 1, k) <==> k < n
  {
    if n == 0 {
      NoBits(k);
    } else if k > 0 {
      assert (Pow2(n) - 1) / 2 == Pow2(n - 1) - 1;
      LowBits(n - 1, k - 1);
    }
  }

  lemma {:induction false} ShrOnes(n: nat, m: nat)
    requires m <= n
    ensures Shr(Pow2(n) - 1, m) == Pow2(n - m) - 1
    decreases m
  {
    if m > 0 {
      assert (Pow2(n) - 1) / 2 == Pow2(n - 1) - 1;
      ShrOnes(n - 1, m - 1);
    }
  }

  // ----- Two words -----

  const ALL_BITS: nat := 0xFFFF_FFFF

  /** Two unsigned 32-bit words. */
  predicate Words(words: seq<nat>) {
    |words| == 2 && words[0] < Pow2(32) && words[1] < Pow2(32)
  }

  /** Bit `i` of the two words. */
  predicate Has(words: seq<nat>, i: nat)
    requires |words| == 2 && i < MAX_REQUIRED_FIELDS
  {
    Bit(words[i / 32], i % 32)
  }

  /** The first `count` bits are set. */
  predicate HasFirst(words: seq<nat>, count: nat)
    requires |words| == 2 && count <= MAX_REQUIRED_FIELDS
  {
    forall j :: 0 <= j < count ==> Has(words, j)
  }

  method MarkSeen(seen: array<nat>, index: nat)
    requires seen.Length == 2 && Words(seen[..]) && index < MAX_REQUIRED_FIELDS
    modifies seen
    ensures Words(seen[..])
    ensures forall j :: 0 <= j < MAX_REQUIRED_FIELDS ==> (Has(seen[..], j) <==> Has(old(seen[..]), j) || j == index)
  {
    ghost var was := seen[..];
    seen[index / 32] := Or(seen[index / 32], Shl(1, index % 32));
    MarkedBits(was, seen[..], index);
  }

  lemma MarkedBits(was: seq<nat>, words: seq<nat>, index: nat)
    requires Words(was) && index < MAX_REQUIRED_FIELDS
    requires words == was[index / 32 := Or(was[index / 32], Shl(1, index % 32))]
    ensures Words(words)
    ensures forall j :: 0 <= j < MAX_REQUIRED_FIELDS ==> (Has(words, j) <==> Has(was, j) || j == index)
  {
    var w, k := index / 32, index % 32;
    OneShl(k, 32);
    OrBound(was[w], Shl(1, k), 32);
    forall j | 0 <= j < MAX_REQUIRED_FIELDS
      ensures Has(words, j) <==> Has(was, j) || j == index
    {
      OrBit(was[w], Shl(1, k), j % 32);
      OneBit(k, j % 32);
    }
  }

  lemma OneShl(k: nat, n: nat)
    requires k < n
    ensures Shl(1, k) < Pow2(n)
  {
    Pow2Monotone(k + 1, n);
  }

  /** Comparing whole words, and the low bits of the last one, asks for exactly the first `count` bits, as long as no
      higher bit was ever set. */
  method AllSeen(seen: array<nat>, count: nat) returns (ok: bool)
    requires seen.Length == 2 && Words(seen[..]) && count <= MAX_REQUIRED_FIELDS
    requires forall j :: count <= j < MAX_REQUIRED_FIELDS ==> !Has(seen[..], j)
    ensures ok <==> HasFirst(seen[..], count)
  {
    var i := 0;
    while i < count / 32
      invariant 0 <= i <= count / 32
      invariant HasFirst(seen[..], 32 * i)
    {
      WordIsFull(seen[..], i, 32);
      if seen[i] != ALL_BITS {
        return false;
      }
      i := i + 1;
    }
    if count % 32 != 0 {
      WordIsFull(seen[..], count / 32, count % 32);
      if seen[count / 32] != Shr(ALL_BITS, 32 - count % 32) {
        return false;
      }
    }
    return true;
  }

  /** A word without bits from `n` on equals the low `n` ones exactly if it has all of these bits. */
  lemma WordIsFull(words: seq<nat>, w: nat, n: nat)
    requires Words(words) && w < 2 && 0 < n <= 32
    requires forall j :: 32 * w + n <= j < 32 * w + 32 ==> !Has(words, j)
    ensures words[w] == Shr(ALL_BITS, 32 - n) <==> forall j :: 32 * w <= j < 32 * w + n ==> Has(words, j)
    ensures n == 32 ==> Shr(ALL_BITS, 32 - n) == ALL_BITS
  {
    Pow2At32(32);
    ShrOnes(32, 32 - n);
    var ones := Pow2(n) - 1;
    forall k | 0 <= k < 32
      ensures Bit(ones, k) <==> k < n
      ensures Bit(words[w], k) <==> Has(words, 32 * w + k)
    {
      LowBits(n, k);
      WordIndex(w, k);
    }
    if forall j :: 32 * w <= j < 32 * w + n ==> Has(words, j) {
      Pow2Monotone(n, 32);
      SameBits(words[w], ones, 32);
    } else {
      var j :| 32 * w <= j < 32 * w + n && !Has(words, j);
      assert !Bit(words[w], j - 32 * w);
    }
    if words[w] == ones {
      forall j | 32 * w <= j < 32 * w + n
        ensures Has(words, j)
      {
        assert Bit(words[w], j - 32 * w);
      }
    }
  }

  lemma WordIndex(w: nat, k: nat)
    requires k < 32
    ensures (32 * w + k) / 32 == w && (32 * w + k) % 32 == k
  {
  }

  // ----- Required fields by number -----

  lemma {:induction false} RequiredIndexMonotone(fields: seq<Field>, i: nat, j: nat)
    requires i <= j <= |fields|
    ensures RequiredIndex(fields, i) <= RequiredIndex(fields, j)
    ensures i < j && fields[i].htype.Required? ==> RequiredIndex(fields, i) < RequiredIndex(fields, j)
    decreases j
  {
    if i < j {
      RequiredIndexMonotone(fields, i, j - 1);
    }
  }

  /** Every number below the count is the number of a required field. */
  lemma {:induction false} RequiredFieldOf(fields: seq<Field>, n: nat, j: nat) returns (i: nat)
    requires n <= |fields| && j < RequiredIndex(fields, n)
    ensures i < n && fields[i].htype.Required? && RequiredIndex(fields, i) == j
    decreases n
  {
    if fields[n - 1].htype.Required? && RequiredIndex(fields, n - 1) == j {
      i := n - 1;
    } else {
      i := RequiredFieldOf(fields, n - 1, j);
    }
  }

  /** The bitmap says of the first 64 required fields which of them are in the set of fields seen. */
  predicate Records(words: seq<nat>, fields: seq<Field>, seen: set<nat>) {
    |words| == 2 &&
    (forall i :: 0 <= i < |fields| && fields[i].htype.Required? && RequiredIndex(fields, i) < MAX_REQUIRED_FIELDS ==>
      (Has(words, RequiredIndex(fields, i)) <==> fields[i].tag in seen)) &&
    (forall j :: RequiredIndex(fields, |fields|) <= j < MAX_REQUIRED_FIELDS ==> !Has(words, j))
  }

  /** So checking its first min(count, 64) bits is checking the fields. */
  lemma BitsAreFields(words: seq<nat>, fields: seq<Field>, seen: set<nat>, count: nat)
    requires Records(words, fields, seen)
    requires count == if RequiredIndex(fields, |fields|) > MAX_REQUIRED_FIELDS then MAX_REQUIRED_FIELDS
                      else RequiredIndex(fields, |fields|)
    ensures HasFirst(words, count) <==> RequiredSeen(fields, seen)
  {
    if RequiredSeen(fields, seen) {
      forall j | 0 <= j < count
        ensures Has(words, j)
      {
        var i := RequiredFieldOf(fields, |fields|, j);
      }
    }
    if forall j :: 0 <= j < count ==> Has(words, j) {
      forall i | 0 <= i < |fields| && fields[i].htype.Required? && RequiredIndex(fields, i) < MAX_REQUIRED_FIELDS
        ensures fields[i].tag in seen
      {
        RequiredIndexMonotone(fields, i, |fields|);
        assert Has(words, RequiredIndex(fields, i));
      }
    }
  }

  lemma FreshBitmap(words: seq<nat>, fields: seq<Field>)
    requires words == [0, 0]
    ensures Words(words) && Records(words, fields, {})
  {
    forall j | 0 <= j < MAX_REQUIRED_FIELDS
      ensures !Has(words, j)
    {
      NoBits(j % 32);
    }
  }

  /** Marking a required field by its number records its tag. */
  lemma MarkRecords(was: seq<nat>, words: seq<nat>, fields: seq<Field>, seen: set<nat>, i: nat)
    requires Records(was, fields, seen) && |words| == 2 && i < |fields| && fields[i].htype.Required?
    requires forall x, y :: 0 <= x < y < |fields| ==> fields[x].tag != fields[y].tag
    requires RequiredIndex(fields, i) < MAX_REQUIRED_FIELDS
    requires forall j :: 0 <= j < MAX_REQUIRED_FIELDS ==>
               (Has(words, j) <==> Has(was, j) || j == RequiredIndex(fields, i))
    ensures Records(words, fields, seen + {fields[i].tag})
  {
    RequiredIndexMonotone(fields, i, |fields|);
    forall x | 0 <= x < |fields| && fields[x].htype.Required? && RequiredIndex(fields, x) < MAX_REQUIRED_FIELDS
      ensures Has(words, RequiredIndex(fields, x)) <==> fields[x].tag in seen + {fields[i].tag}
    {
      if x < i {
        RequiredIndexMonotone(fields, x, i);
      } else if i < x {
        RequiredIndexMonotone(fields, i, x);
      }
    }
  }

  /** Seeing a field that has no bit changes nothing. */
  lemma NothingToMark(words: seq<nat>, fields: seq<Field>, seen: set<nat>, i: nat)
    requires Records(words, fields, seen) && i < |fields|
    requires forall x, y :: 0 <= x < y < |fields| ==> fields[x].tag != fields[y].tag
    requires fields[i].htype.Required? ==> RequiredIndex(fields, i) >= MAX_REQUIRED_FIELDS
    ensures Records(words, fields, seen + {fields[i].tag})
  {
    forall x | 0 <= x < |fields| && fields[x].htype.Required? && RequiredIndex(fields, x) < MAX_REQUIRED_FIELDS
      ensures fields[x].tag in seen <==> fields[x].tag in seen + {fields[i].tag}
    {
      assert x != i;
    }
  }
}
