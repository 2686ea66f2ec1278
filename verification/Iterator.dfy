/** The circular field iterator that encoder and decoder share: it walks a field table and works out where each field
    lies in the struct from the relative offsets in the table. */
module Iterator {
  import opened Schema
  import opened DecodeSpec

  // ----- Where a field lies, as a function of its index -----

  /** A further member of the union that the field before it belongs to. */
  predicate SharesData(fields: seq<Field>, i: nat)
    requires i < |fields|
  {
    i > 0 && fields[i - 1].htype.Oneof? && fields[i].htype.Oneof? && fields[i].dataOffset == UNION_MEMBER
  }

  /** The size of a field in the struct. */
  function Extent(f: Field): nat {
    if f.htype.Repeated? then f.dataSize * f.arraySize else f.dataSize
  }

  function DataAddress(fields: seq<Field>, dest: int, i: nat): int
    requires i < |fields|
  {
    if i == 0 then dest + fields[0].dataOffset
    else if SharesData(fields, i) then DataAddress(fields, dest, i - 1)
    else DataAddress(fields, dest, i - 1) + Extent(fields[i - 1]) + fields[i].dataOffset
  }

  function SizeAddress(fields: seq<Field>, dest: int, i: nat): int
    requires i < |fields|
  {
    if SharesData(fields, i) then SizeAddress(fields, dest, i - 1)
    else DataAddress(fields, dest, i) + fields[i].sizeOffset
  }

  // ----- The layout that these addresses describe -----

  /** The first member of the union that field `i` shares its storage with; `i` itself outside of unions. */
  function Home(fields: seq<Field>, i: nat): (h: nat)
    requires i < |fields|
    ensures h <= i
  {
    if SharesData(fields, i) then Home(fields, i - 1) else i
  }

  /** Members of a union lie at one address, with one selector. */
  lemma {:induction false} UnionSharesStorage(fields: seq<Field>, dest: int, i: nat, j: nat)
    requires i <= j < |fields| && Home(fields, i) == Home(fields, j)
    ensures DataAddress(fields, dest, i) == DataAddress(fields, dest, j)
    ensures SizeAddress(fields, dest, i) == SizeAddress(fields, dest, j)
    decreases j
  {
    if i < j {
      assert SharesData(fields, j);
      HomeMonotone(fields, i, j - 1);
      UnionSharesStorage(fields, dest, i, j - 1);
    }
  }

  lemma {:induction false} HomeMonotone(fields: seq<Field>, i: nat, j: nat)
    requires i <= j < |fields|
    ensures Home(fields, i) <= Home(fields, j)
    decreases j
  {
    if i < j {
      HomeMonotone(fields, i, j - 1);
    }
  }

  /** The gap left after a union, up to field `j`, is wide enough for its member `i`, not just for the last one. */
  predicate MemberFits(fields: seq<Field>, i: nat, j: nat)
    requires i < j < |fields|
  {
    !SharesData(fields, j) && Home(fields, i) == Home(fields, j - 1) ==>
      Extent(fields[i]) <= Extent(fields[j - 1]) + fields[j].dataOffset
  }

  predicate UnionsFit(fields: seq<Field>) {
    forall i, j :: 0 <= i < j < |fields| ==> MemberFits(fields, i, j)
  }

  /** Fields with different storage do not overlap: each ends before the next one begins. */
  lemma {:induction false} StorageIsDisjoint(fields: seq<Field>, dest: int, i: nat, j: nat)
    requires UnionsFit(fields) && i < j < |fields| && Home(fields, i) != Home(fields, j)
    ensures DataAddress(fields, dest, i) + Extent(fields[i]) <= DataAddress(fields, dest, j)
    decreases j
  {
    if SharesData(fields, j) {
      StorageIsDisjoint(fields, dest, i, j - 1);
    } else if Home(fields, i) == Home(fields, j - 1) {
      UnionSharesStorage(fields, dest, i, j - 1);
      assert MemberFits(fields, i, j);
    } else {
      StorageIsDisjoint(fields, dest, i, j - 1);
    }
  }

  /** A table as a generator lays it out: the members of a union follow each other, marked as sharing their storage, and
      a slot that was left does not come back. */
  predicate LaidOut(fields: seq<Field>) {
    forall i :: 0 < i < |fields| ==> GoesOn(fields, i)
  }

  predicate GoesOn(fields: seq<Field>, i: nat)
    requires 0 < i < |fields|
  {
    (SharesData(fields, i) <==> fields[i].Key() == fields[i - 1].Key()) &&
    (SharesData(fields, i) || forall j :: 0 <= j < i ==> fields[j].Key() != fields[i].Key())
  }

  /** Then fields have one slot exactly if they have one home. */
  lemma {:induction false} SlotsAreHomes(fields: seq<Field>, i: nat, j: nat)
    requires LaidOut(fields) && i <= j < |fields|
    ensures fields[i].Key() == fields[j].Key() <==> Home(fields, i) == Home(fields, j)
    decreases j
  {
    if i < j {
      assert GoesOn(fields, j);
      SlotsAreHomes(fields, i, j - 1);
      if !SharesData(fields, j) {
        HomeBelow(fields, i, j);
      }
    }
  }

  lemma HomeBelow(fields: seq<Field>, i: nat, j: nat)
    requires i < j < |fields| && !SharesData(fields, j)
    ensures Home(fields, i) != Home(fields, j)
  {
  }

  /** So the slots of a message are the parts of its struct: fields with one slot lie at one address, and fields with
      different slots do not overlap. */
  lemma SlotsAreStorage(fields: seq<Field>, dest: int, i: nat, j: nat)
    requires LaidOut(fields) && UnionsFit(fields) && i < j < |fields|
    ensures fields[i].Key() == fields[j].Key() ==>
              DataAddress(fields, dest, i) == DataAddress(fields, dest, j) &&
              SizeAddress(fields, dest, i) == SizeAddress(fields, dest, j)
    ensures fields[i].Key() != fields[j].Key() ==>
              DataAddress(fields, dest, i) + Extent(fields[i]) <= DataAddress(fields, dest, j)
  {
    SlotsAreHomes(fields, i, j);
    if fields[i].Key() == fields[j].Key() {
      UnionSharesStorage(fields, dest, i, j);
    } else {
      StorageIsDisjoint(fields, dest, i, j);
    }
  }

  // ----- Structs as a compiler lays them out -----

  /** A member of a struct: where it lies, what it takes up, and where its has_ flag, count or selector lies. */
  datatype Member = Member(offset: int, size: int, sizeAt: int)

  /** The table says of each member how far it lies behind the end of the member before it, and how far its flag, count
      or selector lies from it. Further members of a union lie where the first one does. */
  predicate Describes(fields: seq<Field>, members: seq<Member>) {
    |members| == |fields| && forall i :: 0 <= i < |fields| ==> DescribesAt(fields, members, i)
  }

  predicate DescribesAt(fields: seq<Field>, members: seq<Member>, i: nat)
    requires |members| == |fields| && i < |fields|
  {
    var f, m := fields[i], members[i];
    m.size == (if f.htype.Repeated? then f.arraySize * f.dataSize else f.dataSize) &&
    if i > 0 && fields[i - 1].htype.Oneof? && f.htype.Oneof? && f.dataOffset == 0xFFFF_FFFF then
      m.offset == members[i - 1].offset && m.sizeAt == members[i - 1].sizeAt
    else
      f.dataOffset == (if i == 0 then m.offset else m.offset - members[i - 1].offset - members[i - 1].size) &&
      f.sizeOffset == m.sizeAt - m.offset
  }

  /** Then the iterator finds each member where it is. */
  lemma {:induction false} AddressesAreOffsets(fields: seq<Field>, members: seq<Member>, dest: int, i: nat)
    requires Describes(fields, members) && i < |fields|
    ensures DataAddress(fields, dest, i) == dest + members[i].offset
    ensures SizeAddress(fields, dest, i) == dest + members[i].sizeAt
    decreases i
  {
    assert DescribesAt(fields, members, i);
    if i > 0 {
      assert DescribesAt(fields, members, i - 1);
      AddressesAreOffsets(fields, members, dest, i - 1);
    }
  }

  // ----- The iterator -----

  /** Where the size of a field is kept: in the struct, or, for a fixed-count array that is being received, in a
      counter of the decoder. */
  datatype SizeRef = At(address: int) | LocalCounter

  /** A field table has no entry numbered 0: that marks its end. */
  predicate Table(fields: seq<Field>) {
    forall i :: 0 <= i < |fields| ==> fields[i].tag != 0
  }

  predicate Matches(f: Field, tag: nat) {
    f.tag == tag && !f.ltype.LExtension?
  }

  class FieldIterator {
    const start: seq<Field>
    const dest: int
    var pos: nat
    var pData: int
    var pSize: SizeRef
    var requiredIndex: nat

    /** The iterator stands on a field, or, if there are none, on the terminator. */
    predicate Valid()
      reads this
    {
      Table(start) && (if start == [] then pos == 0 else pos < |start|)
    }

    /** All that the iterator knows is a function of its position. */
    predicate Standing()
      reads this
    {
      Valid() && (start != [] ==> pData == DataAddress(start, dest, pos)) &&
      requiredIndex == RequiredIndex(start, pos)
    }

    /** The size reference may have been redirected, for an array. */
    predicate Sized()
      reads this
    {
      Standing() &&
      (start != [] ==>
        pSize == At(SizeAddress(start, dest, pos)) || (pSize.LocalCounter? && start[pos].htype.Repeated?))
    }

    predicate Fresh()
      reads this
    {
      Standing() && (start != [] ==> pSize == At(SizeAddress(start, dest, pos)))
    }

    constructor (fields: seq<Field>, dest: int)
      requires Table(fields)
      ensures start == fields && this.dest == dest && pos == 0 && Fresh()
    {
      start := fields;
      this.dest := dest;
      pos := 0;
      requiredIndex := 0;
      pData := dest + if fields == [] then 0 else fields[0].dataOffset;
      pSize := At(dest + if fields == [] then 0 else fields[0].dataOffset + fields[0].sizeOffset);
    }

    method Begin() returns (any: bool)
      requires Table(start)
      modifies this
      ensures Fresh() && pos == 0 && any == (start != [])
    {
      pos := 0;
      requiredIndex := 0;
      pData := dest + if start == [] then 0 else start[0].dataOffset;
      pSize := At(pData + if start == [] then 0 else start[0].sizeOffset);
      any := start != [];
    }

    method Next() returns (more: bool)
      requires Sized()
      modifies this
      ensures Fresh() || (start == [] && unchanged(this))
      ensures more <==> old(pos) + 1 < |start|
      ensures pos == if more then old(pos) + 1 else 0
    {
      if start == [] {
        return false;
      }
      var prev := start[pos];
      pos := pos + 1;
      if pos == |start| {
        var _ := Begin();
        return false;
      }
      var prevSize := prev.dataSize;
      if prev.htype.Oneof? && start[pos].htype.Oneof? && start[pos].dataOffset == UNION_MEMBER {
        return true;
      } else if prev.htype.Repeated? {
        prevSize := prevSize * prev.arraySize;
      }
      if prev.htype.Required? {
        requiredIndex := requiredIndex + 1;
      }
      pData := pData + prevSize + start[pos].dataOffset;
      pSize := At(pData + start[pos].sizeOffset);
      return true;
    }

    /** Searches on from the current position, once around. For an empty table the terminator answers to 0. */
    method Find(tag: nat) returns (found: bool)
      requires Sized()
      modifies this
      ensures found <==> (if start == [] then tag == 0 else exists i :: 0 <= i < |start| && Matches(start[i], tag))
      ensures found && start != [] ==> pos < |start| && Matches(start[pos], tag)
      ensures !found ==> pos == old(pos)
      ensures Fresh() || unchanged(this)
    {
      if start == [] {
        found := tag == 0;
        if !found {
          var _ := Next();
        }
        return;
      }
      var first := pos;
      ghost var wrapped := false;
      found := Matches(start[pos], tag);
      while !found
        invariant Sized() && (Fresh() || unchanged(this))
        invariant found <==> Matches(start[pos], tag)
        invariant !wrapped ==> first <= pos && forall i :: first <= i < pos ==> !Matches(start[i], tag)
        invariant wrapped ==> pos < first && forall i :: first <= i < |start| ==> !Matches(start[i], tag)
        invariant wrapped ==> forall i :: 0 <= i < pos ==> !Matches(start[i], tag)
        decreases if wrapped then first - pos else |start| - pos + first, !found
      {
        var more := Next();
        wrapped := wrapped || !more;
        if pos == first {
          return false;
        }
        found := Matches(start[pos], tag);
      }
    }
  }
}
