/** The two encoders of a multipart form: into memory, and into an output stream that takes what it likes. Both read
    their parts from input streams in chunks. */
module MultipartEncoder {
  import opened Bytes
  import opened Multipart

  const STREAM_BUFFER_SIZE := 1024

  type Chunk = s: seq<byte> | 0 < |s| <= STREAM_BUFFER_SIZE witness [0]

  /** What one round of reading finds, as long as the input stream says that it has bytes available. */
  datatype Reading = Bytes(chunk: Chunk) | NoBytes | ReadFailure

  type Positive = n: nat | 0 < n witness 1

  /** What one round of writing finds: no space, an error, or the number of bytes that are accepted, at least one. */
  datatype Writing = NoSpace | WriteFailure | Accepts(n: Positive)

  datatype EncodingError =
    | InvalidPart(reason: nat)
    | ReadFailed
    | UnexpectedLength(expected: nat, read: nat)
    | WriteFailed

  datatype Result<T> = Success(value: T) | Failure(error: EncodingError)

  /** A body part; `readings` is what its input stream will deliver. */
  class BodyPart {
    const headers: seq<Header>
    const readings: seq<Reading>
    const bodyContentLength: nat
    var hasInitialBoundary: bool
    var hasFinalBoundary: bool

    constructor (headers: seq<Header>, readings: seq<Reading>, bodyContentLength: nat)
      ensures this.headers == headers && this.readings == readings && this.bodyContentLength == bodyContentLength
      ensures !hasInitialBoundary && !hasFinalBoundary
    {
      this.headers := headers;
      this.readings := readings;
      this.bodyContentLength := bodyContentLength;
      hasInitialBoundary, hasFinalBoundary := false, false;
    }
  }

  // ----- What the input streams deliver -----

  /** The bytes up to the end of the stream or the first round without bytes, unless an error comes first. */
  function Delivered(readings: seq<Reading>, i: nat): Option<seq<byte>>
    requires i <= |readings|
    decreases |readings| - i
  {
    if i == |readings| || readings[i].NoBytes? then Some([])
    else if readings[i].ReadFailure? then None
    else Followed(readings[i].chunk, Delivered(readings, i + 1))
  }

  function BodyOf(p: BodyPart): Option<seq<byte>> {
    Delivered(p.readings, 0)
  }

  /** The chunks from round `i` up to round `n`. */
  function Joined(readings: seq<Reading>, i: nat, n: nat): seq<byte>
    requires i <= n <= |readings| && forall j :: i <= j < n ==> readings[j].Bytes?
    decreases n
  {
    if i == n then [] else Joined(readings, i, n - 1) + readings[n - 1].chunk
  }

  lemma {:induction false} JoinedFront(readings: seq<Reading>, i: nat, n: nat)
    requires i < n <= |readings| && forall j :: i <= j < n ==> readings[j].Bytes?
    ensures Joined(readings, i, n) == readings[i].chunk + Joined(readings, i + 1, n)
    decreases n
  {
    if i + 1 < n {
      JoinedFront(readings, i, n - 1);
      var first, between, last := readings[i].chunk, Joined(readings, i + 1, n - 1), readings[n - 1].chunk;
      assert Joined(readings, i, n) == first + between + last;
      assert first + between + last == first + (between + last);
    } else {
      assert [] + readings[i].chunk == readings[i].chunk + [];
    }
  }

  /** A stream delivers its chunks up to its end, or up to the first round that finds nothing; if an error comes before
      that, it delivers nothing. */
  lemma {:induction false} DeliveredIs(readings: seq<Reading>, i: nat, n: nat)
    requires i <= n <= |readings| && forall j :: i <= j < n ==> readings[j].Bytes?
    ensures n == |readings| || readings[n].NoBytes? ==> Delivered(readings, i) == Some(Joined(readings, i, n))
    ensures n < |readings| && readings[n].ReadFailure? ==> Delivered(readings, i) == None
    decreases n - i
  {
    if i < n {
      DeliveredIs(readings, i + 1, n);
      JoinedFront(readings, i, n);
    }
  }

  // ----- What is written -----

  /** The bytes around a part depend on its two flags. */
  function Framed(boundary: seq<byte>, initial: bool, final: bool, content: seq<byte>): seq<byte> {
    (if initial then InitialBoundary(boundary) else EncapsulatedBoundary(boundary)) + content +
    (if final then FinalBoundary(boundary) else [])
  }

  function PartBytes(boundary: seq<byte>, p: BodyPart): Option<seq<byte>>
    reads p
  {
    var body := BodyOf(p);
    if body.None? then None
    else Some(Framed(boundary, p.hasInitialBoundary, p.hasFinalBoundary, Content(Part(p.headers, body.value))))
  }

  /** The parts from index `i` on. */
  function PartsBytes(boundary: seq<byte>, parts: seq<BodyPart>, i: nat): Option<seq<byte>>
    requires i <= |parts|
    reads parts
    decreases |parts| - i
  {
    if i == |parts| then Some([])
    else
      var first := PartBytes(boundary, parts[i]);
      if first.None? then None else Followed(first.value, PartsBytes(boundary, parts, i + 1))
  }

  /** Whether an input stream delivers as many bytes as were announced. */
  predicate AsAnnounced(p: BodyPart) {
    BodyOf(p).Some? && |BodyOf(p).value| == p.bodyContentLength
  }

  /** Why a part that is not as announced cannot be encoded in memory. */
  function PartError(p: BodyPart): EncodingError {
    if BodyOf(p).None? then ReadFailed else UnexpectedLength(p.bodyContentLength, |BodyOf(p).value|)
  }

  /** Part `i` is the first one that is not as announced. */
  predicate FirstBroken(parts: seq<BodyPart>, i: int) {
    0 <= i < |parts| && !AsAnnounced(parts[i]) && forall j :: 0 <= j < i ==> AsAnnounced(parts[j])
  }

  function PartOf(p: BodyPart): Part
    requires BodyOf(p).Some?
  {
    Part(p.headers, BodyOf(p).value)
  }

  function PartsOf(parts: seq<BodyPart>): (ps: seq<Part>)
    requires forall i :: 0 <= i < |parts| ==> BodyOf(parts[i]).Some?
    ensures |ps| == |parts|
    ensures forall i :: 0 <= i < |parts| ==> ps[i] == PartOf(parts[i])
  {
    if parts == [] then [] else [PartOf(parts[0])] + PartsOf(parts[1..])
  }

  /** The flags are set at the two ends of the form, and nowhere else. */
  predicate FlaggedAtEnds(parts: seq<BodyPart>)
    reads parts
  {
    forall i :: 0 <= i < |parts| ==>
      (parts[i].hasInitialBoundary <==> i == 0) && (parts[i].hasFinalBoundary <==> i + 1 == |parts|)
  }

  /** Then the parts make up the form. */
  lemma {:induction false} FlaggedIsEncodingFrom(boundary: seq<byte>, parts: seq<BodyPart>, i: nat)
    requires i < |parts| && FlaggedAtEnds(parts) && forall j :: 0 <= j < |parts| ==> BodyOf(parts[j]).Some?
    ensures PartsBytes(boundary, parts, i) ==
            Some((if i == 0 then InitialBoundary(boundary) else EncapsulatedBoundary(boundary)) +
                 ContentsFrom(boundary, PartsOf(parts), i))
    decreases |parts| - i
  {
    var ps := PartsOf(parts);
    var before := if i == 0 then InitialBoundary(boundary) else EncapsulatedBoundary(boundary);
    var content := Content(ps[i]);
    if i + 1 == |parts| {
      assert PartsBytes(boundary, parts, i + 1) == Some([]);
      assert PartBytes(boundary, parts[i]) == Some(before + content + FinalBoundary(boundary));
      Assoc(before, content, FinalBoundary(boundary));
    } else {
      FlaggedIsEncodingFrom(boundary, parts, i + 1);
      var rest := EncapsulatedBoundary(boundary) + ContentsFrom(boundary, ps, i + 1);
      assert PartBytes(boundary, parts[i]) == Some(before + content + []);
      Assoc(before, content, rest);
    }
  }

  /** A part is written in four pieces. */
  lemma FramedPieces(a: seq<byte>, h: seq<byte>, body: seq<byte>, f: seq<byte>)
    ensures a + h + body + f == a + (h + body) + f
    ensures a + h + body == a + (h + body) + []
  {
  }

  lemma Assoc(a: seq<byte>, b: seq<byte>, c: seq<byte>)
    ensures a + b + c == a + (b + c)
    ensures a + b + [] + c == a + (b + c)
    ensures a + b + c + [] == a + (b + c)
  {
  }

  lemma FlaggedIsEncoding(boundary: seq<byte>, parts: seq<BodyPart>)
    requires FlaggedAtEnds(parts) && forall j :: 0 <= j < |parts| ==> BodyOf(parts[j]).Some?
    ensures PartsBytes(boundary, parts, 0) == Some(Encoding(boundary, PartsOf(parts)))
  {
    if parts != [] {
      FlaggedIsEncodingFrom(boundary, parts, 0);
    }
  }

  // ----- The output stream -----

  /** How many of the bytes a stream takes, the round in which it is asked next, and how it ends. */
  datatype Taking = Taking(taken: nat, next: nat, refused: bool, failed: bool)

  /** `left` bytes are offered from round `round` on, until all are taken, or there is no space, or an error. */
  function Offer(rounds: nat -> Writing, round: nat, left: nat): (t: Taking)
    ensures t.taken <= left
    decreases left
  {
    if left == 0 then Taking(0, round, false, false)
    else
      match rounds(round)
      case NoSpace => Taking(0, round + 1, true, false)
      case WriteFailure => Taking(0, round + 1, false, true)
      case Accepts(n) =>
        var a := if n < left then n else left;
        var t := Offer(rounds, round + 1, left - a);
        More(a, t)
  }

  /** All the bytes are taken, unless the last of these rounds finds no space, or an error. */
  lemma {:induction false} OfferEnds(rounds: nat -> Writing, round: nat, left: nat)
    ensures var t := Offer(rounds, round, left);
            round <= t.next && (left > 0 ==> round < t.next) &&
            (t.taken == left <==> !t.refused && !t.failed) &&
            (t.refused ==> !t.failed && rounds(t.next - 1).NoSpace?) &&
            (t.failed ==> rounds(t.next - 1).WriteFailure?) &&
            (!t.refused ==> forall k :: round <= k < t.next ==> !rounds(k).NoSpace?)
    decreases left
  {
    if left > 0 && rounds(round).Accepts? {
      var n := rounds(round).n;
      OfferEnds(rounds, round + 1, left - if n < left then n else left);
    }
  }

  /** `rounds` says what the stream will do, round by round. The ghost field `wanted` is what it was to receive. */
  class OutputStream {
    const rounds: nat -> Writing
    var round: nat
    var written: seq<byte>
    ghost var wanted: seq<byte>

    /** Whether the stream had no space in some round so far. */
    ghost predicate Refused()
      reads this
    {
      exists k: nat :: k < round && rounds(k).NoSpace?
    }

    /** Something is lost exactly if the stream once had no space for the bytes that it was offered. */
    ghost predicate Valid()
      reads this
    {
      (if Refused() then |written| < |wanted| else written == wanted) && (round == 0 ==> written == [])
    }

    constructor (rounds: nat -> Writing)
      ensures Valid() && this.rounds == rounds && round == 0 && written == [] && wanted == []
    {
      this.rounds := rounds;
      round := 0;
      written, wanted := [], [];
    }

    /** When there is no space, the rest is dropped, without an error. */
    method Write(data: seq<byte>) returns (ok: bool)
      requires Valid()
      modifies this
      ensures var t := Offer(rounds, old(round), |data|);
              written == old(written) + data[..t.taken] && round == t.next && (ok <==> !t.failed)
      ensures ok ==> Valid() && wanted == old(wanted) + data
      ensures !ok ==> exists k: nat :: rounds(k).WriteFailure?
    {
      ghost var t := Offer(rounds, round, |data|);
      OfferEnds(rounds, round, |data|);
      ok := WriteRounds(data);
      wanted := wanted + data;
      if t.refused {
        assert round - 1 >= 0 && rounds(round - 1).NoSpace?;
      } else if ok {
        assert data[..t.taken] == data;
        assert forall k: nat :: k < round && rounds(k).NoSpace? ==> k < old(round);
      }
    }

    /** The buffer in as many rounds as it takes. */
    method WriteRounds(data: seq<byte>) returns (ok: bool)
      modifies `written, `round
      ensures var t := Offer(rounds, old(round), |data|);
              written == old(written) + data[..t.taken] && round == t.next && (ok <==> !t.failed)
    {
      var buffer := data;
      var bytesToWrite := |buffer|;
      ghost var t := Offer(rounds, round, |data|);
      ghost var taken := 0;
      while bytesToWrite > 0
        invariant bytesToWrite == |buffer| && taken + |buffer| == |data| && buffer == data[taken..]
        invariant written == old(written) + data[..taken]
        invariant t == More(taken, Offer(rounds, round, |buffer|))
        decreases bytesToWrite
      {
        var outcome := rounds(round);
        round := round + 1;
        if outcome.NoSpace? {
          return true;
        }
        if outcome.WriteFailure? {
          return false;
        }
        var n := if outcome.n < bytesToWrite then outcome.n else bytesToWrite;
        Chunks(old(written), data, taken, n);
        written := written + buffer[..n];
        bytesToWrite := bytesToWrite - n;
        buffer := buffer[n..];
        taken := taken + n;
      }
      return true;
    }
  }

  function More(taken: nat, t: Taking): Taking {
    t.(taken := taken + t.taken)
  }

  lemma Chunks(before: seq<byte>, data: seq<byte>, taken: nat, n: nat)
    requires taken + n <= |data|
    ensures before + data[..taken] + data[taken..][..n] == before + data[..taken + n]
    ensures data[taken..][n..] == data[taken + n..]
  {
  }

  // ----- The form -----

  class MultipartFormData {
    const boundary: seq<byte>
    var bodyParts: seq<BodyPart>
    var bodyPartError: Option<EncodingError>

    constructor (boundary: seq<byte>)
      ensures this.boundary == boundary && bodyParts == [] && bodyPartError == None
    {
      this.boundary := boundary;
      bodyParts, bodyPartError := [], None;
    }

    method Append(headers: seq<Header>, readings: seq<Reading>, length: nat)
      modifies this
      ensures bodyPartError == old(bodyPartError)
      ensures |bodyParts| == |old(bodyParts)| + 1 && bodyParts[..|bodyParts| - 1] == old(bodyParts)
      ensures var p := bodyParts[|bodyParts| - 1];
              fresh(p) && p.headers == headers && p.readings == readings && p.bodyContentLength == length &&
              !p.hasInitialBoundary && !p.hasFinalBoundary
    {
      var p := new BodyPart(headers, readings, length);
      bodyParts := bodyParts + [p];
    }

    /** The first error is kept. */
    method SetBodyPartError(error: EncodingError)
      modifies this
      ensures bodyPartError == if old(bodyPartError).None? then Some(error) else old(bodyPartError)
      ensures bodyParts == old(bodyParts)
    {
      if bodyPartError.None? {
        bodyPartError := Some(error);
      }
    }

    predicate EndsMarked()
      reads this, bodyParts
    {
      bodyParts != [] ==> bodyParts[0].hasInitialBoundary && bodyParts[|bodyParts| - 1].hasFinalBoundary
    }

    /** Sets the two flags of the form. */
    method MarkEnds()
      modifies bodyParts
      ensures forall i :: 0 <= i < |bodyParts| ==>
                (bodyParts[i].hasInitialBoundary <==>
                   old(bodyParts[i].hasInitialBoundary) || bodyParts[i] == bodyParts[0]) &&
                (bodyParts[i].hasFinalBoundary <==>
                   old(bodyParts[i].hasFinalBoundary) || bodyParts[i] == bodyParts[|bodyParts| - 1])
      ensures old(Fresh()) ==> FlaggedAtEnds(bodyParts)
      ensures EndsMarked() && (old(EndsMarked()) ==> unchanged(bodyParts))
    {
      if bodyParts != [] {
        bodyParts[0].hasInitialBoundary := true;
        bodyParts[|bodyParts| - 1].hasFinalBoundary := true;
      }
    }

    /** All parts are different objects, and the form was not encoded before. */
    predicate Fresh()
      reads this, bodyParts
    {
      (forall i, j :: 0 <= i < j < |bodyParts| ==> bodyParts[i] != bodyParts[j]) &&
      (forall i :: 0 <= i < |bodyParts| ==> !bodyParts[i].hasInitialBoundary && !bodyParts[i].hasFinalBoundary)
    }

    /** In memory: succeeds exactly if every input stream delivers what was announced. */
    method Encode() returns (r: Result<seq<byte>>)
      modifies bodyParts
      ensures r.Success? <==>
              bodyPartError.None? && forall i :: 0 <= i < |bodyParts| ==>
                var p := bodyParts[i]; BodyOf(p).Some? && |BodyOf(p).value| == p.bodyContentLength
      ensures r.Success? ==> PartsBytes(boundary, bodyParts, 0) == Some(r.value)
      ensures r.Success? && old(Fresh()) ==> r.value == Encoding(boundary, PartsOf(bodyParts))
      ensures r.Success? ==> EndsMarked()
      ensures bodyPartError.Some? ==> r == Failure(bodyPartError.value)
      ensures bodyPartError.None? && r.Failure? ==>
                exists i :: 0 <= i < |bodyParts| &&
                  var body := BodyOf(bodyParts[i]);
                  (body.Some? ==> |body.value| != bodyParts[i].bodyContentLength) &&
                  (forall j :: 0 <= j < i ==>
                     BodyOf(bodyParts[j]).Some? && |BodyOf(bodyParts[j]).value| == bodyParts[j].bodyContentLength) &&
                  r.error == if body.None? then ReadFailed
                             else UnexpectedLength(bodyParts[i].bodyContentLength, |body.value|)
    {
      if bodyPartError.Some? {
        return Failure(bodyPartError.value);
      }
      MarkEnds();
      r := EncodeParts();
      if r.Success? && old(Fresh()) {
        FlaggedIsEncoding(boundary, bodyParts);
      }
    }

    method EncodeParts() returns (r: Result<seq<byte>>)
      ensures r.Success? <==> forall i :: 0 <= i < |bodyParts| ==> AsAnnounced(bodyParts[i])
      ensures r.Success? ==> PartsBytes(boundary, bodyParts, 0) == Some(r.value)
      ensures r.Failure? ==> exists i :: FirstBroken(bodyParts, i) && r.error == PartError(bodyParts[i])
    {
      var encoded: seq<byte> := [];
      ghost var whole := PartsBytes(boundary, bodyParts, 0);
      NothingFollowed(whole);
      var i := 0;
      while i < |bodyParts|
        invariant 0 <= i <= |bodyParts|
        invariant forall j :: 0 <= j < i ==> AsAnnounced(bodyParts[j])
        invariant whole == Followed(encoded, PartsBytes(boundary, bodyParts, i))
      {
        ghost var first, next := PartBytes(boundary, bodyParts[i]), PartsBytes(boundary, bodyParts, i + 1);
        var part := EncodePart(bodyParts[i]);
        if part.Failure? {
          assert FirstBroken(bodyParts, i);
          return Failure(part.error);
        }
        FollowAgain(encoded, part.value, next);
        encoded := encoded + part.value;
        i := i + 1;
      }
      FollowedByNothing(encoded);
      return Success(encoded);
    }

    method EncodePart(p: BodyPart) returns (r: Result<seq<byte>>)
      ensures r == if AsAnnounced(p) then Success(PartBytes(boundary, p).value) else Failure(PartError(p))
    {
      var before := if p.hasInitialBoundary then InitialBoundary(boundary) else EncapsulatedBoundary(boundary);
      var encoded := before;
      var headers := EncodeHeaders(p.headers);
      encoded := encoded + headers;
      var body := EncodeBodyStream(p);
      if body.Failure? {
        return Failure(body.error);
      }
      encoded := encoded + body.value;
      if p.hasFinalBoundary {
        encoded := encoded + FinalBoundary(boundary);
      }
      FramedPieces(before, headers, body.value, FinalBoundary(boundary));
      return Success(encoded);
    }

    /** Into a stream: the announced lengths play no part, and the form is complete exactly if the stream had space in
        every round. */
    method WriteEncodedData(out: OutputStream) returns (r: Result<()>)
      requires out.Valid() && out.wanted == []
      modifies bodyParts, out
      ensures r.Success? ==> bodyPartError.None? && forall i :: 0 <= i < |bodyParts| ==> BodyOf(bodyParts[i]).Some?
      ensures r.Success? ==> out.Valid() && PartsBytes(boundary, bodyParts, 0) == Some(out.wanted)
      ensures old(EndsMarked()) ==> unchanged(bodyParts)
      ensures r.Success? && old(Fresh()) ==> out.wanted == Encoding(boundary, PartsOf(bodyParts))
      ensures r.Success? && old(Fresh()) ==>
                (out.written == Encoding(boundary, PartsOf(bodyParts)) <==> !out.Refused())
      ensures bodyPartError.Some? ==> r == Failure(bodyPartError.value)
      ensures r.Failure? && bodyPartError.None? ==>
                (r.error == ReadFailed && exists i :: 0 <= i < |bodyParts| && BodyOf(bodyParts[i]).None?) ||
                (r.error == WriteFailed && exists k: nat :: out.rounds(k).WriteFailure?)
    {
      if bodyPartError.Some? {
        return Failure(bodyPartError.value);
      }
      MarkEnds();
      r := WriteParts(out);
      if r.Success? && old(Fresh()) {
        FlaggedIsEncoding(boundary, bodyParts);
      }
    }

    method WriteParts(out: OutputStream) returns (r: Result<()>)
      requires out.Valid() && out.wanted == []
      modifies out
      ensures r.Success? ==> out.Valid() && forall i :: 0 <= i < |bodyParts| ==> BodyOf(bodyParts[i]).Some?
      ensures r.Success? ==> PartsBytes(boundary, bodyParts, 0) == Some(out.wanted)
      ensures r.Failure? ==>
                (r.error == ReadFailed && exists i :: 0 <= i < |bodyParts| && BodyOf(bodyParts[i]).None?) ||
                (r.error == WriteFailed && exists k: nat :: out.rounds(k).WriteFailure?)
    {
      ghost var whole := PartsBytes(boundary, bodyParts, 0);
      NothingFollowed(whole);
      var i := 0;
      while i < |bodyParts|
        invariant 0 <= i <= |bodyParts| && out.Valid()
        invariant forall j :: 0 <= j < i ==> BodyOf(bodyParts[j]).Some?
        invariant whole == Followed(out.wanted, PartsBytes(boundary, bodyParts, i))
      {
        ghost var first, next := PartBytes(boundary, bodyParts[i]), PartsBytes(boundary, bodyParts, i + 1);
        ghost var done := out.wanted;
        r := WritePart(bodyParts[i], out);
        if r.Failure? {
          return;
        }
        FollowAgain(done, first.value, next);
        i := i + 1;
      }
      FollowedByNothing(out.wanted);
      return Success(());
    }

    method WritePart(p: BodyPart, out: OutputStream) returns (r: Result<()>)
      requires out.Valid()
      modifies out
      ensures r.Success? ==> out.Valid() && BodyOf(p).Some?
      ensures r.Success? ==> PartBytes(boundary, p).Some?
      ensures r.Success? ==> out.wanted == old(out.wanted) + PartBytes(boundary, p).value
      ensures r.Failure? ==> (r.error == ReadFailed && BodyOf(p).None?) ||
                             (r.error == WriteFailed && exists k: nat :: out.rounds(k).WriteFailure?)
    {
      ghost var start := out.wanted;
      var before := if p.hasInitialBoundary then InitialBoundary(boundary) else EncapsulatedBoundary(boundary);
      var ok := out.Write(before);
      if !ok {
        return Failure(WriteFailed);
      }
      var headers := EncodeHeaders(p.headers);
      ok := out.Write(headers);
      if !ok {
        return Failure(WriteFailed);
      }
      r := WriteBodyStream(p, out);
      if r.Failure? {
        return;
      }
      ghost var body, final := BodyOf(p).value, FinalBoundary(boundary);
      FramedPieces(before, headers, body, final);
      AfterStart(start, before, headers, body, final);
      if p.hasFinalBoundary {
        ok := out.Write(FinalBoundary(boundary));
        if !ok {
          return Failure(WriteFailed);
        }
      }
    }
  }

  lemma AfterStart(s: seq<byte>, a: seq<byte>, h: seq<byte>, body: seq<byte>, f: seq<byte>)
    ensures s + a + h + body == s + (a + h + body)
    ensures s + a + h + body + f == s + (a + h + body + f)
  {
  }

  method EncodeHeaders(headers: seq<Header>) returns (bytes: seq<byte>)
    ensures bytes == LineBytes(LinesOf(headers))
  {
    bytes := [];
    var i := 0;
    while i < |headers|
      invariant 0 <= i <= |headers|
      invariant LineBytes(LinesOf(headers)) == bytes + LineBytes(LinesOf(headers[i..]))
    {
      var rest := headers[i..];
      assert rest[1..] == headers[i + 1..];
      assert LinesOf(rest) == [HeaderLine(headers[i])] + LinesOf(headers[i + 1..]);
      assert LinesOf(rest)[1..] == LinesOf(headers[i + 1..]);
      bytes := bytes + (HeaderLine(headers[i]) + CRLF);
      i := i + 1;
    }
    bytes := bytes + CRLF;
  }

  /** Collects the body and compares its length with the announced one. */
  method EncodeBodyStream(p: BodyPart) returns (r: Result<seq<byte>>)
    ensures r == match BodyOf(p)
                 case None => Failure(ReadFailed)
                 case Some(body) =>
                   if |body| == p.bodyContentLength then Success(body)
                   else Failure(UnexpectedLength(p.bodyContentLength, |body|))
  {
    var encoded: seq<byte> := [];
    var i := 0;
    NothingFollowed(BodyOf(p));
    while i < |p.readings| && !p.readings[i].NoBytes?
      invariant 0 <= i <= |p.readings|
      invariant BodyOf(p) == Followed(encoded, Delivered(p.readings, i))
    {
      if p.readings[i].ReadFailure? {
        return Failure(ReadFailed);
      }
      FollowAgain(encoded, p.readings[i].chunk, Delivered(p.readings, i + 1));
      encoded := encoded + p.readings[i].chunk;
      i := i + 1;
    }
    FollowedByNothing(encoded);
    if |encoded| != p.bodyContentLength {
      return Failure(UnexpectedLength(p.bodyContentLength, |encoded|));
    }
    return Success(encoded);
  }

  /** Passes the body on chunk by chunk. The announced length plays no part. */
  method WriteBodyStream(p: BodyPart, out: OutputStream) returns (r: Result<()>)
    requires out.Valid()
    modifies out
    ensures r.Success? ==> out.Valid() && BodyOf(p).Some? && out.wanted == old(out.wanted) + BodyOf(p).value
    ensures r.Failure? ==> (r.error == ReadFailed && BodyOf(p).None?) ||
                           (r.error == WriteFailed && exists k: nat :: out.rounds(k).WriteFailure?)
  {
    ghost var done: seq<byte> := [];
    var i := 0;
    NothingFollowed(BodyOf(p));
    while i < |p.readings| && !p.readings[i].NoBytes?
      invariant 0 <= i <= |p.readings| && out.Valid()
      invariant out.wanted == old(out.wanted) + done
      invariant BodyOf(p) == Followed(done, Delivered(p.readings, i))
    {
      if p.readings[i].ReadFailure? {
        return Failure(ReadFailed);
      }
      var ok := out.Write(p.readings[i].chunk);
      if !ok {
        return Failure(WriteFailed);
      }
      FollowAgain(done, p.readings[i].chunk, Delivered(p.readings, i + 1));
      done := done + p.readings[i].chunk;
      i := i + 1;
    }
    FollowedByNothing(done);
    return Success(());
  }

  // ----- What the two encoders make of one form -----

  /** A stream that always has space, and no errors: the form arrives as it is. */
  method WriteComplete(form: MultipartFormData, out: OutputStream) returns (r: Result<()>)
    requires form.Fresh() && form.bodyPartError.None?
    requires forall i :: 0 <= i < |form.bodyParts| ==> BodyOf(form.bodyParts[i]).Some?
    requires out.Valid() && out.wanted == [] && forall k: nat :: out.rounds(k).Accepts?
    modifies form.bodyParts, out
    ensures r.Success? && out.written == Encoding(form.boundary, PartsOf(form.bodyParts))
  {
    r := form.WriteEncodedData(out);
  }

  /** A stream that has no space just once, at the start: the encoder reports success all the same, and what was written
      is not the form. */
  method WriteTruncated(form: MultipartFormData) returns (r: Result<()>, out: OutputStream)
    requires form.Fresh() && form.bodyPartError.None? && form.bodyParts != []
    requires forall i :: 0 <= i < |form.bodyParts| ==> BodyOf(form.bodyParts[i]).Some?
    modifies form.bodyParts
    ensures r.Success? && |out.written| < |Encoding(form.boundary, PartsOf(form.bodyParts))|
  {
    out := new OutputStream((k: nat) => if k == 0 then NoSpace else Accepts(1024));
    r := form.WriteEncodedData(out);
    assert out.wanted != [];
    assert out.round > 0 && out.rounds(0).NoSpace?;
  }

  /** With a stream that raises no error, the bodies that only the streamed encoder accepts are those that their streams
      deliver, but not at the announced length. */
  method EncodeBothWays(form: MultipartFormData, out: OutputStream)
    returns (inMemory: Result<seq<byte>>, streamed: Result<()>)
    requires out.Valid() && out.wanted == [] && forall k: nat :: !out.rounds(k).WriteFailure?
    modifies form.bodyParts, out
    ensures inMemory.Success? ==> streamed.Success? && out.wanted == inMemory.value
    ensures streamed.Success? && inMemory.Failure? <==>
              form.bodyPartError.None? &&
              (forall i :: 0 <= i < |form.bodyParts| ==> BodyOf(form.bodyParts[i]).Some?) &&
              exists i :: 0 <= i < |form.bodyParts| && BodyOf(form.bodyParts[i]).Some? &&
                |BodyOf(form.bodyParts[i]).value| != form.bodyParts[i].bodyContentLength
  {
    inMemory := form.Encode();
    streamed := form.WriteEncodedData(out);
  }
}
