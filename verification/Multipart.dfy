/** The multipart/form-data format, how a receiver splits it again, and when that gives back the parts. */
module Multipart {
  import opened Bytes

  // ----- The format -----

  const CR: byte := 13
  const LF: byte := 10
  const DASH: byte := 45
  const COLON: byte := 58
  const SPACE: byte := 32
  const CRLF: seq<byte> := [CR, LF]
  const DASHES: seq<byte> := [DASH, DASH]

  datatype Header = Header(name: seq<byte>, value: seq<byte>)

  datatype Part = Part(headers: seq<Header>, body: seq<byte>)

  function InitialBoundary(boundary: seq<byte>): seq<byte> {
    DASHES + boundary + CRLF
  }

  function EncapsulatedBoundary(boundary: seq<byte>): seq<byte> {
    CRLF + DASHES + boundary + CRLF
  }

  function FinalBoundary(boundary: seq<byte>): seq<byte> {
    CRLF + DASHES + boundary + DASHES + CRLF
  }

  function HeaderLine(h: Header): seq<byte> {
    h.name + [COLON, SPACE] + h.value
  }

  function LinesOf(headers: seq<Header>): (lines: seq<seq<byte>>)
    ensures |lines| == |headers|
    ensures forall i :: 0 <= i < |headers| ==> lines[i] == HeaderLine(headers[i])
  {
    if headers == [] then [] else [HeaderLine(headers[0])] + LinesOf(headers[1..])
  }

  /** Each line is ended by CRLF, and so is the list of lines. */
  function LineBytes(lines: seq<seq<byte>>): seq<byte> {
    if lines == [] then CRLF else lines[0] + CRLF + LineBytes(lines[1..])
  }

  function Content(p: Part): seq<byte> {
    LineBytes(LinesOf(p.headers)) + p.body
  }

  /** From the content of part `i` to the end. */
  function ContentsFrom(boundary: seq<byte>, parts: seq<Part>, i: nat): seq<byte>
    requires i < |parts|
    decreases |parts| - i
  {
    Content(parts[i]) +
    if i + 1 == |parts| then FinalBoundary(boundary)
    else EncapsulatedBoundary(boundary) + ContentsFrom(boundary, parts, i + 1)
  }

  /** A form without parts is encoded as nothing at all. */
  function Encoding(boundary: seq<byte>, parts: seq<Part>): seq<byte> {
    if parts == [] then [] else InitialBoundary(boundary) + ContentsFrom(boundary, parts, 0)
  }

  // ----- The format, byte by byte -----

  /** A part is its header lines, each name, colon, space, value and line break, then an empty line and the body. */
  lemma ContentBytes(h: Header, headers: seq<Header>, body: seq<byte>)
    ensures Content(Part([], body)) == [13, 10] + body
    ensures Content(Part([h] + headers, body)) ==
            h.name + [58, 32] + h.value + [13, 10] + Content(Part(headers, body))
  {
    var all, lines := [h] + headers, LinesOf(headers);
    assert all[1..] == headers;
    assert LinesOf(all) == [HeaderLine(h)] + lines && LinesOf(all)[1..] == lines;
    var line, rest := HeaderLine(h) + CRLF, LineBytes(lines);
    assert LineBytes(LinesOf(all)) == line + rest;
    assert line + rest + body == line + (rest + body);
  }

  lemma {:induction false} ContentsOfRest(boundary: seq<byte>, p: Part, rest: seq<Part>, i: nat)
    requires i < |rest|
    ensures ContentsFrom(boundary, [p] + rest, i + 1) == ContentsFrom(boundary, rest, i)
    decreases |rest| - i
  {
    assert ([p] + rest)[i + 1] == rest[i];
    if i + 1 < |rest| {
      ContentsOfRest(boundary, p, rest, i + 1);
    }
  }

  /** A form opens with two dashes, the boundary and a line break, and closes with a line break, two dashes, the
      boundary, two more dashes and a line break. Between two parts there is a line break, and the opening again. */
  lemma EncodingBytes(boundary: seq<byte>, p: Part, rest: seq<Part>)
    ensures Encoding(boundary, []) == []
    ensures Encoding(boundary, [p] + rest) ==
            [45, 45] + boundary + [13, 10] + Content(p) + [13, 10] +
            if rest == [] then [45, 45] + boundary + [45, 45, 13, 10] else Encoding(boundary, rest)
  {
    if rest == [] {
      OnePartBytes(boundary, p);
      assert [p] + [] == [p];
    } else {
      MorePartsBytes(boundary, p, rest);
    }
  }

  lemma OnePartBytes(boundary: seq<byte>, p: Part)
    ensures Encoding(boundary, [p]) ==
            [45, 45] + boundary + [13, 10] + Content(p) + [13, 10] + ([45, 45] + boundary + [45, 45, 13, 10])
  {
    var closing := [45, 45] + boundary + [45, 45, 13, 10];
    assert FinalBoundary(boundary) == [13, 10] + closing;
    Regroup([45, 45] + boundary + [13, 10], Content(p), [13, 10], closing);
  }

  lemma BetweenParts(boundary: seq<byte>, more: seq<byte>)
    ensures EncapsulatedBoundary(boundary) + more == CRLF + (InitialBoundary(boundary) + more)
  {
    assert EncapsulatedBoundary(boundary) == CRLF + InitialBoundary(boundary);
  }

  lemma MorePartsBytes(boundary: seq<byte>, p: Part, rest: seq<Part>)
    requires rest != []
    ensures Encoding(boundary, [p] + rest) ==
            [45, 45] + boundary + [13, 10] + Content(p) + [13, 10] + Encoding(boundary, rest)
  {
    ContentsOfRest(boundary, p, rest, 0);
    var more := ContentsFrom(boundary, rest, 0);
    BetweenParts(boundary, more);
    Regroup(InitialBoundary(boundary), Content(p), CRLF, InitialBoundary(boundary) + more);
  }

  // ----- The receiver, after section 5.1.1 of RFC 2046 -----

  predicate OccursAt(d: seq<byte>, s: seq<byte>, k: nat) {
    k + |d| <= |s| && s[k..k + |d|] == d
  }

  ghost predicate Occurs(d: seq<byte>, s: seq<byte>) {
    exists k: nat :: OccursAt(d, s, k)
  }

  /** Where `d` occurs first in `s`, from position `k` on. */
  function First(d: seq<byte>, s: seq<byte>, k: nat): (r: Option<nat>)
    ensures r.Some? ==> k <= r.value && OccursAt(d, s, r.value)
    ensures r.Some? ==> forall j :: k <= j < r.value ==> !OccursAt(d, s, j)
    ensures r.None? ==> forall j: nat :: k <= j ==> !OccursAt(d, s, j)
    decreases |s| - k
  {
    if OccursAt(d, s, k) then Some(k)
    else if k >= |s| then None
    else First(d, s, k + 1)
  }

  /** The line break in front of a delimiter belongs to it. */
  function Delimiter(boundary: seq<byte>): seq<byte> {
    CRLF + DASHES + boundary
  }

  /** What the receiver knows of a part: its header lines and its body. */
  datatype View = View(lines: seq<seq<byte>>, body: seq<byte>)

  lemma SplitAtBreak(s: seq<byte>, k: nat)
    requires OccursAt(CRLF, s, k)
    ensures s == s[..k] + CRLF + s[k + 2..]
  {
    assert s == s[..k] + s[k..k + 2] + s[k + 2..];
  }

  /** Lines up to the first empty one are headers; the body follows. */
  function ReadPart(s: seq<byte>): (v: Option<View>)
    ensures v.Some? ==> s == LineBytes(v.value.lines) + v.value.body
    decreases |s|
  {
    var end := First(CRLF, s, 0);
    if end.None? then None
    else
      SplitAtBreak(s, end.value);
      if end.value == 0 then Some(View([], s[2..]))
      else
        var rest := ReadPart(s[end.value + 2..]);
        if rest.None? then None
        else
          LineInFront(s[..end.value], rest.value);
          Some(View([s[..end.value]] + rest.value.lines, rest.value.body))
  }

  lemma LineInFront(line: seq<byte>, v: View)
    ensures LineBytes([line] + v.lines) + v.body == line + CRLF + (LineBytes(v.lines) + v.body)
  {
    assert ([line] + v.lines)[1..] == v.lines;
  }

  /** Goes on behind a delimiter: two dashes end the form, a line break begins a part, which lasts until the delimiter
      occurs again. That line break may be the one of the next delimiter, so the search begins with it. */
  function ReadFrom(delimiter: seq<byte>, s: seq<byte>): Option<seq<View>>
    requires delimiter != []
    decreases |s|
  {
    if DASHES <= s then Some([])
    else if !(CRLF <= s) then None
    else
      var end := First(delimiter, s, 0);
      if end.None? || end.value < 2 then None
      else
        var part := ReadPart(s[2..end.value]);
        var more := ReadFrom(delimiter, s[end.value + |delimiter|..]);
        if part.None? || more.None? then None else Some([part.value] + more.value)
  }

  /** The text before the first delimiter is skipped. A delimiter may also stand at the very beginning. */
  function Read(boundary: seq<byte>, s: seq<byte>): Option<seq<View>> {
    var d := Delimiter(boundary);
    var start := First(d, CRLF + s, 0);
    if start.None? then None else ReadFrom(d, (CRLF + s)[start.value + |d|..])
  }

  // ----- What the receiver gets -----

  function ViewOf(p: Part): View {
    View(LinesOf(p.headers), p.body)
  }

  function ViewsFrom(parts: seq<Part>, i: nat): (views: seq<View>)
    requires i <= |parts|
    ensures |views| == |parts| - i
    decreases |parts| - i
  {
    if i == |parts| then [] else [ViewOf(parts[i])] + ViewsFrom(parts, i + 1)
  }

  /** Header lines have to be lines: not empty, which the colon sees to, and without a line break. */
  ghost predicate PlainHeaders(p: Part) {
    forall i :: 0 <= i < |p.headers| ==> !Occurs(CRLF, HeaderLine(p.headers[i]))
  }

  /** From the line break in front of the part on, the first delimiter is the one behind the part. */
  ghost predicate Clear(boundary: seq<byte>, p: Part) {
    EndsAtOnce(Delimiter(boundary), CRLF + Content(p))
  }

  /** The delimiter does not occur in the part, nor does it begin with the line break in front of the part. */
  ghost predicate Separable(boundary: seq<byte>, p: Part) {
    !Occurs(Delimiter(boundary), CRLF + Content(p))
  }

  lemma ByteDiffers(d: seq<byte>, s: seq<byte>, k: nat, i: nat)
    requires i < |d| && k + i < |s| && s[k + i] != d[i]
    ensures !OccursAt(d, s, k)
  {
    assert k + |d| <= |s| ==> s[k..k + |d|][i] == s[k + i];
  }

  /** In `x + d`, the delimiter `d` occurs at the end only. */
  ghost predicate EndsAtOnce(d: seq<byte>, x: seq<byte>) {
    forall k: nat :: k < |x| ==> !OccursAt(d, x + d, k)
  }

  /** An occurrence that begins within `x` does not reach beyond the `d` behind it. */
  lemma OccursBefore(d: seq<byte>, x: seq<byte>, y: seq<byte>, k: nat)
    requires k < |x|
    ensures OccursAt(d, x + d + y, k) <==> OccursAt(d, x + d, k)
  {
    assert (x + d + y)[k..k + |d|] == (x + d)[k..k + |d|];
  }

  /** Then, in `x + d + y`, the first occurrence of `d` is the one after `x`. */
  lemma FirstIsBehind(d: seq<byte>, x: seq<byte>, y: seq<byte>)
    requires d != [] && EndsAtOnce(d, x)
    ensures First(d, x + d + y, 0) == Some(|x|)
  {
    var s := x + d + y;
    assert OccursAt(d, s, |x|);
    forall k | 0 <= k < |x|
      ensures !OccursAt(d, s, k)
    {
      OccursBefore(d, x, y, k);
    }
  }

  /** Otherwise it begins before. */
  lemma FirstIsBefore(d: seq<byte>, x: seq<byte>, y: seq<byte>)
    requires !EndsAtOnce(d, x)
    ensures First(d, x + d + y, 0).Some? && First(d, x + d + y, 0).value < |x|
  {
    var k: nat :| k < |x| && OccursAt(d, x + d, k);
    OccursBefore(d, x, y, k);
  }

  // ----- Delimiters that cannot overlap -----

  /** The last `b` elements of `d` are its first ones: two occurrences can overlap by that many. */
  predicate Border(d: seq<byte>, b: nat) {
    0 < b < |d| && d[..b] == d[|d| - b..]
  }

  ghost predicate Unbordered(d: seq<byte>) {
    forall b: nat :: !Border(d, b)
  }

  /** An occurrence of `d` that straddles the end of `x` and a following `d` shows a border. */
  lemma StraddlingIsBorder(d: seq<byte>, x: seq<byte>, k: nat)
    requires k < |x| < k + |d| && OccursAt(d, x + d, k)
    ensures Border(d, k + |d| - |x|)
  {
    var b, s := k + |d| - |x|, x + d;
    assert s[k..k + |d|][|d| - b..] == s[|x|..k + |d|];
    assert s[|x|..k + |d|] == d[..b];
  }

  /** So there is none if the delimiter has no border. */
  lemma NoStraddling(d: seq<byte>, x: seq<byte>, k: nat)
    requires Unbordered(d) && k < |x| < k + |d|
    ensures !OccursAt(d, x + d, k)
  {
    if OccursAt(d, x + d, k) {
      StraddlingIsBorder(d, x, k);
    }
  }

  lemma UnborderedEnds(d: seq<byte>, x: seq<byte>)
    requires Unbordered(d) && !Occurs(d, x)
    ensures EndsAtOnce(d, x)
  {
    forall k: nat | k < |x|
      ensures !OccursAt(d, x + d, k)
    {
      if k + |d| <= |x| {
        assert (x + d)[k..k + |d|] == x[k..k + |d|];
        assert !OccursAt(d, x, k);
      } else {
        NoStraddling(d, x, k);
      }
    }
  }

  lemma EndsWithout(d: seq<byte>, x: seq<byte>)
    requires d != [] && EndsAtOnce(d, x)
    ensures !Occurs(d, x)
  {
    forall k: nat
      ensures !OccursAt(d, x, k)
    {
      if OccursAt(d, x, k) {
        assert (x + d)[k..k + |d|] == x[k..k + |d|];
        assert OccursAt(d, x + d, k);
      }
    }
  }

  /** A first byte that does not occur again leaves no room for a border. */
  lemma FirstByteIsUnique(d: seq<byte>)
    requires forall i :: 0 < i < |d| ==> d[i] != d[0]
    ensures Unbordered(d)
  {
    forall b: nat
      ensures !Border(d, b)
    {
      if 0 < b < |d| {
        assert d[..b][0] != d[|d| - b..][0];
      }
    }
  }

  /** The usual case: no carriage return in the boundary. */
  lemma PlainBoundary(boundary: seq<byte>)
    requires CR !in boundary
    ensures Unbordered(Delimiter(boundary))
  {
    FirstByteIsUnique(Delimiter(boundary));
  }

  // ----- Reading parts back -----

  lemma {:induction false} HeadersReadBack(headers: seq<Header>, body: seq<byte>)
    requires PlainHeaders(Part(headers, body))
    ensures ReadPart(LineBytes(LinesOf(headers)) + body) == Some(View(LinesOf(headers), body))
  {
    var s := LineBytes(LinesOf(headers)) + body;
    if headers == [] {
      assert OccursAt(CRLF, s, 0);
      assert s[2..] == body;
    } else {
      var line, more := HeaderLine(headers[0]), headers[1..];
      var tail := LineBytes(LinesOf(more)) + body;
      assert LinesOf(headers)[1..] == LinesOf(more);
      assert s == line + CRLF + tail;
      assert !Occurs(CRLF, line);
      FirstByteIsUnique(CRLF);
      UnborderedEnds(CRLF, line);
      FirstIsBehind(CRLF, line, tail);
      assert |line| > 0 && s[|line| + 2..] == tail && s[..|line|] == line;
      forall i | 0 <= i < |more|
        ensures !Occurs(CRLF, HeaderLine(more[i]))
      {
        assert more[i] == headers[i + 1];
      }
      HeadersReadBack(more, body);
    }
  }

  /** What stands behind a part. */
  function TailOf(boundary: seq<byte>, parts: seq<Part>, i: nat): seq<byte>
    requires i < |parts|
  {
    if i + 1 == |parts| then DASHES + CRLF else CRLF + ContentsFrom(boundary, parts, i + 1)
  }

  lemma BoundariesAndTails(boundary: seq<byte>, rest: seq<byte>)
    ensures FinalBoundary(boundary) == Delimiter(boundary) + (DASHES + CRLF)
    ensures EncapsulatedBoundary(boundary) + rest == Delimiter(boundary) + (CRLF + rest)
  {
  }

  lemma Regroup(a: seq<byte>, b: seq<byte>, c: seq<byte>, d: seq<byte>)
    ensures a + (b + (c + d)) == a + b + c + d
  {
  }

  lemma ContentAndTail(boundary: seq<byte>, parts: seq<Part>, i: nat)
    requires i < |parts|
    ensures CRLF + ContentsFrom(boundary, parts, i) ==
            CRLF + Content(parts[i]) + Delimiter(boundary) + TailOf(boundary, parts, i)
  {
    var d, tail := Delimiter(boundary), TailOf(boundary, parts, i);
    BoundariesAndTails(boundary, if i + 1 < |parts| then ContentsFrom(boundary, parts, i + 1) else []);
    assert ContentsFrom(boundary, parts, i) == Content(parts[i]) + (d + tail);
    Regroup(CRLF, Content(parts[i]), d, tail);
  }

  function Joined(part: Option<View>, more: Option<seq<View>>): Option<seq<View>> {
    if part.None? || more.None? then None else Some([part.value] + more.value)
  }

  /** The first part, where its end can be seen. */
  lemma ReadClear(d: seq<byte>, content: seq<byte>, tail: seq<byte>)
    requires d != [] && EndsAtOnce(d, CRLF + content)
    ensures ReadFrom(d, CRLF + content + d + tail) == Joined(ReadPart(content), ReadFrom(d, tail))
  {
    var x := CRLF + content;
    var s := x + d + tail;
    FirstIsBehind(d, x, tail);
    assert s[2..|x|] == content && s[|x| + |d|..] == tail;
    assert s[0] == CR && s[1] == LF;
  }

  /** The first part, where it is cut short. */
  lemma ReadUnclear(d: seq<byte>, content: seq<byte>, tail: seq<byte>)
    requires d != [] && !EndsAtOnce(d, CRLF + content)
    ensures CutShort(ReadFrom(d, CRLF + content + d + tail), |content|)
  {
    var x := CRLF + content;
    var s := x + d + tail;
    FirstIsBefore(d, x, tail);
    assert s[0] == CR && s[1] == LF;
  }

  /** If anything is read, the first part has fewer than `size` bytes. */
  predicate CutShort(r: Option<seq<View>>, size: nat) {
    r.Some? ==> r.value != [] && |LineBytes(r.value[0].lines) + r.value[0].body| < size
  }

  /** What is read from part `i` on. */
  function ReadParts(boundary: seq<byte>, parts: seq<Part>, i: nat): Option<seq<View>>
    requires i < |parts|
  {
    ReadFrom(Delimiter(boundary), CRLF + ContentsFrom(boundary, parts, i))
  }

  lemma PartClear(boundary: seq<byte>, parts: seq<Part>, i: nat)
    requires i < |parts| && Clear(boundary, parts[i])
    ensures ReadParts(boundary, parts, i) ==
            Joined(ReadPart(Content(parts[i])),
                   if i + 1 == |parts| then Some([]) else ReadParts(boundary, parts, i + 1))
  {
    ContentAndTail(boundary, parts, i);
    ReadClear(Delimiter(boundary), Content(parts[i]), TailOf(boundary, parts, i));
  }

  lemma PartUnclear(boundary: seq<byte>, parts: seq<Part>, i: nat)
    requires i < |parts| && !Clear(boundary, parts[i])
    ensures CutShort(ReadParts(boundary, parts, i), |Content(parts[i])|)
  {
    ContentAndTail(boundary, parts, i);
    ReadUnclear(Delimiter(boundary), Content(parts[i]), TailOf(boundary, parts, i));
  }

  lemma JoinedTail(part: Option<View>, more: Option<seq<View>>, v: View, views: seq<View>)
    requires Joined(part, more) == Some([v] + views)
    ensures more == Some(views)
  {
    assert ([part.value] + more.value)[1..] == more.value;
    assert ([v] + views)[1..] == views;
  }

  lemma {:induction false} PartsReadBack(boundary: seq<byte>, parts: seq<Part>, i: nat)
    requires i < |parts|
    requires forall j :: 0 <= j < |parts| ==> PlainHeaders(parts[j])
    requires forall j :: i <= j < |parts| ==> Clear(boundary, parts[j])
    ensures ReadParts(boundary, parts, i) == Some(ViewsFrom(parts, i))
    decreases |parts| - i
  {
    PartClear(boundary, parts, i);
    HeadersReadBack(parts[i].headers, parts[i].body);
    if i + 1 < |parts| {
      PartsReadBack(boundary, parts, i + 1);
    }
  }

  lemma ViewsHead(parts: seq<Part>, i: nat)
    requires i < |parts|
    ensures ViewsFrom(parts, i) == [ViewOf(parts[i])] + ViewsFrom(parts, i + 1)
    ensures LineBytes(ViewsFrom(parts, i)[0].lines) + ViewsFrom(parts, i)[0].body == Content(parts[i])
  {
  }

  lemma CutHere(read: Option<seq<View>>, parts: seq<Part>, i: nat)
    requires i < |parts| && CutShort(read, |Content(parts[i])|)
    ensures read != Some(ViewsFrom(parts, i))
  {
    ViewsHead(parts, i);
  }

  lemma CutLater(part: Option<View>, more: Option<seq<View>>, parts: seq<Part>, i: nat)
    requires i < |parts| && more != Some(ViewsFrom(parts, i + 1))
    ensures Joined(part, more) != Some(ViewsFrom(parts, i))
  {
    ViewsHead(parts, i);
    if Joined(part, more) == Some(ViewsFrom(parts, i)) {
      JoinedTail(part, more, ViewOf(parts[i]), ViewsFrom(parts, i + 1));
    }
  }

  lemma ThisIsCut(boundary: seq<byte>, parts: seq<Part>, i: nat)
    requires i < |parts| && !Clear(boundary, parts[i])
    ensures ReadParts(boundary, parts, i) != Some(ViewsFrom(parts, i))
  {
    PartUnclear(boundary, parts, i);
    CutHere(ReadParts(boundary, parts, i), parts, i);
  }

  lemma NextIsCut(boundary: seq<byte>, parts: seq<Part>, i: nat)
    requires i + 1 < |parts| && Clear(boundary, parts[i])
    requires ReadParts(boundary, parts, i + 1) != Some(ViewsFrom(parts, i + 1))
    ensures ReadParts(boundary, parts, i) != Some(ViewsFrom(parts, i))
  {
    PartClear(boundary, parts, i);
    CutLater(ReadPart(Content(parts[i])), ReadParts(boundary, parts, i + 1), parts, i);
  }

  /** The first part that contains a delimiter is cut short. */
  lemma {:induction false} PartIsCut(boundary: seq<byte>, parts: seq<Part>, i: nat, bad: nat)
    requires i <= bad < |parts| && !Clear(boundary, parts[bad])
    ensures ReadParts(boundary, parts, i) != Some(ViewsFrom(parts, i))
    decreases |parts| - i
  {
    if !Clear(boundary, parts[i]) {
      ThisIsCut(boundary, parts, i);
    } else {
      PartIsCut(boundary, parts, i + 1, bad);
      NextIsCut(boundary, parts, i);
    }
  }

  lemma BeginsWith(d: seq<byte>, rest: seq<byte>)
    requires d != []
    ensures First(d, d + rest, 0) == Some(0) && (d + rest)[|d|..] == rest
  {
    assert OccursAt(d, d + rest, 0);
  }

  lemma ReadBegins(boundary: seq<byte>, parts: seq<Part>)
    requires parts != []
    ensures Read(boundary, Encoding(boundary, parts)) == ReadParts(boundary, parts, 0)
  {
    var contents := ContentsFrom(boundary, parts, 0);
    InitialDelimiter(boundary, contents);
    BeginsWith(Delimiter(boundary), CRLF + contents);
  }

  lemma InitialDelimiter(boundary: seq<byte>, contents: seq<byte>)
    ensures CRLF + (InitialBoundary(boundary) + contents) == Delimiter(boundary) + (CRLF + contents)
  {
  }

  /** Whatever the boundary, a form with parts is read back as it was exactly if the first delimiter behind each part is
      its own. */
  lemma ReadsBackClear(boundary: seq<byte>, parts: seq<Part>)
    requires parts != [] && forall j :: 0 <= j < |parts| ==> PlainHeaders(parts[j])
    ensures Read(boundary, Encoding(boundary, parts)) == Some(ViewsFrom(parts, 0)) <==>
            forall j :: 0 <= j < |parts| ==> Clear(boundary, parts[j])
  {
    ReadBegins(boundary, parts);
    if forall j :: 0 <= j < |parts| ==> Clear(boundary, parts[j]) {
      PartsReadBack(boundary, parts, 0);
    } else {
      var bad :| 0 <= bad < |parts| && !Clear(boundary, parts[bad]);
      PartIsCut(boundary, parts, 0, bad);
    }
  }

  /** With a delimiter that has no border, that is to say that the delimiter occurs in no part. */
  lemma ReadsBack(boundary: seq<byte>, parts: seq<Part>)
    requires Unbordered(Delimiter(boundary)) && parts != []
    requires forall j :: 0 <= j < |parts| ==> PlainHeaders(parts[j])
    ensures Read(boundary, Encoding(boundary, parts)) == Some(ViewsFrom(parts, 0)) <==>
            forall j :: 0 <= j < |parts| ==> Separable(boundary, parts[j])
  {
    forall j | 0 <= j < |parts|
      ensures Clear(boundary, parts[j]) <==> Separable(boundary, parts[j])
    {
      ClearIsSeparable(boundary, parts[j]);
    }
    ReadsBackClear(boundary, parts);
  }

  lemma ClearIsSeparable(boundary: seq<byte>, p: Part)
    ensures Clear(boundary, p) ==> Separable(boundary, p)
    ensures Unbordered(Delimiter(boundary)) && Separable(boundary, p) ==> Clear(boundary, p)
  {
    var d, x := Delimiter(boundary), CRLF + Content(p);
    if Clear(boundary, p) {
      EndsWithout(d, x);
    } else if Unbordered(d) && Separable(boundary, p) {
      UnborderedEnds(d, x);
    }
  }

  // ----- Which boundaries are safe -----

  ghost predicate SafeForm(boundary: seq<byte>, parts: seq<Part>) {
    parts != [] && forall j :: 0 <= j < |parts| ==> PlainHeaders(parts[j]) && Separable(boundary, parts[j])
  }

  /** Every form whose parts do not contain the delimiter is read back. */
  ghost predicate SafeBoundary(boundary: seq<byte>) {
    forall parts :: SafeForm(boundary, parts) ==>
      Read(boundary, Encoding(boundary, parts)) == Some(ViewsFrom(parts, 0))
  }

  /** The part that ends with a delimiter up to its border. */
  function CutPart(boundary: seq<byte>, b: nat): Part
    requires b <= |Delimiter(boundary)|
  {
    Part([], Delimiter(boundary)[..|Delimiter(boundary)| - b])
  }

  /** Line breaks before `d` do not make for an earlier occurrence. */
  lemma BreaksBefore(boundary: seq<byte>, x: seq<byte>, k: nat)
    requires |x| >= 5 && x[..5] == [CR, LF, CR, LF, CR] && k < 4
    ensures !OccursAt(Delimiter(boundary), x, k)
  {
    var d := Delimiter(boundary);
    assert d[0] == CR && d[2] == DASH;
    assert x[..5][k] == x[k] && (k <= 2 ==> x[..5][k + 2] == x[k + 2]);
    if k == 0 || k == 2 {
      ByteDiffers(d, x, k, 2);
    } else {
      ByteDiffers(d, x, k, 0);
    }
  }

  /** The delimiter does not occur in that part: what is left of it is too short. */
  lemma CutPartIsSeparable(boundary: seq<byte>, b: nat)
    requires Border(Delimiter(boundary), b)
    ensures PlainHeaders(CutPart(boundary, b)) && Separable(boundary, CutPart(boundary, b))
  {
    var d := Delimiter(boundary);
    var x := CRLF + Content(CutPart(boundary, b));
    assert x == CRLF + (CRLF + d[..|d| - b]);
    assert x[4] == d[..|d| - b][0] == CR;
    assert x[..5] == [CR, LF, CR, LF, CR];
    forall k: nat
      ensures !OccursAt(d, x, k)
    {
      if k < 4 {
        BreaksBefore(boundary, x, k);
      }
    }
  }

  /** But with the delimiter behind it, it occurs where that rest begins. */
  lemma CutPartIsUnclear(boundary: seq<byte>, b: nat)
    requires Border(Delimiter(boundary), b)
    ensures !Clear(boundary, CutPart(boundary, b))
  {
    var d := Delimiter(boundary);
    var n := |d| - b;
    var x := CRLF + Content(CutPart(boundary, b));
    assert x == CRLF + (CRLF + d[..n]) && |x| == 4 + n;
    assert (x + d)[4..4 + |d|] == d[..n] + d[..b] == d[..n] + d[n..] == d;
    assert OccursAt(d, x + d, 4);
  }

  /** A border spoils it: there is a form in which the delimiter occurs in no part, and which is not read back. */
  lemma BorderedIsUnsafe(boundary: seq<byte>, b: nat, parts: seq<Part>)
    requires Border(Delimiter(boundary), b) && |parts| == 1 && parts[0] == CutPart(boundary, b)
    ensures SafeForm(boundary, parts)
    ensures Read(boundary, Encoding(boundary, parts)) != Some(ViewsFrom(parts, 0))
  {
    CutPartIsSeparable(boundary, b);
    CutPartIsUnclear(boundary, b);
    assert PlainHeaders(parts[0]) && !Clear(boundary, parts[0]);
    assert SafeForm(boundary, parts);
    ReadsBackClear(boundary, parts);
  }

  /** A boundary is safe if and only if its delimiter has no border. */
  lemma SafeIsUnbordered(boundary: seq<byte>)
    ensures SafeBoundary(boundary) <==> Unbordered(Delimiter(boundary))
  {
    if b: nat :| Border(Delimiter(boundary), b) {
      var parts := [CutPart(boundary, b)];
      BorderedIsUnsafe(boundary, b, parts);
    } else {
      forall parts | SafeForm(boundary, parts)
        ensures Read(boundary, Encoding(boundary, parts)) == Some(ViewsFrom(parts, 0))
      {
        ReadsBack(boundary, parts);
      }
    }
  }

  /** For example, a boundary that begins like the delimiter does. */
  lemma StraddlingDelimiter(boundary: seq<byte>, parts: seq<Part>)
    requires boundary == [CR, LF, DASH, DASH] && |parts| == 1 && parts[0] == Part([], [CR, LF, DASH, DASH])
    ensures PlainHeaders(parts[0]) && Separable(boundary, parts[0])
    ensures Read(boundary, Encoding(boundary, parts)) != Some(ViewsFrom(parts, 0))
  {
    var d := Delimiter(boundary);
    assert d == [CR, LF, DASH, DASH, CR, LF, DASH, DASH];
    assert d[..4] == d[4..] == [CR, LF, DASH, DASH];
    BorderedIsUnsafe(boundary, 4, parts);
  }

  /** A carriage return alone does no harm. */
  lemma HarmlessReturn(boundary: seq<byte>)
    requires boundary == [CR, DASH]
    ensures SafeBoundary(boundary)
  {
    var d := Delimiter(boundary);
    assert d == [CR, LF, DASH, DASH, CR, DASH];
    forall b: nat
      ensures !Border(d, b)
    {
      if 0 < b < |d| {
        assert d[..b][0] == CR && d[|d| - b..][0] == d[|d| - b];
        assert b == 2 ==> d[..b][1] != d[|d| - b..][1];
      }
    }
    SafeIsUnbordered(boundary);
  }

  /** With a safe boundary, different forms never look alike. */
  lemma Unambiguous(boundary: seq<byte>, parts: seq<Part>, others: seq<Part>)
    requires SafeBoundary(boundary) && SafeForm(boundary, parts) && SafeForm(boundary, others)
    requires Encoding(boundary, parts) == Encoding(boundary, others)
    ensures ViewsFrom(parts, 0) == ViewsFrom(others, 0)
  {
  }

  /** A form without parts is not a multipart message: there is no delimiter in it. */
  lemma EmptyFormIsUnreadable(boundary: seq<byte>)
    ensures Read(boundary, Encoding(boundary, [])) == None
  {
    var d := Delimiter(boundary);
    forall k: nat
      ensures !OccursAt(d, CRLF + [], k)
    {
      assert |d| >= 4;
    }
  }

  /** The header itself can be told from its line if its name has no colon. */
  lemma HeaderIsReadable(h: Header)
    requires COLON !in h.name
    ensures First([COLON, SPACE], HeaderLine(h), 0) == Some(|h.name|)
    ensures HeaderLine(h)[..|h.name|] == h.name && HeaderLine(h)[|h.name| + 2..] == h.value
  {
    assert OccursAt([COLON, SPACE], HeaderLine(h), |h.name|);
    forall k | 0 <= k < |h.name|
      ensures !OccursAt([COLON, SPACE], HeaderLine(h), k)
    {
      ByteDiffers([COLON, SPACE], HeaderLine(h), k, 0);
    }
  }
}
