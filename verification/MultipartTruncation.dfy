/** What a reader makes of a message that was cut off: only inside a header block can the cut be
    noticed, by the header parser; everywhere else it passes for a clean end. */
module MultipartTruncation {
  import opened Bytes
  import opened Bufio
  import opened Delimiter
  import opened PartScan
  import opened PartIteration
  import opened MultipartWriter
  import opened MultipartRoundTrip

  /** What is written from the delimiter in front of `parts` on. */
  function Rest(boundary: bytes, parts: seq<PartText>): bytes {
    Sections(boundary, parts) + Trailer(boundary)
  }

  function HeaderBlock(p: PartText): bytes {
    HeaderLines(p.header) + CRLF
  }

  /** A cut behind `k` bytes of what is written from a delimiter on leaves the whole line of a
      delimiter, but not the whole header block behind it. */
  predicate CutInHeader(boundary: bytes, parts: seq<PartText>, k: int) {
    parts != [] &&
    var lead := |boundary| + 6;
    var head := lead + |HeaderBlock(parts[0])|;
    lead <= k < head || CutInHeader(boundary, parts[1..], k - head - |parts[0].body|)
  }

  /** The bodies a reader delivers, and how the reading ends. */
  type Reading = (seq<bytes>, NextResult)

  /** What is delivered of a part when the stream ends before the delimiter behind its body can be
      told: everything, the front of that delimiter included, unless it looks like an empty part. */
  function CutBody(x: bytes, boundary: bytes): bytes {
    if IsEmptyPart(Window(x), CRLF, DASHES + boundary) then [] else x
  }

  /** The whole bodies in front of the cut, then what is left of the body that was cut. */
  function CutBodies(boundary: bytes, parts: seq<PartText>, k: int): seq<bytes>
    decreases |parts|, 0
  {
    var head := |boundary| + 6 + if parts == [] then 0 else |HeaderBlock(parts[0])|;
    if parts == [] || k < head then []
    else BodiesFrom(boundary, parts[0].body, parts[1..], k - head)
  }

  /** The same when `k` bytes are left from a body on. */
  function BodiesFrom(boundary: bytes, body: bytes, parts: seq<PartText>, k: nat): seq<bytes>
    decreases |parts|, 1
  {
    var tail := body + Rest(boundary, parts);
    if k < |body| + |boundary| + 6 then [CutBody(tail[..Min(k, |tail|)], boundary)]
    else [body] + CutBodies(boundary, parts, k - |body|)
  }

  /** What is read of a message cut behind `k` bytes from a delimiter on. */
  function Expected(boundary: bytes, parts: seq<PartText>, k: int): Reading {
    (CutBodies(boundary, parts, k), if CutInHeader(boundary, parts, k) then HeaderError else NoMoreParts)
  }

  lemma {:induction false} EarlyCut(boundary: bytes, parts: seq<PartText>, k: int)
    requires k < |boundary| + 6
    ensures !CutInHeader(boundary, parts, k) && CutBodies(boundary, parts, k) == []
    decreases |parts|
  {
    if parts != [] {
      EarlyCut(boundary, parts[1..], k - (|boundary| + 6) - |HeaderBlock(parts[0])| - |parts[0].body|);
    }
  }

  function InFront(body: bytes, r: Reading): Reading {
    ([body] + r.0, r.1)
  }

  lemma NothingBehind(body: bytes, result: NextResult)
    ensures InFront(body, ([], result)) == ([body], result)
  {
    assert [body] + [] == [body];
  }

  /** What the reader reads that goes on with the loop of `NextPart`. */
  function ReadFrom(c: Cursor, expecting: bool, boundary: bytes): Reading {
    var (result, c') := Scan(c, expecting, boundary);
    if result == Found then ReadInBody(c', boundary) else ([], result)
  }

  /** What the reader reads that goes on with a body. */
  function ReadInBody(c: Cursor, boundary: bytes): Reading {
    var n := BodyEnd(c.rest, c.nl, boundary);
    InFront(c.rest[..n], ReadAll(c.(rest := c.rest[n..]), boundary))
  }

  lemma WholeReading(c: Cursor, boundary: bytes)
    ensures ReadAll(c, boundary) == ReadFrom(c, false, boundary)
  {
  }

  lemma ReadBehindBlank(y: bytes, z: bytes, partsRead: nat, boundary: bytes)
    requires CRLF <= y && z == y[2..]
    ensures ReadFrom(Cursor(y, CRLF, partsRead), false, boundary)
            == ReadFrom(Cursor(z, CRLF, partsRead), partsRead > 0, boundary)
  {
    BlankLineGoes(Cursor(y, CRLF, partsRead), boundary);
  }

  lemma ReadBehindBody(x: bytes, body: bytes, y: bytes, partsRead: nat, boundary: bytes)
    requires x == body + y && BodyEnd(x, CRLF, boundary) == |body|
    ensures ReadInBody(Cursor(x, CRLF, partsRead), boundary)
            == InFront(body, ReadFrom(Cursor(y, CRLF, partsRead), false, boundary))
  {
    assert x[..|body|] == body && x[|body|..] == y;
    WholeReading(Cursor(y, CRLF, partsRead), boundary);
  }

  // ---------- lines that were cut ----------

  /** A last line without an LF is taken for the end of the message. */
  lemma UnterminatedIsEnd(c: Cursor, expecting: bool, boundary: bytes)
    requires |c.rest| < BUFFER_SIZE && FreeOf(c.rest, LF)
    ensures ScanLine(c, expecting, boundary) == Stop(NoMoreParts, c.(rest := []))
    ensures ReadFrom(c, expecting, boundary) == ([], NoMoreParts)
  {
    assert IndexByte(c.rest, LF) == -1;
  }

  lemma CutLine(line: bytes, z: bytes)
    requires IsLine(line) && z <= line && |z| < |line|
    ensures FreeOf(z, LF)
  {
  }

  /** A cut header block is never complete. */
  lemma {:induction false} HeaderCut(header: seq<Field>, w: bytes)
    requires CleanFields(header) && w <= HeaderLines(header) + CRLF && |w| < |HeaderLines(header)| + 2
    ensures HeaderLength(w) == None
    decreases |header|
  {
    if header == [] {
      assert w == [] || w == [CR];
      assert IndexByte(w, LF) == -1;
    } else {
      var line := FieldLine(header[0]);
      FieldLineIsLine(header[0]);
      Assoc(line, HeaderLines(header[1..]), CRLF);
      if |w| < |line| {
        assert w <= line;
        CutLine(line, w);
        assert IndexByte(w, LF) == -1;
      } else {
        var v := w[|line|..];
        assert w == line + v;
        HeaderCut(header[1..], v);
        HeaderLine(line, v);
      }
    }
  }

  // ---------- a cut inside a body, or before its delimiter can be recognised ----------

  lemma RestStarts(boundary: bytes, parts: seq<PartText>) returns (t: bytes)
    ensures Rest(boundary, parts) == NlDashBoundary(boundary) + t && Follows(t) && |t| >= 2
  {
    t := TailFollows(parts, boundary);
  }

  /** `x` stops before the delimiter behind the body can be told. */
  predicate IsShort(x: bytes, body: bytes, boundary: bytes, t: bytes) {
    && x <= body + (NlDashBoundary(boundary) + t) && |x| < |body| + |boundary| + 6
    && Follows(t) && |t| >= 2
  }

  lemma NothingInsideCut(x: bytes, body: bytes, boundary: bytes, t: bytes, k: nat)
    requires IsOneLine(boundary) && IsShort(x, body, boundary, t) && HoldsNoDelimiter(body, boundary)
    requires k < |body| && k <= |x|
    ensures !VisibleDelimiter(x[k..], NlDashBoundary(boundary))
  {
    var n, s := NlDashBoundary(boundary), body + CRLF;
    var all := body + (n + t);
    assert s <= all;
    if |x| >= |s| {
      assert s <= x;
      VisibleInside(body, boundary, x, k);
    } else {
      assert x <= s && x[k..] <= s[k..];
      VisibleMonotone(x[k..], s[k..], n);
    }
  }

  lemma VisibleMonotone(p: bytes, s: bytes, nlDashBoundary: bytes)
    requires p <= s
    ensures VisibleDelimiter(p, nlDashBoundary) ==> VisibleDelimiter(s, nlDashBoundary)
  {
    if VisibleDelimiter(p, nlDashBoundary) {
      TrueDelimiterMonotone(Window(p), Window(s), nlDashBoundary);
    }
  }

  /** One byte that is not LF does not make a delimiter. */
  lemma TailTooShort(s: bytes, nlDashBoundary: bytes)
    requires nlDashBoundary <= s && |s| <= |nlDashBoundary| + 1 <= BUFFER_SIZE
    requires |s| == |nlDashBoundary| + 1 ==> s[|nlDashBoundary|] == CR || s[|nlDashBoundary|] == DASH
    ensures !VisibleDelimiter(s, nlDashBoundary)
  {
    var r := s[|nlDashBoundary|..];
    assert r == [] || r == [CR] || r == [DASH];
    assert SkipLWSP(r) == r;
  }

  lemma NothingBehindCut(x: bytes, body: bytes, boundary: bytes, t: bytes, k: nat)
    requires IsOneLine(boundary) && IsShort(x, body, boundary, t) && |body| <= k <= |x|
    ensures !VisibleDelimiter(x[k..], NlDashBoundary(boundary))
  {
    var n := NlDashBoundary(boundary);
    var all := body + (n + t);
    assert all[|body| + 1] == n[1] && all[|body| + |n|] == t[0];
    assert k < |x| ==> x[k] == all[k];
    if n <= x[k..] {
      PrefixAt(n, x, k, 0);
      assert k == |body|;
      assert |x| > k + |n| ==> x[k..][|n|] == all[|body| + |n|];
      TailTooShort(x[k..], n);
    }
  }

  lemma NoDelimiterInCut(x: bytes, body: bytes, boundary: bytes, t: bytes)
    requires IsOneLine(boundary) && IsShort(x, body, boundary, t) && HoldsNoDelimiter(body, boundary)
    ensures VisibleEnd(x, NlDashBoundary(boundary)) == |x|
  {
    var e := VisibleEnd(x, NlDashBoundary(boundary));
    if e < |x| {
      if e < |body| {
        NothingInsideCut(x, body, boundary, t, e);
      } else {
        NothingBehindCut(x, body, boundary, t, e);
      }
    }
  }

  /** Where a text and a longer one disagree on the empty part, the shorter one is a closing
      boundary with nothing but blanks behind it. */
  lemma EmptyByCut(x: bytes, w: bytes, dashBoundary: bytes)
    requires x <= w && IsEmptyPart(x, CRLF, dashBoundary) && !IsEmptyPart(w, CRLF, dashBoundary)
    ensures dashBoundary + DASHES <= x && SkipLWSP(x[|dashBoundary| + 2..]) == []
  {
    var d := |dashBoundary|;
    assert dashBoundary <= dashBoundary + DASHES;
    NewlineIsNoDash(x[d..], w[d..]);
    assert dashBoundary + DASHES <= w ==> DASHES <= w[d..];
    if dashBoundary + DASHES <= x {
      SkipLWSPOfPrefix(x[d + 2..], w[d + 2..]);
    }
  }

  lemma NewlineIsNoDash(u: bytes, v: bytes)
    requires u <= v
    ensures CRLF <= SkipLWSP(u) ==> CRLF <= SkipLWSP(v) && !(DASHES <= v)
  {
    SkipLWSPOfPrefix(u, v);
  }

  lemma NotEmptyAtDelimiter(x: bytes, all: bytes, dashBoundary: bytes)
    requires x <= all && CRLF <= all && DASHES <= dashBoundary
    ensures !IsEmptyPart(Window(x), CRLF, dashBoundary)
  {
    assert dashBoundary <= dashBoundary + DASHES;
    assert Window(x) <= all && all[0] == CR && dashBoundary[0] == DASH;
    assert Window(x) != [] ==> Window(x)[0] == all[0];
  }

  lemma ClosingIsUnterminated(x: bytes, boundary: bytes)
    requires IsOneLine(boundary) && DASHES + boundary + DASHES <= x && SkipLWSP(x[|boundary| + 4..]) == []
    ensures FreeOf(x, LF)
  {
    var d := DASHES + boundary + DASHES;
    SkipLWSPDrops(x[|boundary| + 4..]);
    forall k | 0 <= k < |x|
      ensures x[k] != LF
    {
      assert if k < |d| then x[k] == d[k] else x[k] == x[|d|..][k - |d|] && IsBlank(x[k]);
    }
  }

  /** An empty part found only because of the cut is a last line without an LF. */
  lemma EmptyCutIsUnterminated(x: bytes, body: bytes, boundary: bytes, t: bytes)
    requires IsOneLine(boundary) && IsShort(x, body, boundary, t) && HoldsNoDelimiter(body, boundary)
    requires IsEmptyPart(Window(x), CRLF, DASHES + boundary)
    ensures |x| < BUFFER_SIZE && FreeOf(x, LF)
  {
    var s := body + CRLF;
    var all := body + (NlDashBoundary(boundary) + t);
    assert s <= all;
    if body == [] {
      NotEmptyAtDelimiter(x, all, DASHES + boundary);
    } else if |x| >= |s| {
      assert s <= x;
      EmptyPartInside(body, boundary, x);
    } else {
      assert x <= s;
      assert |x| >= BUFFER_SIZE ==> Window(x) == Window(s);
      assert x <= Window(s);
      EmptyByCut(x, Window(s), DASHES + boundary);
      ClosingIsUnterminated(x, boundary);
    }
  }

  lemma CutInBody(x: bytes, body: bytes, boundary: bytes, t: bytes, partsRead: nat)
    requires IsOneLine(boundary) && IsShort(x, body, boundary, t) && HoldsNoDelimiter(body, boundary)
    ensures ReadInBody(Cursor(x, CRLF, partsRead), boundary) == ([CutBody(x, boundary)], NoMoreParts)
  {
    assert CRLF + DASHES + boundary == NlDashBoundary(boundary);
    NoDelimiterInCut(x, body, boundary, t);
    if IsEmptyPart(Window(x), CRLF, DASHES + boundary) {
      EmptyCutIsUnterminated(x, body, boundary, t);
      LastBody(x, [], x, partsRead, boundary);
    } else {
      LastBody(x, x, [], partsRead, boundary);
    }
  }

  /** A body with nothing but an unterminated line behind it is the last one. */
  lemma LastBody(x: bytes, body: bytes, y: bytes, partsRead: nat, boundary: bytes)
    requires x == body + y && BodyEnd(x, CRLF, boundary) == |body| && |y| < BUFFER_SIZE && FreeOf(y, LF)
    ensures ReadInBody(Cursor(x, CRLF, partsRead), boundary) == ([body], NoMoreParts)
  {
    UnterminatedIsEnd(Cursor(y, CRLF, partsRead), false, boundary);
    ReadBehindBody(x, body, y, partsRead, boundary);
    NothingBehind(body, NoMoreParts);
  }

  // ---------- a cut behind a delimiter ----------

  lemma HeaderIsCut(c: Cursor, expecting: bool, boundary: bytes, p: PartText, w: bytes)
    requires IsOneLine(boundary) && CleanFields(p.header) && c.nl == CRLF
    requires c.rest == DASHES + boundary + CRLF + w && w <= HeaderBlock(p) && |w| < |HeaderBlock(p)|
    ensures ReadFrom(c, expecting, boundary) == ([], HeaderError)
  {
    HeaderCut(p.header, w);
    BoundaryLine(boundary, c.partsRead);
    LineTaken(DASHES + boundary + CRLF, w);
  }

  lemma HeaderIsWhole(c: Cursor, expecting: bool, boundary: bytes, p: PartText, x: bytes, partsRead: nat)
    requires IsOneLine(boundary) && CleanFields(p.header) && c.nl == CRLF && partsRead == c.partsRead + 1
    requires c.rest == DASHES + boundary + CRLF + (HeaderBlock(p) + x)
    ensures ReadFrom(c, expecting, boundary) == ReadInBody(Cursor(x, CRLF, partsRead), boundary)
  {
    HeaderReadsBack(p.header, x);
    BoundaryLineStops(c, expecting, boundary, HeaderBlock(p), x);
  }

  lemma CutInLine(c: Cursor, expecting: bool, boundary: bytes)
    requires IsOneLine(boundary) && c.nl == CRLF
    requires c.rest <= DASHES + boundary + CRLF || c.rest <= FinalText(boundary)
    requires |c.rest| < |boundary| + 4 || (c.rest <= FinalText(boundary) && |c.rest| < |boundary| + 6)
    ensures ReadFrom(c, expecting, boundary) == ([], NoMoreParts)
  {
    BoundaryLine(boundary, c.partsRead);
    FinalLine(boundary, c.partsRead);
    UnterminatedIsEnd(c, expecting, boundary);
  }

  lemma CutClosingLine(c: Cursor, expecting: bool, boundary: bytes)
    requires IsOneLine(boundary) && c.nl == CRLF && c.rest <= FinalText(boundary)
    ensures ReadFrom(c, expecting, boundary) == ([], NoMoreParts)
  {
    if |c.rest| < |boundary| + 6 {
      CutInLine(c, expecting, boundary);
    } else {
      FinalLineStops(c, expecting, boundary);
    }
  }

  lemma RestFromLine(boundary: bytes, parts: seq<PartText>)
    ensures CRLF <= Rest(boundary, parts)
    ensures Rest(boundary, parts)[2..]
            == if parts == [] then FinalText(boundary)
               else DASHES + boundary + CRLF + (HeaderBlock(parts[0]) + (parts[0].body + Rest(boundary, parts[1..])))
  {
    if parts == [] {
      TrailerWithoutNewline(boundary);
      assert Rest(boundary, parts) == Trailer(boundary);
    } else {
      SectionsWithoutNewline(parts, boundary);
    }
  }

  /** From the line of a delimiter on, without the line break in front of it. */
  lemma {:induction false} CutFromLine(c: Cursor, expecting: bool, boundary: bytes, parts: seq<PartText>, k: nat)
    requires IsOneLine(boundary) && CleanParts(parts) && NoneHoldsDelimiter(parts, boundary) && c.nl == CRLF
    requires c.rest <= Rest(boundary, parts)[2..] && k == |c.rest| + 2
    ensures ReadFrom(c, expecting, boundary) == Expected(boundary, parts, k)
    decreases |parts|, 0
  {
    RestFromLine(boundary, parts);
    EarlyCutOf(boundary, parts, k);
    if parts == [] {
      CutClosingLine(c, expecting, boundary);
    } else if k < |boundary| + 6 {
      assert c.rest <= DASHES + boundary + CRLF;
      CutInLine(c, expecting, boundary);
    } else {
      CutFromHeader(c, expecting, boundary, parts, k);
    }
  }

  /** From the header block behind a delimiter line on. */
  lemma {:induction false} CutFromHeader(c: Cursor, expecting: bool, boundary: bytes, parts: seq<PartText>, k: nat)
    requires IsOneLine(boundary) && CleanParts(parts) && NoneHoldsDelimiter(parts, boundary) && c.nl == CRLF
    requires parts != [] && k == |c.rest| + 2 >= |boundary| + 6
    requires c.rest <= DASHES + boundary + CRLF
                       + (HeaderBlock(parts[0]) + (parts[0].body + Rest(boundary, parts[1..])))
    ensures ReadFrom(c, expecting, boundary) == Expected(boundary, parts, k)
    decreases |parts|, 0, 0
  {
    var p := parts[0];
    var line, h := DASHES + boundary + CRLF, HeaderBlock(p);
    var w := c.rest[|line|..];
    assert c.rest == line + w;
    EarlyCutOf(boundary, parts, k);
    if |w| < |h| {
      assert w <= h;
      HeaderIsCut(c, expecting, boundary, p, w);
    } else {
      var x, rest, body, partsRead := w[|h|..], parts[1..], p.body, c.partsRead + 1;
      assert w == h + x && x <= body + Rest(boundary, rest);
      NoneHoldsDelimiterStep(parts, boundary);
      HeaderIsWhole(c, expecting, boundary, p, x, partsRead);
      var j := |x|;
      CutFromBody(x, body, boundary, rest, partsRead, j);
      LaterCut(boundary, parts, k, body, rest, j);
    }
  }

  /** What is read of a message cut behind `j` bytes from a body on. */
  function ExpectedFrom(boundary: bytes, body: bytes, parts: seq<PartText>, j: nat): Reading {
    (BodiesFrom(boundary, body, parts, j),
     if CutInHeader(boundary, parts, j - |body|) then HeaderError else NoMoreParts)
  }

  lemma LaterCut(boundary: bytes, parts: seq<PartText>, k: int, body: bytes, rest: seq<PartText>, j: nat)
    requires parts != [] && body == parts[0].body && rest == parts[1..]
    requires j == k - (|boundary| + 6) - |HeaderBlock(parts[0])|
    ensures Expected(boundary, parts, k) == ExpectedFrom(boundary, body, rest, j)
  {
  }

  lemma EarlyCutOf(boundary: bytes, parts: seq<PartText>, k: nat)
    ensures k < |boundary| + 6 || parts == [] ==> Expected(boundary, parts, k) == ([], NoMoreParts)
    ensures parts != [] && |boundary| + 6 <= k < |boundary| + 6 + |HeaderBlock(parts[0])| ==>
              Expected(boundary, parts, k) == ([], HeaderError)
  {
    if k < |boundary| + 6 {
      EarlyCut(boundary, parts, k);
    }
  }

  /** From a body on. */
  lemma {:induction false} CutFromBody(x: bytes, body: bytes, boundary: bytes, parts: seq<PartText>, partsRead: nat,
                                      j: nat)
    requires IsOneLine(boundary) && CleanParts(parts) && NoneHoldsDelimiter(parts, boundary)
    requires HoldsNoDelimiter(body, boundary) && x <= body + Rest(boundary, parts) && partsRead > 0
    requires j == |x|
    ensures ReadInBody(Cursor(x, CRLF, partsRead), boundary) == ExpectedFrom(boundary, body, parts, j)
    decreases |parts|, 1
  {
    var k := j - |body|;
    if k < |boundary| + 6 {
      var t := RestStarts(boundary, parts);
      EarlyCut(boundary, parts, k);
      CutInBody(x, body, boundary, t, partsRead);
      ShortReading(x, body, boundary, parts, j, k);
    } else {
      var y := x[|body|..];
      var z := y[2..];
      assert x == body + y && y <= Rest(boundary, parts);
      BodyEndsAtCut(body, y, boundary, parts);
      ReadBehindBody(x, body, y, partsRead, boundary);
      ReadBehindBlank(y, z, partsRead, boundary);
      CutFromLine(Cursor(z, CRLF, partsRead), true, boundary, parts, k);
      LongReading(body, boundary, parts, j, k);
    }
  }

  lemma ShortReading(x: bytes, body: bytes, boundary: bytes, parts: seq<PartText>, j: nat, k: int)
    requires x <= body + Rest(boundary, parts) && j == |x| < |body| + |boundary| + 6
    requires k == j - |body| && !CutInHeader(boundary, parts, k)
    ensures ExpectedFrom(boundary, body, parts, j) == ([CutBody(x, boundary)], NoMoreParts)
  {
    assert (body + Rest(boundary, parts))[..j] == x;
  }

  lemma LongReading(body: bytes, boundary: bytes, parts: seq<PartText>, j: nat, k: int)
    requires k == j - |body| >= |boundary| + 6
    ensures ExpectedFrom(boundary, body, parts, j) == InFront(body, Expected(boundary, parts, k))
  {
  }

  /** A body whose delimiter can be told ends where it was written to end. */
  lemma BodyEndsAtCut(body: bytes, y: bytes, boundary: bytes, parts: seq<PartText>)
    requires IsOneLine(boundary) && HoldsNoDelimiter(body, boundary)
    requires y <= Rest(boundary, parts) && |y| >= |boundary| + 6
    ensures BodyEnd(body + y, CRLF, boundary) == |body| && (body + y)[|body|..] == y && CRLF <= y
  {
    var t := RestStarts(boundary, parts);
    var n := NlDashBoundary(boundary);
    var u := y[|n|..];
    assert y == n + u && u <= t;
    assert Follows(u);
    BodyReadsBack(body, boundary, u);
  }

  // ---------- whole messages ----------

  /** Reading a message that was cut anywhere gives the whole bodies in front of the cut and what is
      left of the body that was cut. It meets the header parser's error if and only if the cut leaves
      a delimiter line and not the whole header block behind it; after every other cut, inside a body
      or a delimiter line, or before the closing delimiter, it ends as if the message were complete. */
  lemma CutIsRead(parts: seq<PartText>, boundary: bytes, k: nat)
    requires IsBoundary(boundary) && CleanParts(parts) && NoneHoldsDelimiter(parts, boundary)
    requires k <= |MessageText(boundary, parts)|
    ensures ReadAll(Cursor(MessageText(boundary, parts)[..k], CRLF, 0), boundary)
            == (CutBodies(boundary, parts, k + 2),
                if CutInHeader(boundary, parts, k + 2) then HeaderError else NoMoreParts)
  {
    AcceptedIsOneLine(boundary);
    var x := MessageText(boundary, parts)[..k];
    WholeReading(Cursor(x, CRLF, 0), boundary);
    if parts == [] {
      assert MessageText(boundary, []) == Trailer(boundary);
      CutEmptyMessage(x, boundary);
    } else {
      DropConcat(Sections(boundary, parts), Trailer(boundary), 2);
      CutFromLine(Cursor(x, CRLF, 0), false, boundary, parts, k + 2);
    }
  }

  lemma CutEmptyMessage(x: bytes, boundary: bytes)
    requires IsOneLine(boundary) && x <= Trailer(boundary)
    ensures ReadFrom(Cursor(x, CRLF, 0), false, boundary) == ([], NoMoreParts)
  {
    TrailerWithoutNewline(boundary);
    if |x| < 2 {
      assert x <= CRLF;
      CutLine(CRLF, x);
      UnterminatedIsEnd(Cursor(x, CRLF, 0), false, boundary);
    } else {
      var z := x[2..];
      ReadBehindBlank(x, z, 0, boundary);
      CutClosingLine(Cursor(z, CRLF, 0), false, boundary);
    }
  }

  lemma {:induction false} NoCutBehindParts(boundary: bytes, parts: seq<PartText>)
    requires forall i :: 0 <= i < |parts| ==> AvoidsBoundary(parts[i].body, boundary)
    ensures !CutInHeader(boundary, parts, |Sections(boundary, parts)|)
    ensures CutBodies(boundary, parts, |Sections(boundary, parts)|) == Bodies(parts)
    decreases |parts|
  {
    if parts != [] {
      var p, rest := parts[0], parts[1..];
      var k, j := |Sections(boundary, parts)|, |Sections(boundary, rest)|;
      NoCutBehindParts(boundary, rest);
      assert |AfterBoundary(p)| == 2 + |HeaderBlock(p)| + |p.body|;
      assert k == |boundary| + 6 + |HeaderBlock(p)| + (|p.body| + j);
      BodiesBehindBody(boundary, p.body, rest, j);
    }
  }

  lemma BodiesBehindBody(boundary: bytes, body: bytes, parts: seq<PartText>, j: nat)
    requires AvoidsBoundary(body, boundary) && j == |Sections(boundary, parts)|
    requires CutBodies(boundary, parts, j) == Bodies(parts)
    ensures BodiesFrom(boundary, body, parts, |body| + j) == [body] + Bodies(parts)
  {
    if parts == [] {
      assert (body + Rest(boundary, parts))[..|body|] == body;
      assert Window(body) <= body && DASHES + boundary <= DASHES + boundary + DASHES;
    } else {
      assert j >= |boundary| + 6;
    }
  }

  /** A message that was never closed is read exactly like one that was: its end is not missed. */
  lemma NeverClosed(parts: seq<PartText>, boundary: bytes)
    requires IsBoundary(boundary) && CleanParts(parts)
    requires forall i :: 0 <= i < |parts| ==> AvoidsBoundary(parts[i].body, boundary)
    ensures ReadAll(Cursor(OpenText(boundary, parts), CRLF, 0), boundary) == (Bodies(parts), NoMoreParts)
  {
    var open := OpenText(boundary, parts);
    var k := |open|;
    assert open == MessageText(boundary, parts)[..k];
    AllAvoiding(parts, boundary);
    CutIsRead(parts, boundary, k);
    OpenTextIsWhole(parts, boundary, k + 2);
  }

  lemma AllAvoiding(parts: seq<PartText>, boundary: bytes)
    requires IsBoundary(boundary) && forall i :: 0 <= i < |parts| ==> AvoidsBoundary(parts[i].body, boundary)
    ensures NoneHoldsDelimiter(parts, boundary)
  {
    AcceptedIsOneLine(boundary);
    forall i | 0 <= i < |parts|
      ensures HoldsNoDelimiter(parts[i].body, boundary)
    {
      AvoidingIsEnough(parts[i].body, boundary);
    }
  }

  lemma OpenTextIsWhole(parts: seq<PartText>, boundary: bytes, k: nat)
    requires forall i :: 0 <= i < |parts| ==> AvoidsBoundary(parts[i].body, boundary)
    requires k == |OpenText(boundary, parts)| + 2
    ensures !CutInHeader(boundary, parts, k) && CutBodies(boundary, parts, k) == Bodies(parts)
  {
    if parts != [] {
      NoCutBehindParts(boundary, parts);
      assert k == |Sections(boundary, parts)|;
    }
  }
}
