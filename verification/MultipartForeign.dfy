/** Messages from other writers: LF line ends, blanks behind boundaries, empty bodies without a line
    break of their own, a preamble and an epilogue. */
module MultipartForeign {
  import opened Bytes
  import opened Bufio
  import opened Streams
  import opened Delimiter
  import opened PartScan
  import opened PartIteration
  import opened MultipartRoundTrip
  import opened MultipartTruncation

  // ---------- how messages are written ----------

  /** A part: the blanks behind its boundary, its header block, its body, and whether the delimiter
      behind it stands directly behind the header, without a line break for an empty body. */
  datatype RawPart = RawPart(pad: bytes, header: bytes, body: bytes, bare: bool)

  /** What stands behind the closing boundary: blanks, and a newline and an epilogue, or nothing more. */
  datatype Closing = Terminated(pad: bytes, epilogue: bytes) | Unterminated(pad: bytes)

  predicate IsNewline(nl: bytes) {
    nl == CRLF || nl == [LF]
  }

  /** The boundary never stands at the start of a line of the body. */
  predicate AvoidsLines(body: bytes, nl: bytes, boundary: bytes) {
    && !(DASHES + boundary <= body)
    && forall k :: 0 <= k < |body| ==> !(nl + DASHES + boundary <= body[k..])
  }

  /** A delimiter line with its line breaks fits the reader's buffer. */
  predicate Fits(pad: bytes, boundary: bytes) {
    AreBlanks(pad) && |boundary| + |pad| + 6 <= BUFFER_SIZE
  }

  predicate IsRawPart(p: RawPart, nl: bytes, boundary: bytes) {
    && Fits(p.pad, boundary) && HeaderLength(p.header) == Some(|p.header|)
    && if p.bare then p.body == [] else AvoidsLines(p.body, nl, boundary)
  }

  predicate AreRawParts(parts: seq<RawPart>, nl: bytes, boundary: bytes) {
    forall i :: 0 <= i < |parts| ==> IsRawPart(parts[i], nl, boundary)
  }

  function ClosingText(c: Closing, nl: bytes): bytes {
    match c case Terminated(pad, epilogue) => pad + (nl + epilogue) case Unterminated(pad) => pad
  }

  /** From the line of a delimiter on. */
  function FromLine(nl: bytes, boundary: bytes, parts: seq<RawPart>, end: Closing): bytes
    decreases |parts|, 0
  {
    DASHES + boundary +
    if parts == [] then DASHES + ClosingText(end, nl)
    else parts[0].pad + (nl + (parts[0].header + (parts[0].body + FromBody(nl, boundary, parts[0], parts[1..], end))))
  }

  /** From the end of a body on. */
  function FromBody(nl: bytes, boundary: bytes, p: RawPart, parts: seq<RawPart>, end: Closing): bytes
    decreases |parts|, 1
  {
    if p.bare then FromLine(nl, boundary, parts, end) else nl + FromLine(nl, boundary, parts, end)
  }

  function RawBodies(parts: seq<RawPart>): seq<bytes> {
    if parts == [] then [] else [parts[0].body] + RawBodies(parts[1..])
  }

  // ---------- lines ----------

  lemma {:induction false} HeaderInFront(h: bytes, s: bytes)
    requires HeaderLength(h) == Some(|h|)
    ensures HeaderLength(h + s) == Some(|h|) && (h + s)[|h|..] == s
    decreases |h|
  {
    var line, rest := FirstHeaderLine(h);
    Assoc(line, rest, s);
    HeaderFirst(line, rest + s);
    if line != [LF] && line != CRLF {
      HeaderInFront(rest, s);
    } else {
      assert [] + s == s;
    }
  }

  lemma {:induction false} FirstHeaderLine(h: bytes) returns (line: bytes, rest: bytes)
    requires HeaderLength(h) == Some(|h|)
    ensures h == line + rest && IsLine(line)
    ensures if line == [LF] || line == CRLF then rest == [] else HeaderLength(rest) == Some(|rest|)
  {
    var j := IndexByte(h, LF);
    assert j != -1;
    line, rest := h[..j + 1], h[j + 1..];
    assert h == line + rest && |h| == j + 1 + |rest|;
    FrontIsLine(h, j);
    HeaderFirst(line, rest);
  }

  lemma FrontIsLine(h: bytes, j: nat)
    requires IndexByte(h, LF) == j
    ensures IsLine(h[..j + 1])
  {
  }

  lemma {:induction false} HeaderFirst(line: bytes, rest: bytes)
    requires IsLine(line)
    ensures HeaderLength(line + rest)
            == if line == [LF] || line == CRLF then Some(|line|)
               else match HeaderLength(rest) case None => None case Some(n) => Some(|line| + n)
  {
    LineTaken(line, rest);
  }

  lemma GoesOn(c: Cursor, expecting: bool, boundary: bytes, expecting': bool, c': Cursor)
    requires ScanLine(c, expecting, boundary) == Go(expecting', c')
    ensures ReadFrom(c, expecting, boundary) == ReadFrom(c', expecting', boundary)
  {
  }

  lemma PartFound(c: Cursor, expecting: bool, boundary: bytes, c': Cursor)
    requires ScanLine(c, expecting, boundary) == Stop(Found, c')
    ensures ReadFrom(c, expecting, boundary) == ReadInBody(c', boundary)
  {
  }

  /** A line that fits the buffer is what one `ReadSlice` takes. */
  lemma LineIsTaken(line: bytes, rest: bytes)
    requires IsLine(line) && |line| <= BUFFER_SIZE
    ensures SliceErr(line + rest) == NoError && SliceLength(line + rest) == |line|
    ensures (line + rest)[..|line|] == line && (line + rest)[|line|..] == rest
  {
    LineTaken(line, rest);
  }

  lemma DelimiterLine(boundary: bytes, pad: bytes, nl: bytes, nlBefore: bytes, partsRead: nat)
    requires IsOneLine(boundary) && Fits(pad, boundary) && IsNewline(nl)
    requires nlBefore == nl || (partsRead == 0 && nlBefore == CRLF)
    ensures var line := DASHES + boundary + (pad + nl);
            && IsLine(line) && |line| <= BUFFER_SIZE
            && NewlineAfter(line, nlBefore, partsRead, boundary) == nl
            && IsBoundaryLine(line, nlBefore, partsRead, boundary)
  {
    var line := DASHES + boundary + (pad + nl);
    assert line[|boundary| + 2..] == pad + nl;
    SkipLWSPIs(pad, nl);
    BlanksHaveNoLF(boundary, pad, nl);
  }

  lemma BlanksHaveNoLF(boundary: bytes, pad: bytes, nl: bytes)
    requires IsOneLine(boundary) && AreBlanks(pad) && IsNewline(nl)
    ensures IsLine(DASHES + boundary + (pad + nl)) && IsLine(DASHES + boundary + DASHES + (pad + nl))
  {
  }

  lemma {:induction false} ScanDelimiter(c: Cursor, expecting: bool, boundary: bytes, line: bytes, nl: bytes, s: bytes,
                                        n: nat)
    requires IsLine(line) && |line| <= BUFFER_SIZE && c.rest == line + s && HeaderLength(s) == Some(n)
    requires IsBoundaryLine(line, c.nl, c.partsRead, boundary)
    requires NewlineAfter(line, c.nl, c.partsRead, boundary) == nl
    ensures n <= |s| && ScanLine(c, expecting, boundary) == Stop(Found, Cursor(s[n..], nl, c.partsRead + 1))
  {
    LineIsTaken(line, s);
  }

  /** A delimiter line and a header block behind it start a part. */
  lemma {:induction false} DelimiterStartsPart(c: Cursor, expecting: bool, boundary: bytes, p: RawPart, nl: bytes,
                                             rest: bytes, partsRead: nat)
    requires IsOneLine(boundary) && IsNewline(nl) && Fits(p.pad, boundary)
    requires HeaderLength(p.header) == Some(|p.header|) && partsRead == c.partsRead + 1
    requires c.nl == nl || (c.partsRead == 0 && c.nl == CRLF)
    requires c.rest == DASHES + boundary + (p.pad + (nl + (p.header + rest)))
    ensures ReadFrom(c, expecting, boundary) == ReadInBody(Cursor(rest, nl, partsRead), boundary)
  {
    var line := DASHES + boundary + (p.pad + nl);
    Assoc(p.pad, nl, p.header + rest);
    Assoc(DASHES + boundary, p.pad + nl, p.header + rest);
    DelimiterLine(boundary, p.pad, nl, c.nl, c.partsRead);
    HeaderInFront(p.header, rest);
    ScanDelimiter(c, expecting, boundary, line, nl, p.header + rest, |p.header|);
    PartFound(c, expecting, boundary, Cursor(rest, nl, partsRead));
  }

  predicate IsClosing(end: Closing, boundary: bytes) {
    Fits(end.pad, boundary)
  }

  lemma ClosingLine(boundary: bytes, pad: bytes, nl: bytes, partsRead: nat)
    requires IsOneLine(boundary) && Fits(pad, boundary) && IsNewline(nl)
    ensures var line := DASHES + boundary + DASHES + (pad + nl);
            && IsLine(line) && |line| <= BUFFER_SIZE
            && !IsBoundaryLine(line, nl, partsRead, boundary) && IsFinalBoundary(line, nl, boundary)
  {
    var line := DASHES + boundary + DASHES + (pad + nl);
    assert line[|boundary| + 4..] == pad + nl;
    assert line[|boundary| + 2..] == DASHES + (pad + nl);
    SkipLWSPIs(pad, nl);
    SkipLWSPIs([], DASHES + (pad + nl));
    assert [] + (DASHES + (pad + nl)) == DASHES + (pad + nl);
    BlanksHaveNoLF(boundary, pad, nl);
  }

  /** The closing delimiter ends the message, with or without a newline behind it. */
  lemma ClosingEnds(c: Cursor, expecting: bool, boundary: bytes, end: Closing, nl: bytes)
    requires IsOneLine(boundary) && IsNewline(nl) && IsClosing(end, boundary) && c.nl == nl
    requires c.rest == DASHES + boundary + (DASHES + ClosingText(end, nl))
    ensures ReadFrom(c, expecting, boundary) == ([], NoMoreParts)
  {
    if end.Terminated? {
      var line := DASHES + boundary + DASHES + (end.pad + nl);
      Assoc(end.pad, nl, end.epilogue);
      Assoc(DASHES + boundary, DASHES, end.pad + nl + end.epilogue);
      Assoc(DASHES + boundary + DASHES, end.pad + nl, end.epilogue);
      ClosingLine(boundary, end.pad, nl, c.partsRead);
      LineIsTaken(line, end.epilogue);
    } else {
      assert FreeOf(c.rest, LF);
      UnterminatedIsEnd(c, expecting, boundary);
    }
  }

  // ---------- bodies ----------

  /** An empty part without a line break of its own ends at once. */
  lemma BareEndsAtOnce(nl: bytes, boundary: bytes, parts: seq<RawPart>, end: Closing)
    requires IsOneLine(boundary) && IsNewline(nl) && AreRawParts(parts, nl, boundary) && IsClosing(end, boundary)
    ensures BodyEnd(FromLine(nl, boundary, parts, end), nl, boundary) == 0
  {
    var x, d := FromLine(nl, boundary, parts, end), DASHES + boundary;
    EmptyPartMeans(Window(x), nl, d);
    if parts != [] {
      var pad := parts[0].pad;
      var rest := parts[0].header + (parts[0].body + FromBody(nl, boundary, parts[0], parts[1..], end));
      Assoc(pad, nl, rest);
      Assoc(d, pad + nl, rest);
      Assoc(d, pad, nl);
      FrontInWindow(d + pad + nl, x);
    } else if end.Terminated? {
      var pad := end.pad;
      Assoc(pad, nl, end.epilogue);
      Assoc(d, DASHES, pad + nl + end.epilogue);
      Assoc(d + DASHES, pad + nl, end.epilogue);
      Assoc(d + DASHES, pad, nl);
      FrontInWindow(d + DASHES + pad + nl, x);
    } else {
      Assoc(d, DASHES, end.pad);
      assert d + DASHES + end.pad == Window(x);
    }
  }

  lemma FrontInWindow(p: bytes, x: bytes)
    requires p <= x && |p| <= BUFFER_SIZE
    ensures p <= Window(x)
  {
  }

  lemma NoLineCrosses(body: bytes, nl: bytes, boundary: bytes, x: bytes)
    requires IsOneLine(boundary) && IsNewline(nl) && AvoidsLines(body, nl, boundary) && body + nl <= x
    ensures !IsEmptyPart(Window(x), nl, DASHES + boundary)
    ensures forall k :: 0 <= k < |body| ==> !VisibleDelimiter(x[k..], nl + DASHES + boundary)
  {
    var d, n := DASHES + boundary, nl + DASHES + boundary;
    assert body + [nl[0]] <= body + nl <= x;
    assert x[0..] == x && body[0..] == body;
    if d <= x {
      CannotCross(d, body, x, 0, nl[0]);
    }
    assert Window(x) <= x && d <= d + DASHES;
    forall k | 0 <= k < |body|
      ensures !VisibleDelimiter(x[k..], n)
    {
      if n <= x[k..] {
        CannotCross(n, body, x, k, nl[0]);
      }
      assert Window(x[k..]) <= x[k..];
    }
  }

  /** What follows a body shows its delimiter. */
  lemma DelimiterShows(nl: bytes, boundary: bytes, parts: seq<RawPart>, end: Closing)
    requires IsOneLine(boundary) && IsNewline(nl) && AreRawParts(parts, nl, boundary) && IsClosing(end, boundary)
    ensures VisibleDelimiter(nl + FromLine(nl, boundary, parts, end), nl + DASHES + boundary)
  {
    var n := nl + DASHES + boundary;
    var line := FromLine(nl, boundary, parts, end);
    var tail := line[|boundary| + 2..];
    assert line == DASHES + boundary + tail;
    assert nl + line == n + tail;
    if parts != [] {
      var pad := parts[0].pad;
      var rest := parts[0].header + (parts[0].body + FromBody(nl, boundary, parts[0], parts[1..], end));
      assert tail == pad + (nl + rest);
      SkipLWSPIs(pad, nl + rest);
      ShownIn(nl + line, n, tail, |pad| + |nl|);
    } else {
      assert tail == DASHES + ClosingText(end, nl);
      ShownIn(nl + line, n, tail, 2);
    }
  }

  lemma ShownIn(s: bytes, n: bytes, tail: bytes, k: nat)
    requires s == n + tail && DelimiterTail(tail) && |n| + k <= BUFFER_SIZE
    requires k >= if StartsWithDashes(tail) then 2
                  else |tail| - |SkipLWSP(tail)| + (if StartsWithLF(SkipLWSP(tail)) then 1 else 2)
    ensures VisibleDelimiter(s, n)
  {
    assert s[|n|..] == tail;
    VisibleIffFits(s, n);
  }

  lemma {:induction false} BodyEndsAtDelimiter(body: bytes, nl: bytes, boundary: bytes, parts: seq<RawPart>,
                                              end: Closing)
    requires IsOneLine(boundary) && IsNewline(nl) && AreRawParts(parts, nl, boundary) && IsClosing(end, boundary)
    requires AvoidsLines(body, nl, boundary)
    ensures BodyEnd(body + (nl + FromLine(nl, boundary, parts, end)), nl, boundary) == |body|
  {
    var t := nl + FromLine(nl, boundary, parts, end);
    var x := body + t;
    Assoc(body, nl, FromLine(nl, boundary, parts, end));
    NoLineCrosses(body, nl, boundary, x);
    DelimiterShows(nl, boundary, parts, end);
    assert x[|body|..] == t && nl + (DASHES + boundary) == nl + DASHES + boundary;
  }

  // ---------- whole messages ----------

  lemma BodyIsRead(x: bytes, body: bytes, y: bytes, nl: bytes, partsRead: nat, boundary: bytes)
    requires x == body + y && BodyEnd(x, nl, boundary) == |body|
    ensures ReadInBody(Cursor(x, nl, partsRead), boundary)
            == InFront(body, ReadFrom(Cursor(y, nl, partsRead), false, boundary))
  {
    assert x[..|body|] == body && x[|body|..] == y;
    WholeReading(Cursor(y, nl, partsRead), boundary);
  }

  lemma NewlineGoes(nl: bytes, x: bytes, partsRead: nat, boundary: bytes)
    requires IsNewline(nl) && partsRead > 0
    ensures ReadFrom(Cursor(nl + x, nl, partsRead), false, boundary)
            == ReadFrom(Cursor(x, nl, partsRead), true, boundary)
  {
    var c := Cursor(nl + x, nl, partsRead);
    LineIsTaken(nl, x);
    assert nl[0] != (DASHES + boundary)[0] && nl[0] != (DASHES + boundary + DASHES)[0];
    GoesOn(c, false, boundary, true, Cursor(x, nl, partsRead));
  }

  predicate IsMessage(nl: bytes, boundary: bytes, parts: seq<RawPart>, end: Closing) {
    IsOneLine(boundary) && IsNewline(nl) && AreRawParts(parts, nl, boundary) && IsClosing(end, boundary)
  }

  lemma {:induction false} LineIsRead(c: Cursor, expecting: bool, nl: bytes, boundary: bytes, parts: seq<RawPart>,
                                     end: Closing)
    requires IsMessage(nl, boundary, parts, end) && c.rest == FromLine(nl, boundary, parts, end)
    requires c.nl == nl || (c.partsRead == 0 && c.nl == CRLF && parts != [])
    ensures ReadFrom(c, expecting, boundary) == (RawBodies(parts), NoMoreParts)
    decreases |parts|, 0
  {
    if parts == [] {
      ClosingEnds(c, expecting, boundary, end, nl);
    } else {
      var p, rest, partsRead := parts[0], parts[1..], c.partsRead + 1;
      var x := p.body + FromBody(nl, boundary, p, rest, end);
      DelimiterStartsPart(c, expecting, boundary, p, nl, x, partsRead);
      assert IsMessage(nl, boundary, rest, end);
      BodyThenRest(nl, boundary, p, rest, end, x, partsRead);
    }
  }

  lemma {:induction false} BodyThenRest(nl: bytes, boundary: bytes, p: RawPart, parts: seq<RawPart>, end: Closing,
                                       x: bytes, partsRead: nat)
    requires IsMessage(nl, boundary, parts, end) && IsRawPart(p, nl, boundary) && partsRead > 0
    requires x == p.body + FromBody(nl, boundary, p, parts, end)
    ensures ReadInBody(Cursor(x, nl, partsRead), boundary) == ([p.body] + RawBodies(parts), NoMoreParts)
    decreases |parts|, 1
  {
    var y := FromLine(nl, boundary, parts, end);
    if p.bare {
      assert [] + y == y;
      BareEndsAtOnce(nl, boundary, parts, end);
      BodyIsRead(y, [], y, nl, partsRead, boundary);
      LineIsRead(Cursor(y, nl, partsRead), false, nl, boundary, parts, end);
    } else {
      var z := nl + y;
      BodyEndsAtDelimiter(p.body, nl, boundary, parts, end);
      BodyIsRead(x, p.body, z, nl, partsRead, boundary);
      NewlineGoes(nl, y, partsRead, boundary);
      LineIsRead(Cursor(y, nl, partsRead), true, nl, boundary, parts, end);
    }
  }

  /** Lines of a preamble: they fit the buffer and do not start with the boundary. */
  predicate IsPreamble(lines: seq<bytes>, boundary: bytes) {
    forall i :: 0 <= i < |lines| ==>
                  IsLine(lines[i]) && |lines[i]| <= BUFFER_SIZE && !(DASHES + boundary <= lines[i])
  }

  lemma {:induction false} PreambleIsSkipped(lines: seq<bytes>, x: bytes, boundary: bytes)
    requires IsPreamble(lines, boundary)
    ensures ReadFrom(Cursor(Flatten(lines) + x, CRLF, 0), false, boundary)
            == ReadFrom(Cursor(x, CRLF, 0), false, boundary)
  {
    if lines == [] {
      assert [] + x == x;
    } else {
      var line, rest := lines[0], Flatten(lines[1..]) + x;
      Assoc(line, Flatten(lines[1..]), x);
      LineIsTaken(line, rest);
      assert DASHES + boundary <= DASHES + boundary + DASHES;
      GoesOn(Cursor(line + rest, CRLF, 0), false, boundary, false, Cursor(rest, CRLF, 0));
      PreambleIsSkipped(lines[1..], x, boundary);
    }
  }

  /** A message from any such writer, behind any preamble, is read as exactly its bodies and then the
      end. */
  lemma ForeignMessageIsRead(lines: seq<bytes>, nl: bytes, boundary: bytes, parts: seq<RawPart>, end: Closing)
    requires IsMessage(nl, boundary, parts, end) && IsPreamble(lines, boundary) && parts != []
    ensures ReadAll(Cursor(Flatten(lines) + FromLine(nl, boundary, parts, end), CRLF, 0), boundary)
            == (RawBodies(parts), NoMoreParts)
  {
    var x := FromLine(nl, boundary, parts, end);
    WholeReading(Cursor(Flatten(lines) + x, CRLF, 0), boundary);
    PreambleIsSkipped(lines, x, boundary);
    LineIsRead(Cursor(x, CRLF, 0), false, nl, boundary, parts, end);
  }

  // ---------- messages that are refused ----------

  /** What stands behind the two dashes makes a closing line a wrong one. */
  lemma JunkBehindClosingFails(c: Cursor, boundary: bytes, junk: bytes, rest: bytes)
    requires IsOneLine(boundary) && IsNewline(c.nl) && c.partsRead > 0
    requires IsLine(junk) && |boundary| + |junk| + 4 <= BUFFER_SIZE && SkipLWSP(junk) != c.nl
    requires c.rest == c.nl + (DASHES + boundary + DASHES + junk + rest)
    ensures Scan(c, false, boundary).0 == Failure(ExpectingNewPart)
  {
    var line := DASHES + boundary + DASHES + junk;
    var c' := Cursor(line + rest, c.nl, c.partsRead);
    LineIsTaken(c.nl, line + rest);
    assert c.nl[0] != (DASHES + boundary)[0] && c.nl[0] != (DASHES + boundary + DASHES)[0];
    assert ScanLine(c, false, boundary) == Go(true, c');
    JunkIsUnexpected(c', boundary, junk, rest);
  }

  lemma JunkIsUnexpected(c: Cursor, boundary: bytes, junk: bytes, rest: bytes)
    requires IsOneLine(boundary) && IsNewline(c.nl) && c.partsRead > 0
    requires IsLine(junk) && |boundary| + |junk| + 4 <= BUFFER_SIZE && SkipLWSP(junk) != c.nl
    requires c.rest == DASHES + boundary + DASHES + junk + rest
    ensures Scan(c, true, boundary).0 == Failure(ExpectingNewPart)
  {
    var line := DASHES + boundary + DASHES + junk;
    JunkLine(boundary, junk);
    LineIsTaken(line, rest);
    JunkIsNoBoundary(boundary, junk, c.nl, c.partsRead);
  }

  lemma {:induction false} JunkIsNoBoundary(boundary: bytes, junk: bytes, nl: bytes, partsRead: nat)
    requires IsOneLine(boundary) && IsNewline(nl) && partsRead > 0 && SkipLWSP(junk) != [] && SkipLWSP(junk) != nl
    ensures var line := DASHES + boundary + DASHES + junk;
            !IsBoundaryLine(line, nl, partsRead, boundary) && !IsFinalBoundary(line, nl, boundary)
  {
    var line := DASHES + boundary + DASHES + junk;
    assert line[|boundary| + 4..] == junk;
    assert line[|boundary| + 2..] == DASHES + junk;
    DashesStay(junk);
  }

  lemma DashesStay(junk: bytes)
    ensures SkipLWSP(DASHES + junk) == DASHES + junk
  {
    SkipLWSPIs([], DASHES + junk);
    assert [] + (DASHES + junk) == DASHES + junk;
  }

  /** Behind the first part, a line that is neither a newline nor a boundary line is an error. */
  lemma OrdinaryLineFails(c: Cursor, expecting: bool, boundary: bytes, line: bytes, rest: bytes)
    requires c.rest == line + rest && IsLine(line) && |line| <= BUFFER_SIZE && c.partsRead > 0
    requires !(DASHES + boundary <= line) && (expecting || line != c.nl)
    ensures Scan(c, expecting, boundary).0 == Failure(if expecting then ExpectingNewPart else UnexpectedLine)
  {
    LineIsTaken(line, rest);
    assert DASHES + boundary <= DASHES + boundary + DASHES;
  }

  lemma JunkLine(boundary: bytes, junk: bytes)
    requires IsOneLine(boundary) && IsLine(junk)
    ensures IsLine(DASHES + boundary + DASHES + junk) && SkipLWSP(junk) != []
  {
    SkipLWSPDrops(junk);
    assert !IsBlank(junk[|junk| - 1]);
  }

  /** A line that does not fit the buffer ends the reading with an error, even in a preamble. */
  lemma LongLineFails(c: Cursor, expecting: bool, boundary: bytes)
    requires |c.rest| >= BUFFER_SIZE && forall k :: 0 <= k < BUFFER_SIZE ==> c.rest[k] != LF
    ensures Scan(c, expecting, boundary).0 == Failure(LineTooLong)
  {
  }
}
