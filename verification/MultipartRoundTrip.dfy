/** Reading back what the multipart writer wrote. */
module MultipartRoundTrip {
  import opened Bytes
  import opened Bufio
  import opened Delimiter
  import opened PartScan
  import opened PartIteration
  import opened MultipartWriter

  // ---------- which bodies survive ----------

  /** No line of the body reads as a delimiter line: neither at its very start, where the newline
      in front may be missing, nor after a CRLF of its own. */
  predicate HoldsNoDelimiter(body: bytes, boundary: bytes) {
    var s := body + CRLF;
    && (body == [] || !IsEmptyPart(Window(s), CRLF, DASHES + boundary))
    && forall k :: 0 <= k < |body| ==> !VisibleDelimiter(s[k..], NlDashBoundary(boundary))
  }

  /** The plain rule for authors: the boundary string never appears at the start of a line. */
  predicate AvoidsBoundary(body: bytes, boundary: bytes) {
    && !(DASHES + boundary <= body)
    && forall k :: 0 <= k < |body| ==> !(NlDashBoundary(boundary) <= body[k..])
  }

  predicate FreeOf(s: bytes, b: byte) {
    forall k :: 0 <= k < |s| ==> s[k] != b
  }

  /** The boundaries that keep to one line; `SetBoundary` accepts no others. */
  predicate IsOneLine(boundary: bytes) {
    |boundary| <= 70 && FreeOf(boundary, CR) && FreeOf(boundary, LF)
  }

  lemma AcceptedIsOneLine(boundary: bytes)
    requires IsBoundary(boundary)
    ensures IsOneLine(boundary)
  {
  }

  /** A pattern that could only start with the byte behind a text lies before that byte. */
  lemma CannotCross(pat: bytes, body: bytes, x: bytes, k: nat, b: byte)
    requires body + [b] <= x && k <= |body| && pat <= x[k..]
    requires forall i :: 0 < i < |pat| ==> pat[i] != b
    requires pat != [] && (k == |body| ==> pat[0] != b)
    ensures k + |pat| <= |body| && pat <= body[k..]
  {
    assert x[|body|] == (body + [b])[|body|];
    PrefixAt(pat, x, k, if k + |pat| > |body| then |body| - k else 0);
    forall j | 0 <= j < |pat|
      ensures j < |body| - k ==> pat[j] == body[k..][j]
    {
      PrefixAt(pat, x, k, j);
      assert j < |body| - k ==> x[k + j] == (body + [b])[k + j];
    }
  }

  lemma PrefixAt(pat: bytes, x: bytes, k: nat, i: nat)
    requires k <= |x| && pat <= x[k..] && i < |pat|
    ensures pat[i] == x[k + i]
  {
    assert x[k..][i] == x[k + i];
  }

  /** The text that follows a body: its delimiter, then the next part or the end. */
  predicate Follows(t: bytes) {
    CRLF <= t || DASHES <= t
  }

  lemma DelimiterFollows(boundary: bytes, t: bytes)
    requires IsOneLine(boundary) && Follows(t)
    ensures VisibleDelimiter(NlDashBoundary(boundary) + t, NlDashBoundary(boundary))
  {
    var n := NlDashBoundary(boundary);
    assert (n + t)[|n|..] == t;
    VisibleIffFits(n + t, n);
  }

  /** Inside a body, what comes after the first CRLF behind it does not matter. */
  lemma VisibleInside(body: bytes, boundary: bytes, x: bytes, k: nat)
    requires IsOneLine(boundary) && body + CRLF <= x && k < |body|
    ensures VisibleDelimiter(x[k..], NlDashBoundary(boundary))
            <==> VisibleDelimiter((body + CRLF)[k..], NlDashBoundary(boundary))
  {
    var n := NlDashBoundary(boundary);
    var y := (body + CRLF)[k..];
    assert y <= x[k..];
    if VisibleDelimiter(y, n) {
      TrueDelimiterMonotone(Window(y), Window(x[k..]), n);
    }
    if VisibleDelimiter(x[k..], n) {
      TrueDelimiterMonotone(Window(x[k..]), x[k..], n);
      assert body + [CR] <= body + CRLF;
      CannotCross(n, body, x, k, CR);
      assert x[|body|] == (body + CRLF)[|body|] && x[|body| + 1] == (body + CRLF)[|body| + 1];
      DelimiterBeforeCRLF(x[k..], n, |body| - k);
      VisibleIffFits(x[k..], n);
      PrefixShowsDelimiter(Window(y), x[k..], n);
    }
  }

  lemma DelimiterBeforeCRLF(s: bytes, nlDashBoundary: bytes, n: nat)
    requires TrueDelimiter(s, nlDashBoundary)
    requires |nlDashBoundary| <= n && n + 2 <= |s| && s[n] == CR && s[n + 1] == LF
    ensures DelimiterLength(s, nlDashBoundary) <= n + 2
  {
    var r := s[|nlDashBoundary|..];
    assert !IsBlank(r[n - |nlDashBoundary|]);
    SkipLWSPDrops(r);
  }

  lemma EmptyPartInside(body: bytes, boundary: bytes, x: bytes)
    requires IsOneLine(boundary) && body + CRLF <= x && body != []
    ensures IsEmptyPart(Window(x), CRLF, DASHES + boundary)
            <==> IsEmptyPart(Window(body + CRLF), CRLF, DASHES + boundary)
  {
    var w, v := Window(body + CRLF), Window(x);
    if |body| + 2 < BUFFER_SIZE {
      assert w == body + CRLF <= v;
      EmptyPartUpTo(body, DASHES + boundary, v);
    } else {
      assert w == v;
    }
  }

  lemma EmptyPartUpTo(body: bytes, dashBoundary: bytes, v: bytes)
    requires body + CRLF <= v && dashBoundary != [] && FreeOf(dashBoundary, CR)
    ensures IsEmptyPart(v, CRLF, dashBoundary) <==> IsEmptyPart(body + CRLF, CRLF, dashBoundary)
  {
    var w := body + CRLF;
    SamePrefixes(dashBoundary, body, v);
    SamePrefixes(dashBoundary + DASHES, body, v);
    if dashBoundary + DASHES <= w {
      SameNewline(body[|dashBoundary| + 2..], w[|dashBoundary| + 2..], v[|dashBoundary| + 2..]);
    } else if dashBoundary <= w {
      SameNewline(body[|dashBoundary|..], w[|dashBoundary|..], v[|dashBoundary|..]);
    }
  }

  lemma SamePrefixes(pat: bytes, body: bytes, v: bytes)
    requires pat != [] && FreeOf(pat, CR) && body + CRLF <= v
    ensures pat <= v <==> pat <= body + CRLF
    ensures pat <= v ==> |pat| <= |body|
  {
    if pat <= v {
      assert v[0..] == v;
      assert body + [CR] <= body + CRLF;
      CannotCross(pat, body, v, 0, CR);
    }
  }

  lemma SameNewline(u: bytes, w: bytes, v: bytes)
    requires w == u + CRLF && w <= v
    ensures SkipLWSP(w) != [] && SkipLWSP(v) != []
    ensures CRLF <= SkipLWSP(w) <==> CRLF <= SkipLWSP(v)
  {
    SkipLWSPOfPrefix(w, v);
    SkipLWSPDrops(w);
    assert !IsBlank(w[|u|]);
    assert SkipLWSP(w) != [] && |SkipLWSP(w)| >= 2;
  }

  /** A body read back from a message ends where it was written to end if and only if no line of
      it reads as a delimiter line. */
  lemma BodyReadsBack(body: bytes, boundary: bytes, t: bytes)
    requires IsOneLine(boundary) && Follows(t)
    ensures BodyEnd(body + (NlDashBoundary(boundary) + t), CRLF, boundary) <= |body|
    ensures BodyEnd(body + (NlDashBoundary(boundary) + t), CRLF, boundary) == |body|
            <==> HoldsNoDelimiter(body, boundary)
  {
    var n := NlDashBoundary(boundary);
    var x := body + (n + t);
    assert x[|body|..] == n + t;
    assert CRLF + DASHES + boundary == n;
    DelimiterFollows(boundary, t);
    assert body + CRLF <= x;
    forall k | 0 <= k < |body|
      ensures VisibleDelimiter(x[k..], n) <==> VisibleDelimiter((body + CRLF)[k..], n)
    {
      VisibleInside(body, boundary, x, k);
    }
    if body != [] {
      EmptyPartInside(body, boundary, x);
    } else {
      assert Window(x)[0] == CR;
    }
  }

  lemma AvoidingIsEnough(body: bytes, boundary: bytes)
    requires IsOneLine(boundary) && AvoidsBoundary(body, boundary)
    ensures HoldsNoDelimiter(body, boundary)
  {
    var s := body + CRLF;
    NoBoundaryInWindow(body, DASHES + boundary);
    forall k | 0 <= k < |body|
      ensures !VisibleDelimiter(s[k..], NlDashBoundary(boundary))
    {
      if VisibleDelimiter(s[k..], NlDashBoundary(boundary)) {
        DelimiterInside(body, boundary, k);
      }
    }
  }

  lemma NoBoundaryInWindow(body: bytes, dashBoundary: bytes)
    requires dashBoundary != [] && FreeOf(dashBoundary, CR) && !(dashBoundary <= body)
    ensures !IsEmptyPart(Window(body + CRLF), CRLF, dashBoundary)
  {
    var s := body + CRLF;
    var w := Window(s);
    SamePrefixes(dashBoundary, body, s);
    assert dashBoundary <= w ==> dashBoundary <= s;
    assert dashBoundary + DASHES <= w ==> dashBoundary <= dashBoundary + DASHES <= s;
  }

  lemma DelimiterInside(body: bytes, boundary: bytes, k: nat)
    requires IsOneLine(boundary) && k < |body|
    requires VisibleDelimiter((body + CRLF)[k..], NlDashBoundary(boundary))
    ensures NlDashBoundary(boundary) <= body[k..]
  {
    var s, n := body + CRLF, NlDashBoundary(boundary);
    assert n <= Window(s[k..]) <= s[k..];
    assert body + [CR] <= s;
    CannotCross(n, body, s, k, CR);
  }

  // ---------- the lines between two bodies ----------

  predicate CleanFields(header: seq<Field>) {
    forall f :: f in header ==> FreeOf(f.key, LF) && FreeOf(f.value, LF)
  }

  /** One line, up to its only LF. */
  predicate IsLine(line: bytes) {
    line != [] && line[|line| - 1] == LF && forall k :: 0 <= k < |line| - 1 ==> line[k] != LF
  }

  lemma LineTaken(line: bytes, s: bytes)
    requires IsLine(line)
    ensures IndexByte(line + s, LF) == |line| - 1
    ensures (line + s)[..|line|] == line && (line + s)[|line|..] == s
  {
    IndexByteIs(line + s, LF, |line| - 1);
  }

  lemma HeaderLine(line: bytes, s: bytes)
    requires IsLine(line) && line != [LF] && line != CRLF
    ensures HeaderLength(line + s)
            == (match HeaderLength(s) case None => None case Some(n) => Some(|line| + n))
  {
    LineTaken(line, s);
  }

  lemma FieldLineIsLine(f: Field)
    requires FreeOf(f.key, LF) && FreeOf(f.value, LF)
    ensures IsLine(FieldLine(f)) && |FieldLine(f)| > 2
  {
  }

  lemma {:induction false} HeaderReadsBack(header: seq<Field>, s: bytes)
    requires CleanFields(header)
    ensures HeaderLength(HeaderLines(header) + CRLF + s) == Some(|HeaderLines(header)| + 2)
  {
    if header == [] {
      assert HeaderLines(header) + CRLF + s == CRLF + s;
      LineTaken(CRLF, s);
    } else {
      var line := FieldLine(header[0]);
      var tail := HeaderLines(header[1..]) + CRLF + s;
      FieldLineIsLine(header[0]);
      HeaderReadsBack(header[1..], s);
      HeaderLine(line, tail);
      HeaderSplits(header, s);
    }
  }

  lemma HeaderSplits(header: seq<Field>, s: bytes)
    requires header != []
    ensures HeaderLines(header) + CRLF + s == FieldLine(header[0]) + (HeaderLines(header[1..]) + CRLF + s)
  {
    Assoc(FieldLine(header[0]), HeaderLines(header[1..]), CRLF);
    Assoc(FieldLine(header[0]), HeaderLines(header[1..]) + CRLF, s);
  }

  lemma BlankLineGoes(c: Cursor, boundary: bytes)
    requires CRLF <= c.rest && c.nl == CRLF
    ensures ScanLine(c, false, boundary) == Go(c.partsRead > 0, c.(rest := c.rest[2..]))
  {
    assert c.rest == CRLF + c.rest[2..];
    LineTaken(CRLF, c.rest[2..]);
    assert CRLF[0] != (DASHES + boundary)[0] && CRLF[0] != (DASHES + boundary + DASHES)[0];
  }

  lemma BoundaryLine(boundary: bytes, partsRead: nat)
    requires IsOneLine(boundary)
    ensures var line := DASHES + boundary + CRLF;
            && IsLine(line) && |line| <= BUFFER_SIZE
            && NewlineAfter(line, CRLF, partsRead, boundary) == CRLF
            && IsBoundaryLine(line, CRLF, partsRead, boundary)
  {
    var line := DASHES + boundary + CRLF;
    assert line[|boundary| + 2..] == CRLF;
    assert SkipLWSP(CRLF) == CRLF;
  }

  function FinalText(boundary: bytes): (line: bytes)
    ensures |line| == |boundary| + 6
    ensures DASHES + boundary + DASHES <= line && line[|boundary| + 4..] == CRLF
    ensures DASHES + boundary <= line && line[|boundary| + 2..] == DASHES + CRLF
  {
    DASHES + boundary + DASHES + CRLF
  }

  lemma FinalLine(boundary: bytes, partsRead: nat)
    requires IsOneLine(boundary)
    ensures IsLine(FinalText(boundary))
    ensures !IsBoundaryLine(FinalText(boundary), CRLF, partsRead, boundary)
    ensures IsFinalBoundary(FinalText(boundary), CRLF, boundary)
  {
    var line := FinalText(boundary);
    assert SkipLWSP(DASHES + CRLF) == DASHES + CRLF;
    assert SkipLWSP(CRLF) == CRLF;
    assert forall k :: 0 <= k < |boundary| ==> line[k + 2] == boundary[k];
  }

  lemma BoundaryLineStops(c: Cursor, expecting: bool, boundary: bytes, h: bytes, body: bytes)
    requires IsOneLine(boundary) && c.nl == CRLF
    requires c.rest == DASHES + boundary + CRLF + (h + body) && HeaderLength(h + body) == Some(|h|)
    ensures ScanLine(c, expecting, boundary) == Stop(Found, Cursor(body, CRLF, c.partsRead + 1))
  {
    var line := DASHES + boundary + CRLF;
    BoundaryLine(boundary, c.partsRead);
    LineTaken(line, h + body);
    assert (h + body)[|h|..] == body;
  }

  lemma FinalLineStops(c: Cursor, expecting: bool, boundary: bytes)
    requires IsOneLine(boundary) && c.nl == CRLF
    requires c.rest == FinalText(boundary)
    ensures ScanLine(c, expecting, boundary) == Stop(NoMoreParts, c.(rest := []))
  {
    var line := c.rest;
    FinalLine(boundary, c.partsRead);
    LineTaken(line, []);
    assert line + [] == line;
    assert SliceLength(line) == |line| && SliceErr(line) == NoError;
  }

  // ---------- whole messages ----------

  predicate CleanParts(parts: seq<PartText>) {
    forall i :: 0 <= i < |parts| ==> CleanFields(parts[i].header)
  }

  function Bodies(parts: seq<PartText>): seq<bytes> {
    if parts == [] then [] else [parts[0].body] + Bodies(parts[1..])
  }

  predicate NoneHoldsDelimiter(parts: seq<PartText>, boundary: bytes) {
    forall i :: 0 <= i < |parts| ==> HoldsNoDelimiter(parts[i].body, boundary)
  }

  lemma NoneHoldsDelimiterStep(parts: seq<PartText>, boundary: bytes)
    requires parts != []
    ensures NoneHoldsDelimiter(parts, boundary)
            <==> HoldsNoDelimiter(parts[0].body, boundary) && NoneHoldsDelimiter(parts[1..], boundary)
  {
    assert forall i :: 0 < i < |parts| ==> parts[i] == parts[1..][i - 1];
  }

  lemma TrailerWithoutNewline(boundary: bytes)
    ensures CRLF <= Trailer(boundary) && Trailer(boundary)[2..] == FinalText(boundary)
  {
  }

  lemma SectionsWithoutNewline(parts: seq<PartText>, boundary: bytes)
    requires parts != []
    ensures var h := HeaderLines(parts[0].header) + CRLF;
            var tail := Sections(boundary, parts[1..]) + Trailer(boundary);
            var s := Sections(boundary, parts) + Trailer(boundary);
            CRLF <= s && s[2..] == DASHES + boundary + CRLF + (h + (parts[0].body + tail))
  {
    var p, n := parts[0], NlDashBoundary(boundary);
    var h := HeaderLines(p.header) + CRLF;
    var more := Sections(boundary, parts[1..]);
    assert AfterBoundary(p) == CRLF + (h + p.body);
    Assoc(n + AfterBoundary(p), more, Trailer(boundary));
    var tail := more + Trailer(boundary);
    Assoc(n, AfterBoundary(p), tail);
    Assoc(CRLF, h + p.body, tail);
    Assoc(h, p.body, tail);
    var after := h + (p.body + tail);
    assert n + (CRLF + after) == CRLF + (DASHES + boundary + CRLF + after);
  }

  /** What the reader finds behind a body: the remaining parts. */
  lemma ScanAtDelimiter(parts: seq<PartText>, boundary: bytes, partsRead: nat)
    requires IsOneLine(boundary) && partsRead > 0 && (parts != [] ==> CleanFields(parts[0].header))
    ensures var r := Scan(Cursor(Sections(boundary, parts) + Trailer(boundary), CRLF, partsRead), false, boundary);
            if parts == [] then r.0 == NoMoreParts
            else
              var rest := parts[0].body + (Sections(boundary, parts[1..]) + Trailer(boundary));
              r == (Found, Cursor(rest, CRLF, partsRead + 1))
  {
    var c := Cursor(Sections(boundary, parts) + Trailer(boundary), CRLF, partsRead);
    if parts == [] {
      assert c.rest == Trailer(boundary);
      TrailerWithoutNewline(boundary);
      BlankLineGoes(c, boundary);
      FinalLineStops(c.(rest := c.rest[2..]), true, boundary);
    } else {
      SectionsWithoutNewline(parts, boundary);
      BlankLineGoes(c, boundary);
      ScanFirstBoundary(c.(rest := c.rest[2..]), true, parts, boundary);
    }
  }

  lemma {:induction false} ScanFirstBoundary(c: Cursor, expecting: bool, parts: seq<PartText>, boundary: bytes)
    requires IsOneLine(boundary) && parts != [] && CleanFields(parts[0].header) && c.nl == CRLF
    requires |c.rest| + 2 == |Sections(boundary, parts) + Trailer(boundary)|
    requires c.rest == (Sections(boundary, parts) + Trailer(boundary))[2..]
    ensures var rest := parts[0].body + (Sections(boundary, parts[1..]) + Trailer(boundary));
            Scan(c, expecting, boundary) == (Found, Cursor(rest, CRLF, c.partsRead + 1))
  {
    var p := parts[0];
    var x := p.body + (Sections(boundary, parts[1..]) + Trailer(boundary));
    SectionsWithoutNewline(parts, boundary);
    HeaderReadsBack(p.header, x);
    BoundaryLineStops(c, expecting, boundary, HeaderLines(p.header) + CRLF, x);
  }

  lemma TailFollows(parts: seq<PartText>, boundary: bytes) returns (t: bytes)
    ensures Sections(boundary, parts) + Trailer(boundary) == NlDashBoundary(boundary) + t && Follows(t)
  {
    var n := NlDashBoundary(boundary);
    if parts == [] {
      t := DASHES + CRLF;
    } else {
      t := AfterBoundary(parts[0]) + (Sections(boundary, parts[1..]) + Trailer(boundary));
    }
    assert Sections(boundary, parts) + Trailer(boundary) == n + t;
  }

  /** Draining a part that was written with body `parts[0].body`, and reading on. */
  lemma {:induction false} ReadFromBody(parts: seq<PartText>, boundary: bytes, partsRead: nat)
    requires IsOneLine(boundary) && parts != [] && CleanParts(parts) && partsRead > 0
    ensures var x := parts[0].body + (Sections(boundary, parts[1..]) + Trailer(boundary));
            var n := BodyEnd(x, CRLF, boundary);
            var r := ReadAll(Cursor(x[n..], CRLF, partsRead), boundary);
            [x[..n]] + r.0 == Bodies(parts) && r.1 == NoMoreParts <==> NoneHoldsDelimiter(parts, boundary)
    decreases |parts|, 0
  {
    var body, rest := parts[0].body, parts[1..];
    var tail := Sections(boundary, rest) + Trailer(boundary);
    var t := TailFollows(rest, boundary);
    var x := body + tail;
    BodyReadsBack(body, boundary, t);
    NoneHoldsDelimiterStep(parts, boundary);
    var n := BodyEnd(x, CRLF, boundary);
    var r := ReadAll(Cursor(x[n..], CRLF, partsRead), boundary);
    if n < |body| {
      assert ([x[..n]] + r.0)[0] != Bodies(parts)[0];
    } else {
      assert x[..n] == body && x[n..] == tail;
      ReadFromDelimiter(rest, boundary, partsRead);
      SameTail(body, r.0, Bodies(rest));
    }
  }

  lemma SameTail(x: bytes, a: seq<bytes>, b: seq<bytes>)
    ensures [x] + a == [x] + b <==> a == b
  {
    assert ([x] + a)[1..] == a && ([x] + b)[1..] == b;
  }

  lemma {:induction false} ReadFromDelimiter(parts: seq<PartText>, boundary: bytes, partsRead: nat)
    requires IsOneLine(boundary) && CleanParts(parts) && partsRead > 0
    ensures var r := ReadAll(Cursor(Sections(boundary, parts) + Trailer(boundary), CRLF, partsRead), boundary);
            r == (Bodies(parts), NoMoreParts) <==> NoneHoldsDelimiter(parts, boundary)
    decreases |parts|, 1
  {
    ScanAtDelimiter(parts, boundary, partsRead);
    if parts != [] {
      ReadFromBody(parts, boundary, partsRead + 1);
    }
  }

  lemma EmptyMessage(boundary: bytes)
    requires IsOneLine(boundary)
    ensures ReadAll(Cursor(MessageText(boundary, []), CRLF, 0), boundary) == ([], NoMoreParts)
  {
    var c := Cursor(MessageText(boundary, []), CRLF, 0);
    assert OpenText(boundary, []) == [];
    assert c.rest == Trailer(boundary);
    TrailerWithoutNewline(boundary);
    BlankLineGoes(c, boundary);
    var c' := c.(rest := c.rest[2..]);
    FinalLineStops(c', false, boundary);
    assert Scan(c', false, boundary).0 == NoMoreParts;
    assert Scan(c, false, boundary) == Scan(c', false, boundary);
  }

  /** Whatever list of parts was written under an accepted boundary, reading the message back gives
      exactly those bodies and then the end, if and only if no body holds a delimiter line. */
  lemma MessageReadsBack(parts: seq<PartText>, boundary: bytes)
    requires IsBoundary(boundary) && CleanParts(parts)
    ensures ReadAll(Cursor(MessageText(boundary, parts), CRLF, 0), boundary) == (Bodies(parts), NoMoreParts)
            <==> NoneHoldsDelimiter(parts, boundary)
  {
    AcceptedIsOneLine(boundary);
    if parts == [] {
      EmptyMessage(boundary);
    } else {
      DropConcat(Sections(boundary, parts), Trailer(boundary), 2);
      ScanFirstBoundary(Cursor(MessageText(boundary, parts), CRLF, 0), false, parts, boundary);
      ReadFromBody(parts, boundary, 1);
    }
  }
}
