/** multipart/writer.go: the generator of multipart messages, over a sink that never fails. */
module MultipartWriter {
  import opened Bytes
  import opened Delimiter

  /** One header line of a part, in the order the header map is iterated. */
  datatype Field = Field(key: bytes, value: bytes)

  datatype PartText = PartText(header: seq<Field>, body: bytes)

  const MAX_BOUNDARY: nat := 69
  const COLON: byte := 58

  /** The characters `SetBoundary` accepts. */
  predicate IsBoundaryChar(b: byte) {
    || 65 <= b <= 90 || 97 <= b <= 122 || 48 <= b <= 57
    || b == 39 || b == 40 || b == 41 || b == 43 || b == UNDERSCORE || b == 44
    || b == DASH || b == 46 || b == 47 || b == COLON || b == EQUALS || b == QUESTION
  }

  const BOUNDARY_MARKS: bytes := [39, 40, 41, 43, 95, 44, 45, 46, 47, 58, 61, 63]

  /** Letters, digits and twelve marks. */
  lemma BoundaryCharIs(b: byte)
    ensures IsBoundaryChar(b) <==>
            || b in UPPER_LETTERS || b in LOWER_LETTERS || (exists v :: 0 <= v < 10 && IsDigitOf(b, v))
            || b in BOUNDARY_MARKS
  {
    LetterRanges(b);
    DigitIs(b);
    MarkIs(b);
  }

  lemma DigitIs(b: byte)
    ensures (exists v :: 0 <= v < 10 && IsDigitOf(b, v)) <==> 48 <= b <= 57
  {
    if 48 <= b <= 57 {
      assert IsDigitOf(b, b - 48);
    }
  }

  lemma MarkIs(b: byte)
    ensures b in BOUNDARY_MARKS <==>
            b == 39 || b == 40 || b == 41 || b == 43 || b == UNDERSCORE || b == 44
            || b == DASH || b == 46 || b == 47 || b == COLON || b == EQUALS || b == QUESTION
  {
  }

  predicate IsBoundary(boundary: bytes) {
    1 <= |boundary| <= MAX_BOUNDARY && forall k :: 0 <= k < |boundary| ==> IsBoundaryChar(boundary[k])
  }

  function FieldLine(f: Field): bytes {
    f.key + [COLON, SPACE] + f.value + CRLF
  }

  function HeaderLines(header: seq<Field>): bytes {
    if header == [] then [] else FieldLine(header[0]) + HeaderLines(header[1..])
  }

  // ---------- reading a header back ----------

  /** A line cut at its first colon, without the space behind it. */
  function FieldOf(line: bytes): Option<Field> {
    var i := IndexByte(line, COLON);
    if i == -1 || i + 1 == |line| || line[i + 1] != SPACE then None else Some(Field(line[..i], line[i + 2..]))
  }

  /** The fields of a block of CRLF lines up to a blank one. */
  function ReadFields(s: bytes): Option<seq<Field>>
    decreases |s|
  {
    var j := IndexByte(s, LF);
    if j < 1 || s[j - 1] != CR then None
    else if j == 1 then Some([])
    else WithField(FieldOf(s[..j - 1]), ReadFields(s[j + 1..]))
  }

  function WithField(f: Option<Field>, more: Option<seq<Field>>): Option<seq<Field>> {
    if f == None || more == None then None else Some([f.value] + more.value)
  }

  lemma {:induction false} ReadFieldsAt(s: bytes, j: nat, line: bytes, more: bytes)
    requires IndexByte(s, LF) == j > 1 && s[j - 1] == CR && s[..j - 1] == line && s[j + 1..] == more
    ensures ReadFields(s) == WithField(FieldOf(line), ReadFields(more))
  {
  }

  predicate IsWritable(f: Field) {
    && (forall k :: 0 <= k < |f.key| ==> f.key[k] != COLON && f.key[k] != CR && f.key[k] != LF)
    && (forall k :: 0 <= k < |f.value| ==> f.value[k] != CR && f.value[k] != LF)
  }

  predicate AreWritable(header: seq<Field>) {
    forall i :: 0 <= i < |header| ==> IsWritable(header[i])
  }

  lemma LineIsCut(line: bytes, rest: bytes)
    requires forall k :: 0 <= k < |line| ==> line[k] != LF
    ensures var s := line + (CRLF + rest);
            IndexByte(s, LF) == |line| + 1 && s[|line|] == CR && s[..|line|] == line && s[|line| + 2..] == rest
  {
    IndexByteIs(line + (CRLF + rest), LF, |line| + 1);
  }

  lemma FieldIsCut(f: Field)
    requires IsWritable(f)
    ensures var line := f.key + [COLON, SPACE] + f.value;
            FieldOf(line) == Some(f) && FieldLine(f) == line + CRLF && line != []
            && forall k :: 0 <= k < |line| ==> line[k] != LF
  {
    var line := f.key + [COLON, SPACE] + f.value;
    IndexByteIs(line, COLON, |f.key|);
    assert line[..|f.key|] == f.key && line[|f.key| + 2..] == f.value;
  }

  /** Reading the lines of a header back gives the header. */
  lemma {:induction false} FieldsReadBack(header: seq<Field>, s: bytes)
    requires AreWritable(header) && s == HeaderLines(header) + CRLF
    ensures ReadFields(s) == Some(header)
    decreases |header|
  {
    if header == [] {
      assert s == CRLF;
      BlankIsEnd();
    } else {
      var f, rest := header[0], header[1..];
      var line, more := f.key + [COLON, SPACE] + f.value, HeaderLines(rest) + CRLF;
      FieldIsCut(f);
      FieldsReadBack(rest, more);
      FirstLineFirst(header, line, more);
      assert header == [f] + rest;
      LineComesFirst(line, more, s, f, rest);
    }
  }

  lemma BlankIsEnd()
    ensures ReadFields(CRLF) == Some([])
  {
    IndexByteIs(CRLF, LF, 1);
  }

  lemma {:induction false} FirstLineFirst(header: seq<Field>, line: bytes, more: bytes)
    requires header != [] && FieldLine(header[0]) == line + CRLF && more == HeaderLines(header[1..]) + CRLF
    ensures HeaderLines(header) + CRLF == line + (CRLF + more)
  {
    Assoc(FieldLine(header[0]), HeaderLines(header[1..]), CRLF);
    Assoc(line, CRLF, more);
  }

  lemma {:induction false} LineComesFirst(line: bytes, more: bytes, s: bytes, f: Field, rest: seq<Field>)
    requires line != [] && FieldOf(line) == Some(f) && ReadFields(more) == Some(rest) && s == line + (CRLF + more)
    requires forall k :: 0 <= k < |line| ==> line[k] != LF
    ensures ReadFields(s) == Some([f] + rest)
  {
    LineIsCut(line, more);
    ReadFieldsAt(s, |line| + 1, line, more);
  }

  // ---------- whole messages ----------

  function NlDashBoundary(boundary: bytes): bytes {
    CRLF + DASHES + boundary
  }

  /** What follows a part's boundary: the end of its line, its header, a blank line and its body. */
  function AfterBoundary(p: PartText): bytes {
    CRLF + HeaderLines(p.header) + CRLF + p.body
  }

  /** The parts, each introduced by a delimiter that starts on a fresh line. */
  function Sections(boundary: bytes, parts: seq<PartText>): (s: bytes)
    ensures parts != [] ==> CRLF <= s
  {
    if parts == [] then [] else NlDashBoundary(boundary) + AfterBoundary(parts[0]) + Sections(boundary, parts[1..])
  }

  function Trailer(boundary: bytes): bytes {
    NlDashBoundary(boundary) + DASHES + CRLF
  }

  /** The message before `Close`: the first delimiter has no newline in front of it. */
  function OpenText(boundary: bytes, parts: seq<PartText>): bytes {
    if parts == [] then [] else Sections(boundary, parts)[2..]
  }

  /** The closed message. */
  function MessageText(boundary: bytes, parts: seq<PartText>): bytes {
    OpenText(boundary, parts) + Trailer(boundary)
  }

  lemma {:induction false} SectionsAppend(boundary: bytes, parts: seq<PartText>, p: PartText)
    ensures Sections(boundary, parts + [p])
            == Sections(boundary, parts) + (NlDashBoundary(boundary) + AfterBoundary(p))
  {
    if parts == [] {
      assert parts + [p] == [p];
    } else {
      assert (parts + [p])[1..] == parts[1..] + [p];
      SectionsAppend(boundary, parts[1..], p);
    }
  }

  /** What `CreatePart` puts in front of a body. */
  function PartHead(first: bool, boundary: bytes, header: seq<Field>): bytes {
    (if first then [] else CRLF) + DASHES + boundary + CRLF + HeaderLines(header) + CRLF
  }

  /** The delimiter line in front of a header. */
  function DelimiterLine(first: bool, boundary: bytes): bytes {
    (if first then [] else CRLF) + DASHES + boundary + CRLF
  }

  /** Behind `before` stand a delimiter line and a header block that says exactly the header. */
  predicate SaysHeader(before: bytes, after: bytes, first: bool, boundary: bytes, header: seq<Field>) {
    var start := |before| + |DelimiterLine(first, boundary)|;
    && start <= |after| && after[..start] == before + DelimiterLine(first, boundary)
    && (AreWritable(header) ==> ReadFields(after[start..]) == Some(header))
  }

  lemma {:induction false} HeadReadsBack(before: bytes, first: bool, boundary: bytes, header: seq<Field>)
    ensures SaysHeader(before, before + PartHead(first, boundary, header), first, boundary, header)
  {
    var line, head := DelimiterLine(first, boundary), PartHead(first, boundary, header);
    var block := HeaderLines(header) + CRLF;
    Assoc(line, HeaderLines(header), CRLF);
    assert head == line + block;
    if AreWritable(header) {
      FieldsReadBack(header, block);
    }
    BlockSays(before, line, block, first, boundary, header);
  }

  lemma {:induction false} BlockSays(before: bytes, line: bytes, block: bytes, first: bool, boundary: bytes,
                                    header: seq<Field>)
    requires line == DelimiterLine(first, boundary) && (AreWritable(header) ==> ReadFields(block) == Some(header))
    ensures SaysHeader(before, before + (line + block), first, boundary, header)
  {
    SplitBehind(before, line, block);
  }

  lemma SplitBehind(a: bytes, b: bytes, c: bytes)
    ensures (a + (b + c))[..|a| + |b|] == a + b && (a + (b + c))[|a| + |b|..] == c
  {
  }

  lemma PartHeadIs(boundary: bytes, p: PartText)
    ensures NlDashBoundary(boundary) + AfterBoundary(p) == PartHead(false, boundary, p.header) + p.body
    ensures (NlDashBoundary(boundary) + AfterBoundary(p))[2..] == PartHead(true, boundary, p.header) + p.body
  {
    var tail := CRLF + HeaderLines(p.header) + CRLF;
    assert AfterBoundary(p) == tail + p.body;
    assert PartHead(true, boundary, p.header) == DASHES + boundary + tail;
    assert PartHead(false, boundary, p.header) == CRLF + PartHead(true, boundary, p.header);
    assert NlDashBoundary(boundary) == CRLF + (DASHES + boundary);
  }

  lemma OpenTextAppend(boundary: bytes, parts: seq<PartText>, p: PartText)
    ensures OpenText(boundary, parts + [p])
            == OpenText(boundary, parts) + (PartHead(parts == [], boundary, p.header) + p.body)
  {
    SectionsAppend(boundary, parts, p);
    PartHeadIs(boundary, p);
    if parts != [] {
      DropConcat(Sections(boundary, parts), NlDashBoundary(boundary) + AfterBoundary(p), 2);
    } else {
      assert Sections(boundary, parts + [p]) == NlDashBoundary(boundary) + AfterBoundary(p);
    }
  }

  method WriteHead(first: bool, boundary: bytes, header: seq<Field>) returns (b: bytes)
    ensures b == PartHead(first, boundary, header)
  {
    b := (if first then [] else CRLF) + DASHES + boundary + CRLF;
    ghost var line := b;
    assert HeaderLines(header[..0]) == [];
    for i := 0 to |header|
      invariant b == line + HeaderLines(header[..i])
    {
      HeaderLinesAppend(header[..i], header[i]);
      assert header[..i + 1] == header[..i] + [header[i]];
      b := b + FieldLine(header[i]);
    }
    assert header[..|header|] == header;
    b := b + CRLF;
  }

  class PartWriter {
    const mw: Writer
    var closed: bool

    constructor (mw: Writer)
      ensures this.mw == mw && !closed
    {
      this.mw := mw;
      closed := false;
    }

    method Close()
      modifies this
      ensures closed
    {
      closed := true;
    }

    method Write(d: bytes) returns (ok: bool)
      requires mw.Valid() && (!closed ==> mw.lastpart == this)
      modifies mw
      ensures mw.Valid() && mw.lastpart == old(mw.lastpart) && mw.boundary == old(mw.boundary)
      ensures ok == !closed && mw.finished == old(mw.finished)
      ensures mw.out == old(mw.out) + (if ok then d else [])
      ensures ok && !mw.finished ==> old(mw.parts) != [] && mw.parts == Extend(old(mw.parts), d)
      ensures !ok ==> mw.parts == old(mw.parts)
    {
      if closed {
        return false;
      }
      if !mw.finished {
        ExtendText(mw.boundary, mw.parts, d);
        mw.parts := Extend(mw.parts, d);
      }
      mw.out := mw.out + d;
      ok := true;
    }
  }

  /** The parts with more bytes at the end of the last body. */
  ghost function Extend(parts: seq<PartText>, d: bytes): seq<PartText>
    requires parts != []
  {
    var n := |parts| - 1;
    parts[..n] + [parts[n].(body := parts[n].body + d)]
  }

  lemma ExtendText(boundary: bytes, parts: seq<PartText>, d: bytes)
    requires parts != []
    ensures OpenText(boundary, Extend(parts, d)) == OpenText(boundary, parts) + d
  {
    var n := |parts| - 1;
    var p, q := parts[n], parts[n].(body := parts[n].body + d);
    assert parts == parts[..n] + [p];
    OpenTextAppend(boundary, parts[..n], p);
    OpenTextAppend(boundary, parts[..n], q);
    var head := PartHead(parts[..n] == [], boundary, p.header);
    Assoc(head, p.body, d);
    Assoc(OpenText(boundary, parts[..n]), head + p.body, d);
  }

  class Writer {
    var out: bytes
    var boundary: bytes
    var lastpart: PartWriter?
    ghost var parts: seq<PartText>
    ghost var finished: bool

    /** Until the message is closed, the sink holds exactly the parts written so far. */
    ghost predicate Valid()
      reads this, lastpart
    {
      && (lastpart != null ==> lastpart.mw == this && !lastpart.closed)
      && (!finished ==> out == OpenText(boundary, parts) && (lastpart == null <==> parts == []))
    }

    constructor (boundary: bytes)
      ensures Valid() && out == [] && parts == [] && !finished && this.boundary == boundary && lastpart == null
    {
      out, this.boundary, lastpart, parts, finished := [], boundary, null, [], false;
    }

    method SetBoundary(boundary: bytes) returns (ok: bool)
      requires Valid()
      modifies this`boundary
      ensures Valid()
      ensures ok <==> lastpart == null && IsBoundary(boundary)
      ensures ok ==> 1 <= |boundary| <= 69
      ensures !ok && lastpart == null && 1 <= |boundary| <= 69 ==>
                exists k :: 0 <= k < |boundary| && !IsBoundaryChar(boundary[k])
      ensures this.boundary == if ok then boundary else old(this.boundary)
    {
      if lastpart != null {
        return false;
      }
      if |boundary| < 1 || |boundary| > MAX_BOUNDARY {
        return false;
      }
      for i := 0 to |boundary|
        invariant forall k :: 0 <= k < i ==> IsBoundaryChar(boundary[k])
      {
        var b := boundary[i];
        if !IsBoundaryChar(b) {
          return false;
        }
      }
      this.boundary := boundary;
      return true;
    }

    method CreatePart(header: seq<Field>) returns (p: PartWriter)
      requires Valid()
      modifies this, lastpart
      ensures Valid() && fresh(p) && lastpart == p && boundary == old(boundary) && finished == old(finished)
      ensures old(lastpart) != null ==> old(lastpart).closed
      ensures out == old(out) + PartHead(old(lastpart) == null, boundary, header)
      ensures SaysHeader(old(out), out, old(lastpart) == null, boundary, header)
      ensures parts == old(parts) + [PartText(header, [])]
    {
      var first := lastpart == null;
      if lastpart != null {
        lastpart.Close();
      }
      var b := WriteHead(first, boundary, header);
      OpenTextAppend(boundary, parts, PartText(header, []));
      assert b + [] == b;
      HeadReadsBack(out, first, boundary, header);
      out := out + b;
      parts := parts + [PartText(header, [])];
      p := new PartWriter(this);
      lastpart := p;
    }

    method Close()
      requires Valid()
      modifies this, lastpart
      ensures Valid() && finished && lastpart == null && boundary == old(boundary) && parts == old(parts)
      ensures out == old(out) + Trailer(boundary)
      ensures !old(finished) ==> out == MessageText(boundary, parts)
    {
      if lastpart != null {
        lastpart.Close();
        lastpart := null;
      }
      out := out + Trailer(boundary);
      finished := true;
    }
  }

  lemma {:induction false} HeaderLinesAppend(header: seq<Field>, f: Field)
    ensures HeaderLines(header + [f]) == HeaderLines(header) + FieldLine(f)
  {
    if header == [] {
      assert header + [f] == [f];
    } else {
      assert (header + [f])[1..] == header[1..] + [f];
      HeaderLinesAppend(header[1..], f);
    }
  }
}
