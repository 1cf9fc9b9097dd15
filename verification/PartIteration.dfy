/** The iteration over parts, as functions of the unread stream. */
module PartIteration {
  import opened Bytes
  import opened Bufio
  import opened Delimiter
  import opened PartScan

  datatype Error = LineTooLong | ExpectingNewPart | UnexpectedLine

  /** `HeaderError` stands for whatever the header parser returns for a block without a blank line;
      it is passed on unchanged, and may well be the value that stands for the end of the message. */
  datatype NextResult = Found | NoMoreParts | HeaderError | Failure(error: Error)

  /** What `NextPart` reads and keeps between calls. */
  datatype Cursor = Cursor(rest: bytes, nl: bytes, partsRead: nat)

  /** `isFinalBoundary`. */
  predicate IsFinalBoundary(line: bytes, nl: bytes, boundary: bytes) {
    && DASHES + boundary + DASHES <= line
    && var rest := SkipLWSP(line[|boundary| + 4..]);
       rest == [] || rest == nl
  }

  /** The newline `isBoundaryDelimiterLine` goes on with: the first boundary line may switch to LF. */
  function NewlineAfter(line: bytes, nl: bytes, partsRead: nat, boundary: bytes): bytes {
    if DASHES + boundary <= line && partsRead == 0 && SkipLWSP(line[|boundary| + 2..]) == [LF] then [LF] else nl
  }

  /** `isBoundaryDelimiterLine`. */
  predicate IsBoundaryLine(line: bytes, nl: bytes, partsRead: nat, boundary: bytes) {
    DASHES + boundary <= line &&
    SkipLWSP(line[|boundary| + 2..]) == NewlineAfter(line, nl, partsRead, boundary)
  }

  /** The length of a header block: its lines up to and including the first blank one. */
  function HeaderLength(s: bytes): (n: Option<nat>)
    ensures n.Some? ==> 0 < n.value <= |s|
  {
    var j := IndexByte(s, LF);
    if j == -1 then None
    else if s[..j + 1] == [LF] || s[..j + 1] == CRLF then Some(j + 1)
    else
      match HeaderLength(s[j + 1..])
      case None => None
      case Some(n) => Some(j + 1 + n)
  }

  datatype Turn = Stop(result: NextResult, after: Cursor) | Go(expectNewPart: bool, before: Cursor)

  /** One turn of the loop of `NextPart`: one line, and a header block behind a boundary line. */
  function ScanLine(c: Cursor, expectNewPart: bool, boundary: bytes): (t: Turn)
    ensures t.Stop? ==> |t.after.rest| <= |c.rest| && (t.result.Found? ==> |t.after.rest| < |c.rest|)
    ensures t.Go? ==> |t.before.rest| < |c.rest|
  {
    var n := SliceLength(c.rest);
    var line, c' := c.rest[..n], c.(rest := c.rest[n..]);
    match SliceErr(c.rest)
    case EOF => Stop(NoMoreParts, c')
    case BufferFull => Stop(Failure(LineTooLong), c')
    case NoError =>
      if IsBoundaryLine(line, c.nl, c.partsRead, boundary) then
        var c'' := c'.(nl := NewlineAfter(line, c.nl, c.partsRead, boundary), partsRead := c.partsRead + 1);
        match HeaderLength(c'.rest)
        case None => Stop(HeaderError, c''.(rest := []))
        case Some(h) => Stop(Found, c''.(rest := c'.rest[h..]))
      else if IsFinalBoundary(line, c.nl, boundary) then Stop(NoMoreParts, c')
      else if expectNewPart then Stop(Failure(ExpectingNewPart), c')
      else if c.partsRead == 0 then Go(expectNewPart, c')
      else if line == c.nl then Go(true, c')
      else Stop(Failure(UnexpectedLine), c')
  }

  /** The loop of `NextPart`, from a stream whose current part has been drained. */
  function Scan(c: Cursor, expectNewPart: bool, boundary: bytes): (r: (NextResult, Cursor))
    ensures |r.1.rest| <= |c.rest| && (r.0.Found? ==> |r.1.rest| < |c.rest|)
    decreases |c.rest|
  {
    match ScanLine(c, expectNewPart, boundary)
    case Stop(result, c') => (result, c')
    case Go(expecting, c') => Scan(c', expecting, boundary)
  }

  /** The bodies that a reader meets by calling `NextPart` until it stops and draining every part. */
  function ReadAll(c: Cursor, boundary: bytes): (r: (seq<bytes>, NextResult))
    decreases |c.rest|
  {
    var (result, c') := Scan(c, false, boundary);
    if result != Found then ([], result)
    else
      var n := BodyEnd(c'.rest, c'.nl, boundary);
      var (bodies, last) := ReadAll(c'.(rest := c'.rest[n..]), boundary);
      ([c'.rest[..n]] + bodies, last)
  }
}
