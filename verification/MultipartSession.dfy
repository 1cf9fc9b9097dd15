/** Multipart messages from end to end, on real writers and readers. */
module MultipartSession {
  import opened Bytes
  import opened Bufio
  import opened Streams
  import opened Delimiter
  import opened PartScan
  import opened PartIteration
  import opened MultipartReader
  import opened MultipartWriter
  import opened MultipartRoundTrip

  // ---------- one part ----------

  /** What the windowed reader delivers of a part is what stands in front of the first true
      delimiter of the whole stream, if that delimiter fits a window; and nothing when the part is
      empty. */
  lemma BodyEndIsTrueEnd(s: bytes, nl: bytes, boundary: bytes)
    requires !IsEmptyPart(Window(s), nl, DASHES + boundary)
    ensures var n := nl + DASHES + boundary;
            BodyEnd(s, nl, boundary) == TrueEnd(s, n)
            <==> TrueEnd(s, n) == |s| || DelimiterLength(s[TrueEnd(s, n)..], n) <= BUFFER_SIZE
  {
    WindowedEndIsTrueEnd(s, nl + DASHES + boundary);
  }

  /** A part that had `all` left, in front of `beyond`, has delivered `chunks` into slices of which
      `filled` were not empty. */
  ghost predicate HasRead(p: Part, all: bytes, beyond: bytes, chunks: seq<bytes>, eof: bool, filled: nat)
    reads p, p.mr, p.mr.bufReader
  {
    && p.Valid() && p.Beyond() == beyond && Flatten(chunks) + p.Ahead()[..p.Left()] == all
    && if eof then p.Left() == 0 && p.buffer == [] else |Flatten(chunks)| >= filled
  }

  /** Reads a part with one slice after the other. Whatever their sizes, the pieces make up the
      front of the part, and all of it when the end is reported: at the latest when there were
      more non-empty slices than bytes. */
  method ReadChunks(p: Part, sizes: seq<nat>) returns (chunks: seq<bytes>, eof: bool)
    requires p.Valid()
    modifies p, p.mr.bufReader
    ensures p.Valid() && p.Beyond() == old(p.Beyond())
    ensures Flatten(chunks) + p.Ahead()[..p.Left()] == old(p.Ahead()[..p.Left()])
    ensures eof ==> p.Left() == 0 && p.buffer == []
    ensures !eof ==> |Flatten(chunks)| >= NonEmpty(sizes, |sizes|)
  {
    assert [] + p.Ahead()[..p.Left()] == p.Ahead()[..p.Left()];
    chunks, eof := ReadOn(p, sizes, p.Ahead()[..p.Left()], p.Beyond());
  }

  method ReadOn(p: Part, sizes: seq<nat>, ghost all: bytes, ghost beyond: bytes)
    returns (chunks: seq<bytes>, eof: bool)
    requires HasRead(p, all, beyond, [], false, 0)
    modifies p, p.mr.bufReader
    ensures HasRead(p, all, beyond, chunks, eof, NonEmpty(sizes, |sizes|))
  {
    chunks, eof := [], false;
    var i := 0;
    while i < |sizes| && !eof
      invariant i <= |sizes| && HasRead(p, all, beyond, chunks, eof, NonEmpty(sizes, i))
    {
      chunks, eof := ReadNext(p, sizes, i, all, beyond, chunks);
      i := i + 1;
    }
  }

  method ReadNext(p: Part, sizes: seq<nat>, i: nat, ghost all: bytes, ghost beyond: bytes, chunks: seq<bytes>)
    returns (chunks': seq<bytes>, eof: bool)
    requires i < |sizes| && HasRead(p, all, beyond, chunks, false, NonEmpty(sizes, i))
    modifies p, p.mr.bufReader
    ensures HasRead(p, all, beyond, chunks', eof, NonEmpty(sizes, i + 1))
  {
    var chunk;
    chunk, eof := ReadChunk(p, sizes[i]);
    FlattenAppend(chunks, chunk);
    Assoc(Flatten(chunks), chunk, p.Ahead()[..p.Left()]);
    chunks' := chunks + [chunk];
  }

  method ReadChunk(p: Part, size: nat) returns (chunk: bytes, eof: bool)
    requires p.Valid()
    modifies p, p.mr.bufReader
    ensures p.Valid() && p.Beyond() == old(p.Beyond())
    ensures chunk + p.Ahead()[..p.Left()] == old(p.Ahead()[..p.Left()])
    ensures p.Left() == old(p.Left()) - |chunk|
    ensures eof ==> p.Left() == 0 && p.buffer == []
    ensures !eof && size > 0 ==> chunk != []
  {
    var d := new byte[size];
    ghost var ahead, left := p.Ahead(), p.Left();
    var n;
    n, eof := p.Read(d);
    chunk := d[..n];
    SplitFront(ahead, n, left);
    assert p.Ahead()[..p.Left()] == ahead[n..][..left - n];
  }

  lemma SplitFront(a: bytes, n: nat, m: nat)
    requires n <= m <= |a|
    ensures a[..m] == a[..n] + a[n..][..m - n]
  {
  }

  /** Reads a whole part, slice sizes taken from `size`. */
  method ReadBody(p: Part, size: nat -> nat) returns (body: bytes)
    requires p.Valid()
    modifies p, p.mr.bufReader
    ensures p.Valid() && p.Left() == 0 && p.buffer == []
    ensures body == old(p.Ahead()[..p.Left()]) && p.mr.bufReader.rest == old(p.Beyond())
  {
    body := [];
    ghost var all := p.Ahead()[..p.Left()];
    assert [] + all == all;
    var k, eof := 0, false;
    while !eof
      invariant p.Valid() && p.Beyond() == old(p.Beyond()) && 0 <= k
      invariant body + p.Ahead()[..p.Left()] == all
      invariant eof ==> p.Left() == 0 && p.buffer == []
      decreases p.Left(), !eof
    {
      var chunk;
      chunk, eof := ReadChunk(p, size(k) + 1);
      Assoc(body, chunk, p.Ahead()[..p.Left()]);
      body := body + chunk;
      k := k + 1;
    }
    assert p.Beyond() == p.Ahead() == p.mr.bufReader.rest;
    assert body + [] == body;
  }

  // ---------- whole messages ----------

  /** The current part is read to its end after every successful `NextPart`. */
  method NextBody(r: Reader, size: nat -> nat) returns (body: bytes, last: NextResult)
    requires r.Valid()
    modifies r, r.bufReader, r.currentPart
    ensures r.Valid() && (r.currentPart != old(r.currentPart) ==> fresh(r.currentPart))
    ensures last == Scan(old(r.Drained()), false, r.boundary).0
    ensures last == Found ==>
              var c := Scan(old(r.Drained()), false, r.boundary).1;
              var n := BodyEnd(c.rest, c.nl, r.boundary);
              body == c.rest[..n] && r.Drained() == c.(rest := c.rest[n..])
  {
    last := r.NextPart();
    body := [];
    if last == Found {
      assert r.currentPart.Ahead() == r.bufReader.rest;
      body := ReadBody(r.currentPart, size);
    }
  }

  function Before(bodies: seq<bytes>, r: (seq<bytes>, NextResult)): (seq<bytes>, NextResult) {
    (bodies + r.0, r.1)
  }

  lemma ReadAllTurn(bodies: seq<bytes>, c: Cursor, boundary: bytes)
    ensures var (result, c') := Scan(c, false, boundary);
            var n := BodyEnd(c'.rest, c'.nl, boundary);
            Before(bodies, ReadAll(c, boundary)) ==
              if result != Found then (bodies, result)
              else Before(bodies + [c'.rest[..n]], ReadAll(c'.(rest := c'.rest[n..]), boundary))
  {
    var (result, c') := Scan(c, false, boundary);
    assert bodies + [] == bodies;
    if result == Found {
      var n := BodyEnd(c'.rest, c'.nl, boundary);
      var more := ReadAll(c'.(rest := c'.rest[n..]), boundary).0;
      assert bodies + ([c'.rest[..n]] + more) == (bodies + [c'.rest[..n]]) + more;
    }
  }

  /** The bodies met by calling `NextPart` until it stops, and reading every part to its end, are
      those that the functional meaning of the iteration gives, whatever the slices. */
  method Receive(message: bytes, boundary: bytes, size: nat -> nat) returns (bodies: seq<bytes>, last: NextResult)
    requires |boundary| + 4 < BUFFER_SIZE
    ensures (bodies, last) == ReadAll(Cursor(message, CRLF, 0), boundary)
  {
    var br := new BufReader(message);
    var r := new Reader(br, boundary);
    bodies, last := [], Found;
    ghost var start := r.Drained();
    assert [] + ReadAll(start, boundary).0 == ReadAll(start, boundary).0;
    while last == Found
      invariant r.Valid() && (r.currentPart != null ==> fresh(r.currentPart))
      invariant ReadAll(start, boundary)
                == if last == Found then Before(bodies, ReadAll(r.Drained(), boundary)) else (bodies, last)
      decreases last == Found, |r.Drained().rest|
    {
      ReadAllTurn(bodies, r.Drained(), boundary);
      var body;
      body, last := NextBody(r, size);
      if last == Found {
        bodies := bodies + [body];
      }
    }
  }

  /** A part as its author writes it: the header, and the body in any pieces. */
  datatype Draft = Draft(header: seq<Field>, chunks: seq<bytes>)

  function Texts(drafts: seq<Draft>): (parts: seq<PartText>)
    ensures |parts| == |drafts|
    ensures forall i :: 0 <= i < |drafts| ==> parts[i] == PartText(drafts[i].header, Flatten(drafts[i].chunks))
  {
    seq(|drafts|, i requires 0 <= i < |drafts| => PartText(drafts[i].header, Flatten(drafts[i].chunks)))
  }

  method WriteBody(w: Writer, p: PartWriter, chunks: seq<bytes>)
    requires w.Valid() && w.lastpart == p && !p.closed && p.mw == w && !w.finished
    requires w.parts != [] && w.parts[|w.parts| - 1].body == []
    modifies w
    ensures w.Valid() && w.lastpart == p && w.boundary == old(w.boundary) && !w.finished
    ensures |w.parts| == |old(w.parts)| && w.parts[..|w.parts| - 1] == old(w.parts[..|w.parts| - 1])
    ensures w.parts[|w.parts| - 1] == old(w.parts[|w.parts| - 1]).(body := Flatten(chunks))
  {
    assert chunks[..0] == [];
    for k := 0 to |chunks|
      invariant w.Valid() && w.lastpart == p && !p.closed && w.boundary == old(w.boundary) && !w.finished
      invariant |w.parts| == |old(w.parts)| && w.parts[..|w.parts| - 1] == old(w.parts[..|w.parts| - 1])
      invariant w.parts[|w.parts| - 1] == old(w.parts[|w.parts| - 1]).(body := Flatten(chunks[..k]))
    {
      var _ := p.Write(chunks[k]);
      FlattenNext(chunks, k);
    }
    assert chunks[..|chunks|] == chunks;
  }

  method WritePart(w: Writer, d: Draft)
    requires w.Valid() && !w.finished
    modifies w, w.lastpart
    ensures w.Valid() && w.boundary == old(w.boundary) && !w.finished
    ensures w.lastpart != null && fresh(w.lastpart)
    ensures w.parts == old(w.parts) + [PartText(d.header, Flatten(d.chunks))]
  {
    var p := w.CreatePart(d.header);
    WriteBody(w, p, d.chunks);
    assert w.parts == w.parts[..|w.parts| - 1] + [w.parts[|w.parts| - 1]];
  }

  method Send(boundary: bytes, drafts: seq<Draft>) returns (message: bytes)
    ensures message == MessageText(boundary, Texts(drafts))
  {
    var w := new Writer(boundary);
    for k := 0 to |drafts|
      invariant fresh(w) && w.Valid() && w.boundary == boundary && !w.finished
      invariant w.lastpart != null ==> fresh(w.lastpart)
      invariant w.parts == Texts(drafts)[..k]
    {
      WritePart(w, drafts[k]);
    }
    assert Texts(drafts)[..|drafts|] == Texts(drafts);
    w.Close();
    message := w.out;
  }

  /** Parts written in any pieces under an accepted boundary and read with any slices come back, in
      order and followed by the end, if and only if no body holds a delimiter line. */
  method Transmit(boundary: bytes, drafts: seq<Draft>, size: nat -> nat) returns (bodies: seq<bytes>, last: NextResult)
    requires IsBoundary(boundary) && CleanParts(Texts(drafts))
    ensures bodies == Bodies(Texts(drafts)) && last == NoMoreParts <==> NoneHoldsDelimiter(Texts(drafts), boundary)
  {
    var message := Send(boundary, drafts);
    bodies, last := Receive(message, boundary, size);
    MessageReadsBack(Texts(drafts), boundary);
  }
}
