/** Quoted-printable from end to end: a writer that is fed in any pieces, and a reader that is asked
    with slices of any sizes. */
module QPSession {
  import opened Bytes
  import opened Bufio
  import opened Streams
  import opened QPText
  import opened QPReader
  import opened QPRoundTrip
  import Spec = QPWriterSpec
  import QPWriter

  method WriteChunks(w: QPWriter.Writer, chunks: seq<bytes>)
    requires w.Valid()
    modifies w, w.line
    ensures w.Valid() && w.binary == old(w.binary)
    ensures w.State() == Spec.Run(old(w.State()), Flatten(chunks), |Flatten(chunks)|, w.binary)
  {
    ghost var s := w.State();
    assert chunks[..0] == [];
    for k := 0 to |chunks|
      invariant w.Valid() && w.binary == old(w.binary)
      invariant w.State() == Spec.Run(s, Flatten(chunks[..k]), |Flatten(chunks[..k])|, w.binary)
    {
      var _ := w.Write(chunks[k]);
      Spec.RunConcat(s, Flatten(chunks[..k]), chunks[k], w.binary);
      FlattenNext(chunks, k);
    }
    assert chunks[..|chunks|] == chunks;
  }

  /** Calls `Read` with one slice after the other, until it reports an error. */
  method ReadChunks(r: Reader, sizes: seq<nat>) returns (chunks: seq<bytes>, err: Option<ReadError>)
    requires r.Valid()
    modifies r, r.br, r.gerr
    ensures r.Valid() && r.Clean() == old(r.Clean())
    ensures old(r.Remaining()) == Flatten(chunks) + r.Remaining()
    ensures err == None ==> |Flatten(chunks)| == Room(sizes, |sizes|)
    ensures err != None ==> r.Remaining() == []
    ensures err != None && (r.strict ==> old(r.Clean())) ==> err == Some(EndOfFile)
  {
    assert [] + r.Remaining() == r.Remaining();
    chunks, err := ReadOn(r, sizes, r.Remaining(), r.Clean());
  }

  method ReadOn(r: Reader, sizes: seq<nat>, ghost all: bytes, ghost clean: bool)
    returns (chunks: seq<bytes>, err: Option<ReadError>)
    requires StandsAt(r, all, clean, [], None, 0)
    modifies r, r.br, r.gerr
    ensures StandsAt(r, all, clean, chunks, err, Room(sizes, |sizes|))
  {
    chunks, err := [], None;
    var i := 0;
    while i < |sizes| && err == None
      invariant i <= |sizes| && StandsAt(r, all, clean, chunks, err, Room(sizes, i))
    {
      chunks, err := ReadNext(r, sizes, i, all, clean, chunks);
      i := i + 1;
    }
  }

  /** A reader that had `all` to deliver has delivered `chunks`, into slices with room for `room`. */
  ghost predicate StandsAt(r: Reader, all: bytes, clean: bool, chunks: seq<bytes>, err: Option<ReadError>, room: nat)
    reads r, r.br, r.gerr
  {
    && r.Valid() && r.Clean() == clean && all == Flatten(chunks) + r.Remaining()
    && (err == None ==> |Flatten(chunks)| == room)
    && (err != None ==> r.Remaining() == [] && ((r.strict ==> clean) ==> err == Some(EndOfFile)))
  }

  method ReadNext(r: Reader, sizes: seq<nat>, i: nat, ghost all: bytes, ghost clean: bool, chunks: seq<bytes>)
      returns (chunks': seq<bytes>, err: Option<ReadError>)
    requires i < |sizes| && StandsAt(r, all, clean, chunks, None, Room(sizes, i))
    modifies r, r.br, r.gerr
    ensures StandsAt(r, all, clean, chunks', err, Room(sizes, i + 1))
  {
    var p := new byte[sizes[i]];
    var n;
    n, err := r.Read(p);
    FlattenAppend(chunks, p[..n]);
    Assoc(Flatten(chunks), p[..n], r.Remaining());
    chunks' := chunks + [p[..n]];
  }

  /** Whatever the pieces written and the slices read, a tolerant or a strict reader delivers what the
      input denotes piece by piece, and all of it at the end: the input itself in binary mode, and in
      text mode the input with its line endings turned into CRLF, if and only if no stray LF is lost.
      It reports nothing but the end. */
  method Transmit(input: seq<bytes>, binary: bool, strict: bool, sizes: seq<nat>)
    returns (output: seq<bytes>, err: Option<ReadError>)
    ensures var p, q := Flatten(input), Flatten(output);
            var denoted := Denoted(p, |p|, binary);
            && q <= denoted && (err != None ==> q == denoted)
            && (binary ==> denoted == p)
            && (!binary ==> (denoted == Normalised(p, |p|) <==> forall j :: 0 <= j < |p| ==> !IsStrayLF(p, j)))
    ensures err == None || err == Some(EndOfFile)
    ensures err == None ==> |Flatten(output)| == Room(sizes, |sizes|)
  {
    var text := EncodeChunks(input, binary);
    ghost var p := Flatten(input);
    StrictReadsEncoded(p, binary);
    DenotedIs(p, binary);
    output, err := DecodeChunks(text, strict, sizes, Denoted(p, |p|, binary));
  }

  lemma DenotedIs(p: bytes, binary: bool)
    ensures var denoted := Denoted(p, |p|, binary);
            && LinesFit(Encoded(p, binary)) && DecodeAll(Encoded(p, binary)) == denoted
            && (binary ==> denoted == p)
            && (!binary ==> (denoted == Normalised(p, |p|) <==> forall j :: 0 <= j < |p| ==> !IsStrayLF(p, j)))
  {
    EncodedDecodes(p, binary);
    if binary {
      BinaryRoundTrip(p);
    } else {
      TextRoundTrip(p);
    }
  }

  /** Clean text is decoded piece by piece, by either reader. */
  method DecodeChunks(text: bytes, strict: bool, sizes: seq<nat>, ghost all: bytes)
    returns (chunks: seq<bytes>, err: Option<ReadError>)
    requires IsCleanText(text) && LinesFit(text) && DecodeAll(text) == DecodeStrict(text) == all
    ensures Flatten(chunks) <= all && (err != None ==> Flatten(chunks) == all && err == Some(EndOfFile))
    ensures err == None ==> |Flatten(chunks)| == Room(sizes, |sizes|)
  {
    var br := new BufReader(text);
    var r := new Reader(br, strict);
    chunks, err := ReadChunks(r, sizes);
    assert Flatten(chunks) + [] == Flatten(chunks);
  }

  method EncodeChunks(input: seq<bytes>, binary: bool) returns (text: bytes)
    ensures text == Encoded(Flatten(input), binary)
  {
    var w := new QPWriter.Writer();
    w.binary := binary;
    WriteChunks(w, input);
    w.Close();
    text := w.out;
  }
}
