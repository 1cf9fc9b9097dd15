/** A `bufio.Reader` of 4096 bytes over a finite stream that fails only by ending. */
module Bufio {
  import opened Bytes

  const BUFFER_SIZE: nat := 4096

  datatype SliceError = NoError | EOF | BufferFull

  /** The bytes a full buffer shows of the unread stream. */
  function Window(s: bytes): (w: bytes)
    ensures w <= s && |w| <= BUFFER_SIZE
    ensures |w| == BUFFER_SIZE || w == s
  {
    if |s| <= BUFFER_SIZE then s else s[..BUFFER_SIZE]
  }

  /** How many bytes `ReadSlice('\n')` takes. */
  function SliceLength(s: bytes): (n: nat)
    ensures n <= |s| && (s != [] ==> n > 0)
  {
    var j := IndexByte(s, LF);
    if 0 <= j < BUFFER_SIZE then j + 1 else Min(|s|, BUFFER_SIZE)
  }

  function SliceErr(s: bytes): SliceError {
    var j := IndexByte(s, LF);
    if 0 <= j < BUFFER_SIZE then NoError
    else if |s| >= BUFFER_SIZE then BufferFull
    else EOF
  }

  class BufReader {
    var rest: bytes

    constructor (stream: bytes)
      ensures rest == stream
    {
      rest := stream;
    }

    method Peek() returns (peek: bytes, atEOF: bool)
      ensures peek == Window(rest)
      ensures atEOF <==> |rest| < BUFFER_SIZE
    {
      peek := Window(rest);
      atEOF := |rest| < BUFFER_SIZE;
    }

    /** `io.CopyN` from this reader of bytes it is known to hold. */
    method CopyN(n: nat) returns (s: bytes)
      requires n <= |rest|
      modifies this
      ensures s == old(rest)[..n] && rest == old(rest)[n..]
    {
      s := rest[..n];
      rest := rest[n..];
    }

    method ReadSlice() returns (line: bytes, err: SliceError)
      modifies this
      ensures line == old(rest)[..SliceLength(old(rest))]
      ensures rest == old(rest)[SliceLength(old(rest))..]
      ensures err == SliceErr(old(rest))
    {
      var n := SliceLength(rest);
      err := SliceErr(rest);
      line := rest[..n];
      rest := rest[n..];
    }
  }
}
