/** quotedprintable/reader.go: the tolerant and the strict decoder, over lines that fit the buffer. */
module QPReader {
  import opened Bytes
  import opened Bufio
  import opened QPText

  datatype ReadError = EndOfFile | BadHexByte | TruncatedEscape | BadSoftBreak | BadByte

  predicate AreMild(errs: seq<ReadError>) {
    forall i :: 0 <= i < |errs| ==> errs[i] != EndOfFile
  }

  const MAX_ERRORS: nat := 4

  // ---------- what counts as an error ----------

  predicate IsCleanByte(b: byte) {
    SPACE <= b <= TILDE || b == TAB || b == CR || b == LF
  }

  /** Decoding these bytes records no error. */
  predicate IsClean(l: bytes) {
    l == [] ||
    if l[0] == EQUALS then |l| >= 3 && ReadHexByte(l[1], l[2]).Some? && IsClean(l[3..])
    else IsCleanByte(l[0]) && IsClean(l[1..])
  }

  /** A soft break is an `=` with the line end right behind it. */
  predicate HasBadSoftBreak(line: bytes) {
    var t := TrimRight(line);
    EndsIn(t, [EQUALS]) && !([LF] <= line[|t|..]) && !(CRLF <= line[|t|..])
  }

  predicate IsCleanLine(line: bytes) {
    !HasBadSoftBreak(line) && IsClean(Content(line))
  }

  predicate IsCleanText(s: bytes) {
    s == [] || (IsCleanLine(s[..LineLength(s)]) && IsCleanText(s[LineLength(s)..]))
  }

  /** The strict decoding: it stops behind the first line that records an error. */
  function DecodeStrict(s: bytes): bytes {
    if s == [] then []
    else
      var n := LineLength(s);
      DecodeBytes(Content(s[..n])) + if IsCleanLine(s[..n]) then DecodeStrict(s[n..]) else []
  }

  /** The strict decoding is a prefix of the tolerant one, and all of it when no error is recorded. */
  lemma {:induction false} StrictIsPrefix(s: bytes)
    ensures DecodeStrict(s) <= DecodeAll(s)
    ensures IsCleanText(s) ==> DecodeStrict(s) == DecodeAll(s)
    decreases |s|
  {
    if s != [] {
      StrictIsPrefix(s[LineLength(s)..]);
    }
  }

  // ---------- the reader ----------

  /** What a reader delivers from the lines it has not read; a strict one that has recorded an
      error delivers none of them. */
  function Later(strict: bool, sound: bool, rest: bytes): bytes {
    if !strict then DecodeAll(rest) else if sound then DecodeStrict(rest) else []
  }

  lemma LaterLine(strict: bool, sound: bool, s: bytes)
    requires strict ==> sound
    ensures var line, rest := s[..LineLength(s)], s[LineLength(s)..];
            Later(strict, sound, s) == DecodeBytes(Content(line)) + Later(strict, sound && IsCleanLine(line), rest)
  {
    if s == [] {
      assert Content([]) == [];
    }
  }

  /** One ReadSlice takes one line, and the text is that line and the rest. */
  lemma NextLine(s: bytes)
    requires LinesFit(s)
    ensures SliceErr(s) != BufferFull && SliceLength(s) == LineLength(s)
    ensures SliceErr(s) == NoError ==> LineLength(s) > 0 && LinesFit(s[LineLength(s)..])
    ensures SliceErr(s) == EOF ==> s[LineLength(s)..] == []
    ensures var line, rest := s[..LineLength(s)], s[LineLength(s)..];
            (IsCleanText(s) <==> IsCleanLine(line) && IsCleanText(rest))
  {
    if s == [] {
      assert Content([]) == [];
    }
  }

  class RErr {
    var errs: seq<ReadError>
    var err: Option<ReadError>

    constructor ()
      ensures errs == [] && err == None
    {
      errs, err := [], None;
    }

    /** Records an error that can be ignored, if there is room. */
    method Add(e: ReadError)
      modifies this`errs
      ensures errs == if |old(errs)| >= 4 then old(errs) else old(errs) + [e]
      ensures errs != []
      ensures e != EndOfFile && AreMild(old(errs)) ==> AreMild(errs)
    {
      if |errs| >= MAX_ERRORS {
        return;
      }
      errs := errs + [e];
    }

    method AddUnrecover(e: ReadError)
      modifies this`err
      ensures err == Some(e)
    {
      err := Some(e);
    }

    function GetErr(): Option<ReadError>
      reads this
    {
      if errs == [] then err else Some(errs[0])
    }
  }

  class Reader {
    const strict: bool
    const br: BufReader
    const gerr: RErr
    var line: bytes

    constructor (r: BufReader, strict: bool)
      requires LinesFit(r.rest)
      ensures Valid() && br == r && this.strict == strict && fresh(gerr)
      ensures Remaining() == if strict then DecodeStrict(r.rest) else DecodeAll(r.rest)
      ensures Clean() <==> IsCleanText(r.rest)
    {
      br, this.strict, line := r, strict, [];
      gerr := new RErr();
    }

    function Fn(): Option<ReadError>
      reads this, gerr
    {
      if strict then gerr.GetErr() else gerr.err
    }

    ghost predicate Valid()
      reads this, br, gerr
    {
      && (gerr.err == None ==> LinesFit(br.rest))
      && (gerr.err != None ==> gerr.err == Some(EndOfFile) && br.rest == [])
      && AreMild(gerr.errs)
    }

    /** No error was recorded, and the current line will record none. */
    ghost predicate Sound()
      reads this, gerr
    {
      gerr.errs == [] && IsClean(line)
    }

    /** No error was recorded, and none will be. */
    ghost predicate Clean()
      reads this, br, gerr
    {
      Sound() && IsCleanText(br.rest)
    }

    /** Everything the reader has still to deliver. */
    ghost function Remaining(): bytes
      reads this, br, gerr
    {
      DecodeBytes(line) + Later(strict, Sound(), br.rest)
    }

    /** Whatever the slice sizes, the calls deliver the decoding piece by piece; only a call that
        finds nothing more to deliver reports an error. */
    method Read(p: array<byte>) returns (n: nat, err: Option<ReadError>)
      requires Valid()
      modifies this, br, gerr, p
      ensures Valid() && n <= p.Length
      ensures old(Remaining()) == p[..n] + Remaining()
      ensures Clean() == old(Clean())
      ensures err == None ==> n == p.Length
      ensures err != None ==> Remaining() == [] && err == Fn()
      ensures err != None && !strict ==> err == Some(EndOfFile)
      ensures err != None && strict ==> (err == Some(EndOfFile) <==> old(Clean()))
    {
      n, err := 0, None;
      ghost var all := Remaining();
      while n < p.Length
        invariant Valid() && err == None && n <= p.Length
        invariant all == p[..n] + Remaining()
        invariant Clean() == old(Clean())
        decreases Lines(), |line|
      {
        if line == [] {
          err := FetchLine();
          if err != None {
            return;
          }
        } else {
          DeliverByte(p, n);
          n := n + 1;
        }
      }
    }

    /** Decodes the front of the line into the slice. */
    method DeliverByte(p: array<byte>, n: nat)
      requires Valid() && line != [] && n < p.Length
      modifies this`line, gerr`errs, p
      ensures Valid() && Clean() == old(Clean()) && |line| < |old(line)|
      ensures old(p[..n]) + old(Remaining()) == p[..n + 1] + Remaining()
    {
      var b := TakeByte();
      Assoc([b], DecodeBytes(line), Later(strict, Sound(), br.rest));
      Assoc(p[..n], [b], Remaining());
      p[n] := b;
      assert p[..n + 1] == old(p[..n]) + [b];
    }

    /** Bounds the lines still to be read. */
    ghost function Lines(): nat
      reads br, gerr
    {
      |br.rest| + if gerr.err == None then 1 else 0
    }

    /** Reads the next line and goes on with its content, unless an error stops the reader. */
    method FetchLine() returns (err: Option<ReadError>)
      requires Valid() && line == []
      modifies this, br, gerr
      ensures Valid() && Remaining() == old(Remaining()) && Clean() == old(Clean())
      ensures err == None ==> Lines() < old(Lines())
      ensures err != None ==> Remaining() == [] && err == Fn()
      ensures err != None && !strict ==> err == Some(EndOfFile)
      ensures err != None && strict ==> (err == Some(EndOfFile) <==> Clean())
    {
      err := Fn();
      if err == None {
        ReadLine();
      }
    }

    method ReadLine()
      requires Valid() && line == [] && Fn() == None
      modifies this, br, gerr
      ensures Valid() && Remaining() == old(Remaining()) && Clean() == old(Clean())
      ensures Lines() < old(Lines())
    {
      NextLine(br.rest);
      LaterLine(strict, Sound(), br.rest);
      assert Remaining() == Later(strict, Sound(), br.rest);
      var whole, rerr := br.ReadSlice();
      if rerr == Bufio.EOF {
        gerr.AddUnrecover(EndOfFile);
      }
      Trim(whole);
    }

    /** Trims a line, drops a soft break, and puts a line end back. */
    method Trim(whole: bytes)
      modifies this`line, gerr`errs
      ensures line == Content(whole)
      ensures gerr.errs == [] <==> old(gerr.errs) == [] && !HasBadSoftBreak(whole)
      ensures AreMild(old(gerr.errs)) ==> AreMild(gerr.errs)
    {
      var hasLF := EndsIn(whole, [LF]);
      var hasCR := EndsIn(whole, CRLF);
      EndsInLF(whole);
      line := TrimRight(whole);
      if EndsIn(line, [EQUALS]) {
        if HasBadSoftBreak(whole) {
          gerr.Add(BadSoftBreak);
        }
        line := line[..|line| - 1];
      } else if hasLF {
        line := line + if hasCR then CRLF else [LF];
      }
    }

    /** Decodes the byte or the escape at the front of the line. */
    method TakeByte() returns (b: byte)
      requires line != []
      modifies this`line, gerr`errs
      ensures DecodeBytes(old(line)) == [b] + DecodeBytes(line) && |line| < |old(line)|
      ensures Sound() == old(Sound())
      ensures AreMild(old(gerr.errs)) ==> AreMild(gerr.errs)
    {
      b := line[0];
      if b == EQUALS {
        if |line| < 3 {
          gerr.Add(TruncatedEscape);
        } else {
          var v := ReadHexByte(line[1], line[2]);
          if v == None {
            gerr.Add(BadHexByte);
          } else {
            b := v.value;
            DropDrop(line, 2, 1);
            line := line[2..];
          }
        }
      } else if b == TAB || b == CR || b == LF {
      } else if b < SPACE || b > TILDE {
        gerr.Add(BadByte);
      }
      line := line[1..];
    }
  }

  lemma EndsInLF(s: bytes)
    ensures EndsIn(s, CRLF) ==> EndsIn(s, [LF])
  {
    if EndsIn(s, CRLF) {
      assert s[|s| - 1..] == s[|s| - 2..][1..];
    }
  }
}
