/** The quoted-printable writer as a machine that takes one byte at a time. */
module QPWriterSpec {
  import opened Bytes
  import opened QPText
  import opened Streams

  /** What was sent to the sink, the line being built, and whether the last line break was a CR. */
  datatype State = State(out: bytes, line: bytes, cr: bool)

  const INITIAL := State([], [], false)

  function HardBreak(s: State): State {
    s.(out := s.out + (s.line + CRLF), line := [])
  }

  function SoftBreak(s: State): State {
    s.(out := s.out + (s.line + [EQUALS] + CRLF), line := [])
  }

  function EncodeByte(s: State, b: byte): State {
    var s' := if LINE_MAX - 1 - |s.line| < 3 then SoftBreak(s) else s;
    s'.(line := s'.line + Escape(b))
  }

  /** A blank about to end a line is escaped instead. */
  function CheckLastByte(s: State): State {
    if EndsInBlank(s.line) then EncodeByte(s.(line := s.line[..|s.line| - 1]), s.line[|s.line| - 1]) else s
  }

  function WriteLineBreak(s: State, b: byte): State {
    if s.cr && b == LF then s.(cr := false)
    else HardBreak(CheckLastByte(s.(cr := s.cr || b == CR)))
  }

  function WriteLiteral(s: State, b: byte): State {
    var s' := if |s.line| == LINE_MAX - 1 then SoftBreak(s) else s;
    s'.(line := s'.line + [b], cr := false)
  }

  /** `write` on one byte. */
  function WriteByte(s: State, b: byte): State {
    if b == LF || b == CR then WriteLineBreak(s, b) else WriteLiteral(s, b)
  }

  /** The bytes `Write` passes on to `write` in batches. */
  predicate IsSimple(b: byte, binary: bool) {
    IsLiteral(b) || (!binary && (b == LF || b == CR))
  }

  function Step(s: State, b: byte, binary: bool): State {
    if IsSimple(b, binary) then WriteByte(s, b) else EncodeByte(s, b)
  }

  function Stepper(binary: bool): (State, byte) -> State {
    (s: State, b: byte) => Step(s, b, binary)
  }

  /** The machine after the first `n` bytes of an input. */
  function Run(s: State, p: bytes, n: nat, binary: bool): State
    requires n <= |p|
  {
    Fold(Stepper(binary), s, p, n)
  }

  /** The sink after `Close`. */
  function Closed(s: State): bytes {
    CheckLastByte(s).out + CheckLastByte(s).line
  }

  /** How the input is cut into `Write` calls makes no difference. */
  lemma RunConcat(s: State, p: bytes, q: bytes, binary: bool)
    ensures Run(s, p + q, |p + q|, binary) == Run(Run(s, p, |p|, binary), q, |q|, binary)
  {
    FoldConcat(Stepper(binary), s, p, q, |q|);
  }

  lemma RunNext(s: State, p: bytes, n: nat, binary: bool)
    requires n < |p|
    ensures Run(s, p, n + 1, binary) == Step(Run(s, p, n, binary), p[n], binary)
  {
  }

  // ---------- the invariant ----------

  /** Whole encoded lines were sent, and the line being built is made of whole tokens and leaves
      room for a soft break. */
  predicate Inv(s: State) {
    IsEncodedLines(s.out) && IsTokens(s.line) && |s.line| <= LINE_MAX - 1
  }

  /** What a reader would make of everything written so far. */
  function Meaning(s: State): bytes {
    DecodeAll(s.out) + DecodeBytes(s.line)
  }

  lemma SoftBreakKeeps(s: State)
    requires Inv(s)
    ensures Inv(SoftBreak(s)) && Meaning(SoftBreak(s)) == Meaning(s)
  {
    var line := s.line + [EQUALS] + CRLF;
    assert line[..|line| - 2] == s.line + [EQUALS];
    assert (s.line + [EQUALS])[..|s.line|] == s.line;
    OneLine(line);
    DecodeSoftLine(s.line);
    LinesConcat(s.out, line);
  }

  lemma HardBreakKeeps(s: State)
    requires Inv(s) && !EndsInBlank(s.line)
    ensures Inv(HardBreak(s)) && Meaning(HardBreak(s)) == Meaning(s) + CRLF
  {
    var line := s.line + CRLF;
    assert line[..|line| - 2] == s.line;
    OneLine(line);
    DecodeHardLine(s.line);
    LinesConcat(s.out, line);
    Assoc(DecodeAll(s.out), DecodeBytes(s.line), CRLF);
  }

  lemma AppendTokens(s: State, t: bytes, d: bytes)
    requires Inv(s) && IsTokens(t) && DecodeBytes(t) == d && |s.line| + |t| <= LINE_MAX - 1
    ensures Inv(s.(line := s.line + t)) && Meaning(s.(line := s.line + t)) == Meaning(s) + d
  {
    TokensConcat(s.line, t);
    TokensGlue(s.line, t);
    Assoc(DecodeAll(s.out), DecodeBytes(s.line), d);
  }

  lemma EncodeByteKeeps(s: State, b: byte)
    requires Inv(s)
    ensures Inv(EncodeByte(s, b)) && Meaning(EncodeByte(s, b)) == Meaning(s) + [b]
    ensures !EndsInBlank(EncodeByte(s, b).line)
  {
    OneEscape(b);
    SoftBreakKeeps(s);
    var s' := if LINE_MAX - 1 - |s.line| < 3 then SoftBreak(s) else s;
    AppendTokens(s', Escape(b), [b]);
  }

  lemma CheckLastByteKeeps(s: State)
    requires Inv(s)
    ensures Inv(CheckLastByte(s)) && Meaning(CheckLastByte(s)) == Meaning(s)
    ensures !EndsInBlank(CheckLastByte(s).line)
  {
    if EndsInBlank(s.line) {
      var b := s.line[|s.line| - 1];
      var s' := s.(line := s.line[..|s.line| - 1]);
      DropBlankToken(s.line);
      OneLiteral(b);
      assert s.line == s'.line + [b];
      AppendTokens(s', [b], [b]);
      EncodeByteKeeps(s', b);
    }
  }

  lemma WriteLiteralKeeps(s: State, b: byte)
    requires Inv(s) && IsLiteral(b)
    ensures Inv(WriteLiteral(s, b)) && Meaning(WriteLiteral(s, b)) == Meaning(s) + [b]
  {
    OneLiteral(b);
    SoftBreakKeeps(s);
    AppendTokens(if |s.line| == LINE_MAX - 1 then SoftBreak(s) else s, [b], [b]);
  }

  lemma WriteLineBreakKeeps(s: State, b: byte)
    requires Inv(s)
    ensures Inv(WriteLineBreak(s, b))
    ensures Meaning(WriteLineBreak(s, b)) == Meaning(s) + (if s.cr && b == LF then [] else CRLF)
  {
    if s.cr && b == LF {
      assert Meaning(s.(cr := false)) == Meaning(s);
    } else {
      var s' := s.(cr := s.cr || b == CR);
      CheckLastByteKeeps(s');
      HardBreakKeeps(CheckLastByte(s'));
      assert Meaning(s') == Meaning(s);
    }
  }

  /** What one byte of input adds to the decoded text. */
  function Denotes(cr: bool, b: byte, binary: bool): bytes {
    if binary || !(b == LF || b == CR) then [b]
    else if cr && b == LF then []
    else CRLF
  }

  /** Every byte keeps the invariant and adds exactly what it denotes. */
  lemma StepKeeps(s: State, b: byte, binary: bool)
    requires Inv(s)
    ensures Inv(Step(s, b, binary))
    ensures Meaning(Step(s, b, binary)) == Meaning(s) + Denotes(s.cr, b, binary)
  {
    if !IsSimple(b, binary) {
      EncodeByteKeeps(s, b);
    } else if b == LF || b == CR {
      WriteLineBreakKeeps(s, b);
    } else {
      WriteLiteralKeeps(s, b);
    }
  }

  lemma {:induction false} RunKeeps(s: State, p: bytes, n: nat, binary: bool)
    requires Inv(s) && n <= |p|
    ensures Inv(Run(s, p, n, binary))
  {
    if n > 0 {
      RunKeeps(s, p, n - 1, binary);
      StepKeeps(Run(s, p, n - 1, binary), p[n - 1], binary);
    }
  }

  /** Whatever was written, the closed sink holds a text within rules 1 to 5 of section 6.7 of
      RFC 2045 that decodes to what the input denoted. */
  lemma ClosedIsEncoded(s: State)
    requires Inv(s)
    ensures IsEncodedText(Closed(s)) && DecodeAll(Closed(s)) == Meaning(s) && LinesFit(Closed(s))
  {
    CheckLastByteKeeps(s);
    var c := CheckLastByte(s);
    LinesConcat(c.out, c.line);
    LastLine(c.line);
    assert Closed(s)[..|c.out|] == c.out && Closed(s)[|c.out|..] == c.line;
  }
}
