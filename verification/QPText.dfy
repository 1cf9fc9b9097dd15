/** Quoted-printable text (RFC 2045, section 6.7): its decoding line by line, and its grammar. */
module QPText {
  import opened Bytes
  import opened Bufio

  const LINE_MAX: nat := 76

  /** A byte that stands for itself inside a line. */
  predicate IsLiteral(b: byte) {
    (33 <= b <= TILDE && b != EQUALS) || IsBlank(b)
  }

  // ---------- decoding ----------

  /** Escapes decoded; an `=` that starts no escape stands for itself. */
  function DecodeBytes(l: bytes): (d: bytes)
    ensures |d| <= |l|
  {
    if l == [] then []
    else if l[0] == EQUALS && |l| >= 3 && ReadHexByte(l[1], l[2]).Some? then
      [ReadHexByte(l[1], l[2]).value] + DecodeBytes(l[3..])
    else [l[0]] + DecodeBytes(l[1..])
  }

  predicate IsDiscarded(b: byte) {
    b == LF || b == CR || b == SPACE || b == TAB
  }

  /** `s` without its trailing blanks and newline characters. */
  function TrimRight(s: bytes): (t: bytes)
    ensures t <= s && (t != [] ==> !IsDiscarded(t[|t| - 1]))
  {
    if s != [] && IsDiscarded(s[|s| - 1]) then TrimRight(s[..|s| - 1]) else s
  }

  predicate EndsIn(s: bytes, suffix: bytes) {
    |suffix| <= |s| && s[|s| - |suffix|..] == suffix
  }

  /** The content of a line as the reader goes on with it: trimmed, a soft break dropped, a line
      end put back. */
  function Content(line: bytes): (c: bytes)
    ensures |c| <= |line|
  {
    var t := TrimRight(line);
    if EndsIn(t, [EQUALS]) then t[..|t| - 1]
    else if EndsIn(line, CRLF) then TrimmedRoom(line); t + CRLF
    else if EndsIn(line, [LF]) then TrimmedRoom(line); t + [LF]
    else t
  }

  /** The line end put back takes no more room than was trimmed. */
  lemma TrimmedRoom(line: bytes)
    ensures EndsIn(line, [LF]) ==> |TrimRight(line)| + 1 <= |line|
    ensures EndsIn(line, CRLF) ==> |TrimRight(line)| + 2 <= |line|
  {
    if EndsIn(line, CRLF) {
      assert line[|line| - 1] == line[|line| - 2..][1] && line[|line| - 2] == line[|line| - 2..][0];
    } else if EndsIn(line, [LF]) {
      assert line[|line| - 1] == line[|line| - 1..][0];
    }
  }

  function LineLength(s: bytes): (n: nat)
    ensures n <= |s| && (s != [] ==> n > 0)
  {
    var j := IndexByte(s, LF);
    if j == -1 then |s| else j + 1
  }

  /** The decoding of a whole text. */
  function DecodeAll(s: bytes): (d: bytes)
    ensures |d| <= |s|
  {
    if s == [] then []
    else
      var n := LineLength(s);
      DecodeBytes(Content(s[..n])) + DecodeAll(s[n..])
  }

  /** Every terminated line fits the reader's buffer, and the last one leaves room in it. */
  predicate LinesFit(s: bytes) {
    SliceErr(s) == EOF || (SliceErr(s) == NoError && LinesFit(s[LineLength(s)..]))
  }

  // ---------- grammar ----------

  /** A run of whole tokens: literal bytes and escapes with upper-case digits. */
  predicate IsTokens(l: bytes) {
    l == [] ||
    if l[0] == EQUALS then |l| >= 3 && IsUpperHex(l[1]) && IsUpperHex(l[2]) && IsTokens(l[3..])
    else IsLiteral(l[0]) && IsTokens(l[1..])
  }

  predicate EndsInBlank(l: bytes) {
    l != [] && IsBlank(l[|l| - 1])
  }

  /** The content of a line that may end a text or stand before a hard line break. */
  predicate IsHardContent(l: bytes) {
    IsTokens(l) && !EndsInBlank(l) && |l| <= LINE_MAX
  }

  /** The content of a line before a soft line break, with its `=`. */
  predicate IsSoftContent(l: bytes) {
    l != [] && l[|l| - 1] == EQUALS && IsTokens(l[..|l| - 1]) && |l| <= LINE_MAX
  }

  predicate IsEncodedLine(line: bytes) {
    && |line| >= 2 && line[|line| - 2] == CR && line[|line| - 1] == LF
    && (IsHardContent(line[..|line| - 2]) || IsSoftContent(line[..|line| - 2]))
  }

  /** Whole encoded lines. */
  predicate IsEncodedLines(t: bytes) {
    t == [] || (IsEncodedLine(t[..LineLength(t)]) && IsEncodedLines(t[LineLength(t)..]))
  }

  /** Whole encoded lines and a last one without a line break: rules 1 to 5 of section 6.7. */
  predicate IsEncodedText(t: bytes) {
    exists k :: 0 <= k <= |t| && IsEncodedLines(t[..k]) && IsHardContent(t[k..])
  }

  // ---------- tokens ----------

  lemma {:induction false} TokensConcat(a: bytes, b: bytes)
    requires IsTokens(a)
    ensures DecodeBytes(a + b) == DecodeBytes(a) + DecodeBytes(b)
    decreases |a|
  {
    if a == [] {
      assert a + b == b;
    } else {
      var n := if a[0] == EQUALS then 3 else 1;
      TokensConcat(a[n..], b);
      DropConcat(a, b, n);
      var v := if a[0] == EQUALS then ReadHexByte(a[1], a[2]).value else a[0];
      assert DecodeBytes(a) == [v] + DecodeBytes(a[n..]);
      assert DecodeBytes(a + b) == [v] + DecodeBytes(a[n..] + b);
    }
  }

  lemma {:induction false} TokensGlue(a: bytes, b: bytes)
    requires IsTokens(a)
    ensures IsTokens(a + b) <==> IsTokens(b)
    decreases |a|
  {
    if a == [] {
      assert a + b == b;
    } else {
      var n := if a[0] == EQUALS then 3 else 1;
      TokensGlue(a[n..], b);
      DropConcat(a, b, n);
    }
  }

  lemma {:induction false} TokensHold(l: bytes, k: nat)
    requires IsTokens(l) && k < |l|
    ensures l[k] == EQUALS || IsLiteral(l[k])
    ensures l[k] == EQUALS ==> k + 2 < |l|
    decreases |l|
  {
    if l[0] == EQUALS {
      if k >= 3 {
        TokensHold(l[3..], k - 3);
      }
    } else if k >= 1 {
      TokensHold(l[1..], k - 1);
    }
  }

  lemma {:induction false} DropBlankToken(l: bytes)
    requires IsTokens(l) && EndsInBlank(l)
    ensures IsTokens(l[..|l| - 1])
    decreases |l|
  {
    var m := l[..|l| - 1];
    var n := if l[0] == EQUALS then 3 else 1;
    if |l| > n {
      DropBlankToken(l[n..]);
      assert m[n..] == l[n..][..|l| - n - 1];
    }
  }

  lemma OneLiteral(b: byte)
    requires IsLiteral(b)
    ensures IsTokens([b]) && DecodeBytes([b]) == [b]
  {
  }

  lemma OneEscape(b: byte)
    ensures IsTokens(Escape(b)) && DecodeBytes(Escape(b)) == [b]
  {
    assert Escape(b)[3..] == [];
  }

  // ---------- lines ----------

  lemma TokensHaveNoLF(l: bytes)
    requires IsTokens(l)
    ensures forall k :: 0 <= k < |l| ==> l[k] != LF && l[k] != CR
  {
    forall k | 0 <= k < |l|
      ensures l[k] != LF && l[k] != CR
    {
      TokensHold(l, k);
    }
  }

  lemma EncodedLineIsLine(line: bytes, rest: bytes)
    requires IsEncodedLine(line)
    ensures LineLength(line + rest) == |line|
    ensures (line + rest)[..|line|] == line && (line + rest)[|line|..] == rest
    ensures |line| <= LINE_MAX + 2
  {
    var c := line[..|line| - 2];
    if IsHardContent(c) {
      TokensHaveNoLF(c);
    } else {
      TokensHaveNoLF(c[..|c| - 1]);
      assert forall k :: 0 <= k < |c| - 1 ==> c[k] == c[..|c| - 1][k];
    }
    assert forall k :: 0 <= k < |c| ==> (line + rest)[k] == c[k];
    IndexByteIs(line + rest, LF, |line| - 1);
  }

  lemma TrimRightIs(t: bytes, w: bytes)
    requires t == [] || !IsDiscarded(t[|t| - 1])
    requires forall k :: 0 <= k < |w| ==> IsDiscarded(w[k])
    ensures TrimRight(t + w) == t
    decreases |w|
  {
    if w == [] {
      assert t + w == t;
    } else {
      assert (t + w)[..|t + w| - 1] == t + w[..|w| - 1];
      TrimRightIs(t, w[..|w| - 1]);
    }
  }

  lemma HardContentEnds(c: bytes)
    requires IsHardContent(c)
    ensures c == [] || (!IsDiscarded(c[|c| - 1]) && c[|c| - 1] != EQUALS)
  {
    if c != [] {
      TokensHold(c, |c| - 1);
    }
  }

  /** What the two kinds of encoded line decode to. */
  lemma DecodeHardLine(c: bytes)
    requires IsHardContent(c)
    ensures Content(c + CRLF) == c + CRLF && Content(c) == c
    ensures DecodeBytes(c + CRLF) == DecodeBytes(c) + CRLF
  {
    HardContentEnds(c);
    HardLineContent(c);
    TokensConcat(c, CRLF);
    assert CRLF[1..] == [LF];
    assert DecodeBytes(CRLF) == [CR] + DecodeBytes([LF]) == CRLF;
  }

  /** Content that ends in no blank, newline or `=` is neither trimmed nor taken for a soft break. */
  lemma HardLineContent(c: bytes)
    requires c == [] || (!IsDiscarded(c[|c| - 1]) && c[|c| - 1] != EQUALS)
    ensures Content(c + CRLF) == c + CRLF && Content(c) == c
  {
    TrimRightIs(c, CRLF);
    TrimRightIs(c, []);
    assert c + [] == c;
    assert (c + CRLF)[|c|..] == CRLF;
    assert c != [] ==> c[|c| - 1..] == [c[|c| - 1]];
  }

  lemma DecodeSoftLine(c: bytes)
    requires IsTokens(c)
    ensures Content(c + [EQUALS] + CRLF) == c
  {
    TrimRightIs(c + [EQUALS], CRLF);
    assert (c + [EQUALS])[|c|..] == [EQUALS];
    assert (c + [EQUALS])[..|c|] == c;
  }

  // ---------- texts ----------

  lemma {:induction false} LinesConcat(a: bytes, b: bytes)
    requires IsEncodedLines(a)
    ensures DecodeAll(a + b) == DecodeAll(a) + DecodeAll(b)
    ensures IsEncodedLines(a + b) <==> IsEncodedLines(b)
    ensures LinesFit(a + b) <==> LinesFit(b)
    decreases |a|
  {
    if a == [] {
      assert a + b == b;
    } else {
      var n := LineLength(a);
      var line, rest := a[..n], a[n..];
      assert a == line + rest && a + b == line + (rest + b);
      LineFirst(line, rest);
      LineFirst(line, rest + b);
      LinesConcat(rest, b);
      Assoc(DecodeBytes(Content(line)), DecodeAll(rest), DecodeAll(b));
    }
  }

  /** A text that starts with an encoded line is read line by line. */
  lemma LineFirst(line: bytes, rest: bytes)
    requires IsEncodedLine(line)
    ensures DecodeAll(line + rest) == DecodeBytes(Content(line)) + DecodeAll(rest)
    ensures IsEncodedLines(line + rest) <==> IsEncodedLines(rest)
    ensures LinesFit(line + rest) <==> LinesFit(rest)
  {
    EncodedLineIsLine(line, rest);
    SliceOfEncodedLine(line, rest);
  }

  lemma SliceOfEncodedLine(line: bytes, rest: bytes)
    requires IsEncodedLine(line)
    ensures SliceErr(line + rest) == NoError
  {
    EncodedLineIsLine(line, rest);
  }

  lemma OneLine(line: bytes)
    requires IsEncodedLine(line)
    ensures IsEncodedLines(line) && DecodeAll(line) == DecodeBytes(Content(line))
  {
    EncodedLineIsLine(line, []);
    assert line + [] == line;
    assert line[|line|..] == [];
  }

  /** A last line decodes as its content. */
  lemma LastLine(c: bytes)
    requires IsHardContent(c)
    ensures DecodeAll(c) == DecodeBytes(c) && LinesFit(c)
  {
    HardContentEnds(c);
    HardLineContent(c);
    TokensHaveNoLF(c);
    AloneOnLine(c);
  }

  lemma AloneOnLine(c: bytes)
    requires IndexByte(c, LF) == -1 && |c| < BUFFER_SIZE && Content(c) == c
    ensures DecodeAll(c) == DecodeBytes(c) && LinesFit(c)
  {
    assert c[..|c|] == c && c[|c|..] == [];
    assert DecodeAll([]) == [];
  }
}
