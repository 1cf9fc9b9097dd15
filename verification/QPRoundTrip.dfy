/** What quoted-printable text decodes to when it was written by the quoted-printable writer. */
module QPRoundTrip {
  import opened Bytes
  import opened QPText
  import opened QPReader
  import opened QPWriterSpec

  /** The sink after writing `p`, in any number of calls, and closing. */
  function Encoded(p: bytes, binary: bool): bytes {
    Closed(Run(INITIAL, p, |p|, binary))
  }

  // ---------- the writer's flag ----------

  /** The writer's `cr` flag after the first `n` bytes: only bytes passed to `write` clear it. */
  function CrAt(p: bytes, n: nat, binary: bool): bool
    requires n <= |p|
  {
    if n == 0 then false
    else
      var cr, b := CrAt(p, n - 1, binary), p[n - 1];
      if IsSimple(b, binary) then b == CR else cr
  }

  /** What the first `n` bytes of input denote to the writer. */
  function Denoted(p: bytes, n: nat, binary: bool): bytes
    requires n <= |p|
  {
    if n == 0 then [] else Denoted(p, n - 1, binary) + Denotes(CrAt(p, n - 1, binary), p[n - 1], binary)
  }

  lemma StepFlag(s: State, b: byte, binary: bool)
    ensures Step(s, b, binary).cr
            == if IsSimple(b, binary) then b == CR else s.cr
  {
  }

  lemma {:induction false} RunDenotes(p: bytes, n: nat, binary: bool)
    requires n <= |p|
    ensures Inv(Run(INITIAL, p, n, binary))
    ensures Run(INITIAL, p, n, binary).cr == CrAt(p, n, binary)
    ensures Meaning(Run(INITIAL, p, n, binary)) == Denoted(p, n, binary)
  {
    if n > 0 {
      RunDenotes(p, n - 1, binary);
      RunNext(INITIAL, p, n - 1, binary);
      StepDenotes(Run(INITIAL, p, n - 1, binary), p[n - 1], binary, Run(INITIAL, p, n, binary));
    }
  }

  lemma StepDenotes(s: State, b: byte, binary: bool, s': State)
    requires Inv(s) && s' == Step(s, b, binary)
    ensures Inv(s') && Meaning(s') == Meaning(s) + Denotes(s.cr, b, binary)
    ensures s'.cr == if IsSimple(b, binary) then b == CR else s.cr
  {
    StepKeeps(s, b, binary);
    StepFlag(s, b, binary);
  }

  /** Every input is encoded within the rules of RFC 2045, section 6.7, and decodes to what it denoted. */
  lemma EncodedDecodes(p: bytes, binary: bool)
    ensures IsEncodedText(Encoded(p, binary)) && LinesFit(Encoded(p, binary))
    ensures DecodeAll(Encoded(p, binary)) == Denoted(p, |p|, binary)
  {
    RunDenotes(p, |p|, binary);
    ClosedIsEncoded(Run(INITIAL, p, |p|, binary));
  }

  // ---------- binary ----------

  /** Binary mode loses nothing, whatever the bytes. */
  lemma BinaryRoundTrip(p: bytes)
    ensures DecodeAll(Encoded(p, true)) == p
  {
    EncodedDecodes(p, true);
    BinaryDenotesItself(p, |p|);
    assert p[..|p|] == p;
  }

  lemma {:induction false} BinaryDenotesItself(p: bytes, n: nat)
    requires n <= |p|
    ensures Denoted(p, n, true) == p[..n]
  {
    if n > 0 {
      BinaryDenotesItself(p, n - 1);
      assert p[..n] == p[..n - 1] + [p[n - 1]];
    }
  }

  // ---------- text ----------

  /** The first `n` bytes with every CRLF, lone CR and lone LF turned into CRLF. */
  function Normalised(p: bytes, n: nat): bytes
    requires n <= |p|
  {
    if n == 0 then []
    else
      var b := p[n - 1];
      Normalised(p, n - 1) +
      if b == LF && n >= 2 && p[n - 2] == CR then []
      else if b == LF || b == CR then CRLF
      else [b]
  }

  /** There is a CR at `i`, and only escaped bytes from there to `n`. */
  predicate IsPendingCR(p: bytes, i: int, n: int) {
    0 <= i < n <= |p| && p[i] == CR && forall m :: i < m < n ==> !IsSimple(p[m], false)
  }

  /** The LF at `j` follows a CR with nothing but escaped bytes, and at least one, between them. */
  predicate IsStrayLF(p: bytes, j: int) {
    0 <= j < |p| && p[j] == LF && exists i :: 0 <= i < j - 1 && IsPendingCR(p, i, j)
  }

  /** The flag is still up exactly when a CR is followed by escaped bytes only. */
  lemma {:induction false} FlagIsUp(p: bytes, n: nat)
    requires n <= |p|
    ensures CrAt(p, n, false) <==> exists i :: IsPendingCR(p, i, n)
  {
    if n > 0 {
      FlagIsUp(p, n - 1);
      if IsSimple(p[n - 1], false) {
        assert p[n - 1] == CR ==> IsPendingCR(p, n - 1, n);
      } else if CrAt(p, n - 1, false) {
        var i :| IsPendingCR(p, i, n - 1);
        assert IsPendingCR(p, i, n);
      } else {
        assert forall i :: i < n - 1 && IsPendingCR(p, i, n) ==> IsPendingCR(p, i, n - 1);
      }
    }
  }

  /** One byte denotes its normal form unless it is a stray LF, which the writer drops. */
  lemma DenotesNormal(p: bytes, n: nat)
    requires 0 < n <= |p|
    ensures var d := Denotes(CrAt(p, n - 1, false), p[n - 1], false);
            if IsStrayLF(p, n - 1) then d == [] && !(n >= 2 && p[n - 2] == CR)
            else d == (if p[n - 1] == LF && n >= 2 && p[n - 2] == CR then []
                       else if p[n - 1] == LF || p[n - 1] == CR then CRLF else [p[n - 1]])
  {
    FlagIsUp(p, n - 1);
    if n >= 2 {
      assert IsSimple(CR, false);
      assert p[n - 2] == CR ==> IsPendingCR(p, n - 2, n - 1);
    }
  }

  lemma {:induction false} DenotedVersusNormalised(p: bytes, n: nat)
    requires n <= |p|
    ensures |Denoted(p, n, false)| <= |Normalised(p, n)|
    ensures (forall j :: 0 <= j < n ==> !IsStrayLF(p, j)) ==> Denoted(p, n, false) == Normalised(p, n)
    ensures (exists j :: 0 <= j < n && IsStrayLF(p, j)) ==> |Denoted(p, n, false)| < |Normalised(p, n)|
  {
    if n > 0 {
      DenotedVersusNormalised(p, n - 1);
      DenotesNormal(p, n);
    }
  }

  /** Text comes back with its line endings turned into CRLF if and only if no CR is separated from
      a later LF by escaped bytes and nothing else. */
  lemma {:induction false} TextRoundTrip(p: bytes)
    ensures DecodeAll(Encoded(p, false)) == Normalised(p, |p|)
            <==> forall j :: 0 <= j < |p| ==> !IsStrayLF(p, j)
  {
    EncodedDecodes(p, false);
    DenotedVersusNormalised(p, |p|);
  }

  /** A concrete loss: in CR, `=`, LF the LF disappears. */
  lemma StrayLFIsLost()
    ensures DecodeAll(Encoded([CR, EQUALS, LF], false)) == CRLF + [EQUALS]
    ensures Normalised([CR, EQUALS, LF], 3) == CRLF + [EQUALS] + CRLF
  {
    var p: bytes := [CR, EQUALS, LF];
    EncodedDecodes(p, false);
    StrayLFDenotesNothing(p);
    assert Normalised(p, 1) == CRLF;
    assert Normalised(p, 2) == CRLF + [EQUALS];
  }

  lemma StrayLFDenotesNothing(p: bytes)
    requires p == [CR, EQUALS, LF]
    ensures Denoted(p, 3, false) == CRLF + [EQUALS]
  {
    assert Denoted(p, 1, false) == CRLF && CrAt(p, 1, false);
    assert Denoted(p, 2, false) == CRLF + [EQUALS] && CrAt(p, 2, false);
  }

  // ---------- printable text ----------

  predicate IsPrintable(b: byte) {
    (33 <= b <= 126 && b != EQUALS) || b == SPACE || b == TAB
  }

  /** The first `q` lines of text that is only broken: 75 bytes each, and a soft break behind them. */
  function FullLines(p: bytes, q: nat): bytes
    requires 75 * q <= |p|
  {
    if q == 0 then [] else FullLines(p, q - 1) + (p[75 * (q - 1)..75 * q] + [EQUALS] + CRLF)
  }

  /** Text in lines of 75 bytes. */
  function Wrapped(p: bytes): bytes {
    if p == [] then []
    else
      var q := (|p| - 1) / 75;
      FullLines(p, q) + p[75 * q..]
  }

  /** How many lines are full before byte `n` is written behind them. */
  function LinesBefore(n: nat): (q: nat)
    ensures 75 * q <= n <= 75 * q + 75
  {
    if n == 0 then 0 else (n - 1) / 75
  }

  lemma LiteralStep(p: bytes, n: nat, q: nat, q': nat, binary: bool)
    requires n < |p| && IsPrintable(p[n]) && 75 * q <= n <= 75 * q + 75
    requires q' == if n == 75 * q + 75 then q + 1 else q
    ensures Step(State(FullLines(p, q), p[75 * q..n], false), p[n], binary)
            == State(FullLines(p, q'), p[75 * q'..n + 1], false)
  {
    assert p[75 * q..n] + [p[n]] == p[75 * q..n + 1];
    assert [] + [p[n]] == p[n..n + 1];
  }

  lemma {:induction false} LiteralRun(p: bytes, n: nat, binary: bool)
    requires n <= |p| && forall k :: 0 <= k < |p| ==> IsPrintable(p[k])
    ensures var q := LinesBefore(n); Run(INITIAL, p, n, binary) == State(FullLines(p, q), p[75 * q..n], false)
  {
    if n > 0 {
      LiteralRun(p, n - 1, binary);
      RunNext(INITIAL, p, n - 1, binary);
      LiteralStep(p, n - 1, LinesBefore(n - 1), LinesBefore(n), binary);
    }
  }

  /** Printable text that does not end in a blank is written as it is, but for soft breaks every 75
      bytes. */
  lemma PrintableIsKept(p: bytes, binary: bool)
    requires forall k :: 0 <= k < |p| ==> IsPrintable(p[k])
    requires p == [] || (p[|p| - 1] != SPACE && p[|p| - 1] != TAB)
    ensures Encoded(p, binary) == Wrapped(p)
  {
    LiteralRun(p, |p|, binary);
    if p != [] {
      var q := (|p| - 1) / 75;
      assert p[75 * q..][|p| - 75 * q - 1] == p[|p| - 1];
    }
  }

  // ---------- the strict reader ----------

  lemma {:induction false} TokensAreClean(l: bytes, tail: bytes)
    requires IsTokens(l) && IsClean(tail)
    ensures IsClean(l + tail)
    decreases |l|
  {
    if l == [] {
      assert l + tail == tail;
    } else {
      var n := if l[0] == EQUALS then 3 else 1;
      TokensAreClean(l[n..], tail);
      DropConcat(l, tail, n);
    }
  }

  lemma HardLineIsClean(c: bytes)
    requires IsHardContent(c)
    ensures IsCleanLine(c + CRLF)
  {
    DecodeHardLine(c);
    NoSoftBreak(c, CRLF);
    assert IsClean(CRLF) by { assert CRLF[1..] == [LF]; }
    TokensAreClean(c, CRLF);
  }

  lemma NoSoftBreak(c: bytes, end: bytes)
    requires IsHardContent(c) && (end == CRLF || end == [])
    ensures !HasBadSoftBreak(c + end)
  {
    HardContentEnds(c);
    TrimRightIs(c, end);
    assert c != [] ==> c[|c| - 1..] == [c[|c| - 1]];
  }

  lemma LastContentIsClean(c: bytes)
    requires IsHardContent(c)
    ensures IsCleanLine(c)
  {
    DecodeHardLine(c);
    NoSoftBreak(c, []);
    TokensAreClean(c, []);
    assert c + [] == c;
  }

  lemma SoftLineIsClean(c: bytes)
    requires IsTokens(c)
    ensures IsCleanLine(c + [EQUALS] + CRLF)
  {
    DecodeSoftLine(c);
    TrimRightIs(c + [EQUALS], CRLF);
    assert (c + [EQUALS] + CRLF)[|c| + 1..] == CRLF;
    TokensAreClean(c, []);
    assert c + [] == c;
  }

  lemma EncodedLineIsClean(line: bytes)
    requires IsEncodedLine(line)
    ensures IsCleanLine(line)
  {
    var c := line[..|line| - 2];
    assert line == c + CRLF;
    if IsHardContent(c) {
      HardLineIsClean(c);
    } else {
      assert c == c[..|c| - 1] + [EQUALS];
      SoftLineIsClean(c[..|c| - 1]);
    }
  }

  lemma CleanLineThenText(line: bytes, rest: bytes)
    requires IsEncodedLine(line) && IsCleanText(rest)
    ensures IsCleanText(line + rest)
  {
    EncodedLineIsLine(line, rest);
    EncodedLineIsClean(line);
  }

  lemma {:induction false} EncodedLinesAreClean(a: bytes, b: bytes)
    requires IsEncodedLines(a) && IsCleanText(b)
    ensures IsCleanText(a + b)
    decreases |a|
  {
    if a == [] {
      assert a + b == b;
    } else {
      var line, rest := a[..LineLength(a)], a[LineLength(a)..];
      assert a == line + rest;
      EncodedLinesAreClean(rest, b);
      assert a + b == line + (rest + b) by { Assoc(line, rest, b); }
      CleanLineThenText(line, rest + b);
    }
  }

  lemma LastLineIsClean(c: bytes)
    requires IsHardContent(c)
    ensures IsCleanText(c)
  {
    LastContentIsClean(c);
    TokensHaveNoLF(c);
    assert c[..|c|] == c && c[|c|..] == [];
  }

  lemma {:induction false} EncodedTextIsClean(t: bytes)
    requires IsEncodedText(t)
    ensures IsCleanText(t) && DecodeStrict(t) == DecodeAll(t)
  {
    var k :| 0 <= k <= |t| && IsEncodedLines(t[..k]) && IsHardContent(t[k..]);
    PartsAreClean(t[..k], t[k..], t);
    StrictIsPrefix(t);
  }

  lemma PartsAreClean(a: bytes, b: bytes, t: bytes)
    requires IsEncodedLines(a) && IsHardContent(b) && t == a + b
    ensures IsCleanText(t)
  {
    LastLineIsClean(b);
    EncodedLinesAreClean(a, b);
  }

  /** The strict reader finds nothing wrong with the writer's output, and so delivers all of it. */
  lemma StrictReadsEncoded(p: bytes, binary: bool)
    ensures IsCleanText(Encoded(p, binary))
    ensures DecodeStrict(Encoded(p, binary)) == DecodeAll(Encoded(p, binary))
  {
    EncodedDecodes(p, binary);
    EncodedTextIsClean(Encoded(p, binary));
  }
}
