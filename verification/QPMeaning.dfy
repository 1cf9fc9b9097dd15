/** What the quoted-printable reader makes of text from any writer, in terms of how it was written:
    any mix of line ends, escapes in either case, blanks at line ends, and mistakes. */
module QPMeaning {
  import opened Bytes
  import opened QPText
  import opened QPReader

  // ---------- how text is written ----------

  /** A printable byte; an escape with its two digits; a byte that should have been escaped; and an `=`
      that starts no escape, with the byte behind it. */
  datatype Item = Literal(b: byte) | Escaped(b: byte, hi: byte, lo: byte) | Unescaped(b: byte) | Stray(b: byte)

  predicate IsItem(i: Item) {
    match i
    case Literal(b) => (33 <= b <= 126 && b != EQUALS) || b == SPACE || b == TAB
    case Escaped(b, hi, lo) => AreDigitsOf(hi, lo, b)
    case Unescaped(b) => (b < 32 || b > 126) && b != TAB && b != CR && b != LF
    case Stray(b) => 33 <= b <= 126 && b != EQUALS && forall v :: 0 <= v < 16 ==> !IsDigitOf(b, v)
  }

  function Written(i: Item): bytes {
    match i
    case Literal(b) => [b]
    case Escaped(_, hi, lo) => [EQUALS, hi, lo]
    case Unescaped(b) => [b]
    case Stray(b) => [EQUALS, b]
  }

  /** What an item stands for. */
  function Meant(i: Item): bytes {
    match i case Stray(b) => [EQUALS, b] case _ => [i.b]
  }

  predicate IsMistake(i: Item) {
    i.Unescaped? || i.Stray?
  }

  predicate IsBlankItem(i: Item) {
    i == Literal(SPACE) || i == Literal(TAB)
  }

  predicate AreItems(items: seq<Item>) {
    forall k :: 0 <= k < |items| ==> IsItem(items[k])
  }

  predicate HasMistake(items: seq<Item>) {
    exists k :: 0 <= k < |items| && IsMistake(items[k])
  }

  function AllWritten(items: seq<Item>): bytes {
    if items == [] then [] else Written(items[0]) + AllWritten(items[1..])
  }

  function AllMeant(items: seq<Item>): bytes {
    if items == [] then [] else Meant(items[0]) + AllMeant(items[1..])
  }

  /** A line: its items, whether an `=` breaks it softly, blanks at its end, and its line end. */
  datatype Line = Line(items: seq<Item>, soft: bool, blanks: bytes, end: bytes)

  predicate IsBlankText(s: bytes) {
    forall k :: 0 <= k < |s| ==> s[k] == SPACE || s[k] == TAB
  }

  /** Blanks in front of a line end are not items, unless an `=` stands behind them. */
  predicate IsLine(l: Line) {
    && AreItems(l.items) && IsBlankText(l.blanks)
    && (l.soft || l.items == [] || !IsBlankItem(l.items[|l.items| - 1]))
  }

  function LineWritten(l: Line): bytes {
    AllWritten(l.items) + ((if l.soft then [EQUALS] else []) + (l.blanks + l.end))
  }

  /** A soft break joins a line to the next one; blanks at the end are dropped; the line end stays. */
  function LineMeant(l: Line): bytes {
    AllMeant(l.items) + if l.soft then [] else l.end
  }

  /** Only an `=` directly in front of a line end is a proper soft break. */
  predicate LineHasMistake(l: Line) {
    HasMistake(l.items) || (l.soft && (l.blanks != [] || l.end == []))
  }

  /** Lines that end in LF or CRLF, and a last one without a line end. */
  predicate AreLines(ls: seq<Line>) {
    && (forall k :: 0 <= k < |ls| ==> IsLine(ls[k]))
    && (forall k :: 0 <= k < |ls| - 1 ==> ls[k].end == [LF] || ls[k].end == CRLF)
    && (ls != [] ==> ls[|ls| - 1].end == [])
  }

  function TextWritten(ls: seq<Line>): bytes {
    if ls == [] then [] else LineWritten(ls[0]) + TextWritten(ls[1..])
  }

  function TextMeant(ls: seq<Line>): bytes {
    if ls == [] then [] else LineMeant(ls[0]) + TextMeant(ls[1..])
  }

  predicate TextHasMistake(ls: seq<Line>) {
    exists k :: 0 <= k < |ls| && LineHasMistake(ls[k])
  }

  // ---------- items ----------

  lemma MistakeInFront(items: seq<Item>)
    requires items != []
    ensures HasMistake(items) <==> IsMistake(items[0]) || HasMistake(items[1..])
  {
    assert forall k :: 0 < k < |items| ==> items[k] == items[1..][k - 1];
    if HasMistake(items[1..]) {
      var k :| 0 <= k < |items[1..]| && IsMistake(items[1..][k]);
      assert IsMistake(items[k + 1]);
    }
  }

  lemma ItemIsDecoded(i: Item, tail: bytes)
    requires IsItem(i)
    ensures DecodeBytes(Written(i) + tail) == Meant(i) + DecodeBytes(tail)
    ensures IsClean(Written(i) + tail) <==> !IsMistake(i) && IsClean(tail)
  {
    var s := Written(i) + tail;
    match i
    case Escaped(b, hi, lo) =>
      DigitsOfByte(hi, lo, b);
      assert s[3..] == tail;
    case Stray(b) =>
      DigitsAreRead(b);
      assert s[1] == b && s[1..] == [b] + tail && s[1..][1..] == tail;
      assert DecodeBytes(s) == [EQUALS] + ([b] + DecodeBytes(tail));
    case _ =>
      assert s[1..] == tail;
  }

  lemma {:induction false} ItemsAreDecoded(items: seq<Item>, tail: bytes)
    requires AreItems(items)
    ensures DecodeBytes(AllWritten(items) + tail) == AllMeant(items) + DecodeBytes(tail)
    ensures IsClean(AllWritten(items) + tail) <==> !HasMistake(items) && IsClean(tail)
  {
    if items == [] {
      assert [] + tail == tail && [] + DecodeBytes(tail) == DecodeBytes(tail);
    } else {
      var more := AllWritten(items[1..]);
      Assoc(Written(items[0]), more, tail);
      ItemIsDecoded(items[0], more + tail);
      ItemsAreDecoded(items[1..], tail);
      Assoc(Meant(items[0]), AllMeant(items[1..]), DecodeBytes(tail));
      MistakeInFront(items);
    }
  }

  /** Items hold no newline, and end neither in `=` nor, unless the last one is a blank, in a blank. */
  lemma {:induction false} ItemsAreOnLine(items: seq<Item>)
    requires AreItems(items)
    ensures forall k :: 0 <= k < |AllWritten(items)| ==> AllWritten(items)[k] != LF && AllWritten(items)[k] != CR
    ensures items != [] ==> AllWritten(items) != [] && AllWritten(items)[|AllWritten(items)| - 1] != EQUALS
    ensures items != [] && !IsBlankItem(items[|items| - 1]) ==> !IsDiscarded(AllWritten(items)[|AllWritten(items)| - 1])
  {
    if items != [] {
      var w, more := Written(items[0]), AllWritten(items[1..]);
      ItemsAreOnLine(items[1..]);
      ItemEnds(items[0]);
      assert AllWritten(items) == w + more;
      assert items[1..] != [] ==> items[1..][|items[1..]| - 1] == items[|items| - 1];
    }
  }

  lemma ItemEnds(i: Item)
    requires IsItem(i)
    ensures var w := Written(i);
            && w != [] && w[|w| - 1] != EQUALS && (!IsBlankItem(i) ==> !IsDiscarded(w[|w| - 1]))
            && forall k :: 0 <= k < |w| ==> w[k] != LF && w[k] != CR
  {
    if i.Escaped? {
      DigitsAreRead(i.hi);
      DigitsAreRead(i.lo);
    }
  }

  // ---------- lines ----------

  /** What the reader goes on with of a line. */
  lemma LineContent(l: Line)
    requires IsLine(l) && (l.end == [] || l.end == [LF] || l.end == CRLF)
    ensures Content(LineWritten(l)) == AllWritten(l.items) + if l.soft then [] else l.end
    ensures HasBadSoftBreak(LineWritten(l)) <==> l.soft && (l.blanks != [] || l.end == [])
  {
    var w := AllWritten(l.items);
    ItemsAreOnLine(l.items);
    if l.soft {
      assert LineWritten(l) == (w + [EQUALS]) + (l.blanks + l.end);
      SoftContent(w, l.blanks, l.end);
      assert w + [] == w;
    } else {
      assert [] + (l.blanks + l.end) == l.blanks + l.end;
      HardContent(w, l.blanks, l.end);
    }
  }

  lemma SoftContent(w: bytes, blanks: bytes, end: bytes)
    requires IsBlankText(blanks) && (end == [] || end == [LF] || end == CRLF)
    ensures var line := (w + [EQUALS]) + (blanks + end);
            && Content(line) == w && (HasBadSoftBreak(line) <==> blanks != [] || end == [])
  {
    var t := w + [EQUALS];
    var line := t + (blanks + end);
    TrimRightIs(t, blanks + end);
    LastByte(t);
    assert t[..|t| - 1] == w && line[|t|..] == blanks + end;
    assert blanks == [] ==> blanks + end == end;
    assert blanks != [] ==> (blanks + end)[0] == blanks[0];
  }

  lemma HardContent(w: bytes, blanks: bytes, end: bytes)
    requires IsBlankText(blanks) && (end == [] || end == [LF] || end == CRLF)
    requires forall k :: 0 <= k < |w| ==> w[k] != LF && w[k] != CR
    requires w == [] || (!IsDiscarded(w[|w| - 1]) && w[|w| - 1] != EQUALS)
    ensures var line := w + (blanks + end); Content(line) == w + end && !HasBadSoftBreak(line)
  {
    var line := w + (blanks + end);
    TrimRightIs(w, blanks + end);
    LastByte(w);
    Assoc(w, blanks, end);
    LineEnd(line, w + blanks, end);
    assert w + [] == w;
  }

  lemma LastByte(t: bytes)
    ensures EndsIn(t, [EQUALS]) <==> t != [] && t[|t| - 1] == EQUALS
  {
    assert t != [] ==> t[|t| - 1..] == [t[|t| - 1]];
  }

  /** The line end is told from what stands in front of it. */
  lemma LineEnd(line: bytes, t: bytes, end: bytes)
    requires line == t + end && forall k :: 0 <= k < |t| ==> t[k] != CR && t[k] != LF
    requires end == [] || end == [LF] || end == CRLF
    ensures EndsIn(line, CRLF) <==> end == CRLF
    ensures EndsIn(line, [LF]) <==> end != []
  {
    assert line[|t|..] == end;
    if |line| >= 1 {
      assert line[|line| - 1..] == [line[|line| - 1]];
    }
    if |line| >= 2 {
      assert line[|line| - 2..] == [line[|line| - 2], line[|line| - 1]];
    }
  }

  /** One line decodes to what it means, and is clean if it has no mistake. */
  lemma LineIsDecoded(l: Line)
    requires IsLine(l) && (l.end == [] || l.end == [LF] || l.end == CRLF)
    ensures DecodeBytes(Content(LineWritten(l))) == LineMeant(l)
    ensures IsCleanLine(LineWritten(l)) <==> !LineHasMistake(l)
  {
    var end := if l.soft then [] else l.end;
    LineContent(l);
    ItemsAreDecoded(l.items, end);
    NewlinesStay(end);
  }

  lemma NewlinesStay(end: bytes)
    requires end == [] || end == [LF] || end == CRLF
    ensures DecodeBytes(end) == end && IsClean(end)
  {
    assert [LF][1..] == [] && CRLF[1..] == [LF];
    assert DecodeBytes([LF]) == [LF] + DecodeBytes([]);
  }

  // ---------- texts ----------

  lemma LineComesFirst(l: Line, rest: bytes)
    requires IsLine(l) && if l.end == [] then rest == [] else l.end == [LF] || l.end == CRLF
    ensures var s := LineWritten(l) + rest;
            && LineLength(s) == |LineWritten(l)|
            && s[..|LineWritten(l)|] == LineWritten(l) && s[|LineWritten(l)|..] == rest
  {
    var front := AllWritten(l.items) + ((if l.soft then [EQUALS] else []) + l.blanks);
    ItemsAreOnLine(l.items);
    assert LineWritten(l) == front + l.end;
    FirstLine(front, l.end, rest);
  }

  lemma FirstLine(front: bytes, end: bytes, rest: bytes)
    requires forall k :: 0 <= k < |front| ==> front[k] != LF
    requires if end == [] then rest == [] else end == [LF] || end == CRLF
    ensures var line := front + end;
            LineLength(line + rest) == |line| && (line + rest)[..|line|] == line && (line + rest)[|line|..] == rest
  {
    var line := front + end;
    if end == [] {
      assert line + rest == front;
      assert IndexByte(line + rest, LF) == -1;
    } else {
      IndexByteIs(line + rest, LF, |line| - 1);
    }
  }

  lemma MistakeInText(ls: seq<Line>)
    requires ls != []
    ensures TextHasMistake(ls) <==> LineHasMistake(ls[0]) || TextHasMistake(ls[1..])
  {
    assert forall k :: 0 < k < |ls| ==> ls[k] == ls[1..][k - 1];
    if TextHasMistake(ls[1..]) {
      var k :| 0 <= k < |ls[1..]| && LineHasMistake(ls[1..][k]);
      assert LineHasMistake(ls[k + 1]);
    }
  }

  lemma LinesBehind(ls: seq<Line>)
    requires AreLines(ls) && ls != []
    ensures AreLines(ls[1..]) && IsLine(ls[0])
    ensures if |ls| == 1 then ls[0].end == [] && ls[1..] == [] else ls[0].end == [LF] || ls[0].end == CRLF
  {
    assert forall k :: 0 < k < |ls| ==> ls[k] == ls[1..][k - 1];
  }

  lemma LineThenText(line: bytes, rest: bytes)
    requires line != [] && LineLength(line + rest) == |line|
    requires (line + rest)[..|line|] == line && (line + rest)[|line|..] == rest
    ensures DecodeAll(line + rest) == DecodeBytes(Content(line)) + DecodeAll(rest)
    ensures IsCleanText(line + rest) <==> IsCleanLine(line) && IsCleanText(rest)
  {
  }

  /** Whatever mix of lines a text is made of, it decodes to what its lines mean; and a strict reader
      finds something wrong if and only if there is a mistake in it. */
  lemma {:induction false} TextIsDecoded(ls: seq<Line>)
    requires AreLines(ls)
    ensures DecodeAll(TextWritten(ls)) == TextMeant(ls)
    ensures IsCleanText(TextWritten(ls)) <==> !TextHasMistake(ls)
  {
    if ls != [] {
      var line, rest := LineWritten(ls[0]), TextWritten(ls[1..]);
      LinesBehind(ls);
      TextIsDecoded(ls[1..]);
      MistakeInText(ls);
      LineIsDecoded(ls[0]);
      LineComesFirst(ls[0], rest);
      if line == [] {
        assert line + rest == rest;
        EmptyLineMeansNothing(ls[0]);
      } else {
        LineThenText(line, rest);
      }
    }
  }

  lemma EmptyLineMeansNothing(l: Line)
    requires IsLine(l) && LineWritten(l) == []
    ensures LineMeant(l) == [] && !LineHasMistake(l)
  {
    ItemsAreOnLine(l.items);
  }
}
