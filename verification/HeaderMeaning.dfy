/** What a header says that is made of plain text and encoded-words from any writer. */
module HeaderMeaning {
  import opened Bytes
  import opened Runes
  import Base64
  import opened EncodedWord

  /** Text and the word behind it, whose encoding is named by a letter of either case. */
  datatype Item = Item(text: bytes, e: Encoding, letter: byte, charset: bytes, w: bytes)

  predicate IsItem(i: Item) {
    && HasNoOpen(i.text) && Convert(i.charset, i.w).Some?
    && if i.e == B then i.letter == 66 || i.letter == 98 else i.letter == 81 || i.letter == 113
  }

  predicate AreItems(items: seq<Item>) {
    forall k :: 0 <= k < |items| ==> IsItem(items[k])
  }

  function WordText(i: Item): bytes {
    OPEN + i.charset + [QUESTION, i.letter, QUESTION] + Content(i.e, i.w) + CLOSE
  }

  function HeaderText(items: seq<Item>, end: bytes): bytes {
    if items == [] then end else items[0].text + (WordText(items[0]) + HeaderText(items[1..], end))
  }

  /** White space that only separates two words. */
  predicate IsSeparator(x: bytes) {
    forall k :: 0 <= k < |x| ==> x[k] == SPACE || x[k] == TAB || x[k] == LF || x[k] == CR
  }

  /** Text between two words is kept if it is more than a separator; all other text is kept. */
  function HeaderMeant(items: seq<Item>, end: bytes, betweenWords: bool): bytes
    requires AreItems(items)
  {
    if items == [] then end
    else
      var i := items[0];
      (if betweenWords && IsSeparator(i.text) then [] else i.text)
      + (Convert(i.charset, i.w).value + HeaderMeant(items[1..], end, true))
  }

  lemma KnownHasNoQuestion(charset: bytes, w: bytes)
    requires Convert(charset, w).Some?
    ensures forall k :: 0 <= k < |charset| ==> charset[k] != QUESTION
  {
    assert forall k :: 0 <= k < |charset| ==> LowerByte(charset[k]) == Lower(charset)[k];
    assert QUESTION !in UTF8_NAME && QUESTION !in LATIN1_NAME && QUESTION !in ASCII_NAME;
    assert forall k :: 0 <= k < |charset| ==> Lower(charset)[k] in Lower(charset);
  }

  lemma LetterDecodes(i: Item)
    requires IsItem(i)
    ensures DecodeContent(i.letter, Content(i.e, i.w)) == Some(i.w)
    ensures forall k :: 0 <= k < |Content(i.e, i.w)| ==> Content(i.e, i.w)[k] != QUESTION
  {
    ContentRoundTrip(i.e, i.w);
  }

  lemma WordTextIsFields(i: Item, tail: bytes)
    ensures WordText(i) + tail == OPEN + Fields(i.charset, i.letter, Content(i.e, i.w), tail)
  {
  }

  lemma ItemIsFound(i: Item, tail: bytes)
    requires IsItem(i)
    ensures var header := i.text + (WordText(i) + tail);
            && FindCandidate(header)
               == Some(Candidate(|i.text|, i.charset, i.letter, Content(i.e, i.w), |i.text| + |WordText(i)|))
            && header[..|i.text|] == i.text && header[|i.text| + |WordText(i)|..] == tail
  {
    KnownHasNoQuestion(i.charset, i.w);
    LetterDecodes(i);
    WordTextIsFields(i, tail);
    FieldsFoundBehind(i.text + (WordText(i) + tail), i.text, tail,
                      Candidate(|i.text|, i.charset, i.letter, Content(i.e, i.w), |i.text| + |WordText(i)|));
    EndOfWord(i.text, WordText(i), tail);
  }

  lemma SeparatorIsWhite(x: bytes)
    ensures HasNonWhitespace(x) <==> !IsSeparator(x)
  {
  }

  lemma ItemIsDecoded(i: Item, tail: bytes, betweenWords: bool)
    requires IsItem(i)
    ensures DecodeFrom(i.text + (WordText(i) + tail), betweenWords)
            == AppendTo(if betweenWords && IsSeparator(i.text) then [] else i.text,
                        AppendTo(Convert(i.charset, i.w).value, DecodeFrom(tail, true)))
  {
    var text := Convert(i.charset, i.w).value;
    var kept := if betweenWords && IsSeparator(i.text) then [] else i.text;
    ItemIsFound(i, tail);
    LetterDecodes(i);
    SeparatorIsWhite(i.text);
    DecodedStep(i.text + (WordText(i) + tail), betweenWords,
                Candidate(|i.text|, i.charset, i.letter, Content(i.e, i.w), |i.text| + |WordText(i)|),
                i.text, text, tail);
    AppendTwice(kept, text, DecodeFrom(tail, true));
  }

  lemma EndIsKept(end: bytes, betweenWords: bool)
    requires HasNoOpen(end)
    ensures DecodeFrom(end, betweenWords) == Some(end)
  {
    IndexIsFirst(end, OPEN);
  }

  lemma {:induction false} ItemsAreDecoded(items: seq<Item>, end: bytes, betweenWords: bool)
    requires AreItems(items) && HasNoOpen(end)
    ensures DecodeFrom(HeaderText(items, end), betweenWords) == Some(HeaderMeant(items, end, betweenWords))
    decreases |items|
  {
    if items == [] {
      EndIsKept(end, betweenWords);
    } else {
      ItemIsDecoded(items[0], HeaderText(items[1..], end), betweenWords);
      ItemsAreDecoded(items[1..], end, true);
    }
  }

  /** Whatever plain text stands between, in front of and behind the words, it is kept, but for white
      space that only separates two words. */
  lemma HeaderIsDecoded(items: seq<Item>, end: bytes)
    requires AreItems(items) && HasNoOpen(end)
    ensures DecodeHeader(HeaderText(items, end)) == Some(HeaderMeant(items, end, false))
  {
    if items == [] {
      IndexIsFirst(end, OPEN);
    } else {
      var i := items[0];
      var tail := HeaderText(items[1..], end);
      var front, rest := i.text, WordText(i) + tail;
      WordTextIsFields(i, tail);
      StartFound(front, Fields(i.charset, i.letter, Content(i.e, i.w), tail));
      assert (front + rest)[..|front|] == front && (front + rest)[|front|..] == rest;
      FirstIsDecoded(items, end);
    }
  }

  lemma FirstIsDecoded(items: seq<Item>, end: bytes)
    requires AreItems(items) && HasNoOpen(end) && items != []
    ensures AppendTo(items[0].text, DecodeFrom(WordText(items[0]) + HeaderText(items[1..], end), false))
            == Some(HeaderMeant(items, end, false))
  {
    var i, tail := items[0], HeaderText(items[1..], end);
    assert HasNoOpen([]);
    assert [] + (WordText(i) + tail) == WordText(i) + tail;
    ItemIsDecoded(i.(text := []), tail, false);
    AppendNothing(AppendTo(Convert(i.charset, i.w).value, DecodeFrom(tail, true)));
    ItemsAreDecoded(items[1..], end, true);
  }

  /** A word whose charset is not known makes the whole header fail. */
  lemma UnknownCharsetFails(text: bytes, charset: bytes, letter: byte, e: Encoding, w: bytes, tail: bytes,
                            betweenWords: bool)
    requires HasNoOpen(text) && forall k :: 0 <= k < |charset| ==> charset[k] != QUESTION
    requires Lower(charset) != UTF8_NAME && Lower(charset) != LATIN1_NAME && Lower(charset) != ASCII_NAME
    requires if e == B then letter == 66 || letter == 98 else letter == 81 || letter == 113
    ensures DecodeFrom(text + (OPEN + Fields(charset, letter, Content(e, w), tail)), betweenWords) == None
  {
    ContentRoundTrip(e, w);
    FieldsFoundBehind(text + (OPEN + Fields(charset, letter, Content(e, w), tail)), text, tail,
                      Candidate(|text|, charset, letter, Content(e, w), |text| + |charset| + |Content(e, w)| + 7));
  }

  // ---------- charsets ----------

  /** A text of ISO-8859-1 becomes the characters whose codes are its bytes. */
  lemma {:induction false} Latin1IsConverted(s: bytes)
    ensures IsUtf8(Latin1ToUtf8(s))
    ensures s != [] ==>
              var u := Latin1ToUtf8(s);
              CodePoint(u) == s[0] && u[RuneLen(u)..] == Latin1ToUtf8(s[1..])
  {
    if s != [] {
      Latin1IsConverted(s[1..]);
      var head := if s[0] < 0x80 then [s[0]] else [0xC0 + s[0] / 64, 0x80 + s[0] % 64];
      assert Latin1ToUtf8(s) == head + Latin1ToUtf8(s[1..]);
      assert Latin1ToUtf8(s)[|head|..] == Latin1ToUtf8(s[1..]);
    }
  }

  /** A text that claims to be US-ASCII has its other bytes replaced by U+FFFD. */
  lemma {:induction false} AsciiIsConverted(s: bytes)
    ensures IsUtf8(AsciiToUtf8(s))
    ensures s != [] ==>
              var u := AsciiToUtf8(s);
              CodePoint(u) == (if s[0] < 0x80 then s[0] else 0xFFFD) && u[RuneLen(u)..] == AsciiToUtf8(s[1..])
  {
    if s != [] {
      AsciiIsConverted(s[1..]);
      var head := if s[0] < 0x80 then [s[0]] else [0xEF, 0xBF, 0xBD];
      assert AsciiToUtf8(s) == head + AsciiToUtf8(s[1..]);
      assert AsciiToUtf8(s)[|head|..] == AsciiToUtf8(s[1..]);
    }
  }

  // ---------- what the encoder writes ----------

  predicate IsWordText(t: bytes) {
    forall k :: 0 <= k < |t| ==> 33 <= t[k] <= 126 && t[k] != QUESTION
  }

  lemma {:induction false} QTextIsPrintable(s: bytes)
    ensures IsWordText(QEncode(s))
  {
    if s != [] {
      QTextIsPrintable(s[1..]);
      assert forall k :: 0 <= k < |QByte(s[0])| ==> 33 <= QByte(s[0])[k] <= 126 && QByte(s[0])[k] != QUESTION;
    }
  }

  lemma {:induction false} Base64TextIsPrintable(s: bytes)
    ensures IsWordText(Base64.Encode(s))
    decreases |s|
  {
    if |s| >= 3 {
      Base64TextIsPrintable(s[3..]);
    }
  }

  /** The text of a word holds no space, no question mark and nothing unprintable; a space is written
      as an underscore. */
  lemma WordTextIsPrintable(e: Encoding, w: bytes)
    ensures IsWordText(Content(e, w)) && QEncode([SPACE]) == [UNDERSCORE]
  {
    QTextIsPrintable(w);
    Base64TextIsPrintable(w);
    assert QEncode([SPACE]) == QByte(SPACE) + QEncode([]) == [UNDERSCORE];
  }

  /** The words of the encoder are named by lower-case letters. */
  lemma WordIsItem(e: Encoding, charset: bytes, w: bytes)
    ensures Word(e, charset, w) == WordText(Item([], e, if e == B then 98 else 113, charset, w))
  {
  }

  /** Printable ASCII and tabs are sent as they are, and everything else starts with a word. */
  lemma OnlySpecialTextIsEncoded(e: Encoding, charset: bytes, s: bytes)
    ensures (forall k :: 0 <= k < |s| ==> 32 <= s[k] <= 126 || s[k] == 9) ==> Encode(e, charset, s) == s
    ensures !(forall k :: 0 <= k < |s| ==> 32 <= s[k] <= 126 || s[k] == 9) ==> OPEN <= Encode(e, charset, s)
  {
    if NeedsEncoding(s) {
      JoinedStartsWithOpen(e, charset, Split(e, [], s));
    }
  }

  // ---------- Q text from other writers ----------

  /** A character that stands for itself, an underscore, or an escape. */
  datatype QItem = QLiteral(b: byte) | QSpace | QEscaped(b: byte, hi: byte, lo: byte)

  predicate IsQItem(i: QItem) {
    match i
    case QLiteral(b) => (32 <= b <= 126 && b != EQUALS && b != UNDERSCORE) || b == TAB || b == CR || b == LF
    case QSpace => true
    case QEscaped(b, hi, lo) => AreDigitsOf(hi, lo, b)
  }

  function QItemWritten(i: QItem): bytes {
    match i
    case QLiteral(b) => [b]
    case QSpace => [UNDERSCORE]
    case QEscaped(_, hi, lo) => [EQUALS, hi, lo]
  }

  function QItemMeant(i: QItem): byte {
    if i.QSpace? then SPACE else i.b
  }

  function QWritten(items: seq<QItem>): bytes {
    if items == [] then [] else QItemWritten(items[0]) + QWritten(items[1..])
  }

  function QMeant(items: seq<QItem>): bytes {
    if items == [] then [] else [QItemMeant(items[0])] + QMeant(items[1..])
  }

  lemma QItemDecodes(i: QItem, tail: bytes)
    requires IsQItem(i)
    ensures QDecode(QItemWritten(i) + tail) == Prepend(QItemMeant(i), QDecode(tail))
  {
    var s := QItemWritten(i) + tail;
    if i.QEscaped? {
      DigitsOfByte(i.hi, i.lo, i.b);
      assert s[3..] == tail;
    } else {
      assert s[1..] == tail;
    }
  }

  /** Q text from any writer decodes to what its items mean. */
  lemma {:induction false} QItemsDecode(items: seq<QItem>, tail: bytes)
    requires forall k :: 0 <= k < |items| ==> IsQItem(items[k])
    ensures QDecode(QWritten(items) + tail) == AppendTo(QMeant(items), QDecode(tail))
  {
    if items == [] {
      assert [] + tail == tail;
      AppendNothing(QDecode(tail));
    } else {
      var more := QWritten(items[1..]);
      Assoc(QItemWritten(items[0]), more, tail);
      QItemDecodes(items[0], more + tail);
      QItemsDecode(items[1..], tail);
      AppendTwice([QItemMeant(items[0])], QMeant(items[1..]), QDecode(tail));
    }
  }

  /** A word with any other byte in it, or with an `=` that starts no escape, is refused. */
  lemma BadQTextIsRefused(items: seq<QItem>, bad: bytes)
    requires (forall k :: 0 <= k < |items| ==> IsQItem(items[k])) && bad != []
    requires if bad[0] == EQUALS
             then |bad| < 3 || (forall v :: 0 <= v < 16 ==> !IsDigitOf(bad[1], v))
                  || (forall v :: 0 <= v < 16 ==> !IsDigitOf(bad[2], v))
             else (bad[0] < 32 || bad[0] > 126) && bad[0] != TAB && bad[0] != CR && bad[0] != LF
    ensures QDecode(QWritten(items) + bad) == None
  {
    QItemsDecode(items, bad);
    if |bad| >= 3 {
      DigitsAreRead(bad[1]);
      DigitsAreRead(bad[2]);
    }
  }
}
