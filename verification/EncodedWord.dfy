/** Encoded-words (RFC 2047): how a text is cut into words, what a word says, and what a header
    made of words and plain text says. */
module EncodedWord {
  import opened Bytes
  import opened Runes
  import Base64
  import opened Streams

  datatype Encoding = B | Q

  const MAX_CONTENT: nat := 65
  const MAX_BASE64: nat := 48
  const OPEN: bytes := [EQUALS, QUESTION]
  const CLOSE: bytes := [QUESTION, EQUALS]

  // ---------- the Q encoding ----------

  /** A byte written as itself in a Q-encoded word. */
  predicate IsPlainQ(b: byte) {
    33 <= b <= TILDE && b != EQUALS && b != QUESTION && b != UNDERSCORE
  }

  function QByte(b: byte): (q: bytes)
    ensures |q| == 1 || |q| == 3
  {
    if b == SPACE then [UNDERSCORE] else if IsPlainQ(b) then [b] else Escape(b)
  }

  function QEncode(s: bytes): bytes {
    if s == [] then [] else QByte(s[0]) + QEncode(s[1..])
  }

  predicate IsQText(c: byte) {
    SPACE <= c <= TILDE || c == LF || c == CR || c == TAB
  }

  /** `qDecode`: None stands for an invalid word. */
  function QDecode(t: bytes): Option<bytes> {
    if t == [] then Some([])
    else if t[0] == EQUALS then
      if |t| < 3 then None
      else
        match ReadHexByte(t[1], t[2])
        case None => None
        case Some(v) => Prepend(v, QDecode(t[3..]))
    else if t[0] == UNDERSCORE then Prepend(SPACE, QDecode(t[1..]))
    else if IsQText(t[0]) then Prepend(t[0], QDecode(t[1..]))
    else None
  }

  lemma QByteDecodes(b: byte, t: bytes)
    ensures QDecode(QByte(b) + t) == Prepend(b, QDecode(t))
    ensures QUESTION !in QByte(b)
  {
    var n := |QByte(b)|;
    assert (QByte(b) + t)[n..] == t;
  }

  lemma {:induction false} QRoundTrip(s: bytes)
    ensures QDecode(QEncode(s)) == Some(s) && QUESTION !in QEncode(s)
  {
    if s != [] {
      QRoundTrip(s[1..]);
      QByteDecodes(s[0], QEncode(s[1..]));
      assert s == [s[0]] + s[1..];
    }
  }

  lemma {:induction false} QEncodeConcat(s: bytes, t: bytes)
    ensures QEncode(s + t) == QEncode(s) + QEncode(t)
  {
    if s == [] {
      assert s + t == t;
    } else {
      assert (s + t)[1..] == s[1..] + t;
      QEncodeConcat(s[1..], t);
      Assoc(QByte(s[0]), QEncode(s[1..]), QEncode(t));
    }
  }

  // ---------- one word ----------

  const LATIN1_NAME: bytes := [105, 115, 111, 45, 56, 56, 53, 57, 45, 49]

  /** `isUTF8`: the name UTF-8 in any case. */
  predicate IsUtf8Name(charset: bytes) {
    Lower(charset) == UTF8_NAME
  }

  function EncodingByte(e: Encoding): byte {
    if e == B then 98 else 113
  }

  function Content(e: Encoding, w: bytes): bytes {
    if e == B then Base64.Encode(w) else QEncode(w)
  }

  function OpenWord(e: Encoding, charset: bytes): bytes {
    OPEN + charset + [QUESTION, EncodingByte(e), QUESTION]
  }

  function Word(e: Encoding, charset: bytes, w: bytes): bytes {
    OpenWord(e, charset) + Content(e, w) + CLOSE
  }

  /** What `decode` makes of a word's encoding and text. */
  function DecodeContent(encoding: byte, text: bytes): Option<bytes> {
    if encoding == 66 || encoding == 98 then Base64.Decode(text)
    else if encoding == 81 || encoding == 113 then QDecode(text)
    else None
  }

  lemma ContentRoundTrip(e: Encoding, w: bytes)
    ensures DecodeContent(EncodingByte(e), Content(e, w)) == Some(w)
    ensures forall k :: 0 <= k < |Content(e, w)| ==> Content(e, w)[k] != QUESTION
  {
    if e == B {
      Base64.RoundTrip(w);
    } else {
      QRoundTrip(w);
    }
  }

  /** `convert` without a charset reader; None stands for an unhandled charset. */
  function Convert(charset: bytes, content: bytes): Option<bytes> {
    var name := Lower(charset);
    if name == UTF8_NAME then Some(content)
    else if name == LATIN1_NAME then Some(Latin1ToUtf8(content))
    else if name == ASCII_NAME then Some(AsciiToUtf8(content))
    else None
  }

  function Latin1ToUtf8(s: bytes): bytes {
    if s == [] then []
    else (if s[0] < 0x80 then [s[0]] else [0xC0 + s[0] / 64, 0x80 + s[0] % 64]) + Latin1ToUtf8(s[1..])
  }

  function AsciiToUtf8(s: bytes): bytes {
    if s == [] then [] else (if s[0] < 0x80 then [s[0]] else [0xEF, 0xBF, 0xBD]) + AsciiToUtf8(s[1..])
  }

  // ---------- cutting a text into words ----------

  /** `needsEncoding`: some byte is not printable ASCII or a tab. */
  predicate NeedsEncoding(s: bytes) {
    exists k :: 0 <= k < |s| && (s[k] < SPACE || s[k] > TILDE) && s[k] != TAB
  }

  /** The bytes that must stay in one word. */
  function UnitLength(e: Encoding, s: bytes): (n: nat)
    requires s != []
    ensures 1 <= n <= 4 && n <= |s|
  {
    if e == Q && (s[0] == SPACE || IsPlainQ(s[0])) then 1 else RuneLen(s)
  }

  /** The room a word's text takes, in the measure the encoder counts in. */
  function Cost(e: Encoding, w: bytes): nat {
    if e == B then |w| else |QEncode(w)|
  }

  function Limit(e: Encoding): nat {
    if e == B then MAX_BASE64 else MAX_CONTENT
  }

  /** The words of `s`, the first of which already holds `word`: each takes all it has room for. */
  function Split(e: Encoding, word: bytes, s: bytes): (ws: seq<bytes>)
    ensures ws != []
    decreases |s|
  {
    if s == [] then [word]
    else
      var n := UnitLength(e, s);
      if Cost(e, word) + Cost(e, s[..n]) > Limit(e) then [word] + Split(e, s[..n], s[n..])
      else Split(e, word + s[..n], s[n..])
  }

  lemma CostConcat(e: Encoding, w: bytes, u: bytes)
    ensures Cost(e, w + u) == Cost(e, w) + Cost(e, u)
  {
    QEncodeConcat(w, u);
  }

  /** One unit: what the encoder counts for it, and that it fits an empty word. */
  lemma UnitCost(e: Encoding, s: bytes)
    requires s != []
    ensures var n := UnitLength(e, s);
            Cost(e, s[..n]) == (if e == B then n else if s[0] == SPACE || IsPlainQ(s[0]) then 1 else 3 * n) <= Limit(e)
  {
    if e == Q {
      var n := UnitLength(e, s);
      EscapedLength(s[..n]);
    }
  }

  lemma {:induction false} EscapedLength(u: bytes)
    ensures |u| == 1 && (u[0] == SPACE || IsPlainQ(u[0])) ==> |QEncode(u)| == 1
    ensures (forall k :: 0 <= k < |u| ==> u[k] != SPACE && !IsPlainQ(u[k])) ==> |QEncode(u)| == 3 * |u|
  {
    if u != [] {
      EscapedLength(u[1..]);
    }
  }

  predicate AreFit(e: Encoding, ws: seq<bytes>) {
    forall i :: 0 <= i < |ws| ==> ws[i] != [] && Cost(e, ws[i]) <= Limit(e)
  }

  /** Nothing is lost between the words, none is longer than a word may be, and none is empty. */
  lemma {:induction false} SplitIsFit(e: Encoding, word: bytes, s: bytes)
    requires Cost(e, word) <= Limit(e) && (word != [] || s != [])
    ensures var ws := Split(e, word, s); ws != [] && Flatten(ws) == word + s && AreFit(e, ws)
    decreases |s|
  {
    if s == [] {
      assert word + s == word == word + Flatten([]);
    } else {
      var n := UnitLength(e, s);
      var u, rest := s[..n], s[n..];
      UnitCost(e, s);
      CostConcat(e, word, u);
      assert s == u + rest;
      Assoc(word, u, rest);
      if Cost(e, word) + Cost(e, u) > Limit(e) {
        SplitIsFit(e, u, rest);
        FitInFront(e, word, Split(e, u, rest));
      } else {
        SplitIsFit(e, word + u, rest);
      }
    }
  }

  lemma FitInFront(e: Encoding, w: bytes, ws: seq<bytes>)
    requires w != [] && Cost(e, w) <= Limit(e) && AreFit(e, ws)
    ensures AreFit(e, [w] + ws) && Flatten([w] + ws) == w + Flatten(ws)
  {
    assert ([w] + ws)[1..] == ws;
    assert forall i :: 0 < i <= |ws| ==> ([w] + ws)[i] == ws[i - 1];
  }

  /** No character is cut in two: every word of well-formed UTF-8 is well-formed (RFC 2047, section 5). */
  lemma {:induction false} WordsAreUtf8(e: Encoding, word: bytes, s: bytes)
    requires IsUtf8(word) && IsUtf8(s)
    ensures forall i :: 0 <= i < |Split(e, word, s)| ==> IsUtf8(Split(e, word, s)[i])
    decreases |s|
  {
    if s != [] {
      var n := UnitLength(e, s);
      assert n == RuneLen(s);
      FirstRuneIsUtf8(s);
      Utf8Concat(word, s[..n]);
      if Cost(e, word) + Cost(e, s[..n]) > Limit(e) {
        WordsAreUtf8(e, s[..n], s[n..]);
      } else {
        WordsAreUtf8(e, word + s[..n], s[n..]);
      }
    }
  }

  /** The words, separated by single spaces. */
  function JoinWords(e: Encoding, charset: bytes, ws: seq<bytes>): bytes {
    if ws == [] then []
    else if |ws| == 1 then Word(e, charset, ws[0])
    else Word(e, charset, ws[0]) + ([SPACE] + JoinWords(e, charset, ws[1..]))
  }

  /** `Encode`: only UTF-8 is cut into several words. */
  function Encode(e: Encoding, charset: bytes, s: bytes): bytes {
    if !NeedsEncoding(s) then s
    else if IsUtf8Name(charset) then JoinWords(e, charset, Split(e, [], s))
    else Word(e, charset, s)
  }

  /** The bounds on a word: the source counts without the two characters of the encoding, so words
      reach 77 (Q) and 76 (B) characters. */
  lemma WordLength(e: Encoding, charset: bytes, w: bytes)
    requires IsUtf8Name(charset) && Cost(e, w) <= Limit(e)
    ensures |Word(e, charset, w)| <= if e == B then 76 else 77
  {
  }

  /** A run of plain letters, one more of which would not fit, fills a word to its limit. */
  lemma {:induction false} FillWord(word: bytes, s: bytes)
    requires forall k :: 0 <= k < |word| ==> IsPlainQ(word[k])
    requires forall k :: 0 <= k < |s| ==> IsPlainQ(s[k])
    requires |word| + |s| == MAX_CONTENT
    ensures Split(Q, word, s + [1])[0] == word + s
    decreases |s|
  {
    PlainCost(word);
    if s == [] {
      assert word + s == word;
      UnitCost(Q, s + [1]);
    } else {
      assert (s + [1])[1..] == s[1..] + [1];
      PlainUnit(word, s + [1]);
      FillWord(word + [s[0]], s[1..]);
      assert (word + [s[0]]) + s[1..] == word + s;
    }
  }

  lemma PlainUnit(word: bytes, x: bytes)
    requires x != [] && IsPlainQ(x[0]) && Cost(Q, word) < MAX_CONTENT
    ensures Split(Q, word, x) == Split(Q, word + [x[0]], x[1..])
  {
    assert x[..1] == [x[0]];
    UnitCost(Q, x);
  }

  lemma {:induction false} PlainCost(word: bytes)
    requires forall k :: 0 <= k < |word| ==> IsPlainQ(word[k])
    ensures Cost(Q, word) == |word|
  {
    if word != [] {
      PlainCost(word[1..]);
    }
  }

  /** The bound of 77 is reached: 65 plain letters and a control character make a first word longer
      than the 75 characters of section 2 of RFC 2047. */
  lemma WordTooLong(s: bytes)
    requires |s| == MAX_CONTENT && forall k :: 0 <= k < |s| ==> IsPlainQ(s[k])
    ensures NeedsEncoding(s + [1]) && |Word(Q, UTF8_NAME, Split(Q, [], s + [1])[0])| == 77
  {
    assert (s + [1])[|s|] == 1;
    FillWord([], s);
    assert [] + s == s;
    PlainCost(s);
  }

  /** In base64 the bound of 76 is reached by every text of 48 bytes that needs encoding: it fills one
      word. */
  lemma Base64WordTooLong(s: bytes)
    requires |s| == MAX_BASE64 && NeedsEncoding(s)
    ensures Split(B, [], s) == [s] && |Encode(B, UTF8_NAME, s)| == 76
  {
    OneWord(B, s);
    assert JoinWords(B, UTF8_NAME, [s]) == Word(B, UTF8_NAME, s);
  }

  // ---------- the bound of RFC 2047 ----------

  /** The most a word may cost to keep within the 75 characters of section 2 of RFC 2047. */
  function Allowance(e: Encoding): nat {
    if e == B then 45 else 63
  }

  predicate IsWithin75(e: Encoding, charset: bytes, ws: seq<bytes>) {
    forall i :: 0 <= i < |ws| ==> |Word(e, charset, ws[i])| <= 75
  }

  predicate AreAllowed(e: Encoding, ws: seq<bytes>) {
    forall i :: 0 <= i < |ws| ==> Cost(e, ws[i]) <= Allowance(e)
  }

  lemma WordWithin75(e: Encoding, charset: bytes, w: bytes)
    requires IsUtf8Name(charset)
    ensures |Word(e, charset, w)| <= 75 <==> Cost(e, w) <= Allowance(e)
  {
  }

  lemma WordsWithin75(e: Encoding, charset: bytes, ws: seq<bytes>)
    requires IsUtf8Name(charset)
    ensures IsWithin75(e, charset, ws) <==> AreAllowed(e, ws)
  {
    forall i | 0 <= i < |ws|
      ensures |Word(e, charset, ws[i])| <= 75 <==> Cost(e, ws[i]) <= Allowance(e)
    {
      WordWithin75(e, charset, ws[i]);
    }
  }

  /** Text that fits one word is within 75 characters if and only if its payload has at most 63 (Q), or
      it has at most 45 bytes (base64). */
  lemma OneWordWithin75(e: Encoding, charset: bytes, s: bytes)
    requires IsUtf8Name(charset) && Cost(e, s) <= Limit(e)
    ensures Split(e, [], s) == [s]
    ensures IsWithin75(e, charset, Split(e, [], s)) <==> Cost(e, s) <= Allowance(e)
  {
    OneWord(e, s);
    WordsWithin75(e, charset, [s]);
    OnlyAllowed(e, s);
  }

  lemma OneWord(e: Encoding, s: bytes)
    requires Cost(e, s) <= Limit(e)
    ensures Split(e, [], s) == [s]
  {
    assert [] + s == s;
    SplitFits(e, [], s);
  }

  lemma OnlyAllowed(e: Encoding, w: bytes)
    ensures AreAllowed(e, [w]) <==> Cost(e, w) <= Allowance(e)
  {
    assert [w][0] == w;
  }

  lemma {:induction false} SplitFits(e: Encoding, word: bytes, s: bytes)
    requires Cost(e, word + s) <= Limit(e)
    ensures Split(e, word, s) == [word + s]
    decreases |s|
  {
    if s == [] {
      assert word + s == word;
    } else {
      var n := UnitLength(e, s);
      assert s == s[..n] + s[n..];
      Assoc(word, s[..n], s[n..]);
      CostConcat(e, word, s[..n]);
      CostConcat(e, word + s[..n], s[n..]);
      SplitFits(e, word + s[..n], s[n..]);
    }
  }

  /** Where a base64 word ends and another one follows, at most two bytes of room are left. */
  lemma {:induction false} FirstWordIsFull(word: bytes, s: bytes)
    requires |word| <= MAX_BASE64 < |word| + |s| && forall k :: 0 <= k < |s| ==> s[k] < 0xF0
    ensures |Split(B, word, s)[0]| > Allowance(B)
    decreases |s|
  {
    var n := RuneLen(s);
    assert n <= 3;
    if |word| + n <= MAX_BASE64 {
      FirstWordIsFull(word + s[..n], s[n..]);
    }
  }

  /** Base64 text without characters of four bytes is within 75 characters if and only if it has at
      most 45 bytes. */
  lemma Base64Within75(charset: bytes, s: bytes)
    requires IsUtf8Name(charset) && forall k :: 0 <= k < |s| ==> s[k] < 0xF0
    ensures IsWithin75(B, charset, Split(B, [], s)) <==> |s| <= 45
  {
    WordsWithin75(B, charset, Split(B, [], s));
    if |s| <= MAX_BASE64 {
      OneWordWithin75(B, charset, s);
    } else {
      FirstWordIsFull([], s);
    }
  }

  predicate IsAllEscaped(s: bytes) {
    forall k :: 0 <= k < |s| ==> s[k] != SPACE && !IsPlainQ(s[k])
  }

  lemma {:induction false} EscapedWords(word: bytes, s: bytes)
    requires IsAllEscaped(word) && IsAllEscaped(s) && Cost(Q, word) <= Limit(Q)
    ensures AreAllowed(Q, Split(Q, word, s))
    decreases |s|
  {
    EscapedLength(word);
    if s != [] {
      var n := UnitLength(Q, s);
      var u, rest := s[..n], s[n..];
      UnitCost(Q, s);
      CostConcat(Q, word, u);
      EscapedParts(word, s, n);
      if Cost(Q, word) + Cost(Q, u) > Limit(Q) {
        EscapedWords(u, rest);
        AllowedInFront(Q, word, Split(Q, u, rest));
      } else {
        EscapedWords(word + u, rest);
      }
    }
  }

  lemma EscapedParts(word: bytes, s: bytes, n: nat)
    requires IsAllEscaped(word) && IsAllEscaped(s) && n <= |s|
    ensures IsAllEscaped(s[..n]) && IsAllEscaped(s[n..]) && IsAllEscaped(word + s[..n])
  {
  }

  lemma AllowedInFront(e: Encoding, w: bytes, ws: seq<bytes>)
    requires Cost(e, w) <= Allowance(e) && AreAllowed(e, ws)
    ensures AreAllowed(e, [w] + ws)
  {
    assert forall i :: 0 < i <= |ws| ==> ([w] + ws)[i] == ws[i - 1];
  }

  /** Q-encoded text of which every byte is escaped is always within 75 characters. */
  lemma EscapedWithin75(charset: bytes, s: bytes)
    requires IsUtf8Name(charset) && IsAllEscaped(s)
    ensures IsWithin75(Q, charset, Split(Q, [], s))
  {
    EscapedWords([], s);
    WordsWithin75(Q, charset, Split(Q, [], s));
  }

  // ---------- whole headers ----------

  predicate HasNonWhitespace(s: bytes) {
    exists k :: 0 <= k < |s| && s[k] != SPACE && s[k] != TAB && s[k] != LF && s[k] != CR
  }

  /** One candidate for a word: where it starts, its fields, and where it ends. */
  datatype Candidate = Candidate(start: nat, charset: bytes, encoding: byte, text: bytes, end: nat)

  /** The search of one turn of the loop; None where the source breaks out of it. */
  function FindCandidate(header: bytes): (c: Option<Candidate>)
    ensures c.Some? ==> c.value.start + 2 <= c.value.end <= |header|
  {
    var start := Index(header, OPEN);
    if start == -1 then None
    else
      var rest := header[start + 2..];
      var i := Index(rest, [QUESTION]);
      if i == -1 || |rest| < i + 5 || rest[i + 2] != QUESTION then None
      else
        var j := Index(rest[i + 3..], CLOSE);
        if j == -1 then None
        else Some(Candidate(start, rest[..i], rest[i + 1], rest[i + 3..i + 3 + j], start + 2 + i + 3 + j + 2))
  }

  /** The loop of `DecodeHeader`; None stands for an unhandled charset. */
  function DecodeFrom(header: bytes, betweenWords: bool): Option<bytes>
    decreases |header|
  {
    match FindCandidate(header)
    case None => Some(header)
    case Some(c) =>
      match DecodeContent(c.encoding, c.text)
      case None =>
        var skip := c.start + 2;
        AppendTo(header[..skip], DecodeFrom(header[skip..], false))
      case Some(content) =>
        var isText := c.start > 0 && (!betweenWords || HasNonWhitespace(header[..c.start]));
        var before := if isText then header[..c.start] else [];
        match Convert(c.charset, content)
        case None => None
        case Some(text) => AppendTo(before + text, DecodeFrom(header[c.end..], true))
  }

  function DecodeHeader(header: bytes): Option<bytes> {
    var i := Index(header, OPEN);
    if i == -1 then Some(header) else AppendTo(header[..i], DecodeFrom(header[i..], false))
  }

  // ---------- the round trip ----------

  lemma CharsetHasNoQuestion(charset: bytes)
    requires IsUtf8Name(charset)
    ensures |charset| == 5 && forall k :: 0 <= k < 5 ==> charset[k] != QUESTION
  {
    assert forall k :: 0 <= k < 5 ==> LowerByte(charset[k]) == UTF8_NAME[k];
  }

  lemma IndexOf(s: bytes, pat: bytes, tail: bytes)
    requires pat != [] && forall k :: 0 <= k < |s| ==> s[k] != pat[0]
    ensures Index(s + pat + tail, pat) == |s|
  {
    var x := s + pat + tail;
    assert x[|s|..] == pat + tail;
    forall k | 0 <= k < |s|
      ensures !OccursAt(x, pat, k)
    {
      assert x[k..][0] == s[k];
    }
    IndexIs(x, pat, |s|);
  }

  function Fields(charset: bytes, encoding: byte, text: bytes, tail: bytes): bytes {
    charset + [QUESTION] + ([encoding, QUESTION] + (text + CLOSE + tail))
  }

  /** The fields of a word behind its opening, found one after the other. */
  lemma FieldsAreFound(charset: bytes, encoding: byte, text: bytes, tail: bytes, rest: bytes)
    requires rest == Fields(charset, encoding, text, tail)
    requires forall k :: 0 <= k < |charset| ==> charset[k] != QUESTION
    requires forall k :: 0 <= k < |text| ==> text[k] != QUESTION
    ensures Index(rest, [QUESTION]) == |charset| && |rest| >= |charset| + 5
    ensures rest[..|charset|] == charset && rest[|charset| + 1] == encoding && rest[|charset| + 2] == QUESTION
    ensures Index(rest[|charset| + 3..], CLOSE) == |text| && |charset| + 3 + |text| <= |rest|
    ensures rest[|charset| + 3..|charset| + 3 + |text|] == text
  {
    var after := text + CLOSE + tail;
    IndexOf(charset, [QUESTION], [encoding, QUESTION] + after);
    assert rest[|charset| + 3..] == after;
    IndexOf(text, CLOSE, tail);
    assert rest[|charset| + 3..|charset| + 3 + |text|] == after[..|text|] == text;
  }

  lemma WordIsFields(e: Encoding, charset: bytes, w: bytes, tail: bytes)
    ensures Word(e, charset, w) + tail
            == OPEN + Fields(charset, EncodingByte(e), Content(e, w), tail)
  {
  }

  lemma FoundBehind(header: bytes, rest: bytes, c: Candidate)
    requires Index(header, OPEN) == c.start && c.start + 2 <= |header| && rest == header[c.start + 2..]
    requires var n := |c.charset|;
             && Index(rest, [QUESTION]) == n && |rest| >= n + 5 && rest[n + 2] == QUESTION
             && rest[..n] == c.charset && rest[n + 1] == c.encoding
             && Index(rest[n + 3..], CLOSE) == |c.text| && n + 3 + |c.text| <= |rest|
             && rest[n + 3..n + 3 + |c.text|] == c.text
             && c.end == c.start + n + |c.text| + 7
    ensures FindCandidate(header) == Some(c)
  {
  }

  /** There is no opening of a word in `s`. */
  predicate HasNoOpen(s: bytes) {
    forall k :: 0 <= k <= |s| ==> !OccursAt(s, OPEN, k)
  }

  lemma StartFound(pre: bytes, rest: bytes)
    requires HasNoOpen(pre)
    ensures Index(pre + (OPEN + rest), OPEN) == |pre| && (pre + (OPEN + rest))[|pre| + 2..] == rest
  {
    var x := pre + (OPEN + rest);
    assert x[|pre|..] == OPEN + rest;
    forall k | 0 <= k < |pre|
      ensures !OccursAt(x, OPEN, k)
    {
      if k + 2 <= |pre| {
        assert x[k..][..2] == pre[k..][..2];
        assert !OccursAt(pre, OPEN, k);
      } else {
        assert x[k..][1] == OPEN[0];
      }
    }
    IndexIs(x, OPEN, |pre|);
  }

  lemma {:induction false} FieldsFoundBehind(header: bytes, pre: bytes, tail: bytes, c: Candidate)
    requires header == pre + (OPEN + Fields(c.charset, c.encoding, c.text, tail)) && HasNoOpen(pre)
    requires forall k :: 0 <= k < |c.charset| ==> c.charset[k] != QUESTION
    requires forall k :: 0 <= k < |c.text| ==> c.text[k] != QUESTION
    requires c.start == |pre| && c.end == |pre| + |c.charset| + |c.text| + 7
    ensures FindCandidate(header) == Some(c)
  {
    var rest := Fields(c.charset, c.encoding, c.text, tail);
    FieldsAreFound(c.charset, c.encoding, c.text, tail, rest);
    StartFound(pre, rest);
    FoundBehind(header, rest, c);
  }

  /** A word in front of `tail`, behind nothing or one space, is found with exactly its fields. */
  lemma WordIsFound(e: Encoding, charset: bytes, w: bytes, pre: bytes, tail: bytes)
    requires IsUtf8Name(charset) && (pre == [] || pre == [SPACE])
    ensures FindCandidate(pre + (Word(e, charset, w) + tail))
            == Some(Candidate(|pre|, charset, EncodingByte(e), Content(e, w), |pre| + |Word(e, charset, w)|))
    ensures (pre + (Word(e, charset, w) + tail))[|pre| + |Word(e, charset, w)|..] == tail
  {
    CharsetHasNoQuestion(charset);
    ContentRoundTrip(e, w);
    WordIsFields(e, charset, w, tail);
    FieldsFoundBehind(pre + (Word(e, charset, w) + tail), pre, tail,
                      Candidate(|pre|, charset, EncodingByte(e), Content(e, w), |pre| + |Word(e, charset, w)|));
    EndOfWord(pre, Word(e, charset, w), tail);
  }

  lemma EndOfWord(pre: bytes, word: bytes, tail: bytes)
    ensures (pre + (word + tail))[|pre| + |word|..] == tail
  {
  }

  lemma {:induction false} DecodeWord(e: Encoding, charset: bytes, w: bytes, pre: bytes, tail: bytes)
    requires IsUtf8Name(charset) && (pre == [] || pre == [SPACE])
    ensures DecodeFrom(pre + (Word(e, charset, w) + tail), pre != []) == AppendTo(w, DecodeFrom(tail, true))
  {
    WordIsFound(e, charset, w, pre, tail);
    ContentRoundTrip(e, w);
    var header := pre + (Word(e, charset, w) + tail);
    assert header[..|pre|] == pre;
    assert !HasNonWhitespace([SPACE]);
    assert [] + w == w;
  }

  lemma NothingLeft()
    ensures DecodeFrom([], true) == Some([])
  {
  }

  lemma {:induction false} DecodeWords(e: Encoding, charset: bytes, ws: seq<bytes>, pre: bytes)
    requires IsUtf8Name(charset) && ws != [] && (pre == [] || pre == [SPACE])
    ensures DecodeFrom(pre + JoinWords(e, charset, ws), pre != []) == Some(Flatten(ws))
    decreases |ws|
  {
    var word := Word(e, charset, ws[0]);
    if |ws| == 1 {
      assert word + [] == word;
      DecodeWord(e, charset, ws[0], pre, []);
      NothingLeft();
      assert ws[1..] == [];
    } else {
      DecodeWord(e, charset, ws[0], pre, [SPACE] + JoinWords(e, charset, ws[1..]));
      DecodeWords(e, charset, ws[1..], [SPACE]);
    }
  }

  lemma JoinedStartsWithOpen(e: Encoding, charset: bytes, ws: seq<bytes>)
    requires ws != []
    ensures OPEN <= JoinWords(e, charset, ws)
  {
  }

  /** Whatever the text, under UTF-8 and either encoding, decoding the header gives back the text,
      however many words it was cut into. */
  lemma HeaderRoundTrip(e: Encoding, charset: bytes, s: bytes)
    requires NeedsEncoding(s) && IsUtf8Name(charset)
    ensures DecodeHeader(Encode(e, charset, s)) == Some(s)
  {
    SplitIsFit(e, [], s);
    JoinedIsDecoded(e, charset, Split(e, [], s));
    assert [] + s == s;
  }

  lemma JoinedIsDecoded(e: Encoding, charset: bytes, ws: seq<bytes>)
    requires IsUtf8Name(charset) && ws != []
    ensures DecodeHeader(JoinWords(e, charset, ws)) == Some(Flatten(ws))
  {
    var h := JoinWords(e, charset, ws);
    JoinedStartsWithOpen(e, charset, ws);
    assert h[0..] == h && [] + h == h && h[..0] == [];
    IndexIs(h, OPEN, 0);
    DecodeWords(e, charset, ws, []);
    AppendNothing(DecodeFrom(h, false));
  }

  // ---------- text that is left as it is ----------

  /** No candidate in the header can be decoded. */
  predicate NoneDecodes(header: bytes)
    decreases |header|
  {
    match FindCandidate(header)
    case None => true
    case Some(c) => DecodeContent(c.encoding, c.text) == None && NoneDecodes(header[c.start + 2..])
  }

  predicate HoldsNoWord(s: bytes) {
    var i := Index(s, OPEN);
    i == -1 || NoneDecodes(s[i..])
  }

  predicate IsAscii(s: bytes) {
    forall k :: 0 <= k < |s| ==> s[k] < 0x80
  }

  lemma {:induction false} QDecodeShrinks(t: bytes)
    ensures QDecode(t).Some? ==> |QDecode(t).value| <= |t|
  {
    if t != [] {
      QDecodeShrinks(t[1..]);
      if |t| >= 3 {
        QDecodeShrinks(t[3..]);
      }
    }
  }

  /** What is converted to ASCII was ASCII. */
  lemma {:induction false} AsciiConverts(s: bytes)
    ensures IsAscii(Latin1ToUtf8(s)) ==> |Latin1ToUtf8(s)| == |s|
    ensures IsAscii(AsciiToUtf8(s)) ==> |AsciiToUtf8(s)| == |s|
  {
    if s != [] {
      AsciiConverts(s[1..]);
      AsciiBehind(if s[0] < 0x80 then [s[0]] else [0xC0 + s[0] / 64, 0x80 + s[0] % 64], Latin1ToUtf8(s[1..]));
      AsciiBehind(if s[0] < 0x80 then [s[0]] else [0xEF, 0xBF, 0xBD], AsciiToUtf8(s[1..]));
    }
  }

  lemma AsciiBehind(a: bytes, b: bytes)
    ensures IsAscii(a + b) <==> IsAscii(a) && IsAscii(b)
  {
    if IsAscii(a + b) {
      assert forall k :: 0 <= k < |a| ==> a[k] == (a + b)[k];
      assert forall k :: 0 <= k < |b| ==> b[k] == (a + b)[|a| + k];
    }
  }

  lemma WordShrinks(c: Candidate)
    ensures var content := DecodeContent(c.encoding, c.text);
            content.Some? && Convert(c.charset, content.value).Some? && IsAscii(Convert(c.charset, content.value).value)
            ==> |Convert(c.charset, content.value).value| <= |c.text|
  {
    Base64.DecodeShrinks(c.text);
    QDecodeShrinks(c.text);
    var content := DecodeContent(c.encoding, c.text);
    if content.Some? {
      AsciiConverts(content.value);
    }
  }

  lemma CandidateIsLonger(header: bytes)
    ensures FindCandidate(header).Some? ==>
              FindCandidate(header).value.start + |FindCandidate(header).value.text| < FindCandidate(header).value.end
  {
  }

  /** Decoding a word makes an ASCII text shorter. */
  lemma {:induction false} DecodingShrinks(header: bytes, betweenWords: bool)
    ensures var r := DecodeFrom(header, betweenWords);
            r.Some? && IsAscii(r.value) ==> |r.value| <= |header| && (!NoneDecodes(header) ==> |r.value| < |header|)
    decreases |header|, 1
  {
    var found := FindCandidate(header);
    CandidateIsLonger(header);
    if found.Some? {
      var c := found.value;
      var content := DecodeContent(c.encoding, c.text);
      if content == None {
        UndecodedWordShrinks(header, betweenWords, c);
      } else {
        DecodedWordShrinks(header, betweenWords, c, content.value);
      }
    }
  }

  lemma {:induction false} UndecodedWordShrinks(header: bytes, betweenWords: bool, c: Candidate)
    requires FindCandidate(header) == Some(c) && DecodeContent(c.encoding, c.text) == None
    ensures var r := DecodeFrom(header, betweenWords);
            r.Some? && IsAscii(r.value) ==> |r.value| <= |header| && (!NoneDecodes(header) ==> |r.value| < |header|)
    decreases |header|, 0
  {
    var n := c.start + 2;
    var rest := DecodeFrom(header[n..], false);
    DecodingShrinks(header[n..], false);
    if rest.Some? {
      AsciiBehind(header[..n], rest.value);
    }
  }

  lemma {:induction false} DecodedWordShrinks(header: bytes, betweenWords: bool, c: Candidate, content: bytes)
    requires FindCandidate(header) == Some(c) && DecodeContent(c.encoding, c.text) == Some(content)
    requires c.start + |c.text| < c.end
    ensures var r := DecodeFrom(header, betweenWords);
            r.Some? && IsAscii(r.value) ==> |r.value| < |header|
    decreases |header|, 0
  {
    var text, rest := Convert(c.charset, content), DecodeFrom(header[c.end..], true);
    var isText := c.start > 0 && (!betweenWords || HasNonWhitespace(header[..c.start]));
    var before := if isText then header[..c.start] else [];
    if text.Some? && rest.Some? {
      assert DecodeFrom(header, betweenWords) == Some((before + text.value) + rest.value);
      AsciiBehind(before + text.value, rest.value);
      AsciiBehind(before, text.value);
      WordShrinks(c);
      DecodingShrinks(header[c.end..], true);
    }
  }

  lemma {:induction false} UndecodedStays(header: bytes, betweenWords: bool)
    requires NoneDecodes(header)
    ensures DecodeFrom(header, betweenWords) == Some(header)
    decreases |header|
  {
    var found := FindCandidate(header);
    if found.Some? {
      var n := found.value.start + 2;
      var u, t := header[..n], header[n..];
      assert header == u + t && NoneDecodes(t);
      UndecodedStays(t, false);
      UndecodedStep(header, betweenWords, found.value, u, t);
    }
  }

  /** One turn on a word that can be decoded. */
  lemma {:induction false} DecodedStep(header: bytes, betweenWords: bool, c: Candidate, u: bytes, text: bytes, t: bytes)
    requires FindCandidate(header) == Some(c) && u == header[..c.start] && t == header[c.end..]
    requires DecodeContent(c.encoding, c.text).Some?
    requires Convert(c.charset, DecodeContent(c.encoding, c.text).value) == Some(text)
    ensures var before := if c.start > 0 && (!betweenWords || HasNonWhitespace(u)) then u else [];
            DecodeFrom(header, betweenWords) == AppendTo(before + text, DecodeFrom(t, true))
  {
  }

  lemma {:induction false} UndecodedStep(header: bytes, betweenWords: bool, c: Candidate, u: bytes, t: bytes)
    requires FindCandidate(header) == Some(c) && DecodeContent(c.encoding, c.text) == None
    requires u == header[..c.start + 2] && t == header[c.start + 2..]
    ensures DecodeFrom(header, betweenWords) == AppendTo(u, DecodeFrom(t, false))
  {
  }

  /** Text that needs no encoding is sent as it is, and comes back if and only if nothing in it can be
      decoded as a word. */
  lemma PlainComesBack(s: bytes)
    requires !NeedsEncoding(s)
    ensures DecodeHeader(s) == Some(s) <==> HoldsNoWord(s)
  {
    var i := Index(s, OPEN);
    if i != -1 {
      IndexIsFirst(s, OPEN);
      var t := s[i..];
      assert s == s[..i] + t && IsAscii(s);
      AsciiBehind(s[..i], t);
      if NoneDecodes(t) {
        UndecodedStays(t, false);
      } else {
        DecodingShrinks(t, false);
        SameTail(s[..i], t, DecodeFrom(t, false));
      }
    }
  }

  lemma SameTail(a: bytes, t: bytes, r: Option<bytes>)
    ensures AppendTo(a, r) == Some(a + t) <==> r == Some(t)
  {
    if r.Some? && a + r.value == a + t {
      assert r.value == (a + r.value)[|a|..] == (a + t)[|a|..] == t;
    }
  }

  /** All texts: the round trip fails exactly for those that are left as they are and look encoded. */
  lemma ComesBackIff(e: Encoding, charset: bytes, s: bytes)
    requires IsUtf8Name(charset)
    ensures DecodeHeader(Encode(e, charset, s)) == Some(s) <==> NeedsEncoding(s) || HoldsNoWord(s)
  {
    if NeedsEncoding(s) {
      HeaderRoundTrip(e, charset, s);
    } else {
      PlainComesBack(s);
    }
  }

  /** A concrete loss: `=?utf-8?q?a?=` needs no encoding, and is decoded as `a`. */
  lemma LooksEncoded() returns (s: bytes)
    ensures s == [EQUALS, QUESTION, 117, 116, 102, 45, 56, QUESTION, 113, QUESTION, 97, QUESTION, EQUALS]
    ensures !NeedsEncoding(s) && DecodeHeader(s) == Some([97])
  {
    var w: bytes := [97];
    s := Word(Q, UTF8_NAME, w);
    LetterIsWord(s);
    NoneIsSpecial(s);
    DecodeOneWord(Q, UTF8_NAME, w);
  }

  lemma NoneIsSpecial(s: bytes)
    requires s == [EQUALS, QUESTION, 117, 116, 102, 45, 56, QUESTION, 113, QUESTION, 97, QUESTION, EQUALS]
    ensures !NeedsEncoding(s)
  {
  }

  lemma DecodeOneWord(e: Encoding, charset: bytes, w: bytes)
    requires IsUtf8Name(charset)
    ensures DecodeHeader(Word(e, charset, w)) == Some(w)
  {
    JoinedIsDecoded(e, charset, [w]);
    assert Flatten([w]) == w + Flatten([]) == w;
  }

  lemma LetterIsWord(s: bytes)
    requires s == Word(Q, UTF8_NAME, [97])
    ensures s == [EQUALS, QUESTION, 117, 116, 102, 45, 56, QUESTION, 113, QUESTION, 97, QUESTION, EQUALS]
  {
    assert QEncode([97]) == QByte(97) + QEncode([]) == [97];
  }

  // ---------- what the encoder has written so far ----------

  /** What `splitWord` writes between the texts of two words. */
  function Separator(e: Encoding, charset: bytes): bytes {
    CLOSE + [SPACE] + OpenWord(e, charset)
  }

  /** Words that were closed, and the opening of the next one behind each. */
  function Closed(e: Encoding, charset: bytes, ws: seq<bytes>): bytes {
    if ws == [] then [] else (Content(e, ws[0]) + Separator(e, charset)) + Closed(e, charset, ws[1..])
  }

  lemma {:induction false} ClosedAppend(e: Encoding, charset: bytes, ws: seq<bytes>, w: bytes)
    ensures Closed(e, charset, ws + [w]) == Closed(e, charset, ws) + (Content(e, w) + Separator(e, charset))
    decreases |ws|
  {
    var x := Content(e, w) + Separator(e, charset);
    if ws == [] {
      assert ws + [w] == [w];
      assert x + [] == x == [] + x;
    } else {
      assert (ws + [w])[1..] == ws[1..] + [w];
      ClosedAppend(e, charset, ws[1..], w);
      Assoc(Content(e, ws[0]) + Separator(e, charset), Closed(e, charset, ws[1..]), x);
    }
  }

  /** Closing the last word completes the joined words. */
  lemma {:induction false} ClosedIsJoined(e: Encoding, charset: bytes, ws: seq<bytes>, w: bytes)
    ensures OpenWord(e, charset) + Closed(e, charset, ws) + Content(e, w) + CLOSE == JoinWords(e, charset, ws + [w])
    decreases |ws|
  {
    var open := OpenWord(e, charset);
    if ws == [] {
      assert ws + [w] == [w];
      assert open + [] == open;
    } else {
      assert (ws + [w])[1..] == ws[1..] + [w];
      ClosedIsJoined(e, charset, ws[1..], w);
      Regroup(open, Content(e, ws[0]), CLOSE, [SPACE], Closed(e, charset, ws[1..]), Content(e, w));
    }
  }

  lemma Regroup(open: bytes, c: bytes, close: bytes, sp: bytes, rest: bytes, last: bytes)
    ensures open + (c + (close + sp + open) + rest) + last + close
            == (open + c + close) + (sp + (open + rest + last + close))
  {
  }
}
