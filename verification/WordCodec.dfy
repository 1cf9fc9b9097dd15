/** encodedword.go: the encoder and the decoder, over byte buffers. */
module WordCodec {
  import opened Bytes
  import opened Runes
  import Base64
  import opened EncodedWord

  /** `bytes.Buffer`, as far as it is only written to. */
  class Buffer {
    var data: bytes

    constructor ()
      ensures data == []
    {
      data := [];
    }

    method Write(s: bytes)
      modifies this
      ensures data == old(data) + s
    {
      data := data + s;
    }
  }

  // ---------- encoding ----------

  method EncodeHeader(e: Encoding, charset: bytes, s: bytes) returns (r: bytes)
    ensures r == Encode(e, charset, s)
  {
    if !NeedsEncoding(s) {
      return s;
    }
    r := EncodeWord(e, charset, s);
  }

  method EncodeWord(e: Encoding, charset: bytes, s: bytes) returns (r: bytes)
    ensures r == if IsUtf8Name(charset) then JoinWords(e, charset, Split(e, [], s)) else Word(e, charset, s)
  {
    var buf := new Buffer();
    assert [] + OpenWord(e, charset) == OpenWord(e, charset);
    buf.Write(OpenWord(e, charset));
    ghost var ws, w;
    if e == B {
      ws, w := BEncode(buf, charset, s);
    } else {
      ws, w := QEncodeText(buf, charset, s);
    }
    WholeWords(e, charset, s, buf.data, ws, w);
    buf.Write(CLOSE);
    r := buf.data;
  }

  lemma WholeWords(e: Encoding, charset: bytes, s: bytes, body: bytes, ws: seq<bytes>, w: bytes)
    requires Wrote(e, charset, s, OpenWord(e, charset), body, ws, w)
    ensures body + CLOSE == if IsUtf8Name(charset) then JoinWords(e, charset, Split(e, [], s)) else Word(e, charset, s)
  {
    Assoc(OpenWord(e, charset), Closed(e, charset, ws), Content(e, w));
    ClosedIsJoined(e, charset, ws, w);
    if !IsUtf8Name(charset) {
      OnlyOne(ws, w, s);
    }
  }

  lemma OnlyOne(ws: seq<bytes>, w: bytes, s: bytes)
    requires ws + [w] == [s]
    ensures ws == [] && w == s
  {
    assert |ws| == 0;
    assert (ws + [w])[0] == w;
  }

  /** What the encoders of both kinds append: the closed words and the text of the last. */
  ghost predicate Wrote(e: Encoding, charset: bytes, s: bytes, before: bytes, after: bytes, ws: seq<bytes>, w: bytes) {
    && after == before + (Closed(e, charset, ws) + Content(e, w))
    && ws + [w] == if IsUtf8Name(charset) then Split(e, [], s) else [s]
  }

  /** `bEncode`. */
  method BEncode(buf: Buffer, charset: bytes, s: bytes) returns (ghost ws: seq<bytes>, ghost w: bytes)
    modifies buf
    ensures Wrote(B, charset, s, old(buf.data), buf.data, ws, w)
  {
    ws, w := [], s;
    if !IsUtf8Name(charset) || Base64.EncodedLen(|s|) <= MAX_CONTENT {
      buf.Write(Base64.Encode(s));
      assert [] + [s] == [s] && [] + s == s;
      assert Closed(B, charset, []) + Content(B, s) == Content(B, s);
      if |s| <= MAX_BASE64 {
        SplitFits(B, [], s);
      }
      return;
    }
    ws, w := BEncodeWords(buf, charset, s);
  }

  /** Where a splitting loop stands: the words closed, and the current one. */
  ghost predicate Stands(e: Encoding, s: bytes, ws: seq<bytes>, last: nat, i: nat, currentLen: nat) {
    && last <= i <= |s| && currentLen == Cost(e, s[last..i])
    && Split(e, [], s) == ws + Split(e, s[last..i], s[i..])
  }

  lemma StandsAtStart(e: Encoding, s: bytes)
    ensures Stands(e, s, [], 0, 0, 0)
  {
    assert s[0..0] == [] && s[0..] == s;
    assert [] + Split(e, [], s) == Split(e, [], s);
  }

  lemma StandsAtEnd(e: Encoding, s: bytes, ws: seq<bytes>, last: nat, currentLen: nat)
    requires Stands(e, s, ws, last, |s|, currentLen)
    ensures ws + [s[last..]] == Split(e, [], s)
  {
    assert s[last..|s|] == s[last..] && s[|s|..] == [];
  }

  /** The loop of `bEncode`. */
  method BEncodeWords(buf: Buffer, charset: bytes, s: bytes) returns (ghost ws: seq<bytes>, ghost w: bytes)
    modifies buf
    ensures buf.data == old(buf.data) + (Closed(B, charset, ws) + Content(B, w)) && ws + [w] == Split(B, [], s)
  {
    ws := [];
    var currentLen, last, i := 0, 0, 0;
    StandsAtStart(B, s);
    assert buf.data + [] == buf.data;
    while i < |s|
      invariant 0 <= last <= i && 0 <= currentLen && Stands(B, s, ws, last, i, currentLen)
      invariant buf.data == old(buf.data) + Closed(B, charset, ws)
      decreases |s| - i
    {
      currentLen, last, i, ws := BTurn(buf, charset, s, currentLen, last, i, old(buf.data), ws);
    }
    w := s[last..];
    StandsAtEnd(B, s, ws, last, currentLen);
    buf.Write(Base64.Encode(s[last..]));
    Assoc(old(buf.data), Closed(B, charset, ws), Content(B, w));
  }

  method BTurn(buf: Buffer, charset: bytes, s: bytes, currentLen: nat, last: nat, i: nat, ghost base: bytes,
      ghost ws: seq<bytes>)
      returns (currentLen': nat, last': nat, i': nat, ghost ws': seq<bytes>)
    requires Stands(B, s, ws, last, i, currentLen) && i < |s|
    requires buf.data == base + Closed(B, charset, ws)
    modifies buf
    ensures Stands(B, s, ws', last', i', currentLen') && i < i'
    ensures buf.data == base + Closed(B, charset, ws')
  {
    var runeLen := RuneLen(s[i..]);
    i' := i + runeLen;
    ghost var l, c;
    ws', l, c := StandsNext(B, s, ws, last, i, currentLen, i', runeLen);
    if currentLen + runeLen <= MAX_BASE64 {
      currentLen', last' := currentLen + runeLen, last;
    } else {
      BWord(buf, charset, s[last..i], base, ws);
      currentLen', last' := runeLen, i;
    }
    assert last' == l && currentLen' == c;
  }

  /** Writes the text of a full word, closes it, and opens the next one. */
  method BWord(buf: Buffer, charset: bytes, w: bytes, ghost base: bytes, ghost ws: seq<bytes>)
    requires buf.data == base + Closed(B, charset, ws)
    modifies buf
    ensures buf.data == base + Closed(B, charset, ws + [w])
  {
    ClosedAppend(B, charset, ws, w);
    Assoc(base, Closed(B, charset, ws), Content(B, w) + Separator(B, charset));
    Assoc(buf.data, Content(B, w), Separator(B, charset));
    buf.Write(Base64.Encode(w));
    SplitWord(buf, B, charset);
  }

  /** `splitWord`. */
  method SplitWord(buf: Buffer, e: Encoding, charset: bytes)
    modifies buf
    ensures buf.data == old(buf.data) + Separator(e, charset)
  {
    buf.Write(CLOSE + [SPACE] + OpenWord(e, charset));
  }

  /** One turn of a splitting loop: the unit goes into the current word, or starts the next one. */
  lemma StandsNext(e: Encoding, s: bytes, ws: seq<bytes>, last: nat, i: nat, currentLen: nat, j: nat, cost: nat)
      returns (ws': seq<bytes>, last': nat, currentLen': nat)
    requires Stands(e, s, ws, last, i, currentLen) && i < j <= |s| && j - i == UnitLength(e, s[i..])
    requires cost == Cost(e, s[i..j])
    ensures Stands(e, s, ws', last', j, currentLen')
    ensures if currentLen + cost > Limit(e) then ws' == ws + [s[last..i]] && last' == i && currentLen' == cost
            else ws' == ws && last' == last && currentLen' == currentLen + cost
  {
    assert s[last..i] + s[i..j] == s[last..j];
    assert s[i..] == s[i..j] + s[j..];
    CostConcat(e, s[last..i], s[i..j]);
    SplitUnfolds(e, s[last..i], s[i..j], s[j..]);
    if currentLen + cost > Limit(e) {
      ws', last', currentLen' := ws + [s[last..i]], i, cost;
      Shift(ws, s[last..i], Split(e, s[i..j], s[j..]));
    } else {
      ws', last', currentLen' := ws, last, currentLen + cost;
    }
  }

  lemma SplitUnfolds(e: Encoding, word: bytes, u: bytes, rest: bytes)
    requires u != [] && |u| == UnitLength(e, u + rest)
    ensures Split(e, word, u + rest)
            == if Cost(e, word) + Cost(e, u) > Limit(e) then [word] + Split(e, u, rest) else Split(e, word + u, rest)
  {
    assert (u + rest)[..|u|] == u && (u + rest)[|u|..] == rest;
  }

  lemma Shift(ws: seq<bytes>, w: bytes, more: seq<bytes>)
    ensures ws + ([w] + more) == (ws + [w]) + more
  {
  }

  /** `qEncode`: `currentLen` is always the length of what was really written of the current word. */
  method QEncodeText(buf: Buffer, charset: bytes, s: bytes) returns (ghost ws: seq<bytes>, ghost w: bytes)
    modifies buf
    ensures Wrote(Q, charset, s, old(buf.data), buf.data, ws, w)
  {
    ws, w := [], s;
    if !IsUtf8Name(charset) {
      WriteQString(buf, s);
      assert [] + [s] == [s];
      assert Closed(Q, charset, []) + Content(Q, s) == Content(Q, s);
      return;
    }
    ws, w := QEncodeWords(buf, charset, s);
  }

  /** The bytes of one unit, and the room `qEncode` counts for it. */
  method QMeasure(s: bytes, i: nat) returns (runeLen: nat, encLen: nat)
    requires i < |s|
    ensures runeLen == UnitLength(Q, s[i..]) && i + runeLen <= |s|
    ensures encLen == Cost(Q, s[i..i + runeLen]) <= MAX_CONTENT
  {
    var b := s[i];
    if b == SPACE || IsPlainQ(b) {
      runeLen, encLen := 1, 1;
    } else {
      runeLen := RuneLen(s[i..]);
      encLen := 3 * runeLen;
    }
    UnitCost(Q, s[i..]);
    assert s[i..][..runeLen] == s[i..i + runeLen];
  }

  /** The loop of `qEncode`. */
  method QEncodeWords(buf: Buffer, charset: bytes, s: bytes) returns (ghost ws: seq<bytes>, ghost w: bytes)
    modifies buf
    ensures buf.data == old(buf.data) + (Closed(Q, charset, ws) + Content(Q, w)) && ws + [w] == Split(Q, [], s)
  {
    ws := [];
    var currentLen, i := 0, 0;
    ghost var last := 0;
    StandsAtStart(Q, s);
    assert buf.data + ([] + []) == buf.data && s[0..0] == [];
    while i < |s|
      invariant 0 <= last <= i && 0 <= currentLen && Stands(Q, s, ws, last, i, currentLen)
      invariant buf.data == old(buf.data) + (Closed(Q, charset, ws) + Content(Q, s[last..i]))
      decreases |s| - i
    {
      currentLen, i, last, ws := QTurn(buf, charset, s, currentLen, i, last, old(buf.data), ws);
    }
    w := s[last..];
    assert s[last..i] == w;
    StandsAtEnd(Q, s, ws, last, currentLen);
  }

  method QTurn(buf: Buffer, charset: bytes, s: bytes, currentLen: nat, i: nat, ghost last: nat, ghost base: bytes,
      ghost ws: seq<bytes>)
      returns (currentLen': nat, i': nat, ghost last': nat, ghost ws': seq<bytes>)
    requires Stands(Q, s, ws, last, i, currentLen) && i < |s|
    requires buf.data == base + (Closed(Q, charset, ws) + Content(Q, s[last..i]))
    modifies buf
    ensures Stands(Q, s, ws', last', i', currentLen') && i < i'
    ensures buf.data == base + (Closed(Q, charset, ws') + Content(Q, s[last'..i']))
  {
    var runeLen, encLen := QMeasure(s, i);
    i' := i + runeLen;
    ghost var c;
    ws', last', c := StandsNext(Q, s, ws, last, i, currentLen, i', encLen);
    var newLen := QRoom(buf, charset, s, currentLen, encLen, i, last, base, ws);
    QUnit(buf, charset, s, last', i, i', base, ws');
    currentLen' := newLen + encLen;
    assert currentLen' == c;
  }

  /** Splits the word if the next unit has no room in it. */
  method QRoom(buf: Buffer, charset: bytes, s: bytes, currentLen: nat, encLen: nat, i: nat, ghost last: nat,
      ghost base: bytes, ghost ws: seq<bytes>)
      returns (newLen: nat)
    requires last <= i <= |s| && buf.data == base + (Closed(Q, charset, ws) + Content(Q, s[last..i]))
    modifies buf
    ensures if currentLen + encLen > MAX_CONTENT
            then newLen == 0 && buf.data == base + (Closed(Q, charset, ws + [s[last..i]]) + Content(Q, s[i..i]))
            else newLen == currentLen && buf.data == old(buf.data)
  {
    newLen := currentLen;
    if currentLen + encLen > MAX_CONTENT {
      QWord(buf, charset, s[last..i], base, ws);
      newLen := 0;
      assert s[i..i] == [];
    }
  }

  /** Closes a full word and opens the next one. */
  method QWord(buf: Buffer, charset: bytes, ghost w: bytes, ghost base: bytes, ghost ws: seq<bytes>)
    requires buf.data == base + (Closed(Q, charset, ws) + Content(Q, w))
    modifies buf
    ensures buf.data == base + (Closed(Q, charset, ws + [w]) + Content(Q, []))
  {
    ClosedAppend(Q, charset, ws, w);
    Assoc(Closed(Q, charset, ws), Content(Q, w), Separator(Q, charset));
    Assoc(base, Closed(Q, charset, ws) + Content(Q, w), Separator(Q, charset));
    SplitWord(buf, Q, charset);
    assert Content(Q, []) == [];
    assert Closed(Q, charset, ws + [w]) + [] == Closed(Q, charset, ws + [w]);
  }

  /** Writes one more unit of the current word. */
  method QUnit(buf: Buffer, charset: bytes, s: bytes, ghost last: nat, i: nat, j: nat, ghost base: bytes,
      ghost ws: seq<bytes>)
    requires last <= i <= j <= |s| && buf.data == base + (Closed(Q, charset, ws) + Content(Q, s[last..i]))
    modifies buf
    ensures buf.data == base + (Closed(Q, charset, ws) + Content(Q, s[last..j]))
  {
    assert s[last..i] + s[i..j] == s[last..j];
    QEncodeConcat(s[last..i], s[i..j]);
    Assoc(Closed(Q, charset, ws), Content(Q, s[last..i]), Content(Q, s[i..j]));
    Assoc(base, Closed(Q, charset, ws) + Content(Q, s[last..i]), Content(Q, s[i..j]));
    WriteQString(buf, s[i..j]);
  }

  /** `writeQString`. */
  method WriteQString(buf: Buffer, s: bytes)
    modifies buf
    ensures buf.data == old(buf.data) + QEncode(s)
  {
    assert buf.data + [] == buf.data;
    for i := 0 to |s|
      invariant buf.data == old(buf.data) + QEncode(s[..i])
    {
      var b := s[i];
      assert s[..i + 1] == s[..i] + [b];
      QEncodeConcat(s[..i], [b]);
      assert QEncode([b]) == QByte(b) + QEncode([]) == QByte(b);
      Assoc(old(buf.data), QEncode(s[..i]), QByte(b));
      if b == SPACE {
        buf.Write([UNDERSCORE]);
      } else if IsPlainQ(b) {
        buf.Write([b]);
      } else {
        buf.Write([EQUALS, UpperHex(b / 16), UpperHex(b % 16)]);
      }
    }
    assert s[..|s|] == s;
  }

  // ---------- decoding ----------

  /** `DecodeHeader`, without a charset reader: None is the error of an unhandled charset. */
  method DecodeHeaderText(text: bytes) returns (r: Option<bytes>)
    ensures r == DecodeHeader(text)
  {
    var first := Index(text, OPEN);
    if first == -1 {
      return Some(text);
    }
    var buf := new Buffer();
    buf.Write(text[..first]);
    var header := text[first..];
    var betweenWords := false;
    assert [] + text[..first] == text[..first];
    while true
      invariant DecodeHeader(text) == AppendTo(buf.data, DecodeFrom(header, betweenWords))
      decreases |header|
    {
      var c := FindCandidate(header);
      if c == None {
        break;
      }
      header, betweenWords, r := DecodeCandidate(buf, header, betweenWords, c.value);
      if r == None {
        return;
      }
    }
    buf.Write(header);
    r := Some(buf.data);
  }

  /** One turn of the loop of `DecodeHeader` on the candidate it found. */
  method DecodeCandidate(buf: Buffer, header: bytes, betweenWords: bool, c: Candidate)
      returns (rest: bytes, between: bool, r: Option<bytes>)
    requires FindCandidate(header) == Some(c)
    modifies buf
    ensures |rest| < |header|
    ensures if r == None then DecodeFrom(header, betweenWords) == None
            else AppendTo(old(buf.data), DecodeFrom(header, betweenWords))
                 == AppendTo(buf.data, DecodeFrom(rest, between))
  {
    r := Some([]);
    var content := DecodeContent(c.encoding, c.text);
    if content == None {
      AppendTwice(buf.data, header[..c.start + 2], DecodeFrom(header[c.start + 2..], false));
      buf.Write(header[..c.start + 2]);
      return header[c.start + 2..], false, r;
    }
    var isText := c.start > 0 && (!betweenWords || HasNonWhitespace(header[..c.start]));
    var before := if isText then header[..c.start] else [];
    var text := Convert(c.charset, content.value);
    rest, between := header[c.end..], true;
    if text == None {
      r := None;
      return;
    }
    AppendTwice(buf.data, before + text.value, DecodeFrom(rest, true));
    buf.Write(before + text.value);
  }

  /** `qDecode`. */
  method QDecodeText(s: bytes) returns (r: Option<bytes>)
    ensures r == QDecode(s)
  {
    var dec := new byte[|s|];
    var n, i := 0, 0;
    assert s[0..] == s;
    AppendNothing(QDecode(s));
    while i < |s|
      invariant n <= i <= |s|
      invariant QDecode(s) == AppendTo(dec[..n], QDecode(s[i..]))
    {
      ghost var t := s[i..];
      assert t[0] == s[i] && (|t| >= 3 ==> t[1] == s[i + 1] && t[2] == s[i + 2]);
      var c := s[i];
      var b := c;
      var used := 1;
      if c == UNDERSCORE {
        b := SPACE;
      } else if c == EQUALS {
        if i + 2 >= |s| {
          return None;
        }
        var v := ReadHexByte(s[i + 1], s[i + 2]);
        if v == None {
          return None;
        }
        b, used := v.value, 3;
      } else if !IsQText(c) {
        return None;
      }
      assert s[i..][used..] == s[i + used..];
      assert QDecode(s[i..]) == Prepend(b, QDecode(s[i + used..]));
      AppendTwice(dec[..n], [b], QDecode(s[i + used..]));
      dec[n] := b;
      assert dec[..n + 1] == dec[..n] + [b];
      n, i := n + 1, i + used;
    }
    assert s[i..] == [] && dec[..n] + [] == dec[..n];
    r := Some(dec[..n]);
  }
}
