/** The values that a media type parser has nothing to say against: a grammar of the text alone, and
    that the error is nil exactly on it. */
module MediaTypeGrammar {
  import opened Bytes
  import opened Runes
  import opened MediaType
  import opened MediaTypeLaws
  import opened MediaTypeFormat

  // ---------- the grammar ----------

  predicate IsWhite(s: bytes) {
    forall k :: 0 <= k < |s| ==> IsSpace(s[k])
  }

  /** What may stand between quotes: no quote and no newline unless behind a backslash. */
  predicate IsQuotable(s: bytes) {
    s == [] ||
    if s[0] == BACKSLASH then |s| > 1 && IsQuotable(s[2..])
    else s[0] != QUOTE && s[0] != CR && s[0] != LF && IsQuotable(s[1..])
  }

  /** A quoted string that is not empty. */
  predicate IsQuotedString(v: bytes) {
    |v| > 2 && v[0] == QUOTE && v[|v| - 1] == QUOTE && IsQuotable(v[1..|v| - 1])
  }

  /** A parameter as it is written, with the white space at its four places. */
  datatype ParamText =
    ParamText(before: bytes, between: bytes, name: bytes, behind: bytes, front: bytes, value: bytes)

  predicate IsParamText(p: ParamText) {
    && IsWhite(p.before) && IsWhite(p.between) && IsWhite(p.behind) && IsWhite(p.front)
    && IsToken(p.name) && (IsToken(p.value) || IsQuotedString(p.value))
  }

  function FromValue(p: ParamText): bytes {
    p.front + p.value
  }

  function FromName(p: ParamText): bytes {
    p.between + (p.name + (p.behind + ([EQUALS] + FromValue(p))))
  }

  function Written(p: ParamText): bytes {
    p.before + ([SEMICOLON] + FromName(p))
  }

  function AllWritten(ps: seq<ParamText>): bytes {
    if ps == [] then [] else Written(ps[0]) + AllWritten(ps[1..])
  }

  predicate AreParamTexts(ps: seq<ParamText>) {
    forall i :: 0 <= i < |ps| ==> IsParamText(ps[i])
  }

  /** Nothing but white space, or a trailing semicolon. */
  predicate IsEndText(s: bytes) {
    IsWhite(s) || TrimSpace(s) == [SEMICOLON]
  }

  predicate HaveDistinctNames(ps: seq<ParamText>) {
    forall i, j :: 0 <= i < j < |ps| ==> Lower(ps[i].name) != Lower(ps[j].name)
  }

  /** A type in front of parameters with distinct names. */
  predicate IsMadeOf(v: bytes, typ: bytes, ps: seq<ParamText>, end: bytes) {
    && v == typ + (AllWritten(ps) + end)
    && IsTypeText(TrimSpace(typ)) && (forall k :: 0 <= k < |typ| ==> typ[k] != SEMICOLON)
    && StartsParam(AllWritten(ps) + end)
    && AreParamTexts(ps) && HaveDistinctNames(ps) && IsEndText(end)
  }

  ghost predicate IsWellFormed(v: bytes) {
    exists typ, ps, end :: IsMadeOf(v, typ, ps, end)
  }

  // ---------- white space ----------

  lemma {:induction false} TrimLeftIs(white: bytes, rest: bytes)
    requires IsWhite(white) && (rest == [] || !IsSpace(rest[0]))
    ensures TrimLeft(white + rest) == rest
  {
    if white == [] {
      assert white + rest == rest;
    } else {
      assert (white + rest)[1..] == white[1..] + rest;
      TrimLeftIs(white[1..], rest);
    }
  }

  lemma {:induction false} TrimLeftSplits(v: bytes) returns (white: bytes)
    ensures IsWhite(white) && v == white + TrimLeft(v)
  {
    if v != [] && IsSpace(v[0]) {
      var more := TrimLeftSplits(v[1..]);
      white := [v[0]] + more;
    } else {
      white := [];
    }
  }

  lemma {:induction false} TrimTailSplits(v: bytes) returns (white: bytes)
    ensures IsWhite(white) && v == TrimTail(v) + white
    decreases |v|
  {
    if v != [] && IsSpace(v[|v| - 1]) {
      var more := TrimTailSplits(v[..|v| - 1]);
      white := more + [v[|v| - 1]];
    } else {
      white := [];
    }
  }

  lemma TrimTwice(v: bytes)
    ensures TrimLeft(TrimLeft(v)) == TrimLeft(v) && TrimSpace(TrimLeft(v)) == TrimSpace(v)
  {
  }

  lemma WhiteIsTrimmed(v: bytes)
    ensures IsWhite(v) <==> TrimLeft(v) == []
  {
    var white := TrimLeftSplits(v);
    if IsWhite(v) {
      assert v + [] == v;
      TrimLeftIs(v, []);
    }
  }

  // ---------- quoted strings ----------

  lemma {:induction false} SkipHigh(s: bytes, n: nat)
    requires n <= |s| && forall k :: 0 <= k < n ==> s[k] >= 0x80
    ensures IsQuotable(s) <==> IsQuotable(s[n..])
    decreases n
  {
    if n > 0 {
      SkipHigh(s[1..], n - 1);
      DropDrop(s, 1, n - 1);
    } else {
      assert s[0..] == s;
    }
  }

  /** What is left to read behind `n` bytes of a character. */
  predicate Reads(s: bytes, nextIsLiteral: bool, n: nat) {
    n <= |s| && if nextIsLiteral then n > 0 && IsQuotable(s[1..n]) else IsQuotable(s[..n])
  }

  lemma CharacterStays(s: bytes, nextIsLiteral: bool, n: nat)
    requires s != [] && RuneLen(s) <= n <= |s|
    ensures var r, isEscape := RuneLen(s), !nextIsLiteral && s[0] == BACKSLASH;
            Reads(s, nextIsLiteral, n) <==>
              (nextIsLiteral || (s[0] != QUOTE && s[0] != CR && s[0] != LF)) && Reads(s[r..], isEscape, n - r)
  {
    var r := RuneLen(s);
    assert s[r..][..n - r] == s[r..n];
    if nextIsLiteral {
      SkipHigh(s[1..n], r - 1);
      assert s[1..n][r - 1..] == s[r..n];
    } else if r > 1 {
      SkipHigh(s[..n], r);
      assert s[..n][r..] == s[r..n];
    } else {
      assert s[..n] == [s[0]] + s[1..n];
      assert n > 1 ==> s[..n][2..] == s[1..][1..n - 1];
      assert s[..n][1..] == s[1..][..n - 1];
    }
  }

  /** A quoted string that was read is one. */
  lemma {:induction false} ReadIsQuotable(s: bytes, nextIsLiteral: bool)
    requires ReadQuoted(s, nextIsLiteral).Text?
    ensures var q := ReadQuoted(s, nextIsLiteral);
            && s[q.length - 1] == QUOTE && Reads(s, nextIsLiteral, q.length - 1)
            && (q.text != [] ==> q.length > 1)
    decreases |s|
  {
    if nextIsLiteral || s[0] != QUOTE {
      var r, isEscape := RuneLen(s), !nextIsLiteral && s[0] == BACKSLASH;
      ReadIsQuotable(s[r..], isEscape);
      OneCharacterMore(s, nextIsLiteral, r, ReadQuoted(s[r..], isEscape).length);
    }
  }

  lemma OneCharacterMore(s: bytes, nextIsLiteral: bool, r: nat, n: nat)
    requires s != [] && r == RuneLen(s) && 0 < n <= |s| - r && s[r..][n - 1] == QUOTE
    requires nextIsLiteral || (s[0] != QUOTE && s[0] != CR && s[0] != LF)
    requires Reads(s[r..], !nextIsLiteral && s[0] == BACKSLASH, n - 1)
    ensures Reads(s, nextIsLiteral, r + n - 1) && s[r + n - 1] == QUOTE
  {
    CharacterStays(s, nextIsLiteral, r + n - 1);
  }

  /** What a quoted text says: a backslash only protects the byte behind it. */
  function Unquoted(q: bytes): bytes {
    if q == [] then []
    else if q[0] == BACKSLASH then (if |q| == 1 then [] else [q[1]] + Unquoted(q[2..]))
    else [q[0]] + Unquoted(q[1..])
  }

  /** The same when a backslash stands in front. */
  function UnquotedAs(q: bytes, nextIsLiteral: bool): bytes {
    if nextIsLiteral && q != [] then [q[0]] + Unquoted(q[1..]) else Unquoted(q)
  }

  lemma {:induction false} HighStays(q: bytes, n: nat)
    requires n <= |q| && forall k :: 0 <= k < n ==> q[k] >= 0x80
    ensures Unquoted(q) == q[..n] + Unquoted(q[n..])
    decreases n
  {
    if n > 0 {
      HighStays(q[1..], n - 1);
      DropDrop(q, 1, n - 1);
      assert q[..n] == [q[0]] + q[1..][..n - 1];
      Assoc([q[0]], q[1..][..n - 1], Unquoted(q[n..]));
    } else {
      assert q[0..] == q && [] + Unquoted(q) == Unquoted(q);
    }
  }

  lemma CharacterSays(q: bytes, nextIsLiteral: bool, n: nat)
    requires q != [] && n == RuneLen(q)
    ensures var isEscape := !nextIsLiteral && q[0] == BACKSLASH;
            UnquotedAs(q, nextIsLiteral) == (if isEscape then [] else q[..n]) + UnquotedAs(q[n..], isEscape)
  {
    if n > 1 {
      HighStays(q, n);
      HighStays(q[1..], n - 1);
      DropDrop(q, 1, n - 1);
      assert q[..n] == [q[0]] + q[1..][..n - 1];
      Assoc([q[0]], q[1..][..n - 1], Unquoted(q[n..]));
    } else if !nextIsLiteral && q[0] == BACKSLASH {
      assert |q| > 1 ==> q[1..][0] == q[1] && q[1..][1..] == q[2..];
      assert [] + UnquotedAs(q[1..], true) == UnquotedAs(q[1..], true);
    } else {
      assert q[..1] == [q[0]];
    }
  }

  lemma {:induction false} QuotedSays(q: bytes, tail: bytes, nextIsLiteral: bool)
    requires Reads(q, nextIsLiteral, |q|) && IsUtf8(q)
    ensures ReadQuoted(q + ([QUOTE] + tail), nextIsLiteral) == Text(UnquotedAs(q, nextIsLiteral), |q| + 1)
    decreases |q|
  {
    QuotableIsRead(q, tail, nextIsLiteral);
    if q == [] {
      assert q + ([QUOTE] + tail) == [QUOTE] + tail;
    } else {
      var n, isEscape := RuneLen(q), !nextIsLiteral && q[0] == BACKSLASH;
      RuneBeforeQuote(q, tail);
      DropConcat(q, [QUOTE] + tail, n);
      CharacterStays(q, nextIsLiteral, |q|);
      assert q[n..][..|q| - n] == q[n..];
      QuotedSays(q[n..], tail, isEscape);
      CharacterSays(q, nextIsLiteral, n);
      OneCharacterRead(q + ([QUOTE] + tail), nextIsLiteral, n, q[..n], UnquotedAs(q[n..], isEscape), |q| - n + 1);
    }
  }

  lemma {:induction false} OneCharacterRead(s: bytes, nextIsLiteral: bool, n: nat, u: bytes, text: bytes, length: nat)
    requires s != [] && n == RuneLen(s) && u == s[..n] && (s[0] < 0x80 || n > 1)
    requires nextIsLiteral || (s[0] != QUOTE && s[0] != CR && s[0] != LF)
    requires ReadQuoted(s[n..], !nextIsLiteral && s[0] == BACKSLASH) == Text(text, length)
    ensures ReadQuoted(s, nextIsLiteral)
            == Text((if !nextIsLiteral && s[0] == BACKSLASH then [] else u) + text, n + length)
  {
  }

  /** The character in front does not depend on a quote behind the text. */
  lemma RuneBeforeQuote(q: bytes, tail: bytes)
    requires q != []
    ensures RuneLen(q + ([QUOTE] + tail)) == RuneLen(q)
  {
  }

  /** And a quoted string is read, up to its quote. */
  lemma {:induction false} QuotableIsRead(q: bytes, tail: bytes, nextIsLiteral: bool)
    requires Reads(q, nextIsLiteral, |q|)
    ensures var r := ReadQuoted(q + ([QUOTE] + tail), nextIsLiteral);
            r.Text? && r.length == |q| + 1 && (q != [] ==> r.text != [])
    decreases |q|
  {
    var s := q + ([QUOTE] + tail);
    if q == [] {
      assert s == [QUOTE] + tail;
    } else {
      var n := RuneLen(q);
      RuneBeforeQuote(q, tail);
      DropConcat(q, [QUOTE] + tail, n);
      CharacterStays(q, nextIsLiteral, |q|);
      assert q[n..][..|q| - n] == q[n..];
      QuotableIsRead(q[n..], tail, !nextIsLiteral && q[0] == BACKSLASH);
    }
  }

  // ---------- one parameter ----------

  predicate EndsParam(tail: bytes) {
    tail == [] || IsSpace(tail[0]) || tail[0] == SEMICOLON
  }

  lemma ValueIsRead(v: bytes, tail: bytes)
    requires (IsToken(v) || IsQuotedString(v)) && EndsParam(tail)
    ensures ConsumeValue(v + tail).0 != [] && ConsumeValue(v + tail).1 == tail
  {
    if IsToken(v) {
      TokenLengthIs(v, tail);
    } else {
      var q := v[1..|v| - 1];
      assert v == [QUOTE] + (q + [QUOTE]);
      assert (v + tail)[1..] == q + ([QUOTE] + tail);
      assert q[..|q|] == q;
      QuotableIsRead(q, tail, false);
      assert (v + tail)[1 + (|q| + 1)..] == tail;
    }
  }

  /** What a value says: a token itself, a quoted string what stands between its quotes. */
  function ValueMeant(v: bytes): bytes {
    if IsToken(v) || |v| < 2 then v else Unquoted(v[1..|v| - 1])
  }

  predicate IsValidText(v: bytes) {
    IsToken(v) || (IsQuotedString(v) && IsUtf8(v[1..|v| - 1]))
  }

  lemma ValueIsMeant(v: bytes, tail: bytes)
    requires IsValidText(v) && EndsParam(tail)
    ensures ConsumeValue(v + tail) == (ValueMeant(v), tail)
  {
    if IsToken(v) {
      TokenLengthIs(v, tail);
    } else {
      var q := v[1..|v| - 1];
      assert v == [QUOTE] + (q + [QUOTE]);
      assert (v + tail)[1..] == q + ([QUOTE] + tail);
      assert q[..|q|] == q;
      QuotedSays(q, tail, false);
      assert (v + tail)[1 + (|q| + 1)..] == tail;
    }
  }

  lemma {:induction false} ValueWasRead(v: bytes)
    requires ConsumeValue(v).0 != []
    ensures var value := v[..|v| - |ConsumeValue(v).1|];
            v == value + ConsumeValue(v).1 && (IsToken(value) || IsQuotedString(value))
  {
    if v[0] != QUOTE {
      TokenLengthSpans(v);
    } else {
      ReadIsQuotable(v[1..], false);
      StandsInQuotes(v, ReadQuoted(v[1..], false).length);
    }
  }

  lemma StandsInQuotes(v: bytes, n: nat)
    requires 1 < n < |v| && v[0] == QUOTE && v[1..][n - 1] == QUOTE && IsQuotable(v[1..][..n - 1])
    ensures IsQuotedString(v[..1 + n]) && |v| - |v[1 + n..]| == 1 + n
  {
    assert v[..1 + n][1..n] == v[1..][..n - 1];
  }

  /** A parameter that is written in front of the next one is read. */
  lemma ParamIsRead(p: ParamText, tail: bytes)
    requires IsParamText(p) && EndsParam(tail)
    ensures var w := TrimLeft(Written(p) + tail);
            && w != [] && ConsumeMediaParam(w).Some?
            && ConsumeMediaParam(w).value.0.key == Lower(p.name) && ConsumeMediaParam(w).value.1 == tail
            && (IsValidText(p.value) ==> ConsumeMediaParam(w).value.0.value == ValueMeant(p.value))
  {
    var d := p.value + tail;
    var c := [EQUALS] + (p.front + d);
    var b := p.name + (p.behind + c);
    var a := [SEMICOLON] + (p.between + b);
    assert Written(p) + tail == p.before + a;
    TrimLeftIs(p.before, a);
    TrimTwice(Written(p) + tail);
    assert a[1..] == p.between + b;
    TrimLeftIs(p.between, b);
    NameIsRead(p.name, p.behind, c);
    assert c[1..] == p.front + d;
    TrimLeftIs(p.front, d);
    ValueIsRead(p.value, tail);
    if IsValidText(p.value) {
      ValueIsMeant(p.value, tail);
    }
  }

  lemma NameIsRead(name: bytes, behind: bytes, c: bytes)
    requires IsToken(name) && IsWhite(behind) && c != [] && c[0] == EQUALS
    ensures var b := name + (behind + c);
            TokenLength(b) == |name| && b[..|name|] == name && TrimLeft(b[|name|..]) == c
  {
    TokenLengthIs(name, behind + c);
    TrimLeftIs(behind, c);
  }

  /** A parameter that was read was written so. */
  lemma ParamWasRead(v: bytes) returns (p: ParamText)
    requires ConsumeMediaParam(TrimLeft(v)).Some?
    ensures var r := ConsumeMediaParam(TrimLeft(v)).value;
            IsParamText(p) && v == Written(p) + r.1 && Lower(p.name) == r.0.key
  {
    var a := TrimLeft(v);
    TrimTwice(v);
    var b := TrimLeft(a[1..]);
    var c := TrimLeft(b[TokenLength(b)..]);
    p := AssembleParam(v, a, b, c, TrimLeft(c[1..]));
  }

  lemma AssembleParam(v: bytes, a: bytes, b: bytes, c: bytes, d: bytes) returns (p: ParamText)
    requires a == TrimLeft(v) && a != [] && a[0] == SEMICOLON && b == TrimLeft(a[1..]) && TokenLength(b) > 0
    requires c == TrimLeft(b[TokenLength(b)..]) && c != [] && c[0] == EQUALS && d == TrimLeft(c[1..])
    requires ConsumeValue(d).0 != []
    ensures IsParamText(p) && v == Written(p) + ConsumeValue(d).1 && p.name == b[..TokenLength(b)]
  {
    var before := TrimLeftSplits(v);
    var between := TrimLeftSplits(a[1..]);
    var n := TokenLength(b);
    TokenLengthSpans(b);
    var behind := TrimLeftSplits(b[n..]);
    var front := TrimLeftSplits(c[1..]);
    ValueWasRead(d);
    var rest := ConsumeValue(d).1;
    p := ParamText(before, between, b[..n], behind, front, d[..|d| - |rest|]);
    PutTogether(p, v, a, b, c, d, rest);
  }

  lemma PutTogether(p: ParamText, v: bytes, a: bytes, b: bytes, c: bytes, d: bytes, rest: bytes)
    requires v == p.before + a && a != [] && a[0] == SEMICOLON && a[1..] == p.between + b
    requires |p.name| <= |b| && b[..|p.name|] == p.name && b[|p.name|..] == p.behind + c
    requires c != [] && c[0] == EQUALS && c[1..] == p.front + d && d == p.value + rest
    ensures v == Written(p) + rest
  {
    assert c == [EQUALS] + (p.front + d);
    assert b == p.name + (p.behind + c);
    assert a == [SEMICOLON] + (p.between + b);
    Assoc(p.front, p.value, rest);
    Assoc([EQUALS], FromValue(p), rest);
    Assoc(p.behind, [EQUALS] + FromValue(p), rest);
    Assoc(p.name, p.behind + ([EQUALS] + FromValue(p)), rest);
    Assoc(p.between, p.name + (p.behind + ([EQUALS] + FromValue(p))), rest);
    Assoc([SEMICOLON], FromName(p), rest);
    Assoc(p.before, [SEMICOLON] + FromName(p), rest);
  }

  // ---------- all parameters ----------

  /** The parameters that were read are the written ones. */
  predicate HaveKeys(ps: seq<ParamText>, read: seq<Param>) {
    |ps| == |read| && forall i :: 0 <= i < |ps| ==> Lower(ps[i].name) == read[i].key
  }

  predicate HaveValues(ps: seq<ParamText>, read: seq<Param>) {
    |ps| == |read| && forall i :: 0 <= i < |ps| && IsValidText(ps[i].value) ==> read[i].value == ValueMeant(ps[i].value)
  }

  lemma TextEndsParam(ps: seq<ParamText>, end: bytes)
    requires AreParamTexts(ps) && IsEndText(end)
    ensures EndsParam(AllWritten(ps) + end)
  {
    if ps == [] {
      assert [] + end == end;
      var white := TrimLeftSplits(end);
      assert white != [] ==> end[0] == white[0];
    } else {
      var p := ps[0];
      assert (AllWritten(ps) + end)[0] == if p.before == [] then SEMICOLON else p.before[0];
    }
  }

  lemma EndIsRead(end: bytes)
    requires IsEndText(end)
    ensures ReadParams(end) == ([], if IsWhite(end) then Finished else TrailingSemicolon)
  {
    var w := TrimLeft(end);
    WhiteIsTrimmed(end);
    TrimTwice(end);
    if !IsWhite(end) {
      var white := TrimTailSplits(w);
      assert w == [SEMICOLON] + white && w[1..] == white;
      WhiteIsTrimmed(white);
    }
  }

  lemma ReadStep(v: bytes, rest: bytes, p: Param)
    requires TrimLeft(v) != [] && ConsumeMediaParam(TrimLeft(v)) == Some((p, rest))
    ensures ReadParams(v) == ([p] + ReadParams(rest).0, ReadParams(rest).1)
  {
  }

  lemma {:induction false} ParamsAreRead(ps: seq<ParamText>, end: bytes)
    requires AreParamTexts(ps) && IsEndText(end)
    ensures var r := ReadParams(AllWritten(ps) + end);
            && r.1 == (if IsWhite(end) then Finished else TrailingSemicolon)
            && HaveKeys(ps, r.0) && HaveValues(ps, r.0)
    decreases |ps|
  {
    if ps == [] {
      assert [] + end == end;
      EndIsRead(end);
    } else {
      var tail := AllWritten(ps[1..]) + end;
      Assoc(Written(ps[0]), AllWritten(ps[1..]), end);
      TextEndsParam(ps[1..], end);
      ParamIsRead(ps[0], tail);
      var param := ConsumeMediaParam(TrimLeft(Written(ps[0]) + tail)).value.0;
      ReadStep(Written(ps[0]) + tail, tail, param);
      ParamsAreRead(ps[1..], end);
      ReadInFront(ps, param, ReadParams(tail).0);
    }
  }

  lemma ReadInFront(ps: seq<ParamText>, param: Param, read: seq<Param>)
    requires ps != [] && HaveKeys(ps[1..], read) && HaveValues(ps[1..], read) && param.key == Lower(ps[0].name)
    requires IsValidText(ps[0].value) ==> param.value == ValueMeant(ps[0].value)
    ensures HaveKeys(ps, [param] + read) && HaveValues(ps, [param] + read)
  {
    assert forall i :: 0 < i < |ps| ==> ps[i] == ps[1..][i - 1] && ([param] + read)[i] == read[i - 1];
  }

  lemma {:induction false} ParamsWereRead(v: bytes) returns (ps: seq<ParamText>, end: bytes)
    requires ReadParams(v).1 != BadParam
    ensures v == AllWritten(ps) + end && AreParamTexts(ps) && IsEndText(end) && HaveKeys(ps, ReadParams(v).0)
    decreases |v|
  {
    var w := TrimLeft(v);
    WhiteIsTrimmed(v);
    TrimTwice(v);
    if w == [] || ConsumeMediaParam(w) == None {
      ps, end := [], v;
      assert [] + v == v;
    } else {
      var (param, rest) := ConsumeMediaParam(w).value;
      var p := ParamWasRead(v);
      ReadStep(v, rest, param);
      var qs;
      qs, end := ParamsWereRead(rest);
      ps := [p] + qs;
      Assoc(Written(p), AllWritten(qs), end);
      InFrontOf(p, qs, param, ReadParams(rest).0);
    }
  }

  lemma InFrontOf(p: ParamText, qs: seq<ParamText>, param: Param, read: seq<Param>)
    requires IsParamText(p) && AreParamTexts(qs) && Lower(p.name) == param.key && HaveKeys(qs, read)
    ensures AreParamTexts([p] + qs) && HaveKeys([p] + qs, [param] + read)
    ensures AllWritten([p] + qs) == Written(p) + AllWritten(qs)
  {
    assert ([p] + qs)[1..] == qs;
  }

  // ---------- the type ----------

  lemma {:induction false} TrimOfLower(s: bytes)
    ensures TrimSpace(Lower(s)) == Lower(TrimSpace(s))
  {
    TrimLeftOfLower(s);
    TrimTailOfLower(TrimLeft(s));
  }

  lemma {:induction false} TrimLeftOfLower(s: bytes)
    ensures TrimLeft(Lower(s)) == Lower(TrimLeft(s))
  {
    if s != [] && IsSpace(s[0]) {
      assert Lower(s)[1..] == Lower(s[1..]);
      TrimLeftOfLower(s[1..]);
    }
  }

  lemma {:induction false} TrimTailOfLower(s: bytes)
    ensures TrimTail(Lower(s)) == Lower(TrimTail(s))
    decreases |s|
  {
    if s != [] && IsSpace(s[|s| - 1]) {
      assert Lower(s)[..|s| - 1] == Lower(s[..|s| - 1]);
      TrimTailOfLower(s[..|s| - 1]);
    }
  }

  lemma LowerWasToken(t: bytes)
    requires IsToken(Lower(t))
    ensures IsToken(t)
  {
    assert forall k :: 0 <= k < |t| ==> IsTokenChar(Lower(t)[k]);
  }

  lemma LowerWasTypeText(t: bytes)
    requires IsTypeText(Lower(t))
    ensures IsTypeText(t)
  {
    var i := IndexByte(Lower(t), SLASH);
    if i == -1 {
      LowerWasToken(t);
      assert IndexByte(t, SLASH) == -1;
    } else {
      IndexByteIs(t, SLASH, i);
      assert Lower(t)[..i] == Lower(t[..i]) && Lower(t)[i + 1..] == Lower(t[i + 1..]);
      LowerWasToken(t[..i]);
      LowerWasToken(t[i + 1..]);
    }
  }

  lemma CheckedIsTypeText(s: bytes)
    ensures CheckType(s).1 == None <==> IsTypeText(s)
  {
    if IsTypeText(s) {
      TypeChecks(s);
    }
    if CheckType(s).1 == None {
      var n := TokenLength(s);
      TokenLengthSpans(s);
      var rest := s[n..];
      if rest != [] {
        TokenLengthSpans(rest[1..]);
        IndexByteIs(s, SLASH, n);
        assert s[n + 1..] == rest[1..];
      } else {
        assert IndexByte(s, SLASH) == -1;
      }
    }
  }

  lemma TypeIsChecked(typ: bytes)
    ensures CheckType(TrimSpace(Lower(typ))).1 == None <==> IsTypeText(TrimSpace(typ))
  {
    TrimOfLower(typ);
    CheckedIsTypeText(Lower(TrimSpace(typ)));
    if IsTypeText(TrimSpace(typ)) {
      LowerIsTypeText(TrimSpace(typ));
    }
    if IsTypeText(Lower(TrimSpace(typ))) {
      LowerWasTypeText(TrimSpace(typ));
    }
  }

  lemma TypeEndIs(v: bytes, n: nat)
    requires n <= |v| && StartsParam(v[n..]) && forall k :: 0 <= k < n ==> v[k] != SEMICOLON
    ensures TypeEnd(v) == n
  {
    IndexIsFirst(v, [SEMICOLON]);
    forall k | 0 <= k < n
      ensures !OccursAt(v, [SEMICOLON], k)
    {
      assert v[k..][0] == v[k];
    }
    if n < |v| {
      assert OccursAt(v, [SEMICOLON], n);
    }
  }

  lemma TypeEndSplits(v: bytes)
    ensures StartsParam(v[TypeEnd(v)..]) && forall k :: 0 <= k < TypeEnd(v) ==> v[k] != SEMICOLON
  {
    IndexIsFirst(v, [SEMICOLON]);
    forall k | 0 <= k < TypeEnd(v)
      ensures v[k] != SEMICOLON
    {
      assert !OccursAt(v, [SEMICOLON], k);
      assert v[k..][0] == v[k];
    }
  }

  // ---------- whole values ----------

  lemma SameNames(ps: seq<ParamText>, read: seq<Param>)
    requires HaveKeys(ps, read)
    ensures HaveDistinctNames(ps) <==> AreDistinct(read)
  {
    if AreDistinct(read) {
      forall i, j | 0 <= i < j < |ps|
        ensures Lower(ps[i].name) != Lower(ps[j].name)
      {
        assert read[i].key != read[j].key;
      }
    }
    if HaveDistinctNames(ps) {
      forall i, j | 0 <= i < j < |read|
        ensures read[i].key != read[j].key
      {
        assert Lower(ps[i].name) != Lower(ps[j].name);
      }
    }
  }

  /** What the parser finds, with nothing to repair and nothing to report. */
  predicate NeedsNoRepair(v: bytes) {
    var (ps, ending) := ReadParams(v[TypeEnd(v)..]);
    IsTypeText(TrimSpace(v[..TypeEnd(v)])) && ending != BadParam && AreDistinct(ps)
  }

  lemma NilErrorIffNoRepair(v: bytes)
    ensures Parse(v).err == None <==> NeedsNoRepair(v)
  {
    if v != [] {
      NilErrorMeans(v);
      TypeIsChecked(v[..TypeEnd(v)]);
    }
  }

  lemma WellFormedNeedsNoRepair(v: bytes, typ: bytes, ps: seq<ParamText>, end: bytes)
    requires IsMadeOf(v, typ, ps, end)
    ensures NeedsNoRepair(v)
  {
    var tail := AllWritten(ps) + end;
    assert v[|typ|..] == tail && v[..|typ|] == typ;
    TypeEndIs(v, |typ|);
    ParamsAreRead(ps, end);
    SameNames(ps, ReadParams(tail).0);
  }

  lemma NoRepairIsWellFormed(v: bytes)
    requires NeedsNoRepair(v)
    ensures IsWellFormed(v)
  {
    TypeEndSplits(v);
    AssembleValue(v, v[..TypeEnd(v)], v[TypeEnd(v)..]);
  }

  lemma AssembleValue(v: bytes, typ: bytes, tail: bytes)
    requires v == typ + tail && StartsParam(tail)
    requires IsTypeText(TrimSpace(typ)) && forall k :: 0 <= k < |typ| ==> typ[k] != SEMICOLON
    requires ReadParams(tail).1 != BadParam && AreDistinct(ReadParams(tail).0)
    ensures IsWellFormed(v)
  {
    var ps, end := ParamsWereRead(tail);
    SameNames(ps, ReadParams(tail).0);
    IsMadeSo(v, typ, tail, ps, end);
  }

  lemma IsMadeSo(v: bytes, typ: bytes, tail: bytes, ps: seq<ParamText>, end: bytes)
    requires v == typ + tail && tail == AllWritten(ps) + end && StartsParam(tail)
    requires IsTypeText(TrimSpace(typ)) && forall k :: 0 <= k < |typ| ==> typ[k] != SEMICOLON
    requires AreParamTexts(ps) && HaveDistinctNames(ps) && IsEndText(end)
    ensures IsWellFormed(v)
  {
    assert IsMadeOf(v, typ, ps, end);
  }

  /** Parsing gives a nil error exactly on the well-formed values: a token or two tokens with a slash
      between them, then parameters with distinct names whose values are tokens or quoted strings that
      are not empty, and at most white space and a semicolon behind them. */
  lemma NilErrorIffWellFormed(v: bytes)
    ensures Parse(v).err == None <==> IsWellFormed(v)
  {
    NilErrorIffNoRepair(v);
    if NeedsNoRepair(v) {
      NoRepairIsWellFormed(v);
    }
    if IsWellFormed(v) {
      var typ, ps, end :| IsMadeOf(v, typ, ps, end);
      WellFormedNeedsNoRepair(v, typ, ps, end);
    }
  }

  // ---------- what a well-formed value says ----------

  lemma TrimSpaceIs(before: bytes, t: bytes, behind: bytes)
    requires IsWhite(before) && IsWhite(behind) && t != [] && !IsSpace(t[0]) && !IsSpace(t[|t| - 1])
    ensures TrimSpace(before + (t + behind)) == t
  {
    TrimLeftIs(before, t + behind);
    TrimTailIs(t, behind);
  }

  lemma {:induction false} TrimTailIs(t: bytes, behind: bytes)
    requires IsWhite(behind) && t != [] && !IsSpace(t[|t| - 1])
    ensures TrimTail(t + behind) == t
    decreases |behind|
  {
    if behind == [] {
      assert t + behind == t;
    } else {
      var n := |behind| - 1;
      assert (t + behind)[..|t + behind| - 1] == t + behind[..n];
      TrimTailIs(t, behind[..n]);
    }
  }

  predicate ArePlain(ps: seq<ParamText>) {
    forall i :: 0 <= i < |ps| ==>
                  IsValidText(ps[i].value) && forall k :: 0 <= k < |ps[i].name| ==> ps[i].name[k] != STAR
  }

  /** The map holds exactly these parameters. */
  predicate HoldsExactly(m: Table, ps: seq<ParamText>) {
    && (forall i :: 0 <= i < |ps| ==> Lower(ps[i].name) in m && m[Lower(ps[i].name)] == ValueMeant(ps[i].value))
    && forall k :: k in m ==> exists i :: 0 <= i < |ps| && Lower(ps[i].name) == k
  }

  lemma LowerHasNoStar(name: bytes)
    requires forall k :: 0 <= k < |name| ==> name[k] != STAR
    ensures BaseName(Lower(name)) == None
  {
    StarIndex(Lower(name));
    assert forall k :: 0 <= k < |name| ==> Lower(name)[k] == LowerByte(name[k]);
  }

  /** Plain parameters are collected as they were read. */
  lemma PlainParamsCollected(ps: seq<ParamText>, read: seq<Param>)
    requires HaveKeys(ps, read) && HaveValues(ps, read) && ArePlain(ps) && AreDistinct(read)
    ensures HoldsExactly(CollectAll(NO_TABLES, read).params, ps) && CollectAll(NO_TABLES, read).pieces == map[]
  {
    var t := CollectAll(NO_TABLES, read);
    FirstWins(NO_TABLES, read, []);
    forall i | 0 <= i < |ps|
      ensures BaseName(read[i].key) == None
      ensures Lower(ps[i].name) in t.params && t.params[Lower(ps[i].name)] == ValueMeant(ps[i].value)
    {
      LowerHasNoStar(ps[i].name);
      FirstWins(NO_TABLES, read, read[i].key);
      FirstIsMember(read, read[i].key, read[i].value);
    }
    forall k
      ensures Lookup(t, k).Some? ==> exists i :: 0 <= i < |ps| && Lower(ps[i].name) == k
    {
      FirstWins(NO_TABLES, read, k);
      FirstFound(read, k);
      if Lookup(t, k).Some? {
        var i :| 0 <= i < |read| && read[i] == Param(k, First(read, k).value);
        assert Lower(ps[i].name) == k;
      }
    }
    forall k | k in t.params
      ensures exists i :: 0 <= i < |ps| && Lower(ps[i].name) == k
    {
      assert Lookup(t, k).Some?;
    }
    forall b
      ensures b !in t.pieces
    {
      NoBase(t, ps, read, b);
    }
  }

  lemma NoBase(t: Tables, ps: seq<ParamText>, read: seq<Param>, b: bytes)
    requires t == CollectAll(NO_TABLES, read) && HaveKeys(ps, read) && IsSorted(t)
    requires forall i :: 0 <= i < |ps| ==> BaseName(read[i].key) == None
    ensures b !in t.pieces
  {
    if b in t.pieces {
      var k :| k in t.pieces[b];
      FirstWins(NO_TABLES, read, k);
      FirstFound(read, k);
    }
  }

  /** A well-formed value without starred names says its type in lower case and exactly its parameters,
      names in lower case, with escapes taken back. */
  lemma WellFormedSays(v: bytes, typ: bytes, ps: seq<ParamText>, end: bytes)
    requires IsMadeOf(v, typ, ps, end) && ArePlain(ps)
    ensures Parse(v).mediatype == Lower(TrimSpace(typ)) && Parse(v).params.Some? && Parse(v).err == None
    ensures HoldsExactly(Parse(v).params.value, ps)
  {
    var tail := AllWritten(ps) + end;
    assert v[|typ|..] == tail && v[..|typ|] == typ;
    TypeEndIs(v, |typ|);
    ParamsAreRead(ps, end);
    SameNames(ps, ReadParams(tail).0);
    PlainParamsCollected(ps, ReadParams(tail).0);
    WellFormedNeedsNoRepair(v, typ, ps, end);
    NilErrorIffNoRepair(v);
    TypeIsKept(typ);
    ParsedAs(v, typ, tail);
  }

  lemma TypeIsKept(typ: bytes)
    requires IsTypeText(TrimSpace(typ))
    ensures CheckType(TrimSpace(Lower(typ))).0 == Lower(TrimSpace(typ))
  {
    TrimOfLower(typ);
    LowerIsTypeText(TrimSpace(typ));
    TypeChecks(Lower(TrimSpace(typ)));
  }

  lemma ParsedAs(v: bytes, typ: bytes, tail: bytes)
    requires v != [] && v[..TypeEnd(v)] == typ && v[TypeEnd(v)..] == tail
    requires CollectAll(NO_TABLES, ReadParams(tail).0).pieces == map[]
    ensures Parse(v).mediatype == CheckType(TrimSpace(Lower(typ))).0
    ensures Parse(v).params == Some(CollectAll(NO_TABLES, ReadParams(tail).0).params)
  {
    var t := CollectAll(NO_TABLES, ReadParams(tail).0);
    assert StitchAll(t) == t.params;
  }

  predicate AreStarred(ps: seq<ParamText>) {
    forall i :: 0 <= i < |ps| ==> BaseName(Lower(ps[i].name)).Some?
  }

  /** Behind a trailing semicolon nothing is stitched: starred parameters are dropped without an error. */
  lemma SemicolonDropsStarred(v: bytes, typ: bytes, ps: seq<ParamText>, end: bytes)
    requires IsMadeOf(v, typ, ps, end) && !IsWhite(end) && AreStarred(ps)
    ensures Parse(v).params == Some(map[]) && Parse(v).err == None
  {
    var tail := AllWritten(ps) + end;
    assert v[|typ|..] == tail && v[..|typ|] == typ;
    TypeEndIs(v, |typ|);
    ParamsAreRead(ps, end);
    WellFormedNeedsNoRepair(v, typ, ps, end);
    NilErrorIffNoRepair(v);
    StarredAreNotPlain(ps, ReadParams(tail).0);
    ParsedUnstitched(v, tail);
  }

  lemma StarredAreNotPlain(ps: seq<ParamText>, read: seq<Param>)
    requires HaveKeys(ps, read) && AreStarred(ps)
    ensures CollectAll(NO_TABLES, read).params == map[]
  {
    var t := CollectAll(NO_TABLES, read);
    FirstWins(NO_TABLES, read, []);
    forall k
      ensures k !in t.params
    {
      FirstWins(NO_TABLES, read, k);
      FirstFound(read, k);
      assert k in t.params ==> Lookup(t, k).Some?;
    }
  }

  lemma ParsedUnstitched(v: bytes, tail: bytes)
    requires v != [] && v[TypeEnd(v)..] == tail && ReadParams(tail).1 == TrailingSemicolon
    ensures Parse(v).params == Some(CollectAll(NO_TABLES, ReadParams(tail).0).params)
  {
  }

  // ---------- types that are repaired ----------

  /** A text in front of which there is no token. */
  predicate StartsNoToken(s: bytes) {
    s == [] || !IsTokenChar(s[0])
  }

  /** What is made of a type that is none, one case after the other. */
  lemma TypeIsRepaired(typ: bytes, sub: bytes, rest: bytes)
    requires IsToken(typ) && IsToken(sub) && StartsNoToken(rest)
    ensures CheckType(rest) == (UNKNOWN, Some(NoMediaType))
    ensures rest != [] && rest[0] != SLASH ==> CheckType(typ + rest) == (typ + [SLASH] + UNKNOWN, Some(NoSlash))
    ensures CheckType(typ + ([SLASH] + rest)) == (typ + [SLASH] + UNKNOWN, Some(TokenSlash))
    ensures rest != [] ==>
              CheckType(typ + ([SLASH] + (sub + rest))) == (typ + [SLASH] + sub, Some(UnexpectedContent))
  {
    TokenLengthIs([], rest);
    assert [] + rest == rest;
    TokenLengthIs(typ, rest);
    SubtypeIsMissing(typ, rest);
    ContentIsUnexpected(typ, sub, rest);
  }

  lemma SubtypeIsMissing(typ: bytes, rest: bytes)
    requires IsToken(typ) && StartsNoToken(rest)
    ensures CheckType(typ + ([SLASH] + rest)) == (typ + [SLASH] + UNKNOWN, Some(TokenSlash))
  {
    TokenLengthIs(typ, [SLASH] + rest);
    TokenLengthIs([], rest);
    assert [] + rest == rest && ([SLASH] + rest)[1..] == rest;
  }

  lemma ContentIsUnexpected(typ: bytes, sub: bytes, rest: bytes)
    requires IsToken(typ) && IsToken(sub) && StartsNoToken(rest)
    ensures rest != [] ==>
              CheckType(typ + ([SLASH] + (sub + rest))) == (typ + [SLASH] + sub, Some(UnexpectedContent))
  {
    var s := [SLASH] + (sub + rest);
    TokenLengthIs(typ, s);
    TokenLengthIs(sub, rest);
    assert s[1..] == sub + rest && s[1..1 + |sub|] == sub && s[1 + |sub|..] == rest;
  }
}
