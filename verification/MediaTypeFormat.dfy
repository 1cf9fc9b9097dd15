/** Formatting a media type, and reading back what was formatted. */
module MediaTypeFormat {
  import opened Bytes
  import opened Runes
  import opened MediaType
  import opened MediaTypeLaws

  // ---------- formatting ----------

  /** The source refuses a character whose code has the bit 0x80 set: every invalid byte, and the
      multi-byte characters with that bit in their last but one byte. */
  predicate IsRefused(s: bytes)
    requires s != []
  {
    var n := RuneLen(s);
    if n == 1 then s[0] >= 0x80 else s[n - 2] / 2 % 2 == 1
  }

  /** The text between the quotes: a backslash before every quote and backslash. */
  function QuoteText(v: bytes): Option<bytes>
    decreases |v|
  {
    if v == [] then Some([])
    else if IsRefused(v) then None
    else
      var n := RuneLen(v);
      match QuoteText(v[n..])
      case None => None
      case Some(q) => Some((if v[0] == QUOTE || v[0] == BACKSLASH then [BACKSLASH] else []) + (v[..n] + q))
  }

  function FormatValue(v: bytes): Option<bytes> {
    if IsToken(v) then Some(v)
    else
      match QuoteText(v)
      case None => None
      case Some(q) => Some([QUOTE] + (q + [QUOTE]))
  }

  function FormatParam(p: Param): Option<bytes> {
    if !IsToken(p.key) || FormatValue(p.value) == None then None
    else Some([SEMICOLON, SPACE] + (Lower(p.key) + ([EQUALS] + FormatValue(p.value).value)))
  }

  function FormatParams(ps: seq<Param>): Option<bytes> {
    if ps == [] then Some([])
    else if FormatParam(ps[0]) == None || FormatParams(ps[1..]) == None then None
    else Some(FormatParam(ps[0]).value + FormatParams(ps[1..]).value)
  }

  /** A token, or two tokens with a slash between them. */
  predicate IsTypeText(t: bytes) {
    var i := IndexByte(t, SLASH);
    if i == -1 then IsToken(t) else IsToken(t[..i]) && IsToken(t[i + 1..])
  }

  /** `FormatMediaType` with the attributes in the order `attrs`; None stands for the empty string. */
  function Format(t: bytes, param: Table, attrs: seq<bytes>): Option<bytes>
    requires forall i :: 0 <= i < |attrs| ==> attrs[i] in param
  {
    if !IsTypeText(t) then None
    else
      match FormatParams(Params(param, attrs))
      case None => None
      case Some(x) => Some(Lower(t) + x)
  }

  function Params(param: Table, attrs: seq<bytes>): seq<Param>
    requires forall i :: 0 <= i < |attrs| ==> attrs[i] in param
  {
    seq(|attrs|, i requires 0 <= i < |attrs| => Param(attrs[i], param[attrs[i]]))
  }

  // ---------- what can be formatted ----------

  /** The test of bit 0x80, on the code of the character in front. */
  lemma RefusedByCode(s: bytes)
    requires s != []
    ensures IsRefused(s) <==> CodePoint(s) / 128 % 2 == 1
  {
    var n := RuneLen(s);
    if n > 1 {
      var a: int, b: int := s[0], s[n - 2];
      LowBits(b);
      if n == 2 {
        BitOf(a % 32, Low(s, 1));
      } else if n == 3 {
        CodeBit(a % 16, Low(s, 1), Low(s, 2));
      } else {
        CodeBit(a % 8 * 64 + Low(s, 1), Low(s, 2), Low(s, 3));
        Regroup(a % 8, Low(s, 1), Low(s, 2), Low(s, 3));
      }
    }
  }

  lemma LowBits(b: int)
    requires 0 <= b < 256
    ensures b % 64 / 2 % 2 == b / 2 % 2 && b % 32 / 2 % 2 == b / 2 % 2
  {
    SixBits(b / 64, b % 64);
    FiveBits(b / 32, b % 32);
  }

  lemma SixBits(high: int, low: int)
    ensures low / 2 % 2 == (high * 64 + low) / 2 % 2
  {
    SecondBit(high, low);
  }

  lemma FiveBits(high: int, low: int)
    ensures low / 2 % 2 == (high * 32 + low) / 2 % 2
  {
    assert (high * 32 + low) / 2 == high * 8 * 2 + low / 2;
    AddEven(high * 8, low / 2);
  }

  lemma AddEven(n: int, x: int)
    ensures (n * 2 + x) % 2 == x % 2
  {
  }

  lemma CodeBit(high: int, middle: int, low: int)
    requires 0 <= low < 64
    ensures (high * 4096 + middle * 64 + low) / 128 % 2 == middle / 2 % 2
  {
    assert high * 4096 + middle * 64 + low == (high * 64 + middle) * 64 + low;
    BitOf(high * 64 + middle, low);
    SecondBit(high, middle);
  }

  lemma Regroup(a: int, b: int, c: int, d: int)
    ensures a * 262144 + b * 4096 + c * 64 + d == (a * 64 + b) * 4096 + c * 64 + d
  {
  }

  lemma BitOf(high: int, low: int)
    requires 0 <= low < 64
    ensures (high * 64 + low) / 128 % 2 == high / 2 % 2
  {
  }

  lemma SecondBit(high: int, low: int)
    ensures (high * 64 + low) / 2 % 2 == low / 2 % 2
  {
    assert (high * 64 + low) / 2 == high * 16 * 2 + low / 2;
    AddEven(high * 16, low / 2);
  }

  /** No character of the text has the bit 0x80 in its code. */
  predicate LacksBit80(v: bytes)
    decreases |v|
  {
    v == [] || (CodePoint(v) / 128 % 2 == 0 && LacksBit80(v[RuneLen(v)..]))
  }

  lemma {:induction false} QuotedIff(v: bytes)
    ensures QuoteText(v).Some? <==> LacksBit80(v)
    decreases |v|
  {
    if v != [] {
      RefusedByCode(v);
      QuotedIff(v[RuneLen(v)..]);
    }
  }

  lemma {:induction false} AsciiLacksBit80(v: bytes)
    requires forall k :: 0 <= k < |v| ==> v[k] < 0x80
    ensures LacksBit80(v)
    decreases |v|
  {
    if v != [] {
      assert RuneLen(v) == 1;
      AsciiLacksBit80(v[1..]);
    }
  }

  predicate IsFormattable(name: bytes, value: bytes) {
    IsToken(name) && (IsToken(value) || LacksBit80(value))
  }

  lemma {:induction false} ParamsFormatIff(ps: seq<Param>)
    ensures FormatParams(ps).Some? <==> forall i :: 0 <= i < |ps| ==> IsFormattable(ps[i].key, ps[i].value)
  {
    if ps != [] {
      QuotedIff(ps[0].value);
      ParamsFormatIff(ps[1..]);
      assert forall i :: 0 < i < |ps| ==> ps[i] == ps[1..][i - 1];
      FormattableInFront(ps);
    }
  }

  lemma FormattableInFront(ps: seq<Param>)
    requires ps != []
    ensures (forall i :: 0 <= i < |ps| ==> IsFormattable(ps[i].key, ps[i].value))
            <==> IsFormattable(ps[0].key, ps[0].value)
                 && forall i :: 0 <= i < |ps[1..]| ==> IsFormattable(ps[1..][i].key, ps[1..][i].value)
  {
    assert forall i :: 0 < i < |ps| ==> ps[i] == ps[1..][i - 1];
    if forall i :: 0 <= i < |ps| ==> IsFormattable(ps[i].key, ps[i].value) {
      forall i | 0 <= i < |ps[1..]|
        ensures IsFormattable(ps[1..][i].key, ps[1..][i].value)
      {
        assert IsFormattable(ps[i + 1].key, ps[i + 1].value);
      }
    }
  }

  /** Something is formatted if and only if the type is a type text, every name is a token, and every
      value is a token or has no character with the bit 0x80 in its code. */
  lemma FormatsIff(t: bytes, param: Table, attrs: seq<bytes>)
    requires Lists(attrs, param)
    ensures Format(t, param, attrs).Some? <==> IsTypeText(t) && forall k :: k in param ==> IsFormattable(k, param[k])
  {
    var ps := Params(param, attrs);
    ParamsFormatIff(ps);
    if forall i :: 0 <= i < |ps| ==> IsFormattable(ps[i].key, ps[i].value) {
      forall k | k in param
        ensures IsFormattable(k, param[k])
      {
        var i :| 0 <= i < |attrs| && attrs[i] == k;
        assert IsFormattable(ps[i].key, ps[i].value);
      }
    }
  }

  // ---------- values ----------

  predicate HasNewline(v: bytes) {
    exists k :: 0 <= k < |v| && (v[k] == CR || v[k] == LF)
  }

  /** A quoted text with `u` in front of it, which took `taken` bytes. */
  function Ahead(u: bytes, taken: nat, q: Quoted): Quoted {
    match q case Unterminated => Unterminated case Text(text, length) => Text(u + text, taken + length)
  }

  lemma ReadPlain(v: bytes, u: bytes, more: bytes)
    requires v != [] && u == v[..RuneLen(v)] && !IsRefused(v) && v[0] != QUOTE && v[0] != BACKSLASH
    ensures ReadQuoted(u + more, false)
            == if v[0] == CR || v[0] == LF then Unterminated else Ahead(u, |u|, ReadQuoted(more, false))
  {
    ReadOneRune(v, u, more);
  }

  lemma ReadEscaped(v: bytes, u: bytes, more: bytes)
    requires v != [] && u == v[..RuneLen(v)] && !IsRefused(v) && (v[0] == QUOTE || v[0] == BACKSLASH)
    ensures ReadQuoted([BACKSLASH] + (u + more), false) == Ahead(u, 1 + |u|, ReadQuoted(more, false))
  {
    ReadOneRune(v, u, more);
    var x := [BACKSLASH] + (u + more);
    assert x[RuneLen(x)..] == u + more;
    assert ReadQuoted(u + more, true) == Ahead(u, |u|, ReadQuoted(more, false));
    if ReadQuoted(more, false).Text? {
      assert [] + (u + ReadQuoted(more, false).text) == u + ReadQuoted(more, false).text;
    }
  }

  /** How many quotes and backslashes there are. */
  function Specials(v: bytes): nat {
    if v == [] then 0 else (if v[0] == QUOTE || v[0] == BACKSLASH then 1 else 0) + Specials(v[1..])
  }

  lemma {:induction false} NoSpecialsInCharacter(v: bytes, n: nat)
    requires n <= |v| && forall k :: 0 <= k < n ==> v[k] >= 0x80
    ensures Specials(v) == Specials(v[n..])
    decreases n
  {
    if n > 0 {
      NoSpecialsInCharacter(v[1..], n - 1);
      DropDrop(v, 1, n - 1);
    } else {
      assert v[0..] == v;
    }
  }

  /** Quoting adds one backslash for each quote and backslash, and nothing else. */
  lemma {:induction false} QuotedLength(v: bytes)
    requires QuoteText(v).Some?
    ensures |QuoteText(v).value| == |v| + Specials(v)
    ensures Specials(v) == 0 ==> QuoteText(v).value == v
    decreases |v|
  {
    if v != [] {
      var n := RuneLen(v);
      var u, t := v[..n], v[n..];
      assert v == u + t;
      QuotedLength(t);
      QuoteParts(v, QuoteText(v).value, QuoteText(t).value);
      SpecialsInFront(v, n);
    }
  }

  lemma SpecialsInFront(v: bytes, n: nat)
    requires v != [] && n == RuneLen(v)
    ensures Specials(v) == (if v[0] == QUOTE || v[0] == BACKSLASH then 1 else 0) + Specials(v[n..])
  {
    if n > 1 {
      NoSpecialsInCharacter(v, n);
    }
  }

  lemma QuoteParts(v: bytes, q: bytes, rest: bytes)
    requires v != [] && QuoteText(v) == Some(q) && QuoteText(v[RuneLen(v)..]) == Some(rest)
    ensures q == if v[0] == QUOTE || v[0] == BACKSLASH then [BACKSLASH] + (v[..RuneLen(v)] + rest)
                 else v[..RuneLen(v)] + rest
  {
    assert [] + (v[..RuneLen(v)] + rest) == v[..RuneLen(v)] + rest;
  }

  /** The first character of a quoted text is read as itself. */
  lemma {:induction false} ReadFirst(v: bytes, q: bytes, rest: bytes, end: bytes)
    requires v != [] && !IsRefused(v)
    requires q == if v[0] == QUOTE || v[0] == BACKSLASH then [BACKSLASH] + (v[..RuneLen(v)] + rest)
                  else v[..RuneLen(v)] + rest
    ensures ReadQuoted(q + end, false)
            == if v[0] == CR || v[0] == LF then Unterminated
               else Ahead(v[..RuneLen(v)], |q| - |rest|, ReadQuoted(rest + end, false))
  {
    var u := v[..RuneLen(v)];
    Assoc(u, rest, end);
    if v[0] == QUOTE || v[0] == BACKSLASH {
      Assoc([BACKSLASH], u + rest, end);
      ReadEscaped(v, u, rest + end);
    } else {
      ReadPlain(v, u, rest + end);
    }
  }

  lemma RestIsQuoted(v: bytes, q: bytes)
    requires v != [] && QuoteText(v) == Some(q)
    ensures QuoteText(v[RuneLen(v)..]).Some? && |QuoteText(v[RuneLen(v)..]).value| <= |q|
  {
  }

  /** Quoting is undone by reading, unless there is a newline in the text. */
  lemma {:induction false} QuotedReadsBack(v: bytes, q: bytes, end: bytes)
    requires QuoteText(v) == Some(q) && end != [] && end[0] == QUOTE
    ensures ReadQuoted(q + end, false) == if HasNewline(v) then Unterminated else Text(v, |q| + 1)
    decreases |v|
  {
    if v == [] {
      assert [] + end == end;
    } else {
      var n := RuneLen(v);
      RestIsQuoted(v, q);
      var rest := QuoteText(v[n..]).value;
      QuotedReadsBack(v[n..], rest, end);
      QuoteParts(v, q, rest);
      ReadFirst(v, q, rest, end);
      PutInFront(v, ReadQuoted(q + end, false), |q|, ReadQuoted(rest + end, false), |rest|);
    }
  }

  lemma PutInFront(v: bytes, x: Quoted, length: nat, y: Quoted, restLength: nat)
    requires v != [] && restLength <= length
    requires x == if v[0] == CR || v[0] == LF then Unterminated else Ahead(v[..RuneLen(v)], length - restLength, y)
    requires y == if HasNewline(v[RuneLen(v)..]) then Unterminated else Text(v[RuneLen(v)..], restLength + 1)
    ensures x == if HasNewline(v) then Unterminated else Text(v, length + 1)
  {
    NewlineInFront(v);
    assert v == v[..RuneLen(v)] + v[RuneLen(v)..];
  }

  lemma NewlineInFront(v: bytes)
    requires v != []
    ensures HasNewline(v) <==> v[0] == CR || v[0] == LF || HasNewline(v[RuneLen(v)..])
  {
    var n := RuneLen(v);
    if HasNewline(v[n..]) {
      var k :| 0 <= k < |v[n..]| && (v[n..][k] == CR || v[n..][k] == LF);
      assert v[n + k] == v[n..][k];
    }
    if HasNewline(v) {
      var k :| 0 <= k < |v| && (v[k] == CR || v[k] == LF);
      if k >= n {
        assert v[n..][k - n] == v[k];
      }
    }
  }

  /** One character in front of anything is read as itself. */
  lemma ReadOneRune(v: bytes, u: bytes, more: bytes)
    requires v != [] && u == v[..RuneLen(v)] && !IsRefused(v)
    ensures RuneLen(u + more) == |u| && (u + more)[..|u|] == u && (u + more)[|u|..] == more
    ensures FirstRune(u + more) == u
  {
    assert RuneLen(u) == |u|;
    RuneLenOfPrefix(u, more);
  }

  predicate StartsParam(tail: bytes) {
    tail == [] || tail[0] == SEMICOLON
  }

  /** A formatted value in front of the next parameter is consumed exactly, unless it is empty or
      has a newline in it: then it is not consumed at all. */
  lemma ValueReadsBack(v: bytes, tail: bytes)
    requires FormatValue(v).Some? && StartsParam(tail)
    ensures var r := ConsumeValue(FormatValue(v).value + tail);
            if v == [] || HasNewline(v) then r.0 == [] else r == (v, tail)
  {
    if IsToken(v) {
      TokenLengthIs(v, tail);
      assert forall k :: 0 <= k < |v| ==> v[k] != CR && v[k] != LF;
    } else {
      var q := QuoteText(v).value;
      var x := q + ([QUOTE] + tail);
      assert FormatValue(v).value + tail == [QUOTE] + x;
      assert ([QUOTE] + x)[1..] == x;
      QuotedReadsBack(v, q, [QUOTE] + tail);
      assert ([QUOTE] + x)[1 + (|q| + 1)..] == tail;
    }
  }

  // ---------- parameters ----------

  lemma {:induction false} NothingToTrim(v: bytes)
    requires v == [] || !IsSpace(v[0])
    ensures TrimLeft(v) == v && TrimLeft([SPACE] + v) == v
  {
    assert ([SPACE] + v)[1..] == v;
  }

  lemma LowerToken(k: bytes)
    requires IsToken(k)
    ensures IsToken(Lower(k)) && Lower(Lower(k)) == Lower(k)
  {
  }

  predicate IsReadable(v: bytes) {
    v != [] && !HasNewline(v)
  }

  /** A formatted parameter in front of the next one is read back, its name in lower case. */
  lemma ParamReadsBack(p: Param, tail: bytes)
    requires FormatParam(p).Some? && StartsParam(tail)
    ensures ConsumeMediaParam(FormatParam(p).value + tail)
            == if IsReadable(p.value) then Some((Param(Lower(p.key), p.value), tail)) else None
  {
    LowerToken(p.key);
    var key, value := Lower(p.key), FormatValue(p.value).value;
    var c := [EQUALS] + (value + tail);
    var b := key + c;
    var w := FormatParam(p).value + tail;
    assert w == [SEMICOLON] + ([SPACE] + b);
    assert w[1..] == [SPACE] + b;
    NothingToTrim(w);
    NothingToTrim(b);
    TokenLengthIs(key, c);
    NothingToTrim(c);
    assert c[1..] == value + tail;
    ValueStart(p.value, tail);
    NothingToTrim(value + tail);
    ValueReadsBack(p.value, tail);
    assert Lower(b[..|key|]) == key;
  }

  lemma ValueStart(v: bytes, tail: bytes)
    requires FormatValue(v).Some?
    ensures var x := FormatValue(v).value; x != [] && !IsSpace(x[0]) && x + tail != [] && (x + tail)[0] == x[0]
  {
  }

  function LowerKeys(ps: seq<Param>): (r: seq<Param>)
    ensures |r| == |ps| && forall i :: 0 <= i < |ps| ==> r[i] == Param(Lower(ps[i].key), ps[i].value)
  {
    seq(|ps|, i requires 0 <= i < |ps| => Param(Lower(ps[i].key), ps[i].value))
  }

  predicate AreReadable(ps: seq<Param>) {
    forall i :: 0 <= i < |ps| ==> IsReadable(ps[i].value)
  }

  lemma FormattedStarts(ps: seq<Param>)
    requires FormatParams(ps).Some?
    ensures StartsParam(FormatParams(ps).value)
    ensures ps != [] ==> |FormatParams(ps).value| > 1 && FormatParams(ps).value[1] == SPACE
  {
  }

  lemma ReadableStep(ps: seq<Param>)
    requires ps != []
    ensures AreReadable(ps) <==> IsReadable(ps[0].value) && AreReadable(ps[1..])
    ensures LowerKeys(ps) == [Param(Lower(ps[0].key), ps[0].value)] + LowerKeys(ps[1..])
  {
    assert forall i :: 0 < i < |ps| ==> ps[i] == ps[1..][i - 1];
  }

  /** One turn of the parameter loop on a formatted text. */
  lemma {:induction false} TurnReadsBack(ps: seq<Param>)
    requires FormatParams(ps).Some? && ps != []
    ensures ReadParams(FormatParams(ps).value)
            == if IsReadable(ps[0].value)
               then
                 var r := ReadParams(FormatParams(ps[1..]).value);
                 ([Param(Lower(ps[0].key), ps[0].value)] + r.0, r.1)
               else ([], BadParam)
  {
    var x := FormatParams(ps).value;
    NothingToTrim(x);
    FormattedStarts(ps[1..]);
    ParamReadsBack(ps[0], FormatParams(ps[1..]).value);
    NotOnlySemicolon(ps);
  }

  /** The parameter loop reads back all parameters and finishes, or stops with an error at the first
      value that is empty or has a newline in it. */
  lemma {:induction false} ParamsReadBack(ps: seq<Param>)
    requires FormatParams(ps).Some?
    ensures var r := ReadParams(FormatParams(ps).value);
            if AreReadable(ps) then r == (LowerKeys(ps), Finished) else r.1 == BadParam
    decreases |ps|
  {
    if ps == [] {
      assert LowerKeys(ps) == [];
    } else {
      ParamsReadBack(ps[1..]);
      TurnReadsBack(ps);
      ReadableStep(ps);
    }
  }

  /** A parameter that was formatted is never taken for a trailing semicolon. */
  lemma NotOnlySemicolon(ps: seq<Param>)
    requires FormatParams(ps).Some? && ps != []
    ensures TrimSpace(FormatParams(ps).value) != [SEMICOLON]
  {
    var x := FormatParams(ps).value;
    NothingToTrim(x);
    var p := FormatParam(ps[0]).value;
    assert x[2] == p[2] == Lower(ps[0].key)[0];
    LowerToken(ps[0].key);
    TrimTailKeeps(x, 2);
  }

  lemma {:induction false} TrimTailKeeps(x: bytes, k: nat)
    requires k < |x| && !IsSpace(x[k])
    ensures |TrimTail(x)| > k
    decreases |x|
  {
    if IsSpace(x[|x| - 1]) {
      TrimTailKeeps(x[..|x| - 1], k);
    }
  }

  // ---------- whole values ----------

  /** The attribute names, each once. */
  predicate Lists(attrs: seq<bytes>, param: Table) {
    && (forall i :: 0 <= i < |attrs| ==> attrs[i] in param)
    && (forall i, j :: 0 <= i < j < |attrs| ==> attrs[i] != attrs[j])
    && forall k :: k in param ==> k in attrs
  }

  /** A parameter that survives: its name is in lower case without a star, and its value can be read. */
  predicate Survives(key: bytes, value: bytes) {
    Lower(key) == key && (forall i :: 0 <= i < |key| ==> key[i] != STAR) && IsReadable(value)
  }

  predicate AllSurvive(param: Table) {
    forall k :: k in param ==> Survives(k, param[k])
  }

  lemma StarIndex(key: bytes)
    ensures BaseName(key) == None <==> forall i :: 0 <= i < |key| ==> key[i] != STAR
    ensures BaseName(key).Some? ==> forall i :: 0 <= i < |BaseName(key).value| ==> BaseName(key).value[i] != STAR
    ensures BaseName(key).Some? ==> BaseName(key).value <= key
  {
    IndexIsFirst(key, [STAR]);
    forall i | 0 <= i < |key|
      ensures OccursAt(key, [STAR], i) <==> key[i] == STAR
    {
      assert key[i..][0] == key[i];
    }
    if BaseName(key) == None {
      forall i | 0 <= i < |key|
        ensures key[i] != STAR
      {
        assert !OccursAt(key, [STAR], i);
      }
    } else {
      assert OccursAt(key, [STAR], |BaseName(key).value|);
    }
  }

  predicate IsResultKey(k: bytes) {
    Lower(k) == k && forall i :: 0 <= i < |k| ==> k[i] != STAR
  }

  predicate HasLowerKeys(ps: seq<Param>) {
    forall i :: 0 <= i < |ps| ==> Lower(ps[i].key) == ps[i].key
  }

  lemma CollectedKeyIsLower(ps: seq<Param>, key: bytes)
    requires HasLowerKeys(ps) && Lookup(CollectAll(NO_TABLES, ps), key).Some?
    ensures Lower(key) == key
  {
    FirstWins(NO_TABLES, ps, key);
    FirstFound(ps, key);
  }

  lemma BaseIsResultKey(ps: seq<Param>, base: bytes)
    requires HasLowerKeys(ps) && base in CollectAll(NO_TABLES, ps).pieces
    ensures IsResultKey(base)
  {
    var t := CollectAll(NO_TABLES, ps);
    FirstWins(NO_TABLES, ps, []);
    var k :| k in t.pieces[base];
    CollectedKeyIsLower(ps, k);
    StarIndex(k);
    LowerPrefix(k, base);
  }

  /** Names in the result are in lower case and have no star. */
  lemma ResultKeys(ps: seq<Param>, key: bytes)
    requires HasLowerKeys(ps) && key in StitchAll(CollectAll(NO_TABLES, ps))
    ensures IsResultKey(key)
  {
    var t := CollectAll(NO_TABLES, ps);
    if key in t.params {
      FirstWins(NO_TABLES, ps, []);
      CollectedKeyIsLower(ps, key);
      StarIndex(key);
    } else {
      BaseIsResultKey(ps, key);
    }
  }

  lemma LowerPrefix(k: bytes, p: bytes)
    requires p <= k && Lower(k) == k
    ensures Lower(p) == p
  {
    assert forall i :: 0 <= i < |p| ==> Lower(p)[i] == LowerByte(p[i]) == Lower(k)[i];
  }

  /** Distinct plain parameters are collected as they are. */
  lemma PlainCollected(param: Table, attrs: seq<bytes>)
    requires Lists(attrs, param) && forall k :: k in param ==> BaseName(k) == None
    ensures CollectAll(NO_TABLES, Params(param, attrs)) == Tables(param, map[], 0)
  {
    var t := CollectAll(NO_TABLES, Params(param, attrs));
    assert AreDistinct(Params(param, attrs));
    DuplicatesCounted(NO_TABLES, Params(param, attrs));
    forall k
      ensures k in t.params <==> k in param
      ensures k in param ==> t.params[k] == param[k]
    {
      PlainEntry(param, attrs, k);
    }
    forall b
      ensures b !in t.pieces
    {
      NoPieces(param, attrs, b);
    }
  }

  lemma PlainEntry(param: Table, attrs: seq<bytes>, k: bytes)
    requires Lists(attrs, param) && forall k :: k in param ==> BaseName(k) == None
    ensures var t := CollectAll(NO_TABLES, Params(param, attrs));
            (k in t.params <==> k in param) && (k in param ==> t.params[k] == param[k])
  {
    PlainFirst(param, attrs, k);
    FirstWins(NO_TABLES, Params(param, attrs), k);
  }

  lemma NoPieces(param: Table, attrs: seq<bytes>, b: bytes)
    requires Lists(attrs, param) && forall k :: k in param ==> BaseName(k) == None
    ensures b !in CollectAll(NO_TABLES, Params(param, attrs)).pieces
  {
    var t := CollectAll(NO_TABLES, Params(param, attrs));
    FirstWins(NO_TABLES, Params(param, attrs), []);
    if b in t.pieces {
      var k :| k in t.pieces[b];
      PlainFirst(param, attrs, k);
      FirstWins(NO_TABLES, Params(param, attrs), k);
    }
  }

  lemma PlainFirst(param: Table, attrs: seq<bytes>, k: bytes)
    requires Lists(attrs, param)
    ensures First(Params(param, attrs), k) == if k in param then Some(param[k]) else None
  {
    var ps := Params(param, attrs);
    FirstFound(ps, k);
    if k in param {
      var i :| 0 <= i < |attrs| && attrs[i] == k;
      assert ps[i] == Param(k, param[k]);
    }
  }

  predicate IsTypeChar(b: byte) {
    IsTokenChar(b) || b == SLASH
  }

  lemma TypeChars(t: bytes)
    requires IsTypeText(t)
    ensures t != [] && forall k :: 0 <= k < |t| ==> IsTypeChar(t[k])
  {
    var i := IndexByte(t, SLASH);
    if i != -1 {
      assert forall k :: 0 <= k < i ==> t[k] == t[..i][k];
      assert forall k :: i < k < |t| ==> t[k] == t[i + 1..][k - i - 1];
    }
  }

  lemma LowerIsTypeText(t: bytes)
    requires IsTypeText(t)
    ensures IsTypeText(Lower(t))
  {
    var i := IndexByte(t, SLASH);
    if i != -1 {
      IndexByteIs(Lower(t), SLASH, i);
      LowerToken(t[..i]);
      LowerToken(t[i + 1..]);
      assert Lower(t)[..i] == Lower(t[..i]) && Lower(t)[i + 1..] == Lower(t[i + 1..]);
    } else {
      LowerToken(t);
      assert IndexByte(Lower(t), SLASH) == -1;
    }
  }

  lemma LowerType(t: bytes)
    requires IsTypeText(t)
    ensures IsTypeText(Lower(t)) && Lower(Lower(t)) == Lower(t)
    ensures forall k :: 0 <= k < |t| ==> !IsSpace(Lower(t)[k]) && Lower(t)[k] != SEMICOLON
  {
    LowerIsTypeText(t);
    TypeChars(Lower(t));
  }

  lemma TypeChecks(t: bytes)
    requires IsTypeText(t)
    ensures CheckType(t) == (t, None)
  {
    var i := IndexByte(t, SLASH);
    if i == -1 {
      TokenLengthIs(t, []);
      assert t + [] == t;
    } else {
      assert t == t[..i] + ([SLASH] + t[i + 1..]);
      TokenLengthIs(t[..i], [SLASH] + t[i + 1..]);
      TokenLengthIs(t[i + 1..], []);
      assert t[i..][1..] == t[i + 1..] && t[i + 1..] + [] == t[i + 1..];
    }
  }

  /** The type in front of the parameters is found and left as it is. */
  lemma TypeReadsBack(t: bytes, x: bytes)
    requires IsTypeText(t) && Lower(t) == t && StartsParam(x)
    requires forall k :: 0 <= k < |t| ==> !IsSpace(t[k]) && t[k] != SEMICOLON
    ensures var v := t + x;
            var i := Index(v, [SEMICOLON]);
            var end := if i == -1 then |v| else i;
            v != [] && end == |t| && v[end..] == x && CheckType(TrimSpace(Lower(v[..end]))) == (t, None)
  {
    var v := t + x;
    IndexIsFirst(v, [SEMICOLON]);
    forall k | 0 <= k < |t|
      ensures !OccursAt(v, [SEMICOLON], k)
    {
      assert v[k..][0] == t[k];
    }
    if x != [] {
      assert v[|t|..] == x;
      assert OccursAt(v, [SEMICOLON], |t|);
    }
    assert v[..|t|] == t;
    TypeChecks(t);
  }

  /** Parsing a formatted value, in terms of the parameter loop. */
  lemma FormattedParses(t: bytes, x: bytes)
    requires IsTypeText(t) && StartsParam(x)
    ensures var (ps, ending) := ReadParams(x);
            var r := Parse(Lower(t) + x);
            && r.mediatype == Lower(t)
            && (ending == BadParam ==> r.err != None)
            && (ending == Finished ==> r.params == Some(StitchAll(CollectAll(NO_TABLES, ps))))
            && (ending == Finished && CollectAll(NO_TABLES, ps).duplicates == 0 ==> r.err == None)
  {
    LowerType(t);
    TypeReadsBack(Lower(t), x);
  }

  /** Formatting and parsing again gives back the type in lower case, exactly the parameters and a
      nil error, if and only if every name is in lower case and without a star, and every value is
      non-empty and without CR and LF. */
  lemma FormatThenParse(t: bytes, param: Table, attrs: seq<bytes>)
    requires Lists(attrs, param) && Format(t, param, attrs).Some?
    ensures Parse(Format(t, param, attrs).value) == Outcome(Lower(t), Some(param), None) <==> AllSurvive(param)
  {
    var ps := Params(param, attrs);
    var x := FormatParams(ps).value;
    FormattedStarts(ps);
    FormattedParses(t, x);
    ParamsReadBack(ps);
    if AllSurvive(param) {
      SurvivorsReadBack(param, attrs);
    } else if AreReadable(ps) {
      BadNameIsMissing(param, attrs);
    }
  }

  /** A concrete loss: a parameter with an empty value is formatted, and cannot be read back. */
  lemma EmptyValueIsLost()
    ensures var param: Table := map[[97] := []];
            && Format([116], param, [[97]]) == Some([116, SEMICOLON, SPACE, 97, EQUALS, QUOTE, QUOTE])
            && Parse([116, SEMICOLON, SPACE, 97, EQUALS, QUOTE, QUOTE]).err != None
  {
    var param: Table := map[[97] := []];
    var p := Param([97], []);
    var x: bytes := [SEMICOLON, SPACE, 97, EQUALS, QUOTE, QUOTE];
    assert Params(param, [[97]]) == [p];
    EmptyValueIsFormatted(p, x);
    assert Lower([116]) == [116] && [116] + x == [116, SEMICOLON, SPACE, 97, EQUALS, QUOTE, QUOTE];
    assert IndexByte([116], SLASH) == -1;
    FormattedParses([116], x);
    EmptyValueIsBad(p, x);
  }

  lemma EmptyValueIsBad(p: Param, x: bytes)
    requires p.value == [] && FormatParams([p]) == Some(x)
    ensures ReadParams(x).1 == BadParam
  {
    ParamsReadBack([p]);
    assert !IsReadable([p][0].value);
  }

  lemma EmptyValueIsFormatted(p: Param, x: bytes)
    requires p == Param([97], []) && x == [SEMICOLON, SPACE, 97, EQUALS, QUOTE, QUOTE]
    ensures FormatParams([p]) == Some(x)
  {
    assert [] + [QUOTE] == [QUOTE];
    assert FormatValue([]) == Some([QUOTE] + [QUOTE]);
    assert Lower([97]) == [97];
    assert [SEMICOLON, SPACE] + ([97] + ([EQUALS] + ([QUOTE] + [QUOTE]))) == x;
    assert FormatParam(p) == Some(x);
    assert [p][1..] == [] && x + [] == x;
  }

  lemma SurvivorsReadBack(param: Table, attrs: seq<bytes>)
    requires Lists(attrs, param) && AllSurvive(param)
    ensures var ps := Params(param, attrs);
            AreReadable(ps) && LowerKeys(ps) == ps && CollectAll(NO_TABLES, ps) == Tables(param, map[], 0)
    ensures StitchAll(Tables(param, map[], 0)) == param
  {
    forall k | k in param
      ensures BaseName(k) == None
    {
      StarIndex(k);
    }
    PlainCollected(param, attrs);
  }

  lemma BadNameIsMissing(param: Table, attrs: seq<bytes>)
    requires Lists(attrs, param) && !AllSurvive(param) && AreReadable(Params(param, attrs))
    ensures StitchAll(CollectAll(NO_TABLES, LowerKeys(Params(param, attrs)))) != param
  {
    var ps := Params(param, attrs);
    var k :| k in param && !Survives(k, param[k]);
    var i :| 0 <= i < |attrs| && attrs[i] == k;
    assert IsReadable(ps[i].value);
    var r := StitchAll(CollectAll(NO_TABLES, LowerKeys(ps)));
    if k in r {
      ResultKeys(LowerKeys(ps), k);
    }
  }
}
