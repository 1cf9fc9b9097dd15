/** Extended parameter values (RFC 2231) in terms of how they are written: what they say, and what
    parsing makes of a `name*` parameter and of the pieces `name*0`, `name*1*` and so on. */
module MediaTypeExtended {
  import opened Bytes
  import opened MediaType
  import opened MediaTypeLaws
  import opened MediaTypeFormat

  // ---------- percent escapes ----------

  /** A byte of an extended value: as it is, or as `%` and its two digits. */
  datatype Code = Raw(b: byte) | Percent(b: byte, hi: byte, lo: byte)

  predicate IsCode(c: Code) {
    match c
    case Raw(b) => b != PERCENT
    case Percent(b, hi, lo) => AreDigitsOf(hi, lo, b)
  }

  predicate AreCodes(cs: seq<Code>) {
    forall k :: 0 <= k < |cs| ==> IsCode(cs[k])
  }

  function Written(c: Code): bytes {
    match c case Raw(b) => [b] case Percent(_, hi, lo) => [PERCENT, hi, lo]
  }

  function AllWritten(cs: seq<Code>): bytes {
    if cs == [] then [] else Written(cs[0]) + AllWritten(cs[1..])
  }

  function AllMeant(cs: seq<Code>): bytes {
    if cs == [] then [] else [cs[0].b] + AllMeant(cs[1..])
  }

  lemma CodeIsUnescaped(c: Code, tail: bytes)
    requires IsCode(c)
    ensures Unescape(Written(c) + tail) == Prepend(c.b, Unescape(tail))
  {
    var s := Written(c) + tail;
    if c.Percent? {
      DigitsOfByte(c.hi, c.lo, c.b);
      assert s[3..] == tail;
    } else {
      assert s[1..] == tail;
    }
  }

  /** Escapes are undone, whatever their case and wherever they are used. */
  lemma {:induction false} CodesAreUnescaped(cs: seq<Code>, tail: bytes)
    requires AreCodes(cs)
    ensures Unescape(AllWritten(cs) + tail) == AppendTo(AllMeant(cs), Unescape(tail))
  {
    if cs == [] {
      assert [] + tail == tail;
      AppendNothing(Unescape(tail));
    } else {
      Assoc(Written(cs[0]), AllWritten(cs[1..]), tail);
      CodeIsUnescaped(cs[0], AllWritten(cs[1..]) + tail);
      CodesAreUnescaped(cs[1..], tail);
      AppendTwice([cs[0].b], AllMeant(cs[1..]), Unescape(tail));
    }
  }

  /** A percent sign without two digits behind it spoils the whole value. */
  lemma BadEscapeIsRefused(cs: seq<Code>, bad: bytes)
    requires AreCodes(cs) && bad != [] && bad[0] == PERCENT
    requires |bad| < 3 || (forall v :: 0 <= v < 16 ==> !IsDigitOf(bad[1], v))
             || (forall v :: 0 <= v < 16 ==> !IsDigitOf(bad[2], v))
    ensures Unescape(AllWritten(cs) + bad) == None
  {
    CodesAreUnescaped(cs, bad);
    if |bad| >= 3 {
      DigitsAreRead(bad[1]);
      DigitsAreRead(bad[2]);
    }
  }

  // ---------- charset, language and text ----------

  predicate HasNoApostrophe(s: bytes) {
    forall k :: 0 <= k < |s| ==> s[k] != APOSTROPHE
  }

  predicate IsKnownCharset(charset: bytes) {
    Lower(charset) == UTF8_NAME || Lower(charset) == ASCII_NAME
  }

  function ExtendedValue(charset: bytes, lang: bytes, cs: seq<Code>): bytes {
    charset + ([APOSTROPHE] + (lang + ([APOSTROPHE] + AllWritten(cs))))
  }

  lemma ApostropheAt(v: bytes, front: bytes, tail: bytes, from: nat)
    requires v == front + ([APOSTROPHE] + tail) && from <= |front|
    requires forall k :: from <= k < |front| ==> front[k] != APOSTROPHE
    ensures IndexFrom(v, [APOSTROPHE], from) == |front|
  {
    IndexFromIsFirst(v, [APOSTROPHE], from);
    assert v[|front|..] == [APOSTROPHE] + tail;
    assert OccursAt(v, [APOSTROPHE], |front|);
    forall k | from <= k < |front|
      ensures !OccursAt(v, [APOSTROPHE], k)
    {
      assert v[k..][0] == front[k];
    }
  }

  /** The text behind the second apostrophe is what the value says, if the charset is known; the
      language is not part of it. */
  lemma ExtendedIsDecoded(charset: bytes, lang: bytes, cs: seq<Code>)
    requires HasNoApostrophe(charset) && HasNoApostrophe(lang) && AreCodes(cs)
    ensures Decode2231(ExtendedValue(charset, lang, cs)) == if IsKnownCharset(charset) then AllMeant(cs) else []
  {
    var v := ExtendedValue(charset, lang, cs);
    ApostrophesAt(v, charset, lang, AllWritten(cs));
    CodesAreUnescaped(cs, []);
    assert AllWritten(cs) + [] == AllWritten(cs) && AllMeant(cs) + [] == AllMeant(cs);
  }

  lemma ApostrophesAt(v: bytes, charset: bytes, lang: bytes, text: bytes)
    requires v == charset + ([APOSTROPHE] + (lang + ([APOSTROPHE] + text)))
    requires HasNoApostrophe(charset) && HasNoApostrophe(lang)
    ensures var i, j := |charset|, |charset| + 1 + |lang|;
            && Index(v, [APOSTROPHE]) == i && IndexFrom(v, [APOSTROPHE], i + 1) == j
            && v[..i] == charset && j + 1 <= |v| && v[j + 1..] == text
  {
    var front := charset + ([APOSTROPHE] + lang);
    ApostropheAt(v, charset, lang + ([APOSTROPHE] + text), 0);
    assert v == front + ([APOSTROPHE] + text);
    assert forall k :: |charset| < k < |front| ==> front[k] == lang[k - |charset| - 1];
    ApostropheAt(v, front, text, |charset| + 1);
  }

  lemma ApostropheStands(v: bytes, k: int)
    ensures OccursAt(v, [APOSTROPHE], k) ==> 0 <= k < |v| && v[k] == APOSTROPHE
  {
    if OccursAt(v, [APOSTROPHE], k) {
      assert v[k..][0] == APOSTROPHE;
    }
  }

  /** A value with fewer than two apostrophes says nothing. */
  lemma FewApostrophesSayNothing(v: bytes)
    requires forall i, j :: 0 <= i < j < |v| && v[i] == APOSTROPHE ==> v[j] != APOSTROPHE
    ensures Decode2231(v) == []
  {
    var i := Index(v, [APOSTROPHE]);
    IndexIsFirst(v, [APOSTROPHE]);
    ApostropheStands(v, i);
    if i != -1 {
      IndexFromIsFirst(v, [APOSTROPHE], i + 1);
      ApostropheStands(v, IndexFrom(v, [APOSTROPHE], i + 1));
    }
  }

  // ---------- parameters as they are written ----------

  function ParamText(p: Param): bytes {
    [SEMICOLON, SPACE] + (p.key + ([EQUALS] + p.value))
  }

  function ParamTexts(ps: seq<Param>): bytes {
    if ps == [] then [] else ParamText(ps[0]) + ParamTexts(ps[1..])
  }

  predicate AreTokenParams(ps: seq<Param>) {
    forall i :: 0 <= i < |ps| ==> IsToken(ps[i].key) && Lower(ps[i].key) == ps[i].key && IsToken(ps[i].value)
  }

  lemma {:induction false} TextsAreFormatted(ps: seq<Param>)
    requires AreTokenParams(ps)
    ensures FormatParams(ps) == Some(ParamTexts(ps))
  {
    if ps != [] {
      TextsAreFormatted(ps[1..]);
      assert FormatParam(ps[0]) == Some(ParamText(ps[0]));
    }
  }

  /** Parsing parameters that are written so gives exactly their tables. */
  lemma TokenParamsParse(typ: bytes, ps: seq<Param>)
    requires IsTypeText(typ) && Lower(typ) == typ && AreTokenParams(ps) && AreDistinct(ps)
    ensures Parse(typ + ParamTexts(ps)) == Outcome(typ, Some(StitchAll(CollectAll(NO_TABLES, ps))), None)
  {
    TextsAreFormatted(ps);
    FormattedStarts(ps);
    FormattedParses(typ, ParamTexts(ps));
    ParamsReadBack(ps);
    assert LowerKeys(ps) == ps;
    DuplicatesCounted(NO_TABLES, ps);
  }

  // ---------- one base name ----------

  predicate HasNoStar(name: bytes) {
    forall k :: 0 <= k < |name| ==> name[k] != STAR
  }

  lemma BaseNameIs(name: bytes, x: bytes)
    requires HasNoStar(name)
    ensures BaseName(name + [STAR] + x) == Some(name)
  {
    var key := name + [STAR] + x;
    assert key[|name|..] == [STAR] + x;
    forall k | 0 <= k < |name|
      ensures !OccursAt(key, [STAR], k)
    {
      assert key[k..][0] == name[k];
    }
    IndexIs(key, [STAR], |name|);
    assert key[..|name|] == name;
  }

  predicate HaveBase(ps: seq<Param>, name: bytes) {
    forall i :: 0 <= i < |ps| ==> BaseName(ps[i].key) == Some(name)
  }

  /** The table of the only base name holds what the parameters say. */
  lemma OneBase(ps: seq<Param>, name: bytes)
    requires ps != [] && HaveBase(ps, name)
    ensures var t := CollectAll(NO_TABLES, ps);
            && t.params == map[] && t.pieces.Keys == {name}
            && forall k :: Lookup(t, k) == First(ps, k)
  {
    var t := CollectAll(NO_TABLES, ps);
    FirstWins(NO_TABLES, ps, []);
    forall k
      ensures Lookup(t, k) == First(ps, k)
      ensures First(ps, k).Some? ==> BaseName(k) == Some(name)
    {
      FirstWins(NO_TABLES, ps, k);
      FirstFound(ps, k);
    }
    forall k
      ensures k !in t.params
    {
      assert k in t.params ==> Lookup(t, k).Some?;
    }
    forall b
      ensures b in t.pieces <==> b == name
    {
      if b in t.pieces {
        var k :| k in t.pieces[b];
        assert Lookup(t, k).Some?;
      }
      assert Lookup(t, ps[0].key) == First(ps, ps[0].key);
    }
  }

  lemma StitchedAlone(t: Tables, name: bytes)
    requires t.params == map[] && t.pieces.Keys == {name} && Stitched(t.pieces[name], name).Some?
    ensures StitchAll(t) == map[name := Stitched(t.pieces[name], name).value]
  {
  }

  // ---------- `name*` ----------

  predicate IsName(name: bytes) {
    IsToken(name) && Lower(name) == name && HasNoStar(name)
  }

  lemma StarredIsToken(name: bytes, x: bytes)
    requires IsName(name) && (forall k :: 0 <= k < |x| ==> IsTokenChar(x[k])) && Lower(x) == x
    ensures IsToken(name + [STAR] + x) && Lower(name + [STAR] + x) == name + [STAR] + x
  {
    var key := name + [STAR] + x;
    forall k | 0 <= k < |key|
      ensures IsTokenChar(key[k]) && Lower(key)[k] == key[k]
    {
      assert k < |name| ==> key[k] == name[k] && Lower(name)[k] == name[k];
      assert k > |name| ==> key[k] == x[k - |name| - 1] && Lower(x)[k - |name| - 1] == x[k - |name| - 1];
    }
  }

  /** A `name*` parameter gives its decoded value under `name`. */
  lemma ExtendedParses(typ: bytes, name: bytes, charset: bytes, lang: bytes, cs: seq<Code>)
    requires IsTypeText(typ) && Lower(typ) == typ && IsName(name)
    requires IsKnownCharset(charset) && HasNoApostrophe(charset) && HasNoApostrophe(lang) && AreCodes(cs)
    requires IsToken(ExtendedValue(charset, lang, cs))
    ensures Parse(typ + ParamText(Param(name + [STAR], ExtendedValue(charset, lang, cs))))
            == Outcome(typ, Some(map[name := AllMeant(cs)]), None)
  {
    var key, value := name + [STAR], ExtendedValue(charset, lang, cs);
    var ps := [Param(key, value)];
    assert key == name + [STAR] + [];
    StarredIsToken(name, []);
    BaseNameIs(name, []);
    assert ParamTexts(ps) == ParamText(ps[0]) + ParamTexts([]) == ParamText(ps[0]);
    TokenParamsParse(typ, ps);
    OneBase(ps, name);
    var t := CollectAll(NO_TABLES, ps);
    assert Lookup(t, key) == First(ps, key) == Some(value);
    ExtendedIsDecoded(charset, lang, cs);
    StitchedAlone(t, name);
  }

  // ---------- `name*0`, `name*1*`, ... ----------

  /** A piece: escaped, or as it is. */
  datatype Piece = Escaped(cs: seq<Code>) | Plain(value: bytes)

  predicate IsPiece(p: Piece) {
    p.Escaped? ==> AreCodes(p.cs)
  }

  function PieceMeant(p: Piece): bytes {
    match p case Escaped(cs) => AllMeant(cs) case Plain(value) => value
  }

  function AllPiecesMeant(ps: seq<Piece>, n: nat): bytes
    requires n <= |ps|
  {
    if n == 0 then [] else AllPiecesMeant(ps, n - 1) + PieceMeant(ps[n - 1])
  }

  /** The key of piece `i`; an escaped piece has a star at the end. */
  function KeyOf(name: bytes, escaped: bool, i: nat): bytes {
    name + [STAR] + (Decimal(i) + if escaped then [STAR] else [])
  }

  /** The first piece names the charset and the language if it is escaped. */
  function PieceParam(name: bytes, charset: bytes, lang: bytes, p: Piece, i: nat): Param {
    Param(KeyOf(name, p.Escaped?, i),
          match p
          case Escaped(cs) => if i == 0 then ExtendedValue(charset, lang, cs) else AllWritten(cs)
          case Plain(value) => value)
  }

  function PieceParams(name: bytes, charset: bytes, lang: bytes, ps: seq<Piece>): seq<Param> {
    seq(|ps|, i requires 0 <= i < |ps| => PieceParam(name, charset, lang, ps[i], i))
  }

  lemma KeyIs(name: bytes, i: nat)
    ensures KeyOf(name, false, i) == SimpleKey(name, i) && KeyOf(name, true, i) == EncodedKey(name, i)
  {
    assert Decimal(i) + [] == Decimal(i);
  }

  lemma KeysDiffer(name: bytes, a: bool, i: nat, b: bool, j: nat)
    requires KeyOf(name, a, i) == KeyOf(name, b, j)
    ensures a == b && i == j
  {
    KeyIs(name, i);
    KeyIs(name, j);
    KeyTail(name, i);
    KeyTail(name, j);
    if a && b {
      assert (Decimal(i) + [STAR])[..|Decimal(i)|] == Decimal(i);
      assert (Decimal(j) + [STAR])[..|Decimal(j)|] == Decimal(j);
    }
    if a == b {
      DecimalInjective(i, j);
    }
  }

  /** What the table says of piece `i`. */
  lemma PieceFound(name: bytes, charset: bytes, lang: bytes, ps: seq<Piece>, escaped: bool, i: nat)
    ensures First(PieceParams(name, charset, lang, ps), KeyOf(name, escaped, i))
            == if i < |ps| && ps[i].Escaped? == escaped then Some(PieceParam(name, charset, lang, ps[i], i).value)
               else None
  {
    var params, key := PieceParams(name, charset, lang, ps), KeyOf(name, escaped, i);
    FirstFound(params, key);
    forall j | 0 <= j < |params| && params[j].key == key
      ensures j == i && ps[i].Escaped? == escaped
    {
      KeysDiffer(name, ps[j].Escaped?, j, escaped, i);
    }
    if i < |ps| && ps[i].Escaped? == escaped {
      assert params[i].key == key;
    }
  }

  lemma PieceParamsAreDistinct(name: bytes, charset: bytes, lang: bytes, ps: seq<Piece>)
    requires HasNoStar(name)
    ensures AreDistinct(PieceParams(name, charset, lang, ps)) && HaveBase(PieceParams(name, charset, lang, ps), name)
  {
    var params := PieceParams(name, charset, lang, ps);
    forall i | 0 <= i < |params|
      ensures BaseName(params[i].key) == Some(name)
    {
      BaseNameIs(name, Decimal(i) + if ps[i].Escaped? then [STAR] else []);
    }
    forall i, j | 0 <= i < j < |params|
      ensures params[i].key != params[j].key
    {
      if params[i].key == params[j].key {
        KeysDiffer(name, ps[i].Escaped?, i, ps[j].Escaped?, j);
      }
    }
  }

  /** The table of the pieces: which of them there are, and what they say. */
  lemma TableHasPieces(name: bytes, charset: bytes, lang: bytes, ps: seq<Piece>, m: Table, i: nat)
    requires HasNoStar(name) && IsKnownCharset(charset) && HasNoApostrophe(charset) && HasNoApostrophe(lang)
    requires forall k :: 0 <= k < |ps| ==> IsPiece(ps[k])
    requires forall k :: BaseName(k) == Some(name) ==>
                           First(PieceParams(name, charset, lang, ps), k) == if k in m then Some(m[k]) else None
    ensures HasPiece(m, name, i) <==> i < |ps|
    ensures i < |ps| ==> PieceText(m, name, i) == PieceMeant(ps[i])
  {
    KeyIs(name, i);
    BaseNameIs(name, Decimal(i));
    BaseNameIs(name, Decimal(i) + [STAR]);
    assert SimpleKey(name, i) == name + [STAR] + Decimal(i);
    assert EncodedKey(name, i) == name + [STAR] + (Decimal(i) + [STAR]);
    PieceFound(name, charset, lang, ps, false, i);
    PieceFound(name, charset, lang, ps, true, i);
    if i < |ps| && ps[i].Escaped? {
      ExtendedIsDecoded(charset, lang, ps[i].cs);
      CodesAreUnescaped(ps[i].cs, []);
      assert AllWritten(ps[i].cs) + [] == AllWritten(ps[i].cs) && AllMeant(ps[i].cs) + [] == AllMeant(ps[i].cs);
    }
  }

  /** What the table says of piece `i` is right. */
  predicate Says(m: Table, name: bytes, ps: seq<Piece>, i: nat) {
    (HasPiece(m, name, i) <==> i < |ps|) && (i < |ps| ==> PieceText(m, name, i) == PieceMeant(ps[i]))
  }

  lemma {:induction false} PiecesAreMeant(m: Table, name: bytes, ps: seq<Piece>, n: nat)
    requires n <= |ps| && forall i: nat :: Says(m, name, ps, i)
    ensures HasPiecesBelow(m, name, n) && Pieces(m, name, n) == AllPiecesMeant(ps, n)
  {
    if n > 0 {
      PiecesAreMeant(m, name, ps, n - 1);
      assert Says(m, name, ps, n - 1);
    }
  }

  lemma PiecesStitched(name: bytes, charset: bytes, lang: bytes, ps: seq<Piece>, m: Table)
    requires ps != [] && HasNoStar(name) && IsKnownCharset(charset)
    requires HasNoApostrophe(charset) && HasNoApostrophe(lang) && forall k :: 0 <= k < |ps| ==> IsPiece(ps[k])
    requires forall k :: BaseName(k) == Some(name) ==>
                           First(PieceParams(name, charset, lang, ps), k) == if k in m then Some(m[k]) else None
    ensures Stitched(m, name) == Some(AllPiecesMeant(ps, |ps|))
  {
    forall i: nat
      ensures Says(m, name, ps, i)
    {
      TableHasPieces(name, charset, lang, ps, m, i);
    }
    var end := StitchedMeaning(m, name);
    assert Says(m, name, ps, end) && Says(m, name, ps, |ps|);
    PiecesAreMeant(m, name, ps, |ps|);
    WholeIsMissing(name, charset, lang, ps);
  }

  /** There is no `name*` among the pieces. */
  lemma WholeIsMissing(name: bytes, charset: bytes, lang: bytes, ps: seq<Piece>)
    requires HasNoStar(name)
    ensures BaseName(name + [STAR]) == Some(name)
    ensures First(PieceParams(name, charset, lang, ps), name + [STAR]) == None
  {
    BaseNameIs(name, []);
    assert name + [STAR] + [] == name + [STAR];
    FirstFound(PieceParams(name, charset, lang, ps), name + [STAR]);
  }

  /** Pieces, escaped or not, give their concatenation under their base name. */
  lemma PiecesParse(typ: bytes, name: bytes, charset: bytes, lang: bytes, ps: seq<Piece>)
    requires IsTypeText(typ) && Lower(typ) == typ && IsName(name) && ps != []
    requires IsKnownCharset(charset) && HasNoApostrophe(charset) && HasNoApostrophe(lang)
    requires forall i :: 0 <= i < |ps| ==> IsPiece(ps[i]) && IsToken(PieceParam(name, charset, lang, ps[i], i).value)
    ensures Parse(typ + ParamTexts(PieceParams(name, charset, lang, ps)))
            == Outcome(typ, Some(map[name := AllPiecesMeant(ps, |ps|)]), None)
  {
    var params := PieceParams(name, charset, lang, ps);
    PiecesAreTokens(name, charset, lang, ps);
    PieceParamsAreDistinct(name, charset, lang, ps);
    TokenParamsParse(typ, params);
    PiecesCollected(name, charset, lang, ps);
  }

  lemma PiecesAreTokens(name: bytes, charset: bytes, lang: bytes, ps: seq<Piece>)
    requires IsName(name)
    requires forall i :: 0 <= i < |ps| ==> IsToken(PieceParam(name, charset, lang, ps[i], i).value)
    ensures AreTokenParams(PieceParams(name, charset, lang, ps))
  {
    var params := PieceParams(name, charset, lang, ps);
    forall i | 0 <= i < |params|
      ensures IsToken(params[i].key) && Lower(params[i].key) == params[i].key && IsToken(params[i].value)
    {
      DigitsAreTokens(i, ps[i].Escaped?);
      StarredIsToken(name, Decimal(i) + if ps[i].Escaped? then [STAR] else []);
    }
  }

  lemma PiecesCollected(name: bytes, charset: bytes, lang: bytes, ps: seq<Piece>)
    requires ps != [] && HasNoStar(name) && IsKnownCharset(charset)
    requires HasNoApostrophe(charset) && HasNoApostrophe(lang) && forall k :: 0 <= k < |ps| ==> IsPiece(ps[k])
    ensures StitchAll(CollectAll(NO_TABLES, PieceParams(name, charset, lang, ps)))
            == map[name := AllPiecesMeant(ps, |ps|)]
  {
    var params := PieceParams(name, charset, lang, ps);
    var t := CollectAll(NO_TABLES, params);
    PieceParamsAreDistinct(name, charset, lang, ps);
    OneBase(params, name);
    forall k | BaseName(k) == Some(name)
      ensures First(params, k) == if k in t.pieces[name] then Some(t.pieces[name][k]) else None
    {
      assert Lookup(t, k) == First(params, k);
    }
    PiecesStitched(name, charset, lang, ps, t.pieces[name]);
    StitchedAlone(t, name);
  }

  lemma DigitsAreTokens(i: nat, escaped: bool)
    ensures var x := Decimal(i) + if escaped then [STAR] else [];
            Lower(x) == x && forall k :: 0 <= k < |x| ==> IsTokenChar(x[k])
  {
    var x := Decimal(i) + if escaped then [STAR] else [];
    forall k | 0 <= k < |x|
      ensures IsTokenChar(x[k]) && LowerByte(x[k]) == x[k]
    {
      assert k < |Decimal(i)| ==> x[k] == Decimal(i)[k];
    }
  }
}
