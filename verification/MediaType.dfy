/** Media types (RFC 2045, section 5.1) with the parameter extensions of RFC 2231: the meaning of
    mediatype.go on byte strings. Case folding and white space are those of ASCII. */
module MediaType {
  import opened Bytes
  import opened Runes

  const SEMICOLON: byte := 59
  const SLASH: byte := 47
  const STAR: byte := 42
  const QUOTE: byte := 34
  const BACKSLASH: byte := 92
  const PERCENT: byte := 37
  const APOSTROPHE: byte := 39

  // ---------- tokens ----------

  predicate IsTSpecial(b: byte) {
    b == 40 || b == 41 || b == 60 || b == 62 || b == 64 || b == 44 || b == SEMICOLON || b == 58
    || b == BACKSLASH || b == QUOTE || b == SLASH || b == 91 || b == 93 || b == QUESTION || b == EQUALS
  }

  predicate IsTokenChar(b: byte) {
    SPACE < b < 0x7F && !IsTSpecial(b)
  }

  const TSPECIALS: bytes := [40, 41, 60, 62, 64, 44, 59, 58, 92, 34, 47, 91, 93, 63, 61]

  /** The characters of a token: printable, and none of the fifteen of RFC 2045. */
  lemma TokenCharIs(b: byte)
    ensures IsTokenChar(b) <==> 32 < b < 127 && b !in TSPECIALS
  {
    assert forall k :: 0 <= k < |TSPECIALS| ==> IsTSpecial(TSPECIALS[k]);
    if IsTSpecial(b) {
      assert b in TSPECIALS;
    }
  }

  predicate IsToken(s: bytes) {
    s != [] && forall k :: 0 <= k < |s| ==> IsTokenChar(s[k])
  }

  /** The length of the token in front of `v`, or 0. */
  function TokenLength(v: bytes): (n: nat)
    ensures n <= |v|
  {
    if v != [] && IsTokenChar(v[0]) then 1 + TokenLength(v[1..]) else 0
  }

  lemma {:induction false} TokenLengthIs(t: bytes, rest: bytes)
    requires forall k :: 0 <= k < |t| ==> IsTokenChar(t[k])
    requires rest == [] || !IsTokenChar(rest[0])
    ensures TokenLength(t + rest) == |t| && (t + rest)[..|t|] == t && (t + rest)[|t|..] == rest
  {
    if t == [] {
      assert t + rest == rest;
    } else {
      assert (t + rest)[1..] == t[1..] + rest;
      TokenLengthIs(t[1..], rest);
    }
  }

  lemma {:induction false} TokenLengthSpans(v: bytes)
    ensures forall k :: 0 <= k < TokenLength(v) ==> IsTokenChar(v[k])
    ensures TokenLength(v) == |v| || !IsTokenChar(v[TokenLength(v)])
  {
    if v != [] && IsTokenChar(v[0]) {
      TokenLengthSpans(v[1..]);
      assert forall k :: 1 <= k < |v| ==> v[k] == v[1..][k - 1];
    }
  }

  // ---------- white space ----------

  predicate IsSpace(b: byte) {
    TAB <= b <= CR || b == SPACE
  }

  /** Tab, newline, vertical tab, form feed, carriage return and space. */
  lemma SpaceIs(b: byte)
    ensures IsSpace(b) <==> b in [9, 10, 11, 12, 13, 32]
  {
  }

  function TrimLeft(v: bytes): (r: bytes)
    ensures |r| <= |v| && (r != [] ==> !IsSpace(r[0]))
  {
    if v != [] && IsSpace(v[0]) then TrimLeft(v[1..]) else v
  }

  function TrimTail(v: bytes): (r: bytes)
    ensures |r| <= |v| && r <= v
  {
    if v != [] && IsSpace(v[|v| - 1]) then TrimTail(v[..|v| - 1]) else v
  }

  /** `strings.TrimSpace`. */
  function TrimSpace(v: bytes): bytes {
    TrimTail(TrimLeft(v))
  }

  // ---------- values ----------

  const REPLACEMENT: bytes := [0xEF, 0xBF, 0xBD]

  /** The character in front of `s` as `range` and `WriteRune` pass it on. */
  function FirstRune(s: bytes): bytes
    requires s != []
  {
    if s[0] >= 0x80 && RuneLen(s) == 1 then REPLACEMENT else s[..RuneLen(s)]
  }

  /** A quoted string behind its opening quote: its text and how many bytes it takes. */
  datatype Quoted = Unterminated | Text(text: bytes, length: nat)

  function ReadQuoted(s: bytes, nextIsLiteral: bool): (q: Quoted)
    ensures q.Text? ==> 0 < q.length <= |s|
    decreases |s|
  {
    if s == [] then Unterminated
    else if !nextIsLiteral && s[0] == QUOTE then Text([], 1)
    else if !nextIsLiteral && (s[0] == CR || s[0] == LF) then Unterminated
    else
      var n := RuneLen(s);
      var isEscape := !nextIsLiteral && s[0] == BACKSLASH;
      match ReadQuoted(s[n..], isEscape)
      case Unterminated => Unterminated
      case Text(text, length) => Text((if isEscape then [] else FirstRune(s)) + text, n + length)
  }

  /** `consumeValue`: the value and the rest; an empty value stands for failure. */
  function ConsumeValue(v: bytes): (r: (bytes, bytes))
    ensures |r.1| <= |v| && (r.0 != [] ==> |r.1| < |v|)
  {
    if v == [] then ([], [])
    else if v[0] != QUOTE then (v[..TokenLength(v)], v[TokenLength(v)..])
    else
      match ReadQuoted(v[1..], false)
      case Unterminated => ([], v)
      case Text(text, length) => (text, v[1 + length..])
  }

  datatype Param = Param(key: bytes, value: bytes)

  /** `consumeMediaParam`: None stands for failure. */
  function ConsumeMediaParam(v: bytes): (r: Option<(Param, bytes)>)
    ensures r.Some? ==> |r.value.1| < |v| && r.value.0.key != [] && r.value.0.value != []
  {
    var a := TrimLeft(v);
    if a == [] || a[0] != SEMICOLON then None
    else
      var b := TrimLeft(a[1..]);
      var n := TokenLength(b);
      var c := TrimLeft(b[n..]);
      if n == 0 || c == [] || c[0] != EQUALS then None
      else
        var (value, rest) := ConsumeValue(TrimLeft(c[1..]));
        if value == [] then None else Some((Param(Lower(b[..n]), value), rest))
  }

  // ---------- the parameter loop ----------

  datatype Ending = Finished | TrailingSemicolon | BadParam

  /** The parameters read one after the other, and how the reading ended. */
  function ReadParams(v: bytes): (r: (seq<Param>, Ending))
    decreases |v|
  {
    var w := TrimLeft(v);
    if w == [] then ([], Finished)
    else
      match ConsumeMediaParam(w)
      case None => ([], if TrimSpace(w) == [SEMICOLON] then TrailingSemicolon else BadParam)
      case Some((p, rest)) => var (ps, ending) := ReadParams(rest); ([p] + ps, ending)
  }

  /** The base name of a parameter with a star in its name. */
  function BaseName(key: bytes): Option<bytes> {
    var i := Index(key, [STAR]);
    if i == -1 then None else Some(key[..i])
  }

  type Table = map<bytes, bytes>

  /** What the loop has collected: plain parameters, and those with a star by base name. */
  datatype Tables = Tables(params: Table, pieces: map<bytes, Table>, duplicates: nat)

  const NO_TABLES := Tables(map[], map[], 0)

  /** One parameter: the first of duplicate names wins. */
  function Collect(t: Tables, p: Param): Tables {
    match BaseName(p.key)
    case None =>
      if p.key in t.params then t.(duplicates := t.duplicates + 1)
      else t.(params := t.params[p.key := p.value])
    case Some(base) =>
      var m := if base in t.pieces then t.pieces[base] else map[];
      if p.key in m then t.(duplicates := t.duplicates + 1)
      else t.(pieces := t.pieces[base := m[p.key := p.value]])
  }

  function CollectAll(t: Tables, ps: seq<Param>): Tables
    decreases |ps|
  {
    if ps == [] then t else CollectAll(Collect(t, ps[0]), ps[1..])
  }

  // ---------- RFC 2231 ----------

  /** `percentHexUnescape`; None stands for bogus characters behind a percent sign. */
  function Unescape(s: bytes): Option<bytes> {
    if s == [] then Some([])
    else if s[0] != PERCENT then Prepend(s[0], Unescape(s[1..]))
    else if |s| < 3 then None
    else
      match ReadHexByte(s[1], s[2])
      case None => None
      case Some(b) => Prepend(b, Unescape(s[3..]))
  }

  function OrEmpty(r: Option<bytes>): bytes {
    match r case None => [] case Some(s) => s
  }

  /** `decode2231Enc`: charset, language and text, separated by apostrophes. */
  function Decode2231(v: bytes): bytes {
    var i := Index(v, [APOSTROPHE]);
    if i == -1 then []
    else
      var j := IndexFrom(v, [APOSTROPHE], i + 1);
      if j == -1 then []
      else if Lower(v[..i]) != ASCII_NAME && Lower(v[..i]) != UTF8_NAME then []
      else OrEmpty(Unescape(v[j + 1..]))
  }

  /** `%d`. */
  function Decimal(n: nat): (d: bytes)
    ensures d != [] && forall k :: 0 <= k < |d| ==> 48 <= d[k] <= 57
  {
    if n < 10 then [48 + n] else Decimal(n / 10) + [48 + n % 10]
  }

  function SimpleKey(base: bytes, n: nat): bytes {
    base + [STAR] + Decimal(n)
  }

  function EncodedKey(base: bytes, n: nat): bytes {
    SimpleKey(base, n) + [STAR]
  }

  predicate HasPiece(m: Table, base: bytes, n: nat) {
    SimpleKey(base, n) in m || EncodedKey(base, n) in m
  }

  /** The text of piece `n`; only the first encoded piece names its charset. */
  function PieceText(m: Table, base: bytes, n: nat): bytes
    requires HasPiece(m, base, n)
  {
    if SimpleKey(base, n) in m then m[SimpleKey(base, n)]
    else if n == 0 then Decode2231(m[EncodedKey(base, n)])
    else OrEmpty(Unescape(m[EncodedKey(base, n)]))
  }

  /** The key that piece `n` is found under. */
  function PieceKey(m: Table, base: bytes, n: nat): bytes {
    if SimpleKey(base, n) in m then SimpleKey(base, n) else EncodedKey(base, n)
  }

  predicate HasPiecesBelow(m: Table, base: bytes, n: nat) {
    forall i: nat :: i < n ==> HasPiece(m, base, i)
  }

  lemma {:induction false} DecimalInjective(a: nat, b: nat)
    requires Decimal(a) == Decimal(b)
    ensures a == b
  {
    var d := Decimal(a);
    if a >= 10 && b >= 10 {
      assert d[..|d| - 1] == Decimal(a / 10) == Decimal(b / 10);
      DecimalInjective(a / 10, b / 10);
    }
  }

  lemma PieceKeysDiffer(m: Table, base: bytes, i: nat, j: nat)
    requires PieceKey(m, base, i) == PieceKey(m, base, j)
    ensures i == j
  {
    var x, y := PieceKey(m, base, i), PieceKey(m, base, j);
    var n := |base| + 1;
    KeyTail(base, i);
    KeyTail(base, j);
    assert x[n..] == y[n..];
    assert x[|x| - 1] == STAR <==> SimpleKey(base, i) !in m;
    assert y[|y| - 1] == STAR <==> SimpleKey(base, j) !in m;
    if SimpleKey(base, i) !in m {
      assert (Decimal(i) + [STAR])[..|x| - n - 1] == Decimal(i);
      assert (Decimal(j) + [STAR])[..|y| - n - 1] == Decimal(j);
    }
    DecimalInjective(i, j);
  }

  lemma KeyTail(base: bytes, i: nat)
    ensures SimpleKey(base, i)[|base| + 1..] == Decimal(i)
    ensures EncodedKey(base, i)[|base| + 1..] == Decimal(i) + [STAR]
    ensures SimpleKey(base, i)[|SimpleKey(base, i)| - 1] != STAR
    ensures EncodedKey(base, i)[|EncodedKey(base, i)| - 1] == STAR
  {
    var d := Decimal(i);
    assert SimpleKey(base, i)[|SimpleKey(base, i)| - 1] == d[|d| - 1];
  }

  /** The keys of the first `n` pieces. */
  ghost function PieceKeys(m: Table, base: bytes, n: nat): set<bytes> {
    if n == 0 then {} else PieceKeys(m, base, n - 1) + {PieceKey(m, base, n - 1)}
  }

  lemma {:induction false} PieceKeyIsNew(m: Table, base: bytes, n: nat, j: nat)
    requires n <= j
    ensures PieceKey(m, base, j) !in PieceKeys(m, base, n)
  {
    if n > 0 {
      PieceKeyIsNew(m, base, n - 1, j);
      if PieceKey(m, base, n - 1) == PieceKey(m, base, j) {
        PieceKeysDiffer(m, base, n - 1, j);
      }
    }
  }

  lemma {:induction false} CountPieces(m: Table, base: bytes, n: nat)
    requires HasPiecesBelow(m, base, n)
    ensures PieceKeys(m, base, n) <= m.Keys && |PieceKeys(m, base, n)| == n
  {
    if n > 0 {
      CountPieces(m, base, n - 1);
      PieceKeyIsNew(m, base, n - 1, n - 1);
      assert HasPiece(m, base, n - 1);
    }
  }

  /** Every piece takes a key of its own, so there are no more pieces than keys. */
  lemma PiecesAreBounded(m: Table, base: bytes, n: nat)
    requires HasPiecesBelow(m, base, n)
    ensures n <= |m.Keys|
  {
    CountPieces(m, base, n);
    SubsetCard(PieceKeys(m, base, n), m.Keys);
  }

  lemma {:induction false} SubsetCard(a: set<bytes>, b: set<bytes>)
    requires a <= b
    ensures |a| <= |b|
  {
    if a != {} {
      var x :| x in a;
      SubsetCard(a - {x}, b - {x});
    }
  }

  /** The pieces from `n` on, up to the first missing one. */
  function Joined(m: Table, base: bytes, n: nat): bytes
    requires HasPiecesBelow(m, base, n)
    decreases |m.Keys| - n
  {
    if HasPiece(m, base, n) then
      PiecesAreBounded(m, base, n + 1);
      PieceText(m, base, n) + Joined(m, base, n + 1)
    else []
  }

  /** The value of a base name: its `name*` decoded, or else its pieces joined, if it has a first. */
  function Stitched(m: Table, base: bytes): Option<bytes> {
    if base + [STAR] in m then Some(Decode2231(m[base + [STAR]]))
    else if HasPiece(m, base, 0) then Some(Joined(m, base, 0))
    else None
  }

  /** The stitched value of every base name. */
  function StitchedValues(t: Tables): map<bytes, Option<bytes>> {
    map base | base in t.pieces :: Stitched(t.pieces[base], base)
  }

  /** The plain parameters, overridden by those values of the names in `done` that there are. */
  function Overlay(params: Table, values: map<bytes, Option<bytes>>, done: set<bytes>): Table {
    params + map base | base in values && base in done && values[base].Some? :: values[base].value
  }

  /** All parameters once the pieces are stitched together. */
  function StitchAll(t: Tables): Table {
    Overlay(t.params, StitchedValues(t), t.pieces.Keys)
  }

  // ---------- whole values ----------

  datatype ErrorKind = NoMediaType | NoSlash | TokenSlash | UnexpectedContent | InvalidParam | DuplicateName

  /** `lossyCheckMediaTypeDisposition` on a value that is not empty: the repaired type, and the
      error that was recorded. */
  function CheckType(s: bytes): (r: (bytes, Option<ErrorKind>))
    ensures r.0 != []
  {
    var n := TokenLength(s);
    var typ, rest := s[..n], s[n..];
    if n == 0 then (UNKNOWN, Some(NoMediaType))
    else if rest == [] then (typ, None)
    else if rest[0] != SLASH then (typ + [SLASH] + UNKNOWN, Some(NoSlash))
    else
      var m := TokenLength(rest[1..]);
      if m == 0 then (typ + [SLASH] + UNKNOWN, Some(TokenSlash))
      else if rest[1 + m..] != [] then (typ + [SLASH] + rest[1..1 + m], Some(UnexpectedContent))
      else (s, None)
  }

  const UNKNOWN: bytes := [117, 110, 107, 110, 111, 119, 110]

  /** An error value of the package: one on its own, or the merged ones of a `PMTErr` with its flag. */
  datatype MimeError = Plain(kind: ErrorKind) | Merged(errs: seq<ErrorKind>, bad: bool)

  /** `IsOkPMTError`: None stands for an error, or a nil error, that can be ignored. */
  function IsOkPMTError(err: Option<MimeError>): Option<MimeError> {
    match err
    case None => None
    case Some(Plain(_)) => err
    case Some(Merged(_, bad)) => if bad then err else None
  }

  /** What `ParseMediaType` returns; None stands for a nil map and a nil error. */
  datatype Outcome = Outcome(mediatype: bytes, params: Option<Table>, err: Option<MimeError>)

  /** Where the type ends and the parameters begin. */
  function TypeEnd(v: bytes): (n: nat)
    ensures n <= |v|
  {
    var i := Index(v, [SEMICOLON]);
    if i == -1 then |v| else i
  }

  function Parse(v: bytes): Outcome {
    if v == [] then Outcome([], None, Some(Plain(NoMediaType)))
    else
      var end := TypeEnd(v);
      var (typ, err) := CheckType(TrimSpace(Lower(v[..end])));
      var (ps, ending) := ReadParams(v[end..]);
      var t := CollectAll(NO_TABLES, ps);
      var errs := (if err.Some? then [err.value] else []) + seq(t.duplicates, _ => DuplicateName)
                  + (if ending == BadParam then [InvalidParam] else []);
      Outcome(typ, Some(if ending == Finished then StitchAll(t) else t.params),
              if errs == [] then None else Some(Merged(errs, false)))
  }
}
