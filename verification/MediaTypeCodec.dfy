/** mediatype.go: the parser and the formatter, with their loops. */
module MediaTypeCodec {
  import opened Bytes
  import opened Runes
  import opened MediaType
  import opened MediaTypeFormat

  // ---------- errors ----------

  /** `PMTErr`. */
  class PMTErr {
    var errs: seq<ErrorKind>
    var bad: bool

    constructor ()
      ensures errs == [] && !bad
    {
      errs, bad := [], false;
    }

    method Add(e: ErrorKind)
      modifies this`errs
      ensures errs == old(errs) + [e]
    {
      errs := errs + [e];
    }

    method AddUnrecover(e: ErrorKind)
      modifies this
      ensures errs == old(errs) + [e] && bad
    {
      errs := errs + [e];
      bad := true;
    }

    /** `getErr`: no errors are a nil error. */
    function GetErr(): Option<MimeError>
      reads this
    {
      if errs == [] then None else Some(Merged(errs, bad))
    }
  }

  // ---------- parsing ----------

  /** The loop of `consumeValue` over a quoted string, behind its opening quote. */
  method ConsumeQuoted(rest: bytes) returns (q: Quoted)
    ensures q == ReadQuoted(rest, false)
  {
    var buffer: bytes := [];
    var nextIsLiteral := false;
    var idx := 0;
    assert rest[0..] == rest;
    AheadOfAll(ReadQuoted(rest, false));
    while idx < |rest|
      invariant 0 <= idx <= |rest|
      invariant ReadQuoted(rest, false) == Ahead(buffer, idx, ReadQuoted(rest[idx..], nextIsLiteral))
    {
      var r := rest[idx..];
      if !nextIsLiteral && r[0] == QUOTE {
        assert buffer + [] == buffer;
        return Text(buffer, idx + 1);
      }
      if !nextIsLiteral && (r[0] == CR || r[0] == LF) {
        return Unterminated;
      }
      var isEscape := !nextIsLiteral && r[0] == BACKSLASH;
      QuotedTurn(r, nextIsLiteral, buffer, idx);
      assert r[RuneLen(r)..] == rest[idx + RuneLen(r)..];
      buffer := buffer + if isEscape then [] else FirstRune(r);
      nextIsLiteral := isEscape;
      idx := idx + RuneLen(r);
    }
    return Unterminated;
  }

  lemma QuotedTurn(r: bytes, nextIsLiteral: bool, buffer: bytes, idx: nat)
    requires r != [] && (nextIsLiteral || (r[0] != QUOTE && r[0] != CR && r[0] != LF))
    ensures var isEscape := !nextIsLiteral && r[0] == BACKSLASH;
            Ahead(buffer, idx, ReadQuoted(r, nextIsLiteral))
            == Ahead(buffer + if isEscape then [] else FirstRune(r), idx + RuneLen(r),
                     ReadQuoted(r[RuneLen(r)..], isEscape))
  {
    var isEscape := !nextIsLiteral && r[0] == BACKSLASH;
    var written := if isEscape then [] else FirstRune(r);
    AheadTwice(buffer, idx, written, RuneLen(r), ReadQuoted(r[RuneLen(r)..], isEscape));
  }

  lemma AheadOfAll(q: Quoted)
    ensures Ahead([], 0, q) == q
  {
    if q.Text? {
      assert [] + q.text == q.text;
    }
  }

  lemma AheadTwice(a: bytes, i: nat, b: bytes, j: nat, q: Quoted)
    ensures Ahead(a, i, Ahead(b, j, q)) == Ahead(a + b, i + j, q)
  {
    if q.Text? {
      Assoc(a, b, q.text);
    }
  }

  /** `lossyCheckMediaTypeDisposition`. */
  method LossyCheck(p: PMTErr, s: bytes, v: bytes) returns (mediatype: bytes, failed: bool)
    modifies p
    ensures v == [] ==> failed && p.bad
    ensures v != [] ==> p.bad == old(p.bad) && mediatype == CheckType(s).0 && (failed <==> CheckType(s).1.Some?)
    ensures v != [] ==> p.errs == old(p.errs) + if failed then [CheckType(s).1.value] else []
  {
    if v == [] {
      p.AddUnrecover(NoMediaType);
      return [], true;
    }
    var n := TokenLength(s);
    var typ, rest := s[..n], s[n..];
    if n == 0 {
      p.Add(NoMediaType);
      return UNKNOWN, true;
    }
    if rest == [] {
      return typ, false;
    }
    if rest[0] != SLASH {
      p.Add(NoSlash);
      return typ + [SLASH] + UNKNOWN, true;
    }
    var m := TokenLength(rest[1..]);
    if m == 0 {
      p.Add(TokenSlash);
      return typ + [SLASH] + UNKNOWN, true;
    }
    if rest[1 + m..] != [] {
      p.Add(UnexpectedContent);
      return typ + [SLASH] + rest[1..1 + m], true;
    }
    return s, false;
  }

  /** What the parameter loop has yet to add to its tables, and how it ends. */
  ghost function LoopResult(t: Tables, v: bytes): (Tables, Ending) {
    (CollectAll(t, ReadParams(v).0), ReadParams(v).1)
  }

  lemma LoopTurn(t: Tables, v: bytes)
    ensures var w := TrimLeft(v);
            LoopResult(t, v) ==
              if w == [] then (t, Finished)
              else match ConsumeMediaParam(w)
                case None => (t, if TrimSpace(w) == [SEMICOLON] then TrailingSemicolon else BadParam)
                case Some((p, rest)) => LoopResult(Collect(t, p), rest)
  {
    var w := TrimLeft(v);
    if w != [] && ConsumeMediaParam(w).Some? {
      var (p, rest) := ConsumeMediaParam(w).value;
      assert ([p] + ReadParams(rest).0)[1..] == ReadParams(rest).0;
    }
  }

  /** The parameter loop of `ParseMediaType`; every duplicate name records an error. */
  method ParseParams(input: bytes, p: PMTErr) returns (t: Tables, ending: Ending)
    modifies p`errs
    ensures (t, ending) == LoopResult(NO_TABLES, input)
    ensures p.errs == old(p.errs) + seq(t.duplicates, _ => DuplicateName)
  {
    t := NO_TABLES;
    var v := input;
    assert p.errs + [] == p.errs;
    assert seq(0, _ => DuplicateName) == [];
    while |v| > 0
      invariant LoopResult(NO_TABLES, input) == LoopResult(t, v)
      invariant p.errs == old(p.errs) + seq(t.duplicates, _ => DuplicateName)
      decreases |v|
    {
      LoopTurn(t, v);
      v := TrimLeft(v);
      if |v| == 0 {
        return t, Finished;
      }
      var r := ConsumeMediaParam(v);
      if r == None {
        return t, if TrimSpace(v) == [SEMICOLON] then TrailingSemicolon else BadParam;
      }
      var (param, rest) := r.value;
      t := AddParam(t, param, p, old(p.errs));
      v := rest;
    }
    LoopTurn(t, v);
    return t, Finished;
  }

  /** Puts a parameter into the table of its base name, or among the plain ones, unless its name is
      already there. */
  method AddParam(t: Tables, param: Param, p: PMTErr, ghost errs: seq<ErrorKind>) returns (t': Tables)
    requires p.errs == errs + seq(t.duplicates, _ => DuplicateName)
    modifies p`errs
    ensures t' == Collect(t, param)
    ensures p.errs == errs + seq(t'.duplicates, _ => DuplicateName)
  {
    var base := BaseName(param.key);
    var pmap := t.params;
    if base.Some? {
      pmap := if base.value in t.pieces then t.pieces[base.value] else map[];
    }
    if param.key !in pmap {
      pmap := pmap[param.key := param.value];
      t' := if base.Some? then t.(pieces := t.pieces[base.value := pmap]) else t.(params := pmap);
    } else {
      p.Add(DuplicateName);
      t' := t.(duplicates := t.duplicates + 1);
      assert seq(t'.duplicates, _ => DuplicateName) == seq(t.duplicates, _ => DuplicateName) + [DuplicateName];
    }
  }

  /** The unbounded loop over the pieces of one base name stops: every turn uses a key of its own. */
  method StitchPieces(m: Table, key: bytes) returns (valid: bool, text: bytes)
    ensures valid <==> HasPiece(m, key, 0)
    ensures text == Joined(m, key, 0)
  {
    valid, text := false, [];
    var n := 0;
    assert [] + Joined(m, key, 0) == Joined(m, key, 0);
    while true
      invariant HasPiecesBelow(m, key, n) && (valid <==> n > 0)
      invariant Joined(m, key, 0) == text + Joined(m, key, n)
      decreases |m.Keys| - n
    {
      var simplePart := SimpleKey(key, n);
      var encodedPart := simplePart + [STAR];
      var piece: bytes;
      if simplePart in m {
        piece := m[simplePart];
      } else if encodedPart in m {
        piece := if n == 0 then Decode2231(m[encodedPart]) else OrEmpty(Unescape(m[encodedPart]));
      } else {
        break;
      }
      PiecesAreBounded(m, key, n + 1);
      Assoc(text, piece, Joined(m, key, n + 1));
      valid, text, n := true, text + piece, n + 1;
    }
    assert text + [] == text;
  }

  lemma OverlayMore(params: Table, values: map<bytes, Option<bytes>>, done: set<bytes>, key: bytes)
    requires key in values
    ensures Overlay(params, values, done + {key})
            == if values[key].Some? then Overlay(params, values, done)[key := values[key].value]
               else Overlay(params, values, done)
  {
  }

  /** Stitching visits the base names in any order. */
  method Stitch(t: Tables) returns (params: Table)
    ensures params == StitchAll(t)
  {
    params := t.params;
    var todo := t.pieces.Keys;
    ghost var done := {};
    while todo != {}
      invariant todo + done == t.pieces.Keys
      invariant params == Overlay(t.params, StitchedValues(t), done)
      decreases |todo|
    {
      var key :| key in todo;
      params := StitchTurn(t, key, params, done);
      todo, done := todo - {key}, done + {key};
    }
    assert done == t.pieces.Keys;
  }

  method StitchTurn(t: Tables, key: bytes, params: Table, ghost done: set<bytes>) returns (params': Table)
    requires key in t.pieces && params == Overlay(t.params, StitchedValues(t), done)
    ensures params' == Overlay(t.params, StitchedValues(t), done + {key})
  {
    params' := StitchOne(t.pieces[key], key, params);
    OverlayMore(t.params, StitchedValues(t), done, key);
  }

  method StitchOne(pieceMap: Table, key: bytes, params: Table) returns (params': Table)
    ensures params' == if Stitched(pieceMap, key).Some? then params[key := Stitched(pieceMap, key).value] else params
  {
    var singlePartKey := key + [STAR];
    if singlePartKey in pieceMap {
      params' := params[key := Decode2231(pieceMap[singlePartKey])];
      return;
    }
    var valid, text := StitchPieces(pieceMap, key);
    params' := if valid then params[key := text] else params;
  }

  /** What is returned once the parameter loop has ended: only a loop that read everything is
      followed by stitching. */
  method Finish(mediatype: bytes, t: Tables, ending: Ending, p: PMTErr) returns (r: Outcome)
    modifies p`errs
    ensures r == Outcome(mediatype, Some(if ending == Finished then StitchAll(t) else t.params), p.GetErr())
    ensures p.errs == old(p.errs) + (if ending == BadParam then [InvalidParam] else [])
  {
    assert p.errs + [] == p.errs;
    if ending == TrailingSemicolon {
      return Outcome(mediatype, Some(t.params), p.GetErr());
    }
    if ending == BadParam {
      p.Add(InvalidParam);
      return Outcome(mediatype, Some(t.params), p.GetErr());
    }
    var params := Stitch(t);
    r := Outcome(mediatype, Some(params), p.GetErr());
  }

  /** `ParseMediaType`. */
  method ParseMediaType(v: bytes) returns (r: Outcome)
    ensures r == Parse(v)
  {
    var p := new PMTErr();
    var i := Index(v, [SEMICOLON]);
    if i == -1 {
      i := |v|;
    }
    var mediatype, failed := LossyCheck(p, TrimSpace(Lower(v[..i])), v);
    if failed && p.bad {
      return Outcome([], None, Some(Plain(NoMediaType)));
    }
    assert p.errs == if failed then [CheckType(TrimSpace(Lower(v[..i]))).1.value] else [];
    var t, ending := ParseParams(v[i..], p);
    r := Finish(mediatype, t, ending, p);
  }

  // ---------- percent escapes ----------

  /** The percent signs that start an escape. */
  function Percents(s: bytes): nat {
    if s == [] then 0
    else if s[0] != PERCENT then Percents(s[1..])
    else if |s| < 3 then 0
    else 1 + Percents(s[3..])
  }

  lemma {:induction false} UnescapedLength(s: bytes)
    requires Unescape(s).Some?
    ensures |Unescape(s).value| == |s| - 2 * Percents(s)
    ensures Percents(s) == 0 ==> Unescape(s).value == s
    decreases |s|
  {
    if s != [] && s[0] == PERCENT {
      UnescapedLength(s[3..]);
    } else if s != [] {
      UnescapedLength(s[1..]);
      assert s == [s[0]] + s[1..];
    }
  }

  /** `percentHexUnescape`: the second pass fills exactly the buffer that the first one measured. */
  method PercentHexUnescape(s: bytes) returns (r: Option<bytes>)
    ensures r == Unescape(s)
  {
    var ok, percents := CountPercents(s);
    if !ok {
      return None;
    }
    UnescapedLength(s);
    if percents == 0 {
      return Some(s);
    }
    var t := new byte[|s| - 2 * percents];
    FillUnescaped(s, t);
    r := Some(t[..]);
  }

  /** The first pass: counts the escapes and checks that they are well-formed. */
  method CountPercents(s: bytes) returns (ok: bool, percents: nat)
    ensures ok <==> Unescape(s).Some?
    ensures ok ==> percents == Percents(s)
  {
    percents := 0;
    var i := 0;
    assert s[0..] == s;
    while i < |s|
      invariant 0 <= i <= |s|
      invariant Percents(s) == percents + Percents(s[i..])
      invariant Unescape(s).Some? <==> Unescape(s[i..]).Some?
    {
      var rest := s[i..];
      if s[i] != PERCENT {
        assert rest[1..] == s[i + 1..];
        i := i + 1;
        continue;
      }
      if i + 2 >= |s| || !IsHex(s[i + 1]) || !IsHex(s[i + 2]) {
        return false, 0;
      }
      assert rest[1] == s[i + 1] && rest[2] == s[i + 2] && rest[3..] == s[i + 3..];
      percents := percents + 1;
      i := i + 3;
    }
    assert s[i..] == [];
    ok := true;
  }

  /** The second pass. */
  method FillUnescaped(s: bytes, t: array<byte>)
    requires Unescape(s).Some? && t.Length == |Unescape(s).value|
    modifies t
    ensures t[..] == Unescape(s).value
  {
    var i, j := 0, 0;
    assert s[0..] == s && t[..0] + Unescape(s).value == Unescape(s).value;
    while i < |s|
      invariant 0 <= i <= |s| && Unescape(s[i..]).Some?
      invariant 0 <= j && j + |Unescape(s[i..]).value| == t.Length
      invariant t[..j] + Unescape(s[i..]).value == Unescape(s).value
    {
      var n := if s[i] == PERCENT then 3 else 1;
      UnescapeTurn(s, i, n);
      var b := if s[i] == PERCENT then 16 * HexValue(s[i + 1]) + HexValue(s[i + 2]) else s[i];
      Assoc(t[..j], [b], Unescape(s[i + n..]).value);
      t[j] := b;
      assert t[..j + 1] == t[..j] + [b];
      j := j + 1;
      i := i + n;
    }
    assert s[i..] == [] && t[..j] + [] == t[..];
  }

  lemma UnescapeTurn(s: bytes, i: nat, n: nat)
    requires i < |s| && Unescape(s[i..]).Some? && n == if s[i] == PERCENT then 3 else 1
    ensures i + n <= |s| && Unescape(s[i + n..]).Some?
    ensures s[i] == PERCENT ==> IsHex(s[i + 1]) && IsHex(s[i + 2])
    ensures Unescape(s[i..]).value
            == [if s[i] == PERCENT then 16 * HexValue(s[i + 1]) + HexValue(s[i + 2]) else s[i]]
               + Unescape(s[i + n..]).value
  {
    var rest := s[i..];
    assert rest[n..] == s[i + n..];
    assert s[i] == PERCENT ==> rest[1] == s[i + 1] && rest[2] == s[i + 2];
  }

  // ---------- formatting ----------

  /** The order of `sort.Strings`. */
  predicate LessOrEqual(a: bytes, b: bytes) {
    a == [] || (b != [] && (a[0] < b[0] || (a[0] == b[0] && LessOrEqual(a[1..], b[1..]))))
  }

  lemma {:induction false} OrderIsTotal(a: bytes, b: bytes)
    ensures LessOrEqual(a, b) || LessOrEqual(b, a)
  {
    if a != [] && b != [] && a[0] == b[0] {
      OrderIsTotal(a[1..], b[1..]);
    }
  }

  predicate IsOrdered(s: seq<bytes>) {
    forall i :: 0 < i < |s| ==> LessOrEqual(s[i - 1], s[i])
  }

  lemma {:induction false} OrderIsAntisymmetric(a: bytes, b: bytes)
    requires LessOrEqual(a, b) && LessOrEqual(b, a)
    ensures a == b
  {
    if a != [] {
      OrderIsAntisymmetric(a[1..], b[1..]);
      assert a == [a[0]] + a[1..] && b == [b[0]] + b[1..];
    }
  }

  lemma {:induction false} OrderIsTransitive(a: bytes, b: bytes, c: bytes)
    requires LessOrEqual(a, b) && LessOrEqual(b, c)
    ensures LessOrEqual(a, c)
  {
    if a != [] && a[0] == b[0] == c[0] {
      OrderIsTransitive(a[1..], b[1..], c[1..]);
    }
  }

  lemma {:induction false} FirstIsLeast(s: seq<bytes>, i: nat)
    requires IsOrdered(s) && i < |s|
    ensures LessOrEqual(s[0], s[i])
  {
    if i == 0 {
      OrderIsTotal(s[0], s[0]);
    } else {
      FirstIsLeast(s, i - 1);
      OrderIsTransitive(s[0], s[i - 1], s[i]);
    }
  }

  /** There is one order of distinct names. */
  lemma {:induction false} OneOrder(s: seq<bytes>, t: seq<bytes>)
    requires IsOrdered(s) && IsOrdered(t) && HasNoRepeats(s) && HasNoRepeats(t)
    requires forall k :: k in s <==> k in t
    ensures s == t
    decreases |s|
  {
    if s == [] {
      HasFirst(t);
    } else {
      assert s[0] in s && s[0] in t;
      assert t[0] in s;
      var i, j :| 0 <= i < |s| && s[i] == t[0] && 0 <= j < |t| && t[j] == s[0];
      FirstIsLeast(s, i);
      FirstIsLeast(t, j);
      OrderIsAntisymmetric(s[0], t[0]);
      TailMembers(s);
      TailMembers(t);
      OneOrder(s[1..], t[1..]);
    }
  }

  lemma HasFirst(s: seq<bytes>)
    ensures s == [] || exists k :: k in s
  {
    if s != [] {
      assert s[0] in s;
    }
  }

  lemma TailMembers(s: seq<bytes>)
    requires s != [] && HasNoRepeats(s)
    ensures forall k :: k in s[1..] <==> k in s && k != s[0]
  {
  }

  /** The place of a new key among ordered ones. */
  method Place(s: seq<bytes>, k: bytes) returns (n: nat)
    requires IsOrdered(s)
    ensures n <= |s| && (n > 0 ==> LessOrEqual(s[n - 1], k)) && (n < |s| ==> LessOrEqual(k, s[n]))
  {
    n := 0;
    while n < |s| && !LessOrEqual(k, s[n])
      invariant n <= |s| && (n > 0 ==> LessOrEqual(s[n - 1], k))
    {
      OrderIsTotal(k, s[n]);
      n := n + 1;
    }
  }

  predicate HasNoRepeats(s: seq<bytes>) {
    forall i, j :: 0 <= i < j < |s| ==> s[i] != s[j]
  }

  function InsertAt(s: seq<bytes>, n: nat, k: bytes): (r: seq<bytes>)
    requires n <= |s|
    ensures |r| == |s| + 1 && r[n] == k
    ensures forall i :: 0 <= i < n ==> r[i] == s[i]
    ensures forall i :: n <= i < |s| ==> r[i + 1] == s[i]
  {
    s[..n] + [k] + s[n..]
  }

  lemma InsertedMembers(s: seq<bytes>, n: nat, k: bytes, x: bytes)
    requires n <= |s|
    ensures x in InsertAt(s, n, k) <==> x in s || x == k
  {
    var r := InsertAt(s, n, k);
    if x in s {
      var i :| 0 <= i < |s| && s[i] == x;
      assert r[if i < n then i else i + 1] == x;
    }
    if x in r {
      var i :| 0 <= i < |r| && r[i] == x;
      assert i < n ==> s[i] == x;
      assert i > n ==> r[i - 1 + 1] == s[i - 1];
    }
    assert r[n] == k;
  }

  lemma {:induction false} InsertedKeeps(s: seq<bytes>, n: nat, k: bytes)
    requires n <= |s| && k !in s && HasNoRepeats(s) && IsOrdered(s)
    requires (n > 0 ==> LessOrEqual(s[n - 1], k)) && (n < |s| ==> LessOrEqual(k, s[n]))
    ensures HasNoRepeats(InsertAt(s, n, k)) && IsOrdered(InsertAt(s, n, k))
  {
    var r := InsertAt(s, n, k);
    forall i | n < i < |r|
      ensures r[i] == s[i - 1]
    {
      assert r[i - 1 + 1] == s[i - 1];
    }
  }

  /** The attribute names in order, each once. */
  method SortedKeys(param: Table) returns (attrs: seq<bytes>)
    ensures Lists(attrs, param) && IsOrdered(attrs)
  {
    attrs := [];
    var todo := param.Keys;
    while todo != {}
      invariant todo <= param.Keys && IsOrdered(attrs) && HasNoRepeats(attrs)
      invariant forall k :: k in attrs <==> k in param.Keys - todo
      decreases |todo|
    {
      var k :| k in todo;
      var n := Place(attrs, k);
      InsertedKeeps(attrs, n, k);
      forall x
        ensures x in InsertAt(attrs, n, k) <==> x in attrs || x == k
      {
        InsertedMembers(attrs, n, k, x);
      }
      attrs := InsertAt(attrs, n, k);
      todo := todo - {k};
    }
    assert forall i :: 0 <= i < |attrs| ==> attrs[i] in attrs;
  }

  /** `FormatMediaType`; None is the empty string it returns on a standard violation. There is one
      order of the attributes, whatever the order in which the map is iterated. */
  method FormatMediaType(t: bytes, param: Table) returns (r: Option<bytes>)
    ensures exists attrs :: Lists(attrs, param) && IsOrdered(attrs)
    ensures forall attrs :: Lists(attrs, param) && IsOrdered(attrs) ==> r == Format(t, param, attrs)
    ensures r.Some? ==> (Parse(r.value) == Outcome(Lower(t), Some(param), None) <==> AllSurvive(param))
  {
    var names := SortedKeys(param);
    forall attrs | Lists(attrs, param) && IsOrdered(attrs)
      ensures attrs == names
    {
      OneOrder(attrs, names);
    }
    r := None;
    if IsTypeText(t) {
      var b := FormatAttributes(param, names);
      r := if b == None then None else Some(Lower(t) + b.value);
    }
    if r.Some? {
      FormatThenParse(t, param, names);
    }
  }

  /** The loop of `FormatMediaType` over the attributes. */
  method FormatAttributes(param: Table, names: seq<bytes>) returns (r: Option<bytes>)
    requires forall i :: 0 <= i < |names| ==> names[i] in param
    ensures r == FormatParams(Params(param, names))
  {
    var b: bytes := [];
    ghost var ps := Params(param, names);
    assert ps[0..] == ps;
    AppendNothing(FormatParams(ps));
    for i := 0 to |names|
      invariant FormatParams(ps) == AppendTo(b, FormatParams(ps[i..]))
    {
      var p := FormatOne(Param(names[i], param[names[i]]));
      assert ps[i..][0] == ps[i] && ps[i..][1..] == ps[i + 1..];
      if p == None {
        return None;
      }
      FormatParamsStep(ps[i..]);
      AppendTwice(b, p.value, FormatParams(ps[i + 1..]));
      b := b + p.value;
    }
    assert ps[|names|..] == [] && b + [] == b;
    r := Some(b);
  }

  lemma FormatParamsStep(ps: seq<Param>)
    requires ps != [] && FormatParam(ps[0]).Some?
    ensures FormatParams(ps) == AppendTo(FormatParam(ps[0]).value, FormatParams(ps[1..]))
  {
  }

  method FormatOne(p: Param) returns (r: Option<bytes>)
    ensures r == FormatParam(p)
  {
    if !IsToken(p.key) {
      return None;
    }
    var head := [SEMICOLON, SPACE] + (Lower(p.key) + [EQUALS]);
    var value := Some(p.value);
    if !IsToken(p.value) {
      var q := Quote(p.value);
      if q == None {
        return None;
      }
      value := Some([QUOTE] + (q.value + [QUOTE]));
    }
    Assoc(Lower(p.key), [EQUALS], value.value);
    Assoc([SEMICOLON, SPACE], Lower(p.key) + [EQUALS], value.value);
    r := Some(head + value.value);
  }

  /** The loop that writes a value between quotes: `offset` is where the unwritten part starts. */
  method Quote(value: bytes) returns (r: Option<bytes>)
    ensures r == QuoteText(value)
  {
    var b: bytes := [];
    var offset, index := 0, 0;
    assert value[0..] == value && b + value[0..0] == [];
    AppendNothing(QuoteText(value));
    while index < |value|
      invariant 0 <= offset <= index <= |value|
      invariant QuoteText(value) == AppendTo(b + value[offset..index], QuoteText(value[index..]))
    {
      if IsRefused(value[index..]) {
        return None;
      }
      b, offset, index := QuoteTurn(value, b, offset, index);
    }
    assert value[index..] == [] && value[offset..index] == value[offset..];
    b := b + value[offset..];
    assert b + [] == b;
    r := Some(b);
  }

  method QuoteTurn(value: bytes, b: bytes, offset: nat, index: nat) returns (b': bytes, offset': nat, index': nat)
    requires offset <= index < |value| && !IsRefused(value[index..])
    ensures offset' <= index' <= |value| && index < index'
    ensures AppendTo(b + value[offset..index], QuoteText(value[index..]))
            == AppendTo(b' + value[offset'..index'], QuoteText(value[index'..]))
  {
    var rest := value[index..];
    var n := RuneLen(rest);
    b', offset', index' := b, offset, index + n;
    assert rest[..n] == value[index..index'] && rest[n..] == value[index'..];
    if value[index] == QUOTE || value[index] == BACKSLASH {
      b' := b' + value[offset..index];
      offset' := index;
      b' := b' + [BACKSLASH];
      EscapedTurn(b + value[offset..index], value[index..index'], QuoteText(value[index'..]));
    } else {
      assert value[offset..index'] == value[offset..index] + value[index..index'];
      Assoc(b, value[offset..index], value[index..index']);
      PlainTurn(b + value[offset..index], value[index..index'], QuoteText(value[index'..]));
    }
  }

  lemma EscapedTurn(a: bytes, u: bytes, q: Option<bytes>)
    ensures AppendTo(a, match q case None => None case Some(s) => Some([BACKSLASH] + (u + s)))
            == AppendTo(a + [BACKSLASH] + u, q)
  {
    if q.Some? {
      Assoc(a, [BACKSLASH], u + q.value);
      Assoc(a + [BACKSLASH], u, q.value);
    }
  }

  lemma PlainTurn(a: bytes, u: bytes, q: Option<bytes>)
    ensures AppendTo(a, match q case None => None case Some(s) => Some([] + (u + s))) == AppendTo(a + u, q)
  {
    if q.Some? {
      assert [] + (u + q.value) == u + q.value;
      Assoc(a, u, q.value);
    }
  }
}
