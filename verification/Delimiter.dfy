/** The delimiter recognisers of multipart.go, over a window and over a whole stream. */
module Delimiter {
  import opened Bytes
  import opened Bufio

  /** `b` without its leading spaces and tabs. */
  function SkipLWSP(b: bytes): (r: bytes)
    ensures |r| <= |b| && (r != [] ==> !IsBlank(r[0]))
  {
    if b != [] && IsBlank(b[0]) then SkipLWSP(b[1..]) else b
  }

  /** It drops blanks only. */
  lemma {:induction false} SkipLWSPDrops(b: bytes)
    ensures SkipLWSP(b) == b[|b| - |SkipLWSP(b)|..]
    ensures forall k :: 0 <= k < |b| - |SkipLWSP(b)| ==> IsBlank(b[k])
  {
    if b != [] && IsBlank(b[0]) {
      SkipLWSPDrops(b[1..]);
      assert forall k :: 0 < k < |b| ==> b[k] == b[1..][k - 1];
    }
  }

  lemma {:induction false} SkipLWSPIs(pad: bytes, rest: bytes)
    requires forall k :: 0 <= k < |pad| ==> IsBlank(pad[k])
    requires rest == [] || !IsBlank(rest[0])
    ensures SkipLWSP(pad + rest) == rest
  {
    if pad == [] {
      assert pad + rest == rest;
    } else {
      assert (pad + rest)[1..] == pad[1..] + rest;
      SkipLWSPIs(pad[1..], rest);
    }
  }

  const DASHES: bytes := [DASH, DASH]

  predicate StartsWithDashes(r: bytes) {
    |r| > 1 && r[0] == DASH && r[1] == DASH
  }

  predicate StartsWithLF(r: bytes) {
    |r| > 0 && r[0] == LF
  }

  predicate StartsWithCRLF(r: bytes) {
    |r| > 1 && r[0] == CR && r[1] == LF
  }

  /** The text after `nl--boundary` makes it a true delimiter: `--`, or blanks and a newline. */
  predicate DelimiterTail(r: bytes) {
    StartsWithDashes(r) || StartsWithLF(SkipLWSP(r)) || StartsWithCRLF(SkipLWSP(r))
  }

  predicate TrueDelimiter(s: bytes, nlDashBoundary: bytes) {
    nlDashBoundary <= s && DelimiterTail(s[|nlDashBoundary|..])
  }

  /** A delimiter that can be recognised at the front of a full window. */
  predicate VisibleDelimiter(s: bytes, nlDashBoundary: bytes) {
    TrueDelimiter(Window(s), nlDashBoundary)
  }

  /** The bytes up to and including those that decide a true delimiter. */
  function DelimiterLength(s: bytes, nlDashBoundary: bytes): nat
    requires TrueDelimiter(s, nlDashBoundary)
  {
    var r := s[|nlDashBoundary|..];
    if StartsWithDashes(r) then |nlDashBoundary| + 2
    else |s| - |SkipLWSP(r)| + (if StartsWithLF(SkipLWSP(r)) then 1 else 2)
  }

  /** The first position of a visible delimiter, or the end of the stream. */
  function VisibleEnd(s: bytes, nlDashBoundary: bytes): (n: nat)
    ensures n <= |s|
    ensures n == |s| || VisibleDelimiter(s[n..], nlDashBoundary)
    ensures forall k :: 0 <= k < n ==> !VisibleDelimiter(s[k..], nlDashBoundary)
  {
    if s == [] || VisibleDelimiter(s, nlDashBoundary) then assert s[0..] == s; 0
    else
      var n := VisibleEnd(s[1..], nlDashBoundary) + 1;
      assert s[n..] == s[1..][n - 1..];
      assert s[0..] == s;
      assert forall k :: 0 < k < n ==> s[k..] == s[1..][k - 1..];
      n
  }

  /** The first position of a true delimiter, or the end of the stream. */
  function TrueEnd(s: bytes, nlDashBoundary: bytes): (n: nat)
    ensures n <= |s|
    ensures n == |s| || TrueDelimiter(s[n..], nlDashBoundary)
    ensures forall k :: 0 <= k < n ==> !TrueDelimiter(s[k..], nlDashBoundary)
  {
    if s == [] || TrueDelimiter(s, nlDashBoundary) then assert s[0..] == s; 0
    else
      var n := TrueEnd(s[1..], nlDashBoundary) + 1;
      assert s[n..] == s[1..][n - 1..];
      assert s[0..] == s;
      assert forall k :: 0 < k < n ==> s[k..] == s[1..][k - 1..];
      n
  }

  // ---------- windows ----------

  lemma {:induction false} SkipLWSPOfPrefix(p: bytes, s: bytes)
    requires p <= s
    ensures SkipLWSP(p) == [] || (SkipLWSP(p) <= SkipLWSP(s) && |p| - |SkipLWSP(p)| == |s| - |SkipLWSP(s)|)
    ensures |s| - |SkipLWSP(s)| < |p| ==> SkipLWSP(p) != []
  {
    if p != [] && IsBlank(p[0]) {
      SkipLWSPOfPrefix(p[1..], s[1..]);
    }
  }

  /** A verdict reached on a prefix stands for every longer window. */
  lemma DelimiterTailMonotone(p: bytes, s: bytes)
    requires p <= s && DelimiterTail(p)
    ensures DelimiterTail(s)
  {
    SkipLWSPOfPrefix(p, s);
  }

  lemma TrueDelimiterMonotone(p: bytes, s: bytes, nlDashBoundary: bytes)
    requires p <= s && TrueDelimiter(p, nlDashBoundary)
    ensures TrueDelimiter(s, nlDashBoundary)
  {
    DelimiterTailMonotone(p[|nlDashBoundary|..], s[|nlDashBoundary|..]);
  }

  /** A prefix shows a true delimiter if and only if it holds the whole delimiter. */
  lemma PrefixShowsDelimiter(p: bytes, s: bytes, nlDashBoundary: bytes)
    requires p <= s && TrueDelimiter(s, nlDashBoundary)
    ensures TrueDelimiter(p, nlDashBoundary) <==> DelimiterLength(s, nlDashBoundary) <= |p|
  {
    var b := nlDashBoundary;
    if |b| <= |p| {
      SkipLWSPOfPrefix(p[|b|..], s[|b|..]);
    }
  }

  lemma VisibleIffFits(s: bytes, nlDashBoundary: bytes)
    requires TrueDelimiter(s, nlDashBoundary)
    ensures VisibleDelimiter(s, nlDashBoundary) <==> DelimiterLength(s, nlDashBoundary) <= BUFFER_SIZE
  {
    PrefixShowsDelimiter(Window(s), s, nlDashBoundary);
    DelimiterLengthBound(s, nlDashBoundary);
  }

  lemma DelimiterLengthBound(s: bytes, nlDashBoundary: bytes)
    requires TrueDelimiter(s, nlDashBoundary)
    ensures DelimiterLength(s, nlDashBoundary) <= |s|
  {
  }

  /** The windowed meaning of a body agrees with the unbounded one exactly when the first true
      delimiter, with its padding and newline, fits one window. */
  lemma WindowedEndIsTrueEnd(s: bytes, nlDashBoundary: bytes)
    ensures TrueEnd(s, nlDashBoundary) <= VisibleEnd(s, nlDashBoundary)
    ensures VisibleEnd(s, nlDashBoundary) == TrueEnd(s, nlDashBoundary) <==>
            var e := TrueEnd(s, nlDashBoundary);
            e == |s| || DelimiterLength(s[e..], nlDashBoundary) <= 4096
  {
    var v, t := VisibleEnd(s, nlDashBoundary), TrueEnd(s, nlDashBoundary);
    if v < |s| {
      TrueDelimiterMonotone(Window(s[v..]), s[v..], nlDashBoundary);
    }
    if t < |s| {
      VisibleIffFits(s[t..], nlDashBoundary);
    }
  }

  function Blanks(n: nat): (b: bytes)
    ensures |b| == n && forall k :: 0 <= k < n ==> IsBlank(b[k])
  {
    seq(n, _ => SPACE)
  }

  /** A concrete miss: with a window's worth of blanks behind it, a delimiter is taken for data. */
  lemma PaddedDelimiterIsMissed(nlDashBoundary: bytes)
    requires nlDashBoundary != []
    ensures var s := nlDashBoundary + (Blanks(4096) + CRLF);
            TrueEnd(s, nlDashBoundary) == 0 < VisibleEnd(s, nlDashBoundary)
  {
    var tail := Blanks(BUFFER_SIZE) + CRLF;
    var s := nlDashBoundary + tail;
    SkipLWSPIs(Blanks(BUFFER_SIZE), CRLF);
    assert s[|nlDashBoundary|..] == tail && s[0..] == s;
    WindowedEndIsTrueEnd(s, nlDashBoundary);
  }
}
