/** What one peek tells a part reader: the slice computations of multipart.go and why they are safe. */
module PartScan {
  import opened Bytes
  import opened Bufio
  import opened Delimiter

  /** `peekBufferIsEmptyPart`: the part has no body and no newline before its delimiter. */
  predicate IsEmptyPart(peek: bytes, nl: bytes, dashBoundary: bytes) {
    if dashBoundary + DASHES <= peek then
      var rest := SkipLWSP(peek[|dashBoundary| + 2..]);
      nl <= rest || rest == []
    else
      dashBoundary <= peek && nl <= SkipLWSP(peek[|dashBoundary|..])
  }

  predicate AreBlanks(s: bytes) {
    forall k :: 0 <= k < |s| ==> s[k] == SPACE || s[k] == TAB
  }

  /** What an empty part looks like at the front of a text: its boundary, blanks and a newline; or its
      closing boundary, blanks, and a newline or the end. */
  ghost predicate LooksEmpty(w: bytes, nl: bytes, dashBoundary: bytes) {
    || (exists pad :: AreBlanks(pad) && dashBoundary + pad + nl <= w)
    || (exists pad :: AreBlanks(pad) && dashBoundary + DASHES + pad + nl <= w)
    || (exists pad :: AreBlanks(pad) && dashBoundary + DASHES + pad == w)
  }

  lemma BlanksThenNewline(w: bytes, front: bytes, nl: bytes)
    requires nl == CRLF || nl == [LF]
    ensures (exists pad :: AreBlanks(pad) && front + pad + nl <= w)
            <==> front <= w && nl <= SkipLWSP(w[|front|..])
  {
    if front <= w && nl <= SkipLWSP(w[|front|..]) {
      var pad := BlanksFound(w, front, nl);
    }
    if exists pad :: AreBlanks(pad) && front + pad + nl <= w {
      var pad :| AreBlanks(pad) && front + pad + nl <= w;
      BlanksSkipped(w, front, pad, nl);
    }
  }

  lemma BlanksFound(w: bytes, front: bytes, nl: bytes) returns (pad: bytes)
    requires front <= w && nl <= SkipLWSP(w[|front|..])
    ensures AreBlanks(pad) && front + pad + nl <= w
  {
    var r := w[|front|..];
    SkipLWSPDrops(r);
    pad := r[..|r| - |SkipLWSP(r)|];
    assert r == pad + SkipLWSP(r) && w == front + r;
    Assoc(front, pad, SkipLWSP(r));
    PrefixBehind(front + pad, nl, SkipLWSP(r));
  }

  lemma PrefixBehind(a: bytes, p: bytes, s: bytes)
    requires p <= s
    ensures a + p <= a + s
  {
  }

  lemma BlanksSkipped(w: bytes, front: bytes, pad: bytes, nl: bytes)
    requires AreBlanks(pad) && front + pad + nl <= w && (nl == CRLF || nl == [LF])
    ensures front <= w && nl <= SkipLWSP(w[|front|..])
  {
    var rest := w[|front + pad|..];
    assert w[|front|..] == pad + rest && nl <= rest;
    SkipLWSPIs(pad, rest);
  }

  lemma BlanksThenEnd(w: bytes, front: bytes)
    ensures (exists pad :: AreBlanks(pad) && front + pad == w) <==> front <= w && SkipLWSP(w[|front|..]) == []
  {
    if front <= w && SkipLWSP(w[|front|..]) == [] {
      SkipLWSPDrops(w[|front|..]);
      assert AreBlanks(w[|front|..]) && front + w[|front|..] == w;
    }
    if exists pad :: AreBlanks(pad) && front + pad == w {
      var pad :| AreBlanks(pad) && front + pad == w;
      assert w[|front|..] == pad && pad + [] == pad;
      SkipLWSPIs(pad, []);
    }
  }

  /** The empty-part test says exactly that. */
  lemma EmptyPartMeans(w: bytes, nl: bytes, dashBoundary: bytes)
    requires nl == CRLF || nl == [LF]
    ensures IsEmptyPart(w, nl, dashBoundary) <==> LooksEmpty(w, nl, dashBoundary)
  {
    var d := |dashBoundary|;
    BlanksThenNewline(w, dashBoundary, nl);
    BlanksThenNewline(w, dashBoundary + DASHES, nl);
    BlanksThenEnd(w, dashBoundary + DASHES);
    assert dashBoundary <= dashBoundary + DASHES;
    if dashBoundary + DASHES <= w {
      assert w[d..][0] == DASH;
    }
  }

  /** The verdict of `peekBufferSeparatorIndex` on the bytes it sees after `nlDashBoundary`. */
  predicate EndsHere(after: bytes) {
    if after == [] || after == [DASH] then false
    else if |after| > 1 && after[0] == DASH && after[1] == DASH then true
    else
      var line := SkipLWSP(after);
      if IndexByte(line, LF) == -1 then false
      else if |line| > 0 && line[0] == LF then true
      else |line| > 1 && line[0] == CR && line[1] == LF
  }

  lemma EndsHereIsDelimiterTail(after: bytes)
    ensures EndsHere(after) <==> DelimiterTail(after)
  {
  }

  /** `peekBufferSeparatorIndex`: where `nlDashBoundary` first occurs, and whether what follows
      already shows a true delimiter. */
  function SeparatorIndex(peek: bytes, nlDashBoundary: bytes): (r: (int, bool))
    ensures r.1 ==> r.0 != -1
  {
    var idx := Index(peek, nlDashBoundary);
    if idx == -1 then (-1, false) else (idx, EndsHere(peek[idx + |nlDashBoundary|..]))
  }

  /** Where the body of a part that starts at `s` ends. */
  function BodyEnd(s: bytes, nl: bytes, boundary: bytes): (n: nat)
    ensures n <= |s|
  {
    if IsEmptyPart(Window(s), nl, DASHES + boundary) then 0
    else VisibleEnd(s, nl + DASHES + boundary)
  }

  // ---------- the empty-part test through a window ----------

  /** The blanks that follow a boundary at the front of `s`, up to where they stop. */
  function PaddedLength(s: bytes, dashBoundary: bytes): (n: nat)
    requires dashBoundary <= s
    ensures n <= |s|
  {
    var q := if dashBoundary + DASHES <= s then |dashBoundary| + 2 else |dashBoundary|;
    |s| - |SkipLWSP(s[q..])|
  }

  /** What the empty-part test says of a full window, in terms of the whole stream: it needs the
      newline inside the window, and takes a closing boundary whose blanks reach the end of the
      window for one at the end of the stream. */
  lemma IsEmptyPartThroughWindow(s: bytes, nl: bytes, dashBoundary: bytes)
    requires |s| > BUFFER_SIZE && |dashBoundary| + 2 <= BUFFER_SIZE && nl != []
    ensures IsEmptyPart(Window(s), nl, dashBoundary) <==>
            && dashBoundary <= s
            && if dashBoundary + DASHES <= s && PaddedLength(s, dashBoundary) >= BUFFER_SIZE then true
               else IsEmptyPart(s, nl, dashBoundary) && PaddedLength(s, dashBoundary) + |nl| <= BUFFER_SIZE
  {
    var w := Window(s);
    assert dashBoundary <= w <==> dashBoundary <= s;
    assert dashBoundary + DASHES <= w <==> dashBoundary + DASHES <= s;
    if dashBoundary <= s {
      var q := if dashBoundary + DASHES <= s then |dashBoundary| + 2 else |dashBoundary|;
      NewlineThroughWindow(w[q..], s[q..], nl);
    }
  }

  lemma {:induction false} NewlineThroughWindow(w: bytes, s: bytes, nl: bytes)
    requires w <= s && nl != []
    ensures nl <= SkipLWSP(w) <==> nl <= SkipLWSP(s) && |s| - |SkipLWSP(s)| + |nl| <= |w|
    ensures |w| < |s| ==> (SkipLWSP(w) == [] <==> |s| - |SkipLWSP(s)| >= |w|)
  {
    SkipLWSPOfPrefix(w, s);
  }

  // ---------- one peek ----------

  lemma {:induction false} VisibleEndShift(s: bytes, nlDashBoundary: bytes, k: nat)
    requires k <= VisibleEnd(s, nlDashBoundary)
    ensures VisibleEnd(s[k..], nlDashBoundary) == VisibleEnd(s, nlDashBoundary) - k
  {
    if k == 0 {
      assert s[0..] == s;
    } else {
      VisibleEndShift(s[1..], nlDashBoundary, k - 1);
      assert s[1..][k - 1..] == s[k..];
    }
  }

  /** A delimiter visible from `k` has its `nlDashBoundary` at `k`. */
  lemma VisibleOccurs(s: bytes, nlDashBoundary: bytes, k: nat)
    requires k <= |s| && VisibleDelimiter(s[k..], nlDashBoundary)
    ensures OccursAt(s, nlDashBoundary, k)
  {
    assert nlDashBoundary <= Window(s[k..]) <= s[k..];
  }

  lemma PrefixWithin(pat: bytes, w: bytes, s: bytes, k: nat)
    requires w <= s && k + |pat| <= |w| && pat <= s[k..]
    ensures OccursAt(w, pat, k)
  {
    assert forall i :: 0 <= i < |pat| ==> w[k..][i] == s[k..][i];
  }

  /** Nothing before the first occurrence in the window can be a delimiter. */
  lemma NothingBefore(s: bytes, nlDashBoundary: bytes, n: nat)
    requires n + |nlDashBoundary| <= |Window(s)| + 1
    requires forall k :: 0 <= k < n ==> !OccursAt(Window(s), nlDashBoundary, k)
    ensures n <= VisibleEnd(s, nlDashBoundary) || n == |s| + 1
  {
    var e := VisibleEnd(s, nlDashBoundary);
    if e < n && e < |s| {
      VisibleOccurs(s, nlDashBoundary, e);
      PrefixWithin(nlDashBoundary, Window(s), s, e);
    }
  }

  /** How far one peek lets the reader go: `nCopy` of `partReader.Read`. */
  function SafeCount(s: bytes, nlDashBoundary: bytes): nat {
    var peek := Window(s);
    var (idx, isEnd) := SeparatorIndex(peek, nlDashBoundary);
    if idx != -1 then (if !isEnd && idx == 0 then 1 else idx)
    else if |s| < BUFFER_SIZE then |peek|
    else if |peek| > |nlDashBoundary| then |peek| - |nlDashBoundary|
    else 0
  }

  lemma FoundIsVisible(s: bytes, nlDashBoundary: bytes)
    requires SeparatorIndex(Window(s), nlDashBoundary).1
    ensures VisibleDelimiter(s[SeparatorIndex(Window(s), nlDashBoundary).0..], nlDashBoundary)
  {
    var w := Window(s);
    var idx := SeparatorIndex(w, nlDashBoundary).0;
    IndexIsFirst(w, nlDashBoundary);
    EndsHereIsDelimiterTail(w[idx + |nlDashBoundary|..]);
    assert w[idx..][|nlDashBoundary|..] == w[idx + |nlDashBoundary|..];
    assert w[idx..] <= Window(s[idx..]);
    TrueDelimiterMonotone(w[idx..], Window(s[idx..]), nlDashBoundary);
  }

  lemma FoundIsEnd(s: bytes, nlDashBoundary: bytes)
    requires SeparatorIndex(Window(s), nlDashBoundary).1
    ensures VisibleEnd(s, nlDashBoundary) == SeparatorIndex(Window(s), nlDashBoundary).0
  {
    var idx := SeparatorIndex(Window(s), nlDashBoundary).0;
    IndexIsFirst(Window(s), nlDashBoundary);
    NothingBefore(s, nlDashBoundary, idx);
    FoundIsVisible(s, nlDashBoundary);
  }

  lemma FalseCandidateIsData(s: bytes, nlDashBoundary: bytes)
    requires nlDashBoundary != []
    requires SeparatorIndex(Window(s), nlDashBoundary).0 == 0 && !SeparatorIndex(Window(s), nlDashBoundary).1
    ensures VisibleEnd(s, nlDashBoundary) > 0
  {
    IndexIsFirst(Window(s), nlDashBoundary);
    EndsHereIsDelimiterTail(Window(s)[|nlDashBoundary|..]);
    assert s[0..] == s;
  }

  /** The reader never passes a delimiter; it stands still only in front of one or at the end of
      the stream. */
  lemma {:induction false} SafeCountIsSafe(s: bytes, nlDashBoundary: bytes)
    requires 0 < |nlDashBoundary| < BUFFER_SIZE
    ensures SafeCount(s, nlDashBoundary) <= VisibleEnd(s, nlDashBoundary)
    ensures SafeCount(s, nlDashBoundary) == 0 ==>
              VisibleEnd(s, nlDashBoundary) == 0 &&
              (SeparatorIndex(Window(s), nlDashBoundary).1 || |s| < BUFFER_SIZE)
  {
    var (idx, isEnd) := SeparatorIndex(Window(s), nlDashBoundary);
    IndexIsFirst(Window(s), nlDashBoundary);
    if isEnd {
      FoundIsEnd(s, nlDashBoundary);
    } else if idx == 0 {
      FalseCandidateIsData(s, nlDashBoundary);
    } else if idx > 0 {
      NothingBefore(s, nlDashBoundary, idx);
    } else if |s| < BUFFER_SIZE {
      var e := VisibleEnd(s, nlDashBoundary);
      if e < |s| {
        VisibleOccurs(s, nlDashBoundary, e);
      }
    } else {
      NothingBefore(s, nlDashBoundary, |Window(s)| - |nlDashBoundary|);
    }
  }

  /** How much of the bytes ahead belongs to a part, before and after its first byte is consumed. */
  function LeftOf(untouched: bool, ahead: bytes, nl: bytes, boundary: bytes): (n: nat)
    ensures n <= |ahead|
  {
    if untouched then BodyEnd(ahead, nl, boundary) else VisibleEnd(ahead, nl + DASHES + boundary)
  }

  /** Consuming bytes of a part leaves the rest of the same part. */
  lemma LeftAfter(untouched: bool, ahead: bytes, nl: bytes, boundary: bytes, n: nat)
    requires 0 < n <= LeftOf(untouched, ahead, nl, boundary)
    ensures LeftOf(false, ahead[n..], nl, boundary) == LeftOf(untouched, ahead, nl, boundary) - n
  {
    VisibleEndShift(ahead, nl + DASHES + boundary, n);
  }

  /** Nor does it change what is behind the part. */
  lemma SamePart(untouched: bool, ahead: bytes, nl: bytes, boundary: bytes, n: nat, left: nat, left': nat)
    requires n <= left == LeftOf(untouched, ahead, nl, boundary)
    requires left' == LeftOf(untouched && n == 0, ahead[n..], nl, boundary)
    ensures left' == left - n && ahead[n..][left'..] == ahead[left..]
  {
    if n > 0 {
      LeftAfter(untouched, ahead, nl, boundary, n);
      DropDrop(ahead, n, left');
    } else {
      assert ahead[0..] == ahead;
    }
  }
}
