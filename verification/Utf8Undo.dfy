/** Text whose characters were broken by line breaks comes back whole. */
module Utf8Undo {
  import opened Bytes
  import opened Streams
  import opened Utf8Repair
  import Runes

  /** A one-byte character, or a longer one with a line break (or nothing) put behind its first `k` bytes. */
  datatype Piece = Plain(b: byte) | Char(c: bytes, k: nat, brk: bytes)

  /** A lead byte and one to three continuation bytes: every multi-byte character of UTF-8 is one. */
  predicate IsChar(c: bytes) {
    2 <= |c| <= 4 && IsLead(c[0]) && forall i :: 1 <= i < |c| ==> IsContinuation(c[i])
  }

  predicate IsPiece(p: Piece) {
    match p
    case Plain(b) => b < 0x80
    case Char(c, k, brk) => IsChar(c) && 1 <= k < |c| && (brk == [] || brk == [LF] || brk == CRLF)
  }

  function Original(p: Piece): bytes {
    match p case Plain(b) => [b] case Char(c, _, _) => c
  }

  function Written(p: Piece): bytes {
    match p case Plain(b) => [b] case Char(c, k, brk) => if k <= |c| then c[..k] + brk + c[k..] else c
  }

  predicate ArePieces(ps: seq<Piece>) {
    forall i :: 0 <= i < |ps| ==> IsPiece(ps[i])
  }

  /** The text the first `n` pieces stand for. */
  function Text(ps: seq<Piece>, n: nat): bytes
    requires n <= |ps|
  {
    if n == 0 then [] else Text(ps, n - 1) + Original(ps[n - 1])
  }

  /** The text the machine is given. */
  function Broken(ps: seq<Piece>, n: nat): bytes
    requires n <= |ps|
  {
    if n == 0 then [] else Broken(ps, n - 1) + Written(ps[n - 1])
  }

  // ---------- one piece ----------

  /** The machine after the first `n` bytes of `w`, from a configuration. */
  function After(c: Config, w: bytes, n: nat): Config
    requires n <= |w|
  {
    Fold(Stepper(), c, w, n)
  }

  lemma AfterNext(c: Config, w: bytes, n: nat)
    requires n < |w|
    ensures After(c, w, n + 1) == Step(After(c, w, n), w[n])
  {
  }

  predicate IsRunning(st: State) {
    IsShaped(st) && st.mode != Swallow
  }

  lemma LeadRestarts(c: Config, b: byte)
    requires IsRunning(c.st) && IsLead(b)
    ensures Step(c, b) == Config(Kept(c), State(Start, [b], 0), false)
  {
    assert c.st.mode == Normal ==> Kept(c) == c.out;
  }

  lemma {:induction false} OpenChar(c: Config, w: bytes, ch: bytes, j: nat)
    requires IsRunning(c.st) && IsChar(ch) && 1 <= j <= 3 && j <= |ch| && j <= |w| && w[..j] == ch[..j]
    ensures After(c, w, j) == Config(Kept(c), State(Start, ch[..j], 0), false)
  {
    assert w[j - 1] == w[..j][j - 1] == ch[..j][j - 1];
    AfterNext(c, w, j - 1);
    if j == 1 {
      LeadRestarts(c, w[0]);
      assert ch[..1] == [w[0]];
    } else {
      assert w[..j - 1] == w[..j][..j - 1] == ch[..j - 1];
      OpenChar(c, w, ch, j - 1);
      assert ch[..j] == ch[..j - 1] + [w[j - 1]];
    }
  }

  lemma WholeChar(c: Config, ch: bytes)
    requires IsRunning(c.st) && IsChar(ch)
    ensures After(c, ch, |ch|)
            == if |ch| == 4 then Config(Kept(c) + ch, IDLE, true) else Config(Kept(c), State(Start, ch, 0), false)
  {
    if |ch| < 4 {
      OpenChar(c, ch, ch, |ch|);
      assert ch[..|ch|] == ch;
    } else {
      OpenChar(c, ch, ch, 3);
      AfterNext(c, ch, 3);
      assert ch == ch[..3] + [ch[3]];
    }
  }

  lemma BreakSeen(c: Config, w: bytes, ch: bytes, k: nat, brk: bytes)
    requires IsRunning(c.st) && IsChar(ch) && 1 <= k < |ch| && (brk == [LF] || brk == CRLF)
    requires w == ch[..k] + brk + ch[k..]
    ensures After(c, w, k + |brk|) == Config(Kept(c), State(SawLF, ch[..k] + brk, k), false)
  {
    assert w[..k] == ch[..k];
    OpenChar(c, w, ch, k);
    AfterNext(c, w, k);
    assert w[k] == brk[0];
    if brk == CRLF {
      AfterNext(c, w, k + 1);
      assert w[k + 1] == brk[1];
      assert ch[..k] + brk == ch[..k] + [CR] + [LF];
    }
  }

  lemma {:induction false} BrokenChar(c: Config, w: bytes, ch: bytes, k: nat, brk: bytes, j: nat)
    requires IsRunning(c.st) && IsChar(ch) && 1 <= k < j <= |ch| && (brk == [LF] || brk == CRLF)
    requires w == ch[..k] + brk + ch[k..]
    ensures After(c, w, j + |brk|) == Config(Kept(c), State(Continued, ch[..j], 0), false)
    decreases j
  {
    var n := j - 1 + |brk|;
    assert w[n] == ch[j - 1];
    AfterNext(c, w, n);
    assert ch[..j] == ch[..j - 1] + [ch[j - 1]];
    if j == k + 1 {
      BreakSeen(c, w, ch, k, brk);
      assert (ch[..k] + brk)[..k] == ch[..k];
    } else {
      BrokenChar(c, w, ch, k, brk, j - 1);
    }
  }

  /** The state behind a piece. */
  function ModeAfter(m: Mode, p: Piece): Mode {
    match p
    case Char(c, _, brk) => if brk != [] then Continued else if |c| <= 3 then Start else Normal
    case Plain(b) =>
      if m == Start && b == CR then SawCR
      else if (m == Start || m == SawCR) && b == LF then SawLF
      else Normal
  }

  /** Between two pieces a character that is held back is whole. */
  predicate IsBetween(c: Config) {
    IsRunning(c.st) && (c.st.mode == Start ==> |c.st.held| >= 2)
  }

  /** The machine behind a piece, `c'`, has kept the text of the piece. */
  predicate Keeps(c: Config, p: Piece, c': Config) {
    Kept(c') == Kept(c) + Original(p) && IsBetween(c') && c'.st.mode == ModeAfter(c.st.mode, p)
  }

  lemma PlainKept(c: Config, b: byte)
    requires IsBetween(c) && b < 0x80
    ensures Keeps(c, Plain(b), Step(c, b))
  {
    StepConserves(c, b);
    StepKeepsShape(c, b);
  }

  /** The three ways a whole character stands in the machine. */
  lemma CharStands(out: bytes, ch: bytes)
    requires IsChar(ch)
    ensures |ch| <= 3 ==> var c := Config(out, State(Start, ch, 0), false); Kept(c) == out + ch && IsBetween(c)
    ensures var c := Config(out, State(Continued, ch, 0), false); Kept(c) == out + ch && IsBetween(c)
    ensures var c := Config(out + ch, IDLE, true); Kept(c) == out + ch && IsBetween(c)
  {
  }

  lemma CharKept(c: Config, p: Piece)
    requires IsBetween(c) && IsPiece(p) && p.Char?
    ensures Keeps(c, p, After(c, Written(p), |Written(p)|))
  {
    CharStands(Kept(c), p.c);
    if p.brk == [] {
      assert Written(p) == p.c;
      WholeChar(c, p.c);
    } else {
      BrokenChar(c, Written(p), p.c, p.k, p.brk, |p.c|);
      assert p.c[..|p.c|] == p.c;
    }
  }

  lemma PieceKept(c: Config, p: Piece, c': Config)
    requires IsBetween(c) && IsPiece(p) && c' == After(c, Written(p), |Written(p)|)
    ensures Keeps(c, p, c')
  {
    if p.Plain? {
      AfterNext(c, [p.b], 0);
      PlainKept(c, p.b);
    } else {
      CharKept(c, p);
    }
  }

  // ---------- whole texts ----------

  function ModeAt(ps: seq<Piece>, n: nat): Mode
    requires n <= |ps|
  {
    if n == 0 then Normal else ModeAfter(ModeAt(ps, n - 1), ps[n - 1])
  }

  lemma FeedThen(x: bytes, y: bytes)
    ensures Feed(IDLE, x + y, |x + y|) == After(Feed(IDLE, x, |x|), y, |y|)
  {
    FoldConcat(Stepper(), Config([], IDLE, false), x, y, |y|);
  }

  /** The machine behind the text `x` has kept `text`. */
  predicate HasKept(x: bytes, text: bytes, m: Mode) {
    var c := Feed(IDLE, x, |x|);
    Kept(c) == text && IsBetween(c) && c.st.mode == m
  }

  lemma OnePieceMore(x: bytes, text: bytes, m: Mode, p: Piece)
    requires HasKept(x, text, m) && IsPiece(p)
    ensures HasKept(x + Written(p), text + Original(p), ModeAfter(m, p))
  {
    FeedThen(x, Written(p));
    PieceKept(Feed(IDLE, x, |x|), p, Feed(IDLE, x + Written(p), |x + Written(p)|));
  }

  lemma {:induction false} PiecesKept(ps: seq<Piece>, n: nat)
    requires ArePieces(ps) && n <= |ps|
    ensures HasKept(Broken(ps, n), Text(ps, n), ModeAt(ps, n))
  {
    if n > 0 {
      PiecesKept(ps, n - 1);
      OnePieceMore(Broken(ps, n - 1), Text(ps, n - 1), ModeAt(ps, n - 1), ps[n - 1]);
    }
  }

  /** Line breaks put inside characters, at most one in each, are taken back; and a text that has
      none inside its characters is left alone. */
  lemma BreaksAreUndone(ps: seq<Piece>)
    requires ArePieces(ps)
    ensures Kept(Feed(IDLE, Broken(ps, |ps|), |Broken(ps, |ps|)|)) == Text(ps, |ps|)
  {
    PiecesKept(ps, |ps|);
  }

  // ---------- valid UTF-8 ----------

  lemma {:induction false} InFront(p: Piece, ps: seq<Piece>, n: nat)
    requires n <= |ps|
    ensures Text([p] + ps, n + 1) == Original(p) + Text(ps, n)
    ensures Broken([p] + ps, n + 1) == Written(p) + Broken(ps, n)
  {
    if n == 0 {
      assert Text([p] + ps, 1) == [] + Original(p) == Original(p) + [];
      assert Broken([p] + ps, 1) == [] + Written(p) == Written(p) + [];
    } else {
      InFront(p, ps, n - 1);
      assert ([p] + ps)[n] == ps[n - 1];
      Assoc(Original(p), Text(ps, n - 1), Original(ps[n - 1]));
      Assoc(Written(p), Broken(ps, n - 1), Written(ps[n - 1]));
    }
  }

  /** The character in front of a well-formed text, unbroken. */
  function FirstPiece(s: bytes): Piece
    requires s != []
  {
    if s[0] < 0x80 then Plain(s[0]) else Char(s[..Runes.RuneLen(s)], 1, [])
  }

  lemma FirstIsPiece(s: bytes)
    requires s != [] && Runes.IsUtf8(s)
    ensures IsPiece(FirstPiece(s))
    ensures Original(FirstPiece(s)) == Written(FirstPiece(s)) == s[..Runes.RuneLen(s)]
  {
    if s[0] >= 0x80 {
      var c := s[..Runes.RuneLen(s)];
      assert c[..1] + [] + c[1..] == c;
    }
  }

  /** Every well-formed text is made of pieces, so the laws above are about all of UTF-8. */
  lemma {:induction false} Utf8HasPieces(s: bytes) returns (ps: seq<Piece>)
    requires Runes.IsUtf8(s)
    ensures ArePieces(ps) && Text(ps, |ps|) == s == Broken(ps, |ps|)
    decreases |s|
  {
    ps := [];
    if s != [] {
      var n := Runes.RuneLen(s);
      var w, t := s[..n], s[n..];
      assert s == w + t && Runes.IsUtf8(t);
      var qs := Utf8HasPieces(t);
      ps := [FirstPiece(s)] + qs;
      FirstIsPiece(s);
      OnePieceInFront(FirstPiece(s), w, qs, t, ps);
    }
  }

  lemma OnePieceInFront(p: Piece, w: bytes, qs: seq<Piece>, t: bytes, ps: seq<Piece>)
    requires IsPiece(p) && Original(p) == w == Written(p) && ps == [p] + qs
    requires ArePieces(qs) && Text(qs, |qs|) == t == Broken(qs, |qs|)
    ensures ArePieces(ps) && Text(ps, |ps|) == w + t == Broken(ps, |ps|)
  {
    ArePiecesInFront(p, qs);
    InFront(p, qs, |qs|);
    assert |ps| == |qs| + 1;
  }

  lemma ArePiecesInFront(p: Piece, qs: seq<Piece>)
    requires IsPiece(p) && ArePieces(qs)
    ensures ArePieces([p] + qs)
  {
    forall i | 0 <= i < |qs| + 1
      ensures IsPiece(([p] + qs)[i])
    {
      assert ([p] + qs)[i] == if i == 0 then p else qs[i - 1];
    }
  }

  /** The same text with line breaks put inside some of its characters. */
  predicate IsBrokenUp(ps: seq<Piece>, qs: seq<Piece>) {
    && |qs| == |ps|
    && forall i :: 0 <= i < |ps| ==> IsPiece(qs[i]) && Original(qs[i]) == Original(ps[i])
  }

  lemma {:induction false} SameText(ps: seq<Piece>, qs: seq<Piece>, n: nat)
    requires IsBrokenUp(ps, qs) && n <= |ps|
    ensures Text(ps, n) == Text(qs, n)
  {
    if n > 0 {
      SameText(ps, qs, n - 1);
    }
  }

  /** Valid UTF-8 passes through unchanged, and so it comes back from every text that was made of it
      by at most one line break inside each character. */
  lemma Utf8ComesBack(s: bytes) returns (ps: seq<Piece>)
    requires Runes.IsUtf8(s)
    ensures ArePieces(ps) && Text(ps, |ps|) == s
    ensures Kept(Feed(IDLE, s, |s|)) == s
    ensures forall qs :: IsBrokenUp(ps, qs) ==> Kept(Feed(IDLE, Broken(qs, |qs|), |Broken(qs, |qs|)|)) == s
  {
    ps := Utf8HasPieces(s);
    BreaksAreUndone(ps);
    forall qs | IsBrokenUp(ps, qs)
      ensures Kept(Feed(IDLE, Broken(qs, |qs|), |Broken(qs, |qs|)|)) == s
    {
      SameText(ps, qs, |ps|);
      BreaksAreUndone(qs);
    }
  }

  // ---------- the end of the text ----------

  /** What the machine still holds is given out at the end only in these states. */
  predicate IsFlushed(st: State) {
    st.mode == Continued || (st.mode == Start && |st.held| > 1)
  }

  /** Everything delivered, if there is room for it, once the end of the input was reported. */
  function Delivered(c: Config): bytes {
    if IsFlushed(c.st) then Kept(c) else c.out
  }

  /** An unbroken character of two or three bytes: the machine cannot tell that it is complete. */
  predicate IsHeldChar(p: Piece) {
    p.Char? && p.brk == [] && |p.c| <= 3
  }

  /** The text ends in CR, LF or CRLF directly behind such a character. */
  predicate EndsBehindHeldChar(ps: seq<Piece>) {
    var n := |ps|;
    || (n >= 2 && (ps[n - 1] == Plain(CR) || ps[n - 1] == Plain(LF)) && IsHeldChar(ps[n - 2]))
    || (n >= 3 && ps[n - 1] == Plain(LF) && ps[n - 2] == Plain(CR) && IsHeldChar(ps[n - 3]))
  }

  lemma ModeAtEnd(ps: seq<Piece>)
    ensures ModeAt(ps, |ps|) in {SawCR, SawLF} <==> EndsBehindHeldChar(ps)
  {
    var n := |ps|;
    if n >= 2 {
      assert ModeAt(ps, n) == ModeAfter(ModeAt(ps, n - 1), ps[n - 1]);
      assert ModeAt(ps, n - 1) == ModeAfter(ModeAt(ps, n - 2), ps[n - 2]);
      if n >= 3 {
        assert ModeAt(ps, n - 2) == ModeAfter(ModeAt(ps, n - 3), ps[n - 3]);
      }
    }
  }

  /** The whole text is delivered if and only if it does not end in a line break directly behind a
      character that is still held; otherwise that character and the line break are lost. */
  lemma EndIsDelivered(ps: seq<Piece>)
    requires ArePieces(ps)
    ensures Delivered(Feed(IDLE, Broken(ps, |ps|), |Broken(ps, |ps|)|)) == Text(ps, |ps|)
            <==> !EndsBehindHeldChar(ps)
  {
    PiecesKept(ps, |ps|);
    ModeAtEnd(ps);
    var c := Feed(IDLE, Broken(ps, |ps|), |Broken(ps, |ps|)|);
    if c.st.mode in {SawCR, SawLF} {
      assert |c.out| < |Kept(c)|;
    } else if c.st.mode == Normal {
      assert Kept(c) == c.out;
    }
  }

  /** A lost line: an accented letter and its newline at the end of a text. */
  lemma LastLetterIsLost()
    ensures var ps := [Plain(0x61), Char([0xC3, 0xA9], 1, []), Plain(LF)];
            && Text(ps, 3) == [0x61, 0xC3, 0xA9, LF]
            && Delivered(Feed(IDLE, Broken(ps, 3), |Broken(ps, 3)|)) == [0x61]
  {
    var s: bytes := [0x61, 0xC3, 0xA9, LF];
    var ps := [Plain(0x61), Char([0xC3, 0xA9], 1, []), Plain(LF)];
    assert Broken(ps, 1) == [0x61] && Broken(ps, 2) == [0x61, 0xC3, 0xA9] && Broken(ps, 3) == s;
    assert Text(ps, 1) == [0x61] && Text(ps, 2) == [0x61, 0xC3, 0xA9];
    FeedNext(IDLE, s, 0);
    FeedNext(IDLE, s, 1);
    FeedNext(IDLE, s, 2);
    FeedNext(IDLE, s, 3);
    assert Feed(IDLE, s, 1).out == [0x61];
    assert Feed(IDLE, s, 3).st == State(Start, [0xC3, 0xA9], 0);
    assert Feed(IDLE, s, 4).st.mode == SawLF;
  }
}
