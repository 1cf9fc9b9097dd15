/** The transducer of qputf8.go: it takes back a line break that was put inside a multi-byte
    character. This is its meaning, one byte at a time. */
module Utf8Repair {
  import opened Bytes
  import opened Streams

  /** The two top bits are 11. */
  predicate IsLead(b: byte) {
    b >= 0xC0
  }

  /** The two top bits are 10. */
  predicate IsContinuation(b: byte) {
    0x80 <= b < 0xC0
  }

  /** `Swallow` is the state in which the source leaves the machine when a release has exactly filled
      the caller's slice: it loses the next byte. */
  datatype Mode = Normal | Start | SawCR | SawLF | Continued | Swallow

  /** The bytes held back, and where the line break among them starts. */
  datatype State = State(mode: Mode, held: bytes, pos: nat)

  const IDLE := State(Normal, [], 0)

  /** What was emitted, the state, and whether the last byte made the machine release what it held. */
  datatype Config = Config(out: bytes, st: State, released: bool)

  /** What is decided on a byte: emit it, hold it, let everything go, let the held bytes go and
      start over with it, or lose it. */
  datatype Verdict = Emit | HoldAs(st: State) | LetGo(held: bytes) | StartOver(held: bytes) | Lose

  function Judge(st: State, b: byte): Verdict {
    var h := st.held;
    match st.mode
    case Normal => if IsLead(b) then HoldAs(State(Start, [b], 0)) else Emit
    case Start =>
      if IsLead(b) then StartOver(h)
      else if b == CR then HoldAs(State(SawCR, h + [b], |h|))
      else if b == LF then HoldAs(State(SawLF, h + [b], |h|))
      else if !IsContinuation(b) || |h| + 1 >= 4 then LetGo(h + [b])
      else HoldAs(State(Start, h + [b], 0))
    case SawCR =>
      if IsLead(b) then StartOver(h)
      else if b == LF then HoldAs(State(SawLF, h + [b], st.pos))
      else LetGo(h + [b])
    case SawLF =>
      if IsLead(b) then StartOver(h)
      else if IsContinuation(b) then HoldAs(State(Continued, h[..Min(st.pos, |h|)] + [b], 0))
      else LetGo(h + [b])
    case Continued =>
      if IsLead(b) then StartOver(h)
      else if !IsContinuation(b) || |h| + 1 == 6 then LetGo(h + [b])
      else HoldAs(State(Continued, h + [b], 0))
    case Swallow => Lose
  }

  /** Carries out a verdict on a byte. */
  function Apply(c: Config, v: Verdict, b: byte): Config {
    match v
    case Emit => Config(c.out + [b], IDLE, false)
    case HoldAs(st) => Config(c.out, st, false)
    case LetGo(h) => Config(c.out + h, IDLE, true)
    case StartOver(h) => Config(c.out + h, State(Start, [b], 0), false)
    case Lose => Config(c.out, IDLE, false)
  }

  function Step(c: Config, b: byte): Config {
    Apply(c, Judge(c.st, b), b)
  }

  function Stepper(): (Config, byte) -> Config {
    (c: Config, b: byte) => Step(c, b)
  }

  /** The machine after the first `n` bytes of an input. */
  function Feed(st: State, s: bytes, n: nat): Config
    requires n <= |s|
  {
    Fold(Stepper(), Config([], st, false), s, n)
  }

  lemma FeedNext(st: State, s: bytes, n: nat)
    requires n < |s|
    ensures Feed(st, s, n + 1) == Step(Feed(st, s, n), s[n])
  {
  }

  // ---------- what is held ----------

  /** A lead byte and at most two continuation bytes. */
  predicate IsOpening(h: bytes) {
    1 <= |h| <= 3 && IsLead(h[0]) && forall k :: 1 <= k < |h| ==> IsContinuation(h[k])
  }

  /** The shape of what each state holds; six bytes are always enough. */
  predicate IsShaped(st: State) {
    match st.mode
    case Normal => st == IDLE
    case Start => IsOpening(st.held) && st.pos == 0
    case SawCR => 1 <= st.pos <= 3 && |st.held| == st.pos + 1 && IsOpening(st.held[..st.pos]) && st.held[st.pos] == CR
    case SawLF =>
      && 1 <= st.pos <= 3 && st.pos < |st.held| <= st.pos + 2 && IsOpening(st.held[..st.pos])
      && (st.held[st.pos..] == [LF] || st.held[st.pos..] == CRLF)
    case Continued => 2 <= |st.held| <= 5 && st.pos == 0
    case Swallow => st == State(Swallow, [], 0)
  }

  lemma ShapeIsBounded(st: State)
    requires IsShaped(st)
    ensures |st.held| <= 5
  {
  }

  lemma StepKeepsShape(c: Config, b: byte)
    requires IsShaped(c.st)
    ensures IsShaped(Step(c, b).st)
  {
    var h := c.st.held;
    assert (h + [b])[..|h|] == h;
    if c.st.mode == SawCR {
      assert (h + [b])[..c.st.pos] == h[..c.st.pos];
      assert (h + [b])[c.st.pos..] == h[c.st.pos..] + [b] == [CR] + [b];
    } else if c.st.mode == Start && b == LF {
      assert (h + [b])[|h|..] == [LF];
    }
  }

  // ---------- conservation ----------

  /** Everything received so far that the machine has not deleted. */
  function Kept(c: Config): bytes {
    c.out + c.st.held
  }

  /** The machine is about to delete a line break. */
  predicate Joins(c: Config, b: byte) {
    c.st.mode == SawLF && IsContinuation(b)
  }

  /** A byte is kept, unless it joins two parts of a character, or is swallowed. */
  lemma StepConserves(c: Config, b: byte)
    requires IsShaped(c.st)
    ensures if c.st.mode == Swallow then Kept(Step(c, b)) == c.out
            else if Joins(c, b) then Kept(Step(c, b)) == c.out + c.st.held[..c.st.pos] + [b]
            else Kept(Step(c, b)) == Kept(c) + [b]
  {
    var h := c.st.held;
    if c.st.mode == Swallow {
    } else if Joins(c, b) {
      Assoc(c.out, h[..c.st.pos], [b]);
    } else {
      Assoc(c.out, h, [b]);
      assert Kept(Step(c, b)) == c.out + (h + [b]);
    }
  }

  /** A deleted block of the input: `len` bytes from `at`. */
  datatype Cut = Cut(at: nat, len: nat)

  predicate IsOpeningAt(s: bytes, j: int, at: int) {
    0 <= j < at <= |s| && at <= j + 3 && IsLead(s[j]) && forall k :: j < k < at ==> IsContinuation(s[k])
  }

  /** The block is a line break, directly after a lead byte with at most two continuation bytes and
      directly before a continuation byte. */
  predicate IsBreakInside(s: bytes, c: Cut) {
    && c.at + c.len < |s| && IsContinuation(s[c.at + c.len])
    && ((c.len == 1 && s[c.at] == LF) || (c.len == 2 && s[c.at] == CR && s[c.at + 1] == LF))
    && exists j :: 0 <= j < c.at && IsOpeningAt(s, j, c.at)
  }

  /** The blocks are such line breaks, in order and disjoint. */
  predicate AreCuts(s: bytes, cuts: seq<Cut>) {
    && (forall i :: 0 <= i < |cuts| ==> IsBreakInside(s, cuts[i]))
    && forall i :: 0 < i < |cuts| ==> cuts[i - 1].at + cuts[i - 1].len <= cuts[i].at
  }

  function CutEnd(cuts: seq<Cut>): nat {
    if cuts == [] then 0 else cuts[|cuts| - 1].at + cuts[|cuts| - 1].len
  }

  /** The input without the blocks. */
  function Without(s: bytes, cuts: seq<Cut>): bytes
    decreases |cuts|
  {
    if cuts == [] then s
    else
      var c := cuts[|cuts| - 1];
      if c.at + c.len <= |s| then Without(s[..c.at], cuts[..|cuts| - 1]) + s[c.at + c.len..] else s
  }

  lemma AppendKept(s: bytes, t: bytes, cuts: seq<Cut>)
    requires CutEnd(cuts) <= |s|
    ensures Without(s + t, cuts) == Without(s, cuts) + t
  {
    if cuts != [] {
      var c := cuts[|cuts| - 1];
      assert (s + t)[..c.at] == s[..c.at];
      assert (s + t)[c.at + c.len..] == s[c.at + c.len..] + t;
    }
  }

  lemma BreakStays(s: bytes, t: bytes, c: Cut)
    requires IsBreakInside(s, c)
    ensures IsBreakInside(s + t, c)
  {
    var j :| 0 <= j < c.at && IsOpeningAt(s, j, c.at);
    assert IsOpeningAt(s + t, j, c.at);
  }

  lemma AppendKeepsCuts(s: bytes, t: bytes, cuts: seq<Cut>)
    requires AreCuts(s, cuts)
    ensures AreCuts(s + t, cuts)
  {
    forall i | 0 <= i < |cuts|
      ensures IsBreakInside(s + t, cuts[i])
    {
      BreakStays(s, t, cuts[i]);
    }
  }

  lemma OneMoreCut(s: bytes, cuts: seq<Cut>, c: Cut)
    requires AreCuts(s, cuts) && IsBreakInside(s, c) && CutEnd(cuts) <= c.at
    ensures AreCuts(s, cuts + [c])
  {
  }

  /** What may still be part of a broken character is the end of the input, untouched. */
  predicate HoldsTheEnd(s: bytes, cuts: seq<Cut>, st: State) {
    st.mode in {Start, SawCR, SawLF} ==>
      |st.held| <= |s| && st.held == s[|s| - |st.held|..] && CutEnd(cuts) <= |s| - |st.held|
  }

  /** The machine after the input `s`, of which it has deleted exactly `cuts`. */
  predicate Accounts(s: bytes, cuts: seq<Cut>, c: Config) {
    AreCuts(s, cuts) && Kept(c) == Without(s, cuts) && HoldsTheEnd(s, cuts, c.st)
  }

  lemma CutEndInside(s: bytes, cuts: seq<Cut>)
    requires AreCuts(s, cuts)
    ensures CutEnd(cuts) <= |s|
  {
    if cuts != [] {
      assert IsBreakInside(s, cuts[|cuts| - 1]);
    }
  }

  lemma StillHoldsTheEnd(s: bytes, cuts: seq<Cut>, c: Config, b: byte)
    requires HoldsTheEnd(s, cuts, c.st) && IsShaped(c.st) && CutEnd(cuts) <= |s|
    ensures HoldsTheEnd(s + [b], cuts, Step(c, b).st)
  {
    if IsLead(b) {
      assert (s + [b])[|s|..] == [b];
    } else if c.st.mode in {Start, SawCR} {
      DropConcat(s, [b], |s| - |c.st.held|);
    }
  }

  lemma AccountsPlain(s: bytes, cuts: seq<Cut>, c: Config, b: byte)
    requires Accounts(s, cuts, c) && IsShaped(c.st) && c.st.mode != Swallow && !Joins(c, b)
    ensures Accounts(s + [b], cuts, Step(c, b))
  {
    CutEndInside(s, cuts);
    AppendKept(s, [b], cuts);
    AppendKeepsCuts(s, [b], cuts);
    StepConserves(c, b);
    StillHoldsTheEnd(s, cuts, c, b);
  }

  /** Where the held line break stands in the input. */
  lemma BreakFound(s: bytes, st: State, b: byte)
    requires IsShaped(st) && st.mode == SawLF && IsContinuation(b)
    requires |st.held| <= |s| && st.held == s[|s| - |st.held|..]
    ensures var at := |s| - |st.held| + st.pos;
            && IsBreakInside(s + [b], Cut(at, |s| - at)) && s[at..] == st.held[st.pos..]
  {
    var h, pos := st.held, st.pos;
    var start, at := |s| - |h|, |s| - |h| + pos;
    var s' := s + [b];
    assert s[at..] == h[pos..];
    assert forall k :: at <= k < |s| ==> s'[k] == s[at..][k - at];
    assert forall k :: start <= k < at ==> s'[k] == h[..pos][k - start];
    assert IsOpeningAt(s', start, at);
  }

  /** Taking the block at the end out of the input takes it out of what was kept. */
  lemma {:induction false} CutTheEnd(s: bytes, cuts: seq<Cut>, at: nat, b: byte)
    requires at <= |s| && CutEnd(cuts) <= at
    ensures Without(s, cuts) == Without(s[..at], cuts) + s[at..]
    ensures Without(s + [b], cuts + [Cut(at, |s| - at)]) == Without(s[..at], cuts) + [b]
  {
    assert s[..at] + s[at..] == s;
    AppendKept(s[..at], s[at..], cuts);
    var cuts' := cuts + [Cut(at, |s| - at)];
    assert cuts'[..|cuts'| - 1] == cuts;
    assert (s + [b])[..at] == s[..at] && (s + [b])[|s|..] == [b];
  }

  lemma {:induction false} JoinKeeps(s: bytes, cuts: seq<Cut>, c: Config, b: byte, at: nat)
    requires IsShaped(c.st) && Joins(c, b) && Kept(c) == Without(s, cuts)
    requires at <= |s| && CutEnd(cuts) <= at && s[at..] == c.st.held[c.st.pos..]
    ensures Kept(Step(c, b)) == Without(s + [b], cuts + [Cut(at, |s| - at)])
  {
    var h, pos := c.st.held, c.st.pos;
    CutTheEnd(s, cuts, at, b);
    assert h == h[..pos] + h[pos..];
    Assoc(c.out, h[..pos], h[pos..]);
    SameFront(c.out + h[..pos], Without(s[..at], cuts), h[pos..]);
    StepConserves(c, b);
  }

  lemma JoinCuts(s: bytes, cuts: seq<Cut>, st: State, b: byte, at: nat)
    requires AreCuts(s, cuts) && HoldsTheEnd(s, cuts, st) && IsShaped(st)
    requires st.mode == SawLF && IsContinuation(b) && at == |s| - |st.held| + st.pos
    ensures AreCuts(s + [b], cuts + [Cut(at, |s| - at)])
    ensures CutEnd(cuts) <= at && s[at..] == st.held[st.pos..]
  {
    BreakFound(s, st, b);
    AppendKeepsCuts(s, [b], cuts);
    OneMoreCut(s + [b], cuts, Cut(at, |s| - at));
  }

  lemma AccountsJoin(s: bytes, cuts: seq<Cut>, c: Config, b: byte) returns (cuts': seq<Cut>)
    requires Accounts(s, cuts, c) && IsShaped(c.st) && Joins(c, b)
    ensures Accounts(s + [b], cuts', Step(c, b))
  {
    var at := |s| - |c.st.held| + c.st.pos;
    cuts' := cuts + [Cut(at, |s| - at)];
    JoinCuts(s, cuts, c.st, b, at);
    JoinKeeps(s, cuts, c, b, at);
    assert Step(c, b).st.mode == Continued;
  }

  lemma AccountsStep(s: bytes, cuts: seq<Cut>, c: Config, b: byte, c': Config) returns (cuts': seq<Cut>)
    requires Accounts(s, cuts, c) && IsShaped(c.st) && c.st.mode != Swallow && c' == Step(c, b)
    ensures Accounts(s + [b], cuts', c') && IsShaped(c'.st) && c'.st.mode != Swallow
  {
    StepKeepsShape(c, b);
    if Joins(c, b) {
      cuts' := AccountsJoin(s, cuts, c, b);
    } else {
      cuts' := cuts;
      AccountsPlain(s, cuts, c, b);
    }
  }

  lemma SameFront(a: bytes, b: bytes, t: bytes)
    requires a + t == b + t
    ensures a == b
  {
    assert |a| == |b|;
    assert (a + t)[..|a|] == a && (b + t)[..|b|] == b;
  }

  /** On any input, what the machine emits and holds is the input with nothing deleted but line
      breaks inside what may be a character. */
  lemma {:induction false} FeedConserves(s: bytes, n: nat) returns (cuts: seq<Cut>)
    requires n <= |s|
    ensures IsShaped(Feed(IDLE, s, n).st) && Feed(IDLE, s, n).st.mode != Swallow
    ensures Accounts(s[..n], cuts, Feed(IDLE, s, n))
  {
    if n == 0 {
      cuts := [];
    } else {
      cuts := FeedConserves(s, n - 1);
      FeedNext(IDLE, s, n - 1);
      assert s[..n] == s[..n - 1] + [s[n - 1]];
      cuts := AccountsStep(s[..n - 1], cuts, Feed(IDLE, s, n - 1), s[n - 1], Feed(IDLE, s, n));
    }
  }

  // ---------- pieces of input ----------

  /** What was emitted before has no influence on the machine. */
  lemma {:induction false} FoldOut(c: Config, s: bytes, n: nat)
    requires n <= |s|
    ensures Fold(Stepper(), c, s, n).out == c.out + Fold(Stepper(), Config([], c.st, false), s, n).out
    ensures Fold(Stepper(), c, s, n).st == Fold(Stepper(), Config([], c.st, false), s, n).st
  {
    if n > 0 {
      FoldOut(c, s, n - 1);
      StepOut(Fold(Stepper(), c, s, n - 1), Fold(Stepper(), Config([], c.st, false), s, n - 1), c.out, s[n - 1]);
    }
  }

  lemma StepOut(c: Config, d: Config, out: bytes, b: byte)
    requires c.st == d.st && c.out == out + d.out
    ensures Step(c, b).st == Step(d, b).st && Step(c, b).out == out + Step(d, b).out
  {
    var h := c.st.held;
    Assoc(out, d.out, h);
    Assoc(out, d.out, h + [b]);
    Assoc(out, d.out, [b]);
  }

  /** A release that exactly fills a slice of `max` bytes leaves the machine about to swallow a byte. */
  function Settle(c: Config, max: nat): State {
    if c.released && |c.out| == max then State(Swallow, [], 0) else c.st
  }

  /** The machine on an input of its own. */
  function RunFrom(st: State, s: bytes): Config {
    Fold(Stepper(), Config([], st, false), s, |s|)
  }

  /** Two calls deliver what one call on both pieces of input would. */
  lemma CallsCompose(st: State, s: bytes, t: bytes)
    ensures var c, d, all := RunFrom(st, s), RunFrom(RunFrom(st, s).st, t), RunFrom(st, s + t);
            all.out == c.out + d.out && all.st == d.st
  {
    FoldConcat(Stepper(), Config([], st, false), s, t, |t|);
    FoldOut(RunFrom(st, s), t, |t|);
  }

  /** Whether a call ends in a release does not depend on the calls before it. */
  lemma CallsRelease(st: State, s: bytes, t: bytes)
    requires t != []
    ensures RunFrom(st, s + t).released == RunFrom(RunFrom(st, s).st, t).released
  {
    FoldConcat(Stepper(), Config([], st, false), s, t, |t|);
    LastRelease(RunFrom(st, s), t, |t|);
  }

  lemma LastRelease(c: Config, t: bytes, n: nat)
    requires 0 < n <= |t|
    ensures Fold(Stepper(), c, t, n).released == Fold(Stepper(), Config([], c.st, false), t, n).released
  {
    FoldOut(c, t, n - 1);
    SameRelease(Fold(Stepper(), c, t, n - 1), Fold(Stepper(), Config([], c.st, false), t, n - 1), t[n - 1]);
  }

  lemma SameRelease(c: Config, d: Config, b: byte)
    requires c.st == d.st
    ensures Step(c, b).released == Step(d, b).released
  {
  }

  /** Unless a release exactly filled the slice of the first: then precisely the first byte of the
      second piece is lost. */
  lemma FilledCallLosesByte(st: State, s: bytes, t: bytes, max: nat)
    requires RunFrom(st, s).released && |RunFrom(st, s).out| == max && t != []
    ensures var c := RunFrom(st, s);
            var d, all := RunFrom(Settle(c, max), t), RunFrom(st, s + t[1..]);
            all.out == c.out + d.out && all.st == d.st
  {
    ReleaseIdles(st, s);
    Swallowed(t);
    CallsCompose(st, s, t[1..]);
  }

  lemma StepReleaseIdles(c: Config, b: byte)
    ensures Step(c, b).released ==> Step(c, b).st == IDLE
  {
  }

  lemma ReleaseIdles(st: State, s: bytes)
    requires RunFrom(st, s).released
    ensures RunFrom(st, s).st == IDLE
  {
    if s != [] {
      var c := Fold(Stepper(), Config([], st, false), s, |s| - 1);
      StepReleaseIdles(c, s[|s| - 1]);
    }
  }

  lemma Swallowed(t: bytes)
    requires t != []
    ensures RunFrom(State(Swallow, [], 0), t) == RunFrom(IDLE, t[1..])
  {
    var c := Config([], State(Swallow, [], 0), false);
    assert t[..1] + t[1..] == t;
    FoldConcat(Stepper(), c, t[..1], t[1..], |t| - 1);
    assert Fold(Stepper(), c, t[..1], 1) == Step(Fold(Stepper(), c, t[..1], 0), t[0]);
  }

  /** A concrete loss: a four-byte letter read into a slice of four bytes costs the letter behind it. */
  lemma LetterIsSwallowed()
    ensures var c := RunFrom(IDLE, [0xF0, 0x9F, 0x98, 0x80]);
            && c.out == [0xF0, 0x9F, 0x98, 0x80] && c.released
            && RunFrom(Settle(c, 4), [0x61]).out == []
            && RunFrom(IDLE, [0xF0, 0x9F, 0x98, 0x80, 0x61]).out == [0xF0, 0x9F, 0x98, 0x80, 0x61]
  {
    var s: bytes := [0xF0, 0x9F, 0x98, 0x80, 0x61];
    var t := s[..4];
    assert t == [0xF0, 0x9F, 0x98, 0x80];
    assert Feed(IDLE, s, 1) == Config([], State(Start, [0xF0], 0), false);
    FeedNext(IDLE, s, 1);
    FeedNext(IDLE, s, 2);
    assert Feed(IDLE, s, 3) == Config([], State(Start, [0xF0, 0x9F, 0x98], 0), false);
    FeedNext(IDLE, s, 3);
    assert Feed(IDLE, s, 4) == Config(t, IDLE, true);
    FeedNext(IDLE, s, 4);
    FoldPrefix(Stepper(), Config([], IDLE, false), t, s, 4);
    Swallowed([0x61]);
    assert [0x61][1..] == [];
  }
}
