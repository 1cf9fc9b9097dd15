/** Reading a text to its end through the repairing reader, with slices of any sizes. */
module Utf8Session {
  import opened Bytes
  import opened Streams
  import opened Utf8Repair
  import opened Utf8Undo
  import opened QPUtf8

  // ---------- swallowed bytes ----------

  /** The text without the bytes at some positions. */
  function Drop(s: bytes, lost: set<nat>): bytes {
    if s == [] then []
    else
      var n := |s| - 1;
      Drop(s[..n], lost) + if n in lost then [] else [s[n]]
  }

  lemma {:induction false} DropNothing(s: bytes)
    ensures Drop(s, {}) == s
  {
    if s != [] {
      var n := |s| - 1;
      DropNothing(s[..n]);
      assert s == s[..n] + [s[n]];
    }
  }

  /** Positions behind the text make no difference to it. */
  lemma {:induction false} DropBehind(s: bytes, lost: set<nat>, p: nat)
    requires |s| <= p
    ensures Drop(s, lost + {p}) == Drop(s, lost)
  {
    if s != [] {
      DropBehind(s[..|s| - 1], lost, p);
    }
  }

  lemma {:induction false} DropAppend(s: bytes, t: bytes, lost: set<nat>)
    requires forall p :: p in lost ==> p < |s|
    ensures Drop(s + t, lost) == Drop(s, lost) + t
    decreases |t|
  {
    if t == [] {
      assert s + t == s;
    } else {
      var n := |t| - 1;
      assert (s + t)[..|s + t| - 1] == s + t[..n];
      DropAppend(s, t[..n], lost);
      Assoc(Drop(s, lost), t[..n], [t[n]]);
      assert t == t[..n] + [t[n]];
    }
  }

  /** The first byte behind the text is one more that is lost. */
  lemma DropOneMore(s: bytes, t: bytes, lost: set<nat>)
    requires t != [] && forall p :: p in lost ==> p < |s|
    ensures Drop(s + t, lost + {|s|}) == Drop(s, lost) + t[1..]
  {
    var x := s + t[..1];
    Assoc(s, t[..1], t[1..]);
    assert t[..1] + t[1..] == t;
    assert x[..|x| - 1] == s;
    DropBehind(s, lost, |s|);
    assert Drop(x, lost + {|s|}) == Drop(s, lost) + [] == Drop(s, lost);
    DropAppend(x, t[1..], lost + {|s|});
  }

  /** All of the text is left exactly when nothing was lost. */
  lemma {:induction false} DropLength(s: bytes, lost: set<nat>)
    requires forall p :: p in lost ==> p < |s|
    ensures |Drop(s, lost)| == |s| - |lost|
    ensures Drop(s, lost) == s <==> lost == {}
  {
    DropNothing(s);
    if s != [] {
      var n := |s| - 1;
      if n in lost {
        DropLength(s[..n], lost - {n});
        DropBehind(s[..n], lost - {n}, n);
        assert lost - {n} + {n} == lost;
      } else {
        DropLength(s[..n], lost);
      }
    } else {
      assert lost == {};
    }
  }

  /** Positions of bytes of `s` each of which stands directly behind a release. */
  ghost predicate AreSwallowed(s: bytes, lost: set<nat>) {
    forall p :: p in lost ==> p < |s| && RunFrom(IDLE, Drop(s[..p], lost)).released
  }

  lemma StillSwallowed(s: bytes, t: bytes, lost: set<nat>)
    requires AreSwallowed(s, lost)
    ensures AreSwallowed(s + t, lost)
  {
    forall p | p in lost
      ensures RunFrom(IDLE, Drop((s + t)[..p], lost)).released
    {
      assert (s + t)[..p] == s[..p];
    }
  }

  lemma OneMoreSwallowed(s: bytes, t: bytes, lost: set<nat>)
    requires AreSwallowed(s, lost) && t != [] && RunFrom(IDLE, Drop(s, lost)).released
    ensures AreSwallowed(s + t, lost + {|s|})
  {
    forall p | p in lost + {|s|}
      ensures RunFrom(IDLE, Drop((s + t)[..p], lost + {|s|})).released
    {
      assert (s + t)[..p] == s[..p];
      DropBehind(s[..p], lost, |s|);
      assert s[..|s|] == s;
    }
  }

  /** A swallowed byte need not be missed: a lone lead byte at the end is not delivered anyway. */
  lemma SwallowedButNotMissed()
    ensures var s: bytes := [0xF0, 0x9F, 0x98, 0x80, 0xC3];
            && AreSwallowed(s, {4}) && Drop(s, {4}) == s[..4]
            && Delivered(RunFrom(IDLE, s)) == Delivered(RunFrom(IDLE, s[..4])) == s[..4]
  {
    var s: bytes := [0xF0, 0x9F, 0x98, 0x80, 0xC3];
    LetterIsSwallowed();
    assert s[..4] == [0xF0, 0x9F, 0x98, 0x80];
    DropNothing(s[..4]);
    DropBehind(s[..4], {}, 4);
    assert {} + {4} == {4};
    assert s[4..] == [0xC3] && s == s[..4] + [0xC3];
    FoldConcat(Stepper(), Config([], IDLE, false), s[..4], [0xC3], 1);
    var c := RunFrom(IDLE, s[..4]);
    ReleaseIdles(IDLE, s[..4]);
    assert RunFrom(IDLE, s) == Step(Fold(Stepper(), c, [0xC3], 0), 0xC3);
    assert RunFrom(IDLE, s) == Config(c.out, State(Start, [0xC3], 0), false);
  }

  // ---------- a run as a record of its calls ----------

  /** A call with a slice of `size` bytes that met the machine in a state and took a piece of input. */
  datatype Call = Call(st: State, piece: bytes, size: nat)

  function Emitted(c: Call): Config {
    RunFrom(c.st, c.piece)
  }

  /** The guard of the failure: a release of this call exactly filled its slice. */
  predicate Fills(c: Call) {
    Emitted(c).released && |Emitted(c).out| == c.size
  }

  /** The state behind the first `n` calls. */
  function StateAt(calls: seq<Call>, n: nat): State
    requires n <= |calls|
  {
    if n == 0 then IDLE else Settle(Emitted(calls[n - 1]), calls[n - 1].size)
  }

  /** The input that they took. */
  function Taken(calls: seq<Call>, n: nat): bytes
    requires n <= |calls|
  {
    if n == 0 then [] else Taken(calls, n - 1) + calls[n - 1].piece
  }

  /** The output that they delivered. */
  function Given(calls: seq<Call>, n: nat): bytes
    requires n <= |calls|
  {
    if n == 0 then [] else Given(calls, n - 1) + Emitted(calls[n - 1]).out
  }

  /** Every call found the state that the one before it left, had the slice it was given, and took no
      more than there was room for. */
  predicate AreChained(calls: seq<Call>, sizes: seq<nat>) {
    && |calls| <= |sizes|
    && forall i {:trigger StateAt(calls, i)} :: 0 <= i < |calls| ==> FitsIn(calls[i], StateAt(calls, i), sizes[i])
  }

  predicate FitsIn(c: Call, st: State, size: nat) {
    c.st == st && c.size == size && HasRoom(c.st, c.piece, c.size)
  }

  lemma {:induction false} OneCallMore(calls: seq<Call>, c: Call, n: nat)
    requires n <= |calls|
    ensures StateAt(calls + [c], n) == StateAt(calls, n)
    ensures Taken(calls + [c], n) == Taken(calls, n) && Given(calls + [c], n) == Given(calls, n)
  {
    if n > 0 {
      OneCallMore(calls, c, n - 1);
    }
  }

  /** The positions in the first `n` pieces that directly follow a call whose release filled its slice. */
  ghost function LostAt(calls: seq<Call>, n: nat): set<nat>
    requires n <= |calls|
  {
    set i | 0 <= i < n && Fills(calls[i]) && |Taken(calls, i + 1)| < |Taken(calls, n)| :: |Taken(calls, i + 1)|
  }

  /** The next byte would be one of them. */
  ghost predicate IsPending(calls: seq<Call>, n: nat)
    requires n <= |calls|
  {
    exists i :: 0 <= i < n && Fills(calls[i]) && |Taken(calls, i + 1)| == |Taken(calls, n)|
  }

  lemma {:induction false} TakenGrows(calls: seq<Call>, i: nat, n: nat)
    requires i <= n <= |calls|
    ensures |Taken(calls, i)| <= |Taken(calls, n)|
    decreases n
  {
    if i < n {
      TakenGrows(calls, i, n - 1);
    }
  }

  lemma EmptyCallsFillNothing(c: Call)
    ensures c.piece == [] ==> !Fills(c)
  {
  }

  lemma LostGrows(calls: seq<Call>, n: nat)
    requires 0 < n <= |calls|
    ensures var t := |Taken(calls, n - 1)|;
            LostAt(calls, n) == LostAt(calls, n - 1)
                                + if calls[n - 1].piece != [] && IsPending(calls, n - 1) then {t} else {}
    ensures IsPending(calls, n) <==> Fills(calls[n - 1]) || (calls[n - 1].piece == [] && IsPending(calls, n - 1))
  {
    forall j | 0 <= j < n
      ensures |Taken(calls, j)| <= |Taken(calls, n - 1)|
    {
      TakenGrows(calls, j, n - 1);
    }
    EmptyCallsFillNothing(calls[n - 1]);
  }

  // ---------- what a run delivers ----------

  /** A run of the machine on `s` and another one on `t` from where it ended. */
  lemma Extends(s: bytes, t: bytes, size: nat)
    ensures var c := RunFrom(IDLE, s);
            var d, all := RunFrom(c.st, t), RunFrom(IDLE, s + t);
            && all.out == c.out + d.out
            && (Settle(d, size) == all.st || (all.released && Settle(d, size) == State(Swallow, [], 0)))
  {
    CallsCompose(IDLE, s, t);
    if t != [] {
      CallsRelease(IDLE, s, t);
    }
  }

  lemma RunIsShaped(s: bytes)
    ensures IsShaped(RunFrom(IDLE, s).st) && RunFrom(IDLE, s).st.mode != Swallow
  {
    var _ := FeedConserves(s, |s|);
  }

  /** Of the input `s` the machine has delivered what it makes of `s` without the lost bytes; if it is
      about to swallow one, it has just released what it held. */
  ghost predicate HasGiven(s: bytes, given: bytes, lost: set<nat>, st: State) {
    var c := RunFrom(IDLE, Drop(s, lost));
    && AreSwallowed(s, lost) && given == c.out
    && (st == c.st || (c.released && st == State(Swallow, [], 0)))
  }

  lemma HasGivenIsShaped(s: bytes, given: bytes, lost: set<nat>, st: State)
    requires HasGiven(s, given, lost, st)
    ensures IsShaped(st) && |st.held| <= 5
  {
    RunIsShaped(Drop(s, lost));
    ShapeIsBounded(st);
  }

  /** One call more, in which the first byte is swallowed if one is due. */
  lemma NextCall(s: bytes, given: bytes, lost: set<nat>, c: Call, lost': set<nat>)
    requires HasGiven(s, given, lost, c.st)
    requires lost' == lost + if c.piece != [] && c.st.mode == Swallow then {|s|} else {}
    ensures HasGiven(s + c.piece, given + Emitted(c).out, lost', Settle(Emitted(c), c.size))
  {
    var fed := Drop(s, lost);
    RunIsShaped(fed);
    if c.st.mode != Swallow {
      DropAppend(s, c.piece, lost);
      StillSwallowed(s, c.piece, lost);
      Extends(fed, c.piece, c.size);
      assert lost + {} == lost;
    } else if c.piece == [] {
      assert s + c.piece == s && lost + {} == lost && given + [] == given;
      assert Emitted(c) == Config([], c.st, false);
    } else {
      SwallowingCall(s, given, lost, c);
    }
  }

  lemma SwallowingCall(s: bytes, given: bytes, lost: set<nat>, c: Call)
    requires HasGiven(s, given, lost, c.st) && c.st.mode == Swallow && c.piece != []
    ensures HasGiven(s + c.piece, given + Emitted(c).out, lost + {|s|}, Settle(Emitted(c), c.size))
  {
    var fed := Drop(s, lost);
    RunIsShaped(fed);
    DropOneMore(s, c.piece, lost);
    OneMoreSwallowed(s, c.piece, lost);
    ReleaseIdles(IDLE, fed);
    Swallowed(c.piece);
    Extends(fed, c.piece[1..], c.size);
  }

  /** A call leaves the machine about to swallow a byte exactly when its release filled its slice, or
      it took nothing and found the machine so. */
  lemma SwallowIsPending(c: Call)
    requires IsShaped(c.st)
    ensures Settle(Emitted(c), c.size).mode == Swallow <==> Fills(c) || (c.piece == [] && c.st.mode == Swallow)
  {
    FoldGrows(Config([], c.st, false), c.piece, |c.piece|);
    EmptyCallsFillNothing(c);
  }

  /** Whatever the calls, they have delivered what the machine makes of the input without the bytes
      that directly follow a call whose release filled its slice. */
  lemma {:induction false} CallsAccount(calls: seq<Call>, sizes: seq<nat>, n: nat)
    requires AreChained(calls, sizes) && n <= |calls|
    ensures HasGiven(Taken(calls, n), Given(calls, n), LostAt(calls, n), StateAt(calls, n))
    ensures StateAt(calls, n).mode == Swallow <==> IsPending(calls, n)
  {
    if n == 0 {
      assert LostAt(calls, n) == {};
    } else {
      CallsAccount(calls, sizes, n - 1);
      LostGrows(calls, n);
      AccountGrows(Taken(calls, n - 1), Given(calls, n - 1), LostAt(calls, n - 1), calls[n - 1],
                   IsPending(calls, n - 1), LostAt(calls, n), IsPending(calls, n));
    }
  }

  lemma AccountGrows(s: bytes, given: bytes, lost: set<nat>, c: Call, pending: bool, lost': set<nat>, pending': bool)
    requires HasGiven(s, given, lost, c.st) && (c.st.mode == Swallow <==> pending)
    requires lost' == lost + if c.piece != [] && pending then {|s|} else {}
    requires pending' <==> Fills(c) || (c.piece == [] && pending)
    ensures HasGiven(s + c.piece, given + Emitted(c).out, lost', Settle(Emitted(c), c.size))
    ensures Settle(Emitted(c), c.size).mode == Swallow <==> pending'
  {
    HasGivenIsShaped(s, given, lost, c.st);
    SwallowIsPending(c);
    NextCall(s, given, lost, c, lost');
  }

  // ---------- the end of a run ----------

  /** What a call gives out that finds the end already reported. */
  function Flushed(st: State, size: nat): bytes {
    if IsFlushed(st) then st.held[..Min(|st.held|, size)] else []
  }

  /** A whole run over slices of these sizes: its calls, one after the other, and at the end, if
      `flushed`, one more call that flushes what is held. */
  ghost predicate IsRun(text: bytes, sizes: seq<nat>, calls: seq<Call>, flushed: bool, delivered: bytes, eof: bool) {
    var n := |calls|;
    && AreChained(calls, sizes)
    && (if eof then text == Taken(calls, n) else Taken(calls, n) <= text && n == |sizes|)
    && (flushed ==> eof && n < |sizes|)
    && (eof && !flushed ==> StateAt(calls, n).held == [])
    && delivered == Given(calls, n) + if flushed then Flushed(StateAt(calls, n), sizes[n]) else []
  }

  /** The bytes that the run swallows. */
  ghost function Lost(calls: seq<Call>): set<nat> {
    LostAt(calls, |calls|)
  }

  /** The slice of the flushing call was too short. */
  predicate IsShort(sizes: seq<nat>, calls: seq<Call>, flushed: bool) {
    var n := |calls|;
    flushed && n < |sizes| && IsFlushed(StateAt(calls, n)) && sizes[n] < |StateAt(calls, n).held|
  }

  /** What was delivered, in terms of the text and the calls: what the machine makes of the input that
      was taken without the swallowed bytes, and at the end also what it flushes, as far as the last
      slice has room. */
  ghost predicate IsAccountedFor(sizes: seq<nat>, calls: seq<Call>, flushed: bool, delivered: bytes, eof: bool) {
    var fed := Drop(Taken(calls, |calls|), Lost(calls));
    && AreSwallowed(Taken(calls, |calls|), Lost(calls))
    && if !eof then delivered == RunFrom(IDLE, fed).out
       else delivered <= Delivered(RunFrom(IDLE, fed))
            && (delivered == Delivered(RunFrom(IDLE, fed)) <==> !IsShort(sizes, calls, flushed))
  }

  lemma EndIsFlushed(c: Config, st: State, size: nat)
    requires st == c.st || (c.released && st == State(Swallow, [], 0) && c.st == IDLE)
    ensures var d := c.out + Flushed(st, size);
            d <= Delivered(c) && (d == Delivered(c) <==> !(IsFlushed(st) && size < |st.held|))
    ensures st.held == [] ==> c.out == Delivered(c)
  {
    assert c.out + [] == c.out && st.held[..|st.held|] == st.held;
  }

  lemma RunIsAccountedFor(text: bytes, sizes: seq<nat>, calls: seq<Call>, flushed: bool, delivered: bytes, eof: bool)
    requires IsRun(text, sizes, calls, flushed, delivered, eof)
    ensures IsAccountedFor(sizes, calls, flushed, delivered, eof)
  {
    var n := |calls|;
    var given, st := Given(calls, n), StateAt(calls, n);
    var c := RunFrom(IDLE, Drop(Taken(calls, n), Lost(calls)));
    CallsAccount(calls, sizes, n);
    if c.released {
      ReleaseIdles(IDLE, Drop(Taken(calls, n), Lost(calls)));
    }
    EndIsFlushed(c, st, if flushed then sizes[n] else 0);
    assert given + [] == given;
  }

  /** No call has a release that exactly fills its slice. */
  predicate NoneFills(calls: seq<Call>) {
    forall i :: 0 <= i < |calls| ==> !Fills(calls[i])
  }

  lemma NothingIsLost(calls: seq<Call>)
    requires NoneFills(calls)
    ensures Lost(calls) == {}
  {
  }

  /** A run in which nothing was swallowed delivers what the machine makes of the text itself. */
  lemma UnfilledRun(text: bytes, sizes: seq<nat>, calls: seq<Call>, flushed: bool, delivered: bytes, eof: bool)
    requires IsRun(text, sizes, calls, flushed, delivered, eof) && Lost(calls) == {}
    ensures eof ==> delivered <= Delivered(RunFrom(IDLE, text))
    ensures eof ==> (delivered == Delivered(RunFrom(IDLE, text)) <==> !IsShort(sizes, calls, flushed))
    ensures !eof ==> exists s :: s <= text && delivered == RunFrom(IDLE, s).out
  {
    RunIsAccountedFor(text, sizes, calls, flushed, delivered, eof);
    DropNothing(Taken(calls, |calls|));
  }

  /** Above this size no slice is ever filled, or too short. */
  const AMPLE: nat := 6 + 512 + 1

  predicate AreAmple(sizes: seq<nat>) {
    forall i :: 0 <= i < |sizes| ==> sizes[i] >= AMPLE
  }

  lemma AmpleCall(c: Call)
    requires IsShaped(c.st) && |c.st.held| <= 5 && |c.piece| <= 512 && c.size >= AMPLE
    ensures !Fills(c)
  {
    FoldGrows(Config([], c.st, false), c.piece, |c.piece|);
  }

  lemma AmpleRun(sizes: seq<nat>, calls: seq<Call>, flushed: bool)
    requires AreChained(calls, sizes) && AreAmple(sizes)
    ensures NoneFills(calls) && !IsShort(sizes, calls, flushed)
  {
    forall i | 0 <= i <= |calls|
      ensures IsShaped(StateAt(calls, i)) && |StateAt(calls, i).held| <= 5
    {
      CallsAccount(calls, sizes, i);
      HasGivenIsShaped(Taken(calls, i), Given(calls, i), LostAt(calls, i), StateAt(calls, i));
    }
    forall i | 0 <= i < |calls|
      ensures !Fills(calls[i])
    {
      assert FitsIn(calls[i], StateAt(calls, i), sizes[i]);
      AmpleCall(calls[i]);
    }
  }

  // ---------- real runs ----------

  /** The record so far: `rest` is left of the text, and the machine is in `st`. */
  ghost predicate IsRecord(text: bytes, sizes: seq<nat>, calls: seq<Call>, rest: bytes, st: State, given: bytes) {
    && AreChained(calls, sizes) && text == Taken(calls, |calls|) + rest
    && st == StateAt(calls, |calls|) && given == Given(calls, |calls|)
  }

  lemma LastCall(calls: seq<Call>, c: Call, n: nat)
    requires n == |calls|
    ensures StateAt(calls + [c], n + 1) == Settle(Emitted(c), c.size)
    ensures Taken(calls + [c], n + 1) == Taken(calls, n) + c.piece
    ensures Given(calls + [c], n + 1) == Given(calls, n) + Emitted(c).out
  {
    OneCallMore(calls, c, n);
    assert (calls + [c])[n] == c;
  }

  lemma RecordGrows(text: bytes, sizes: seq<nat>, calls: seq<Call>, before: bytes, st: State, given: bytes,
                    chunk: bytes, after: bytes, st': State) returns (calls': seq<Call>)
    requires IsRecord(text, sizes, calls, before, st, given) && |calls| < |sizes|
    requires Ran(chunk, sizes[|calls|], before, after, st, st')
    ensures IsRecord(text, sizes, calls', after, st', given + chunk) && |calls'| == |calls| + 1
  {
    var c := Call(st, before[..|before| - |after|], sizes[|calls|]);
    calls' := AddCall(text, sizes, calls, before, st, given, c, after);
  }

  lemma AddCall(text: bytes, sizes: seq<nat>, calls: seq<Call>, before: bytes, st: State, given: bytes, c: Call,
                after: bytes) returns (calls': seq<Call>)
    requires IsRecord(text, sizes, calls, before, st, given) && |calls| < |sizes|
    requires FitsIn(c, st, sizes[|calls|]) && before == c.piece + after
    ensures IsRecord(text, sizes, calls', after, Settle(Emitted(c), c.size), given + Emitted(c).out)
    ensures |calls'| == |calls| + 1
  {
    var n := |calls|;
    calls' := calls + [c];
    ChainGrows(calls, sizes, c);
    LastCall(calls, c, n);
    assert |calls'| == n + 1;
    Assoc(Taken(calls, n), c.piece, after);
  }

  lemma ChainGrows(calls: seq<Call>, sizes: seq<nat>, c: Call)
    requires AreChained(calls, sizes) && |calls| < |sizes|
    requires FitsIn(c, StateAt(calls, |calls|), sizes[|calls|])
    ensures AreChained(calls + [c], sizes)
  {
    forall i | 0 <= i <= |calls|
      ensures FitsIn((calls + [c])[i], StateAt(calls + [c], i), sizes[i])
    {
      OneCallMore(calls, c, i);
      assert (calls + [c])[i] == if i < |calls| then calls[i] else c;
    }
  }

  method ReadPiece(r: Reader, size: nat) returns (chunk: bytes, eof: bool)
    requires r.Valid() && !r.err
    modifies r, r.own, r.buf, r.r
    ensures r.Valid() && (r.err ==> r.r.rest == []) && (eof ==> r.err && r.St().held == [])
    ensures Ran(chunk, size, old(r.r.rest), r.r.rest, old(r.St()), r.St())
  {
    var p := new byte[size];
    var n;
    n, eof := r.Read(p);
    chunk := p[..n];
  }

  method ReadFlushed(r: Reader, size: nat) returns (chunk: bytes)
    requires r.Valid() && r.err && (IsFlushed(r.St()) ==> size > 0)
    modifies r, r.own, r.buf, r.r
    ensures chunk == Flushed(old(r.St()), size)
  {
    var p := new byte[size];
    var n, _ := r.Read(p);
    chunk := p[..n];
  }

  /** The calls before the end was reported by the reader underneath. */
  method ReadPieces(r: Reader, ghost text: bytes, sizes: seq<nat>)
    returns (given: bytes, n: nat, eof: bool, ghost calls: seq<Call>)
    requires r.Valid() && !r.err && r.St() == IDLE && r.r.rest == text
    modifies r, r.own, r.buf, r.r
    ensures r.Valid() && IsRecord(text, sizes, calls, r.r.rest, r.St(), given)
    ensures r.err ==> r.r.rest == []
    ensures eof ==> r.err && r.St().held == []
    ensures n == |calls| <= |sizes| && (!r.err ==> n == |sizes|)
  {
    given, n, eof, calls := [], 0, false, [];
    assert text == [] + text;
    while n < |sizes| && !r.err
      invariant r.Valid() && n == |calls| && IsRecord(text, sizes, calls, r.r.rest, r.St(), given)
      invariant r.err ==> r.r.rest == []
      invariant eof ==> r.err && r.St().held == []
      decreases |sizes| - n
    {
      ghost var before, st := r.r.rest, r.St();
      var chunk;
      chunk, eof := ReadPiece(r, sizes[n]);
      calls := RecordGrows(text, sizes, calls, before, st, given, chunk, r.r.rest, r.St());
      given := given + chunk;
      n := n + 1;
    }
  }

  /** Reads a text with one slice after the other until the end is reported. Every such run, whatever
      the pieces that the reader underneath delivers, is accounted for by its calls; a run in which
      no release exactly fills a slice swallows nothing. */
  method Repair(text: bytes, sizes: seq<nat>)
    returns (delivered: bytes, eof: bool, ghost calls: seq<Call>, ghost flushed: bool)
    requires forall i :: 0 <= i < |sizes| ==> sizes[i] > 0
    ensures IsRun(text, sizes, calls, flushed, delivered, eof)
    ensures IsAccountedFor(sizes, calls, flushed, delivered, eof)
    ensures NoneFills(calls) ==> Lost(calls) == {}
    ensures eof && Lost(calls) == {} ==>
              (delivered == Delivered(RunFrom(IDLE, text)) <==> !IsShort(sizes, calls, flushed))
    ensures AreAmple(sizes) ==>
              if eof then delivered == Delivered(RunFrom(IDLE, text))
              else exists s :: s <= text && delivered == RunFrom(IDLE, s).out
  {
    delivered, eof, calls, flushed := Run(text, sizes);
    RunIsAccountedFor(text, sizes, calls, flushed, delivered, eof);
    if AreAmple(sizes) {
      AmpleRun(sizes, calls, flushed);
    }
    if NoneFills(calls) {
      NothingIsLost(calls);
    }
    if Lost(calls) == {} {
      UnfilledRun(text, sizes, calls, flushed, delivered, eof);
    }
  }

  method Run(text: bytes, sizes: seq<nat>)
    returns (delivered: bytes, eof: bool, ghost calls: seq<Call>, ghost flushed: bool)
    requires forall i :: 0 <= i < |sizes| ==> sizes[i] > 0
    ensures IsRun(text, sizes, calls, flushed, delivered, eof)
  {
    var src := new Source(text);
    var r := new Reader(src);
    var n;
    delivered, n, eof, calls := ReadPieces(r, text, sizes);
    flushed := false;
    if r.err && !eof && n < |sizes| {
      var chunk := ReadFlushed(r, sizes[n]);
      delivered, eof, flushed := delivered + chunk, true, true;
    }
    assert delivered + [] == delivered;
    assert Taken(calls, n) + [] == Taken(calls, n);
  }

  /** A text whose characters were broken by line breaks: unless a byte was swallowed or the last slice
      was too short, a run to the end delivers it whole if and only if it does not end in a line break
      directly behind an unbroken character of two or three bytes. */
  method RepairBroken(ghost ps: seq<Piece>, text: bytes, sizes: seq<nat>)
    returns (delivered: bytes, eof: bool, ghost calls: seq<Call>, ghost flushed: bool)
    requires ArePieces(ps) && text == Broken(ps, |ps|)
    requires forall i :: 0 <= i < |sizes| ==> sizes[i] > 0
    ensures IsRun(text, sizes, calls, flushed, delivered, eof)
    ensures IsAccountedFor(sizes, calls, flushed, delivered, eof)
    ensures NoneFills(calls) ==> Lost(calls) == {}
    ensures eof && Lost(calls) == {} && !IsShort(sizes, calls, flushed) ==>
              (delivered == Text(ps, |ps|) <==> !EndsBehindHeldChar(ps))
    ensures eof && Lost(calls) == {} && IsShort(sizes, calls, flushed) ==> delivered < Text(ps, |ps|)
    ensures eof && AreAmple(sizes) ==> (delivered == Text(ps, |ps|) <==> !EndsBehindHeldChar(ps))
  {
    delivered, eof, calls, flushed := Repair(text, sizes);
    BrokenDelivered(ps, text);
    if Lost(calls) == {} {
      UnfilledRun(text, sizes, calls, flushed, delivered, eof);
    }
  }

  lemma BrokenDelivered(ps: seq<Piece>, text: bytes)
    requires ArePieces(ps) && text == Broken(ps, |ps|)
    ensures var d := Delivered(RunFrom(IDLE, text));
            d <= Text(ps, |ps|) && (d == Text(ps, |ps|) <==> !EndsBehindHeldChar(ps))
  {
    EndIsDelivered(ps);
    BreaksAreUndone(ps);
    OutIsPrefix(RunFrom(IDLE, text));
  }

  lemma OutIsPrefix(c: Config)
    ensures c.out <= Kept(c) && Delivered(c) <= Kept(c)
  {
  }
}
