/** quotedprintable/qputf8.go: the reader that repairs broken characters, over its two buffers. */
module QPUtf8 {
  import opened Bytes
  import opened Streams
  import opened Utf8Repair
  import Undo = Utf8Undo

  /** The reader underneath: it delivers a finite stream in pieces of any size, and reports the end
      either with the last piece or later. */
  class Source {
    var rest: bytes

    constructor (stream: bytes)
      ensures rest == stream
    {
      rest := stream;
    }

    method Read(limit: nat) returns (chunk: bytes, eof: bool)
      modifies this
      ensures |chunk| <= limit && old(rest) == chunk + rest
      ensures eof ==> rest == []
    {
      var n: nat :| n <= limit && n <= |rest|;
      var last: bool :| true;
      chunk, rest := rest[..n], rest[n..];
      eof := last && rest == [];
    }
  }

  datatype Code = StNormal | StStart | St0x0D | St0x0A | St0x10XXXXXX | StRelease | StReleaseRestart

  function ModeOf(state: Code): Mode {
    match state
    case StNormal => Normal
    case StStart => Start
    case St0x0D => SawCR
    case St0x0A => SawLF
    case St0x10XXXXXX => Continued
    case _ => Swallow
  }

  lemma StepGrowsByOne(c: Config, b: byte)
    requires IsShaped(c.st)
    ensures |Kept(Step(c, b))| <= |Kept(c)| + 1
    ensures Step(c, b).st.mode != Swallow
    ensures Step(c, b).released ==> |Step(c, b).out| > |c.out|
  {
    StepConserves(c, b);
  }

  lemma {:induction false} FoldGrows(c: Config, s: bytes, n: nat)
    requires IsShaped(c.st) && n <= |s|
    ensures IsShaped(Fold(Stepper(), c, s, n).st) && |Kept(Fold(Stepper(), c, s, n))| <= |Kept(c)| + n
    ensures n > 0 ==> Fold(Stepper(), c, s, n).st.mode != Swallow
  {
    if n > 0 {
      FoldGrows(c, s, n - 1);
      StepKeepsShape(Fold(Stepper(), c, s, n - 1), s[n - 1]);
      StepGrowsByOne(Fold(Stepper(), c, s, n - 1), s[n - 1]);
    }
  }

  class Reader {
    const r: Source
    const own: array<byte>
    const buf: array<byte>
    var state: Code
    var pos: nat
    var pco: nat
    var cco: nat
    var pcb: nat
    var ccb: nat
    var last: byte
    var err: bool

    ghost function St(): State
      reads this, own
    {
      State(ModeOf(state),
            if cco <= pco <= own.Length then own[cco..pco] else [],
            if state == St0x0D || state == St0x0A then pos else 0)
    }

    ghost predicate Buffers()
      reads this
    {
      own.Length == 6 && buf.Length == 512 && own != buf && cco <= pco <= 6 && pcb == ccb
    }

    /** The machine between two bytes. */
    ghost predicate Running()
      reads this, own
    {
      && Buffers() && state != StReleaseRestart && IsShaped(St())
      && (state != StRelease ==> cco == 0)
    }

    ghost predicate Valid()
      reads this, own
    {
      Buffers() && (!err ==> Running())
    }

    constructor (r: Source)
      ensures Valid() && this.r == r && !err && St() == IDLE
      ensures fresh(own) && fresh(buf)
    {
      this.r := r;
      own := new byte[6];
      buf := new byte[512];
      state, pos, pco, cco, pcb, ccb, last, err := StNormal, 0, 0, 0, 0, 0, 0, false;
    }

    /** Emits what is held as far as there is room, and then starts over, with the byte in `last`
        if there is one. */
    method Release(p: array<byte>, count: nat, restart: bool) returns (n: nat, ok: bool)
      requires Buffers() && p != own && p != buf && count < p.Length
      requires restart ==> count + (pco - cco) < p.Length
      modifies this`cco, this`pco, this`state, own, p
      ensures Buffers() && n == Min(count + old(pco - cco), p.Length)
      ensures p[..n] == old(p[..count]) + old(own[cco..cco + (n - count)])
      ensures ok <==> n < p.Length
      ensures ok && restart ==> cco == 0 && pco == 1 && own[0] == last && state == StStart
      ensures ok && !restart ==> cco == 0 && pco == 0 && state == StNormal
      ensures !ok ==> cco == old(cco) + (n - count) && pco == old(pco) && state == old(state)
    {
      n := count;
      ghost var start := cco;
      while cco < pco
        invariant start <= cco <= pco <= 6 && n == count + (cco - start) && n < p.Length
        invariant pco == old(pco) && state == old(state) && own[..] == old(own[..])
        invariant p[..n] == old(p[..count]) + own[start..cco]
        decreases pco - cco
      {
        p[n] := own[cco];
        cco := cco + 1;
        n := n + 1;
        assert p[..n] == old(p[..count]) + own[start..cco];
        if n >= p.Length {
          return n, false;
        }
      }
      cco := 0;
      if restart {
        own[0] := last;
        pco := 1;
        state := StStart;
      } else {
        pco := 0;
        state := StNormal;
      }
      ok := true;
    }

    /** The verdict as the fields show it. */
    ghost predicate Shows(v: Verdict, b: byte)
      reads this, own
    {
      Buffers() && cco == 0 &&
      match v
      case HoldAs(st) => state != StRelease && state != StReleaseRestart && St() == st
      case LetGo(h) => state == StRelease && own[cco..pco] == h
      case StartOver(h) => state == StReleaseRestart && own[cco..pco] == h && last == b
      case _ => false
    }

    method Append(b: byte)
      requires Buffers() && pco < 6
      modifies this`pco, own
      ensures Buffers() && pco == old(pco) + 1 && own[cco..pco] == old(own[cco..pco]) + [b]
    {
      own[pco] := b;
      pco := pco + 1;
    }

    method SwitchNormal(b: byte)
      requires Running() && state == StNormal && IsLead(b)
      modifies this`state, this`pco, own
      ensures Shows(Judge(old(St()), b), b)
    {
      state := StStart;
      own[0] := b;
      pco := 1;
      assert own[cco..pco] == [b];
    }

    method SwitchStart(b: byte)
      requires Running() && state == StStart
      modifies this`state, this`pos, this`pco, this`last, own
      ensures Shows(Judge(old(St()), b), b)
    {
      if IsLead(b) {
        last := b;
        state := StReleaseRestart;
        return;
      }
      var currentPos := pco;
      Append(b);
      if b == CR {
        pos := currentPos;
        state := St0x0D;
      } else if b == LF {
        pos := currentPos;
        state := St0x0A;
      } else if !IsContinuation(b) || pco >= 4 {
        state := StRelease;
      }
    }

    method SwitchCR(b: byte)
      requires Running() && state == St0x0D
      modifies this`state, this`pco, this`last, own
      ensures Shows(Judge(old(St()), b), b)
    {
      if IsLead(b) {
        last := b;
        state := StReleaseRestart;
        return;
      }
      Append(b);
      if b == LF {
        state := St0x0A;
      } else {
        state := StRelease;
      }
    }

    method SwitchLF(b: byte)
      requires Running() && state == St0x0A
      modifies this`state, this`pco, this`last, own
      ensures Shows(Judge(old(St()), b), b)
    {
      if IsLead(b) {
        last := b;
        state := StReleaseRestart;
      } else if IsContinuation(b) {
        ghost var h := St().held;
        own[pos] := b;
        pco := pos + 1;
        state := St0x10XXXXXX;
        assert own[cco..pco] == h[..pos] + [b];
      } else {
        Append(b);
        state := StRelease;
      }
    }

    method SwitchContinued(b: byte)
      requires Running() && state == St0x10XXXXXX
      modifies this`state, this`pco, this`last, own
      ensures Shows(Judge(old(St()), b), b)
    {
      if IsLead(b) {
        last := b;
        state := StReleaseRestart;
        return;
      }
      Append(b);
      if !IsContinuation(b) || pco == 6 {
        state := StRelease;
      }
    }

    /** The cases of the switch that touch the held bytes. */
    method Switch(b: byte)
      requires Running() && state != StRelease && (state == StNormal ==> IsLead(b))
      modifies this`state, this`pos, this`pco, this`last, own
      ensures Shows(Judge(old(St()), b), b)
    {
      if state == StNormal {
        SwitchNormal(b);
      } else if state == StStart {
        SwitchStart(b);
      } else if state == St0x0D {
        SwitchCR(b);
      } else if state == St0x0A {
        SwitchLF(b);
      } else {
        SwitchContinued(b);
      }
    }

    /** Carries out a verdict that may ask for a release. */
    method Conclude(ghost c: Config, ghost v: Verdict, b: byte, p: array<byte>, count: nat) returns (n: nat, ok: bool)
      requires if state == StRelease && cco == pco then Buffers() && v == Lose else Shows(v, b)
      requires p != own && p != buf && count < p.Length && p[..count] == c.out
      requires |Apply(c, v, b).out| + |Apply(c, v, b).st.held| <= p.Length
      requires v.LetGo? ==> v.held != []
      modifies this`state, this`pco, this`cco, own, p
      ensures Buffers() && n <= p.Length
      ensures state != StReleaseRestart && (state != StRelease ==> cco == 0)
      ensures p[..n] == Apply(c, v, b).out && St() == Settle(Apply(c, v, b), p.Length) && (ok <==> n < p.Length)
    {
      n, ok := count, true;
      if state == StReleaseRestart || state == StRelease {
        var isReleaseRestart := state == StReleaseRestart;
        n, ok := Release(p, n, isReleaseRestart);
        assert own[cco..pco] == if ok && isReleaseRestart then [b] else [];
      }
    }

    /** One turn of the loop of `cycle`. */
    method CycleByte(b: byte, p: array<byte>, count: nat) returns (n: nat, ok: bool)
      requires Running() && p != own && p != buf && count + |St().held| < p.Length
      modifies this`state, this`pos, this`pco, this`cco, this`last, own, p
      ensures Running() && n <= p.Length
      ensures var c := Step(Config(old(p[..count]), old(St()), false), b);
              p[..n] == c.out && St() == Settle(c, p.Length) && (ok <==> n < p.Length)
    {
      ghost var c := Config(p[..count], St(), false);
      ghost var v := Judge(c.st, b);
      StepKeepsShape(c, b);
      StepGrowsByOne(c, b);
      if state == StNormal && !IsLead(b) {
        p[count] := b;
        n := count + 1;
        ok := n < p.Length;
        assert p[..n] == c.out + [b];
        return;
      }
      if state != StRelease {
        Switch(b);
      }
      n, ok := Conclude(c, v, b, p, count);
    }

    /** What the fields and the slice say of a configuration. */
    ghost predicate IsAt(c: Config, p: array<byte>, count: nat)
      reads this, own, p
    {
      Running() && count <= p.Length && p[..count] == c.out && St() == Settle(c, p.Length)
    }

    /** `cycle`, over the first `n` bytes of `buf`. The output never outgrows the slice. */
    method Cycle(p: array<byte>, n: nat, ghost s: bytes) returns (count: nat, ok: bool)
      requires Running() && p != own && p != buf && n == |s| <= 512 && s == buf[..n]
      requires n > 0 ==> |St().held| + n <= p.Length
      modifies this`state, this`pos, this`pco, this`cco, this`last, this`pcb, this`ccb, own, p
      ensures IsAt(RunFrom(old(St()), s), p, count)
      ensures ok <==> n == 0 || count < p.Length
    {
      assert p[..0] == [];
      count, ok := CycleLoop(p, n, Config([], St(), false), s);
    }

    method CycleLoop(p: array<byte>, n: nat, ghost c0: Config, ghost s: bytes) returns (count: nat, ok: bool)
      requires IsAt(c0, p, 0) && IsShaped(c0.st) && (n > 0 ==> |Kept(c0)| + |s| <= p.Length)
      requires p != own && p != buf && n == |s| <= 512 && s == buf[..n]
      modifies this`state, this`pos, this`pco, this`cco, this`last, this`pcb, this`ccb, own, p
      ensures IsAt(Fold(Stepper(), c0, s, |s|), p, count)
      ensures ok <==> n == 0 || count < p.Length
    {
      count, ok := 0, true;
      var i := 0;
      while i < n && ok
        invariant i <= n && InLoop(p, count, ok, i, c0, s)
      {
        count, ok := CycleNext(p, count, n, i, c0, s);
        i := i + 1;
      }
    }

    /** The loop of `cycle` before byte `i`; the slice can be full only behind the last one. */
    ghost predicate InLoop(p: array<byte>, count: nat, ok: bool, i: nat, c0: Config, s: bytes)
      reads this, own, p
    {
      && i <= |s| && IsAt(Fold(Stepper(), c0, s, i), p, count)
      && (ok <==> i == 0 || count < p.Length) && (ok || i == |s|) && (i == 0 ==> count == 0)
    }

    method CycleNext(p: array<byte>, count: nat, m: nat, i: nat, ghost c0: Config, ghost s: bytes)
        returns (n: nat, ok: bool)
      requires InLoop(p, count, true, i, c0, s) && i < |s|
      requires p != own && p != buf && |s| == m <= 512 && s == buf[..m]
      requires IsShaped(c0.st) && |Kept(c0)| + |s| <= p.Length
      modifies this`state, this`pos, this`pco, this`cco, this`last, this`pcb, this`ccb, own, p
      ensures InLoop(p, n, ok, i + 1, c0, s)
    {
      ghost var c := Fold(Stepper(), c0, s, i);
      ghost var c' := CycleStep(c0, s, i, c);
      n, ok := CycleByte(buf[i], p, count);
      if !ok {
        pcb, ccb := m, i + 1;
      }
    }

    /** What is still held once the reader underneath has ended is given out in some states only,
        and only as far as there is room. */
    method Flush(p: array<byte>) returns (count: nat)
      requires Buffers() && err && p != own && p != buf && (Undo.IsFlushed(St()) ==> p.Length > 0)
      modifies this`cco, this`pco, this`state, own, p
      ensures Buffers()
      ensures count == if Undo.IsFlushed(old(St())) then Min(|old(St()).held|, p.Length) else 0
      ensures p[..count] == old(St()).held[..count]
    {
      count := 0;
      ghost var held := St().held;
      if state == St0x10XXXXXX || (state == StStart && pco - cco > 1) {
        var done;
        count, done := Release(p, 0, false);
        assert held[..count] == old(own[cco..cco + count]);
        assert p[..count] == [] + held[..count];
      }
    }

    method CopyIn(chunk: bytes)
      requires |chunk| <= buf.Length
      modifies buf
      ensures buf[..|chunk|] == chunk
    {
      forall i | 0 <= i < |chunk| {
        buf[i] := chunk[i];
      }
    }

    /** Reads a piece no longer than the room that what is held leaves in the slice. */
    method Fetch(room: int) returns (n: nat, ghost s: bytes)
      requires Running() && !err
      modifies r, buf, this`err
      ensures Running() && n == |s| <= 512 && (n > 0 ==> n <= room)
      ensures old(r.rest) == s + r.rest && buf[..n] == s && (err ==> r.rest == [])
      ensures room <= 0 ==> r.rest == old(r.rest) && !err
    {
      n, s := 0, [];
      if room > 0 {
        var chunk;
        chunk, err := r.Read(if room > 512 then 512 else room);
        n, s := |chunk|, chunk;
        CopyIn(chunk);
      }
    }

    /** `Read`. While the reader underneath lasts, a call runs the machine on one more piece of its
        bytes; a slice no longer than what is held gets nothing. The byte behind a release that
        exactly filled a slice is lost. The source indexes an empty slice out of range when held
        bytes are due at the end. */
    method Read(p: array<byte>) returns (count: nat, eof: bool)
      requires Valid() && p != own && p != buf && (err && Undo.IsFlushed(St()) ==> p.Length > 0)
      modifies this, own, buf, p, r
      ensures Valid() && count <= p.Length
      ensures old(err) ==> eof && err && r.rest == old(r.rest)
                           && count == (if Undo.IsFlushed(old(St())) then Min(|old(St()).held|, p.Length) else 0)
                           && p[..count] == old(St()).held[..count]
      ensures !old(err) ==> Ran(p[..count], p.Length, old(r.rest), r.rest, old(St()), St())
      ensures !old(err) && err ==> r.rest == []
      ensures !old(err) && p.Length <= |old(St()).held| ==>
                count == 0 && !eof && St() == old(St()) && r.rest == old(r.rest)
      ensures !old(err) ==> (eof <==> err && (count < p.Length || r.rest == old(r.rest)) && St().held == [])
    {
      // What is left in `buf` between calls is always empty: pcb == ccb.
      assert pcb == ccb;
      if err {
        count := Flush(p);
        return count, true;
      }
      ghost var st, rest := St(), r.rest;
      var ok;
      count, ok := ReadOn(p);
      if r.rest == rest {
        StandsStill(st, rest, r.rest, p.Length);
      }
      return count, ok && cco >= pco && err;
    }

    /** One piece of input, run through the machine. */
    method ReadOn(p: array<byte>) returns (count: nat, ok: bool)
      requires Running() && !err && p != own && p != buf
      modifies this, own, buf, p, r
      ensures Running() && count <= p.Length && (ok <==> count < p.Length || r.rest == old(r.rest))
      ensures Ran(p[..count], p.Length, old(r.rest), r.rest, old(St()), St())
      ensures err ==> r.rest == []
      ensures p.Length <= |old(St()).held| ==> r.rest == old(r.rest) && !err
    {
      ghost var rest, st := r.rest, St();
      var n;
      ghost var s;
      n, s := Fetch(p.Length - (pco - cco));
      count, ok := CyclePiece(p, n, s);
      RanOn(rest, s, r.rest, st, p.Length);
    }

    method CyclePiece(p: array<byte>, n: nat, ghost s: bytes) returns (count: nat, ok: bool)
      requires Running() && p != own && p != buf && n == |s| <= 512 && s == buf[..n]
      requires n > 0 ==> |St().held| + n <= p.Length
      modifies this`state, this`pos, this`pco, this`cco, this`last, this`pcb, this`ccb, own, p
      ensures IsAt(RunFrom(old(St()), s), p, count)
      ensures ok <==> n == 0 || count < p.Length
    {
      count, ok := Cycle(p, n, s);
      if ok {
        pcb, ccb := 0, 0;
      }
    }
  }

  /** A call with a slice of `max` bytes delivered what the machine emitted on the piece of input
      that it took. */
  ghost predicate Ran(out: bytes, max: nat, before: bytes, after: bytes, st: State, st': State) {
    && |after| <= |before|
    && var s := before[..|before| - |after|];
       var c := RunFrom(st, s);
       before == s + after && HasRoom(st, s, max) && out == c.out && st' == Settle(c, max)
  }

  lemma RanOn(before: bytes, s: bytes, after: bytes, st: State, max: nat)
    requires before == s + after && HasRoom(st, s, max)
    ensures Ran(RunFrom(st, s).out, max, before, after, st, Settle(RunFrom(st, s), max))
  {
    assert before[..|before| - |after|] == s;
  }

  /** A piece of input fits the source's buffer, and the slice besides what is held. */
  predicate HasRoom(st: State, piece: bytes, max: nat) {
    |piece| <= 512 && (piece != [] ==> |st.held| + |piece| <= max)
  }

  /** One step of a cycle: the next configuration, and how much it can have grown. */
  ghost method CycleStep(c0: Config, s: bytes, i: nat, c: Config) returns (c': Config)
    requires i < |s| && IsShaped(c0.st) && c == Fold(Stepper(), c0, s, i)
    ensures c' == Fold(Stepper(), c0, s, i + 1) == Step(Config(c.out, c.st, false), s[i])
    ensures |Kept(c)| <= |Kept(c0)| + i && |Kept(c')| <= |Kept(c0)| + i + 1
  {
    c' := Step(c, s[i]);
    FoldGrows(c0, s, i);
    FoldGrows(c0, s, i + 1);
    SameStep(c, c.out, s[i]);
  }

  /** On no input the machine stays as it is. */
  lemma StandsStill(st: State, before: bytes, after: bytes, max: nat)
    requires before == after
    ensures var s := before[..|before| - |after|];
            s == [] && Settle(RunFrom(st, s), max) == st
  {
  }

  /** Whether the byte before was released makes no difference to the next step. */
  lemma SameStep(c: Config, out: bytes, b: byte)
    requires out == c.out
    ensures Step(Config(out, c.st, false), b) == Step(c, b)
  {
  }
}
