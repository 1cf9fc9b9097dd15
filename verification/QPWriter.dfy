/** quotedprintable/writer.go: the encoder over its 78-byte line buffer and a sink that never fails. */
module QPWriter {
  import opened Bytes
  import opened QPText
  import opened Streams
  import Spec = QPWriterSpec

  class Writer {
    var binary: bool
    var out: bytes
    var i: nat
    const line: array<byte>
    var cr: bool

    ghost function State(): Spec.State
      reads this, line
    {
      Spec.State(out, if i <= line.Length then line[..i] else [], cr)
    }

    ghost predicate Room()
      reads this
    {
      line.Length == 78 && i <= LINE_MAX - 1
    }

    ghost predicate Valid()
      reads this, line
    {
      Room() && Spec.Inv(State())
    }

    constructor ()
      ensures Valid() && fresh(line) && !binary
      ensures State() == Spec.INITIAL
    {
      binary, out, i, cr := false, [], 0, false;
      line := new byte[78];
    }

    method Write(p: bytes) returns (n: nat)
      requires Valid()
      modifies this`out, this`i, this`cr, line
      ensures Valid() && n == |p|
      ensures State() == Spec.Run(old(State()), p, |p|, binary)
    {
      Spec.RunKeeps(State(), p, |p|, binary);
      n := WriteBatches(p, State());
    }

    /** The loop of `Write`: runs of simple bytes are written in batches, the others one by one. */
    method WriteBatches(p: bytes, ghost s: Spec.State) returns (n: nat)
      requires Room() && State() == s
      modifies this`out, this`i, this`cr, line
      ensures Room() && n == |p| && State() == Spec.Run(s, p, |p|, binary)
    {
      n := 0;
      for k := 0 to |p|
        invariant n <= k && Room()
        invariant forall j :: n <= j < k ==> Spec.IsSimple(p[j], binary)
        invariant State() == Spec.Run(s, p, n, binary)
      {
        if Spec.IsSimple(p[k], binary) {
          continue;
        }
        WriteEscaped(p, n, k, s);
        n := k + 1;
      }
      WriteUpTo(p, n, |p|, s);
      n := |p|;
    }

    /** Writes the pending batch and then the byte behind it, which must be escaped. */
    method WriteEscaped(p: bytes, n: nat, k: nat, ghost s: Spec.State)
      requires Room() && n <= k < |p| && State() == Spec.Run(s, p, n, binary)
      requires !Spec.IsSimple(p[k], binary) && forall j :: n <= j < k ==> Spec.IsSimple(p[j], binary)
      modifies this`out, this`i, this`cr, line
      ensures Room() && State() == Spec.Run(s, p, k + 1, binary)
    {
      WriteUpTo(p, n, k, s);
      Spec.RunNext(s, p, k, binary);
      Encode(p[k]);
    }

    /** Writes the pending batch, if any. */
    method WriteUpTo(p: bytes, n: nat, k: nat, ghost s: Spec.State)
      requires Room() && n <= k <= |p| && State() == Spec.Run(s, p, n, binary)
      requires forall j :: n <= j < k ==> Spec.IsSimple(p[j], binary)
      modifies this`out, this`i, this`cr, line
      ensures Room() && State() == Spec.Run(s, p, k, binary)
    {
      if k > n {
        WriteSimple(p[n..k]);
        FoldBatch(Spec.Stepper(binary), s, p, n, k, k - n);
      }
    }

    method Close()
      requires Valid()
      modifies this`out, this`i, line
      ensures Room() && i == 0
      ensures out == Spec.Closed(old(State()))
      ensures IsEncodedText(out) && DecodeAll(out) == Spec.Meaning(old(State()))
    {
      Spec.ClosedIsEncoded(State());
      CheckLastByte();
      Flush();
    }

    /** `write`: a batch of bytes that need no escape. */
    method WriteSimple(p: bytes)
      requires Room() && forall j :: 0 <= j < |p| ==> Spec.IsSimple(p[j], binary)
      modifies this`out, this`i, this`cr, line
      ensures Room() && State() == Spec.Run(old(State()), p, |p|, binary)
    {
      for k := 0 to |p|
        invariant Room() && State() == Spec.Run(old(State()), p, k, binary)
      {
        Spec.RunNext(old(State()), p, k, binary);
        WriteOne(p[k]);
      }
    }

    method WriteOne(b: byte)
      requires Room()
      modifies this`out, this`i, this`cr, line
      ensures Room() && State() == Spec.WriteByte(old(State()), b)
    {
      if b == LF || b == CR {
        // After a CR the line break has already been inserted.
        if cr && b == LF {
          cr := false;
          return;
        }
        if b == CR {
          cr := true;
        }
        CheckLastByte();
        InsertCRLF();
        return;
      }
      if i == LINE_MAX - 1 {
        InsertSoftLineBreak();
      }
      line[i] := b;
      i := i + 1;
      cr := false;
    }

    method Encode(b: byte)
      requires Room()
      modifies this`out, this`i, line
      ensures Room() && State() == Spec.EncodeByte(old(State()), b)
    {
      if LINE_MAX - 1 - i < 3 {
        InsertSoftLineBreak();
      }
      line[i] := EQUALS;
      line[i + 1] := UpperHex(b / 16);
      line[i + 2] := UpperHex(b % 16);
      i := i + 3;
    }

    /** Escapes the last buffered byte if it is a space or a tab. */
    method CheckLastByte()
      requires Room()
      modifies this`out, this`i, line
      ensures Room() && State() == Spec.CheckLastByte(old(State()))
    {
      if i == 0 {
        return;
      }
      var b := line[i - 1];
      if IsBlank(b) {
        i := i - 1;
        assert line[..i] == old(State()).line[..i];
        Encode(b);
      }
    }

    method InsertSoftLineBreak()
      requires Room()
      modifies this`out, this`i, line
      ensures Room() && State() == Spec.SoftBreak(old(State()))
    {
      line[i] := EQUALS;
      i := i + 1;
      assert line[..i] == old(State()).line + [EQUALS];
      InsertCRLF();
    }

    method InsertCRLF()
      requires line.Length == 78 && i <= LINE_MAX
      modifies this`out, this`i, line
      ensures i == 0 && cr == old(cr) && out == old(out) + (old(line[..i]) + CRLF)
    {
      line[i] := CR;
      line[i + 1] := LF;
      i := i + 2;
      assert line[..i] == old(line[..i]) + CRLF;
      Flush();
    }

    method Flush()
      requires i <= line.Length
      modifies this`out, this`i
      ensures i == 0 && out == old(out) + old(line[..i])
    {
      out := out + line[..i];
      i := 0;
    }
  }
}
