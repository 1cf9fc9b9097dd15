/** multipart.go: the reader over parts and the reader of one part's raw bytes. */
module MultipartReader {
  import opened Bytes
  import opened Bufio
  import opened Delimiter
  import opened PartScan
  import opened PartIteration

  method CopyInto(d: array<byte>, s: bytes)
    requires |s| <= d.Length
    modifies d
    ensures d[..|s|] == s && d[|s|..] == old(d[|s|..])
  {
    forall i | 0 <= i < |s| {
      d[i] := s[i];
    }
  }

  /** How much of a peek is safe to take, and whether the part ends right after it. */
  method ChooseCopy(peek: bytes, noMoreData: bool, nlDashBoundary: bytes, ghost rest: bytes)
      returns (nCopy: nat, foundBoundary: bool)
    requires peek == Window(rest) && (noMoreData <==> |rest| < BUFFER_SIZE)
    ensures nCopy == SafeCount(rest, nlDashBoundary)
    ensures foundBoundary == SeparatorIndex(peek, nlDashBoundary).1
  {
    nCopy, foundBoundary := 0, false;
    var (idx, isEnd) := SeparatorIndex(peek, nlDashBoundary);
    if idx != -1 {
      nCopy := idx;
      foundBoundary := isEnd;
      if !isEnd && nCopy == 0 {
        nCopy := 1;
      }
    } else if noMoreData {
      nCopy := |peek|;
    } else if |peek| - |nlDashBoundary| > 0 {
      nCopy := |peek| - |nlDashBoundary|;
    }
  }

  class Part {
    const mr: Reader
    var buffer: bytes
    var bytesRead: nat

    constructor (mr: Reader)
      ensures this.mr == mr && buffer == [] && bytesRead == 0
    {
      this.mr := mr;
      buffer, bytesRead := [], 0;
    }

    /** The bytes not yet delivered: the side buffer, then the unread stream. */
    ghost function Ahead(): bytes
      reads this, mr.bufReader
    {
      buffer + mr.bufReader.rest
    }

    /** How many of them belong to this part. */
    ghost function Left(): (n: nat)
      reads this, mr, mr.bufReader
      ensures n <= |Ahead()|
    {
      LeftOf(bytesRead == 0 && buffer == [], Ahead(), mr.nl, mr.boundary)
    }

    /** What follows this part in the stream. */
    ghost function Beyond(): bytes
      reads this, mr, mr.bufReader
    {
      Ahead()[Left()..]
    }

    /** Consumption never passes the end of the part. */
    ghost predicate Valid()
      reads this, mr, mr.bufReader
    {
      mr.WellFormed() && |buffer| <= Left() && (bytesRead == 0 ==> buffer == [])
    }

    /** `partReader.Read`, on a stream that fails only by ending. */
    method Read(d: array<byte>) returns (n: nat, eof: bool)
      requires Valid()
      modifies this, mr.bufReader, d
      ensures Valid()
      ensures n <= d.Length && n <= old(Left())
      ensures d[..n] == old(Ahead())[..n] && d[n..] == old(d[n..])
      ensures Ahead() == old(Ahead())[n..] && Left() == old(Left()) - n
      ensures Beyond() == old(Beyond())
      ensures bytesRead == old(bytesRead) + n
      ensures eof ==> n == 0 && old(Left()) == 0 && buffer == []
      ensures !eof && d.Length > 0 ==> n > 0
    {
      ghost var untouched := bytesRead == 0 && buffer == [];
      var atEnd := false;
      if |buffer| < d.Length {
        atEnd := Fill();
        if atEnd && buffer == [] {
          return 0, true;
        }
      }
      n := ReadBuffer(d, untouched);
      eof := false;
    }

    /** One peek: moves into the side buffer what is safe to take, and reports whether the part is
        known to end where the peek stopped. */
    method Fill() returns (atEnd: bool)
      requires Valid()
      modifies this`buffer, mr.bufReader
      ensures Ahead() == old(Ahead()) && mr.WellFormed()
      ensures |buffer| >= old(|buffer|)
      ensures |buffer| <= old(Left())
      ensures buffer == [] ==> atEnd && old(Left()) == 0
    {
      var peek, noMoreData := mr.bufReader.Peek();
      if bytesRead == 0 && IsEmptyPart(peek, mr.nl, mr.dashBoundary) {
        return true;
      }
      ghost var rest := mr.bufReader.rest;
      VisibleEndShift(Ahead(), mr.nlDashBoundary, |buffer|);
      DropConcat(buffer, rest, |buffer|);
      SafeCountIsSafe(rest, mr.nlDashBoundary);
      var nCopy, foundBoundary := ChooseCopy(peek, noMoreData, mr.nlDashBoundary, rest);
      if nCopy > 0 {
        MoveFront(buffer, rest, nCopy);
        var s := mr.bufReader.CopyN(nCopy);
        buffer := buffer + s;
      }
      atEnd := noMoreData || foundBoundary;
    }

    /** `bytes.Buffer.Read` on the side buffer, with the deferred count. */
    method ReadBuffer(d: array<byte>, ghost untouched: bool) returns (n: nat)
      requires mr.WellFormed() && (untouched <==> bytesRead == 0)
      requires |buffer| <= LeftOf(untouched, Ahead(), mr.nl, mr.boundary)
      requires if d.Length == 0 then untouched ==> buffer == [] else buffer != []
      modifies this, d
      ensures Valid() && n == Min(d.Length, |old(buffer)|)
      ensures bytesRead == old(bytesRead) + n
      ensures d[..n] == old(Ahead())[..n] && d[n..] == old(d[n..])
      ensures Ahead() == old(Ahead())[n..]
      ensures Left() == LeftOf(untouched, old(Ahead()), mr.nl, mr.boundary) - n
      ensures Beyond() == old(Ahead())[LeftOf(untouched, old(Ahead()), mr.nl, mr.boundary)..]
    {
      ghost var ahead := Ahead();
      ghost var left := LeftOf(untouched, ahead, mr.nl, mr.boundary);
      n := TakeFront(d);
      SamePart(untouched, ahead, mr.nl, mr.boundary, n, left, Left());
    }

    method TakeFront(d: array<byte>) returns (n: nat)
      modifies this, d
      ensures n == Min(d.Length, |old(buffer)|) && |buffer| == |old(buffer)| - n && bytesRead == old(bytesRead) + n
      ensures d[..n] == old(Ahead())[..n] && d[n..] == old(d[n..])
      ensures Ahead() == old(Ahead())[n..]
    {
      n := Min(d.Length, |buffer|);
      CopyInto(d, buffer[..n]);
      DropConcat(buffer, mr.bufReader.rest, n);
      buffer := buffer[n..];
      bytesRead := bytesRead + n;
    }

    /** Draining a part leaves the stream exactly at the part's end. */
    method Close()
      requires Valid()
      modifies this, mr.bufReader
      ensures Valid() && buffer == []
      ensures mr.bufReader.rest == old(Beyond())
    {
      var chunk := new byte[8192];
      var eof := false;
      while !eof
        invariant Valid() && Beyond() == old(Beyond())
        invariant eof ==> buffer == [] && Left() == 0
        decreases Left(), !eof
      {
        var n;
        n, eof := Read(chunk);
      }
      assert Beyond() == Ahead();
    }
  }

  class Reader {
    const bufReader: BufReader
    const boundary: bytes
    const dashBoundaryDash: bytes
    const dashBoundary: bytes
    var currentPart: Part?
    var partsRead: nat
    var nl: bytes
    var nlDashBoundary: bytes

    ghost predicate WellFormed()
      reads this
    {
      WellFormedBoundary() && (partsRead == 0 ==> nl == CRLF)
    }

    ghost predicate WellFormedBoundary()
      reads this
    {
      && dashBoundary == DASHES + boundary
      && dashBoundaryDash == DASHES + boundary + DASHES
      && (nl == CRLF || nl == [LF])
      && nlDashBoundary == nl + DASHES + boundary
      && |nlDashBoundary| < BUFFER_SIZE
    }

    ghost predicate Valid()
      reads this, bufReader, currentPart
    {
      WellFormed() && (currentPart != null ==> currentPart.mr == this && currentPart.Valid())
    }

    /** The cursor of `NextPart` once the current part is drained. */
    ghost function Drained(): Cursor
      reads this, bufReader, currentPart
      requires Valid()
    {
      if currentPart == null then Cursor(bufReader.rest, nl, partsRead)
      else Cursor(currentPart.Beyond(), nl, partsRead)
    }

    constructor (r: BufReader, boundary: bytes)
      requires |boundary| + 4 < BUFFER_SIZE
      ensures Valid() && bufReader == r && this.boundary == boundary
      ensures Drained() == Cursor(r.rest, CRLF, 0)
    {
      var b := CRLF + DASHES + boundary + DASHES;
      bufReader := r;
      this.boundary := boundary;
      currentPart, partsRead := null, 0;
      nl := b[..2];
      nlDashBoundary := b[..|b| - 2];
      dashBoundaryDash := b[2..];
      dashBoundary := b[2..|b| - 2];
    }

    method IsBoundaryDelimiterLine(line: bytes) returns (ret: bool)
      requires WellFormed()
      modifies this`nl, this`nlDashBoundary
      ensures ret == IsBoundaryLine(line, old(nl), partsRead, boundary)
      ensures nl == NewlineAfter(line, old(nl), partsRead, boundary)
      ensures WellFormedBoundary() && (!ret ==> nl == old(nl))
    {
      if !(dashBoundary <= line) {
        return false;
      }
      var rest := SkipLWSP(line[|dashBoundary|..]);
      if partsRead == 0 && |rest| == 1 && rest[0] == LF {
        nl := nl[1..];
        nlDashBoundary := nlDashBoundary[1..];
      }
      return rest == nl;
    }

    /** `newPart` reads a header block, whose fields stay opaque. */
    method NewPart() returns (result: NextResult)
      modifies this`currentPart, bufReader
      ensures match HeaderLength(old(bufReader.rest))
              case None => result == HeaderError && bufReader.rest == [] && currentPart == old(currentPart)
              case Some(h) => result == Found && bufReader.rest == old(bufReader.rest)[h..]
                              && currentPart != null && fresh(currentPart) && currentPart.mr == this
                              && currentPart.buffer == [] && currentPart.bytesRead == 0
    {
      match HeaderLength(bufReader.rest)
      case None =>
        var _ := bufReader.CopyN(|bufReader.rest|);
        result := HeaderError;
      case Some(h) =>
        var _ := bufReader.CopyN(h);
        currentPart := new Part(this);
        result := Found;
    }

    /** One turn of the loop of `NextPart`. */
    method NextLine(expectNewPart: bool) returns (stop: bool, result: NextResult, expecting: bool)
      requires WellFormed()
      modifies this`nl, this`nlDashBoundary, this`partsRead, this`currentPart, bufReader
      ensures WellFormed()
      ensures ScanLine(Cursor(old(bufReader.rest), old(nl), old(partsRead)), expectNewPart, boundary)
              == TurnAfter(stop, result, expecting)
      ensures if stop && result.Found?
              then currentPart != null && fresh(currentPart) && currentPart.mr == this
                   && currentPart.buffer == [] && currentPart.bytesRead == 0
              else currentPart == old(currentPart)
    {
      result := NoMoreParts;
      stop, expecting := true, expectNewPart;
      ghost var c := Cursor(bufReader.rest, nl, partsRead);
      var line, err := bufReader.ReadSlice();
      if err == EOF {
        return;
      }
      if err == BufferFull {
        result := Failure(LineTooLong);
        return;
      }
      stop, result, expecting := TakeLine(line, expectNewPart, c);
    }

    /** The rest of the turn, once a whole line has been read. */
    method TakeLine(line: bytes, expectNewPart: bool, ghost c: Cursor)
        returns (stop: bool, result: NextResult, expecting: bool)
      requires WellFormed() && c.nl == nl && c.partsRead == partsRead && SliceErr(c.rest) == NoError
      requires line == c.rest[..SliceLength(c.rest)] && bufReader.rest == c.rest[SliceLength(c.rest)..]
      modifies this`nl, this`nlDashBoundary, this`partsRead, this`currentPart, bufReader
      ensures WellFormed() && ScanLine(c, expectNewPart, boundary) == TurnAfter(stop, result, expecting)
      ensures if stop && result.Found?
              then currentPart != null && fresh(currentPart) && currentPart.mr == this
                   && currentPart.buffer == [] && currentPart.bytesRead == 0
              else currentPart == old(currentPart)
    {
      stop, expecting := true, expectNewPart;
      var isBoundary := IsBoundaryDelimiterLine(line);
      if isBoundary {
        result := StartPart(line, expectNewPart, c);
      } else {
        stop, result, expecting := OtherLine(line, expectNewPart);
      }
    }

    /** A boundary line was read: the part behind it begins. */
    method StartPart(line: bytes, ghost expectNewPart: bool, ghost c: Cursor) returns (result: NextResult)
      requires WellFormedBoundary() && c.partsRead == partsRead && SliceErr(c.rest) == NoError
      requires IsBoundaryLine(line, c.nl, partsRead, boundary) && nl == NewlineAfter(line, c.nl, partsRead, boundary)
      requires line == c.rest[..SliceLength(c.rest)] && bufReader.rest == c.rest[SliceLength(c.rest)..]
      modifies this`partsRead, this`currentPart, bufReader
      ensures WellFormed() && ScanLine(c, expectNewPart, boundary) == TurnAfter(true, result, expectNewPart)
      ensures if result.Found?
              then currentPart != null && fresh(currentPart) && currentPart.mr == this
                   && currentPart.buffer == [] && currentPart.bytesRead == 0
              else currentPart == old(currentPart)
    {
      partsRead := partsRead + 1;
      result := NewPart();
    }

    ghost function TurnAfter(stop: bool, result: NextResult, expecting: bool): Turn
      reads this, bufReader
    {
      if stop then Stop(result, Cursor(bufReader.rest, nl, partsRead))
      else Go(expecting, Cursor(bufReader.rest, nl, partsRead))
    }

    /** What a line that starts no part means to `NextPart`. */
    method OtherLine(line: bytes, expectNewPart: bool) returns (stop: bool, result: NextResult, expecting: bool)
      requires WellFormed()
      ensures (stop, result, expecting) ==
              if IsFinalBoundary(line, nl, boundary) then (true, NoMoreParts, expectNewPart)
              else if expectNewPart then (true, Failure(ExpectingNewPart), expectNewPart)
              else if partsRead == 0 then (false, NoMoreParts, expectNewPart)
              else if line == nl then (false, NoMoreParts, true)
              else (true, Failure(UnexpectedLine), expectNewPart)
    {
      result := NoMoreParts;
      stop, expecting := true, expectNewPart;
      if dashBoundaryDash <= line && FinalRest(line[|dashBoundaryDash|..]) {
        return;
      }
      if expectNewPart {
        result := Failure(ExpectingNewPart);
        return;
      }
      if partsRead == 0 {
        stop := false;
        return;
      }
      if line == nl {
        stop, expecting := false, true;
        return;
      }
      result := Failure(UnexpectedLine);
    }

    method NextPart() returns (result: NextResult)
      requires Valid()
      modifies this, bufReader, currentPart
      ensures Valid()
      ensures (result, Cursor(bufReader.rest, nl, partsRead)) == Scan(old(Drained()), false, boundary)
      ensures result.Found? ==> currentPart != null && fresh(currentPart) && currentPart.buffer == []
                                && currentPart.bytesRead == 0
      ensures !result.Found? ==> currentPart == old(currentPart)
    {
      if currentPart != null {
        currentPart.Close();
      }
      var stop, expectNewPart := false, false;
      result := NoMoreParts;
      ghost var c := Cursor(bufReader.rest, nl, partsRead);
      assert c == old(Drained());
      while !stop
        invariant WellFormed() && (currentPart != null ==> currentPart.mr == this && currentPart.buffer == [])
        invariant if stop && result.Found? then currentPart != null && fresh(currentPart) && currentPart.bytesRead == 0
                  else currentPart == old(currentPart)
        invariant Scan(c, false, boundary)
                  == if stop then (result, Cursor(bufReader.rest, nl, partsRead))
                     else Scan(Cursor(bufReader.rest, nl, partsRead), expectNewPart, boundary)
        decreases if stop then 0 else 1, |bufReader.rest|
      {
        stop, result, expectNewPart := NextLine(expectNewPart);
      }
    }

    predicate FinalRest(rest: bytes)
      reads this
    {
      SkipLWSP(rest) == [] || SkipLWSP(rest) == nl
    }
  }
}
