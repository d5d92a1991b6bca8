/**
 The batch line reader: a growing buffer over a file whose reads may return less than asked for.
 It takes a zero byte for the end of the buffer, so a zero byte in the text ends a line like a newline does,
 and the zero that is put behind that line overwrites the byte after it.
 */
module LineReaders {
  import opened Options
  import opened Bytes

  const IO_SIZE := 4096
  const NEWLINE: byte := 10
  const RETURN: byte := 13

  /** The largest buffer reached from one of size b by doubling while that stays within max. */
  ghost function Largest(b: nat, max: nat): (r: nat)
    requires b > 0
    ensures r >= b
    decreases if max > b then max - b else 0
  {
    if 2 * b > max then b else Largest(2 * b, max)
  }

  lemma LargestStep(b: nat, max: nat)
    requires b > 0
    ensures Largest(b, max) == if 2 * b > max then b else Largest(2 * b, max)
  {
  }

  /** The part of n that is whole units of IO_SIZE. */
  function WholeUnits(n: nat): (r: nat)
    ensures r <= n && (r == 0 <==> n < IO_SIZE) && (r > 0 ==> r >= IO_SIZE)
  {
    n / IO_SIZE * IO_SIZE
  }

  /** The position of the first newline, or the length. */
  ghost function LineEnd(s: seq<byte>): (n: nat)
    ensures n <= |s|
    ensures NEWLINE !in s[..n]
    ensures n < |s| ==> s[n] == NEWLINE
  {
    if s == [] || s[0] == NEWLINE then 0
    else
      var n := 1 + LineEnd(s[1..]);
      assert s[..n] == [s[0]] + s[1..][..n - 1];
      n
  }

  lemma LineEndAt(s: seq<byte>, n: nat)
    requires n <= |s| && NEWLINE !in s[..n] && (n < |s| ==> s[n] == NEWLINE)
    ensures LineEnd(s) == n
  {
    var m := LineEnd(s);
    assert forall k :: 0 <= k < n ==> s[..n][k] == s[k];
    assert forall k :: 0 <= k < m ==> s[..m][k] == s[k];
  }

  /** The bytes at which the search for the end of a line stops. */
  predicate IsStop(b: byte) {
    b == NEWLINE || b == 0
  }

  ghost predicate NoStop(s: seq<byte>) {
    NEWLINE !in s && 0 !in s
  }

  /** The position of the first of them, or the length. */
  ghost function Stop(s: seq<byte>): (n: nat)
    ensures n <= |s|
    ensures NoStop(s[..n])
    ensures n < |s| ==> IsStop(s[n])
  {
    if s == [] || IsStop(s[0]) then 0
    else
      var n := 1 + Stop(s[1..]);
      assert s[..n] == [s[0]] + s[1..][..n - 1];
      n
  }

  lemma NoStopInParts(a: seq<byte>, b: seq<byte>)
    ensures NoStop(a + b) <==> NoStop(a) && NoStop(b)
    ensures NoStop([])
  {
    assert forall x :: x in a + b <==> x in a || x in b;
  }

  lemma StopIsAt(s: seq<byte>, n: nat)
    requires n <= |s| && NoStop(s[..n]) && (n < |s| ==> IsStop(s[n]))
    ensures Stop(s) == n
  {
    var m := Stop(s);
    assert forall k :: 0 <= k < n ==> s[..n][k] == s[k];
    assert forall k :: 0 <= k < m ==> s[..m][k] == s[k];
  }

  /** A carriage return at the end goes with the newline. */
  function StripReturn(s: seq<byte>): seq<byte> {
    if s != [] && s[|s| - 1] == RETURN then s[..|s| - 1] else s
  }

  /** The lines of a text: without their ends, and with the last one as it is if no newline ends it. */
  ghost function Lines(s: seq<byte>): seq<seq<byte>>
    decreases |s|
  {
    if s == [] then []
    else
      var n := LineEnd(s);
      if n == |s| then [s] else [StripReturn(s[..n])] + Lines(s[n + 1..])
  }

  /** A file; a read gives some of what is left, and nothing only at the end. */
  class Input {
    var data: seq<byte>

    constructor (s: seq<byte>)
      ensures data == s
    {
      data := s;
    }

    method Read(count: nat) returns (s: seq<byte>)
      requires count > 0
      modifies this
      ensures s + data == old(data) && |s| <= count
      ensures s == [] <==> old(data) == []
    {
      if data == [] {
        return [];
      }
      var n :| 1 <= n <= count && n <= |data|;
      s, data := data[..n], data[n..];
      assert s + data == old(data);
    }
  }

  method Realloc(a: array<byte>, n: nat) returns (b: array<byte>)
    requires a.Length <= n
    ensures fresh(b) && b.Length == n && forall i :: 0 <= i < a.Length ==> b[i] == a[i]
  {
    b := new byte[n];
    forall i | 0 <= i < a.Length {
      b[i] := a[i];
    }
  }

  class LineBuffer {
    const file: Input
    const maxSize: nat
    var buffer: array<byte>
    var bufread: nat
    var end: nat
    var start: nat
    var eol: nat
    var eof: bool

    /** The shape of the buffer: positions in order, a sentinel behind the end. */
    ghost predicate Shaped()
      reads this, buffer, file
    {
      && start <= eol <= end <= bufread && buffer.Length == bufread + 1
      && IO_SIZE <= bufread && Largest(bufread, maxSize) == Largest(IO_SIZE, maxSize)
      && buffer[end] == 0
      && (eof ==> file.data == [])
    }

    /** Between two calls: at the end of the file nothing is left in the buffer either. */
    ghost predicate Valid()
      reads this, buffer, file
    {
      Shaped() && (eof ==> eol == end)
    }

    /** What has not been returned yet. */
    ghost function Left(): seq<byte>
      requires Shaped()
      reads this, buffer, file
    {
      buffer[eol..end] + file.data
    }

    constructor (f: Input, max: nat)
      ensures Valid() && fresh(buffer) && file == f && maxSize == max && Left() == f.data
    {
      file, maxSize := f, max;
      bufread := IO_SIZE;
      buffer := new byte[IO_SIZE + 1];
      end, start, eol, eof := 0, 0, 0, false;
      new;
      buffer[0] := 0;
    }

    /** The first part of fill_buffer: makes room for a read, growing the buffer if it has to and may. */
    method Grow() returns (readCount: nat)
      requires Shaped()
      modifies this`buffer, this`bufread, this`end
      ensures buffer == old(buffer) || fresh(buffer)
      ensures buffer.Length == bufread + 1 && old(bufread) <= bufread
      ensures IO_SIZE <= bufread && Largest(bufread, maxSize) == Largest(IO_SIZE, maxSize)
      ensures readCount == 0 ==> buffer == old(buffer) && bufread == old(bufread) && end == old(end)
      ensures readCount == 0 ==> old(end) - start > Largest(IO_SIZE, maxSize) - IO_SIZE
      ensures readCount > 0 ==> readCount >= IO_SIZE && old(end) - start + readCount <= bufread
      ensures bufread == old(bufread) || (bufread == 2 * old(bufread) && old(bufread) - (old(end) - start) < IO_SIZE)
      ensures buffer[start..old(end)] == old(buffer[start..end])
      ensures start == 0 ==> end == old(end)
    {
      hide Largest, WholeUnits;
      var bufbytes := end - start;
      ghost var oldEnd, data := end, buffer[start..end];
      while true
        invariant buffer == old(buffer) || fresh(buffer)
        invariant buffer.Length == bufread + 1 && old(bufread) <= bufread && IO_SIZE <= bufread
        invariant Largest(bufread, maxSize) == Largest(IO_SIZE, maxSize)
        invariant buffer[start..oldEnd] == data
        invariant bufread == old(bufread) ==> buffer == old(buffer) && end == oldEnd
        invariant bufread > old(bufread) ==> bufread - bufbytes >= IO_SIZE && end == bufbytes
        invariant bufread == old(bufread) || (bufread == 2 * old(bufread) && old(bufread) - bufbytes < IO_SIZE)
        decreases bufbytes + IO_SIZE - bufread
      {
        LargestStep(bufread, maxSize);
        readCount := WholeUnits(bufread - bufbytes);
        if readCount != 0 {
          break;
        }
        if bufread * 2 > maxSize {
          return 0;
        }
        var bigger := Realloc(buffer, bufread * 2 + 1);
        assert bigger[start..oldEnd] == buffer[start..oldEnd];
        bufread := bufread * 2;
        buffer := bigger;
        end := bufbytes;
      }
    }

    /** Moves the n bytes from start to the front of the buffer. */
    method ShiftDown(n: nat)
      requires start + n < buffer.Length
      modifies buffer, this`end
      ensures buffer[..n] == old(buffer[start..start + n])
      ensures end == if start == 0 then old(end) else n
    {
      if start != 0 {
        forall i | 0 <= i < n {
          buffer[i] := buffer[start + i];
        }
        end := n;
      }
    }

    /** What fill_buffer leaves: the line so far, then the new bytes; a newline stands in for a missing one. */
    ghost predicate Filled(line: seq<byte>, ahead: seq<byte>, n: nat)
      reads this, buffer, file
    {
      && Shaped() && start == 0 && eol == |line| && end == eol + n && buffer[..eol] == line
      && (ahead != [] ==> n > 0 && !eof && buffer[eol..end] + file.data == ahead)
      && (ahead == [] ==> eof && file.data == [] && buffer[eol..end] == if line == [] then [] else [NEWLINE])
    }

    /** fill_buffer: 0 at the end of the file, and also, with eof not set, when the buffer is as large as it may get. */
    method FillBuffer() returns (n: nat)
      requires Shaped() && NEWLINE !in buffer[start..end] && (eof ==> start == end)
      modifies this`buffer, this`bufread, this`end, this`start, this`eol, this`eof, buffer, file
      ensures buffer == old(buffer) || fresh(buffer)
      ensures old(eof) ==> n == 0 && Shaped() && unchanged(this) && unchanged(file) && unchanged(buffer)
      ensures n == 0 && !eof ==> Shaped() && unchanged(this) && unchanged(file) && unchanged(buffer)
      ensures n == 0 && !eof ==> end - start > Largest(IO_SIZE, maxSize) - IO_SIZE
      ensures !old(eof) && (n > 0 || eof) ==> Filled(old(buffer[start..end]), old(file.data), n)
    {
      hide Largest, Filled;
      if eof {
        return 0;
      }
      ghost var line, ahead := buffer[start..end], file.data;
      var bufbytes := end - start;
      var readCount := Grow();
      if readCount == 0 {
        return 0;
      }
      ShiftDown(bufbytes);
      n := ReadMore(readCount, line, ahead);
    }

    /** The last part of fill_buffer: reads behind the bytes kept, which are in front by now. */
    method ReadMore(readCount: nat, ghost line: seq<byte>, ghost ahead: seq<byte>) returns (n: nat)
      requires IO_SIZE <= bufread && Largest(bufread, maxSize) == Largest(IO_SIZE, maxSize)
      requires IO_SIZE <= readCount && end + readCount <= bufread && !eof
      requires buffer.Length == bufread + 1 && end == |line| && buffer[..end] == line && file.data == ahead
      requires NEWLINE !in line
      modifies this`end, this`start, this`eol, this`eof, buffer, file
      ensures Filled(line, ahead, n) && (n == 0 ==> eof)
    {
      hide Largest;
      var bufbytes := end;
      var bytes := file.Read(readCount);
      n := PutRead(bytes, line);
      eol, start := bufbytes, 0;
      end := end + n;
      buffer[end] := 0;
      assert buffer[..bufbytes] == line;
      assert buffer[bufbytes..end] == if bytes != [] then bytes else if line != [] then [NEWLINE] else [];
    }

    /** The bytes read go behind those in the buffer; at the end of the file, perhaps a newline does. */
    method PutRead(bytes: seq<byte>, ghost line: seq<byte>) returns (n: nat)
      requires end + |bytes| < buffer.Length && end + 1 < buffer.Length && buffer[..end] == line && NEWLINE !in line
      modifies buffer, this`eof
      ensures buffer[..end] == line
      ensures bytes != [] ==> n == |bytes| && buffer[end..end + n] == bytes && eof == old(eof)
      ensures bytes == [] ==> eof && n == if line == [] then 0 else 1
      ensures bytes == [] && line != [] ==> buffer[end] == NEWLINE
    {
      n := |bytes|;
      forall i | 0 <= i < n {
        buffer[end + i] := bytes[i];
      }
      assert buffer[..end] == line;
      if n == 0 {
        eof := true;
        if end > 0 && buffer[end - 1] != NEWLINE {
          n := 1;
          buffer[end] := NEWLINE;
        }
        assert end > 0 ==> line[end - 1] in line;
        assert buffer[..end] == line;
      }
    }

    /** The search for the end of the line. */
    method Scan() returns (pos: nat)
      requires Shaped()
      ensures eol <= pos <= end && NoStop(buffer[eol..pos]) && (pos < end ==> IsStop(buffer[pos]))
    {
      pos := eol;
      while buffer[pos] != NEWLINE && buffer[pos] != 0
        invariant eol <= pos <= end && NoStop(buffer[eol..pos])
        decreases end - pos
      {
        pos := pos + 1;
      }
    }

    /** Inside a call: buffer and file hold what was left before, with the stand-in newline after the end. */
    ghost predicate Pending(was: seq<byte>)
      requires Shaped()
      reads this, buffer, file
    {
      && NoStop(buffer[start..eol])
      && (!eof ==> buffer[start..end] + file.data == was)
      && (eof ==> (start == end && was == []) || (was != [] && NoStop(was) && buffer[start..end] == was + [NEWLINE]))
    }

    /** The line that a call finds: cut short, ended by a stop, or the last one without. */
    ghost predicate Found(was: seq<byte>, outLength: nat, truncated: bool)
      reads this, buffer, file
    {
      && Valid() && outLength <= |was| && start + outLength <= eol
      && buffer[start..start + outLength] == was[..outLength]
      && Left() == was[outLength..]
      && (truncated ==>
            Largest(IO_SIZE, maxSize) - IO_SIZE < outLength <= Stop(was) && start + outLength == end)
      && (!truncated ==>
            && was != [] && outLength == (if Stop(was) < |was| then Stop(was) + 1 else |was|)
            && (start + outLength < eol <==> Stop(was) == |was|))
    }

    /** The line has been found, or the buffer is full. */
    method TakeLine(pos: nat, truncated: bool, ghost was: seq<byte>) returns (outLength: nat)
      requires Shaped() && Pending(was) && eol <= pos + 1 && start <= pos < end
      requires !truncated ==> NoStop(buffer[start..pos]) && IsStop(buffer[pos])
      requires truncated ==>
        pos + 1 == end && !eof && NoStop(buffer[start..end]) && end - start > Largest(IO_SIZE, maxSize) - IO_SIZE
      modifies this`eol
      ensures Found(was, outLength, truncated)
    {
      hide Largest, Stop, NoStop, IsStop, Found;
      SliceOfSlice(buffer[..], start, pos, end);
      TakenText(buffer[start..end], file.data, was, pos - start, truncated, eof);
      eol := pos + 1;
      outLength := pos + 1 - (if eof then 1 else 0) - start;
      FoundIs(was, outLength, truncated);
    }

    /** The parts of Found, where the text in the buffer is what the search went over. */
    lemma FoundIs(was: seq<byte>, n: nat, truncated: bool)
      requires Shaped() && start < eol && start + n == (if eof then eol - 1 else eol) && (truncated ==> eol == end)
      requires var t, p := buffer[start..end], eol - start - 1;
        && n <= |was| && t[..n] == was[..n] && t[p + 1..] + file.data == was[n..]
        && (if truncated then !eof && Largest(IO_SIZE, maxSize) - IO_SIZE < n <= Stop(was)
            else if eof then n == |was| == Stop(was) > 0 && eol == end else n == Stop(was) + 1)
      ensures Found(was, n, truncated)
    {
      hide Largest, Stop;
      SliceOfSlice(buffer[..], start, start + n, end);
      SliceOfSlice(buffer[..], start, eol, end);
    }

    /** After a refill the call goes on, with less to read or at the end of the file. */
    lemma RefillKeeps(line: seq<byte>, ahead: seq<byte>, n: nat, was: seq<byte>)
      requires Filled(line, ahead, n) && n > 0 && NoStop(line) && line + ahead == was
      ensures Shaped() && Pending(was)
      ensures |file.data| < |ahead| || (ahead == [] && eof && file.data == [])
    {
      hide Largest;
      assert buffer[start..end] == line + buffer[eol..end];
      assert buffer[start..eol] == line;
      if ahead != [] {
        assert line + buffer[eol..end] + file.data == line + (buffer[eol..end] + file.data);
      }
    }

    lemma FilledNone(line: seq<byte>, ahead: seq<byte>)
      requires Filled(line, ahead, 0)
      ensures line == [] && ahead == [] && Valid() && Left() == []
    {
      hide Largest;
    }

    /** The search came to the end of the buffer: more of the file, the end of it, or no room for more. */
    method Refill(ghost was: seq<byte>) returns (n: nat)
      requires Shaped() && Pending(was) && NoStop(buffer[start..end])
      modifies this`buffer, this`bufread, this`end, this`start, this`eol, this`eof, buffer, file
      ensures buffer == old(buffer) || fresh(buffer)
      ensures Shaped() && (n > 0 || !eof ==> Pending(was))
      ensures n > 0 ==> |file.data| < |old(file.data)| || (old(file.data) == file.data == [] && eof && !old(eof))
      ensures n == 0 && eof ==> Valid() && was == [] && Left() == []
      ensures n == 0 && !eof ==>
        unchanged(this) && end - start > Largest(IO_SIZE, maxSize) - IO_SIZE && NoStop(buffer[start..end])
    {
      hide Largest, Filled;
      ghost var line, ahead, wasEof := buffer[start..end], file.data, eof;
      n := FillBuffer();
      if n > 0 {
        RefillKeeps(line, ahead, n, was);
      } else if eof && !wasEof {
        FilledNone(line, ahead);
      }
    }

    /** intern_read_line. */
    method InternReadLine() returns (ok: bool, outLength: nat, truncated: bool)
      requires Valid()
      modifies this`buffer, this`bufread, this`end, this`start, this`eol, this`eof, buffer, file
      ensures buffer == old(buffer) || fresh(buffer)
      ensures !ok ==> Valid() && old(Left()) == [] && Left() == []
      ensures ok ==> Found(old(Left()), outLength, truncated)
    {
      hide Found, IsStop, NoStop;
      ghost var was := Left();
      start := eol;
      NoStopInParts([], []);
      assert buffer[start..eol] == [];
      while true
        invariant buffer == old(buffer) || fresh(buffer)
        invariant Shaped() && Pending(was)
        decreases |file.data|, if eof then 0 else 1
      {
        var pos := Scan();
        NoStopInParts(buffer[start..eol], buffer[eol..pos]);
        assert buffer[start..pos] == buffer[start..eol] + buffer[eol..pos];
        if pos == end {
          var n := Refill(was);
          if n == 0 {
            if eof {
              return false, 0, false;
            }
          } else {
            continue;
          }
          pos := pos - 1;
          truncated := true;
        } else {
          truncated := false;
        }
        outLength := TakeLine(pos, truncated, was);
        return true, outLength, truncated;
      }
    }

    /** batch_readline. */
    method BatchReadLine() returns (line: Option<seq<byte>>, truncated: bool)
      requires Valid()
      modifies this`buffer, this`bufread, this`end, this`start, this`eol, this`eof, buffer, file
      ensures Valid() && (buffer == old(buffer) || fresh(buffer))
      ensures line.None? <==> old(Left()) == []
      ensures line.None? ==> Left() == []
      ensures line.Some? ==>
        IsPiece(old(Left()), Piece(line.value, truncated), Largest(IO_SIZE, maxSize) - IO_SIZE, Left())
    {
      hide Largest, Stop, IsPiece, Shaped, Kept;
      ghost var was := Left();
      var ok, outLength;
      ok, outLength, truncated := InternReadLine();
      if !ok {
        return None, truncated;
      }
      ghost var found := outLength;
      InBuffer(was, outLength, truncated);
      KeptIs(was, found);
      if outLength > 0 && buffer[start + outLength - 1] == NEWLINE {
        outLength := outLength - 1;
        if outLength > 0 && buffer[start + outLength - 1] == RETURN {
          outLength := outLength - 1;
        }
      }
      var kept := EndLine(outLength, was, found, truncated);
      line := Some(kept);
    }

    lemma InBuffer(was: seq<byte>, outLength: nat, truncated: bool)
      requires Found(was, outLength, truncated)
      ensures start + outLength < buffer.Length && outLength <= |was| && was != []
      ensures forall k :: 0 <= k < outLength ==> buffer[start + k] == was[k]
    {
      hide Stop;
      forall k | 0 <= k < outLength ensures buffer[start + k] == was[k] {
        assert buffer[start..start + outLength][k] == was[..outLength][k];
      }
    }

    lemma FoundParts(was: seq<byte>, found: nat, truncated: bool)
      requires Found(was, found, truncated)
      ensures Shaped() && Valid() && start + found <= eol <= end < buffer.Length && found <= |was| && was != []
      ensures buffer[start..start + found] == was[..found] && buffer[eol..end] + file.data == was[found..]
      ensures truncated ==>
        Largest(IO_SIZE, maxSize) - IO_SIZE < found <= Stop(was) && (start + found == eol ==> eol == end)
      ensures !truncated ==> found == (if Stop(was) < |was| then Stop(was) + 1 else |was|)
      ensures !truncated && Stop(was) == |was| ==> start + found < eol
    {
      hide Stop, Largest, NoStop, IsStop;
    }

    /** Puts the zero behind the line: on its newline, on the sentinel, or on the first byte of what follows. */
    method EndLine(kept: nat, ghost was: seq<byte>, ghost found: nat, ghost truncated: bool) returns (line: seq<byte>)
      requires Found(was, found, truncated) && kept == Kept(was, found)
      modifies buffer
      ensures Valid() && IsPiece(was, Piece(line, truncated), Largest(IO_SIZE, maxSize) - IO_SIZE, Left())
    {
      hide Largest, Stop, Kept, IsPiece, Zapped, Shaped, Found;
      FoundParts(was, found, truncated);
      ghost var limit, rest, left := Largest(IO_SIZE, maxSize) - IO_SIZE, was[found..], buffer[eol..end];
      ZappedParts(left, file.data, rest);
      SliceOfSlice(was, 0, kept, found);
      line := PutZero(kept, found);
      assert Left() == if start + kept == eol && left != [] then Zapped(rest) else rest;
      WhatIsKept(was, found, truncated, limit, Left());
    }

    method PutZero(n: nat, ghost found: nat) returns (line: seq<byte>)
      requires Shaped() && n <= found && start + found <= eol
      modifies buffer
      ensures Shaped() && line == old(buffer[start..start + found])[..n]
      ensures buffer[eol..end] == if start + n == eol then Zapped(old(buffer[eol..end])) else old(buffer[eol..end])
    {
      hide Largest, Zapped;
      ghost var was := buffer[..];
      buffer[start + n] := 0;
      line := buffer[start..start + n];
      assert buffer[..] == was[start + n := 0];
      ZeroAt(was, start, n, found, eol, end);
    }
  }

  /** The length without newline and carriage return. */
  ghost function Kept(was: seq<byte>, found: nat): (r: nat)
    requires found <= |was|
    ensures r <= found
  {
    if found > 0 && was[found - 1] == NEWLINE then
      (if found > 1 && was[found - 2] == RETURN then found - 2 else found - 1)
    else found
  }

  lemma KeptIs(was: seq<byte>, found: nat)
    requires found <= |was|
    ensures Kept(was, found) ==
      if found > 0 && was[found - 1] == NEWLINE then
        (if found > 1 && was[found - 2] == RETURN then found - 2 else found - 1)
      else found
  {
  }

  /** A text whose first byte has become zero. */
  function Zapped(s: seq<byte>): (r: seq<byte>)
    ensures |r| == |s|
  {
    if s == [] then [] else s[0 := 0]
  }

  lemma ZeroAt(s: seq<byte>, i: nat, n: nat, found: nat, j: nat, k: nat)
    requires n <= found && i + found <= j <= k < |s|
    ensures var t := s[i + n := 0];
      t[i..i + n] == s[i..i + found][..n] && t[j..k] == if i + n == j then Zapped(s[j..k]) else s[j..k]
  {
  }

  lemma ZappedParts(a: seq<byte>, b: seq<byte>, s: seq<byte>)
    requires a + b == s
    ensures Zapped(a) + b == if a == [] then s else Zapped(s)
  {
  }

  datatype Piece = Piece(line: seq<byte>, truncated: bool)

  /** What one call returns of the text s, and what it leaves of it. */
  ghost predicate IsPiece(s: seq<byte>, p: Piece, limit: int, left: seq<byte>) {
    && s != []
    && var n := Stop(s);
    if p.truncated then limit < |p.line| <= n && p.line == s[..|p.line|] && left == s[|p.line|..]
    else if n == |s| then p.line == s && left == []
    else if s[n] == NEWLINE then p.line == StripReturn(s[..n]) && left == s[n + 1..]
    else p.line == s[..n + 1] && (left == s[n + 1..] || left == Zapped(s[n + 1..]))
  }

  /** Taking the newline and a carriage return off the line found. */
  lemma WhatIsKept(was: seq<byte>, found: nat, truncated: bool, limit: int, left: seq<byte>)
    requires found <= |was| && was != []
    requires truncated ==> limit < found <= Stop(was)
    requires !truncated ==> found == if Stop(was) < |was| then Stop(was) + 1 else |was|
    requires left == was[found..]
      || (!truncated && Stop(was) < |was| && Kept(was, found) == found && left == Zapped(was[found..]))
    ensures IsPiece(was, Piece(was[..Kept(was, found)], truncated), limit, left)
  {
    hide Zapped, Stop;
    var n := Stop(was);
    if truncated || n == |was| {
      assert found > 0 ==> was[found - 1] in was[..n];
      assert Kept(was, found) == found;
    } else {
      assert n > 0 ==> was[..n][n - 1] == was[n - 1];
      assert found == n + 1 && was[..n + 1][..n] == was[..n];
    }
  }

  lemma CutText(t: seq<byte>, d: seq<byte>, was: seq<byte>)
    requires t + d == was && NoStop(t)
    ensures |t| <= Stop(was) && t == was[..|t|] && d == was[|t|..]
  {
    assert forall k :: 0 <= k < |t| ==> was[k] == t[k];
  }

  lemma LastLine(t: seq<byte>, was: seq<byte>, p: nat)
    requires t == was + [NEWLINE] && NoStop(was) && p < |t| && IsStop(t[p])
    ensures p == |was| == Stop(was) && t[..p] == was && t[p + 1..] == []
  {
    assert forall k :: 0 <= k < |was| ==> t[k] == was[k];
    assert was[..|was|] == was;
    StopIsAt(was, |was|);
  }

  lemma OneLine(t: seq<byte>, d: seq<byte>, was: seq<byte>, p: nat)
    requires t + d == was && p < |t| && IsStop(t[p]) && NoStop(t[..p])
    ensures Stop(was) == p < |was| && t[..p + 1] == was[..p + 1] && t[p + 1..] + d == was[p + 1..]
  {
    hide IsStop, NoStop, Stop;
    assert was[..p] == t[..p];
    StopIsAt(was, p);
  }

  lemma SliceOfSlice(s: seq<byte>, i: nat, j: nat, k: nat)
    requires i <= j <= k <= |s|
    ensures s[i..k][..j - i] == s[i..j] && s[i..k][j - i..] == s[j..k] && (j < k ==> s[i..k][j - i] == s[j])
  {
  }

  lemma TakenText(t: seq<byte>, d: seq<byte>, was: seq<byte>, p: nat, truncated: bool, eof: bool)
    requires p < |t| && (truncated ==> p + 1 == |t| && !eof && NoStop(t))
    requires !truncated ==> NoStop(t[..p]) && IsStop(t[p])
    requires if eof then d == [] && NoStop(was) && was != [] && t == was + [NEWLINE] else t + d == was
    ensures var n := if eof then p else p + 1;
      && n <= |was| && t[..n] == was[..n] && t[p + 1..] + d == was[n..]
      && (if truncated then n <= Stop(was) else if eof then n == |was| == Stop(was) else n == Stop(was) + 1)
  {
    hide Stop, NoStop, IsStop;
    if truncated {
      CutText(t, d, was);
    } else if eof {
      LastLine(t, was, p);
    } else {
      OneLine(t, d, was, p);
    }
  }

  /** The text comes back piece by piece: left[i] is what is left before piece i. */
  ghost predicate Cuts(left: seq<seq<byte>>, ps: seq<Piece>, limit: int) {
    |left| == |ps| + 1 && forall i :: 0 <= i < |ps| ==> IsPiece(left[i], ps[i], limit, left[i + 1])
  }

  /** No line of the text has more than limit bytes. */
  ghost predicate Within(s: seq<byte>, limit: int) {
    forall i, j :: 0 <= i <= j <= |s| && NEWLINE !in s[i..j] ==> j - i <= limit
  }

  function Whole(lines: seq<seq<byte>>): (ps: seq<Piece>)
    ensures |ps| == |lines|
  {
    seq(|lines|, i requires 0 <= i < |lines| => Piece(lines[i], false))
  }

  lemma WholeStep(lines: seq<seq<byte>>)
    ensures lines == [] ==> Whole(lines) == []
    ensures lines != [] ==> Whole(lines) == [Piece(lines[0], false)] + Whole(lines[1..])
  {
  }

  /** There is no zero byte in the text, except perhaps its last byte. */
  ghost predicate ZeroOnlyLast(s: seq<byte>) {
    forall i :: 0 <= i < |s| - 1 ==> s[i] != 0
  }

  /** How many pieces a text has at least: it has as many stops, and perhaps something behind them. */
  ghost function Stops(s: seq<byte>): nat {
    if s == [] then 0 else if |s| == 1 then 1 else (if IsStop(s[0]) then 1 else 0) + Stops(s[1..])
  }

  lemma {:induction false} StopsBehind(s: seq<byte>, k: nat)
    requires k <= |s|
    ensures Stops(s) >= Stops(s[k..]) + (if k > 0 && IsStop(s[k - 1]) then 1 else 0)
    ensures k == |s| > 0 ==> Stops(s) >= 1
    decreases k
  {
    if k == 0 {
      assert s[0..] == s;
    } else {
      assert s[k..] == s[1..][k - 1..];
      StopsBehind(s[1..], k - 1);
    }
  }

  lemma StopsZapped(s: seq<byte>)
    ensures Stops(Zapped(s)) >= Stops(s)
  {
    if |s| > 1 {
      assert Zapped(s)[1..] == s[1..];
    }
  }

  lemma PieceHasStop(s: seq<byte>, p: Piece, limit: int, left: seq<byte>)
    requires IsPiece(s, p, limit, left)
    ensures Stops(s) <= 1 + Stops(left)
  {
    StopsUpTo(s, Stop(s));
    if p.truncated {
      StopsUpTo(s, |p.line|);
    } else if Stop(s) < |s| && s[Stop(s)] == 0 {
      StopsZapped(s[Stop(s) + 1..]);
    }
  }

  /** Before its first stop a text has none. */
  lemma {:induction false} StopsUpTo(s: seq<byte>, k: nat)
    requires k <= Stop(s)
    ensures k < |s| ==> Stops(s) == Stops(s[k..])
    ensures k == |s| ==> Stops(s) <= 1
    ensures k == Stop(s) < |s| ==> Stops(s) <= 1 + Stops(s[k + 1..])
    decreases k
  {
    if k == 0 {
      assert s[0..] == s;
    } else {
      StopsUpTo(s[1..], k - 1);
      assert s[1..][k - 1..] == s[k..];
      assert k < |s| ==> s[1..][k..] == s[k + 1..];
    }
  }

  lemma {:induction false} PiecesCoverStops(left: seq<seq<byte>>, ps: seq<Piece>, limit: int)
    requires Cuts(left, ps, limit) && left[|ps|] == []
    ensures |ps| >= Stops(left[0])
    decreases |ps|
  {
    if ps != [] {
      PieceHasStop(left[0], ps[0], limit, left[1]);
      PiecesCoverStops(left[1..], ps[1..], limit);
    }
  }

  lemma {:induction false} LinesAtMostStops(s: seq<byte>)
    ensures |Lines(s)| <= Stops(s)
    decreases |s|
  {
    hide Stops, LineEnd, StripReturn;
    if s != [] {
      var n := LineEnd(s);
      if n == |s| {
        StopsBehind(s, |s|);
      } else {
        LinesAtMostStops(s[n + 1..]);
        StopsBehind(s, n + 1);
      }
    }
  }

  /** A text within the limit comes back in whole pieces, and so does what is left of it. */
  lemma PieceWithin(s: seq<byte>, p: Piece, limit: int, left: seq<byte>)
    requires StopsWithin(s, limit) && IsPiece(s, p, limit, left)
    ensures !p.truncated && StopsWithin(left, limit)
  {
    hide Stop;
    var n := Stop(s);
    assert s[0..n] == s[..n];
    if n < |s| {
      SuffixWithin(s, n + 1, limit);
      ZappedWithin(s[n + 1..], limit);
    }
  }

  /** No more than limit bytes come one after the other without a stop. */
  ghost predicate StopsWithin(s: seq<byte>, limit: int) {
    forall i, j :: 0 <= i <= j <= |s| && NoStop(s[i..j]) ==> j - i <= limit
  }

  lemma SuffixWithin(s: seq<byte>, k: nat, limit: int)
    requires k <= |s| && StopsWithin(s, limit)
    ensures StopsWithin(s[k..], limit)
  {
    hide NoStop;
    assert forall i, j :: 0 <= i <= j <= |s| - k ==> s[k..][i..j] == s[k + i..k + j];
  }

  lemma ZappedWithin(s: seq<byte>, limit: int)
    requires StopsWithin(s, limit)
    ensures StopsWithin(Zapped(s), limit)
  {
    assert s != [] ==> Zapped(s)[0] == 0;
    forall i, j | 0 <= i <= j <= |s| && NoStop(Zapped(s)[i..j]) ensures j - i <= limit {
      assert forall k :: i <= k < j ==> Zapped(s)[i..j][k - i] == Zapped(s)[k];
      assert i > 0 || j == 0 ==> Zapped(s)[i..j] == s[i..j];
    }
  }

  lemma LinesWithin(s: seq<byte>, limit: int)
    requires Within(s, limit)
    ensures StopsWithin(s, limit)
  {
  }

  /** The first stop of a text is its first newline, or a zero byte before that. */
  lemma StopOrLineEnd(s: seq<byte>)
    ensures Stop(s) < |s| && s[Stop(s)] == NEWLINE ==> LineEnd(s) == Stop(s)
    ensures Stop(s) == |s| ==> LineEnd(s) == |s|
    ensures Stop(s) < |s| && s[Stop(s)] == 0 ==> LineEnd(s) > Stop(s)
  {
    hide Stop, LineEnd;
    var n := Stop(s);
    if n == |s| || s[n] == NEWLINE {
      LineEndAt(s, n);
    } else {
      assert forall k :: 0 <= k < n ==> s[..n][k] == s[k];
    }
  }

  lemma LinesOf(s: seq<byte>)
    requires s != []
    ensures LineEnd(s) == |s| ==> Lines(s) == [s]
    ensures LineEnd(s) < |s| ==>
      Lines(s) != [] && Lines(s)[0] == StripReturn(s[..LineEnd(s)]) && Lines(s)[1..] == Lines(s[LineEnd(s) + 1..])
  {
    hide LineEnd, StripReturn;
    if LineEnd(s) < |s| {
      FirstAndRest(StripReturn(s[..LineEnd(s)]), Lines(s[LineEnd(s) + 1..]));
    }
  }

  lemma FirstAndRest(line: seq<byte>, more: seq<seq<byte>>)
    ensures ([line] + more)[0] == line && ([line] + more)[1..] == more
  {
  }

  /** Without zero bytes, except at the very end, the pieces are the lines. */
  lemma {:induction false} PiecesAreLines(left: seq<seq<byte>>, ps: seq<Piece>, limit: int)
    requires Cuts(left, ps, limit) && left[|ps|] == [] && StopsWithin(left[0], limit) && ZeroOnlyLast(left[0])
    ensures ps == Whole(Lines(left[0]))
    decreases |ps|
  {
    hide StripReturn, LineEnd, Stop, Whole, Lines, StopsWithin, Zapped;
    var s := left[0];
    NoLines();
    if s == [] {
      assert ps != [] ==> IsPiece(s, ps[0], limit, left[1]);
    } else {
      assert IsPiece(s, ps[0], limit, left[1]);
      PieceWithin(s, ps[0], limit, left[1]);
      StopOrLineEnd(s);
      LinesOf(s);
      WholeStep(Lines(s));
      if Stop(s) < |s| && s[Stop(s)] == 0 {
        LineOfZero(s);
      }
      assert Lines(s)[1..] == Lines(left[1]);
      PiecesAreLines(left[1..], ps[1..], limit);
      assert ps == [ps[0]] + ps[1..];
    }
  }

  lemma NoLines()
    ensures Lines([]) == [] && Whole([]) == [] && Zapped([]) == []
  {
  }

  /** A zero byte at the very end belongs to the last line. */
  lemma LineOfZero(s: seq<byte>)
    requires ZeroOnlyLast(s) && Stop(s) < |s| && s[Stop(s)] == 0
    ensures Stop(s) == |s| - 1 && LineEnd(s) == |s| && s[..Stop(s) + 1] == s && s[Stop(s) + 1..] == []
  {
    hide Stop, LineEnd;
    StopOrLineEnd(s);
  }

  /** A zero byte before the end makes one piece too many, or cuts a line short. */
  lemma {:induction false} PiecesAreNotLines(left: seq<seq<byte>>, ps: seq<Piece>, limit: int)
    requires Cuts(left, ps, limit) && left[|ps|] == [] && StopsWithin(left[0], limit) && !ZeroOnlyLast(left[0])
    ensures ps != Whole(Lines(left[0]))
    decreases |ps|
  {
    hide StripReturn, LineEnd, Stop, Whole, Lines, StopsWithin, Zapped, Stops;
    var s := left[0];
    assert IsPiece(s, ps[0], limit, left[1]);
    PieceWithin(s, ps[0], limit, left[1]);
    StopOrLineEnd(s);
    LinesOf(s);
    WholeStep(Lines(s));
    var n := Stop(s);
    StopBeforeZero(s);
    if s[n] == NEWLINE {
      PiecesAreNotLines(left[1..], ps[1..], limit);
    } else if LineEnd(s) < |s| {
      PiecesCoverStops(left[1..], ps[1..], limit);
      StopsZapped(s[n + 1..]);
      var m := LineEnd(s);
      assert s[n + 1..][m - n - 1] == NEWLINE && s[n + 1..][m - n..] == s[m + 1..];
      StopsBehind(s[n + 1..], m - n);
      LinesAtMostStops(s[m + 1..]);
    }
  }

  /** With a zero byte before its end, a text has a stop before its end; what is behind a newline still has the zero. */
  lemma StopBeforeZero(s: seq<byte>)
    requires !ZeroOnlyLast(s)
    ensures Stop(s) < |s| - 1
    ensures s[Stop(s)] == NEWLINE ==> !ZeroOnlyLast(s[Stop(s) + 1..])
  {
    hide Stop;
    var z :| 0 <= z < |s| - 1 && s[z] == 0;
    StopAtMost(s, z);
    var n := Stop(s);
    if s[n] == NEWLINE {
      assert s[n + 1..][z - n - 1] == 0;
    }
  }

  lemma StopAtMost(s: seq<byte>, z: nat)
    requires z < |s| && IsStop(s[z])
    ensures Stop(s) <= z
  {
    hide Stop;
    var n := Stop(s);
    assert forall k :: 0 <= k < n ==> s[..n][k] == s[k];
  }

  /** Calling batch_readline until it has nothing more: any text, any sizes of the reads. */
  method ReadAll(f: Input, max: nat) returns (ps: seq<Piece>, ghost left: seq<seq<byte>>)
    modifies f
    ensures Cuts(left, ps, Largest(IO_SIZE, max) - IO_SIZE) && left[0] == old(f.data) && left[|ps|] == []
    ensures Within(old(f.data), Largest(IO_SIZE, max) - IO_SIZE) ==>
      (ps == Whole(Lines(old(f.data))) <==> ZeroOnlyLast(old(f.data)))
  {
    hide Largest, IsPiece, LineBuffer.Shaped, Within, Lines, Whole, ZeroOnlyLast, StopsWithin;
    ghost var all, limit := f.data, Largest(IO_SIZE, max) - IO_SIZE;
    var b := new LineBuffer(f, max);
    ps, left := [], [all];
    while true
      invariant b.Valid() && fresh(b) && fresh(b.buffer) && b.file == f && b.maxSize == max
      invariant Cuts(left, ps, limit) && left[0] == all && left[|ps|] == b.Left()
      decreases |b.Left()|
    {
      ghost var rest := b.Left();
      var line, truncated := b.BatchReadLine();
      if line.None? {
        break;
      }
      PieceShortens(rest, Piece(line.value, truncated), limit, b.Left());
      ps, left := ps + [Piece(line.value, truncated)], left + [b.Left()];
    }
    if Within(all, limit) {
      LinesWithin(all, limit);
      if ZeroOnlyLast(all) {
        PiecesAreLines(left, ps, limit);
      } else {
        PiecesAreNotLines(left, ps, limit);
      }
    }
  }

  lemma PieceShortens(s: seq<byte>, p: Piece, limit: int, left: seq<byte>)
    requires IsPiece(s, p, limit, left) && limit >= 0
    ensures |left| < |s|
  {
    hide Stop, StripReturn;
  }
}
