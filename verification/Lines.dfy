/**
 How the bytes of a stream are cut into writes does not matter: the lines of a stream, and what
 the device makes of any chunking of it.  Every kernel call succeeds here.
 */
module Lines {
  import opened Bytes
  import opened CircularBuffer
  import opened DeviceModel
  import opened Interleaving

  // ---------------------------------------------------------------- the lines of a stream

  /** The newline-terminated lines of a stream, each with its newline. */
  function Lines(s: seq<byte>): seq<Command>
    decreases |s|
  {
    var i := FirstNewline(s);
    if i == |s| then [] else [s[..i + 1]] + Lines(s[i + 1..])
  }

  /** What follows the last newline. */
  function Rest(s: seq<byte>): seq<byte>
    decreases |s|
  {
    var i := FirstNewline(s);
    if i == |s| then s else Rest(s[i + 1..])
  }

  /** No newline before the last byte. */
  predicate NewlineOnlyLast(s: seq<byte>) {
    forall i :: 0 <= i < |s| && s[i] == NEWLINE ==> i == |s| - 1
  }

  predicate IsLine(s: seq<byte>) {
    FirstNewline(s) == |s| - 1
  }

  lemma IsLineIff(s: seq<byte>)
    ensures IsLine(s) <==> |s| > 0 && s[|s| - 1] == NEWLINE && NewlineOnlyLast(s)
  {
    if |s| > 0 && s[|s| - 1] == NEWLINE && NewlineOnlyLast(s) {
      assert s[|s| - 1] in s;
    }
  }

  lemma {:induction false} LinesJoin(s: seq<byte>)
    ensures Flatten(Lines(s)) + Rest(s) == s
    decreases |s|
  {
    hide Flatten;
    var i := FirstNewline(s);
    if i == |s| {
      JoinNothing(s);
    } else {
      LinesJoin(s[i + 1..]);
      JoinLine(s[..i + 1], Lines(s[i + 1..]), Rest(s[i + 1..]), s);
    }
  }

  lemma JoinNothing(s: seq<byte>)
    ensures Flatten([]) + s == s
  {
  }

  lemma JoinLine(line: Command, more: seq<Command>, rest: seq<byte>, s: seq<byte>)
    requires s == line + (Flatten(more) + rest)
    ensures Flatten([line] + more) + rest == s
  {
    FlattenConcat([line], more);
    FlattenOne(line);
  }

  lemma {:induction false} LinesAreLines(s: seq<byte>)
    ensures forall i :: 0 <= i < |Lines(s)| ==> IsLine(Lines(s)[i])
    ensures NEWLINE !in Rest(s)
    decreases |s|
  {
    var i := FirstNewline(s);
    if i < |s| {
      LinesAreLines(s[i + 1..]);
      LineOfFirst(s);
    } else {
      assert s[..i] == s;
    }
  }

  lemma LineOfFirst(s: seq<byte>)
    requires FirstNewline(s) < |s|
    ensures IsLine(s[..FirstNewline(s) + 1])
  {
    var i := FirstNewline(s);
    var line := s[..i + 1];
    assert line[i] == NEWLINE;
    assert forall j :: 0 <= j < i ==> line[j] == s[..i][j];
    IsLineIff(line);
  }

  /** The lines are the only way to cut a stream into lines and a newline-free rest. */
  lemma {:induction false} LinesUnique(cs: seq<Command>, rest: seq<byte>)
    requires forall i :: 0 <= i < |cs| ==> IsLine(cs[i])
    requires NEWLINE !in rest
    ensures Lines(Flatten(cs) + rest) == cs && Rest(Flatten(cs) + rest) == rest
    decreases |cs|
  {
    if |cs| == 0 {
      assert Flatten(cs) + rest == rest;
    } else {
      var line, more := cs[0], cs[1..];
      assert cs == [line] + more;
      LinesUnique(more, rest);
      JoinLine(line, more, rest, line + (Flatten(more) + rest));
      SplitLine(line, Flatten(more) + rest);
    }
  }

  /** The first line of a stream is cut off first. */
  lemma SplitLine(line: Command, tail: seq<byte>)
    requires IsLine(line)
    ensures Lines(line + tail) == [line] + Lines(tail) && Rest(line + tail) == Rest(tail)
  {
    var s := line + tail;
    FirstOfLine(line, tail);
    assert s[..|line|] == line && s[|line|..] == tail;
  }

  lemma FirstOfLine(line: seq<byte>, tail: seq<byte>)
    requires IsLine(line)
    ensures FirstNewline(line + tail) == |line| - 1
  {
    var s, i := line + tail, FirstNewline(line + tail);
    assert s[|line| - 1] == NEWLINE;
    assert i < |line| && s[i] == line[i];
  }

  // ---------------------------------------------------------------- writes one after another

  function WriteOk(d: Dev, data: seq<byte>): Dev {
    d.Write(data, ALL_OK, []).0
  }

  function WriteAll(d: Dev, ws: seq<seq<byte>>): Dev {
    if |ws| == 0 then d else WriteOk(WriteAll(d, ws[..|ws| - 1]), ws[|ws| - 1])
  }

  lemma WriteAllPush(d: Dev, ws: seq<seq<byte>>, w: seq<byte>)
    ensures WriteAll(d, ws + [w]) == WriteOk(WriteAll(d, ws), w)
  {
    assert (ws + [w])[..|ws|] == ws;
  }

  /** Newline-free writes only stage. */
  lemma {:induction false} NewlineFreeWritesStage(d: Dev, ws: seq<seq<byte>>)
    requires d.staging.Clean()
    requires forall i :: 0 <= i < |ws| ==> NEWLINE !in ws[i]
    ensures NEWLINE !in Flatten(ws)
    ensures WriteAll(d, ws) == if |ws| == 0 then d else Dev(d.log, Held(d.staging.Bytes() + Flatten(ws)))
  {
    if |ws| > 0 {
      var last := |ws| - 1;
      NewlineFreeWritesStage(d, ws[..last]);
      assert Flatten(ws) == Flatten(ws[..last]) + ws[last];
      assert d.staging.Bytes() + Flatten(ws) == (d.staging.Bytes() + Flatten(ws[..last])) + ws[last];
      if last == 0 {
        assert Flatten(ws) == ws[0];
      }
    }
  }

  /** The same writes as operations on one open file. */
  function Writes(fd: nat, ws: seq<seq<byte>>): (ops: seq<Op>)
    ensures |ops| == |ws| && forall i :: 0 <= i < |ws| ==> ops[i] == WriteOp(fd, ws[i], ALL_OK)
  {
    seq(|ws|, i requires 0 <= i < |ws| => WriteOp(fd, ws[i], ALL_OK))
  }

  function NoFill(n: nat): (fills: seq<seq<byte>>)
    ensures |fills| == n && forall i :: 0 <= i < n ==> fills[i] == []
  {
    seq(n, _ => [])
  }

  /** The device after the writes, and the one file they move, by all their bytes. */
  function WritesEnd(s: Sys, fd: nat, ws: seq<seq<byte>>): Sys
    requires fd < |s.pos|
  {
    Sys(WriteAll(s.dev, ws), s.pos[fd := s.pos[fd] + |Flatten(ws)|])
  }

  lemma {:induction false} WritesRun(s: Sys, fd: nat, ws: seq<seq<byte>>)
    requires fd < |s.pos|
    ensures Run(s, Writes(fd, ws), NoFill(|ws|)).0 == WritesEnd(s, fd, ws)
  {
    if |ws| == 0 {
      assert s.pos[fd := s.pos[fd]] == s.pos;
    } else {
      hide Run, Step, Writes, NoFill, WritesEnd;
      var front, w := ws[..|ws| - 1], ws[|ws| - 1];
      assert ws == front + [w];
      WritesRun(s, fd, front);
      WritesLast(s, fd, front, w);
      WritesEndPush(s, fd, front, w);
    }
  }

  lemma WritesEndPush(s: Sys, fd: nat, front: seq<seq<byte>>, w: seq<byte>)
    requires fd < |s.pos|
    ensures Step(WritesEnd(s, fd, front), WriteOp(fd, w, ALL_OK), []).0 == WritesEnd(s, fd, front + [w])
  {
    hide WriteOk, Step, WriteAll, Flatten;
    StepWrites(WritesEnd(s, fd, front), fd, w);
    FlattenAppend(front, w);
    WriteAllPush(s.dev, front, w);
  }

  lemma WritesLast(s: Sys, fd: nat, front: seq<seq<byte>>, w: seq<byte>)
    requires fd < |s.pos|
    ensures Run(s, Writes(fd, front + [w]), NoFill(|front| + 1)).0
         == Step(Run(s, Writes(fd, front), NoFill(|front|)).0, WriteOp(fd, w, ALL_OK), []).0
  {
    hide Step;
    var ops, fills := Writes(fd, front + [w]), NoFill(|front| + 1);
    assert ops[..|front|] == Writes(fd, front) && fills[..|front|] == NoFill(|front|);
    RunLast(s, ops, fills);
  }

  lemma StepWrites(s: Sys, fd: nat, w: seq<byte>)
    requires fd < |s.pos|
    ensures Step(s, WriteOp(fd, w, ALL_OK), []).0 == Sys(WriteOk(s.dev, w), s.pos[fd := s.pos[fd] + |w|])
  {
  }

  /**
   Chunking invariance: newline-free writes followed by any write b, all on one file, end in the
   same device and the same file positions as one write of their concatenation on that file.
   */
  lemma ChunkingInvariance(s: Sys, fd: nat, ws: seq<seq<byte>>, b: seq<byte>)
    requires fd < |s.pos| && s.dev.staging.Clean()
    requires forall i :: 0 <= i < |ws| ==> NEWLINE !in ws[i]
    ensures Run(s, Writes(fd, ws + [b]), NoFill(|ws| + 1)).0
         == Run(s, Writes(fd, [Flatten(ws) + b]), NoFill(1)).0
  {
    hide Run, WriteOk, Writes, NoFill;
    var joined := Flatten(ws) + b;
    WritesRun(s, fd, ws + [b]);
    WritesRun(s, fd, [joined]);
    FlattenAppend(ws, b);
    FlattenOne(joined);
    ChunksWriteAsOne(s.dev, ws, b);
    WriteAllPush(s.dev, [], joined);
    assert [] + [joined] == [joined];
  }

  lemma ChunksWriteAsOne(d: Dev, ws: seq<seq<byte>>, b: seq<byte>)
    requires d.staging.Clean()
    requires forall i :: 0 <= i < |ws| ==> NEWLINE !in ws[i]
    ensures WriteAll(d, ws + [b]) == WriteOk(d, Flatten(ws) + b)
  {
    NewlineFreeWritesStage(d, ws);
    WriteAllPush(d, ws, b);
    StagedThenWritten(d, Flatten(ws), b);
    if |ws| == 0 {
      assert Flatten(ws) + b == b;
    }
  }

  /** Staging newline-free bytes and then writing b is writing both at once. */
  lemma StagedThenWritten(d: Dev, staged: seq<byte>, b: seq<byte>)
    requires d.staging.Clean() && NEWLINE !in staged
    ensures WriteOk(Dev(d.log, Held(d.staging.Bytes() + staged)), b) == WriteOk(d, staged + b)
  {
    assert d.staging.Bytes() + (staged + b) == (d.staging.Bytes() + staged) + b;
    assert NEWLINE in staged + b <==> NEWLINE in b;
    if d.staging.Absent? {
      assert [] + (staged + b) == staged + b;
    }
  }

  lemma {:induction false} WriteAllConserves(d: Dev, ws: seq<seq<byte>>)
    requires d.staging.Clean() && Framed(d)
    ensures WriteAll(d, ws).staging.Clean() && Framed(WriteAll(d, ws))
    ensures WriteAll(d, ws).AllBytes() == d.AllBytes() + Flatten(ws)
    ensures d.log <= WriteAll(d, ws).log
  {
    hide Framed, Dev.AllBytes, Staging.Clean;
    if |ws| > 0 {
      var last := |ws| - 1;
      WriteAllConserves(d, ws[..last]);
      var mid := WriteAll(d, ws[..last]);
      WriteConserves(mid, ws[last], ALL_OK);
      WriteKeepsFraming(mid, ws[last], ALL_OK);
      assert d.AllBytes() + Flatten(ws) == (d.AllBytes() + Flatten(ws[..last])) + ws[last];
    }
  }

  /** A committed command is one line exactly when its last write has no newline before its end. */
  lemma CommitIsLineIff(d: Dev, data: seq<byte>)
    requires d.staging.Clean() && Framed(d) && NEWLINE in data
    ensures var after := WriteOk(d, data);
            |after.log| == |d.log| + 1 && d.log <= after.log && (IsLine(after.log[|d.log|]) <==> NewlineOnlyLast(data))
  {
    var staged := d.staging.Bytes();
    var command := WriteOk(d, data).log[|d.log|];
    assert command == staged + data;
    IsLineIff(command);
    NewlineOnlyLastJoin(staged, data);
    var j :| 0 <= j < |data| && data[j] == NEWLINE;
    assert command[|command| - 1] == data[|data| - 1];
  }

  lemma NewlineOnlyLastJoin(staged: seq<byte>, data: seq<byte>)
    requires NEWLINE !in staged
    ensures NewlineOnlyLast(staged + data) <==> NewlineOnlyLast(data)
  {
    var joined := staged + data;
    if NewlineOnlyLast(data) {
      assert forall i :: 0 <= i < |staged| ==> joined[i] in staged;
    } else {
      var i :| 0 <= i < |data| - 1 && data[i] == NEWLINE;
      assert joined[|staged| + i] == NEWLINE;
    }
  }

  predicate AllLines(cs: seq<Command>) {
    forall i :: 0 <= i < |cs| ==> IsLine(cs[i])
  }

  predicate EndsOnly(ws: seq<seq<byte>>) {
    forall i :: 0 <= i < |ws| ==> NewlineOnlyLast(ws[i])
  }

  lemma StageKeepsLog(d: Dev, data: seq<byte>)
    requires NEWLINE !in data
    ensures WriteOk(d, data).log == d.log && NewlineOnlyLast(data)
  {
  }

  lemma {:induction false} LogIsLinesIff(ws: seq<seq<byte>>)
    ensures AllLines(WriteAll(INITIAL, ws).log) <==> EndsOnly(ws)
  {
    hide WriteOk, IsLine, NewlineOnlyLast, Dev.AllBytes;
    if |ws| > 0 {
      var last := |ws| - 1;
      var d, w := WriteAll(INITIAL, ws[..last]), ws[last];
      LogIsLinesIff(ws[..last]);
      WriteAllConserves(INITIAL, ws[..last]);
      assert ws == ws[..last] + [w];
      assert EndsOnly(ws) <==> EndsOnly(ws[..last]) && NewlineOnlyLast(w);
      if NEWLINE in w {
        CommitIsLineIff(d, w);
        var log := WriteAll(INITIAL, ws).log;
        assert log == d.log + [log[|d.log|]];
        assert forall i :: 0 <= i < |d.log| ==> log[i] == d.log[i];
      } else {
        StageKeepsLog(d, w);
      }
    }
  }

  lemma WritesFromInit(ws: seq<seq<byte>>)
    ensures var d := WriteAll(INITIAL, ws);
            && NEWLINE !in d.staging.Bytes()
            && Flatten(d.log) + d.staging.Bytes() == Flatten(ws)
  {
    InitialHolds();
    hide Flatten, WriteAll, Framed;
    WriteAllConserves(INITIAL, ws);
    assert [] + Flatten(ws) == Flatten(ws);
    FramedStaging(WriteAll(INITIAL, ws));
  }

  lemma InitialHolds()
    ensures INITIAL.AllBytes() == [] && INITIAL.staging.Clean() && Framed(INITIAL)
  {
  }

  lemma FramedStaging(d: Dev)
    requires Framed(d)
    ensures NEWLINE !in d.staging.Bytes()
  {
  }

  /**
   The commands are the lines of the stream, and the ring the last N of them with the rest staged,
   whatever the chunking, exactly when every write has a newline only as its last byte.
   */
  lemma CommandsAreLinesIff(ws: seq<seq<byte>>)
    ensures var d := WriteAll(INITIAL, ws);
            && (d.log == Lines(Flatten(ws)) <==> EndsOnly(ws))
            && (EndsOnly(ws) ==>
                  && d.Stored() == Recent(Lines(Flatten(ws)))
                  && d.staging.Bytes() == Rest(Flatten(ws)))
  {
    hide Flatten, WriteAll, IsLine, Lines, Rest, Recent, EndsOnly, Framed;
    var d := WriteAll(INITIAL, ws);
    WritesFromInit(ws);
    LogIsLinesIff(ws);
    LinesAreLines(Flatten(ws));
    if EndsOnly(ws) {
      LinesUnique(d.log, d.staging.Bytes());
    }
  }

  /** Two chunkings of one stream, each with newlines only at the end of writes, cannot be told apart. */
  lemma {:induction false} ChunkingsAgree(ws1: seq<seq<byte>>, ws2: seq<seq<byte>>)
    requires EndsOnly(ws1) && EndsOnly(ws2) && Flatten(ws1) == Flatten(ws2)
    ensures var d1, d2 := WriteAll(INITIAL, ws1), WriteAll(INITIAL, ws2);
            && d1.Stored() == d2.Stored()
            && d1.Visible() == d2.Visible()
            && d1.staging.Bytes() == d2.staging.Bytes()
  {
    CommandsAreLinesIff(ws1);
    CommandsAreLinesIff(ws2);
  }

  /** Without that condition bytes after a newline stay in the entry: one write of two lines is one command. */
  lemma TwoLinesInOneWrite()
    ensures var w := [NEWLINE, NEWLINE];
            && WriteAll(INITIAL, [w]).log == [w]
            && Lines(w) == [[NEWLINE], [NEWLINE]]
  {
    var w := [NEWLINE, NEWLINE];
    WriteAllPush(INITIAL, [], w);
    assert [] + [w] == [w];
    var one: seq<byte> := [NEWLINE];
    assert FirstNewline(w) == 0 && w[1..] == one && w[..1] == one;
    assert FirstNewline(one) == 0 && one[1..] == [] && one[..1] == one;
    assert Lines([]) == [];
    assert Lines(one) == [one] + [];
    assert Lines(w) == [one] + Lines(one);
  }
}
