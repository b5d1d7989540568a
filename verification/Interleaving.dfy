/**
 Any number of open files over one device: every interleaving of their locked operations is a
 list of Ops, and Run gives the device, the file positions and the replies it leads to.
 */
module Interleaving {
  import opened Bytes
  import opened Search
  import opened CircularBuffer
  import opened DeviceModel
  import opened Device
  import opened Seek

  datatype Op =
    | WriteOp(fd: nat, data: seq<byte>, env: Env)
    | ReadOp(fd: nat, count: nat, readEnv: ReadEnv)
    | SeekOp(fd: nat, writeCmd: nat, writeCmdOffset: nat, lockOk: bool)
    | LlseekOp(fd: nat, moved: nat -> Option<nat>, lockOk: bool)

  datatype Reply = Reply(ret: Ret, delivered: Option<ReadReply>)

  /** The device and the position of each open file. */
  datatype Sys = Sys(dev: Dev, pos: seq<nat>)

  predicate OpsOn(n: nat, ops: seq<Op>) {
    forall i :: 0 <= i < |ops| ==> ops[i].fd < n
  }

  /** One operation; fill is what a krealloc from a stale size leaves unset. */
  function Step(s: Sys, op: Op, fill: seq<byte>): (r: (Sys, Reply))
    requires op.fd < |s.pos|
    ensures |r.0.pos| == |s.pos|
  {
    var at := s.pos[op.fd];
    match op
    case WriteOp(fd, data, env) =>
      var (dev, ret) := s.dev.Write(data, env, fill);
      (Sys(dev, s.pos[fd := at + if ret.Count? then ret.n else 0]), Reply(ret, None))
    case ReadOp(fd, count, env) =>
      var (ret, delivered) := s.dev.Read(at, count, env);
      (s.(pos := s.pos[fd := at + if ret.Count? then ret.n else 0]), Reply(ret, delivered))
    case SeekOp(fd, writeCmd, writeCmdOffset, lockOk) =>
      if !lockOk then (s, Reply(Fail(ERESTARTSYS), None))
      else (match s.dev.SeekTarget(writeCmd, writeCmdOffset)
            case None => (s, Reply(Fail(EINVAL), None))
            case Some(p) => (s.(pos := s.pos[fd := p]), Reply(Count(0), None)))
    case LlseekOp(fd, moved, lockOk) =>
      if !lockOk then (s, Reply(Fail(ERESTARTSYS), None))
      else (match moved(|s.dev.Visible()|)
            case None => (s, Reply(Fail(EINVAL), None))
            case Some(p) => (s.(pos := s.pos[fd := p]), Reply(Count(p), None)))
  }

  function Run(s: Sys, ops: seq<Op>, fills: seq<seq<byte>>): (r: (Sys, seq<Reply>))
    requires OpsOn(|s.pos|, ops) && |fills| == |ops|
    ensures |r.0.pos| == |s.pos| && |r.1| == |ops|
  {
    if |ops| == 0 then (s, [])
    else
      var last := |ops| - 1;
      var (mid, replies) := Run(s, ops[..last], fills[..last]);
      var (end, reply) := Step(mid, ops[last], fills[last]);
      (end, replies + [reply])
  }

  /** The state just before operation i. */
  function Before(s: Sys, ops: seq<Op>, fills: seq<seq<byte>>, i: nat): Sys
    requires OpsOn(|s.pos|, ops) && |fills| == |ops| && i <= |ops|
  {
    Run(s, ops[..i], fills[..i]).0
  }

  /** Each fill has the length the heap leaves unset at that point. */
  predicate Fills(s: Sys, ops: seq<Op>, fills: seq<seq<byte>>)
    requires OpsOn(|s.pos|, ops) && |fills| == |ops|
  {
    forall i :: 0 <= i < |ops| && ops[i].WriteOp? ==>
      |fills[i]| == Before(s, ops, fills, i).dev.staging.Stale()
  }

  /** How many blocks a run leaves allocated with nothing pointing at them. */
  function AbandonedBy(s: Sys, ops: seq<Op>, fills: seq<seq<byte>>): nat
    requires OpsOn(|s.pos|, ops) && |fills| == |ops|
  {
    if |ops| == 0 then 0
    else
      var last := |ops| - 1;
      AbandonedBy(s, ops[..last], fills[..last]) + Leaves(Run(s, ops[..last], fills[..last]).0.dev, ops[last])
  }

  function Leaves(d: Dev, op: Op): nat {
    if op.WriteOp? then d.Abandons(op.data, op.env) else 0
  }

  // ---------------------------------------------------------------- the class refines the model

  ghost function Positions(files: seq<File>): seq<nat>
    reads files
  {
    seq(|files|, i requires 0 <= i < |files| reads files => files[i].pos)
  }

  method Perform(dev: AesdDev, files: seq<File>, op: Op) returns (reply: Reply, ghost fill: seq<byte>)
    requires dev.Valid()
    requires op.fd < |files|
    requires forall i, j :: 0 <= i < j < |files| ==> files[i] != files[j]
    modifies dev, dev.ring, dev.ring.entry, dev.heap, files
    ensures dev.Valid()
    ensures op.WriteOp? ==> |fill| == old(dev.model).staging.Stale()
    ensures (Sys(dev.model, Positions(files)), reply) == Step(Sys(old(dev.model), old(Positions(files))), op, fill)
    ensures |dev.abandoned| == |old(dev.abandoned)| + Leaves(old(dev.model), op)
  {
    hide AesdDev.Valid, Dev.Write, Dev.Read, Dev.SeekTarget, Dev.Visible;
    ghost var at := Positions(files);
    fill := [];
    match op {
      case WriteOp(fd, data, env) =>
        var ret;
        ret, fill := dev.Write(files[fd], data, env);
        reply := Reply(ret, None);
      case ReadOp(fd, count, readEnv) =>
        var ret, delivered := dev.Read(files[fd], count, readEnv);
        reply := Reply(ret, delivered);
      case SeekOp(fd, writeCmd, writeCmdOffset, lockOk) =>
        var ret := dev.AdjustFileOffset(files[fd], writeCmd, writeCmdOffset, lockOk);
        reply := Reply(ret, None);
      case LlseekOp(fd, moved, lockOk) =>
        var ret := dev.Llseek(files[fd], moved, lockOk);
        reply := Reply(ret, None);
    }
    assert Positions(files) == at[op.fd := files[op.fd].pos];
    assert at[op.fd := at[op.fd]] == at;
  }

  /**
   Carrying out operations on the device and its open files does what Run says, whatever fails on
   the way; and the blocks left live are those of the stored commands, the staging buffer, and as
   many abandoned ones as AbandonedBy counts.
   */
  method Replay(dev: AesdDev, files: seq<File>, ops: seq<Op>) returns (replies: seq<Reply>, ghost fills: seq<seq<byte>>)
    requires dev.Valid()
    requires OpsOn(|files|, ops)
    requires forall i, j :: 0 <= i < j < |files| ==> files[i] != files[j]
    modifies dev, dev.ring, dev.ring.entry, dev.heap, files
    ensures dev.Valid()
    ensures |fills| == |ops|
    ensures var start := Sys(old(dev.model), old(Positions(files)));
            && Fills(start, ops, fills)
            && (Sys(dev.model, Positions(files)), replies) == Run(start, ops, fills)
            && |dev.heap.blocks| == |dev.model.Stored()| + (if dev.model.staging.Held? then 1 else 0)
                                    + |old(dev.abandoned)| + AbandonedBy(start, ops, fills)
  {
    hide AesdDev.Valid, Step, Fills, Positions, Leaves;
    ghost var start := Sys(dev.model, Positions(files));
    PositionCount(files);
    replies, fills := [], [];
    NoFills(start);
    var k := 0;
    assert ops[..0] == [];
    while k < |ops|
      invariant k <= |ops| && |fills| == k
      invariant dev.Valid()
      invariant Fills(start, ops[..k], fills)
      invariant |dev.abandoned| == |old(dev.abandoned)| + AbandonedBy(start, ops[..k], fills)
      invariant (Sys(dev.model, Positions(files)), replies) == Run(start, ops[..k], fills)
    {
      ghost var before := fills;
      var reply, fill := Perform(dev, files, ops[k]);
      RunPush(start, ops[..k], before, ops[k], fill);
      FillsPush(start, ops[..k], before, ops[k], fill);
      assert ops[..k + 1] == ops[..k] + [ops[k]];
      replies, fills := replies + [reply], fills + [fill];
      k := k + 1;
    }
    assert ops[..k] == ops;
    dev.LiveBlocks();
  }

  lemma PositionCount(files: seq<File>)
    ensures |Positions(files)| == |files|
  {
  }

  lemma NoFills(s: Sys)
    ensures Fills(s, [], [])
  {
  }

  lemma RunPush(s: Sys, ops: seq<Op>, fills: seq<seq<byte>>, op: Op, fill: seq<byte>)
    requires OpsOn(|s.pos|, ops) && |fills| == |ops| && op.fd < |s.pos|
    ensures var (mid, replies) := Run(s, ops, fills);
            && Run(s, ops + [op], fills + [fill]) == (Step(mid, op, fill).0, replies + [Step(mid, op, fill).1])
            && AbandonedBy(s, ops + [op], fills + [fill]) == AbandonedBy(s, ops, fills) + Leaves(mid.dev, op)
  {
    hide Step, Leaves;
    assert (ops + [op])[..|ops|] == ops && (fills + [fill])[..|ops|] == fills;
  }

  lemma {:induction false} FillsPush(s: Sys, ops: seq<Op>, fills: seq<seq<byte>>, op: Op, fill: seq<byte>)
    requires OpsOn(|s.pos|, ops) && |fills| == |ops| && op.fd < |s.pos|
    requires Fills(s, ops, fills)
    requires op.WriteOp? ==> |fill| == Run(s, ops, fills).0.dev.staging.Stale()
    ensures Fills(s, ops + [op], fills + [fill])
  {
    hide Run;
    var ops', fills' := ops + [op], fills + [fill];
    forall i | 0 <= i < |ops'| && ops'[i].WriteOp?
      ensures |fills'[i]| == Before(s, ops', fills', i).dev.staging.Stale()
    {
      assert ops'[..i] == ops[..i] && fills'[..i] == fills[..i];
      if i < |ops| {
        assert |fills[i]| == Before(s, ops, fills, i).dev.staging.Stale();
      } else {
        assert ops[..i] == ops && fills[..i] == fills;
      }
    }
  }

  // ---------------------------------------------------------------- properties of every run

  /** A run's last step, from the state and replies before it. */
  lemma RunLast(s: Sys, ops: seq<Op>, fills: seq<seq<byte>>)
    requires OpsOn(|s.pos|, ops) && |fills| == |ops| > 0
    ensures var last := |ops| - 1;
            var (mid, replies) := Run(s, ops[..last], fills[..last]);
            var (end, reply) := Step(mid, ops[last], fills[last]);
            Run(s, ops, fills) == (end, replies + [reply])
  {
    hide Step;
  }

  /** Operation i of a run is one step from the state before it. */
  lemma {:induction false} RunAt(s: Sys, ops: seq<Op>, fills: seq<seq<byte>>, i: nat)
    requires OpsOn(|s.pos|, ops) && |fills| == |ops| && i < |ops|
    ensures var before := Before(s, ops, fills, i);
            && Run(s, ops, fills).1[i] == Step(before, ops[i], fills[i]).1
            && Before(s, ops, fills, i + 1) == Step(before, ops[i], fills[i]).0
    decreases |ops|
  {
    hide Step;
    var last := |ops| - 1;
    assert ops[..i + 1][..i] == ops[..i] && fills[..i + 1][..i] == fills[..i];
    if i < last {
      RunAt(s, ops[..last], fills[..last], i);
      assert ops[..last][..i] == ops[..i] && fills[..last][..i] == fills[..i];
    }
  }

  /**
   Interleaved readers and writers: in any run, whoever else writes, seeks or reads, a read of
   an in-range position replies with the byte of the committed stream at evicted + f_pos as the
   stream stands at that step, and returns 0 exactly when f_pos is at or past buff_size.
   */
  lemma EveryReadIsOfTheStream(s: Sys, ops: seq<Op>, fills: seq<seq<byte>>, i: nat)
    requires OpsOn(|s.pos|, ops) && |fills| == |ops| && i < |ops|
    requires ops[i].ReadOp? && ops[i].readEnv.bufOk && ops[i].readEnv.lockOk
    requires var now := Before(s, ops, fills, i);
             Allocatable(now.dev.StoredSizes()) && InRange(now.dev.StoredSizes(), now.pos[ops[i].fd])
    ensures var now, reply := Before(s, ops, fills, i), Run(s, ops, fills).1[i];
            var p := now.pos[ops[i].fd];
            && (reply.ret == Count(0) <==> p >= |now.dev.Visible()|)
            && (p < |now.dev.Visible()| ==>
                  && reply.ret == Count(1)
                  && now.dev.Evicted() + p < |now.dev.Stream()|
                  && (ops[i].readEnv.copyOk ==> reply.delivered == Some(Byte(now.dev.Stream()[now.dev.Evicted() + p]))))
  {
    var now := Before(s, ops, fills, i);
    RunAt(s, ops, fills, i);
    ReadsTheStream(now.dev, now.pos[ops[i].fd]);
    VisibleIsStreamSuffix(now.dev);
  }

  /** A seek that is accepted and then a read of the same file: the visible byte at the target, and one past it. */
  lemma SeekThenRead(s: Sys, fd: nat, w: nat, o: nat, count: nat)
    requires fd < |s.pos| && s.dev.SeekTarget(w, o).Some?
    requires Allocatable(s.dev.StoredSizes()) && InRange(s.dev.StoredSizes(), s.dev.SeekTarget(w, o).value)
    ensures var p := s.dev.SeekTarget(w, o).value;
            var (end, replies) := Run(s, [SeekOp(fd, w, o, true), ReadOp(fd, count, READ_OK)], [[], []]);
            && p < |s.dev.Visible()|
            && end == s.(pos := s.pos[fd := p + 1])
            && replies[0] == Reply(Count(0), None)
            && replies[1] == Reply(Count(1), Some(Byte(s.dev.Visible()[p])))
  {
    hide InRange, Allocatable, Dev.ReadAt, Dev.SeekTarget, Dev.Visible, Run;
    var p := s.dev.SeekTarget(w, o).value;
    SeekInside(s.dev, w, o);
    ReadsTheStream(s.dev, p);
    RunTwo(s, [SeekOp(fd, w, o, true), ReadOp(fd, count, READ_OK)], [[], []]);
    assert s.pos[fd := p][fd := p + 1] == s.pos[fd := p + 1];
  }

  lemma RunTwo(s: Sys, ops: seq<Op>, fills: seq<seq<byte>>)
    requires OpsOn(|s.pos|, ops) && |fills| == |ops| == 2
    ensures var (mid, first) := Step(s, ops[0], fills[0]); var (end, second) := Step(mid, ops[1], fills[1]);
            && Run(s, ops, fills).0 == end
            && Run(s, ops, fills).1[0] == first
            && Run(s, ops, fills).1[1] == second
  {
    hide Step;
    assert ops[..1][..0] == ops[..0] && fills[..1][..0] == fills[..0];
    RunLast(s, ops[..1], fills[..1]);
    RunLast(s, ops, fills);
  }

  /** The bytes the device accepted during a run: the data of every write that did not fail. */
  function Accepted(ops: seq<Op>, replies: seq<Reply>): seq<byte>
    requires |ops| == |replies|
  {
    if |ops| == 0 then []
    else
      var last := |ops| - 1;
      Accepted(ops[..last], replies[..last]) + AcceptedOf(ops[last], replies[last])
  }

  function AcceptedOf(op: Op, reply: Reply): seq<byte> {
    if op.WriteOp? && reply.ret.Count? then op.data else []
  }

  lemma AcceptedLast(ops: seq<Op>, replies: seq<Reply>, reply: Reply)
    requires |ops| == |replies| + 1
    ensures Accepted(ops, replies + [reply])
         == Accepted(ops[..|replies|], replies) + AcceptedOf(ops[|replies|], reply)
  {
    assert (replies + [reply])[..|replies|] == replies;
  }

  predicate KreallocSucceeds(ops: seq<Op>) {
    forall i :: 0 <= i < |ops| && ops[i].WriteOp? ==> ops[i].env.kreallocOk
  }

  /**
   Whole-run conservation and framing: while krealloc succeeds, what is committed followed by what
   is staged is what was there plus every accepted write, in order; no staged byte is a newline
   and every command holds one.
   */
  lemma {:induction false} RunConserves(s: Sys, ops: seq<Op>, fills: seq<seq<byte>>)
    requires OpsOn(|s.pos|, ops) && |fills| == |ops| && Fills(s, ops, fills)
    requires s.dev.staging.Clean() && KreallocSucceeds(ops)
    ensures var (end, replies) := Run(s, ops, fills);
            && end.dev.staging.Clean()
            && end.dev.AllBytes() == s.dev.AllBytes() + Accepted(ops, replies)
            && (Framed(s.dev) ==> Framed(end.dev))
    decreases |ops|
  {
    if |ops| == 0 {
      return;
    }
    hide Step, Run, Fills, Accepted, AcceptedOf, Framed, Dev.AllBytes, Staging.Clean, Staging.Stale;
    var last := |ops| - 1;
    RunLast(s, ops, fills);
    FillsPrefix(s, ops, fills, last);
    RunConserves(s, ops[..last], fills[..last]);
    var (mid, replies) := Run(s, ops[..last], fills[..last]);
    var reply := Step(mid, ops[last], fills[last]).1;
    StepConserves(mid, ops[last], fills[last]);
    AcceptedLast(ops, replies, reply);
    JoinBytes(s.dev.AllBytes(), Accepted(ops[..last], replies), AcceptedOf(ops[last], reply));
  }

  lemma JoinBytes(a: seq<byte>, b: seq<byte>, c: seq<byte>)
    ensures (a + b) + c == a + (b + c)
  {
  }

  /**
   The whole history of a device, from module init: the ring in age order is the stream of
   commits minus what was evicted, and the stream followed by the staged bytes is every byte
   accepted from any file, in order.
   */
  lemma {:induction false} WholeHistory(start: Sys, ops: seq<Op>, fills: seq<seq<byte>>)
    requires start.dev == INITIAL
    requires OpsOn(|start.pos|, ops) && |fills| == |ops| && Fills(start, ops, fills) && KreallocSucceeds(ops)
    ensures var (end, replies) := Run(start, ops, fills);
            && end.dev.Evicted() <= |end.dev.Stream()|
            && end.dev.Visible() == end.dev.Stream()[end.dev.Evicted()..]
            && end.dev.Stream() + end.dev.staging.Bytes() == Accepted(ops, replies)
            && Framed(end.dev)
  {
    assert INITIAL.AllBytes() == [] && Framed(INITIAL);
    hide Run, Fills, Accepted, Flatten, Dev.Visible, Dev.Stream, Dev.Evicted, Framed;
    RunConserves(start, ops, fills);
    VisibleIsStreamSuffix(Run(start, ops, fills).0.dev);
  }

  lemma StepConserves(s: Sys, op: Op, fill: seq<byte>)
    requires op.fd < |s.pos| && s.dev.staging.Clean()
    requires op.WriteOp? ==> op.env.kreallocOk && |fill| == s.dev.staging.Stale()
    ensures var (end, reply) := Step(s, op, fill);
            && end.dev.staging.Clean()
            && end.dev.AllBytes() == s.dev.AllBytes() + AcceptedOf(op, reply)
            && (Framed(s.dev) ==> Framed(end.dev))
  {
    hide Framed, Dev.AllBytes, Dev.Write;
    if op.WriteOp? {
      assert fill == [];
      WriteConserves(s.dev, op.data, op.env);
      if Framed(s.dev) {
        WriteKeepsFraming(s.dev, op.data, op.env);
      }
    }
  }

  lemma FillsPrefix(s: Sys, ops: seq<Op>, fills: seq<seq<byte>>, n: nat)
    requires OpsOn(|s.pos|, ops) && |fills| == |ops| && n <= |ops| && Fills(s, ops, fills)
    ensures Fills(s, ops[..n], fills[..n])
    ensures n < |ops| && ops[n].WriteOp? ==> |fills[n]| == Run(s, ops[..n], fills[..n]).0.dev.staging.Stale()
  {
    hide Run;
    if n < |ops| && ops[n].WriteOp? {
      assert |fills[n]| == Before(s, ops, fills, n).dev.staging.Stale();
    }
    forall i | 0 <= i < n && ops[i].WriteOp?
      ensures |fills[i]| == Before(s, ops[..n], fills[..n], i).dev.staging.Stale()
    {
      assert ops[..n][..i] == ops[..i] && fills[..n][..i] == fills[..i];
      assert Before(s, ops, fills, i) == Before(s, ops[..n], fills[..n], i);
    }
  }

  /** Nothing a run does, failures included, changes a command once it is committed. */
  lemma {:induction false} RunOnlyCommits(s: Sys, ops: seq<Op>, fills: seq<seq<byte>>)
    requires OpsOn(|s.pos|, ops) && |fills| == |ops|
    ensures s.dev.log <= Run(s, ops, fills).0.dev.log
    decreases |ops|
  {
    if |ops| > 0 {
      RunOnlyCommits(s, ops[..|ops| - 1], fills[..|ops| - 1]);
    }
  }

  /** Until the ring has overflowed, every later view of the device extends every earlier one. */
  lemma {:induction false} AppendOnlyBeforeEviction(s: Sys, ops: seq<Op>, fills: seq<seq<byte>>)
    requires OpsOn(|s.pos|, ops) && |fills| == |ops|
    requires |Run(s, ops, fills).0.dev.log| <= N
    ensures s.dev.Visible() <= Run(s, ops, fills).0.dev.Visible()
  {
    var end := Run(s, ops, fills).0;
    RunOnlyCommits(s, ops, fills);
    var k := |s.dev.log|;
    assert end.dev.log == s.dev.log + end.dev.log[k..];
    FlattenConcat(s.dev.log, end.dev.log[k..]);
  }

  /** The bytes delivered to one file during a run. */
  function Collected(ops: seq<Op>, replies: seq<Reply>, fd: nat): seq<byte>
    requires |ops| == |replies|
  {
    if |ops| == 0 then []
    else
      var last := |ops| - 1;
      Collected(ops[..last], replies[..last], fd) + CollectedOf(ops[last], replies[last], fd)
  }

  function CollectedOf(op: Op, reply: Reply, fd: nat): seq<byte> {
    match reply.delivered
    case Some(Byte(b)) => if op.fd == fd then [b] else []
    case _ => []
  }

  lemma CollectedLast(ops: seq<Op>, replies: seq<Reply>, reply: Reply, fd: nat)
    requires |ops| == |replies| + 1
    ensures Collected(ops, replies + [reply], fd)
         == Collected(ops[..|replies|], replies, fd) + CollectedOf(ops[|replies|], reply, fd)
  {
    assert (replies + [reply])[..|replies|] == replies;
  }

  /** The file is only read from during the run, and its user copies succeed. */
  predicate OnlyReads(ops: seq<Op>, fd: nat) {
    forall i :: 0 <= i < |ops| && ops[i].fd == fd ==> ops[i].ReadOp? && ops[i].readEnv.copyOk
  }

  /**
   A reader that interleaves with any writers and other readers, while nothing is evicted,
   collects a contiguous slice of the final log from where it started, and its position says
   where the slice ends.
   */
  lemma {:induction false} ReaderCollectsSlice(s: Sys, ops: seq<Op>, fills: seq<seq<byte>>, fd: nat)
    requires OpsOn(|s.pos|, ops) && |fills| == |ops| && fd < |s.pos|
    requires OnlyReads(ops, fd)
    requires |Run(s, ops, fills).0.dev.log| <= N
    requires |Run(s, ops, fills).0.dev.Visible()| < TWO_31
    requires s.pos[fd] <= |s.dev.Visible()|
    ensures var (end, replies) := Run(s, ops, fills);
            && s.pos[fd] <= end.pos[fd] <= |end.dev.Visible()|
            && Collected(ops, replies, fd) == end.dev.Visible()[s.pos[fd]..end.pos[fd]]
    decreases |ops|
  {
    if |ops| == 0 {
      return;
    }
    hide Dev.Visible, Step, Run, Collected, CollectedOf;
    var last := |ops| - 1;
    var (mid, replies) := Run(s, ops[..last], fills[..last]);
    var (end, reply) := Step(mid, ops[last], fills[last]);
    RunLast(s, ops, fills);
    CollectedLast(ops, replies, reply, fd);
    StepExtends(mid, ops[last], fills[last]);
    ReaderCollectsSlice(s, ops[..last], fills[..last], fd);
    StepCollects(mid, ops[last], fills[last], fd);
    JoinSlices(mid.dev.Visible(), end.dev.Visible(), s.pos[fd], mid.pos[fd], end.pos[fd]);
  }

  lemma JoinSlices(before: seq<byte>, after: seq<byte>, a: nat, b: nat, c: nat)
    requires before <= after && a <= b <= |before| && b <= c <= |after|
    ensures before[a..b] + after[b..c] == after[a..c]
  {
  }

  /** What one step delivers to a file that is only read from is the slice its position moves over. */
  lemma StepCollects(s: Sys, op: Op, fill: seq<byte>, fd: nat)
    requires op.fd < |s.pos| && fd < |s.pos|
    requires op.fd == fd ==> op.ReadOp? && op.readEnv.copyOk
    requires |s.dev.Visible()| <= |Step(s, op, fill).0.dev.Visible()| < TWO_31 && s.pos[fd] <= |s.dev.Visible()|
    ensures var (end, reply) := Step(s, op, fill);
            && s.pos[fd] <= end.pos[fd] <= |end.dev.Visible()|
            && CollectedOf(op, reply, fd) == end.dev.Visible()[s.pos[fd]..end.pos[fd]]
  {
    hide Dev.Visible, Dev.Read, Dev.Write, Dev.SeekTarget;
    if op.fd == fd {
      StepReads(s, op, fill);
    }
  }

  lemma StepExtends(s: Sys, op: Op, fill: seq<byte>)
    requires op.fd < |s.pos| && |Step(s, op, fill).0.dev.log| <= N
    ensures |s.dev.log| <= N
    ensures s.dev.Visible() <= Step(s, op, fill).0.dev.Visible()
  {
    hide Flatten;
    var after := Step(s, op, fill).0.dev;
    if after.log != s.dev.log {
      FlattenAppend(s.dev.log, after.log[|s.dev.log|]);
    }
  }

  /** One read of an in-range position of a small device moves one byte on, or stays at the end. */
  lemma StepReads(s: Sys, op: Op, fill: seq<byte>)
    requires op.fd < |s.pos| && op.ReadOp? && op.readEnv.copyOk
    requires |s.dev.Visible()| < TWO_31 && s.pos[op.fd] <= |s.dev.Visible()|
    ensures var (end, reply) := Step(s, op, fill); var p := s.pos[op.fd];
            && end.dev == s.dev
            && if op.readEnv.bufOk && op.readEnv.lockOk && p < |s.dev.Visible()| then
                 end.pos == s.pos[op.fd := p + 1] && reply.delivered == Some(Byte(s.dev.Visible()[p]))
               else end.pos == s.pos && reply.delivered == None
  {
    hide Dev.ReadAt, Dev.Visible, Dev.Stream, Dev.Evicted, InRange;
    SmallDeviceInRange(s.dev, s.pos[op.fd]);
    ReadsTheStream(s.dev, s.pos[op.fd]);
  }

  // ---------------------------------------------------------------- readers under eviction

  /** The places in the committed stream of the bytes delivered to one file. */
  function ReadIndices(s: Sys, ops: seq<Op>, fills: seq<seq<byte>>, fd: nat): seq<nat>
    requires OpsOn(|s.pos|, ops) && |fills| == |ops| && fd < |s.pos|
  {
    if |ops| == 0 then []
    else
      var last := |ops| - 1;
      ReadIndices(s, ops[..last], fills[..last], fd)
      + StepIndices(Run(s, ops[..last], fills[..last]).0, ops[last], fills[last], fd)
  }

  function StepIndices(s: Sys, op: Op, fill: seq<byte>, fd: nat): seq<nat>
    requires op.fd < |s.pos| && fd < |s.pos|
  {
    if CollectedOf(op, Step(s, op, fill).1, fd) == [] then [] else [s.dev.Evicted() + s.pos[fd]]
  }

  /** The file's position is in range whenever it is read. */
  predicate ReadsInRange(s: Sys, ops: seq<Op>, fills: seq<seq<byte>>, fd: nat)
    requires OpsOn(|s.pos|, ops) && |fills| == |ops| && fd < |s.pos|
  {
    |ops| == 0 ||
    var last := |ops| - 1;
    && ReadsInRange(s, ops[..last], fills[..last], fd)
    && (ops[last].fd == fd ==> PositionInRange(Run(s, ops[..last], fills[..last]).0, fd))
  }

  predicate PositionInRange(s: Sys, fd: nat)
    requires fd < |s.pos|
  {
    Allocatable(s.dev.StoredSizes()) && InRange(s.dev.StoredSizes(), s.pos[fd])
  }

  /** The bytes got are those of the stream at the given places, which increase from lo and stay below hi. */
  predicate InStreamOrder(stream: seq<byte>, places: seq<nat>, got: seq<byte>, lo: nat, hi: nat) {
    && |places| == |got|
    && (forall i :: 0 <= i < |places| ==> lo <= places[i] < hi && places[i] < |stream| && got[i] == stream[places[i]])
    && (forall i, j :: 0 <= i < j < |places| ==> places[i] < places[j])
  }

  /**
   A reader under any interleaving, evictions and failures included: the bytes it is given are
   bytes of the committed stream in strictly increasing places, so none comes twice or out of
   order, and the places it passes over without reading number exactly the bytes evicted meanwhile.
   */
  lemma {:induction false} ReaderInStreamOrder(s: Sys, ops: seq<Op>, fills: seq<seq<byte>>, fd: nat)
    requires OpsOn(|s.pos|, ops) && |fills| == |ops| && fd < |s.pos|
    requires OnlyReads(ops, fd) && ReadsInRange(s, ops, fills, fd)
    ensures var (end, replies) := Run(s, ops, fills);
            ReadOn(s, end, fd, ReadIndices(s, ops, fills, fd), Collected(ops, replies, fd))
    decreases |ops|
  {
    if |ops| == 0 {
      return;
    }
    hide Step, Run, Collected, CollectedOf, StepIndices, PositionInRange, ReadOn, StepsOn;
    var last := |ops| - 1;
    var (mid, replies) := Run(s, ops[..last], fills[..last]);
    var reply := Step(mid, ops[last], fills[last]).1;
    RunLast(s, ops, fills);
    CollectedLast(ops, replies, reply, fd);
    ReaderInStreamOrder(s, ops[..last], fills[..last], fd);
    StepInStreamOrder(mid, ops[last], fills[last], fd);
    ReadOnExtends(s, mid, Step(mid, ops[last], fills[last]).0, fd, ReadIndices(s, ops[..last], fills[..last], fd),
                  Collected(ops[..last], replies, fd), StepIndices(mid, ops[last], fills[last], fd),
                  CollectedOf(ops[last], reply, fd));
  }

  /** Between two states a file was given these bytes of the stream, from these places. */
  predicate ReadOn(s: Sys, end: Sys, fd: nat, places: seq<nat>, got: seq<byte>)
    requires fd < |s.pos| == |end.pos|
  {
    var lo, hi := s.dev.Evicted() + s.pos[fd], end.dev.Evicted() + end.pos[fd];
    && InStreamOrder(end.dev.Stream(), places, got, lo, hi)
    && s.dev.Evicted() <= end.dev.Evicted()
    && hi - lo == |places| + (end.dev.Evicted() - s.dev.Evicted())
  }

  /** One step: the stream and the evicted prefix only grow, and at most one byte is given, from where the file is. */
  predicate StepsOn(s: Sys, end: Sys, fd: nat, places: seq<nat>, got: seq<byte>)
    requires fd < |s.pos| == |end.pos|
  {
    var at := s.dev.Evicted() + s.pos[fd];
    && s.dev.Stream() <= end.dev.Stream()
    && s.dev.Evicted() <= end.dev.Evicted()
    && end.pos[fd] == s.pos[fd] + |places|
    && if places == [] then got == []
       else places == [at] && at < |s.dev.Stream()| && got == [s.dev.Stream()[at]]
  }

  lemma ReadOnExtends(s: Sys, mid: Sys, end: Sys, fd: nat, places: seq<nat>, got: seq<byte>,
                      more: seq<nat>, moreGot: seq<byte>)
    requires fd < |s.pos| == |mid.pos| == |end.pos|
    requires ReadOn(s, mid, fd, places, got) && StepsOn(mid, end, fd, more, moreGot)
    ensures ReadOn(s, end, fd, places + more, got + moreGot)
  {
    hide Dev.Evicted, Dev.Stream;
  }

  lemma StepInStreamOrder(s: Sys, op: Op, fill: seq<byte>, fd: nat)
    requires op.fd < |s.pos| && fd < |s.pos|
    requires op.fd == fd ==> op.ReadOp? && op.readEnv.copyOk && PositionInRange(s, fd)
    ensures var (end, reply) := Step(s, op, fill);
            StepsOn(s, end, fd, StepIndices(s, op, fill, fd), CollectedOf(op, reply, fd))
  {
    hide Flatten, Dev.ReadAt, Dev.Visible, Allocatable, InRange;
    if op.fd == fd {
      ReadsTheStream(s.dev, s.pos[fd]);
    }
    var after := Step(s, op, fill).0.dev;
    if after.log != s.dev.log {
      var command := after.log[|s.dev.log|];
      assert after.log == s.dev.log + [command];
      FlattenAppend(s.dev.log, command);
      EvictedGrows(s.dev.log, command);
    }
  }

  lemma EvictedGrows(log: seq<Command>, command: Command)
    ensures |Flatten(log[..Dropped(|log|)])| <= |Flatten((log + [command])[..Dropped(|log| + 1)])|
  {
    var k := Dropped(|log|);
    if |log| >= N {
      assert (log + [command])[..k + 1] == log[..k] + [log[k]];
      FlattenAppend(log[..k], log[k]);
    } else {
      assert (log + [command])[..0] == log[..0];
    }
  }

  // ---------------------------------------------------------------- leaks

  /** The write leaves no block behind: none was allocated, or it was freed, or it became the entry. */
  predicate LeavesNone(d: Dev, op: Op) {
    op.WriteOp? ==>
      || !op.env.kmallocOk
      || (op.env.bufOk && (!op.env.copyOk || (op.env.lockOk && d.CommitsAlone(op.data))))
  }

  /** Each of the first n operations, if it is a write, leaves no block behind. */
  predicate FirstLeaveNone(s: Sys, ops: seq<Op>, fills: seq<seq<byte>>, n: nat)
    requires OpsOn(|s.pos|, ops) && |fills| == |ops| && n <= |ops|
  {
    forall i :: 0 <= i < n ==> LeavesNone(Before(s, ops, fills, i).dev, ops[i])
  }

  /**
   A run leaks nothing exactly when each of its writes fails to allocate, fails its user copy, or
   holds a newline and finds nothing staged.
   */
  lemma {:induction false} LeakFreeIff(s: Sys, ops: seq<Op>, fills: seq<seq<byte>>)
    requires OpsOn(|s.pos|, ops) && |fills| == |ops|
    ensures AbandonedBy(s, ops, fills) == 0 <==> FirstLeaveNone(s, ops, fills, |ops|)
  {
    hide Run, Before, AbandonedBy, LeavesNone;
    LeakFreeUpTo(s, ops, fills, |ops|);
    assert ops[..|ops|] == ops && fills[..|ops|] == fills;
  }

  lemma {:induction false} LeakFreeUpTo(s: Sys, ops: seq<Op>, fills: seq<seq<byte>>, n: nat)
    requires OpsOn(|s.pos|, ops) && |fills| == |ops| && n <= |ops|
    ensures AbandonedBy(s, ops[..n], fills[..n]) == 0 <==> FirstLeaveNone(s, ops, fills, n)
  {
    if n == 0 {
      assert ops[..0] == [] && fills[..0] == [];
    } else {
      hide Run, Before, AbandonedBy, LeavesNone, Leaves, FirstLeaveNone;
      LeakFreeUpTo(s, ops, fills, n - 1);
      AbandonedLast(s, ops, fills, n - 1);
      FirstLeaveNoneLast(s, ops, fills, n - 1);
      LeavesIff(Before(s, ops, fills, n - 1).dev, ops[n - 1]);
    }
  }

  lemma FirstLeaveNoneLast(s: Sys, ops: seq<Op>, fills: seq<seq<byte>>, n: nat)
    requires OpsOn(|s.pos|, ops) && |fills| == |ops| && n < |ops|
    ensures FirstLeaveNone(s, ops, fills, n + 1) <==>
            FirstLeaveNone(s, ops, fills, n) && LeavesNone(Before(s, ops, fills, n).dev, ops[n])
  {
    hide Before, LeavesNone;
  }

  lemma AbandonedLast(s: Sys, ops: seq<Op>, fills: seq<seq<byte>>, n: nat)
    requires OpsOn(|s.pos|, ops) && |fills| == |ops| && n < |ops|
    ensures AbandonedBy(s, ops[..n + 1], fills[..n + 1])
         == AbandonedBy(s, ops[..n], fills[..n]) + Leaves(Before(s, ops, fills, n).dev, ops[n])
  {
    hide Run, Leaves;
    assert ops[..n + 1][..n] == ops[..n] && fills[..n + 1][..n] == fills[..n];
  }

  lemma LeavesIff(d: Dev, op: Op)
    ensures Leaves(d, op) == 0 <==> LeavesNone(d, op)
  {
  }

  lemma SmallDeviceInRange(d: Dev, pos: nat)
    requires |d.Visible()| < TWO_31 && pos < TWO_31
    ensures Allocatable(d.StoredSizes()) && InRange(d.StoredSizes(), pos)
  {
    VisibleIsStreamSuffix(d);
    SmallTotalAllocatable(d.StoredSizes());
    SmallOffsetsInRange(d.StoredSizes(), pos);
  }
}
