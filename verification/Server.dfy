/**
 The socket server's request transaction: connection_thread run alone against the driver, whatever
 call fails on the way.
 */
module Server {
  import opened Bytes
  import opened Search
  import opened DeviceModel
  import opened Device
  import opened Interleaving
  import opened Lines
  import opened Seek

  /** What one connection asks for: an AESDCHAR_IOCSEEKTO line, or bytes to write. */
  datatype Request = Packet(bytes: seq<byte>) | SeekTo(writeCmd: nat, writeCmdOffset: nat)

  /** The size of readbuf. */
  const READBUF_SIZE: nat := 100

  /** The size of sockbuffull. */
  const SOCKBUF_SIZE: nat := 1024

  /** What recv can hand over: 0 bytes is a failure. */
  predicate Receivable(req: Request) {
    req.Packet? ==> 0 < |req.bytes| <= SOCKBUF_SIZE
  }

  /** The device stays below 2 GiB, far above what kmalloc allows it. */
  predicate Small(d: Dev) {
    |d.Visible()| < TWO_31
  }

  // ---------------------------------------------------------------- one request, nothing failing

  /** The device after a request is served. */
  function Effect(d: Dev, req: Request): Dev {
    match req
    case Packet(bytes) => WriteOk(d, bytes)
    case SeekTo(_, _) => d
  }

  /** The bytes from a position to the end, none when it is past the end. */
  function From(d: Dev, pos: nat): seq<byte> {
    if pos < |d.Visible()| then d.Visible()[pos..] else []
  }

  /**
   Where the response starts: the beginning after a packet, or the end of the packet's own bytes
   when the rewind failed, which the server does not check; the target after a seek.
   */
  function StartOf(d: Dev, req: Request, rewound: bool): Option<nat> {
    match req
    case Packet(bytes) => Some(if rewound then 0 else |bytes|)
    case SeekTo(writeCmd, writeCmdOffset) => d.SeekTarget(writeCmd, writeCmdOffset)
  }

  /** What is there to read back after a request; None when its seek is refused and the server exits. */
  function Offer(d: Dev, req: Request, rewound: bool): Option<seq<byte>> {
    match StartOf(d, req, rewound)
    case None => None
    case Some(start) => Some(From(Effect(d, req), start))
  }

  /** The response of a request served alone. */
  function Respond(d: Dev, req: Request): Option<seq<byte>> {
    Offer(d, req, true)
  }

  // ---------------------------------------------------------------- one request, anything failing

  /**
   How the calls of one transaction go: interrupted is the number of the read whose device lock is
   interrupted, if any.
   */
  datatype Faults = Faults(openOk: bool, write: Env, seekLockOk: bool, rewindOk: bool, positionOk: bool,
                           interrupted: Option<nat>, sendOk: bool)

  /**
   How it ends.  Exited is exit(1); GaveUp is a return that keeps the mutex; Overran has written
   past readbuf; BadLength asks send for -1 bytes.
   */
  datatype Outcome = Exited | GaveUp | Overran | BadLength | Responded(bytes: seq<byte>)

  /** A read fails before the end of what there is to read. */
  predicate Cut(offer: seq<byte>, interrupted: Option<nat>) {
    interrupted.Some? && interrupted.value <= |offer|
  }

  /** How many reads return a byte. */
  function ReadBytes(offer: seq<byte>, interrupted: Option<nat>): nat {
    if Cut(offer, interrupted) then interrupted.value else |offer|
  }

  /** The end of a transaction, from SEEK_CUR on: the -1 of a failed read is added to the length sent. */
  function Answer(offer: seq<byte>, faults: Faults): Outcome {
    var m := ReadBytes(offer, faults.interrupted);
    if !faults.positionOk then Exited
    else if m > READBUF_SIZE then Overran
    else if Cut(offer, faults.interrupted) && m == 0 then BadLength
    else if !faults.sendOk then GaveUp
    else Responded(if Cut(offer, faults.interrupted) then offer[..m - 1] else offer)
  }

  function Serve(d: Dev, req: Request, faults: Faults, fill: seq<byte>): (Dev, Outcome) {
    if !faults.openOk then (d, Exited)
    else
      match req
      case SeekTo(writeCmd, writeCmdOffset) =>
        (match d.SeekTarget(writeCmd, writeCmdOffset)
         case None => (d, Exited)
         case Some(p) => if faults.seekLockOk then (d, Answer(From(d, p), faults)) else (d, Exited))
      case Packet(bytes) =>
        var (after, ret) := d.Write(bytes, faults.write, fill);
        if ret.Fail? then (after, GaveUp)
        else (after, Answer(From(after, if faults.rewindOk then 0 else |bytes|), faults))
  }

  // ---------------------------------------------------------------- what a transaction does, call by call

  /** The packet's write goes through. */
  predicate Accepted(d: Dev, bytes: seq<byte>, env: Env) {
    Dev.Enters(env) && (env.kreallocOk || (NEWLINE in bytes && d.staging.Absent?))
  }

  /** The transaction gets as far as SEEK_CUR. */
  predicate Reaches(d: Dev, req: Request, faults: Faults) {
    && faults.openOk
    && match req
       case Packet(bytes) => Accepted(d, bytes, faults.write)
       case SeekTo(writeCmd, writeCmdOffset) => faults.seekLockOk && d.SeekTarget(writeCmd, writeCmdOffset).Some?
  }

  function ReachedAt(d: Dev, req: Request, faults: Faults): nat
    requires Reaches(d, req, faults)
  {
    match req
    case Packet(bytes) => if faults.rewindOk then 0 else |bytes|
    case SeekTo(writeCmd, writeCmdOffset) => d.SeekTarget(writeCmd, writeCmdOffset).value
  }

  /**
   The device afterwards.  A seek, and a packet whose open or write fails before krealloc, leave it
   alone; an accepted packet adds its bytes once, with one more command if it holds a newline; a
   failed krealloc drops what was staged.
   */
  predicate LeavesDevice(before: Dev, req: Request, faults: Faults, after: Dev) {
    if req.SeekTo? || !faults.openOk || !Dev.Enters(faults.write) then after == before
    else if !Accepted(before, req.bytes, faults.write) then after == Dev(before.log, Absent(before.staging.Size()))
    else
      && before.log <= after.log
      && |after.log| == |before.log| + (if NEWLINE in req.bytes then 1 else 0)
      && (NEWLINE in req.bytes ==> after.staging == Absent(0))
      && after.staging.Clean()
      && (before.staging.Clean() ==> after.AllBytes() == before.AllBytes() + req.bytes)
  }

  /**
   The ending from SEEK_CUR on, with offer to read back.  It exits exactly when SEEK_CUR fails,
   overruns exactly when more than 100 bytes are read before the first failed read, asks for -1
   bytes exactly when the first read fails, and gives up exactly when the send fails.  What it sends
   is all of the offer, or what was read before the failed read less its last byte.
   */
  predicate EndsIn(offer: seq<byte>, faults: Faults, outcome: Outcome) {
    var failed := faults.interrupted;
    var tooMany := |offer| > 100 && (failed.Some? ==> failed.value > 100);
    && (outcome.Exited? <==> !faults.positionOk)
    && (outcome.Overran? <==> faults.positionOk && tooMany)
    && (outcome.BadLength? <==> faults.positionOk && failed == Some(0))
    && (outcome.GaveUp? <==> faults.positionOk && !tooMany && failed != Some(0) && !faults.sendOk)
    && (outcome.Responded? ==>
          outcome.bytes ==
            if failed.Some? && 0 < failed.value <= |offer| then offer[..failed.value - 1] else offer)
  }

  /** The whole transaction: the device it leaves, and how it ends. */
  predicate Transacts(before: Dev, req: Request, faults: Faults, after: Dev, outcome: Outcome) {
    && LeavesDevice(before, req, faults, after)
    && if Reaches(before, req, faults) then EndsIn(From(after, ReachedAt(before, req, faults)), faults, outcome)
       else outcome == if faults.openOk && req.Packet? then GaveUp else Exited
  }

  lemma ServeTransacts(d: Dev, req: Request, faults: Faults, fill: seq<byte>)
    requires |fill| == d.staging.Stale()
    ensures var (after, outcome) := Serve(d, req, faults, fill); Transacts(d, req, faults, after, outcome)
  {
    hide Answer, EndsIn, From, Dev.SeekTarget, LeavesDevice, Dev.Write;
    var (after, outcome) := Serve(d, req, faults, fill);
    ServeLeaves(d, req, faults, fill);
    if req.Packet? {
      AcceptedIff(d, req.bytes, faults.write, fill);
    }
    if Reaches(d, req, faults) {
      AnswerEndsIn(From(after, ReachedAt(d, req, faults)), faults);
    }
  }

  lemma AnswerEndsIn(offer: seq<byte>, faults: Faults)
    ensures EndsIn(offer, faults, Answer(offer, faults))
  {
  }

  lemma AcceptedIff(d: Dev, bytes: seq<byte>, env: Env, fill: seq<byte>)
    ensures d.Write(bytes, env, fill).1.Count? <==> Accepted(d, bytes, env)
  {
  }

  lemma ServeLeaves(d: Dev, req: Request, faults: Faults, fill: seq<byte>)
    requires |fill| == d.staging.Stale()
    ensures LeavesDevice(d, req, faults, Serve(d, req, faults, fill).0)
  {
    hide Answer, From, Dev.SeekTarget, Dev.AllBytes;
    if req.Packet? && Accepted(d, req.bytes, faults.write) && d.staging.Clean() {
      WriteConservesIff(d, req.bytes, faults.write, fill);
    }
  }

  /**
   A request gets the response it should exactly when it is not refused, every call it needs
   succeeds, no read is interrupted before the end, the response fits readbuf, and the rewind
   after a packet succeeds or there is nothing to read anyway.
   */
  lemma ServedRightIff(d: Dev, req: Request, faults: Faults)
    requires d.staging.Clean() && Receivable(req)
    ensures var outcome := Serve(d, req, faults, []).1; var right := Respond(d, req);
            (right.Some? && outcome == Responded(right.value)) <==>
              && right.Some?
              && faults.openOk && faults.positionOk && faults.sendOk
              && (if req.SeekTo? then faults.seekLockOk
                  else d.Write(req.bytes, faults.write, []).1.Count? && (faults.rewindOk || right.value == []))
              && !Cut(right.value, faults.interrupted)
              && |right.value| <= READBUF_SIZE
  {
    hide Dev.Visible, Dev.SeekTarget, Dev.Write, WriteOk, Answer, From;
    RequestCases(d, req, faults.write);
    match req {
      case SeekTo(w, o) =>
        if d.SeekTarget(w, o).Some? {
          AnswerRightIff(From(d, d.SeekTarget(w, o).value), From(d, d.SeekTarget(w, o).value), faults);
        }
      case Packet(bytes) =>
        var after := d.Write(bytes, faults.write, []).0;
        LaterFrom(after, |bytes|);
        AnswerRightIff(From(after, if faults.rewindOk then 0 else |bytes|), From(after, 0), faults);
    }
  }

  /** Reading from later on gives fewer bytes, unless there are none. */
  lemma LaterFrom(d: Dev, pos: nat)
    requires pos > 0
    ensures |From(d, pos)| <= |From(d, 0)|
    ensures |From(d, pos)| == |From(d, 0)| <==> From(d, 0) == []
  {
  }

  lemma AnswerRightIff(offer: seq<byte>, right: seq<byte>, faults: Faults)
    requires offer == right || |offer| < |right|
    ensures Answer(offer, faults) == Responded(right) <==>
              && faults.positionOk && faults.sendOk && offer == right
              && !Cut(right, faults.interrupted) && |right| <= READBUF_SIZE
  {
    if Answer(offer, faults).Responded? && Cut(offer, faults.interrupted) {
      assert |Answer(offer, faults).bytes| < |offer|;
    }
  }

  lemma RequestCases(d: Dev, req: Request, env: Env)
    requires d.staging.Clean()
    ensures req.SeekTo? ==> var target := d.SeekTarget(req.writeCmd, req.writeCmdOffset);
              target.Some? ==> target.value < |d.Visible()|
    ensures req.Packet? && d.Write(req.bytes, env, []).1.Count? ==>
              d.Write(req.bytes, env, []).0 == WriteOk(d, req.bytes)
  {
    SeekBijection(d);
  }

  // ---------------------------------------------------------------- the code

  /**
   The do-while loop: one-byte reads into readbuf until a read returns 0 or fails.  A byte past
   the end of readbuf stops it here, with overran set.
   */
  method Drain(dev: AesdDev, file: File, readbuf: array<byte>, interrupted: Option<nat>)
    returns (totalRead: int, overran: bool)
    requires dev.Valid() && Small(dev.model) && file.pos < TWO_31
    requires readbuf != dev.ring.entry as object
    modifies file, readbuf
    ensures var offer := From(dev.model, old(file.pos)); var m := ReadBytes(offer, interrupted);
            && (overran <==> m > readbuf.Length)
            && (overran ==> readbuf[..] == offer[..readbuf.Length])
            && (!overran ==>
                  && totalRead == (if Cut(offer, interrupted) then m - 1 else m)
                  && readbuf[..m] == offer[..m]
                  && file.pos == old(file.pos) + m)
  {
    hide AesdDev.Valid, Dev.ReadAt, Dev.Visible, InRange, Allocatable;
    ghost var start := file.pos;
    ghost var offer := From(dev.model, start);
    totalRead, overran := 0, false;
    var i, numRead := 0, 1;
    while numRead > 0
      invariant dev.Valid() && 0 <= i
      invariant numRead == 1 ==>
        && i == totalRead <= readbuf.Length && i <= ReadBytes(offer, interrupted)
        && file.pos == start + i
        && readbuf[..i] == offer[..i]
      invariant numRead != 1 ==>
        && numRead == -1 && Cut(offer, interrupted)
        && i == ReadBytes(offer, interrupted) + 1 && totalRead == i - 2
        && i - 1 <= readbuf.Length && file.pos == start + i - 1
        && readbuf[..i - 1] == offer[..i - 1]
      decreases numRead, |dev.model.Visible()| - file.pos
    {
      SmallDeviceInRange(dev.model, file.pos);
      ReadsTheStream(dev.model, file.pos);
      var ret, delivered := dev.Read(file, 1, READ_OK.(lockOk := interrupted != Some(i)));
      numRead := if ret.Count? then ret.n else -1;
      if numRead == 0 {
        break;
      }
      if numRead > 0 {
        if i >= readbuf.Length {
          overran := true;
          return;
        }
        readbuf[i] := delivered.value.b;
      }
      totalRead := totalRead + numRead;
      i := i + 1;
    }
  }

  /** What a write leaves visible is bounded by what was there, what was staged and the data. */
  lemma WriteVisible(d: Dev, data: seq<byte>, env: Env, fill: seq<byte>)
    requires |fill| == d.staging.Stale()
    ensures |d.Write(data, env, fill).0.Visible()| <= |d.Visible()| + d.staging.Size() + |data|
  {
    hide Dev.Visible;
    var after := d.Write(data, env, fill).0;
    if after.log != d.log {
      CommitVisible(d, after.log[|d.log|]);
    } else {
      SameVisible(d, after);
    }
  }

  lemma SameVisible(d: Dev, after: Dev)
    requires after.log == d.log
    ensures after.Visible() == d.Visible()
  {
  }

  /** The end of connection_thread: find the position, drain and send. */
  method Reply(dev: AesdDev, file: File, faults: Faults) returns (outcome: Outcome)
    requires dev.Valid() && Small(dev.model) && file.pos < TWO_31
    modifies file
    ensures outcome == Answer(From(dev.model, old(file.pos)), faults)
    ensures EndsIn(From(dev.model, old(file.pos)), faults, outcome)
  {
    hide AesdDev.Valid, Dev.Visible, EndsIn;
    AnswerEndsIn(From(dev.model, file.pos), faults);
    var at := file.pos;
    var position := dev.Llseek(file, _ => Some(at), faults.positionOk);
    if position.Fail? {
      return Exited;
    }
    var readbuf := new byte[READBUF_SIZE](_ => 0);
    ghost var offer := From(dev.model, at);
    var totalRead, overran := Drain(dev, file, readbuf, faults.interrupted);
    if overran {
      return Overran;
    }
    if totalRead < 0 {
      return BadLength;
    }
    if !faults.sendOk {
      return GaveUp;
    }
    ghost var m := ReadBytes(offer, faults.interrupted);
    assert readbuf[..totalRead] == readbuf[..m][..totalRead] == offer[..totalRead];
    assert !Cut(offer, faults.interrupted) ==> offer[..m] == offer;
    outcome := Responded(readbuf[..totalRead]);
  }

  /** connection_thread between taking and releasing the mutex. */
  method ConnectionThread(dev: AesdDev, req: Request, faults: Faults) returns (outcome: Outcome, ghost fill: seq<byte>)
    requires dev.Valid()
    requires |dev.model.Visible()| + dev.model.staging.Size() + (if req.Packet? then |req.bytes| else 0) < TWO_31
    modifies dev, dev.ring, dev.ring.entry, dev.heap
    ensures dev.Valid()
    ensures |fill| == old(dev.model).staging.Stale()
    ensures (dev.model, outcome) == Serve(old(dev.model), req, faults, fill)
    ensures Transacts(old(dev.model), req, faults, dev.model, outcome)
  {
    hide AesdDev.Valid, Dev.Visible, Dev.SeekTarget, Dev.Write, Answer, From, Transacts, EndsIn;
    ghost var before := dev.model;
    fill := seq(before.staging.Stale(), _ => 0);
    if !faults.openOk {
      outcome := Exited;
    } else {
      var file := new File();
      match req {
        case SeekTo(writeCmd, writeCmdOffset) =>
          SeekTargetInside(before, writeCmd, writeCmdOffset);
          var ret := dev.AdjustFileOffset(file, writeCmd, writeCmdOffset, faults.seekLockOk);
          if ret != Count(0) {
            outcome := Exited;
          } else {
            outcome := Reply(dev, file, faults);
          }
        case Packet(bytes) =>
          var ret;
          ret, fill := dev.Write(file, bytes, faults.write);
          WriteVisible(before, bytes, faults.write, fill);
          if ret.Fail? {
            outcome := GaveUp;
          } else {
            ret := dev.Llseek(file, _ => Some(0), faults.rewindOk);
            outcome := Reply(dev, file, faults);
          }
      }
    }
    ServeTransacts(before, req, faults, fill);
  }

  lemma SeekTargetInside(d: Dev, w: nat, o: nat)
    ensures d.SeekTarget(w, o).Some? ==> d.SeekTarget(w, o).value < |d.Visible()|
  {
    SeekBijection(d);
  }
}
