/**
 What the interleaved server leaves on the device, in bytes, and what one thread does when it runs
 on its own.
 */
module ServerRuns {
  import opened Bytes
  import opened Search
  import opened DeviceModel
  import opened Server
  import opened Connections

  // ---------------------------------------------------------------- the bytes on the device

  /** The bytes of the first n served packets, joined in the order they were served. */
  function PacketBytes(served: seq<Served>, n: nat): seq<byte>
    requires n <= |served|
  {
    if n == 0 then [] else PacketBytes(served, n - 1) + BytesOf(served[n - 1].req)
  }

  function BytesOf(req: Request): seq<byte> {
    match req case Packet(bytes) => bytes case SeekTo(_, _) => []
  }

  /** How many of them hold a newline. */
  function Terminated(served: seq<Served>, n: nat): nat
    requires n <= |served|
  {
    if n == 0 then 0 else Terminated(served, n - 1) + (if NEWLINE in BytesOf(served[n - 1].req) then 1 else 0)
  }

  /** Every served packet is on the device, once and in order, with one more command for each that ends one. */
  predicate HoldsServed(d: Dev, s: State) {
    && s.dev.staging.Clean()
    && s.dev.AllBytes() == d.AllBytes() + PacketBytes(s.served, |s.served|)
    && d.log <= s.dev.log
    && |s.dev.log| == |d.log| + Terminated(s.served, |s.served|)
    && (Framed(d) ==> Framed(s.dev))
  }

  predicate NoneDead(s: State) {
    forall t :: 0 <= t < |s.threads| ==> !s.threads[t].Dead?
  }

  lemma {:induction false} PacketBytesPush(served: seq<Served>, x: Served, n: nat)
    requires n <= |served|
    ensures PacketBytes(served + [x], n) == PacketBytes(served, n)
    ensures Terminated(served + [x], n) == Terminated(served, n)
  {
    if n > 0 {
      PacketBytesPush(served, x, n - 1);
    }
  }

  lemma PacketBytesAll(served: seq<Served>, x: Served)
    ensures PacketBytes(served + [x], |served| + 1) == PacketBytes(served, |served|) + BytesOf(x.req)
    ensures Terminated(served + [x], |served| + 1)
         == Terminated(served, |served|) + (if NEWLINE in BytesOf(x.req) then 1 else 0)
  {
    PacketBytesPush(served, x, |served|);
  }

  /** A packet's write adds its bytes and nothing else. */
  lemma EffectAdds(d: Dev, req: Request)
    requires d.staging.Clean()
    ensures var after := Effect(d, req);
            && after.staging.Clean()
            && after.AllBytes() == d.AllBytes() + BytesOf(req)
            && d.log <= after.log
            && |after.log| == |d.log| + (if NEWLINE in BytesOf(req) then 1 else 0)
            && (Framed(d) ==> Framed(after))
  {
    hide Framed, Dev.AllBytes;
    if req.Packet? {
      WriteConserves(d, req.bytes, ALL_OK);
      if Framed(d) {
        WriteKeepsFraming(d, req.bytes, ALL_OK);
      }
    } else {
      assert d.AllBytes() + [] == d.AllBytes();
    }
  }

  lemma StepHoldsServed(d: Dev, s: State, tid: nat, c: Choice, s': State)
    requires tid < |s.threads| && Next(s, tid, c) == Some(s')
    requires NoneDead(s')
    ensures NoneDead(s)
    ensures HoldsServed(d, s) ==> HoldsServed(d, s')
  {
    hide Effect, StartOf, Dev.ReadAt, Dev.Write, Small, Receivable, HoldsServed;
    assert forall t :: 0 <= t < |s.threads| && t != tid ==> s'.threads[t] == s.threads[t];
    assert !s'.threads[tid].Dead?;
    if HoldsServed(d, s) {
      if s.threads[tid].Opened? && c.Proceed? {
        TakeEffectHolds(d, s, tid, s.threads[tid].req, s');
      } else {
        SameHolds(d, s, s');
      }
    }
  }

  lemma SameHolds(d: Dev, s: State, s': State)
    requires s'.dev == s.dev && s'.served == s.served
    ensures HoldsServed(d, s) ==> HoldsServed(d, s')
  {
  }

  lemma TakeEffectHolds(d: Dev, s: State, tid: nat, req: Request, s': State)
    requires tid < |s.threads| && TakeEffect(s, tid, req) == Some(s') && HoldsServed(d, s)
    ensures HoldsServed(d, s')
  {
    hide Effect, StartOf, Small, Framed, Dev.AllBytes;
    if !s'.exited || s.exited || req.Packet? {
      PacketBytesAll(s.served, Served(tid, req));
      EffectAdds(s.dev, req);
      EffectCases(s.dev, req);
      var x, y, z := d.AllBytes(), PacketBytes(s.served, |s.served|), BytesOf(req);
      assert (x + y) + z == x + (y + z);
    }
  }

  /**
   What the server leaves on the device: in every run in which no thread died, everything the
   device holds is what it held before and the bytes of the served packets, each once, in the order
   the threads took the mutex; earlier commands stay, each packet with a newline makes one more,
   and nothing staged holds one.
   */
  lemma {:induction false} ServedBytesOnDevice(d: Dev, n: nat, states: seq<State>, steps: seq<(nat, Choice)>)
    requires d.staging.Clean()
    requires IsRun(states, steps) && states[0] == Initial(d, n)
    requires NoneDead(states[|steps|])
    ensures HoldsServed(d, states[|steps|])
    decreases |steps|
  {
    if |steps| == 0 {
      assert d.AllBytes() + [] == d.AllBytes();
    } else {
      hide Next, HoldsServed, NoneDead;
      var last := |steps| - 1;
      StepHoldsServed(d, states[last], steps[last].0, steps[last].1, states[|steps|]);
      ServedBytesOnDevice(d, n, states[..|steps|], steps[..last]);
    }
  }

  // ---------------------------------------------------------------- what served and acquired record

  /** The thread was handed this request by recv during the run. */
  ghost predicate WasReceived(steps: seq<(nat, Choice)>, tid: nat, req: Request) {
    exists i :: 0 <= i < |steps| && steps[i] == (tid, Recv(req))
  }

  ghost predicate RequestsReceived(s: State, steps: seq<(nat, Choice)>) {
    && (forall i :: 0 <= i < |s.served| ==> WasReceived(steps, s.served[i].tid, s.served[i].req))
    && (forall t :: 0 <= t < |s.threads| && (s.threads[t].Received? || s.threads[t].Opened?) ==>
          WasReceived(steps, t, s.threads[t].req))
  }

  lemma ReceivedStays(steps: seq<(nat, Choice)>, step: (nat, Choice), tid: nat, req: Request)
    ensures WasReceived(steps, tid, req) ==> WasReceived(steps + [step], tid, req)
    ensures step == (tid, Recv(req)) ==> WasReceived(steps + [step], tid, req)
  {
    var all := steps + [step];
    assert all[|steps|] == step;
    if WasReceived(steps, tid, req) {
      var i :| 0 <= i < |steps| && steps[i] == (tid, Recv(req));
      assert all[i] == (tid, Recv(req));
    }
  }

  lemma StepReceived(s: State, steps: seq<(nat, Choice)>, tid: nat, c: Choice, s': State)
    requires tid < |s.threads| && Next(s, tid, c) == Some(s')
    requires RequestsReceived(s, steps)
    ensures RequestsReceived(s', steps + [(tid, c)])
  {
    hide Effect, StartOf, Dev.ReadAt, Dev.Write, Small, Receivable, WasReceived;
    forall t, req {
      ReceivedStays(steps, (tid, c), t, req);
    }
  }

  /** The threads that took the mutex when it was free, in the order of the run. */
  function Lockers(states: seq<State>, steps: seq<(nat, Choice)>): seq<nat>
    requires |states| == |steps| + 1
  {
    if |steps| == 0 then []
    else
      var last := |steps| - 1;
      Lockers(states[..|steps|], steps[..last])
      + if states[last].mutex.None? && states[|steps|].mutex.Some? then [steps[last].0] else []
  }

  lemma StepLocks(s: State, tid: nat, c: Choice, s': State)
    requires tid < |s.threads| && Next(s, tid, c) == Some(s')
    ensures s'.acquired == s.acquired + if s.mutex.None? && s'.mutex.Some? then [tid] else []
  {
    hide Effect, StartOf, Dev.ReadAt, Dev.Write, Small, Receivable;
  }

  /**
   The served list is not an invention of the model: each request in it was received by its
   thread, and the list it follows is that of the threads in the order they took the free mutex.
   */
  lemma {:induction false} ServedWereReceived(d: Dev, n: nat, states: seq<State>, steps: seq<(nat, Choice)>)
    requires IsRun(states, steps) && states[0] == Initial(d, n)
    ensures RequestsReceived(states[|steps|], steps)
    ensures states[|steps|].acquired == Lockers(states, steps)
    decreases |steps|
  {
    if |steps| > 0 {
      hide Next, RequestsReceived;
      var last := |steps| - 1;
      ServedWereReceived(d, n, states[..|steps|], steps[..last]);
      StepReceived(states[last], steps[..last], steps[last].0, steps[last].1, states[|steps|]);
      assert steps[..last] + [(steps[last].0, steps[last].1)] == steps;
      StepLocks(states[last], steps[last].0, steps[last].1, states[|steps|]);
    }
  }

  // ---------------------------------------------------------------- one thread on its own

  /** The thread taking these steps one after another, with no other thread moving. */
  function Solo(s: State, tid: nat, choices: seq<Choice>): Option<State>
    requires tid < |s.threads|
    decreases |choices|
  {
    if |choices| == 0 then Some(s)
    else
      match Next(s, tid, choices[0])
      case None => None
      case Some(next) => Solo(next, tid, choices[1..])
  }

  lemma SoloFirst(s: State, tid: nat, c: Choice, next: State, rest: seq<Choice>)
    requires tid < |s.threads| && Next(s, tid, c) == Some(next)
    ensures Solo(s, tid, [c] + rest) == Solo(next, tid, rest)
  {
    assert ([c] + rest)[1..] == rest;
  }

  /** The state a thread that has ended so is left in: only a response that is sent frees the mutex. */
  predicate EndedAs(s: State, tid: nat, outcome: Outcome)
    requires tid < |s.threads|
  {
    match outcome
    case Exited => s.exited
    case GaveUp => !s.exited && s.threads[tid].Dead? && s.mutex == Some(tid)
    case Overran => !s.exited && s.threads[tid].Overrun? && s.mutex == Some(tid)
    case BadLength => !s.exited && s.threads[tid].BadSend? && s.mutex == Some(tid)
    case Responded(bytes) => !s.exited && s.threads[tid].Done? && s.threads[tid].buf == bytes && s.mutex == None
  }

  /** A thread's steps can end with this device and this outcome. */
  ghost predicate CanEnd(s: State, tid: nat, dev: Dev, outcome: Outcome)
    requires tid < |s.threads|
  {
    exists choices :: EndsBy(s, tid, choices, dev, outcome)
  }

  predicate EndsBy(s: State, tid: nat, choices: seq<Choice>, dev: Dev, outcome: Outcome)
    requires tid < |s.threads|
  {
    match Solo(s, tid, choices)
    case None => false
    case Some(end) => |end.threads| == |s.threads| && end.dev == dev && EndedAs(end, tid, outcome)
  }

  /** One step on the way. */
  lemma CanEndAfter(s: State, tid: nat, c: Choice, next: State, dev: Dev, outcome: Outcome)
    requires tid < |s.threads| && Next(s, tid, c) == Some(next)
    requires CanEnd(next, tid, dev, outcome)
    ensures CanEnd(s, tid, dev, outcome)
  {
    hide Next, EndedAs;
    var rest :| EndsBy(next, tid, rest, dev, outcome);
    SoloFirst(s, tid, c, next, rest);
    assert EndsBy(s, tid, [c] + rest, dev, outcome);
  }

  lemma HasEnded(s: State, tid: nat, outcome: Outcome)
    requires tid < |s.threads| && EndedAs(s, tid, outcome)
    ensures CanEnd(s, tid, s.dev, outcome)
  {
    assert EndsBy(s, tid, [], s.dev, outcome);
  }

  /** From the send on. */
  lemma SendingEnds(s: State, tid: nat, sendOk: bool)
    requires tid < |s.threads| && !s.exited && s.mutex == Some(tid) && s.threads[tid].Sending?
    ensures CanEnd(s, tid, s.dev, if sendOk then Responded(s.threads[tid].buf) else GaveUp)
  {
    hide CanEnd;
    var Sending(at, rewound, whole, buf) := s.threads[tid];
    if sendOk {
      var sent := Moved(s, tid, Sent(at, rewound, whole, buf));
      var done := Moved(sent, tid, Done(at, rewound, whole, buf)).(mutex := None);
      HasEnded(done, tid, Responded(buf));
      CanEndAfter(sent, tid, Proceed, done, s.dev, Responded(buf));
      CanEndAfter(s, tid, Proceed, sent, s.dev, Responded(buf));
    } else {
      var dead := Moved(s, tid, Dead);
      HasEnded(dead, tid, GaveUp);
      CanEndAfter(s, tid, Fails, dead, s.dev, GaveUp);
    }
  }

  /** The drain loop, with buf read so far and no failed read among those. */
  lemma {:induction false} DrainingEnds(s: State, tid: nat, faults: Faults)
    requires tid < |s.threads| && !s.exited && s.mutex == Some(tid) && s.threads[tid].Draining?
    requires Small(s.dev) && s.threads[tid].pos < TWO_31 && |s.threads[tid].buf| <= READBUF_SIZE
    requires faults.positionOk && (faults.interrupted.Some? ==> faults.interrupted.value >= |s.threads[tid].buf|)
    ensures CanEnd(s, tid, s.dev, Answer(s.threads[tid].buf + From(s.dev, s.threads[tid].pos), faults))
    decreases |From(s.dev, s.threads[tid].pos)|
  {
    hide CanEnd, From, Small, Dev.ReadAt;
    var Draining(at, pos, rewound, buf) := s.threads[tid];
    var rest := From(s.dev, pos);
    FromSplit(s.dev, pos);
    if faults.interrupted == Some(|buf|) {
      if buf == [] {
        var bad := Moved(s, tid, BadSend);
        HasEnded(bad, tid, BadLength);
        CanEndAfter(s, tid, Fails, bad, s.dev, BadLength);
      } else {
        var sending := Moved(s, tid, Sending(at, rewound, false, buf[..|buf| - 1]));
        SendingEnds(sending, tid, faults.sendOk);
        assert (buf + rest)[..|buf| - 1] == buf[..|buf| - 1];
        CanEndAfter(s, tid, Fails, sending, s.dev, Answer(buf + rest, faults));
      }
    } else if rest == [] {
      assert buf + rest == buf;
      var sending := Moved(s, tid, Sending(at, rewound, true, buf));
      SendingEnds(sending, tid, faults.sendOk);
      CanEndAfter(s, tid, Proceed, sending, s.dev, Answer(buf, faults));
    } else if |buf| == READBUF_SIZE {
      var overrun := Moved(s, tid, Overrun(at, rewound));
      HasEnded(overrun, tid, Overran);
      CanEndAfter(s, tid, Proceed, overrun, s.dev, Overran);
    } else {
      var next := Moved(s, tid, Draining(at, pos + 1, rewound, buf + [rest[0]]));
      assert buf + rest == (buf + [rest[0]]) + From(s.dev, pos + 1);
      DrainingEnds(next, tid, faults);
      CanEndAfter(s, tid, Proceed, next, s.dev, Answer(buf + rest, faults));
    }
  }

  lemma PositionedEnds(s: State, tid: nat, faults: Faults)
    requires tid < |s.threads| && !s.exited && s.mutex == Some(tid) && s.threads[tid].Positioned?
    requires Small(s.dev) && s.threads[tid].pos < TWO_31
    ensures CanEnd(s, tid, s.dev, Answer(From(s.dev, s.threads[tid].pos), faults))
  {
    hide CanEnd, From, Small;
    var Positioned(at, pos, rewound) := s.threads[tid];
    if faults.positionOk {
      var draining := Moved(s, tid, Draining(at, pos, rewound, []));
      DrainingEnds(draining, tid, faults);
      assert [] + From(s.dev, pos) == From(s.dev, pos);
      CanEndAfter(s, tid, Proceed, draining, s.dev, Answer(From(s.dev, pos), faults));
    } else {
      HasEnded(s.(exited := true), tid, Exited);
      CanEndAfter(s, tid, Fails, s.(exited := true), s.dev, Exited);
    }
  }

  lemma WrittenEnds(s: State, tid: nat, faults: Faults)
    requires tid < |s.threads| && !s.exited && s.mutex == Some(tid) && s.threads[tid].Written?
    requires Small(s.dev) && s.threads[tid].pos < TWO_31
    ensures CanEnd(s, tid, s.dev,
                   Answer(From(s.dev, if faults.rewindOk then 0 else s.threads[tid].pos), faults))
  {
    hide CanEnd, From, Small, Answer;
    var Written(at, pos) := s.threads[tid];
    var next := Moved(s, tid, Positioned(at, if faults.rewindOk then 0 else pos, faults.rewindOk));
    PositionedEnds(next, tid, faults);
    CanEndAfter(s, tid, if faults.rewindOk then Proceed else Fails, next, s.dev,
                Answer(From(s.dev, next.threads[tid].pos), faults));
  }

  lemma OpenedEnds(s: State, tid: nat, faults: Faults)
    requires tid < |s.threads| && !s.exited && s.mutex == Some(tid) && s.threads[tid].Opened? && faults.openOk
    requires s.dev.staging.Clean() && Small(s.dev)
    requires var req := s.threads[tid].req; Receivable(req) && Small(Effect(s.dev, req))
    ensures var (dev, outcome) := Serve(s.dev, s.threads[tid].req, faults, []); CanEnd(s, tid, dev, outcome)
  {
    hide CanEnd, From, Answer, Dev.Write, Dev.SeekTarget, Dev.Visible, Small, Staging.Clean;
    var req := s.threads[tid].req;
    var (dev, outcome) := Serve(s.dev, req, faults, []);
    RequestCases(s.dev, req, faults.write);
    match req {
      case SeekTo(w, o) =>
        if s.dev.SeekTarget(w, o).Some? && faults.seekLockOk {
          SmallSeek(s.dev, w, o);
          var next := TakeEffect(s, tid, req).value;
          PositionedEnds(next, tid, faults);
          CanEndAfter(s, tid, Proceed, next, dev, outcome);
        } else {
          HasEnded(s.(exited := true), tid, Exited);
          CanEndAfter(s, tid, Fails, s.(exited := true), s.dev, Exited);
        }
      case Packet(bytes) =>
        if s.dev.Write(bytes, faults.write, []).1.Fail? {
          var dead := Moved(s, tid, Dead).(dev := dev);
          HasEnded(dead, tid, GaveUp);
          CanEndAfter(s, tid, WriteFails(faults.write, []), dead, dev, GaveUp);
        } else {
          var next := TakeEffect(s, tid, req).value;
          WrittenEnds(next, tid, faults);
          CanEndAfter(s, tid, Proceed, next, dev, outcome);
        }
    }
  }

  lemma SmallSeek(d: Dev, w: nat, o: nat)
    requires Small(d) && d.SeekTarget(w, o).Some?
    ensures d.SeekTarget(w, o).value < TWO_31
  {
    SeekTargetInside(d, w, o);
  }

  lemma ReceivedEnds(s: State, tid: nat, faults: Faults)
    requires tid < |s.threads| && !s.exited && s.mutex == Some(tid) && s.threads[tid].Received?
    requires s.dev.staging.Clean() && Small(s.dev)
    requires var req := s.threads[tid].req; Receivable(req) && Small(Effect(s.dev, req))
    ensures var (dev, outcome) := Serve(s.dev, s.threads[tid].req, faults, []); CanEnd(s, tid, dev, outcome)
  {
    hide CanEnd, Answer, Small, Effect, Dev.Write, Staging.Clean;
    var req := s.threads[tid].req;
    if faults.openOk {
      var next := Moved(s, tid, Opened(req));
      OpenedEnds(next, tid, faults);
      var (dev, outcome) := Serve(s.dev, req, faults, []);
      CanEndAfter(s, tid, Proceed, next, dev, outcome);
    } else {
      HasEnded(s.(exited := true), tid, Exited);
      CanEndAfter(s, tid, Fails, s.(exited := true), s.dev, Exited);
    }
  }

  lemma LockedEnds(s: State, tid: nat, req: Request, faults: Faults)
    requires tid < |s.threads| && !s.exited && s.mutex == Some(tid) && s.threads[tid].Locked?
    requires s.dev.staging.Clean() && Small(s.dev) && Receivable(req) && Small(Effect(s.dev, req))
    ensures var (dev, outcome) := Serve(s.dev, req, faults, []); CanEnd(s, tid, dev, outcome)
  {
    hide CanEnd, Serve, Small, Effect, Staging.Clean;
    var (dev, outcome) := Serve(s.dev, req, faults, []);
    var received := Moved(s, tid, Received(req));
    ReceivedEnds(received, tid, faults);
    CanEndAfter(s, tid, Recv(req), received, dev, outcome);
  }

  /**
   A waiting thread that runs alone once the mutex is free can do exactly what a transaction does,
   for every request and every way its calls can go: it leaves that device and ends that way.
   */
  lemma SoloTransacts(s: State, tid: nat, req: Request, faults: Faults)
    requires tid < |s.threads| && !s.exited && s.mutex == None && s.threads[tid].Waiting?
    requires s.dev.staging.Clean() && Small(s.dev) && Receivable(req) && Small(Effect(s.dev, req))
    ensures var (dev, outcome) := Serve(s.dev, req, faults, []);
            CanEnd(s, tid, dev, outcome) && Transacts(s.dev, req, faults, dev, outcome)
  {
    hide CanEnd, Serve, Small, Effect, Staging.Clean, Transacts;
    var (dev, outcome) := Serve(s.dev, req, faults, []);
    CleanMeans(s.dev.staging);
    ServeTransacts(s.dev, req, faults, []);
    var locked := Moved(s, tid, Locked).(mutex := Some(tid), acquired := s.acquired + [tid]);
    LockedEnds(locked, tid, req, faults);
    CanEndAfter(s, tid, Proceed, locked, dev, outcome);
  }

  lemma CleanMeans(staging: Staging)
    requires staging.Clean()
    ensures staging.Stale() == 0
  {
  }

  // ---------------------------------------------------------------- a live holder can finish

  const NO_FAULTS: Faults := Faults(true, ALL_OK, true, true, true, None, true)

  /** The request's response fits readbuf. */
  predicate Fits(d: Dev, req: Request) {
    Receivable(req) && Small(Effect(d, req)) && Respond(d, req).Some? && |Respond(d, req).value| <= READBUF_SIZE
  }

  /** What is left for the mutex holder to do fits; req is what it receives if it has not yet. */
  predicate HolderFits(s: State, tid: nat, req: Request)
    requires tid < |s.threads|
  {
    match s.threads[tid]
    case Locked => Fits(s.dev, req)
    case Received(r) => Fits(s.dev, r)
    case Opened(r) => Fits(s.dev, r)
    case Written(_, _) => |From(s.dev, 0)| <= READBUF_SIZE
    case Positioned(_, pos, _) => |From(s.dev, pos)| <= READBUF_SIZE
    case Draining(_, pos, _, buf) => |buf| + |From(s.dev, pos)| <= READBUF_SIZE
    case _ => true
  }

  ghost predicate CanFinish(s: State, tid: nat)
    requires tid < |s.threads|
  {
    exists dev, bytes :: CanEnd(s, tid, dev, Responded(bytes))
  }

  lemma FaultlessServe(d: Dev, req: Request)
    requires d.staging.Clean() && Fits(d, req)
    ensures Serve(d, req, NO_FAULTS, []) == (Effect(d, req), Responded(Respond(d, req).value))
  {
    hide Dev.Visible, Dev.SeekTarget;
  }

  lemma FaultlessAnswer(offer: seq<byte>)
    requires |offer| <= READBUF_SIZE
    ensures Answer(offer, NO_FAULTS) == Responded(offer)
  {
  }

  /**
   In every reachable state, a mutex holder that has not left, and whose response fits, can run on
   its own to the end: it sends, releases the mutex and is done.
   */
  lemma HolderCanFinish(d: Dev, n: nat, states: seq<State>, steps: seq<(nat, Choice)>, tid: nat, req: Request)
    requires d.staging.Clean() && Small(d)
    requires IsRun(states, steps) && states[0] == Initial(d, n) && tid < n
    requires var s := states[|steps|];
             && |s.threads| == n && !s.exited
             && InCritical(s.threads[tid]) && !Stuck(s.threads[tid]) && HolderFits(s, tid, req)
    ensures CanFinish(states[|steps|], tid)
  {
    RunKeeps(d, n, states, steps);
    LiveHolderFinishes(d, states[|steps|], tid, req);
  }

  lemma LiveHolderFinishes(d: Dev, s: State, tid: nat, req: Request)
    requires Inv(d, s) && tid < |s.threads| && !s.exited
    requires InCritical(s.threads[tid]) && !Stuck(s.threads[tid]) && HolderFits(s, tid, req)
    ensures CanFinish(s, tid)
  {
    hide CanEnd, Serve, Small, Effect, Staging.Clean, Answer, From, Respond, InMutexOrder, OncePerThread, SerialOffer;
    assert ThreadRight(d, s, tid) && s.mutex == Some(tid);
    match s.threads[tid] {
      case Locked =>
        FaultlessServe(s.dev, req);
        LockedEnds(s, tid, req, NO_FAULTS);
      case Received(r) =>
        FaultlessServe(s.dev, r);
        ReceivedEnds(s, tid, NO_FAULTS);
      case Opened(r) =>
        FaultlessServe(s.dev, r);
        OpenedEnds(s, tid, NO_FAULTS);
      case Written(_, _) =>
        FaultlessAnswer(From(s.dev, 0));
        WrittenEnds(s, tid, NO_FAULTS);
      case Positioned(_, pos, _) =>
        FaultlessAnswer(From(s.dev, pos));
        PositionedEnds(s, tid, NO_FAULTS);
      case Draining(_, pos, _, buf) =>
        FaultlessAnswer(buf + From(s.dev, pos));
        DrainingEnds(s, tid, NO_FAULTS);
      case Sending(_, _, _, _) => SendingEnds(s, tid, true);
      case Sent(at, rewound, whole, buf) =>
        var done := Moved(s, tid, Done(at, rewound, whole, buf)).(mutex := None);
        HasEnded(done, tid, Responded(buf));
        CanEndAfter(s, tid, Proceed, done, s.dev, Responded(buf));
      case _ =>
    }
  }
}
