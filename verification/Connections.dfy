/**
 Connection threads taking steps in any order.  Each holds a program counter; the server's mutex
 is the only thing that orders them.  A failure exit does not release it.
 */
module Connections {
  import opened Bytes
  import opened Search
  import opened DeviceModel
  import opened Interleaving
  import opened Seek
  import opened Server

  /**
   Where a thread is in connection_thread.  at is the index of its request in the served list, pos
   its file's position, buf what it has read back; rewound says that its rewind did not fail,
   whole that no read failed.  Dead, Overrun and BadSend have left without releasing the mutex,
   the last two in ways C does not define further.
   */
  datatype Thread =
    | Waiting
    | Locked
    | Received(req: Request)
    | Opened(req: Request)
    | Written(at: nat, pos: nat)
    | Positioned(at: nat, pos: nat, rewound: bool)
    | Draining(at: nat, pos: nat, rewound: bool, buf: seq<byte>)
    | Sending(at: nat, rewound: bool, whole: bool, buf: seq<byte>)
    | Sent(at: nat, rewound: bool, whole: bool, buf: seq<byte>)
    | Done(at: nat, rewound: bool, whole: bool, buf: seq<byte>)
    | Dead
    | Overrun(at: nat, rewound: bool)
    | BadSend

  /** A request that took effect, and the thread that made it. */
  datatype Served = Served(tid: nat, req: Request)

  /** acquired lists the threads in the order they took the mutex; exited is the whole process gone. */
  datatype State = State(dev: Dev, mutex: Option<nat>, threads: seq<Thread>, exited: bool,
                         acquired: seq<nat>, served: seq<Served>)

  /** What the network and the kernel do at a step: Fails is the failure of the call about to be made. */
  datatype Choice = Proceed | Fails | Recv(req: Request) | WriteFails(env: Env, fill: seq<byte>)

  function Initial(d: Dev, n: nat): State {
    State(d, None, seq(n, _ => Waiting), false, [], [])
  }

  function Moved(s: State, tid: nat, thread: Thread): State
    requires tid < |s.threads|
  {
    s.(threads := s.threads[tid := thread])
  }

  /** The write of a packet, or the ioctl of a seek, going through. */
  function TakeEffect(s: State, tid: nat, req: Request): Option<State>
    requires tid < |s.threads|
  {
    var served := s.served + [Served(tid, req)];
    match req
    case Packet(bytes) =>
      if !Small(Effect(s.dev, req)) then None
      else Some(Moved(s, tid, Written(|s.served|, |bytes|)).(dev := Effect(s.dev, req), served := served))
    case SeekTo(_, _) =>
      match StartOf(s.dev, req, true)
      case None => Some(s.(exited := true))
      case Some(p) => Some(Moved(s, tid, Positioned(|s.served|, p, true)).(served := served))
  }

  /** One one-byte read of the drain loop. */
  function ReadOne(s: State, tid: nat, at: nat, pos: nat, rewound: bool, buf: seq<byte>): State
    requires tid < |s.threads|
  {
    match s.dev.ReadAt(pos)
    case Eof => Moved(s, tid, Sending(at, rewound, true, buf))
    case Byte(b) =>
      if |buf| < READBUF_SIZE then Moved(s, tid, Draining(at, pos + 1, rewound, buf + [b]))
      else Moved(s, tid, Overrun(at, rewound))
    case Stray => Moved(s, tid, Overrun(at, rewound))
  }

  /** One step of one thread; None when it cannot take that step. */
  function Next(s: State, tid: nat, c: Choice): (r: Option<State>)
    requires tid < |s.threads|
    ensures r.Some? ==> |r.value.threads| == |s.threads|
    ensures r.Some? ==> forall t :: 0 <= t < |s.threads| && t != tid ==> r.value.threads[t] == s.threads[t]
  {
    if s.exited then None
    else match (s.threads[tid], c)
      case (Waiting, Proceed) =>
        if s.mutex.Some? then None
        else Some(Moved(s, tid, Locked).(mutex := Some(tid), acquired := s.acquired + [tid]))
      case (Locked, Recv(req)) => if Receivable(req) then Some(Moved(s, tid, Received(req))) else None
      case (Locked, Fails) => Some(Moved(s, tid, Dead))
      case (Received(req), Proceed) => Some(Moved(s, tid, Opened(req)))
      case (Received(_), Fails) => Some(s.(exited := true))
      case (Opened(req), Proceed) => TakeEffect(s, tid, req)
      case (Opened(req), Fails) => if req.SeekTo? then Some(s.(exited := true)) else None
      case (Opened(req), WriteFails(env, fill)) =>
        if req.SeekTo? then None
        else
          var (dev, ret) := s.dev.Write(req.bytes, env, fill);
          if ret.Count? then None else Some(Moved(s, tid, Dead).(dev := dev))
      case (Written(at, _), Proceed) => Some(Moved(s, tid, Positioned(at, 0, true)))
      case (Written(at, pos), Fails) => Some(Moved(s, tid, Positioned(at, pos, false)))
      case (Positioned(at, pos, rewound), Proceed) => Some(Moved(s, tid, Draining(at, pos, rewound, [])))
      case (Positioned(_, _, _), Fails) => Some(s.(exited := true))
      case (Draining(at, pos, rewound, buf), Proceed) => Some(ReadOne(s, tid, at, pos, rewound, buf))
      case (Draining(at, _, rewound, buf), Fails) =>
        if buf == [] then Some(Moved(s, tid, BadSend))
        else Some(Moved(s, tid, Sending(at, rewound, false, buf[..|buf| - 1])))
      case (Sending(at, rewound, whole, buf), Proceed) => Some(Moved(s, tid, Sent(at, rewound, whole, buf)))
      case (Sending(_, _, _, _), Fails) => Some(Moved(s, tid, Dead))
      case (Sent(at, rewound, whole, buf), Proceed) =>
        Some(Moved(s, tid, Done(at, rewound, whole, buf)).(mutex := None))
      case _ => None
  }

  /** A run: consecutive states linked by steps of any threads with any choices. */
  predicate IsRun(states: seq<State>, steps: seq<(nat, Choice)>) {
    && |states| == |steps| + 1
    && forall i :: 0 <= i < |steps| ==>
         steps[i].0 < |states[i].threads| && Next(states[i], steps[i].0, steps[i].1) == Some(states[i + 1])
  }

  // ---------------------------------------------------------------- the serial execution

  /** The device after the first n requests, one at a time. */
  function Serial(d: Dev, served: seq<Served>, n: nat): Dev
    requires n <= |served|
  {
    if n == 0 then d else Effect(Serial(d, served, n - 1), served[n - 1].req)
  }

  /** What request i would read back if the requests were served one at a time in this order. */
  function SerialOffer(d: Dev, served: seq<Served>, i: nat, rewound: bool): Option<seq<byte>>
    requires i < |served|
  {
    Offer(Serial(d, served, i), served[i].req, rewound)
  }

  /** Its response, when its rewind works as it should. */
  function SerialResponse(d: Dev, served: seq<Served>, i: nat): Option<seq<byte>>
    requires i < |served|
  {
    SerialOffer(d, served, i, true)
  }

  lemma {:induction false} SerialPrefix(d: Dev, served: seq<Served>, more: seq<Served>, n: nat)
    requires n <= |served|
    ensures Serial(d, served + more, n) == Serial(d, served, n)
  {
    if n > 0 {
      SerialPrefix(d, served, more, n - 1);
    }
  }

  // ---------------------------------------------------------------- the invariant

  predicate InCritical(t: Thread) {
    !t.Waiting? && !t.Done?
  }

  /** The thread's request has not taken effect yet, and may not. */
  predicate BeforeEffect(t: Thread) {
    t.Locked? || t.Received? || t.Opened?
  }

  /** Only the mutex holder is inside the critical section. */
  predicate Exclusive(s: State) {
    && (s.mutex.Some? ==> s.mutex.value < |s.threads| && InCritical(s.threads[s.mutex.value]))
    && forall t :: 0 <= t < |s.threads| && InCritical(s.threads[t]) ==> s.mutex == Some(t)
  }

  /** The served list follows the mutex order; a holder whose request has no effect yet, or never will, is last. */
  predicate InMutexOrder(s: State) {
    && |s.served| <= |s.acquired| <= |s.served| + 1
    && (forall i :: 0 <= i < |s.served| ==> s.served[i].tid == s.acquired[i])
    && (|s.acquired| > |s.served| ==>
          s.mutex == Some(s.acquired[|s.served|]) && s.mutex.value < |s.threads|
          && (BeforeEffect(s.threads[s.mutex.value]) || s.threads[s.mutex.value].Dead?))
    && (s.mutex.Some? && s.mutex.value < |s.threads| && BeforeEffect(s.threads[s.mutex.value]) ==>
          |s.acquired| > |s.served|)
  }

  /** The device is what serving the list serially leaves, unless the holder's write failed part way. */
  predicate SerialDevice(d: Dev, s: State) {
    && s.dev.log == Serial(d, s.served, |s.served|).log
    && ((s.mutex.Some? && s.mutex.value < |s.threads| && s.threads[s.mutex.value].Dead?) ||
        (s.dev == Serial(d, s.served, |s.served|) && s.dev.staging.Clean() && Small(s.dev)))
    && forall i :: 0 <= i < |s.served| ==> Receivable(s.served[i].req)
  }

  /** The thread's request is the last one served. */
  predicate IsLast(s: State, tid: nat, at: nat) {
    at == |s.served| - 1 && s.served[at].tid == tid
  }

  /** What a thread has read so far is the start of what its request would read back serially. */
  predicate ThreadRight(d: Dev, s: State, tid: nat)
    requires tid < |s.threads|
  {
    match s.threads[tid]
    case Received(req) => Receivable(req)
    case Opened(req) => Receivable(req)
    case Written(at, pos) =>
      IsLast(s, tid, at) && s.served[at].req.Packet? && pos == |s.served[at].req.bytes| < TWO_31
    case Positioned(at, pos, rewound) =>
      && IsLast(s, tid, at) && (rewound || s.served[at].req.Packet?) && pos < TWO_31
      && SerialOffer(d, s.served, at, rewound) == Some(From(s.dev, pos))
    case Draining(at, pos, rewound, buf) =>
      && IsLast(s, tid, at) && (rewound || s.served[at].req.Packet?) && |buf| <= READBUF_SIZE && pos < TWO_31
      && SerialOffer(d, s.served, at, rewound) == Some(buf + From(s.dev, pos))
    case Sending(at, rewound, whole, buf) => Answered(d, s, tid, at, rewound, whole, buf)
    case Sent(at, rewound, whole, buf) => Answered(d, s, tid, at, rewound, whole, buf)
    case Done(at, rewound, whole, buf) => Answered(d, s, tid, at, rewound, whole, buf)
    case Overrun(at, rewound) =>
      && at < |s.served| && s.served[at].tid == tid
      && SerialOffer(d, s.served, at, rewound).Some? && |SerialOffer(d, s.served, at, rewound).value| > READBUF_SIZE
    case _ => true
  }

  /** The bytes to send are all of what is there to read back, or, after a failed read, a proper prefix. */
  predicate Answered(d: Dev, s: State, tid: nat, at: nat, rewound: bool, whole: bool, buf: seq<byte>) {
    && at < |s.served| && s.served[at].tid == tid && (rewound || s.served[at].req.Packet?)
    && |buf| <= READBUF_SIZE
    && SerialOffer(d, s.served, at, rewound).Some?
    && (if whole then buf == SerialOffer(d, s.served, at, rewound).value
        else buf < SerialOffer(d, s.served, at, rewound).value)
  }

  /** A thread takes the mutex at most once. */
  predicate OncePerThread(s: State) {
    && (forall i, j :: 0 <= i < j < |s.acquired| ==> s.acquired[i] != s.acquired[j])
    && (forall i :: 0 <= i < |s.acquired| ==> s.acquired[i] < |s.threads| && !s.threads[s.acquired[i]].Waiting?)
  }

  predicate Inv(d: Dev, s: State) {
    && Exclusive(s)
    && OncePerThread(s)
    && InMutexOrder(s)
    && SerialDevice(d, s)
    && forall t :: 0 <= t < |s.threads| ==> ThreadRight(d, s, t)
  }

  // ---------------------------------------------------------------- every step keeps it

  lemma StepExclusive(s: State, tid: nat, c: Choice, s': State)
    requires tid < |s.threads| && Next(s, tid, c) == Some(s')
    requires Exclusive(s)
    ensures Exclusive(s')
  {
    hide Effect, StartOf, Dev.ReadAt, Dev.Write, Small, Receivable;
  }

  lemma StepOnce(s: State, tid: nat, c: Choice, s': State)
    requires tid < |s.threads| && Next(s, tid, c) == Some(s')
    requires OncePerThread(s)
    ensures OncePerThread(s')
  {
    hide Effect, StartOf, Dev.ReadAt, Dev.Write, Small, Receivable;
  }

  lemma StepOrder(s: State, tid: nat, c: Choice, s': State)
    requires tid < |s.threads| && Next(s, tid, c) == Some(s')
    requires Exclusive(s) && InMutexOrder(s)
    ensures InMutexOrder(s')
  {
    hide Effect, StartOf, Dev.ReadAt, Dev.Write, Small, Receivable;
  }

  lemma WriteFailsKeepsLog(d: Dev, bytes: seq<byte>, env: Env, fill: seq<byte>)
    requires d.Write(bytes, env, fill).1.Fail?
    ensures d.Write(bytes, env, fill).0.log == d.log
  {
  }

  lemma EffectCases(d: Dev, req: Request)
    ensures d.staging.Clean() ==> Effect(d, req).staging.Clean()
    ensures req.SeekTo? ==> Effect(d, req) == d
  {
  }

  lemma StepDevice(d: Dev, s: State, tid: nat, c: Choice, s': State)
    requires tid < |s.threads| && Next(s, tid, c) == Some(s')
    requires Exclusive(s) && SerialDevice(d, s) && ThreadRight(d, s, tid)
    ensures SerialDevice(d, s')
  {
    hide Effect, StartOf, Dev.ReadAt, Dev.Write, Small, Staging.Clean, Receivable, SerialOffer, Answered;
    match s.threads[tid] {
      case Opened(req) =>
        SerialPrefix(d, s.served, [Served(tid, req)], |s.served|);
        EffectCases(s.dev, req);
        if c.WriteFails? {
          WriteFailsKeepsLog(s.dev, req.bytes, c.env, c.fill);
        }
      case _ =>
    }
  }

  /** Threads other than the one that moves keep what they have. */
  lemma StepOthers(d: Dev, s: State, tid: nat, c: Choice, s': State, t: nat)
    requires tid < |s.threads| && Next(s, tid, c) == Some(s')
    requires Exclusive(s) && t < |s.threads| && t != tid && ThreadRight(d, s, t)
    ensures ThreadRight(d, s', t)
  {
    hide Effect, StartOf, Dev.ReadAt, Dev.Write, Small, Offer, Receivable;
    assert s'.threads[t] == s.threads[t];
    if s.threads[t].Done? && s'.served != s.served {
      var at := s.threads[t].at;
      SerialPrefix(d, s.served, s'.served[|s.served|..], at);
      assert s'.served == s.served + s'.served[|s.served|..];
    }
  }

  lemma SeekLands(d: Dev, req: Request)
    requires req.SeekTo? && StartOf(d, req, true).Some?
    ensures StartOf(d, req, true).value < |d.Visible()|
    ensures Offer(d, req, true) == Some(From(d, StartOf(d, req, true).value))
  {
    SeekBijection(d);
  }

  lemma PacketOffer(d: Dev, req: Request, rewound: bool)
    requires req.Packet?
    ensures Offer(d, req, rewound) == Some(From(Effect(d, req), if rewound then 0 else |req.bytes|))
  {
  }

  /** A request taking effect: what it offers is what the device now holds from its start. */
  lemma StepOpened(d: Dev, s: State, tid: nat, c: Choice, s': State)
    requires tid < |s.threads| && Next(s, tid, c) == Some(s')
    requires Exclusive(s) && SerialDevice(d, s) && ThreadRight(d, s, tid) && s.threads[tid].Opened?
    ensures ThreadRight(d, s', tid)
  {
    hide Effect, StartOf, Offer, Dev.ReadAt, Dev.Write, Dev.Visible, Staging.Clean;
    var req := s.threads[tid].req;
    if c.Proceed? && req.SeekTo? && !s'.exited {
      SerialPrefix(d, s.served, [Served(tid, req)], |s.served|);
      SeekLands(s.dev, req);
    }
  }

  lemma StepWritten(d: Dev, s: State, tid: nat, c: Choice, s': State)
    requires tid < |s.threads| && Next(s, tid, c) == Some(s')
    requires Exclusive(s) && SerialDevice(d, s) && ThreadRight(d, s, tid) && s.threads[tid].Written?
    ensures ThreadRight(d, s', tid)
  {
    hide Effect, StartOf, Offer, Dev.ReadAt, Dev.Write, Dev.Visible, Small, Staging.Clean, From;
    var at := s.threads[tid].at;
    PacketOffer(Serial(d, s.served, at), s.served[at].req, c.Proceed?);
  }

  /** What there is to read from a position is the byte there and what follows it. */
  lemma FromSplit(d: Dev, pos: nat)
    requires Small(d) && pos < TWO_31
    ensures d.ReadAt(pos) == if From(d, pos) == [] then Eof else Byte(From(d, pos)[0])
    ensures From(d, pos) != [] ==> pos + 1 < TWO_31 && From(d, pos) == [From(d, pos)[0]] + From(d, pos + 1)
  {
    SmallDeviceInRange(d, pos);
    ReadsTheStream(d, pos);
  }

  /** One drain step: another byte, the end, one more than readbuf holds, or a failure that cuts the response short. */
  lemma StepDraining(d: Dev, s: State, tid: nat, c: Choice, s': State)
    requires tid < |s.threads| && Next(s, tid, c) == Some(s')
    requires Exclusive(s) && SerialDevice(d, s) && ThreadRight(d, s, tid) && s.threads[tid].Draining?
    ensures ThreadRight(d, s', tid)
  {
    hide SerialOffer, Dev.ReadAt, Dev.Write, From, Staging.Clean, Small, Serial;
    var Draining(at, pos, rewound, buf) := s.threads[tid];
    FromSplit(s.dev, pos);
    var rest := From(s.dev, pos);
    if rest != [] {
      assert buf + rest == (buf + [rest[0]]) + From(s.dev, pos + 1);
    } else {
      assert buf + rest == buf;
    }
    assert buf != [] ==> buf[..|buf| - 1] < buf + rest;
  }

  lemma StepSelf(d: Dev, s: State, tid: nat, c: Choice, s': State)
    requires tid < |s.threads| && Next(s, tid, c) == Some(s')
    requires Exclusive(s) && SerialDevice(d, s) && ThreadRight(d, s, tid)
    ensures ThreadRight(d, s', tid)
  {
    hide Effect, StartOf, SerialOffer, Dev.ReadAt, Dev.Write, Dev.Visible, Small, From, Receivable;
    match s.threads[tid] {
      case Opened(_) => StepOpened(d, s, tid, c, s');
      case Written(_, _) => StepWritten(d, s, tid, c, s');
      case Draining(_, _, _, _) => StepDraining(d, s, tid, c, s');
      case Positioned(_, pos, _) => assert [] + From(s.dev, pos) == From(s.dev, pos);
      case _ =>
    }
  }

  lemma StepKeeps(d: Dev, s: State, tid: nat, c: Choice, s': State)
    requires tid < |s.threads| && Next(s, tid, c) == Some(s')
    requires Inv(d, s)
    ensures Inv(d, s')
  {
    hide Next, Exclusive, OncePerThread, InMutexOrder, SerialDevice, ThreadRight;
    StepExclusive(s, tid, c, s');
    StepOnce(s, tid, c, s');
    StepOrder(s, tid, c, s');
    StepDevice(d, s, tid, c, s');
    StepSelf(d, s, tid, c, s');
    forall t | 0 <= t < |s'.threads|
      ensures ThreadRight(d, s', t)
    {
      if t != tid {
        StepOthers(d, s, tid, c, s', t);
      }
    }
  }

  lemma InitialInv(d: Dev, n: nat)
    requires d.staging.Clean() && Small(d)
    ensures Inv(d, Initial(d, n))
  {
    assert Serial(d, [], 0) == d;
  }

  lemma {:induction false} RunKeeps(d: Dev, n: nat, states: seq<State>, steps: seq<(nat, Choice)>)
    requires d.staging.Clean() && Small(d)
    requires IsRun(states, steps) && states[0] == Initial(d, n)
    ensures Inv(d, states[|steps|]) && |states[|steps|].threads| == n
    decreases |steps|
  {
    hide Next, Inv;
    if |steps| == 0 {
      InitialInv(d, n);
    } else {
      var last := |steps| - 1;
      RunKeeps(d, n, states[..|steps|], steps[..last]);
      StepKeeps(d, states[last], steps[last].0, steps[last].1, states[|steps|]);
    }
  }

  // ---------------------------------------------------------------- main results

  predicate HasSent(t: Thread) {
    t.Sent? || t.Done?
  }

  /**
   Server serializability: over every interleaving of any number of connection threads, whatever
   calls fail, each response sent is exactly the one its request gets when the requests are
   served one at a time in the order the threads took the mutex, if and only if no read of it
   failed, and its rewind did not fail or there was nothing to send anyway.  Whatever is sent
   fits readbuf.
   */
  lemma Serializable(d: Dev, n: nat, states: seq<State>, steps: seq<(nat, Choice)>, t: nat)
    requires d.staging.Clean() && Small(d)
    requires IsRun(states, steps) && states[0] == Initial(d, n) && t < n
    ensures var s := states[|steps|];
            && |s.threads| == n
            && |s.served| <= |s.acquired|
            && (forall i :: 0 <= i < |s.served| ==> s.served[i].tid == s.acquired[i])
            && (forall i, j :: 0 <= i < j < |s.served| ==> s.served[i].tid != s.served[j].tid)
            && (HasSent(s.threads[t]) ==>
                  var thread := s.threads[t];
                  && thread.at < |s.served| && s.served[thread.at].tid == t
                  && |thread.buf| <= READBUF_SIZE
                  && SerialResponse(d, s.served, thread.at).Some?
                  && (thread.buf == SerialResponse(d, s.served, thread.at).value <==>
                        thread.whole && (thread.rewound || SerialResponse(d, s.served, thread.at).value == [])))
  {
    hide Next;
    RunKeeps(d, n, states, steps);
    var s := states[|steps|];
    assert ThreadRight(d, s, t);
    if HasSent(s.threads[t]) {
      OffersCompared(Serial(d, s.served, s.threads[t].at), s.served[s.threads[t].at].req);
    }
  }

  /** After a failed rewind there is less to read back than there should be, unless nothing is visible. */
  lemma OffersCompared(d: Dev, req: Request)
    requires Receivable(req) && (Offer(d, req, true).Some? || Offer(d, req, false).Some?)
    ensures Offer(d, req, true).Some? && Offer(d, req, false).Some?
    ensures var right, left := Offer(d, req, true).value, Offer(d, req, false).value;
            && |left| <= |right|
            && (req.Packet? ==> (|left| == |right| <==> right == []))
            && (req.SeekTo? || right == [] ==> left == right)
  {
    if req.Packet? {
      LaterFrom(Effect(d, req), |req.bytes|);
    }
  }

  /** While the mutex is free the device is exactly what the serial execution leaves. */
  lemma SerialWhenFree(d: Dev, n: nat, states: seq<State>, steps: seq<(nat, Choice)>)
    requires d.staging.Clean() && Small(d)
    requires IsRun(states, steps) && states[0] == Initial(d, n)
    ensures var s := states[|steps|];
            && s.dev.log == Serial(d, s.served, |s.served|).log
            && (s.mutex.None? ==> s.dev == Serial(d, s.served, |s.served|) && |s.served| == |s.acquired|)
  {
    RunKeeps(d, n, states, steps);
  }

  /** At most one thread is between taking and releasing the mutex. */
  lemma MutualExclusion(d: Dev, n: nat, states: seq<State>, steps: seq<(nat, Choice)>, t: nat, u: nat)
    requires d.staging.Clean() && Small(d)
    requires IsRun(states, steps) && states[0] == Initial(d, n) && t < n && u < n
    ensures var s := states[|steps|];
            |s.threads| == n && (InCritical(s.threads[t]) && InCritical(s.threads[u]) ==> t == u)
  {
    RunKeeps(d, n, states, steps);
  }

  /** readbuf overruns exactly when what there is to read back is longer than it: such a thread never sends. */
  lemma OverrunOnlyWhenTooLong(d: Dev, n: nat, states: seq<State>, steps: seq<(nat, Choice)>, t: nat)
    requires d.staging.Clean() && Small(d)
    requires IsRun(states, steps) && states[0] == Initial(d, n) && t < n
    requires var s := states[|steps|];
             |s.threads| == n && (s.threads[t].Overrun? || (s.threads[t].Sending? && s.threads[t].whole))
    ensures var s := states[|steps|]; var thread := s.threads[t];
            && thread.at < |s.served| && SerialOffer(d, s.served, thread.at, thread.rewound).Some?
            && (thread.Overrun? <==> |SerialOffer(d, s.served, thread.at, thread.rewound).value| > READBUF_SIZE)
  {
    RunKeeps(d, n, states, steps);
    assert ThreadRight(d, states[|steps|], t);
  }

  // ---------------------------------------------------------------- deadlock

  /** The thread has left without releasing the mutex. */
  predicate Stuck(t: Thread) {
    t.Dead? || t.Overrun? || t.BadSend?
  }

  ghost predicate CanStep(s: State, tid: nat) {
    tid < |s.threads| && exists c :: Next(s, tid, c).Some?
  }

  /** Some call could fail, or go through, wherever a live mutex holder is. */
  lemma HolderCanStep(s: State, tid: nat)
    requires tid < |s.threads| && !s.exited
    requires InCritical(s.threads[tid]) && !Stuck(s.threads[tid])
    ensures CanStep(s, tid)
  {
    hide Effect, StartOf, Dev.ReadAt, Small, Receivable;
    var thread := s.threads[tid];
    var c := if thread.Locked? then Fails
             else if thread.Opened? then WriteFails(ALL_OK.(kmallocOk := false), [])
             else Proceed;
    assert Next(s, tid, if thread.Opened? && thread.req.SeekTo? then Fails else c).Some?;
  }

  /**
   Deadlock, exactly: in every reachable state some thread can take a step if and only if the
   process has not exited, no thread has left without releasing the mutex, and some thread is not
   done.  A thread that has left that way still holds the mutex.
   */
  lemma StepPossibleIff(d: Dev, n: nat, states: seq<State>, steps: seq<(nat, Choice)>)
    requires d.staging.Clean() && Small(d)
    requires IsRun(states, steps) && states[0] == Initial(d, n)
    ensures var s := states[|steps|];
            && |s.threads| == n
            && ((exists t :: 0 <= t < n && CanStep(s, t)) <==>
                  && !s.exited
                  && (forall t :: 0 <= t < n ==> !Stuck(s.threads[t]))
                  && (exists t :: 0 <= t < n && !s.threads[t].Done?))
            && (forall t :: 0 <= t < n && Stuck(s.threads[t]) ==> s.mutex == Some(t))
  {
    RunKeeps(d, n, states, steps);
    StepPossibleFrom(states[|steps|]);
  }

  lemma StepPossibleFrom(s: State)
    requires Exclusive(s)
    ensures var n := |s.threads|;
            && ((exists t :: 0 <= t < n && CanStep(s, t)) <==>
                  && !s.exited
                  && (forall t :: 0 <= t < n ==> !Stuck(s.threads[t]))
                  && (exists t :: 0 <= t < n && !s.threads[t].Done?))
            && (forall t :: 0 <= t < n && Stuck(s.threads[t]) ==> s.mutex == Some(t))
  {
    hide Effect, StartOf, Dev.ReadAt, Dev.Write, Small, Receivable, TakeEffect, ReadOne;
    var n := |s.threads|;
    if !s.exited && forall t :: 0 <= t < n ==> !Stuck(s.threads[t]) {
      if t :| 0 <= t < n && !s.threads[t].Done? {
        if s.mutex.Some? {
          HolderCanStep(s, s.mutex.value);
        } else {
          assert Next(s, t, Proceed).Some?;
          assert CanStep(s, t);
        }
      }
    }
  }
}
