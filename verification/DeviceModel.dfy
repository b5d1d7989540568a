/**
 What the character device means: the list of every command ever committed, and the staging
 buffer of an unterminated command.  The operations are given as functions on this state; the
 class Device is proved to carry them out on the ring and the kernel heap.
 */
module DeviceModel {
  import opened Bytes
  import opened Search
  import opened CircularBuffer

  /**
   incomplete_write_buffer and its size.  Absent is the null pointer; its stale size is 0 unless
   a krealloc failed, which nulls the pointer and leaves the size behind.
   */
  datatype Staging = Absent(stale: nat) | Held(bytes: seq<byte>) {
    function Size(): nat {
      match this case Absent(stale) => stale case Held(bytes) => |bytes|
    }

    function Bytes(): seq<byte> {
      match this case Absent(_) => [] case Held(bytes) => bytes
    }

    /** The size a failed krealloc left behind without a buffer. */
    function Stale(): nat {
      match this case Absent(stale) => stale case Held(_) => 0
    }

    /** No failed krealloc has left a size without a buffer. */
    predicate Clean() {
      Stale() == 0
    }
  }

  datatype Errno = EFAULT | EINVAL | ENOMEM | ERESTARTSYS

  datatype Ret = Count(n: nat) | Fail(error: Errno)

  /** The outcome of the calls one write makes into the kernel, in the order it makes them. */
  datatype Env = Env(kmallocOk: bool, bufOk: bool, copyOk: bool, lockOk: bool, kreallocOk: bool)

  const ALL_OK: Env := Env(true, true, true, true, true)

  /** The outcome of the calls one read makes. */
  datatype ReadEnv = ReadEnv(bufOk: bool, lockOk: bool, copyOk: bool)

  const READ_OK: ReadEnv := ReadEnv(true, true, true)

  datatype ReadReply = Eof | Byte(b: byte) | Stray

  datatype Dev = Dev(log: seq<Command>, staging: Staging) {

    /** The commands still in the ring, oldest first. */
    function Stored(): seq<Command> { Recent(log) }

    /** The bytes a reader can see. */
    function Visible(): seq<byte> { Flatten(Stored()) }

    /** Every byte ever committed. */
    function Stream(): seq<byte> { Flatten(log) }

    /** How many committed bytes have been evicted. */
    function Evicted(): nat { |Flatten(log[..Dropped(|log|)])| }

    /** Everything committed, then everything still staged. */
    function AllBytes(): seq<byte> { Stream() + staging.Bytes() }

    function StoredSizes(): seq<nat> { Sizes(Stored()) }

    /** The sizes in the physical slots of the ring. */
    function SlotSizes(): seq<nat> { Slots(Sizes(log), 0) }

    // -------------------------------------------------------------- write

    function Commit(command: Command): Dev {
      Dev(log + [command], Absent(0))
    }

    /** The write reaches the commit-or-stage code. */
    static predicate Enters(env: Env) {
      env.bufOk && env.kmallocOk && env.copyOk && env.lockOk
    }

    /** The data commits without touching the staging buffer. */
    predicate CommitsAlone(data: seq<byte>) {
      NEWLINE in data && staging.Absent?
    }

    /**
     aesd_write.  A reallocation that starts from a stale size leaves that many bytes unset in
     front of the data; fill is whatever they hold.
     */
    function Write(data: seq<byte>, env: Env, fill: seq<byte>): (Dev, Ret) {
      if !env.bufOk then (this, Fail(EINVAL))
      else if !env.kmallocOk then (this, Fail(ENOMEM))
      else if !env.copyOk then (this, Fail(EFAULT))
      else if !env.lockOk then (this, Fail(ERESTARTSYS))
      else if CommitsAlone(data) then (Commit(data), Count(|data|))
      else if !env.kreallocOk then (Dev(log, Absent(staging.Size())), Fail(ENOMEM))
      else
        var joined := (if staging.Absent? then fill else staging.bytes) + data;
        ((if NEWLINE in data then Commit(joined) else Dev(log, Held(joined))), Count(|data|))
    }

    /** How many blocks one write leaves allocated with nothing pointing at them. */
    function Abandons(data: seq<byte>, env: Env): nat {
      if !env.kmallocOk then 0
      else if !env.bufOk then 1
      else if !env.copyOk then 0
      else if !env.lockOk then 1
      else if CommitsAlone(data) then 0
      else if !env.kreallocOk && staging.Held? then 2
      else 1
    }

    // -------------------------------------------------------------- read

    /** aesd_read at a file position; Stray is a copy from outside the entry found. */
    function ReadAt(pos: nat): ReadReply {
      match MachineSearch(StoredSizes(), 0, ToInt32(pos))
      case None => Eof
      case Some(hit) =>
        if hit.offset < |Stored()[hit.entry]| then Byte(Stored()[hit.entry][hit.offset]) else Stray
    }

    /** aesd_read: the return value, which is also how far the position moves, and what reached the user buffer. */
    function Read(pos: nat, count: nat, env: ReadEnv): (Ret, Option<ReadReply>) {
      if !env.bufOk then (Fail(EINVAL), None)
      else if !env.lockOk then (Fail(ERESTARTSYS), None)
      else if ReadAt(pos).Eof? then (Count(0), None)
      else (Count(1), if env.copyOk then Some(ReadAt(pos)) else None)
    }

    /** The slot and in-entry offset that aesd_circular_buffer_find_entry_offset_for_fpos returns. */
    function Find(pos: nat): Option<Hit> {
      FindIn(Sizes(log), pos)
    }

    /** What a read should reply. */
    function ByteAt(pos: nat): ReadReply {
      if pos < |Visible()| then Byte(Visible()[pos]) else Eof
    }

    // -------------------------------------------------------------- seek

    /** aesd_adjust_file_offset: the new position, or None for EINVAL. */
    function SeekTarget(writeCmd: nat, writeCmdOffset: nat): Option<nat> {
      if writeCmd >= N || writeCmdOffset >= SlotSizes()[writeCmd] then None
      else Some(PrefixSum(SlotSizes(), writeCmd) + writeCmdOffset)
    }

    /** The position of an offset within the writeCmd-th oldest stored command. */
    function AgeTarget(writeCmd: nat, writeCmdOffset: nat): Option<nat> {
      if writeCmd >= |Stored()| || writeCmdOffset >= |Stored()[writeCmd]| then None
      else Some(PrefixSum(StoredSizes(), writeCmd) + writeCmdOffset)
    }
  }

  const INITIAL: Dev := Dev([], Absent(0))

  // ---------------------------------------------------------------- the visible bytes

  /** The visible bytes are the committed stream minus the evicted prefix. */
  lemma VisibleIsStreamSuffix(d: Dev)
    ensures d.Evicted() <= |d.Stream()|
    ensures d.Visible() == d.Stream()[d.Evicted()..]
    ensures |d.Visible()| == |d.Stream()| - d.Evicted() == Total(d.StoredSizes())
  {
    var k := Dropped(|d.log|);
    assert d.log == d.log[..k] + d.log[k..];
    FlattenConcat(d.log[..k], d.log[k..]);
    FlattenTotal(d.Stored());
  }

  /** A commit appends its bytes and evicts the oldest command of a full ring. */
  lemma CommitVisible(d: Dev, command: Command)
    ensures var after := d.Commit(command);
            && after.Stored() == Push(d.Stored(), command)
            && (if |d.log| < N then
                 && after.Visible() == d.Visible() + command
                 && after.Evicted() == d.Evicted()
               else
                 && |d.Stored()[0]| <= |d.Visible()|
                 && after.Visible() == d.Visible()[|d.Stored()[0]|..] + command
                 && after.Evicted() == d.Evicted() + |d.Stored()[0]|)
  {
    hide Flatten;
    var after, q := d.Commit(command), d.Stored();
    RecentPush(d.log, command);
    if |d.log| < N {
      FlattenAppend(q, command);
    } else {
      FlattenAppend(q[1..], command);
      assert q == [q[0]] + q[1..];
      FlattenConcat([q[0]], q[1..]);
      FlattenOne(q[0]);
      var k := Dropped(|d.log|);
      assert after.log[..k + 1] == d.log[..k] + [d.log[k]];
      FlattenAppend(d.log[..k], d.log[k]);
    }
  }

  // ---------------------------------------------------------------- conservation of bytes

  /** The write, as far as its caller can tell, added exactly its data to what the device holds. */
  predicate Conserves(d: Dev, data: seq<byte>, env: Env, fill: seq<byte>) {
    var (after, ret) := d.Write(data, env, fill);
    after.AllBytes() == d.AllBytes() + (if ret.Count? then data else [])
  }

  /**
   The bytes are conserved exactly when no failed krealloc drops staged bytes and no krealloc
   grows a buffer from a stale size.
   */
  lemma WriteConservesIff(d: Dev, data: seq<byte>, env: Env, fill: seq<byte>)
    requires |fill| == d.staging.Stale()
    ensures Conserves(d, data, env, fill) <==>
            (Dev.Enters(env) && !d.CommitsAlone(data) ==>
               if env.kreallocOk then d.staging.Clean() else d.staging.Bytes() == [])
  {
    var (after, ret) := d.Write(data, env, fill);
    if after.log != d.log {
      var joined := after.log[|d.log|];
      assert after.log == d.log + [joined];
      FlattenAppend(d.log, joined);
      assert d.Stream() + d.staging.Bytes() + data == d.Stream() + (d.staging.Bytes() + data);
    } else if Dev.Enters(env) {
      var before, left := d.staging.Bytes(), after.staging.Bytes();
      if env.kreallocOk {
        assert d.AllBytes() + data == d.Stream() + (before + data);
        assert after.AllBytes() == d.Stream() + left;
        assert |left| == |before| + |fill| + |data|;
      } else {
        assert |after.AllBytes()| == |d.Stream()|;
      }
    }
  }

  /** A clean device stays clean, and conserves bytes, while krealloc succeeds. */
  lemma WriteConserves(d: Dev, data: seq<byte>, env: Env)
    requires d.staging.Clean() && env.kreallocOk
    ensures Conserves(d, data, env, [])
    ensures d.Write(data, env, []).0.staging.Clean()
  {
    WriteConservesIff(d, data, env, []);
  }

  // ---------------------------------------------------------------- framing

  /** Index of the first newline, or the length. */
  function FirstNewline(s: seq<byte>): (i: nat)
    ensures i <= |s|
    ensures NEWLINE !in s[..i]
    ensures i < |s| ==> s[i] == NEWLINE
    ensures i < |s| <==> NEWLINE in s
  {
    if |s| == 0 || s[0] == NEWLINE then 0
    else
      var i := FirstNewline(s[1..]) + 1;
      assert s[..i] == [s[0]] + s[1..][..i - 1];
      i
  }

  /** Nothing staged holds a newline, and every committed command does. */
  predicate Framed(d: Dev) {
    && NEWLINE !in d.staging.Bytes()
    && forall i :: 0 <= i < |d.log| ==> NEWLINE in d.log[i]
  }

  /** Framing survives every write while krealloc succeeds; a commit's first newline is in its own data. */
  lemma WriteKeepsFraming(d: Dev, data: seq<byte>, env: Env)
    requires Framed(d) && d.staging.Clean() && env.kreallocOk
    ensures var after := d.Write(data, env, []).0;
            && Framed(after)
            && (|after.log| > |d.log| ==>
                  var command := after.log[|d.log|];
                  && command == d.staging.Bytes() + data
                  && |d.staging.Bytes()| <= FirstNewline(command) < |command|)
  {
    var after := d.Write(data, env, []).0;
    if |after.log| > |d.log| {
      var command := after.log[|d.log|];
      assert command == d.staging.Bytes() + data;
      var j :| 0 <= j < |data| && data[j] == NEWLINE;
      assert command[|d.staging.Bytes()| + j] == NEWLINE;
    }
  }

  // ---------------------------------------------------------------- reads

  /** An in-range read replies with the byte of the stream at evicted + pos, and Eof exactly past the end. */
  lemma ReadsTheStream(d: Dev, pos: nat)
    requires Allocatable(d.StoredSizes()) && InRange(d.StoredSizes(), pos)
    ensures d.ReadAt(pos) == d.ByteAt(pos)
    ensures d.ReadAt(pos) == if d.Evicted() + pos < |d.Stream()| then Byte(d.Stream()[d.Evicted() + pos]) else Eof
  {
    var sizes := d.StoredSizes();
    MachineSearchExactIff(sizes, pos);
    LocateFrom(sizes, 0, pos);
    VisibleIsStreamSuffix(d);
    if pos < |d.Visible()| {
      var hit := Locate(sizes, 0, pos).value;
      FlattenIndex(d.Stored(), hit.entry, hit.offset);
    }
  }

  /**
   Reads are right exactly on the in-range positions, for any device of at most 4 GiB: past
   them a read replies with an aliased byte, or copies from outside an entry.
   */
  lemma ReadRightIff(d: Dev, pos: nat)
    requires Allocatable(d.StoredSizes()) && |d.Visible()| <= TWO_32
    ensures d.ReadAt(pos) == d.ByteAt(pos) <==> InRange(d.StoredSizes(), pos)
  {
    if InRange(d.StoredSizes(), pos) {
      ReadsTheStream(d, pos);
    } else {
      ReadOutOfRange(d, pos);
    }
  }

  lemma ReadOutOfRange(d: Dev, pos: nat)
    requires Allocatable(d.StoredSizes()) && |d.Visible()| <= TWO_32
    requires !InRange(d.StoredSizes(), pos)
    ensures d.ReadAt(pos) == Stray || (pos >= |d.Visible()| && d.ReadAt(pos).Byte?)
  {
    var sizes, r := d.StoredSizes(), pos % TWO_32;
    MachineSearchesLowBits(sizes, pos);
    VisibleIsStreamSuffix(d);
    if r < TWO_31 + sizes[0] {
      LocateFrom(sizes, 0, r);
      assert Locate(sizes, 0, r).Some?;
    }
  }

  /**
   The count is to be honoured: never more bytes than asked for.  The code never looks at it, so
   this holds exactly when the read fails, asks for at least one byte, or is at the end.
   */
  lemma ReadHonoursCountIff(d: Dev, pos: nat, count: nat, env: ReadEnv)
    ensures var (ret, delivered) := d.Read(pos, count, env); var entered := env.bufOk && env.lockOk;
            && ((ret.Count? ==> ret.n <= count) <==> !entered || count >= 1 || d.ReadAt(pos).Eof?)
            && ((delivered.Some? ==> 1 <= count) <==> !entered || count >= 1 || d.ReadAt(pos).Eof? || !env.copyOk)
  {
  }

  /** A read of no bytes at any visible position returns 1, delivers a byte and so moves the position. */
  lemma ZeroCountReadDelivers(d: Dev, pos: nat)
    requires Allocatable(d.StoredSizes()) && pos < |d.Visible()| && pos < TWO_31
    ensures d.Read(pos, 0, READ_OK) == (Count(1), Some(Byte(d.Visible()[pos])))
  {
    SmallOffsetsInRange(d.StoredSizes(), pos);
    ReadsTheStream(d, pos);
  }

  /**
   The returned count is the number of bytes delivered exactly when the user copy succeeds or
   there is nothing to copy; a failed copy is never reported.
   */
  lemma ReadCountsDeliveredIff(d: Dev, pos: nat, count: nat, env: ReadEnv)
    requires env.bufOk && env.lockOk
    ensures var (ret, delivered) := d.Read(pos, count, env);
            && (ret == Count(if delivered.Some? then 1 else 0) <==> env.copyOk || d.ReadAt(pos).Eof?)
            && ret != Fail(EFAULT)
  {
  }
}
