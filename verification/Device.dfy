/** The driver itself: struct aesd_dev over the ring and the kernel heap, and its file operations. */
module Device {
  import opened Bytes
  import opened Search
  import opened CircularBuffer
  import opened DeviceModel
  import opened Kernel

  /** An open file: filp->f_pos. */
  class File {
    var pos: nat

    constructor ()
      ensures pos == 0
    {
      pos := 0;
    }
  }

  // ---------------------------------------------------------------- who owns which block

  function Pointers(q: seq<Entry>): set<Ptr> {
    if |q| == 0 then {} else Pointers(q[..|q| - 1]) + {q[|q| - 1].buffptr}
  }

  predicate Distinct(q: seq<Entry>) {
    forall i, j :: 0 <= i < j < |q| ==> q[i].buffptr != q[j].buffptr
  }

  /** The entry points at a live block that starts with the command's bytes. */
  predicate Holds(blocks: map<Ptr, seq<byte>>, e: Entry, command: Command) {
    && e.buffptr != NULL
    && e.buffptr in blocks
    && e.size == |command|
    && command <= blocks[e.buffptr]
  }

  predicate HoldsAll(blocks: map<Ptr, seq<byte>>, q: seq<Entry>, commands: seq<Command>) {
    && |q| == |commands|
    && Distinct(q)
    && forall i :: 0 <= i < |q| ==> Holds(blocks, q[i], commands[i])
  }

  predicate Stages(blocks: map<Ptr, seq<byte>>, p: Ptr, size: nat, staging: Staging) {
    && size == staging.Size()
    && if staging.Absent? then p == NULL else p != NULL && p in blocks && blocks[p] == staging.bytes
  }

  /** The live blocks are the ring's, the staging buffer and the abandoned ones, with nothing shared. */
  predicate Owns(blocks: map<Ptr, seq<byte>>, q: seq<Entry>, p: Ptr, abandoned: set<Ptr>) {
    && NULL !in blocks
    && blocks.Keys == Pointers(q) + (if p == NULL then {} else {p}) + abandoned
    && p !in Pointers(q)
    && abandoned !! Pointers(q)
    && p !in abandoned
  }

  lemma {:induction false} PointersOf(q: seq<Entry>, p: Ptr)
    ensures p in Pointers(q) <==> exists i :: 0 <= i < |q| && q[i].buffptr == p
  {
    if |q| > 0 {
      var front := q[..|q| - 1];
      PointersOf(front, p);
      if p in Pointers(front) {
        var i :| 0 <= i < |front| && front[i].buffptr == p;
        assert q[i].buffptr == p;
      } else if i :| 0 <= i < |q| && q[i].buffptr == p {
        assert i < |front| ==> front[i].buffptr == p;
      }
    }
  }

  lemma PointersPush(q: seq<Entry>, e: Entry)
    ensures Pointers(q + [e]) == Pointers(q) + {e.buffptr}
  {
    assert (q + [e])[..|q|] == q;
  }

  lemma {:induction false} PointersTail(q: seq<Entry>)
    requires |q| > 0 && Distinct(q)
    ensures Pointers(q[1..]) == Pointers(q) - {q[0].buffptr}
  {
    forall p
      ensures p in Pointers(q[1..]) <==> p in Pointers(q) && p != q[0].buffptr
    {
      PointersOf(q, p);
      PointersOf(q[1..], p);
      if p in Pointers(q) && p != q[0].buffptr {
        var i :| 0 <= i < |q| && q[i].buffptr == p;
        assert q[1..][i - 1].buffptr == p;
      }
    }
  }

  /** Changing only blocks the ring does not point at leaves the ring's commands in place. */
  lemma HoldsAllFrame(before: map<Ptr, seq<byte>>, after: map<Ptr, seq<byte>>, q: seq<Entry>, commands: seq<Command>)
    requires HoldsAll(before, q, commands)
    requires forall p :: p in Pointers(q) && p in before ==> p in after && after[p] == before[p]
    ensures HoldsAll(after, q, commands)
  {
    forall i | 0 <= i < |q|
      ensures Holds(after, q[i], commands[i])
    {
      assert Holds(before, q[i], commands[i]);
      PointersOf(q, q[i].buffptr);
    }
  }

  lemma HoldsAllPush(blocks: map<Ptr, seq<byte>>, q: seq<Entry>, commands: seq<Command>, e: Entry, command: Command)
    requires HoldsAll(blocks, q, commands) && Holds(blocks, e, command) && e.buffptr !in Pointers(q)
    ensures HoldsAll(blocks, q + [e], commands + [command])
  {
    var pushed := q + [e];
    forall i, j | 0 <= i < j < |pushed|
      ensures pushed[i].buffptr != pushed[j].buffptr
    {
      PointersOf(q, q[i].buffptr);
      assert j < |q| ==> pushed[j] == q[j];
    }
  }

  lemma HoldsAllTail(blocks: map<Ptr, seq<byte>>, q: seq<Entry>, commands: seq<Command>)
    requires HoldsAll(blocks, q, commands) && |q| > 0
    ensures HoldsAll(blocks - {q[0].buffptr}, q[1..], commands[1..])
  {
    var left := blocks - {q[0].buffptr};
    forall i | 0 <= i < |q| - 1
      ensures Holds(left, q[1..][i], commands[1..][i])
    {
      assert Holds(blocks, q[i + 1], commands[i + 1]);
    }
  }

  /** The ring's entries q, the heap and buff_size agree with the device d; p is the one live block the writer owns. */
  predicate Agrees(blocks: map<Ptr, seq<byte>>, q: seq<Entry>, d: Dev, buffSize: nat, p: Ptr, abandoned: set<Ptr>) {
    && HoldsAll(blocks, q, d.Stored())
    && Owns(blocks, q, p, abandoned)
    && buffSize == |d.Visible()|
  }

  /** Adding the writer's block to the ring, and freeing the block of the oldest entry of a full one. */
  lemma AgreesCommit(blocks: map<Ptr, seq<byte>>, q: seq<Entry>, d: Dev, buffSize: nat,
                     e: Entry, command: Command, abandoned: set<Ptr>)
    requires Agrees(blocks, q, d, buffSize, e.buffptr, abandoned) && Holds(blocks, e, command)
    ensures if |q| < N then
              Agrees(blocks, Push(q, e), d.Commit(command), buffSize + e.size, NULL, abandoned)
            else
              && q[0].buffptr != NULL && q[0].buffptr in blocks
              && q[0].size <= buffSize
              && Agrees(blocks - {q[0].buffptr}, Push(q, e), d.Commit(command), buffSize + e.size - q[0].size,
                        NULL, abandoned)
  {
    CommitVisible(d, command);
    if |q| < N {
      HoldsAllPush(blocks, q, d.Stored(), e, command);
      PushOwns(blocks, q, e, abandoned);
    } else {
      var left, oldest := blocks - {q[0].buffptr}, q[0].buffptr;
      assert Holds(blocks, q[0], d.Stored()[0]);
      PointersOf(q, oldest);
      PointersTail(q);
      HoldsAllTail(blocks, q, d.Stored());
      HoldsAllPush(left, q[1..], d.Stored()[1..], e, command);
      PushOwns(left, q[1..], e, abandoned);
    }
  }

  lemma PushOwns(blocks: map<Ptr, seq<byte>>, q: seq<Entry>, e: Entry, abandoned: set<Ptr>)
    requires Owns(blocks, q, e.buffptr, abandoned) && e.buffptr != NULL
    ensures Owns(blocks, q + [e], NULL, abandoned)
  {
    PointersPush(q, e);
  }

  lemma HeldSize(blocks: map<Ptr, seq<byte>>, e: Entry, command: Command)
    requires Holds(blocks, e, command)
    ensures e.size == |command|
  {
  }

  /** The newest entry holds the newest command. */
  lemma NewestHeld(blocks: map<Ptr, seq<byte>>, added: seq<Entry>, d: Dev, buffSize: nat, p: Ptr, abandoned: set<Ptr>)
    requires Agrees(blocks, Recent(added), d, buffSize, p, abandoned)
    requires |added| == |d.log| > 0
    ensures Holds(blocks, added[|added| - 1], d.log[|d.log| - 1])
  {
    var q, last := Recent(added), |Recent(added)| - 1;
    assert Holds(blocks, q[last], d.Stored()[last]);
  }

  /** What the model's read replies is in the block of the slot the search finds. */
  lemma ReadsFoundEntry(blocks: map<Ptr, seq<byte>>, added: seq<Entry>, d: Dev, buffSize: nat, p: Ptr,
                        abandoned: set<Ptr>, pos: nat)
    requires Agrees(blocks, Recent(added), d, buffSize, p, abandoned)
    requires EntrySizes(added) == Sizes(d.log)
    ensures match FindIn(EntrySizes(added), pos)
            case None => d.ReadAt(pos) == Eof
            case Some(hit) =>
              && hit.entry < N
              && var e := Slots(added, EMPTY)[hit.entry];
                 && e.buffptr in blocks && e.size <= |blocks[e.buffptr]|
                 && d.ReadAt(pos) == if hit.offset < e.size then Byte(blocks[e.buffptr][hit.offset]) else Stray
  {
    hide Slots, SlotOf, MachineSearch, ToInt32, Owns, Flatten;
    RecentEntrySizes(added);
    assert d.StoredSizes() == EntrySizes(Recent(added)) by {
      assert forall i :: 0 <= i < |d.Stored()| ==> Holds(blocks, Recent(added)[i], d.Stored()[i]);
    }
    var found := MachineSearch(Recent(EntrySizes(added)), 0, ToInt32(pos));
    if found.Some? {
      RecentInSlot(added, EMPTY, found.value.entry);
      assert Holds(blocks, Recent(added)[found.value.entry], d.Stored()[found.value.entry]);
    }
  }

  lemma StagedBlock(blocks: map<Ptr, seq<byte>>, p: Ptr, staging: Staging)
    requires Stages(blocks, p, staging.Size(), staging)
    ensures p == NULL <==> staging.Absent?
    ensures p != NULL ==> p in blocks && blocks[p] == staging.bytes
  {
  }

  lemma HistoryPush(added: seq<Entry>, e: Entry, log: seq<Command>, command: Command)
    requires EntrySizes(added) == Sizes(log) && e.size == |command|
    ensures EntrySizes(added + [e]) == Sizes(log + [command])
  {
    assert EntrySizes(added + [e]) == EntrySizes(added) + [e.size];
    assert Sizes(log + [command]) == Sizes(log) + [|command|];
  }

  lemma {:induction false} PointersConcat(a: seq<Entry>, b: seq<Entry>)
    ensures Pointers(a + b) == Pointers(a) + Pointers(b)
    decreases |b|
  {
    if |b| == 0 {
      assert a + b == a;
    } else {
      PointersConcat(a, b[..|b| - 1]);
      assert a + b == (a + b[..|b| - 1]) + [b[|b| - 1]];
      PointersPush(a + b[..|b| - 1], b[|b| - 1]);
    }
  }

  /** The physical slots point at the ring's blocks and nowhere else, and at each of them once. */
  lemma SlotPointers(added: seq<Entry>)
    requires Distinct(Recent(added)) && NULL !in Pointers(Recent(added))
    ensures var s := Slots(added, EMPTY);
            && (forall p :: p != NULL ==> (p in Pointers(s) <==> p in Pointers(Recent(added))))
            && (forall i :: 0 <= i < N ==> s[i].buffptr == NULL || s[i].buffptr !in Pointers(s[..i]))
  {
    hide Slots, InSlot, Recent;
    var s, q, k := Slots(added, EMPTY), Recent(added), |added|;
    SlotsInAgeOrder(added, EMPTY);
    if k >= N {
      var out := InSlot(k);
      assert s == s[..out] + s[out..];
      PointersConcat(s[..out], s[out..]);
      PointersConcat(s[out..], s[..out]);
    } else {
      var unused := seq(N - k, _ => EMPTY);
      PointersConcat(q, unused);
      UnusedPointers(unused);
    }
    forall i | 0 <= i < N && s[i].buffptr != NULL
      ensures s[i].buffptr !in Pointers(s[..i])
    {
      PointersOf(s[..i], s[i].buffptr);
      if j :| 0 <= j < i && s[..i][j].buffptr == s[i].buffptr {
        SlotTwice(added, j, i);
      }
    }
  }

  /** Freeing slot i takes a block that is still live, or the null of an unused slot. */
  lemma FreeStep(before: map<Ptr, seq<byte>>, s: seq<Entry>, i: nat)
    requires i < |s| && NULL !in before
    requires s[i].buffptr == NULL || (s[i].buffptr in before && s[i].buffptr !in Pointers(s[..i]))
    ensures var left, p := before - Pointers(s[..i]), s[i].buffptr;
            && (p == NULL || p in left)
            && (if p == NULL then left else left - {p}) == before - Pointers(s[..i + 1])
  {
    assert s[..i + 1] == s[..i] + [s[i]];
    PointersPush(s[..i], s[i]);
  }

  lemma AgreesSlots(blocks: map<Ptr, seq<byte>>, added: seq<Entry>, d: Dev, buffSize: nat, p: Ptr, abandoned: set<Ptr>)
    requires Agrees(blocks, Recent(added), d, buffSize, p, abandoned)
    ensures var s := Slots(added, EMPTY);
            && NULL !in blocks
            && (forall i :: 0 <= i < N ==>
                  s[i].buffptr == NULL || (s[i].buffptr in blocks && s[i].buffptr !in Pointers(s[..i])))
            && blocks - Pointers(s) == blocks - Pointers(Recent(added))
            && (blocks - Pointers(s)).Keys == abandoned + (if p == NULL then {} else {p})
  {
    var s, q := Slots(added, EMPTY), Recent(added);
    HoldsAllLive(blocks, q, d.Stored());
    SlotPointers(added);
    forall i | 0 <= i < N && s[i].buffptr != NULL
      ensures s[i].buffptr in blocks
    {
      PointersOf(s, s[i].buffptr);
    }
  }

  lemma UnusedPointers(unused: seq<Entry>)
    requires forall i :: 0 <= i < |unused| ==> unused[i] == EMPTY
    ensures forall p :: p in Pointers(unused) ==> p == NULL
  {
    forall p | p in Pointers(unused)
      ensures p == NULL
    {
      PointersOf(unused, p);
    }
  }

  lemma SlotTwice(added: seq<Entry>, j: nat, i: nat)
    requires Distinct(Recent(added)) && j < i < N
    requires Slots(added, EMPTY)[i].buffptr != NULL
    ensures Slots(added, EMPTY)[j].buffptr != Slots(added, EMPTY)[i].buffptr
  {
    hide Slots, InSlot, Recent;
    var s, q, k := Slots(added, EMPTY), Recent(added), |added|;
    SlotsInAgeOrder(added, EMPTY);
    if k >= N {
      var out := InSlot(k);
      var a := if j >= out then j - out else j + N - out;
      var b := if i >= out then i - out else i + N - out;
      assert s[j] == (s[out..] + s[..out])[a] == q[a];
      assert s[i] == (s[out..] + s[..out])[b] == q[b];
    } else {
      assert s[i] == EMPTY || (s[i] == q[i] && s[j] == q[j]);
    }
  }

  /** Distinct pointers are as many as the entries. */
  lemma {:induction false} PointerCount(q: seq<Entry>)
    requires Distinct(q)
    ensures |Pointers(q)| == |q|
  {
    if |q| > 0 {
      var front := q[..|q| - 1];
      PointerCount(front);
      PointersOf(front, q[|q| - 1].buffptr);
    }
  }

  lemma AgreesOwns(blocks: map<Ptr, seq<byte>>, q: seq<Entry>, d: Dev, buffSize: nat, p: Ptr, abandoned: set<Ptr>)
    requires Agrees(blocks, q, d, buffSize, p, abandoned)
    ensures NULL !in blocks
  {
  }

  /** Replacing the writer's block, in place or by a new one, leaves the ring alone. */
  lemma AgreesReplace(before: map<Ptr, seq<byte>>, q: seq<Entry>, d: Dev, buffSize: nat,
                      p: Ptr, p': Ptr, contents: seq<byte>, abandoned: set<Ptr>, staging: Staging)
    requires Agrees(before, q, d, buffSize, p, abandoned)
    requires p' != NULL && (p' == p || p' !in before)
    ensures Agrees((before - {p})[p' := contents], q, d.(staging := staging), buffSize, p', abandoned)
  {
    HoldsAllFrame(before, (before - {p})[p' := contents], q, d.Stored());
    HoldsAllLive(before, q, d.Stored());
  }

  lemma HoldsAllLive(blocks: map<Ptr, seq<byte>>, q: seq<Entry>, commands: seq<Command>)
    requires HoldsAll(blocks, q, commands)
    ensures Pointers(q) <= blocks.Keys && NULL !in Pointers(q)
  {
    forall p | p in Pointers(q)
      ensures p in blocks && p != NULL
    {
      PointersOf(q, p);
      var i :| 0 <= i < |q| && q[i].buffptr == p;
      assert Holds(blocks, q[i], commands[i]);
    }
  }

  /** The writer lets go of its block without freeing it. */
  lemma AgreesAbandon(blocks: map<Ptr, seq<byte>>, q: seq<Entry>, d: Dev, buffSize: nat,
                      p: Ptr, abandoned: set<Ptr>, staging: Staging)
    requires Agrees(blocks, q, d, buffSize, p, abandoned)
    ensures var more := abandoned + if p == NULL then {} else {p};
            && Agrees(blocks, q, d.(staging := staging), buffSize, NULL, more)
            && |more| == |abandoned| + (if p == NULL then 0 else 1)
  {
    HoldsAllLive(blocks, q, d.Stored());
  }

  /** A block allocated and then abandoned, while the writer keeps its own. */
  lemma AgreesAbandonNew(before: map<Ptr, seq<byte>>, q: seq<Entry>, d: Dev, buffSize: nat,
                         p: Ptr, temp: Ptr, contents: seq<byte>, abandoned: set<Ptr>)
    requires Agrees(before, q, d, buffSize, p, abandoned)
    requires temp != NULL && temp !in before
    ensures Agrees(before[temp := contents], q, d, buffSize, p, abandoned + {temp})
    ensures |abandoned + {temp}| == |abandoned| + 1
  {
    HoldsAllLive(before, q, d.Stored());
    HoldsAllFrame(before, before[temp := contents], q, d.Stored());
  }

  /** krealloc to the joint size, then memcpy of the new data behind the old bytes. */
  method KreallocAndCopy(heap: Heap, p: Ptr, size: nat, data: seq<byte>, ok: bool)
    returns (q: Ptr, ghost base: seq<byte>)
    requires p == NULL || (p in heap.blocks && |heap.blocks[p]| == size)
    modifies heap
    ensures !ok ==> q == NULL && heap.blocks == old(heap.blocks)
    ensures ok ==> q != NULL && (q == p || q !in old(heap.blocks))
    ensures ok ==> |base| == size && heap.blocks == (old(heap.blocks) - {p})[q := base + data]
    ensures ok && p != NULL ==> base == old(heap.blocks)[p]
  {
    q := heap.Krealloc(p, size + |data|, ok);
    if q == NULL {
      return q, [];
    }
    base := heap.blocks[q][..size];
    heap.Memcpy(q, size, data);
    assert heap.blocks[q] == base + data;
  }

  class AesdDev {
    const ring: Ring
    const heap: Heap
    var incompleteWriteBuffer: Ptr
    var incompleteWriteBufferSize: nat
    var buffSize: nat
    /** What the fields above mean. */
    ghost var model: Dev
    /** Blocks still allocated that nothing points at. */
    ghost var abandoned: set<Ptr>

    ghost predicate Valid()
      reads this, ring, ring.entry, heap
    {
      && ring.Valid()
      && EntrySizes(ring.added) == Sizes(model.log)
      && Agrees(heap.blocks, ring.Contents(), model, buffSize, incompleteWriteBuffer, abandoned)
      && Stages(heap.blocks, incompleteWriteBuffer, incompleteWriteBufferSize, model.staging)
    }

    /** The device state set up by aesd_init_module. */
    constructor ()
      ensures Valid() && model == INITIAL && abandoned == {}
      ensures fresh(ring) && fresh(ring.entry) && fresh(heap)
    {
      ring := new Ring();
      heap := new Heap();
      incompleteWriteBuffer, incompleteWriteBufferSize, buffSize := NULL, 0, 0;
      model, abandoned := INITIAL, {};
    }

    /** aesd_write. */
    method Write(file: File, data: seq<byte>, env: Env) returns (ret: Ret, ghost fill: seq<byte>)
      requires Valid()
      modifies this, ring, ring.entry, heap, file
      ensures Valid()
      ensures |fill| == old(model).staging.Stale()
      ensures (model, ret) == old(model).Write(data, env, fill)
      ensures file.pos == old(file.pos) + (if ret.Count? then ret.n else 0)
      ensures |abandoned| == |old(abandoned)| + old(model).Abandons(data, env)
      ensures ret.Count? <==>
                Dev.Enters(env) && (env.kreallocOk || (NEWLINE in data && old(incompleteWriteBuffer) == NULL))
      ensures ret == if ret.Count? then Count(|data|)
                     else if !env.bufOk then Fail(EINVAL)
                     else if !env.kmallocOk then Fail(ENOMEM)
                     else if !env.copyOk then Fail(EFAULT)
                     else if !env.lockOk then Fail(ERESTARTSYS)
                     else Fail(ENOMEM)
      // failures: the ring and the counters stay; only a failed krealloc drops the staging buffer, keeping its size
      ensures ret.Fail? ==>
                && ring.added == old(ring.added) && buffSize == old(buffSize)
                && incompleteWriteBufferSize == old(incompleteWriteBufferSize)
                && incompleteWriteBuffer == if Dev.Enters(env) then NULL else old(incompleteWriteBuffer)
      ensures !env.kmallocOk || (env.bufOk && !env.copyOk) ==> heap.blocks == old(heap.blocks)
      // no newline: the data is behind what was staged
      ensures ret.Count? && NEWLINE !in data ==>
                && ring.added == old(ring.added) && buffSize == old(buffSize)
                && incompleteWriteBufferSize == old(incompleteWriteBufferSize) + |data|
                && incompleteWriteBuffer in heap.blocks
                && (old(incompleteWriteBuffer) != NULL ==>
                      heap.blocks[incompleteWriteBuffer] == old(heap.blocks[incompleteWriteBuffer]) + data)
      // a newline: one new entry, what was staged and then the data
      ensures ret.Count? && NEWLINE in data ==>
                && incompleteWriteBuffer == NULL && incompleteWriteBufferSize == 0
                && |ring.added| == |old(ring.added)| + 1 && old(ring.added) <= ring.added
                && Holds(heap.blocks, ring.added[|old(ring.added)|],
                         (if old(incompleteWriteBuffer) == NULL then []
                          else old(heap.blocks[incompleteWriteBuffer])) + data)
    {
      hide Agrees, Holds;
      StagedBlock(heap.blocks, incompleteWriteBuffer, model.staging);
      fill := seq(model.staging.Stale(), _ => 0);
      ghost var before := heap.blocks;
      var tempWriteData := heap.Kmalloc(|data| + 1, env.kmallocOk);
      if !env.bufOk {
        if env.kmallocOk {
          Abandon(before, tempWriteData);
        }
        return Fail(EINVAL), fill;
      }
      if tempWriteData == NULL {
        return Fail(ENOMEM), fill;
      }
      if !env.copyOk {
        heap.Kfree(tempWriteData);
        assert heap.blocks == before;
        return Fail(EFAULT), fill;
      }
      heap.Memcpy(tempWriteData, 0, data);
      assert heap.blocks == before[tempWriteData := heap.blocks[tempWriteData]];
      if !env.lockOk {
        Abandon(before, tempWriteData);
        return Fail(ERESTARTSYS), fill;
      }
      ret, fill := WriteLocked(data, tempWriteData, before, env.kreallocOk);
      if ret.Count? {
        file.pos := file.pos + ret.n;
      }
    }

    /** The temporary block stays allocated and nothing points at it any more. */
    ghost method Abandon(before: map<Ptr, seq<byte>>, temp: Ptr)
      requires temp != NULL && temp !in before && temp in heap.blocks
      requires heap.blocks == before[temp := heap.blocks[temp]]
      requires Agrees(before, ring.Contents(), model, buffSize, incompleteWriteBuffer, abandoned)
      requires Stages(before, incompleteWriteBuffer, incompleteWriteBufferSize, model.staging)
      modifies this`abandoned
      ensures Agrees(heap.blocks, ring.Contents(), model, buffSize, incompleteWriteBuffer, abandoned)
      ensures Stages(heap.blocks, incompleteWriteBuffer, incompleteWriteBufferSize, model.staging)
      ensures |abandoned| == |old(abandoned)| + 1
    {
      hide Agrees;
      AgreesAbandonNew(before, ring.Contents(), model, buffSize, incompleteWriteBuffer, temp, heap.blocks[temp],
                       abandoned);
      abandoned := abandoned + {temp};
    }

    /** The part of aesd_write done under the lock; before is the heap without the temporary block. */
    method WriteLocked(data: seq<byte>, tempWriteData: Ptr, ghost before: map<Ptr, seq<byte>>, kreallocOk: bool)
      returns (ret: Ret, ghost fill: seq<byte>)
      requires ring.Valid() && EntrySizes(ring.added) == Sizes(model.log)
      requires tempWriteData != NULL && tempWriteData !in before && tempWriteData in heap.blocks
      requires heap.blocks == before[tempWriteData := heap.blocks[tempWriteData]]
      requires data <= heap.blocks[tempWriteData]
      requires Agrees(before, ring.Contents(), model, buffSize, incompleteWriteBuffer, abandoned)
      requires Stages(before, incompleteWriteBuffer, incompleteWriteBufferSize, model.staging)
      modifies this, ring, ring.entry, heap
      ensures Valid()
      ensures |fill| == old(model).staging.Stale()
      ensures (model, ret) == old(model).Write(data, ALL_OK.(kreallocOk := kreallocOk), fill)
      ensures |abandoned| == |old(abandoned)| + old(model).Abandons(data, ALL_OK.(kreallocOk := kreallocOk))
      ensures ret.Count? <==> kreallocOk || (NEWLINE in data && old(incompleteWriteBuffer) == NULL)
      ensures ret == if ret.Count? then Count(|data|) else Fail(ENOMEM)
      ensures ret.Fail? ==>
                && ring.added == old(ring.added) && buffSize == old(buffSize)
                && incompleteWriteBufferSize == old(incompleteWriteBufferSize)
                && incompleteWriteBuffer == NULL
      ensures ret.Count? && NEWLINE !in data ==>
                && ring.added == old(ring.added) && buffSize == old(buffSize)
                && incompleteWriteBufferSize == old(incompleteWriteBufferSize) + |data|
                && incompleteWriteBuffer in heap.blocks
                && (old(incompleteWriteBuffer) != NULL ==>
                      heap.blocks[incompleteWriteBuffer] == before[old(incompleteWriteBuffer)] + data)
      ensures ret.Count? && NEWLINE in data ==>
                && incompleteWriteBuffer == NULL && incompleteWriteBufferSize == 0
                && |ring.added| == |old(ring.added)| + 1 && old(ring.added) <= ring.added
                && Holds(heap.blocks, ring.added[|old(ring.added)|],
                         (if old(incompleteWriteBuffer) == NULL then [] else before[old(incompleteWriteBuffer)]) + data)
    {
      hide Agrees;
      if NEWLINE in data {
        if incompleteWriteBuffer == NULL {
          fill := seq(model.staging.Stale(), _ => 0);
          var newEntry := Entry(tempWriteData, |data|);
          AgreesReplace(before, ring.Contents(), model, buffSize, NULL, tempWriteData, heap.blocks[tempWriteData],
                        abandoned, model.staging);
          assert NULL !in before by {
            AgreesOwns(before, ring.Contents(), model, buffSize, incompleteWriteBuffer, abandoned);
          }
          assert heap.blocks == (before - {NULL})[tempWriteData := heap.blocks[tempWriteData]];
          CommitEntry(newEntry, data);
        } else {
          Abandon(before, tempWriteData);
          fill := Grow(data, kreallocOk);
          if incompleteWriteBuffer == NULL {
            return Fail(ENOMEM), fill;
          }
          var newEntry := Entry(incompleteWriteBuffer, incompleteWriteBufferSize + |data|);
          CommitEntry(newEntry, model.staging.bytes);
        }
      } else {
        Abandon(before, tempWriteData);
        fill := Grow(data, kreallocOk);
        if incompleteWriteBuffer == NULL {
          return Fail(ENOMEM), fill;
        }
        incompleteWriteBufferSize := incompleteWriteBufferSize + |data|;
      }
      ret := Count(|data|);
    }

    /**
     krealloc of the staging buffer and the copy of the new data to its end; the size field is
     left for the caller.  On failure the old block is lost and the size goes stale.
     */
    method Grow(data: seq<byte>, kreallocOk: bool) returns (ghost fill: seq<byte>)
      requires Valid()
      modifies this`incompleteWriteBuffer, this`model, this`abandoned, heap
      ensures |fill| == old(model).staging.Stale()
      ensures Agrees(heap.blocks, ring.Contents(), model, buffSize, incompleteWriteBuffer, abandoned)
      ensures incompleteWriteBuffer != NULL <==> kreallocOk
      ensures if kreallocOk then
                && model == Dev(old(model).log,
                                Held((if old(model).staging.Absent? then fill else old(model).staging.bytes) + data))
                && Stages(heap.blocks, incompleteWriteBuffer, incompleteWriteBufferSize + |data|, model.staging)
                && abandoned == old(abandoned)
              else
                && model == Dev(old(model).log, Absent(old(model).staging.Size()))
                && Stages(heap.blocks, incompleteWriteBuffer, incompleteWriteBufferSize, model.staging)
                && |abandoned| == |old(abandoned)| + (if old(model).staging.Held? then 1 else 0)
    {
      hide Agrees;
      ghost var q, before, p, size := ring.Contents(), heap.blocks, incompleteWriteBuffer, incompleteWriteBufferSize;
      ghost var base;
      incompleteWriteBuffer, base :=
        KreallocAndCopy(heap, incompleteWriteBuffer, incompleteWriteBufferSize, data, kreallocOk);
      if incompleteWriteBuffer == NULL {
        fill := seq(model.staging.Stale(), _ => 0);
        heap.Kfree(incompleteWriteBuffer);
        AgreesAbandon(before, q, model, buffSize, p, abandoned, Absent(size));
        abandoned := abandoned + if p == NULL then {} else {p};
        model := model.(staging := Absent(size));
      } else {
        fill := if model.staging.Absent? then base else [];
        AgreesReplace(before, q, model, buffSize, p, incompleteWriteBuffer, base + data, abandoned, Held(base + data));
        model := model.(staging := Held(base + data));
      }
    }

    /** The tail of the commit path: add the entry, account for it, free what it evicts, clear the staging buffer. */
    method CommitEntry(newEntry: Entry, ghost command: Command)
      requires ring.Valid() && EntrySizes(ring.added) == Sizes(model.log)
      requires Agrees(heap.blocks, ring.Contents(), model, buffSize, newEntry.buffptr, abandoned)
      requires Holds(heap.blocks, newEntry, command)
      modifies this, ring, ring.entry, heap
      ensures Valid() && model == old(model).Commit(command) && abandoned == old(abandoned)
      ensures ring.added == old(ring.added) + [newEntry] && Holds(heap.blocks, newEntry, command)
      ensures incompleteWriteBuffer == NULL && incompleteWriteBufferSize == 0
    {
      hide Agrees, Holds, Slots, InSlot, Recent, Flatten;
      ghost var q := ring.Contents();
      HeldSize(heap.blocks, newEntry, command);
      AgreesCommit(heap.blocks, q, model, buffSize, newEntry, command, abandoned);
      var lostEntry, lostSize := ring.AddEntry(newEntry, 0);
      buffSize := buffSize + newEntry.size;
      if lostEntry != NULL {
        buffSize := buffSize - lostSize;
        heap.Kfree(lostEntry);
      }
      incompleteWriteBuffer := NULL;
      incompleteWriteBufferSize := 0;
      HistoryPush(ring.added[..|ring.added| - 1], newEntry, model.log, command);
      model := model.Commit(command);
      NewestHeld(heap.blocks, ring.added, model, buffSize, incompleteWriteBuffer, abandoned);
    }

    /** aesd_read: one byte per call, whatever the count. */
    method Read(file: File, count: nat, env: ReadEnv) returns (ret: Ret, delivered: Option<ReadReply>)
      requires Valid()
      modifies file
      ensures (ret, delivered) == model.Read(old(file.pos), count, env)
      ensures file.pos == old(file.pos) + (if ret.Count? then ret.n else 0)
      ensures !env.bufOk ==> ret == Fail(EINVAL) && delivered == None
      ensures env.bufOk && !env.lockOk ==> ret == Fail(ERESTARTSYS) && delivered == None
      ensures env.bufOk && env.lockOk ==>
                && ret == Count(if FindIn(EntrySizes(ring.added), old(file.pos)).Some? then 1 else 0)
                && (delivered.Some? <==> env.copyOk && ret == Count(1))
      // what is delivered comes from the slot and offset found
      ensures delivered.Some? ==>
                var hit := FindIn(EntrySizes(ring.added), old(file.pos)).value;
                && hit.entry < N && ring.entry[hit.entry].buffptr in heap.blocks
                && var block := heap.blocks[ring.entry[hit.entry].buffptr];
                   if hit.offset < ring.entry[hit.entry].size then
                     hit.offset < |block| && delivered.value == Byte(block[hit.offset])
                   else delivered.value == Stray
    {
      if !env.bufOk {
        return Fail(EINVAL), None;
      }
      if !env.lockOk {
        return Fail(ERESTARTSYS), None;
      }
      hide Agrees, Stages, Slots, FindIn, Dev.ReadAt;
      ReadsFoundEntry(heap.blocks, ring.added, model, buffSize, incompleteWriteBuffer, abandoned, file.pos);
      delivered := None;
      ret := Count(0);
      var entry := ring.Find(file.pos);
      if entry.Some? {
        var e := ring.entry[entry.value.entry];
        if env.copyOk {
          delivered := Some(if entry.value.offset < e.size then Byte(heap.blocks[e.buffptr][entry.value.offset])
                            else Stray);
        }
        file.pos := file.pos + 1;
        ret := Count(1);
      }
    }

    /**
     aesd_llseek.  fixed_size_llseek is a kernel function outside this model: moved is what it does
     for this file, offset and whence with the size it is given, a new position or an error.
     */
    method Llseek(file: File, moved: nat -> Option<nat>, lockOk: bool) returns (ret: Ret)
      requires Valid()
      modifies file
      ensures var target := moved(|model.Visible()|);
              && file.pos == (if lockOk && target.Some? then target.value else old(file.pos))
              && ret == if !lockOk then Fail(ERESTARTSYS)
                        else if target.Some? then Count(target.value) else Fail(EINVAL)
    {
      hide Holds, HoldsAll, Owns, Stages;
      if !lockOk {
        return Fail(ERESTARTSYS);
      }
      var target := moved(buffSize);
      if target.None? {
        return Fail(EINVAL);
      }
      file.pos := target.value;
      ret := Count(target.value);
    }

    /** aesd_adjust_file_offset. */
    method AdjustFileOffset(file: File, writeCmd: nat, writeCmdOffset: nat, lockOk: bool) returns (ret: Ret)
      requires Valid()
      modifies file
      ensures if !lockOk then ret == Fail(ERESTARTSYS) && file.pos == old(file.pos)
              else match model.SeekTarget(writeCmd, writeCmdOffset)
                case None => ret == Fail(EINVAL) && file.pos == old(file.pos)
                case Some(p) => ret == Count(0) && file.pos == p
      // the same in the slots themselves: the sizes of the slots before writeCmd, plus the offset
      ensures lockOk ==>
                if writeCmd < N && writeCmdOffset < ring.entry[writeCmd].size then
                  ret == Count(0) && file.pos == PrefixSum(EntrySizes(ring.entry[..]), writeCmd) + writeCmdOffset
                else ret == Fail(EINVAL) && file.pos == old(file.pos)
    {
      if !lockOk {
        return Fail(ERESTARTSYS);
      }
      hide Agrees, Stages, Slots, InSlot, Recent;
      SlotSizes(ring.added);
      ghost var sizes := model.SlotSizes();
      assert EntrySizes(ring.entry[..]) == sizes;
      if writeCmd >= N || writeCmdOffset >= ring.entry[writeCmd].size {
        return Fail(EINVAL);
      }
      var updatedFposOffset := 0;
      var i := 0;
      while i < writeCmd
        invariant i <= writeCmd
        invariant updatedFposOffset == PrefixSum(sizes, i)
      {
        updatedFposOffset := updatedFposOffset + ring.entry[i].size;
        i := i + 1;
      }
      file.pos := updatedFposOffset + writeCmdOffset;
      ret := Count(0);
    }

    /**
     The free loop of aesd_cleanup_module: each block of the ring is freed once, and what stays
     allocated is exactly the staging buffer and the abandoned blocks.
     */
    method Cleanup()
      requires Valid()
      modifies heap
      ensures heap.blocks == old(heap.blocks) - Pointers(ring.Contents())
      ensures heap.blocks.Keys == abandoned + (if incompleteWriteBuffer == NULL then {} else {incompleteWriteBuffer})
    {
      hide Agrees, Slots;
      ghost var s, q, before := ring.entry[..], ring.Contents(), heap.blocks;
      AgreesSlots(before, ring.added, model, buffSize, incompleteWriteBuffer, abandoned);
      var index := 0;
      while index < N
        invariant index <= N
        invariant heap.blocks == before - Pointers(s[..index])
      {
        FreeStep(before, s, index);
        heap.Kfree(ring.entry[index].buffptr);
        index := index + 1;
      }
      assert s[..N] == s;
    }

    /** Every block the driver has ever kept is accounted for. */
    lemma LiveBlocks()
      requires Valid()
      ensures |heap.blocks| == |model.Stored()| + (if model.staging.Held? then 1 else 0) + |abandoned|
    {
      var q := ring.Contents();
      PointerCount(q);
      HoldsAllLive(heap.blocks, q, model.Stored());
      var p := if model.staging.Held? then {incompleteWriteBuffer} else {};
      assert heap.blocks.Keys == Pointers(q) + p + abandoned;
      assert |Pointers(q) + p| == |Pointers(q)| + |p|;
    }
  }
}
