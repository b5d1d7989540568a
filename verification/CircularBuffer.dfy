/**
 The ring of write commands.  Its capacity is a symbolic constant, so nothing here is settled
 by unrolling the ten slots of the source.
 */
module CircularBuffer {
  import opened Bytes
  import opened Search

  /** AESDCHAR_MAX_WRITE_OPERATIONS_SUPPORTED; at most 254 so that the search's uint8_t counter fits. */
  type Capacity = n: int | 1 <= n <= 254 witness 10

  const N: Capacity

  newtype uint8 = x: int | 0 <= x < 256

  /** A kernel address; 0 is the null pointer. */
  type Ptr = nat

  const NULL: Ptr := 0

  datatype Entry = Entry(buffptr: Ptr, size: nat)

  const EMPTY: Entry := Entry(NULL, 0)

  function EntrySizes(es: seq<Entry>): seq<nat> {
    seq(|es|, i requires 0 <= i < |es| => es[i].size)
  }

  // ---------------------------------------------------------------- what k adds leave behind

  lemma {:induction false} MultiplesOfN(d: int)
    ensures d >= 2 ==> N * d >= N * 2
    ensures d <= 0 ==> N * d <= 0
    ensures d <= -1 ==> N * d + N <= 0
    decreases if d < 0 then -d else d
  {
    if d > 2 {
      MultiplesOfN(d - 1);
      assert N * d == N * (d - 1) + N;
    } else if d < -1 {
      MultiplesOfN(d + 1);
      assert N * d == N * (d + 1) - N;
    }
  }

  lemma ModuloUpToN(x: nat)
    requires x <= N
    ensures x % N == if x == N then 0 else x
  {
    DivideUpToN(x, x / N, x % N);
  }

  lemma DivideUpToN(x: nat, q: int, r: int)
    requires x <= N && x == N * q + r && 0 <= r < N
    ensures r == if x == N then 0 else x
  {
    MultiplesOfN(q);
  }

  /** in_offs++ or out_offs++, then %= N. */
  function Advance(offs: nat): (next: nat)
    requires offs < N
    ensures next == if offs + 1 == N then 0 else offs + 1
  {
    ModuloUpToN(offs + 1);
    (offs + 1) % N
  }

  /** in_offs after k adds: the slot the next item goes to. */
  function InSlot(k: nat): (s: nat)
    ensures s < N
  {
    if k == 0 then 0 else if InSlot(k - 1) + 1 == N then 0 else InSlot(k - 1) + 1
  }

  /** The physical slots after adding the items of h, one by one, to an empty ring. */
  function Slots<T>(h: seq<T>, empty: T): (s: seq<T>)
    ensures |s| == N
  {
    if |h| == 0 then seq(N, _ => empty)
    else Slots(h[..|h| - 1], empty)[InSlot(|h| - 1) := h[|h| - 1]]
  }

  /** How many items have been dropped after k adds. */
  function Dropped(k: nat): nat {
    if k <= N then 0 else k - N
  }

  /** The last min(|h|, N) items, oldest first. */
  function Recent<T>(h: seq<T>): (r: seq<T>)
    ensures |r| == if |h| <= N then |h| else N
  {
    h[Dropped(|h|)..]
  }

  /** The slot that holds the item of a given age (0 is the oldest) after k adds. */
  function SlotOf(k: nat, age: nat): (s: nat)
    ensures s < N
  {
    InSlot(Dropped(k) + age)
  }

  /** One add to a queue that keeps its last N items. */
  function Push<T>(q: seq<T>, x: T): seq<T> {
    if |q| < N then q + [x] else q[1..] + [x]
  }

  /** Up to N steps on, the slot has moved by that many places, wrapping at most once. */
  lemma {:induction false} InSlotAhead(k: nat, d: nat)
    requires d <= N
    ensures InSlot(k + d) == if InSlot(k) + d < N then InSlot(k) + d else InSlot(k) + d - N
  {
    if d > 0 {
      InSlotAhead(k, d - 1);
    }
  }

  lemma InSlotNext(k: nat)
    ensures InSlot(k + 1) == Advance(InSlot(k))
  {
  }

  lemma InSlotUpToN(k: nat)
    requires k <= N
    ensures InSlot(k) == if k == N then 0 else k
  {
    InSlotAhead(0, k);
  }

  lemma {:induction false} InSlotIsModulo(k: nat)
    ensures InSlot(k) == k % N
  {
    if k >= N {
      InSlotIsModulo(k - N);
      InSlotAhead(k - N, N);
      ModuloMinusN(k);
    } else {
      InSlotUpToN(k);
      ModuloUpToN(k);
    }
  }

  lemma {:induction false} ModuloMinusN(k: nat)
    requires k >= N
    ensures (k - N) % N == k % N
  {
    var d := k / N - (k - N) / N;
    assert k % N - (k - N) % N == N - N * d;
    MultiplesOfN(d);
  }

  /** Item i is still in its slot while it is among the last N. */
  lemma {:induction false} SlotHolds<T>(h: seq<T>, empty: T, i: nat)
    requires Dropped(|h|) <= i < |h|
    ensures Slots(h, empty)[InSlot(i)] == h[i]
  {
    if i < |h| - 1 {
      SlotHolds(h[..|h| - 1], empty, i);
      InSlotAhead(i, |h| - 1 - i);
    }
  }

  /** Slots not yet reached are still empty. */
  lemma {:induction false} SlotUnused<T>(h: seq<T>, empty: T, j: nat)
    requires |h| <= j < N
    ensures Slots(h, empty)[j] == empty
  {
    if |h| > 0 {
      SlotUnused(h[..|h| - 1], empty, j);
      InSlotUpToN(|h| - 1);
    }
  }

  /** Counting ages up from out_offs, wrapping at N, visits the live slots in age order. */
  lemma SlotOfAge(k: nat, age: nat)
    requires age < N && (k >= N || age < k)
    ensures var out := if k >= N then InSlot(k) else 0;
            SlotOf(k, age) == if out + age < N then out + age else out + age - N
  {
    hide InSlot;
    if k >= N {
      InSlotAhead(k - N, N);
      InSlotAhead(k - N, age);
    } else {
      InSlotUpToN(age);
    }
  }

  lemma RecentInSlot<T>(h: seq<T>, empty: T, age: nat)
    requires age < |Recent(h)|
    ensures Slots(h, empty)[SlotOf(|h|, age)] == Recent(h)[age]
  {
    SlotHolds(h, empty, Dropped(|h|) + age);
  }

  lemma UnfilledSlots<T>(h: seq<T>, empty: T, j: nat)
    requires |h| < N && j < N
    ensures Slots(h, empty)[j] == if j < |h| then h[j] else empty
  {
    if j < |h| {
      SlotHolds(h, empty, j);
      InSlotUpToN(j);
    } else {
      SlotUnused(h, empty, j);
    }
  }

  /**
   The bridge between slots and age order, for every history: cut at out_offs, the slots are the
   recent items; before the ring fills, the recent items come first and the other slots are empty.
   */
  lemma {:induction false} SlotsInAgeOrder<T>(h: seq<T>, empty: T)
    ensures var s, out := Slots(h, empty), InSlot(|h|);
            if |h| >= N then s[out..] + s[..out] == Recent(h)
            else s == h + seq(N - |h|, _ => empty) && Recent(h) == h
  {
    if |h| >= N {
      FullSlotsInOrder(h, empty);
    } else {
      UnfilledSlotsInOrder(h, empty);
    }
  }

  lemma RotatedAt<T>(s: seq<T>, out: nat, age: nat, slot: nat)
    requires out < |s| && age < |s| && slot == if out + age < |s| then out + age else out + age - |s|
    ensures (s[out..] + s[..out])[age] == s[slot]
  {
  }

  lemma {:induction false} FullSlotsInOrder<T>(h: seq<T>, empty: T)
    requires |h| >= N
    ensures var s, out := Slots(h, empty), InSlot(|h|); s[out..] + s[..out] == Recent(h)
  {
    hide Slots, InSlot, SlotOf, Recent;
    var s, out := Slots(h, empty), InSlot(|h|);
    var rotated := s[out..] + s[..out];
    forall age | 0 <= age < N
      ensures rotated[age] == Recent(h)[age]
    {
      RecentInSlot(h, empty, age);
      SlotOfAge(|h|, age);
      RotatedAt(s, out, age, SlotOf(|h|, age));
    }
    assert |rotated| == |Recent(h)|;
  }

  lemma {:induction false} UnfilledSlotsInOrder<T>(h: seq<T>, empty: T)
    requires |h| < N
    ensures Slots(h, empty) == h + seq(N - |h|, _ => empty) && Recent(h) == h
  {
    hide Slots, InSlot;
    forall j | 0 <= j < N
      ensures Slots(h, empty)[j] == (h + seq(N - |h|, _ => empty))[j]
    {
      UnfilledSlots(h, empty, j);
    }
  }

  lemma RecentPush<T>(h: seq<T>, x: T)
    ensures Recent(h + [x]) == Push(Recent(h), x)
  {
  }

  /** A queue that keeps its last N items, after all of h has been put in. */
  function Queued<T>(h: seq<T>): seq<T> {
    if |h| == 0 then [] else Push(Queued(h[..|h| - 1]), h[|h| - 1])
  }

  /** The ring in age order is that bounded queue. */
  lemma {:induction false} RecentIsBoundedQueue<T>(h: seq<T>)
    ensures Recent(h) == Queued(h)
  {
    if |h| > 0 {
      RecentIsBoundedQueue(h[..|h| - 1]);
      RecentPush(h[..|h| - 1], h[|h| - 1]);
      assert h[..|h| - 1] + [h[|h| - 1]] == h;
    }
  }

  lemma SlotsAdd<T>(h: seq<T>, empty: T, x: T)
    ensures Slots(h + [x], empty) == Slots(h, empty)[InSlot(|h|) := x]
  {
    assert (h + [x])[..|h|] == h;
  }

  /** Slots commute with taking sizes. */
  lemma {:induction false} SlotSizes(h: seq<Entry>)
    ensures EntrySizes(Slots(h, EMPTY)) == Slots(EntrySizes(h), 0)
  {
    if |h| > 0 {
      SlotSizes(h[..|h| - 1]);
      assert EntrySizes(h)[..|h| - 1] == EntrySizes(h[..|h| - 1]);
    }
  }

  // ---------------------------------------------------------------- the search over the ring

  /** The slot and in-entry offset the search returns in a ring to which entries of these sizes were added. */
  function FindIn(sizes: seq<nat>, charOffset: nat): Option<Hit> {
    match MachineSearch(Recent(sizes), 0, ToInt32(charOffset))
    case None => None
    case Some(hit) => Some(Hit(SlotOf(|sizes|, hit.entry), hit.offset))
  }

  lemma RecentEntrySizes(added: seq<Entry>)
    ensures Recent(EntrySizes(added)) == EntrySizes(Recent(added))
  {
  }

  /** Different live entries are in different slots. */
  lemma SlotOfInjective(k: nat, a: nat, b: nat)
    requires a < N && b < N && (k >= N || (a < k && b < k))
    ensures SlotOf(k, a) == SlotOf(k, b) ==> a == b
  {
    SlotOfAge(k, a);
    SlotOfAge(k, b);
  }

  /** For an in-range offset find returns the slot of age a and offset o if and only if (a, o) is the offset's place. */
  lemma {:induction false} FindPlaceIff(sizes: seq<nat>, charOffset: nat, age: nat, o: nat)
    requires Allocatable(Recent(sizes)) && InRange(Recent(sizes), charOffset)
    ensures FindIn(sizes, charOffset) == None <==> charOffset >= Total(Recent(sizes))
    ensures age < |Recent(sizes)| ==>
              (FindIn(sizes, charOffset) == Some(Hit(SlotOf(|sizes|, age), o)) <==>
                 IsPlaceOf(Recent(sizes), charOffset, Hit(age, o)))
  {
    hide Recent, InRange, Allocatable, ToInt32, SlotOf;
    MachineSearchExactIff(Recent(sizes), charOffset);
    LocateCorrect(Recent(sizes), charOffset);
    var found := Locate(Recent(sizes), 0, charOffset);
    if found.Some? && age < |Recent(sizes)| {
      assert IsPlaceOf(Recent(sizes), charOffset, found.value);
      SlotOfInjective(|sizes|, age, found.value.entry);
    }
  }

  /**
   What find means, for every reachable ring: with an in-range offset it returns the slot of the
   entry at a given age and an offset within that entry exactly when the offset is the total size
   of the older entries plus the in-entry offset, and nothing exactly when it is past the end.
   */
  lemma FindIsCorrect(added: seq<Entry>, charOffset: nat)
    requires Allocatable(EntrySizes(Recent(added))) && InRange(EntrySizes(Recent(added)), charOffset)
    ensures var sizes, r := EntrySizes(Recent(added)), FindIn(EntrySizes(added), charOffset);
            && (r == None <==> charOffset >= Total(sizes))
            && (forall age: nat, o: nat :: age < |sizes| ==>
                  (r == Some(Hit(SlotOf(|added|, age), o)) <==> IsPlaceOf(sizes, charOffset, Hit(age, o))))
            && (r.Some? ==>
                  exists age: nat ::
                    && age < |sizes| && Slots(added, EMPTY)[r.value.entry] == Recent(added)[age]
                    && IsPlaceOf(sizes, charOffset, Hit(age, r.value.offset)))
  {
    var sizes, r := EntrySizes(Recent(added)), FindIn(EntrySizes(added), charOffset);
    RecentEntrySizes(added);
    MachineSearchExactIff(sizes, charOffset);
    LocateCorrect(sizes, charOffset);
    forall age: nat, o: nat | age < |sizes|
      ensures r == Some(Hit(SlotOf(|added|, age), o)) <==> IsPlaceOf(sizes, charOffset, Hit(age, o))
    {
      FindPlaceIff(EntrySizes(added), charOffset, age, o);
    }
    if r.Some? {
      var hit := Locate(sizes, 0, charOffset).value;
      assert IsPlaceOf(sizes, charOffset, hit);
      RecentInSlot(added, EMPTY, hit.entry);
    }
  }

  /** struct aesd_circular_buffer. */
  class Ring {
    const entry: array<Entry>
    var inOffs: nat
    var outOffs: nat
    var full: bool
    /** Every entry ever added. */
    ghost var added: seq<Entry>

    /** Exactly the states reachable by init and adds: full is never cleared, and out_offs is 0 or in_offs. */
    ghost predicate Valid()
      reads this, entry
    {
      && entry.Length == N
      && entry[..] == Slots(added, EMPTY)
      && inOffs == InSlot(|added|)
      && (full <==> |added| >= N)
      && outOffs == (if full then inOffs else 0)
    }

    /** The live entries, oldest first. */
    ghost function Contents(): seq<Entry>
      reads this
    {
      Recent(added)
    }

    /**
     Every reachable ring, in closed form: in_offs counts the adds modulo N, out_offs never passes
     it, and before the ring fills the slots from in_offs on are unused.
     */
    lemma ReachableShape()
      requires Valid()
      ensures inOffs == |added| % N
      ensures if full then outOffs == inOffs else outOffs == 0 && inOffs == |added|
      ensures !(outOffs > inOffs)
      ensures forall j :: |added| <= j < N ==> entry[j] == EMPTY
      ensures Contents() == Queued(added)
    {
      InSlotIsModulo(|added|);
      RecentIsBoundedQueue(added);
      forall j | |added| <= j < N
        ensures entry[j] == EMPTY
      {
        SlotUnused(added, EMPTY, j);
      }
      if !full {
        InSlotUpToN(|added|);
      }
    }

    /** aesd_circular_buffer_init on a new buffer. */
    constructor ()
      ensures Valid() && added == [] && fresh(entry)
    {
      entry := new Entry[N](_ => EMPTY);
      inOffs, outOffs, full := 0, 0, false;
      added := [];
    }

    /** aesd_circular_buffer_add_entry; lost is the returned pointer, lostSize the *lost_size cell after the call. */
    method AddEntry(addEntry: Entry, lostSizeBefore: nat) returns (lost: Ptr, lostSize: nat)
      requires Valid()
      modifies this, entry
      ensures Valid()
      ensures added == old(added) + [addEntry]
      ensures Contents() == Push(old(Contents()), addEntry)
      ensures if old(full) then Entry(lost, lostSize) == old(Contents())[0]
              else lost == NULL && lostSize == lostSizeBefore
    {
      hide Slots, InSlot, SlotOf, Recent, Push;
      ghost var k := |added|;
      InSlotNext(k);
      if !full {
        InSlotUpToN(k);
        InSlotUpToN(k + 1);
      }
      SlotsAdd(added, EMPTY, addEntry);
      RecentPush(added, addEntry);
      if full {
        AgeInSlot(0);
        lost := entry[outOffs].buffptr;
        lostSize := entry[outOffs].size;
        outOffs := Advance(outOffs);
        entry[inOffs] := addEntry;
        inOffs := Advance(inOffs);
      } else {
        entry[inOffs] := addEntry;
        inOffs := Advance(inOffs);
        if inOffs == outOffs {
          full := true;
        }
        lost, lostSize := NULL, lostSizeBefore;
      }
      added := added + [addEntry];
    }

    /** Size of the live entry of a given age, read from its slot. */
    lemma AgeInSlot(age: nat)
      requires Valid() && age < |Contents()|
      ensures SlotOf(|added|, age) == if outOffs + age < N then outOffs + age else outOffs + age - N
      ensures entry[SlotOf(|added|, age)] == Contents()[age]
    {
      RecentInSlot(added, EMPTY, age);
      SlotOfAge(|added|, age);
    }

    lemma Unfilled()
      requires Valid() && !full
      ensures inOffs == |Contents()| && Contents() == added
    {
      InSlotUpToN(|added|);
    }

    /** aesd_circular_buffer_find_entry_offset_for_fpos, with its 8-, 32- and 64-bit arithmetic. */
    method Find(charOffset: nat) returns (r: Option<Hit>)
      requires Valid()
      ensures r == FindIn(EntrySizes(added), charOffset)
    {
      hide Slots, InSlot, SlotOf, Recent, Dropped, ToInt32, SubSize, AddBack;
      var charOffsetSigned := ToInt32(charOffset);
      ghost var sizes := EntrySizes(Contents());
      RecentEntrySizes(added);

      if !full {
        Unfilled();
      }

      // Scenario B
      if inOffs > outOffs {
        var index: uint8 := 0;
        while index as nat < N
          invariant index as nat <= N
          invariant var age := if index as nat <= inOffs then index as nat else inOffs;
            MachineSearch(sizes, 0, ToInt32(charOffset)) == MachineSearch(sizes, age, charOffsetSigned)
          invariant charOffsetSigned < TWO_31 && (index > 0 ==> charOffsetSigned >= 0)
        {
          if index as nat < outOffs || index as nat > inOffs {
            index := index + 1;
            continue;
          }
          if index as nat < inOffs {
            AgeInSlot(index as nat);
          } else {
            SlotUnused(added, EMPTY, index as nat);
            StepExact(charOffsetSigned, 0);
          }
          charOffsetSigned := SubSize(charOffsetSigned, entry[index].size);
          if charOffsetSigned < 0 {
            return Some(Hit(index as nat, AddBack(charOffsetSigned, entry[index].size)));
          }
          index := index + 1;
        }
      }

      // Scenarios C and D
      if outOffs > inOffs || (outOffs == inOffs && full) {
        var entriesChecked: uint8 := 0;
        var index: uint8 := 0;
        while index as nat < N
          invariant index as nat <= N
          invariant entriesChecked as nat == if index as nat < outOffs then 0 else index as nat - outOffs
          invariant MachineSearch(sizes, 0, ToInt32(charOffset))
                 == MachineSearch(sizes, entriesChecked as nat, charOffsetSigned)
        {
          if index as nat < outOffs {
            index := index + 1;
            continue;
          }
          AgeInSlot(entriesChecked as nat);
          entriesChecked := entriesChecked + 1;
          charOffsetSigned := SubSize(charOffsetSigned, entry[index].size);
          if charOffsetSigned < 0 {
            return Some(Hit(index as nat, AddBack(charOffsetSigned, entry[index].size)));
          }
          index := index + 1;
        }

        index := 0;
        while index as nat < N
          invariant index as nat <= outOffs
          invariant entriesChecked as nat == N - outOffs + index as nat
          invariant MachineSearch(sizes, 0, ToInt32(charOffset))
                 == MachineSearch(sizes, entriesChecked as nat, charOffsetSigned)
        {
          entriesChecked := entriesChecked + 1;
          if entriesChecked as nat - 1 == N {
            return None;
          }
          AgeInSlot(entriesChecked as nat - 1);
          charOffsetSigned := SubSize(charOffsetSigned, entry[index].size);
          if charOffsetSigned < 0 {
            return Some(Hit(index as nat, AddBack(charOffsetSigned, entry[index].size)));
          }
          if index as nat > inOffs {
            // The source's error return: never reached.
            assert false;
          }
          index := index + 1;
        }
      }
      return None;
    }
  }
}
