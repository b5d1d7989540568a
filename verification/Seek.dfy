/** Where AESDCHAR_IOCSEEKTO lands, in rotated and unrotated rings. */
module Seek {
  import opened Bytes
  import opened Search
  import opened CircularBuffer
  import opened DeviceModel

  /** The slots hold the stored commands and nothing else. */
  lemma SlotsHoldStored(d: Dev)
    ensures Total(d.SlotSizes()) == |d.Visible()|
    ensures var out := InSlot(|d.log|);
            if |d.log| >= N then d.SlotSizes()[out..] + d.SlotSizes()[..out] == d.StoredSizes()
            else d.SlotSizes() == d.StoredSizes() + seq(N - |d.log|, _ => 0)
  {
    hide Slots, InSlot, Recent, Flatten, PrefixSum;
    var h, s, out := Sizes(d.log), d.SlotSizes(), InSlot(|d.log|);
    SlotsInAgeOrder(h, 0);
    RecentSizes(d.log);
    VisibleIsStreamSuffix(d);
    if |d.log| >= N {
      assert s == s[..out] + s[out..];
      TotalRotate(s[..out], s[out..]);
    } else {
      var unused := seq(N - |d.log|, _ => 0);
      TotalRotate(d.StoredSizes(), unused);
      TotalZero(unused, |unused|);
      assert s == d.StoredSizes() + unused;
    }
  }

  lemma RecentSizes(log: seq<Command>)
    ensures Recent(Sizes(log)) == Sizes(Recent(log))
  {
  }

  lemma {:induction false} TotalZero(zeros: seq<nat>, n: nat)
    requires n <= |zeros| && forall i :: 0 <= i < |zeros| ==> zeros[i] == 0
    ensures PrefixSum(zeros, n) == 0
  {
    if n > 0 {
      TotalZero(zeros, n - 1);
    }
  }

  /** Some accepted pair lands on the position. */
  ghost predicate IsTarget(d: Dev, p: nat) {
    exists w: nat, o: nat :: d.SeekTarget(w, o) == Some(p)
  }

  /**
   Seek is a bijection, in every device state, rotated or not: each accepted pair lands inside the
   visible bytes, no two land on the same byte, and every byte is the target of one pair.
   */
  lemma SeekBijection(d: Dev)
    ensures forall w: nat, o: nat :: d.SeekTarget(w, o).Some? ==> d.SeekTarget(w, o).value < |d.Visible()|
    ensures forall w: nat, o: nat, w': nat, o': nat ::
              d.SeekTarget(w, o).Some? && d.SeekTarget(w, o) == d.SeekTarget(w', o') ==> w == w' && o == o'
    ensures forall p: nat :: p < |d.Visible()| ==> IsTarget(d, p)
  {
    forall w: nat, o: nat | d.SeekTarget(w, o).Some?
      ensures d.SeekTarget(w, o).value < |d.Visible()|
    {
      SeekInside(d, w, o);
    }
    forall w: nat, o: nat, w': nat, o': nat | d.SeekTarget(w, o).Some? && d.SeekTarget(w, o) == d.SeekTarget(w', o')
      ensures w == w' && o == o'
    {
      PlaceUnique(d.SlotSizes(), d.SeekTarget(w, o).value, Hit(w, o), Hit(w', o'));
    }
    forall p: nat | p < |d.Visible()|
      ensures IsTarget(d, p)
    {
      var w, o := SeekOnto(d, p);
    }
  }

  lemma SeekInside(d: Dev, w: nat, o: nat)
    requires d.SeekTarget(w, o).Some?
    ensures d.SeekTarget(w, o).value < |d.Visible()|
  {
    SlotsHoldStored(d);
    PrefixSumMonotone(d.SlotSizes(), w + 1, N);
  }

  lemma SeekOnto(d: Dev, p: nat) returns (w: nat, o: nat)
    requires p < |d.Visible()|
    ensures d.SeekTarget(w, o) == Some(p)
  {
    var s := d.SlotSizes();
    SlotsHoldStored(d);
    LocateFrom(s, 0, p);
    var hit := Locate(s, 0, p).value;
    w, o := hit.entry, hit.offset;
  }

  /** A command number at or past the number stored is always refused, and so is an offset past the slot's entry. */
  lemma SeekRefusedIff(d: Dev, w: nat, o: nat)
    ensures d.SeekTarget(w, o) == None <==> w >= |d.Stored()| || o >= d.SlotSizes()[w]
  {
    SlotsHoldStored(d);
    if |d.Stored()| <= w < N {
      var unused := seq(N - |d.log|, _ => 0);
      assert d.SlotSizes()[w] == (d.StoredSizes() + unused)[w] == unused[w - |d.log|];
    }
  }

  /**
   Accepted pairs land in the order of slots and then of offsets: with the bijection, each lands at
   its own place in the list of all accepted pairs.
   */
  lemma SeekMonotone(d: Dev, w: nat, o: nat, w': nat, o': nat)
    requires d.SeekTarget(w, o).Some? && d.SeekTarget(w', o').Some?
    ensures d.SeekTarget(w, o).value < d.SeekTarget(w', o').value <==> w < w' || (w == w' && o < o')
  {
    var s := d.SlotSizes();
    if w < w' {
      PrefixSumMonotone(s, w + 1, w');
    } else if w' < w {
      PrefixSumMonotone(s, w' + 1, w);
    }
  }

  // ---------------------------------------------------------------- where a seek lands, in bytes

  /** The age of the command in slot w of a full ring whose oldest command is in slot out. */
  function AgeOfSlot(out: nat, w: nat): nat
    requires out < N && w < N
  {
    if w >= out then w - out else N - out + w
  }

  /** The commands in the slots before w, when the oldest of N is in slot out: the newest out come first. */
  function SlotsBefore(stored: seq<Command>, out: nat, w: nat): seq<Command>
    requires |stored| == N && out < N && w < N
  {
    if w >= out then stored[N - out..] + stored[..w - out] else stored[N - out..N - out + w]
  }

  /**
   Where a seek lands in a full ring, rotated or not: it is refused exactly when the offset is past
   the command in that slot, and else lands behind all the bytes of the commands in the slots
   before, which are the newest out_offs commands and then the oldest ones.
   */
  lemma SeekTargetFull(d: Dev, w: nat, o: nat)
    requires |d.log| >= N
    ensures var stored, out := d.Stored(), InSlot(|d.log|);
            d.SeekTarget(w, o) == if w >= N || o >= |stored[AgeOfSlot(out, w)]| then None
                                  else Some(|Flatten(SlotsBefore(stored, out, w))| + o)
  {
    hide Flatten, Recent, Slots, SlotsBefore, AgeOfSlot, InSlot;
    if w < N {
      SlotsHoldStored(d);
      SlotInBytes(d.SlotSizes(), d.Stored(), InSlot(|d.log|), w);
    }
  }

  lemma SlotInBytes(s: seq<nat>, stored: seq<Command>, out: nat, w: nat)
    requires |s| == |stored| == N && out < N && w < N
    requires s[out..] + s[..out] == Sizes(stored)
    ensures s[w] == |stored[AgeOfSlot(out, w)]|
    ensures PrefixSum(s, w) == |Flatten(SlotsBefore(stored, out, w))|
  {
    hide Flatten, SlotsBefore, PrefixSum;
    var newest, oldest := stored[N - out..], stored[..N - out];
    RotatedBack(s, out, Sizes(stored));
    assert Sizes(newest) == Sizes(stored)[N - out..] && Sizes(oldest) == Sizes(stored)[..N - out];
    SlotSizeByAge(s, out, Sizes(stored), w);
    PrefixSumConcat(Sizes(newest), Sizes(oldest), w);
    BytesBefore(stored, out, w);
  }

  lemma RotatedBack(s: seq<nat>, out: nat, z: seq<nat>)
    requires |s| == N && out < N && s[out..] + s[..out] == z
    ensures s == z[N - out..] + z[..N - out]
  {
    assert z[N - out..] == s[..out] && z[..N - out] == s[out..];
  }

  lemma SlotSizeByAge(s: seq<nat>, out: nat, z: seq<nat>, w: nat)
    requires |s| == |z| == N && out < N && w < N && s == z[N - out..] + z[..N - out]
    ensures s[w] == z[AgeOfSlot(out, w)]
  {
  }

  lemma BytesBefore(stored: seq<Command>, out: nat, w: nat)
    requires |stored| == N && out < N && w < N
    ensures var newest, oldest := stored[N - out..], stored[..N - out];
            |Flatten(SlotsBefore(stored, out, w))| ==
              if w <= out then PrefixSum(Sizes(newest), w)
              else Total(Sizes(newest)) + PrefixSum(Sizes(oldest), w - out)
  {
    hide Flatten, PrefixSum, Sizes;
    var newest, oldest := stored[N - out..], stored[..N - out];
    if w > out {
      assert oldest[..w - out] == stored[..w - out];
      JoinedLength(newest, oldest, w - out);
    } else if w == out {
      assert SlotsBefore(stored, out, w) == newest[..w];
      FlattenLength(newest, w);
    } else {
      assert newest[..w] == stored[N - out..N - out + w];
      FlattenLength(newest, w);
    }
  }

  lemma JoinedLength(a: seq<Command>, b: seq<Command>, n: nat)
    requires n <= |b|
    ensures |Flatten(a + b[..n])| == Total(Sizes(a)) + PrefixSum(Sizes(b), n)
  {
    hide Flatten, PrefixSum;
    FlattenConcat(a, b[..n]);
    FlattenLength(b, n);
    FlattenTotal(a);
  }

  /** And before the ring fills: behind all the bytes of the older commands. */
  lemma SeekTargetUnfilled(d: Dev, w: nat, o: nat)
    requires |d.log| < N
    ensures d.SeekTarget(w, o) == if w >= |d.Stored()| || o >= |d.Stored()[w]| then None
                                  else Some(|Flatten(d.Stored()[..w])| + o)
  {
    UnrotatedSeekRight(d, w, o);
    if w < |d.Stored()| {
      FlattenLength(d.Stored(), w);
    }
  }

  // ---------------------------------------------------------------- age order

  /** The seek does what the ioctl is for: offset o of the w-th oldest stored command. */
  predicate SeekRight(d: Dev, w: nat, o: nat) {
    d.SeekTarget(w, o) == d.AgeTarget(w, o)
  }

  /** out_offs after k commits. */
  function OutOffs(k: nat): nat {
    if k < N then 0 else InSlot(k)
  }

  /** With out_offs at 0 the slots are in age order, so every seek is right. */
  lemma UnrotatedSeekRight(d: Dev, w: nat, o: nat)
    requires OutOffs(|d.log|) == 0
    ensures SeekRight(d, w, o)
  {
    hide Recent, Slots, Flatten, PrefixSum;
    SlotCount(d);
    var s, stored := d.SlotSizes(), d.StoredSizes();
    SlotsHoldStored(d);
    if |d.log| >= N {
      assert s[0..] + s[..0] == s;
    } else if w < |stored| {
      PrefixSumConcat(stored, s[|stored|..], w);
      assert s == stored + s[|stored|..];
    }
  }

  /** Recent sizes are the sizes of the recent commands; find, on a device, is find on those. */
  lemma FindOnDevice(d: Dev, p: nat, age: nat, o: nat)
    requires Allocatable(d.StoredSizes()) && InRange(d.StoredSizes(), p)
    ensures d.Find(p) == None <==> p >= |d.Visible()|
    ensures age < |d.Stored()| ==>
              (d.Find(p) == Some(Hit(SlotOf(|d.log|, age), o)) <==> IsPlaceOf(d.StoredSizes(), p, Hit(age, o)))
  {
    hide InRange, Allocatable, FindIn, SlotOf, Flatten;
    RecentSizes(d.log);
    VisibleIsStreamSuffix(d);
    FindPlaceIff(Sizes(d.log), p, age, o);
  }

  /** With out_offs at 0 the w-th oldest command is in slot w. */
  lemma UnrotatedSlot(k: nat, w: nat)
    requires OutOffs(k) == 0 && w < N && (k >= N || w < k)
    ensures SlotOf(k, w) == w
  {
    SlotOfAge(k, w);
  }

  lemma StoredCount(d: Dev, w: nat)
    requires w < |d.Stored()|
    ensures w < N && (|d.log| >= N || w < |d.log|)
  {
  }

  /** Seek, then find or read: entry w at offset o, and its byte. */
  lemma SeekReadRoundTrip(d: Dev, w: nat, o: nat)
    requires OutOffs(|d.log|) == 0
    requires w < |d.Stored()| && o < |d.Stored()[w]|
    requires Allocatable(d.StoredSizes()) && InRange(d.StoredSizes(), PrefixSum(d.StoredSizes(), w) + o)
    ensures d.SeekTarget(w, o).Some?
    ensures d.Find(d.SeekTarget(w, o).value) == Some(Hit(w, o))
    ensures d.ReadAt(d.SeekTarget(w, o).value) == Byte(d.Stored()[w][o])
  {
    hide InRange, Allocatable, OutOffs, InSlot, SlotOf, Slots, Flatten, Dev.Find, Dev.ReadAt, Dev.ByteAt;
    UnrotatedSeekRight(d, w, o);
    StoredCount(d, w);
    UnrotatedSlot(|d.log|, w);
    ByteAtPlace(d, w, o);
    var p := PrefixSum(d.StoredSizes(), w) + o;
    FindOnDevice(d, p, w, o);
    ReadsTheStream(d, p);
  }

  lemma ByteAtPlace(d: Dev, w: nat, o: nat)
    requires w < |d.Stored()| && o < |d.Stored()[w]|
    ensures d.ByteAt(PrefixSum(d.StoredSizes(), w) + o) == Byte(d.Stored()[w][o])
  {
    FlattenIndex(d.Stored(), w, o);
  }

  /** And back: seeking to what find returns for any visible in-range position gives the position back. */
  lemma FindSeekRoundTrip(d: Dev, p: nat)
    requires OutOffs(|d.log|) == 0 && p < |d.Visible()|
    requires Allocatable(d.StoredSizes()) && InRange(d.StoredSizes(), p)
    ensures var found := d.Find(p);
            found.Some? && d.SeekTarget(found.value.entry, found.value.offset) == Some(p)
  {
    hide InRange, Allocatable, OutOffs, InSlot, SlotOf, Slots, Flatten, Dev.Find;
    VisibleIsStreamSuffix(d);
    LocateFrom(d.StoredSizes(), 0, p);
    var hit := Locate(d.StoredSizes(), 0, p).value;
    FindOnDevice(d, p, hit.entry, hit.offset);
    StoredCount(d, hit.entry);
    UnrotatedSlot(|d.log|, hit.entry);
    UnrotatedSeekRight(d, hit.entry, hit.offset);
  }

  /**
   Rotated or not: what find returns at an accepted target is offset o of the w-th oldest command
   exactly when that command has such an offset and the slots before slot w hold as many bytes as
   the w oldest commands.
   */
  lemma FindAfterSeekIff(d: Dev, w: nat, o: nat)
    requires d.SeekTarget(w, o).Some?
    requires Allocatable(d.StoredSizes()) && InRange(d.StoredSizes(), d.SeekTarget(w, o).value)
    ensures (w < |d.Stored()| && d.Find(d.SeekTarget(w, o).value) == Some(Hit(SlotOf(|d.log|, w), o))) <==>
            && w < |d.Stored()| && o < |d.Stored()[w]|
            && PrefixSum(d.SlotSizes(), w) == PrefixSum(d.StoredSizes(), w)
  {
    if w < |d.Stored()| {
      FindOnDevice(d, d.SeekTarget(w, o).value, w, o);
    }
  }

  /** In one state: every seek is right exactly when the slots, in slot order, have the sizes of the oldest commands. */
  lemma SeeksRightIffSizesInOrder(d: Dev)
    ensures (forall w: nat, o: nat :: SeekRight(d, w, o)) <==>
            d.SlotSizes()[..|d.Stored()|] == d.StoredSizes()
  {
    var s, stored := d.SlotSizes(), d.StoredSizes();
    SlotCount(d);
    if s[..|stored|] == stored {
      forall w: nat, o: nat
        ensures SeekRight(d, w, o)
      {
        SizesInOrderSeekRight(d, w, o);
      }
    } else {
      var w :| 0 <= w < |stored| && s[w] != stored[w];
      var o := if s[w] < stored[w] then s[w] else stored[w];
      assert !SeekRight(d, w, o);
    }
  }

  lemma SlotCount(d: Dev)
    ensures |d.StoredSizes()| == |d.Stored()| <= |d.SlotSizes()| == N
  {
  }

  lemma SizesInOrderSeekRight(d: Dev, w: nat, o: nat)
    requires d.SlotSizes()[..|d.Stored()|] == d.StoredSizes()
    ensures SeekRight(d, w, o)
  {
    var s, stored := d.SlotSizes(), d.StoredSizes();
    SeekRefusedIff(d, w, o);
    if w < |stored| {
      assert s == stored + s[|stored|..];
      PrefixSumConcat(stored, s[|stored|..], w);
      assert s[w] == stored[w];
    }
  }

  /** k commits of which only the newest is longer than one byte. */
  function LongNewest(k: nat): Dev
    requires k > 0
  {
    Dev(seq(k, i => if i == k - 1 then [0, NEWLINE] else [NEWLINE]), Absent(0))
  }

  /**
   Seeks are right for every content exactly when out_offs is 0.  In a rotated ring the newest
   command sits in the slot before out_offs, so a seek to its second byte is accepted under the
   number of an older, shorter command.
   */
  lemma SeeksRightIffUnrotated(k: nat)
    ensures (forall d: Dev, w: nat, o: nat :: |d.log| == k ==> SeekRight(d, w, o)) <==> OutOffs(k) == 0
  {
    if OutOffs(k) == 0 {
      forall d: Dev, w: nat, o: nat | |d.log| == k
        ensures SeekRight(d, w, o)
      {
        UnrotatedSeekRight(d, w, o);
      }
    } else {
      var d, w := LongNewest(k), OutOffs(k) - 1;
      RotatedSeekWrong(k);
      assert |d.log| == k && !SeekRight(d, w, 1);
    }
  }

  lemma RotatedSeekWrong(k: nat)
    requires OutOffs(k) != 0
    ensures var d, w := LongNewest(k), OutOffs(k) - 1;
            && w < N
            && d.SeekTarget(w, 1).Some?
            && d.AgeTarget(w, 1) == None
  {
    var d, w := LongNewest(k), OutOffs(k) - 1;
    SlotHolds(Sizes(d.log), 0, k - 1);
    assert InSlot(k - 1) == w;
    assert Sizes(d.log)[k - 1] == 2;
    assert d.Stored()[w] == d.log[Dropped(k) + w];
  }
}
