/**
 The byte-offset search of the ring, as a function of the entry sizes in the order visited:
 once with unbounded integers (Locate), once with the source's machine arithmetic
 (MachineSearch: a 32-bit signed running offset, 64-bit unsigned subtraction and add-back).
 */
module Search {
  import opened Bytes

  const TWO_31: int := 0x8000_0000
  const TWO_32: int := 0x1_0000_0000
  const TWO_64: int := 0x1_0000_0000_0000_0000

  /** Where a search stopped: which visited entry, and the offset handed back with it. */
  datatype Hit = Hit(entry: nat, offset: nat)

  // ---------------------------------------------------------------- unbounded search

  function Locate(sizes: seq<nat>, from: nat, offset: nat): Option<Hit>
    requires from <= |sizes|
    decreases |sizes| - from
  {
    if from == |sizes| then None
    else if offset < sizes[from] then Some(Hit(from, offset))
    else Locate(sizes, from + 1, offset - sizes[from])
  }

  /** (e, o) is the place of a byte offset: the sizes before e plus o, with o inside e. */
  predicate IsPlaceOf(sizes: seq<nat>, offset: nat, hit: Hit) {
    && hit.entry < |sizes|
    && hit.offset < sizes[hit.entry]
    && offset == PrefixSum(sizes, hit.entry) + hit.offset
  }

  lemma PlaceUnique(sizes: seq<nat>, offset: nat, h1: Hit, h2: Hit)
    requires IsPlaceOf(sizes, offset, h1) && IsPlaceOf(sizes, offset, h2)
    ensures h1 == h2
  {
    if h1.entry < h2.entry {
      PrefixSumMonotone(sizes, h1.entry + 1, h2.entry);
    } else if h2.entry < h1.entry {
      PrefixSumMonotone(sizes, h2.entry + 1, h1.entry);
    }
  }

  lemma {:induction false} LocateFrom(sizes: seq<nat>, from: nat, offset: nat)
    requires from <= |sizes|
    ensures var r := Locate(sizes, from, offset); var whole := PrefixSum(sizes, from) + offset;
            && (r.Some? ==> IsPlaceOf(sizes, whole, r.value))
            && (r.None? <==> whole >= Total(sizes))
    decreases |sizes| - from
  {
    if from < |sizes| {
      if offset < sizes[from] {
        PrefixSumMonotone(sizes, from + 1, |sizes|);
      } else {
        LocateFrom(sizes, from + 1, offset - sizes[from]);
      }
    }
  }

  /** The search finds (e, o) iff (e, o) is the place of the offset, and nothing iff it is past the end. */
  lemma LocateCorrect(sizes: seq<nat>, offset: nat)
    ensures forall hit :: Locate(sizes, 0, offset) == Some(hit) <==> IsPlaceOf(sizes, offset, hit)
    ensures Locate(sizes, 0, offset) == None <==> offset >= Total(sizes)
  {
    LocateFrom(sizes, 0, offset);
    forall hit | IsPlaceOf(sizes, offset, hit)
      ensures Locate(sizes, 0, offset) == Some(hit)
    {
      PrefixSumMonotone(sizes, hit.entry + 1, |sizes|);
      PlaceUnique(sizes, offset, hit, Locate(sizes, 0, offset).value);
    }
  }

  // ---------------------------------------------------------------- machine arithmetic

  /** Conversion to a 32-bit signed int: the low 32 bits read as two's complement. */
  function ToInt32(x: int): (r: int)
    ensures -TWO_31 <= r < TWO_31
  {
    var m := x % TWO_32;
    if m < TWO_31 then m else m - TWO_32
  }

  /** Conversion to a 64-bit size_t, sign-extending a negative int. */
  function ToSize(x: int): (r: nat)
    ensures r < TWO_64
  {
    x % TWO_64
  }

  /** char_offset_signed -= size. */
  function SubSize(c: int, size: nat): (r: int)
    ensures -TWO_31 <= r < TWO_31
  {
    ToInt32(ToSize(ToSize(c) - size))
  }

  /** char_offset_signed + size, stored into a size_t. */
  function AddBack(c: int, size: nat): nat {
    ToSize(ToSize(c) + size)
  }

  function MachineSearch(sizes: seq<nat>, from: nat, c: int): (r: Option<Hit>)
    requires from <= |sizes|
    ensures r.Some? ==> from <= r.value.entry < |sizes|
    decreases |sizes| - from
  {
    if from == |sizes| then None
    else
      var c' := SubSize(c, sizes[from]);
      if c' < 0 then Some(Hit(from, AddBack(c', sizes[from])))
      else MachineSearch(sizes, from + 1, c')
  }

  lemma SubSizeIsWrappedDifference(c: int, size: nat)
    ensures SubSize(c, size) == ToInt32(c - size)
  {
    var q1 := c / TWO_64;
    var x := ToSize(c) - size;
    var q2 := x / TWO_64;
    assert ToSize(x) == c - size - (q1 + q2) * TWO_64;
    WrapTwice(c - size, q1 + q2);
  }

  lemma WrapTwice(x: int, q: int)
    ensures (x - q * TWO_64) % TWO_32 == x % TWO_32
  {
    var y := x - q * TWO_64;
    var d, m := x / TWO_32, x % TWO_32;
    assert y == (d - q * TWO_32) * TWO_32 + m;
  }

  /** One step of the machine search, from an offset the 32-bit int holds exactly. */
  lemma StepExact(c: int, size: nat)
    requires 0 <= c < TWO_31 && size <= TWO_31
    ensures SubSize(c, size) == c - size
    ensures c < size ==> AddBack(c - size, size) == c
  {
    SubSizeIsWrappedDifference(c, size);
  }

  /** One step from a negative offset: it stays negative, or wraps round to the true difference. */
  lemma StepFromNegative(r: int, size: nat)
    requires TWO_31 <= r < TWO_32 && size <= TWO_31
    ensures ToInt32(r) == r - TWO_32
    ensures if r < TWO_31 + size then SubSize(r - TWO_32, size) == r - size >= 0
            else SubSize(r - TWO_32, size) == r - TWO_32 - size < 0
  {
    SubSizeIsWrappedDifference(r - TWO_32, size);
  }

  lemma StrayAddBack(r: int, size: nat)
    requires TWO_31 + size <= r < TWO_32
    ensures AddBack(r - TWO_32 - size, size) == TWO_64 + r - TWO_32 >= size
  {
    assert ToSize(r - TWO_32 - size) == TWO_64 + r - TWO_32 - size;
  }

  /** Every entry is at most 2^31 bytes: far above what kmalloc can hand out. */
  predicate Allocatable(sizes: seq<nat>) {
    forall i :: 0 <= i < |sizes| ==> sizes[i] <= TWO_31
  }

  lemma SmallTotalAllocatable(sizes: seq<nat>)
    requires Total(sizes) < TWO_31
    ensures Allocatable(sizes)
  {
    forall i | 0 <= i < |sizes|
      ensures sizes[i] <= TWO_31
    {
      PrefixSumMonotone(sizes, i + 1, |sizes|);
    }
  }

  /** Below 2^31 the machine search and the unbounded search take the same steps. */
  lemma {:induction false} MachineStepsExact(sizes: seq<nat>, from: nat, c: nat)
    requires from <= |sizes| && Allocatable(sizes) && c < TWO_31
    ensures MachineSearch(sizes, from, c) == Locate(sizes, from, c)
    decreases |sizes| - from
  {
    if from < |sizes| {
      StepExact(c, sizes[from]);
      if c >= sizes[from] {
        MachineStepsExact(sizes, from + 1, c - sizes[from]);
      }
    }
  }

  /**
   The guard under which the machine search is right, in terms a caller can evaluate:
   the low 32 bits of the offset are not turned into a stray hit in the oldest entry, and an
   offset of 2^32 or more does not alias a stored byte.
   */
  predicate InRange(sizes: seq<nat>, offset: nat) {
    |sizes| == 0
    || (&& offset % TWO_32 < TWO_31 + sizes[0]
        && (offset < TWO_32 || Total(sizes) <= offset % TWO_32))
  }

  /** What the machine search does, for every offset: it searches for the low 32 bits. */
  lemma {:induction false} MachineSearchesLowBits(sizes: seq<nat>, offset: nat)
    requires Allocatable(sizes)
    ensures var r := offset % TWO_32; var found := MachineSearch(sizes, 0, ToInt32(offset));
            if |sizes| == 0 || r < TWO_31 + sizes[0] then found == Locate(sizes, 0, r)
            else found.Some? && found.value.entry == 0 && found.value.offset >= sizes[0]
  {
    var r := offset % TWO_32;
    assert ToInt32(offset) == ToInt32(r);
    if r < TWO_31 {
      MachineStepsExact(sizes, 0, r);
    } else if |sizes| > 0 {
      StepFromNegative(r, sizes[0]);
      if r < TWO_31 + sizes[0] {
        MachineStepsExact(sizes, 1, r - sizes[0]);
      } else {
        StrayAddBack(r, sizes[0]);
      }
    }
  }

  /** Two offsets are found at the same place only if they are equal or both past the end. */
  lemma SamePlaceIff(sizes: seq<nat>, r: nat, offset: nat)
    requires r <= offset
    ensures Locate(sizes, 0, r) == Locate(sizes, 0, offset) <==> r == offset || Total(sizes) <= r
  {
    LocateFrom(sizes, 0, r);
    LocateFrom(sizes, 0, offset);
  }

  lemma PlaceInsideEntry(sizes: seq<nat>, offset: nat, hit: Hit)
    requires Locate(sizes, 0, offset) == Some(hit)
    ensures IsPlaceOf(sizes, offset, hit)
  {
    LocateFrom(sizes, 0, offset);
  }

  /** The machine search equals the unbounded search exactly when the offset is in range. */
  lemma {:induction false} MachineSearchExactIff(sizes: seq<nat>, offset: nat)
    requires Allocatable(sizes)
    ensures MachineSearch(sizes, 0, ToInt32(offset)) == Locate(sizes, 0, offset) <==> InRange(sizes, offset)
  {
    var r := offset % TWO_32;
    var found := MachineSearch(sizes, 0, ToInt32(offset));
    assert r <= offset && (r == offset <==> offset < TWO_32);
    MachineSearchesLowBits(sizes, offset);
    if |sizes| > 0 {
      if r < TWO_31 + sizes[0] {
        SamePlaceIff(sizes, r, offset);
      } else if found == Locate(sizes, 0, offset) {
        PlaceInsideEntry(sizes, offset, found.value);
      }
    }
  }

  /** Every offset below 2^31 is in range, whatever the ring holds. */
  lemma {:induction false} SmallOffsetsInRange(sizes: seq<nat>, offset: nat)
    requires Allocatable(sizes) && offset < TWO_31
    ensures InRange(sizes, offset)
    ensures MachineSearch(sizes, 0, ToInt32(offset)) == Locate(sizes, 0, offset)
  {
    hide InRange, ToInt32, Total;
    SmallIsInRange(sizes, offset);
    MachineSearchExactIff(sizes, offset);
  }

  lemma SmallIsInRange(sizes: seq<nat>, offset: nat)
    requires offset < TWO_31
    ensures InRange(sizes, offset)
  {
    hide Total;
    assert offset % TWO_32 == offset;
  }

  /** An offset of 2^32 aliases the first stored byte, though it is past the end of any small ring. */
  lemma LargeOffsetAliases(sizes: seq<nat>)
    requires Allocatable(sizes) && |sizes| > 0 && sizes[0] > 0
    ensures MachineSearch(sizes, 0, ToInt32(TWO_32)) == Some(Hit(0, 0))
    ensures Total(sizes) <= TWO_31 ==> Locate(sizes, 0, TWO_32) == None
  {
    MachineSearchesLowBits(sizes, TWO_32);
    LocateCorrect(sizes, TWO_32);
  }
}
