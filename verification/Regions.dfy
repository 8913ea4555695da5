/**
 The region list of a virtual-memory pool as a value: its first-fit search in 32-bit arithmetic, what an allocation
 and a release do to it, and which addresses it calls legitimate.
 */
module Regions {
  import opened Kernel

  datatype Region = Region(start: u32, size: u32) {
    /** The first address after the region, as a number: 2^32 for a region at the very end. */
    function End(): nat { start + size }

    predicate Covers(a: nat) { start <= a < End() }
  }

  /** A pool of virtual memory; the first of its regions holds the list itself. */
  datatype Pool = Pool(base: u32, size: u32, regions: seq<Region>) {
    function Limit(): nat { base + size }
  }

  // ---------------------------------------------------------------------------------------------
  // Rounding to pages
  // ---------------------------------------------------------------------------------------------

  /** A size in whole pages, computed in 32 bits. */
  function RoundUp(size: u32): u32 {
    var bytes := (Sub32(size, 1) / PAGE_SIZE + 1) * PAGE_SIZE;
    if bytes == WORD then 0 else bytes
  }

  /** The smallest multiple of a page that is large enough, unless it wraps; then it is zero. */
  lemma RoundUpIs(size: u32)
    ensures RoundUp(size) == 0 <==> size == 0 || size > WORD - PAGE_SIZE
    ensures RoundUp(size) > 0 ==> size <= RoundUp(size) < size + PAGE_SIZE
    ensures RoundUp(size) % PAGE_SIZE == 0
  {
    var pages := Sub32(size, 1) / PAGE_SIZE + 1;
    assert pages * PAGE_SIZE % PAGE_SIZE == 0;
  }

  // ---------------------------------------------------------------------------------------------
  // What keeps a list in order
  // ---------------------------------------------------------------------------------------------

  /** Whole pages counted from the base, inside the pool. */
  predicate InPool(v: Pool, r: Region) {
    && v.base <= r.start && r.End() <= v.Limit()
    && r.size > 0 && r.size % PAGE_SIZE == 0 && (r.start - v.base) % PAGE_SIZE == 0
  }

  predicate Before(v: Pool, i: nat, j: nat)
    requires i < |v.regions| && j < |v.regions|
  {
    v.regions[i].End() <= v.regions[j].start
  }

  /** The list starts with its own page, and its regions are in order, apart, and inside the pool. */
  ghost predicate Good(v: Pool) {
    && v.Limit() <= WORD && v.size % PAGE_SIZE == 0
    && v.regions != [] && v.regions[0] == Region(v.base, PAGE_SIZE)
    && (forall i :: 0 <= i < |v.regions| ==> InPool(v, v.regions[i]))
    && (forall i: nat, j: nat :: i < j < |v.regions| ==> Before(v, i, j))
  }

  /** A new pool: one region, for the list. */
  function Initial(base: u32, size: u32): Pool {
    Pool(base, RoundUp(size), [Region(base, PAGE_SIZE)])
  }

  /** A new pool is good exactly when its size does not round to zero and it ends by 2^32. */
  lemma InitialGood(base: u32, size: u32)
    ensures Good(Initial(base, size)) <==> 0 < size <= WORD - PAGE_SIZE && base + RoundUp(size) <= WORD
  {
    RoundUpIs(size);
    var v := Initial(base, size);
    assert Good(v) ==> InPool(v, v.regions[0]);
  }

  // ---------------------------------------------------------------------------------------------
  // The operations
  // ---------------------------------------------------------------------------------------------

  function InsertAt(rs: seq<Region>, i: nat, r: Region): seq<Region>
    requires i <= |rs|
  {
    rs[..i] + [r] + rs[i..]
  }

  function RemoveAt(rs: seq<Region>, i: nat): seq<Region>
    requires i < |rs|
  {
    rs[..i] + rs[i + 1..]
  }

  /** Shifting the entries from index i on back by one and writing r there inserts r. */
  lemma InsertedInPlace(before: seq<Region>, after: seq<Region>, n: nat, i: nat, r: Region)
    requires i <= n < |before| == |after|
    requires after[i] == r && forall j :: 0 <= j < i ==> after[j] == before[j]
    requires forall j :: i < j <= n ==> after[j] == before[j - 1]
    ensures after[..n + 1] == InsertAt(before[..n], i, r)
  {
    assert after[..i] == before[..i] && after[i + 1..n + 1] == before[i..n];
    assert after[..n + 1] == after[..i] + [after[i]] + after[i + 1..n + 1];
  }

  /** Shifting the entries after index i forward by one removes entry i. */
  lemma RemovedInPlace(before: seq<Region>, after: seq<Region>, n: nat, i: nat)
    requires i < n <= |before| == |after|
    requires forall j :: 0 <= j < i ==> after[j] == before[j]
    requires forall j :: i <= j < n - 1 ==> after[j] == before[j + 1]
    ensures after[..n - 1] == RemoveAt(before[..n], i)
  {
    assert after[..i] == before[..i] && after[i..n - 1] == before[i + 1..n];
  }

  lemma RemoveUndoesInsert(rs: seq<Region>, i: nat, r: Region)
    requires i <= |rs|
    ensures RemoveAt(InsertAt(rs, i, r), i) == rs
  {}

  /** The space after region i, up to the next region or to the end of the pool, in 32-bit arithmetic. */
  function Gap(v: Pool, i: nat): u32
    requires i < |v.regions|
  {
    var limit := if i + 1 < |v.regions| then v.regions[i + 1].start else Add32(v.base, v.size);
    Sub32(Sub32(limit, v.regions[i].start), v.regions[i].size)
  }

  /** The first region from i on with a large enough gap behind it. */
  function FirstGap(v: Pool, need: u32, i: nat): (r: Option<nat>)
    requires i <= |v.regions|
    ensures r.Some? ==> i <= r.value < |v.regions| && Gap(v, r.value) >= need
    ensures forall j: nat {:trigger Gap(v, j)} ::
      i <= j < (if r.Some? then r.value else |v.regions|) ==> Gap(v, j) < need
    decreases |v.regions| - i
  {
    if i == |v.regions| then None
    else if Gap(v, i) >= need then Some(i)
    else FirstGap(v, need, i + 1)
  }

  predicate CanAllocate(v: Pool, size: u32) {
    FirstGap(v, RoundUp(size), 0).Some?
  }

  /** The address that allocate returns. */
  function Address(v: Pool, size: u32): u32
    requires CanAllocate(v, size)
  {
    var r := v.regions[FirstGap(v, RoundUp(size), 0).value];
    Add32(r.start, r.size)
  }

  function Allocate(v: Pool, size: u32): Pool
    requires CanAllocate(v, size)
  {
    var i := FirstGap(v, RoundUp(size), 0).value;
    v.(regions := InsertAt(v.regions, i + 1, Region(Address(v, size), RoundUp(size))))
  }

  /** The list after region k has been released. */
  function Drop(v: Pool, k: nat): Pool
    requires k < |v.regions|
  {
    v.(regions := RemoveAt(v.regions, k))
  }

  // ---------------------------------------------------------------------------------------------
  // Allocation is first fit
  // ---------------------------------------------------------------------------------------------

  /** The n addresses from a on are in the pool and in no region. */
  ghost predicate Vacant(v: Pool, a: nat, n: nat) {
    && v.base <= a && a + n <= v.Limit()
    && forall i :: 0 <= i < |v.regions| ==> Apart(v.regions[i], a, n)
  }

  predicate Apart(r: Region, a: nat, n: nat) {
    a + n <= r.start || r.End() <= a
  }

  /** In a good list the computed gap is the distance, even when the pool ends at 2^32. */
  lemma GapIs(v: Pool, i: nat)
    requires Good(v) && i < |v.regions|
    ensures var limit := if i + 1 < |v.regions| then v.regions[i + 1].start else v.Limit();
      Gap(v, i) == limit - v.regions[i].End()
  {
    assert InPool(v, v.regions[i]);
    if i + 1 < |v.regions| {
      assert Before(v, i, i + 1);
    }
  }

  /** The last region that starts no later than a. */
  lemma {:induction false} RegionBelow(v: Pool, a: nat, n: nat) returns (i: nat)
    requires Good(v) && v.base <= a && 0 < n <= |v.regions|
    ensures i < n && v.regions[i].start <= a
    ensures i + 1 < n ==> a < v.regions[i + 1].start
  {
    i := n - 1;
    if a < v.regions[i].start {
      i := RegionBelow(v, a, n - 1);
    }
  }

  /** Any vacant stretch lies in the gap behind some region. */
  lemma VacantIsInGap(v: Pool, a: nat, n: nat) returns (i: nat)
    requires Good(v) && n > 0 && Vacant(v, a, n)
    ensures i < |v.regions| && Gap(v, i) >= n && v.regions[i].End() <= a
  {
    i := RegionBelow(v, a, |v.regions|);
    GapIs(v, i);
    assert Apart(v.regions[i], a, n);
    if i + 1 < |v.regions| {
      assert Apart(v.regions[i + 1], a, n);
    }
  }

  lemma GapIsVacant(v: Pool, i: nat, n: nat)
    requires Good(v) && i < |v.regions| && Gap(v, i) >= n
    ensures Vacant(v, v.regions[i].End(), n)
  {
    GapIs(v, i);
    assert InPool(v, v.regions[i]);
    forall j | 0 <= j < |v.regions|
      ensures Apart(v.regions[j], v.regions[i].End(), n)
    {
      if j < i {
        assert Before(v, j, i);
      } else if i < j {
        assert i + 1 < j ==> Before(v, i + 1, j);
        assert InPool(v, v.regions[i + 1]);
      }
    }
  }

  /** Any vacant stretch is found, or an earlier one. */
  lemma VacantIsFound(v: Pool, size: u32, a: nat)
    requires Good(v) && RoundUp(size) > 0 && Vacant(v, a, RoundUp(size))
    ensures CanAllocate(v, size) && Address(v, size) <= a
  {
    var i := VacantIsInGap(v, a, RoundUp(size));
    var g := FirstGap(v, RoundUp(size), 0);
    assert g.Some? && g.value <= i;
    GapIs(v, g.value);
    assert InPool(v, v.regions[i]) && (g.value < i ==> Before(v, g.value, i));
  }

  lemma FoundIsVacant(v: Pool, size: u32)
    requires Good(v) && RoundUp(size) > 0 && CanAllocate(v, size)
    ensures Vacant(v, Address(v, size), RoundUp(size))
  {
    var i := FirstGap(v, RoundUp(size), 0).value;
    GapIsVacant(v, i, RoundUp(size));
    GapIs(v, i);
    assert InPool(v, v.regions[i]);
  }

  /** A size that rounds to zero is placed behind the first region, though the base itself has room for nothing. */
  lemma NothingIsPlaced(v: Pool, size: u32)
    requires Good(v) && RoundUp(size) == 0
    ensures Vacant(v, v.base, 0)
    ensures CanAllocate(v, size) && Address(v, size) != v.base && FirstGap(v, RoundUp(size), 0) == Some(0)
  {
    assert InPool(v, v.regions[0]);
    forall i | 0 <= i < |v.regions|
      ensures Apart(v.regions[i], v.base, 0)
    {
      assert InPool(v, v.regions[i]);
    }
  }

  /** a is the lowest address with room for n. */
  ghost predicate IsFirst(v: Pool, a: nat, n: nat) {
    Vacant(v, a, n) && forall b: nat :: Vacant(v, b, n) ==> a <= b
  }

  /**
   Allocation succeeds exactly when somewhere in the pool there is room for the rounded size, and then returns the
   lowest address with that room exactly when the size does not round to zero.
   */
  lemma AllocateIsFirstFit(v: Pool, size: u32)
    requires Good(v)
    ensures CanAllocate(v, size) <==> exists a: nat :: Vacant(v, a, RoundUp(size))
    ensures CanAllocate(v, size) ==> (IsFirst(v, Address(v, size), RoundUp(size)) <==> 0 < size <= WORD - PAGE_SIZE)
  {
    RoundUpIs(size);
    if RoundUp(size) == 0 {
      NothingIsPlaced(v, size);
    } else {
      if CanAllocate(v, size) {
        FoundIsVacant(v, size);
      }
      forall a: nat | Vacant(v, a, RoundUp(size))
        ensures CanAllocate(v, size) && Address(v, size) <= a
      {
        VacantIsFound(v, size, a);
      }
    }
  }

  // ---------------------------------------------------------------------------------------------
  // What keeps the list good
  // ---------------------------------------------------------------------------------------------

  lemma InsertOrdered(v: Pool, i: nat, r: Region, w: Pool)
    requires Good(v) && i < |v.regions| && InPool(v, r) && w == v.(regions := InsertAt(v.regions, i + 1, r))
    requires v.regions[i].End() <= r.start
    requires i + 1 < |v.regions| ==> r.End() <= v.regions[i + 1].start
    ensures Good(w)
  {
    forall k | 0 <= k < |w.regions|
      ensures InPool(w, w.regions[k])
    {
      assert w.regions[k] == if k <= i then v.regions[k] else if k == i + 1 then r else v.regions[k - 1];
    }
    forall j: nat, k: nat | j < k < |w.regions|
      ensures Before(w, j, k)
    {
      InsertedBefore(v, i, r, j, k);
    }
  }

  lemma InsertedBefore(v: Pool, i: nat, r: Region, j: nat, k: nat)
    requires Good(v) && i < |v.regions| && r.size > 0 && v.regions[i].End() <= r.start
    requires i + 1 < |v.regions| ==> r.End() <= v.regions[i + 1].start
    requires j < k <= |v.regions|
    ensures InsertAt(v.regions, i + 1, r)[j].End() <= InsertAt(v.regions, i + 1, r)[k].start
  {
    if k == i + 1 {
      assert j < i ==> Before(v, j, i);
    } else if j == i + 1 {
      assert i + 1 < k - 1 ==> Before(v, i + 1, k - 1);
    } else {
      assert Before(v, if j <= i then j else j - 1, if k <= i then k else k - 1);
    }
  }

  /** An allocation keeps the list good exactly when its size does not round to zero. */
  lemma AllocateKeeps(v: Pool, size: u32)
    requires Good(v) && CanAllocate(v, size)
    ensures Good(Allocate(v, size)) <==> 0 < size <= WORD - PAGE_SIZE
  {
    var i, w, need := FirstGap(v, RoundUp(size), 0).value, Allocate(v, size), RoundUp(size);
    RoundUpIs(size);
    if need > 0 {
      GapIs(v, i);
      assert InPool(v, v.regions[i]);
      assert i + 1 < |v.regions| ==> InPool(v, v.regions[i + 1]);
      OnGrid(v.regions[i].start - v.base, v.regions[i].size);
      InsertOrdered(v, i, Region(Address(v, size), need), w);
    } else {
      assert !InPool(w, w.regions[i + 1]);
    }
  }

  /** On a new pool, a request for no bytes is granted and leaves an empty region in the list. */
  lemma NothingIsGranted()
    ensures var v := Initial(0x2000_0000, 0x1000_0000);
      Good(v) && CanAllocate(v, 0) && RoundUp(0) == 0 && !Good(Allocate(v, 0))
  {
    var v := Initial(0x2000_0000, 0x1000_0000);
    InitialGood(0x2000_0000, 0x1000_0000);
    RoundUpIs(0);
    NothingIsPlaced(v, 0);
    AllocateKeeps(v, 0);
  }

  lemma OnGrid(a: nat, b: nat)
    requires a % PAGE_SIZE == 0 && b % PAGE_SIZE == 0
    ensures (a + b) % PAGE_SIZE == 0
  {}

  /** Releasing any region but the list's own keeps the list good. */
  lemma DropKeeps(v: Pool, k: nat)
    requires Good(v) && 0 < k < |v.regions|
    ensures Good(Drop(v, k))
  {
    var w := Drop(v, k);
    forall i | 0 <= i < |w.regions|
      ensures InPool(w, w.regions[i])
    {
      assert w.regions[i] == v.regions[if i < k then i else i + 1];
    }
    forall i: nat, j: nat | i < j < |w.regions|
      ensures Before(w, i, j)
    {
      assert Before(v, if i < k then i else i + 1, if j < k then j else j + 1);
    }
  }

  /** In a good list at most one region starts at an address. */
  lemma StartsApart(v: Pool, i: nat, j: nat)
    requires Good(v) && i < |v.regions| && j < |v.regions| && v.regions[i].start == v.regions[j].start
    ensures i == j
  {
    assert InPool(v, v.regions[i]) && InPool(v, v.regions[j]);
    assert (i < j ==> Before(v, i, j)) && (j < i ==> Before(v, j, i));
  }

  /** Entry k is the first after the list's own that starts at a, which is the one that release looks for. */
  ghost predicate StartsFirst(v: Pool, k: nat, a: u32) {
    && 0 < k < |v.regions| && v.regions[k].start == a
    && forall j :: 0 < j < k ==> v.regions[j].start != a
  }

  /** Releasing the region that starts where the allocation did restores the list, for every size. */
  lemma DropUndoesAllocate(v: Pool, size: u32, k: nat)
    requires Good(v) && CanAllocate(v, size) && StartsFirst(Allocate(v, size), k, Address(v, size))
    ensures Drop(Allocate(v, size), k) == v
  {
    var i, w := FirstGap(v, RoundUp(size), 0).value, Allocate(v, size);
    RoundUpIs(size);
    assert w.regions[i + 1].start == Address(v, size);
    if RoundUp(size) == 0 {
      NothingIsPlaced(v, size);
    } else {
      AllocateKeeps(v, size);
      StartsApart(w, k, i + 1);
    }
    RemoveUndoesInsert(v.regions, i + 1, Region(Address(v, size), RoundUp(size)));
  }

  /** The list that release promises: without the region that starts at a, if there is one besides the list's own. */
  ghost predicate Released(v: Pool, a: u32, w: Pool) {
    if exists k :: 0 < k < |v.regions| && v.regions[k].start == a
    then exists k :: 0 < k < |v.regions| && v.regions[k].start == a && w == Drop(v, k)
    else w == v
  }

  /** release leaves every list as it is, which is right exactly when no region starts at the address. */
  lemma ReleaseDoesNothing(v: Pool, a: u32)
    ensures Released(v, a, v) <==> forall k :: 0 < k < |v.regions| ==> v.regions[k].start != a
  {
    forall k | 0 < k < |v.regions|
      ensures Drop(v, k) != v
    {
      assert |Drop(v, k).regions| != |v.regions|;
    }
  }

  /** An allocation that release does not undo. */
  lemma ReleaseForgets()
    ensures var v := Pool(0x2000_0000, 0x1000_0000, [Region(0x2000_0000, 4096), Region(0x2000_1000, 4096)]);
      Good(v) && !Released(v, 0x2000_1000, v)
  {
    var v := Pool(0x2000_0000, 0x1000_0000, [Region(0x2000_0000, 4096), Region(0x2000_1000, 4096)]);
    ReleaseDoesNothing(v, 0x2000_1000);
    assert v.regions[1].start == 0x2000_1000;
  }

  /** Every region starts on a page exactly when the pool does. */
  lemma PageAligned(v: Pool)
    requires Good(v)
    ensures (forall i :: 0 <= i < |v.regions| ==> v.regions[i].start % PAGE_SIZE == 0) <==> v.base % PAGE_SIZE == 0
  {
    if v.base % PAGE_SIZE == 0 {
      forall i | 0 <= i < |v.regions|
        ensures v.regions[i].start % PAGE_SIZE == 0
      {
        assert InPool(v, v.regions[i]);
        OnGrid(v.regions[i].start - v.base, v.base);
      }
    }
  }

  // ---------------------------------------------------------------------------------------------
  // Legitimate addresses
  // ---------------------------------------------------------------------------------------------

  /** The test of one region, in 32-bit arithmetic. */
  predicate Accepts(r: Region, a: u32) {
    r.start <= a && Add32(r.start, r.size) > a
  }

  predicate Legitimate(v: Pool, a: u32) {
    v.regions == [] || exists i :: 0 <= i < |v.regions| && Accepts(v.regions[i], a)
  }

  predicate Covered(v: Pool, a: u32) {
    exists i :: 0 <= i < |v.regions| && v.regions[i].Covers(a)
  }

  /** While the list is empty every address is legitimate, or writing its first entry would not be. */
  lemma EmptyAcceptsAll(v: Pool, a: u32)
    requires v.regions == []
    ensures Legitimate(v, a)
  {}

  /** An address is called legitimate when a region covers it, unless that region ends at 2^32. */
  lemma LegitimateIs(v: Pool, a: u32)
    requires Good(v)
    ensures Legitimate(v, a) <==>
      exists i :: 0 <= i < |v.regions| && v.regions[i].Covers(a) && v.regions[i].End() < WORD
  {
    forall i | 0 <= i < |v.regions|
      ensures Accepts(v.regions[i], a) <==> v.regions[i].Covers(a) && v.regions[i].End() < WORD
    {
      assert InPool(v, v.regions[i]);
    }
  }

  /** So the test is right for every address exactly when no region ends at 2^32. */
  lemma LegitimateExactly(v: Pool)
    requires Good(v)
    ensures (forall a: u32 :: Legitimate(v, a) <==> Covered(v, a)) <==>
      forall i :: 0 <= i < |v.regions| ==> v.regions[i].End() < WORD
  {
    if forall i :: 0 <= i < |v.regions| ==> v.regions[i].End() < WORD {
      forall a: u32
        ensures Legitimate(v, a) <==> Covered(v, a)
      {
        LegitimateIs(v, a);
      }
    } else {
      var i :| 0 <= i < |v.regions| && v.regions[i].End() >= WORD;
      assert InPool(v, v.regions[i]);
      var a: u32 := v.regions[i].start;
      LegitimateIs(v, a);
      assert v.regions[i].Covers(a);
      forall j | 0 <= j < |v.regions| && v.regions[j].Covers(a)
        ensures v.regions[j].End() >= WORD
      {
        CoversApart(v, i, j, a);
      }
    }
  }

  /** A pool of one page at the top of memory calls its own page illegitimate. */
  lemma TopPageIsRefused()
    ensures var v := Initial(0xFFFF_F000, 4096);
      Good(v) && Covered(v, 0xFFFF_F000) && !Legitimate(v, 0xFFFF_F000)
  {
    var v := Initial(0xFFFF_F000, 4096);
    InitialGood(0xFFFF_F000, 4096);
    assert v.regions[0].Covers(0xFFFF_F000);
  }

  /** No address is in two regions. */
  lemma CoversApart(v: Pool, i: nat, j: nat, a: nat)
    requires Good(v) && i < |v.regions| && j < |v.regions| && v.regions[i].Covers(a) && v.regions[j].Covers(a)
    ensures i == j
  {
    assert (i < j ==> Before(v, i, j)) && (j < i ==> Before(v, j, i));
  }

  /** An allocation adds to the addresses covered exactly the ones that it returns. */
  lemma AllocateCovers(v: Pool, size: u32, a: u32)
    requires Good(v) && CanAllocate(v, size) && RoundUp(size) > 0
    ensures Covered(Allocate(v, size), a) <==>
      Covered(v, a) || Address(v, size) <= a < Address(v, size) + RoundUp(size)
  {
    hide RoundUp, FirstGap, Address;
    var i, w := FirstGap(v, RoundUp(size), 0).value, Allocate(v, size);
    var r := Region(Address(v, size), RoundUp(size));
    InsertedCovers(v.regions, i + 1, r, a);
    assert w.regions == InsertAt(v.regions, i + 1, r);
  }

  lemma InsertedCovers(rs: seq<Region>, i: nat, r: Region, a: u32)
    requires i <= |rs|
    ensures (exists j :: 0 <= j < |rs| + 1 && InsertAt(rs, i, r)[j].Covers(a)) <==>
      r.Covers(a) || exists j :: 0 <= j < |rs| && rs[j].Covers(a)
  {
    var t := InsertAt(rs, i, r);
    assert t[i] == r;
    forall j | 0 <= j < |rs|
      ensures rs[j] == t[if j < i then j else j + 1]
    {
    }
  }

  /** A release takes exactly the region's addresses away. */
  lemma DropCovers(v: Pool, k: nat, a: u32)
    requires Good(v) && k < |v.regions|
    ensures Covered(Drop(v, k), a) <==> Covered(v, a) && !v.regions[k].Covers(a)
  {
    hide Good, RemoveAt;
    var rs, ws := v.regions, Drop(v, k).regions;
    RemovedAt(rs, k);
    if i :| 0 <= i < |rs| && rs[i].Covers(a) && i != k {
      assert ws[if i < k then i else i - 1].Covers(a);
    }
    if j :| 0 <= j < |ws| && ws[j].Covers(a) {
      var i := if j < k then j else j + 1;
      assert rs[i].Covers(a);
      if rs[k].Covers(a) {
        CoversApart(v, k, i, a);
      }
    }
  }

  lemma RemovedAt(rs: seq<Region>, k: nat)
    requires k < |rs|
    ensures var ws := RemoveAt(rs, k);
      |ws| == |rs| - 1 && forall j {:trigger ws[j]} :: 0 <= j < |ws| ==> ws[j] == rs[if j < k then j else j + 1]
  {}

  // ---------------------------------------------------------------------------------------------
  // Whole runs
  // ---------------------------------------------------------------------------------------------

  datatype Op = Get(size: u32) | Release(k: nat)

  predicate Can(v: Pool, op: Op) {
    match op
    case Get(size) => CanAllocate(v, size)
    case Release(k) => 0 < k < |v.regions|
  }

  function Step(v: Pool, op: Op): Pool
    requires Can(v, op)
  {
    match op
    case Get(size) => Allocate(v, size)
    case Release(k) => Drop(v, k)
  }

  /** The pool before and after each operation of a run that ends where an operation cannot be carried out. */
  function Run(v: Pool, ops: seq<Op>): (r: seq<Pool>)
    ensures r != [] && r[0] == v
    decreases |ops|
  {
    if ops == [] || !Can(v, ops[0]) then [v] else [v] + Run(Step(v, ops[0]), ops[1..])
  }

  /** A size between one byte and a page short of 2^32. */
  predicate Sound(op: Op) {
    op.Get? ==> 0 < op.size <= WORD - PAGE_SIZE
  }

  predicate SoundRun(v: Pool, ops: seq<Op>)
    decreases |ops|
  {
    ops == [] || !Can(v, ops[0]) || (Sound(ops[0]) && SoundRun(Step(v, ops[0]), ops[1..]))
  }

  ghost predicate AllGood(vs: seq<Pool>) {
    forall i :: 0 <= i < |vs| ==> Good(vs[i])
  }

  lemma StepKeeps(v: Pool, op: Op)
    requires Good(v) && Can(v, op)
    ensures Good(Step(v, op)) <==> Sound(op)
  {
    match op
    case Get(size) => AllocateKeeps(v, size);
    case Release(k) => DropKeeps(v, k);
  }

  lemma AllGoodCons(v: Pool, vs: seq<Pool>)
    requires Good(v)
    ensures AllGood([v] + vs) <==> AllGood(vs)
  {
    assert AllGood([v] + vs) ==> forall i :: 0 <= i < |vs| ==> vs[i] == ([v] + vs)[i + 1];
  }

  /** A run keeps the list good throughout exactly when no size in it rounds to zero. */
  lemma {:induction false} RunStaysGood(v: Pool, ops: seq<Op>)
    requires Good(v)
    ensures AllGood(Run(v, ops)) <==> SoundRun(v, ops)
    decreases |ops|
  {
    if ops != [] && Can(v, ops[0]) {
      var w := Step(v, ops[0]);
      StepKeeps(v, ops[0]);
      AllGoodCons(v, Run(w, ops[1..]));
      if Good(w) {
        RunStaysGood(w, ops[1..]);
      } else {
        assert Run(w, ops[1..])[0] == w;
      }
    }
  }

  // ---------------------------------------------------------------------------------------------
  // A region is its owner's until it is released
  // ---------------------------------------------------------------------------------------------

  /** The operation releases region r of the pool. */
  predicate Frees(v: Pool, op: Op, r: Region) {
    op.Release? && op.k < |v.regions| && v.regions[op.k] == r
  }

  lemma StepKeepsRegion(v: Pool, op: Op, r: Region)
    requires Can(v, op) && r in v.regions && !Frees(v, op, r)
    ensures r in Step(v, op).regions
  {
    var j :| 0 <= j < |v.regions| && v.regions[j] == r;
    match op
    case Get(size) =>
      var at := FirstGap(v, RoundUp(size), 0).value + 1;
      assert Step(v, op).regions[if j < at then j else j + 1] == r;
    case Release(k) =>
      assert Step(v, op).regions[if j < k then j else j - 1] == r;
  }

  /** No operation of the run releases region r. */
  predicate NeverFreed(v: Pool, ops: seq<Op>, r: Region)
    decreases |ops|
  {
    ops == [] || !Can(v, ops[0]) || (!Frees(v, ops[0], r) && NeverFreed(Step(v, ops[0]), ops[1..], r))
  }

  lemma {:induction false} RunKeepsRegion(v: Pool, ops: seq<Op>, j: nat, r: Region)
    requires Good(v) && SoundRun(v, ops) && r in v.regions && NeverFreed(v, ops, r) && j < |Run(v, ops)|
    ensures Good(Run(v, ops)[j]) && r in Run(v, ops)[j].regions
    decreases |ops|
  {
    hide Good, Can, Step, Frees;
    if j == 0 {
    } else {
      StepKeeps(v, ops[0]);
      StepKeepsRegion(v, ops[0], r);
      RunKeepsRegion(Step(v, ops[0]), ops[1..], j - 1, r);
    }
  }

  /** Until what an allocation returned is released, no later allocation of the run meets it. */
  lemma AllocationsApart(v: Pool, size: u32, ops: seq<Op>, j: nat, later: u32)
    requires Good(v) && Sound(Get(size)) && CanAllocate(v, size)
    requires var w, r := Allocate(v, size), Region(Address(v, size), RoundUp(size));
      && SoundRun(w, ops) && NeverFreed(w, ops, r) && j < |Run(w, ops)|
      && Sound(Get(later)) && CanAllocate(Run(w, ops)[j], later)
    ensures var a, b := Address(v, size), Address(Run(Allocate(v, size), ops)[j], later);
      b + RoundUp(later) <= a || a + RoundUp(size) <= b
  {
    hide Good, FirstGap, Address, RoundUp, Run, CanAllocate, SoundRun, NeverFreed;
    var w, r := Allocate(v, size), Region(Address(v, size), RoundUp(size));
    AllocateKeeps(v, size);
    Inserted(v, size);
    RunKeepsRegion(w, ops, j, r);
    RoundUpIs(later);
    var u := Run(w, ops)[j];
    FoundIsVacant(u, later);
    var i :| 0 <= i < |u.regions| && u.regions[i] == r;
    assert Apart(u.regions[i], Address(u, later), RoundUp(later));
  }

  lemma Inserted(v: Pool, size: u32)
    requires CanAllocate(v, size)
    ensures Region(Address(v, size), RoundUp(size)) in Allocate(v, size).regions
  {
    var i := FirstGap(v, RoundUp(size), 0).value;
    assert Allocate(v, size).regions[i + 1] == Region(Address(v, size), RoundUp(size));
  }
}
