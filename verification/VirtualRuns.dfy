/**
 The page table and its pools of virtual memory together: in every run a page that is mapped lies in a live region,
 and a region that has been released is neither legitimate nor mapped.
 */
module VirtualRuns {
  import opened Kernel
  import opened FramePool
  import opened Paging
  import opened AddressSpace
  import opened AddressSpaceLaws
  import R = Regions

  datatype Machine = Machine(space: Space, pools: seq<R.Pool>)

  /** The pool is in order, starts on a page, and keeps clear of the identity mapping and of the window. */
  ghost predicate Placed(v: R.Pool) {
    R.Good(v) && v.base % PAGE_SIZE == 0 && 0x40_0000 <= v.base && v.Limit() <= 0xFFC0_0000
  }

  /** Region j of pool i covers the address. */
  ghost predicate LiveIn(pools: seq<R.Pool>, i: nat, j: nat, va: u32) {
    i < |pools| && j < |pools[i].regions| && pools[i].regions[j].Covers(va)
  }

  ghost predicate Live(pools: seq<R.Pool>, va: u32) {
    exists i: nat, j: nat :: LiveIn(pools, i, j, va)
  }

  ghost predicate IsMapped(s: Space, va: u32)
    requires s.dir < FRAMES
  {
    UserSlot(SlotOf(va)) && Translate(s.mem, s.dir, va).Some?
  }

  ghost predicate LiveIfMapped(m: Machine, va: u32)
    requires m.space.dir < FRAMES
  {
    IsMapped(m.space, va) ==> Live(m.pools, va)
  }

  ghost predicate Safe(m: Machine) {
    && Inv(m.space)
    && (forall i :: 0 <= i < |m.pools| ==> Placed(m.pools[i]))
    && (forall va: u32 :: LiveIfMapped(m, va))
  }

  // ---------------------------------------------------------------------------------------------
  // The steps
  // ---------------------------------------------------------------------------------------------

  ghost predicate CanServe(s: Space, va: u32)
    requires s.dir < FRAMES
  {
    UserSlot(SlotOf(va)) && CanFault(s, SlotOf(va), PageIn(va))
  }

  ghost function Serve(s: Space, va: u32): Space
    requires s.dir < FRAMES && CanServe(s, va)
  {
    Fault(s, SlotOf(va), PageIn(va))
  }

  /** A fault at an address that some pool calls legitimate. */
  ghost predicate Faults(m: Machine, n: Machine, i: nat, va: u32)
    requires m.space.dir < FRAMES
  {
    && i < |m.pools| && R.Legitimate(m.pools[i], va) && CanServe(m.space, va)
    && n == m.(space := Serve(m.space, va))
  }

  /** A pool that has been entered in the page table's list, with no region in its own list yet. */
  ghost function Registered(m: Machine, base: u32, size: u32): Machine {
    m.(pools := m.pools + [R.Pool(base, R.RoundUp(size), [])])
  }

  /** A new pool: it is registered, writing the first entry of its list faults at its base, and then it has its page. */
  ghost predicate Opens(m: Machine, n: Machine, base: u32, size: u32)
    requires m.space.dir < FRAMES
  {
    && Placed(R.Initial(base, size))
    && exists o: Machine ::
      Faults(Registered(m, base, size), o, |m.pools|, base) && n == o.(pools := m.pools + [R.Initial(base, size)])
  }

  ghost predicate Allocates(m: Machine, n: Machine, i: nat, size: u32) {
    && i < |m.pools| && R.CanAllocate(m.pools[i], size) && 0 < size <= WORD - PAGE_SIZE
    && n == m.(pools := m.pools[i := R.Allocate(m.pools[i], size)])
  }

  /** The release of region k of pool i: its pages, then its entry. */
  ghost predicate Releases(m: Machine, n: Machine, i: nat, k: nat)
    requires Inv(m.space)
  {
    && i < |m.pools| && 0 < k < |m.pools[i].regions|
    && var r := m.pools[i].regions[k];
      && UserPages(r.start / PAGE_SIZE, r.End() / PAGE_SIZE)
      && n == Machine(
        FreePages(m.space, r.start / PAGE_SIZE, r.End() / PAGE_SIZE),
        m.pools[i := R.Drop(m.pools[i], k)])
  }

  /** A store outside the window, or status bits set by the processor. */
  ghost predicate Writes(m: Machine, n: Machine)
    requires m.space.dir < FRAMES
  {
    && n.pools == m.pools
    && (Touched(m.space, n.space) || exists va: u32, v: u32 :: Stored(m.space, n.space, va, v))
  }

  ghost predicate Next(m: Machine, n: Machine)
    requires Inv(m.space)
  {
    || (exists base: u32, size: u32 :: Opens(m, n, base, size))
    || (exists i: nat, va: u32 :: Faults(m, n, i, va))
    || (exists i: nat, size: u32 :: Allocates(m, n, i, size))
    || (exists i: nat, k: nat :: Releases(m, n, i, k))
    || Writes(m, n)
  }

  // ---------------------------------------------------------------------------------------------
  // Each step keeps the machine safe
  // ---------------------------------------------------------------------------------------------

  /** Regions are whole pages. */
  lemma WholePages(v: R.Pool, j: nat, va: u32, vb: u32)
    requires Placed(v) && j < |v.regions| && v.regions[j].Covers(va) && va / 4096 == vb / 4096
    ensures v.regions[j].Covers(vb)
  {
    RegionPages(v, j);
  }

  lemma RegionPages(v: R.Pool, j: nat)
    requires Placed(v) && j < |v.regions|
    ensures v.regions[j].start % PAGE_SIZE == 0 && v.regions[j].End() % PAGE_SIZE == 0
  {
    assert R.InPool(v, v.regions[j]);
    R.PageAligned(v);
    R.OnGrid(v.regions[j].start, v.regions[j].size);
  }

  lemma SamePage(va: u32, vb: u32)
    ensures PlaceOf(va) == PlaceOf(vb) <==> va / 4096 == vb / 4096
  {
    PageNumber(va, vb / 4096);
    PageNumber(vb, vb / 4096);
  }

  /** After a fault, what is mapped was mapped before or is the faulting page. */
  lemma ServeMaps(s: Space, va: u32, vb: u32)
    requires Inv(s) && CanServe(s, va)
    ensures Inv(Serve(s, va))
    ensures IsMapped(Serve(s, va), vb) ==> IsMapped(s, vb) || vb / 4096 == va / 4096
  {
    hide Translate;
    FaultKeeps(s, SlotOf(va), PageIn(va));
    FaultMapsOnePage(s, SlotOf(va), PageIn(va), vb);
    SamePage(va, vb);
  }

  /**
   The fault is legitimate because the list is still empty, so a new pool gets through exactly when the frames are
   there, wherever its user address is.
   */
  lemma NewPoolIsServed(m: Machine, base: u32, size: u32)
    requires m.space.dir < FRAMES && UserSlot(SlotOf(base))
    ensures (exists o: Machine :: Faults(Registered(m, base, size), o, |m.pools|, base)) <==>
      CanFault(m.space, SlotOf(base), PageIn(base))
  {
    hide CanFault, R.Legitimate, Serve;
    R.EmptyAcceptsAll(R.Pool(base, R.RoundUp(size), []), base);
    if CanServe(m.space, base) {
      assert Faults(
        Registered(m, base, size), Registered(m, base, size).(space := Serve(m.space, base)), |m.pools|, base);
    }
  }

  /** What opening comes to. */
  lemma OpensIs(m: Machine, n: Machine, base: u32, size: u32)
    requires m.space.dir < FRAMES
    ensures Opens(m, n, base, size) <==>
      && Placed(R.Initial(base, size)) && CanServe(m.space, base)
      && n == Machine(Serve(m.space, base), m.pools + [R.Initial(base, size)])
  {
    hide CanServe, R.Legitimate, Serve, Placed;
    R.EmptyAcceptsAll(R.Pool(base, R.RoundUp(size), []), base);
    if CanServe(m.space, base) {
      assert Faults(
        Registered(m, base, size), Registered(m, base, size).(space := Serve(m.space, base)), |m.pools|, base);
    }
  }

  lemma OpensKeeps(m: Machine, n: Machine, base: u32, size: u32)
    requires Safe(m) && Opens(m, n, base, size)
    ensures Safe(n)
  {
    hide Serve, CanServe, IsMapped, Opens;
    OpensIs(m, n, base, size);
    ServeMaps(m.space, base, base);
    forall va: u32
      ensures LiveIfMapped(n, va)
    {
      ServeMaps(m.space, base, va);
      assert LiveIfMapped(m, va);
      if va / 4096 == base / 4096 {
        WholePages(R.Initial(base, size), 0, base, va);
        assert LiveIn(n.pools, |m.pools|, 0, va);
      } else if i: nat, j: nat :| LiveIn(m.pools, i, j, va) {
        assert LiveIn(n.pools, i, j, va);
      }
    }
  }

  lemma FaultsKeeps(m: Machine, n: Machine, i: nat, a: u32)
    requires Safe(m) && Faults(m, n, i, a)
    ensures Safe(n)
  {
    hide Serve, CanServe, IsMapped;
    ServeMaps(m.space, a, a);
    R.LegitimateIs(m.pools[i], a);
    forall va: u32
      ensures LiveIfMapped(n, va)
    {
      ServeMaps(m.space, a, va);
      assert LiveIfMapped(m, va);
      if va / 4096 == a / 4096 {
        var j :| 0 <= j < |m.pools[i].regions| && m.pools[i].regions[j].Covers(a);
        WholePages(m.pools[i], j, a, va);
        assert LiveIn(n.pools, i, j, va);
      }
    }
  }

  lemma AllocatesKeeps(m: Machine, n: Machine, i: nat, size: u32)
    requires Safe(m) && Allocates(m, n, i, size)
    ensures Safe(n)
  {
    hide IsMapped;
    var v := m.pools[i];
    var at := R.FirstGap(v, R.RoundUp(size), 0).value;
    R.AllocateKeeps(v, size);
    forall va: u32
      ensures LiveIfMapped(n, va)
    {
      assert LiveIfMapped(m, va);
      if j: nat, k: nat :| LiveIn(m.pools, j, k, va) {
        assert LiveIn(n.pools, j, if j == i && k > at then k + 1 else k, va);
      }
    }
  }

  lemma ReleasesKeeps(m: Machine, n: Machine, i: nat, k: nat)
    requires Safe(m) && Releases(m, n, i, k)
    ensures Safe(n)
  {
    hide Translate, FreePages;
    var r := m.pools[i].regions[k];
    R.DropKeeps(m.pools[i], k);
    RegionPages(m.pools[i], k);
    forall va: u32
      ensures LiveIfMapped(n, va)
    {
      FreePagesUnmap(m.space, r.start / PAGE_SIZE, r.End() / PAGE_SIZE, va);
      assert LiveIfMapped(m, va);
      if IsMapped(n.space, va) {
        var j: nat, l: nat :| LiveIn(m.pools, j, l, va);
        assert LiveIn(n.pools, j, if j == i && l > k then l - 1 else l, va);
      }
    }
  }

  lemma WritesKeeps(m: Machine, n: Machine)
    requires Safe(m) && Writes(m, n)
    ensures Safe(n)
  {
    hide Translate;
    if Touched(m.space, n.space) {
      TouchKeeps(m.space, n.space);
    } else {
      var a: u32, v: u32 :| Stored(m.space, n.space, a, v);
      StoreKeeps(m.space, n.space, a, v);
    }
    forall va: u32
      ensures LiveIfMapped(n, va)
    {
      assert LiveIfMapped(m, va);
      if Touched(m.space, n.space) {
        TouchedPlace(m.space, n.space, PlaceOf(va));
        if UserSlot(SlotOf(va)) {
          UserTranslation(m.space, va);
          UserTranslation(n.space, va);
        }
      }
    }
  }

  lemma NextKeeps(m: Machine, n: Machine)
    requires Safe(m) && Next(m, n)
    ensures Safe(n)
  {
    if base: u32, size: u32 :| Opens(m, n, base, size) {
      OpensKeeps(m, n, base, size);
    } else if i: nat, va: u32 :| Faults(m, n, i, va) {
      FaultsKeeps(m, n, i, va);
    } else if i: nat, size: u32 :| Allocates(m, n, i, size) {
      AllocatesKeeps(m, n, i, size);
    } else if i: nat, k: nat :| Releases(m, n, i, k) {
      ReleasesKeeps(m, n, i, k);
    } else {
      WritesKeeps(m, n);
    }
  }

  // ---------------------------------------------------------------------------------------------
  // Whole runs
  // ---------------------------------------------------------------------------------------------

  /** The steps are defined where the frames are owned as they should; anything might follow another state. */
  ghost predicate IsRun(ms: seq<Machine>) {
    ms != [] && forall i: nat :: i < |ms| - 1 ==> Follows(ms[i], ms[i + 1])
  }

  ghost predicate Follows(m: Machine, n: Machine) {
    Inv(m.space) ==> Next(m, n)
  }

  lemma FollowsKeeps(m: Machine, n: Machine)
    requires Safe(m)
    ensures Follows(m, n) ==> Safe(n)
  {
    if Follows(m, n) {
      NextKeeps(m, n);
    }
  }

  /** The machine with a new page table and no pool of virtual memory yet. */
  lemma FirstIsSafe(mem: Memory, pool: Pool)
    requires pool.Good() && 1024 <= pool.base && pool.base + |pool.codes| <= FRAMES && CanBuild(pool)
    ensures Safe(Machine(Build(mem, pool), []))
  {
    hide Build;
    var s := Build(mem, pool);
    BuildKeeps(mem, pool);
    GrantsDiffer(pool);
    BuildFresh(mem, pool);
    forall va: u32
      ensures LiveIfMapped(Machine(s, []), va)
    {
      if UserSlot(SlotOf(va)) {
        UserTranslation(s, va);
      }
    }
  }

  lemma GrantsDiffer(pool: Pool)
    requires pool.Good() && CanBuild(pool)
    ensures Granted(pool, 1) != Granted(Get(pool, 1), 1)
  {
    TakeFrame(pool);
    TakeFrame(Get(pool, 1));
  }

  /**
   In every run from a new page table, of new pools, faults, allocations, releases and stores, every mapped page lies
   in a live region and every pool's list is in order.
   */
  lemma {:induction false} RunIsSafe(mem: Memory, pool: Pool, ms: seq<Machine>, i: nat)
    requires pool.Good() && 1024 <= pool.base && pool.base + |pool.codes| <= FRAMES && CanBuild(pool)
    requires IsRun(ms) && ms[0] == Machine(Build(mem, pool), []) && i < |ms|
    ensures Safe(ms[i])
  {
    hide Build, CanBuild, Follows, Safe, FramePool.Pool.Good;
    if i == 0 {
      FirstIsSafe(mem, pool);
    } else {
      RunIsSafe(mem, pool, ms, i - 1);
      assert Follows(ms[i - 1], ms[i - 1 + 1]);
      FollowsKeeps(ms[i - 1], ms[i]);
    }
  }

  ghost predicate PoolsApart(pools: seq<R.Pool>) {
    forall i: nat, j: nat :: i < |pools| && j < |pools| && i != j ==> TwoApart(pools[i], pools[j])
  }

  predicate TwoApart(v: R.Pool, w: R.Pool) {
    v.Limit() <= w.base || w.Limit() <= v.base
  }

  /** With pools that do not overlap, no address of a released region is legitimate or mapped. */
  lemma ReleasedIsGone(m: Machine, n: Machine, i: nat, k: nat, va: u32)
    requires Safe(m) && PoolsApart(m.pools) && Releases(m, n, i, k) && m.pools[i].regions[k].Covers(va)
    ensures Translate(n.space.mem, n.space.dir, va) == None
    ensures forall j :: 0 <= j < |n.pools| ==> !R.Legitimate(n.pools[j], va)
  {
    hide FreePages, Translate;
    var r := m.pools[i].regions[k];
    RegionPages(m.pools[i], k);
    assert R.InPool(m.pools[i], r);
    FreePagesUnmap(m.space, r.start / PAGE_SIZE, r.End() / PAGE_SIZE, va);
    ReleasesKeeps(m, n, i, k);
    forall j | 0 <= j < |n.pools|
      ensures !R.Legitimate(n.pools[j], va)
    {
      R.LegitimateIs(n.pools[j], va);
      forall l | 0 <= l < |n.pools[j].regions|
        ensures !n.pools[j].regions[l].Covers(va)
      {
        if j == i {
          DroppedApart(m.pools[i], k, l, va);
        } else {
          assert R.InPool(m.pools[j], m.pools[j].regions[l]) && TwoApart(m.pools[i], m.pools[j]);
        }
      }
    }
  }

  lemma DroppedApart(v: R.Pool, k: nat, l: nat, va: u32)
    requires R.Good(v) && k < |v.regions| && v.regions[k].Covers(va) && l < |v.regions| - 1
    ensures !R.Drop(v, k).regions[l].Covers(va)
  {
    var j := if l < k then l else l + 1;
    assert R.Drop(v, k).regions[l] == v.regions[j];
    if v.regions[j].Covers(va) {
      R.CoversApart(v, k, j, va);
    }
  }
}
