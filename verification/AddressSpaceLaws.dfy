/** What faults and releases mean for translation, for the frame pool, and over whole runs. */
module AddressSpaceLaws {
  import opened Kernel
  import opened FrameCodes
  import opened FrameSearch
  import opened FrameLedger
  import opened FramePool
  import opened Paging
  import opened AddressSpace

  function SlotOf(va: u32): nat { va / 0x40_0000 }

  function PageIn(va: u32): (k: nat)
    ensures k < ENTRIES
  {
    va / 4096 % 1024
  }

  function PlaceOf(va: u32): Place {
    Data(SlotOf(va), PageIn(va))
  }

  // ---------------------------------------------------------------------------------------------
  // Translation
  // ---------------------------------------------------------------------------------------------

  /** A user address translates exactly when its page has a frame, and then into that frame. */
  lemma UserTranslation(s: Space, va: u32)
    requires s.dir < FRAMES && UserSlot(SlotOf(va))
    ensures Translate(s.mem, s.dir, va) ==
      if Occupied(s, PlaceOf(va)) then Some(FrameAt(s, PlaceOf(va)) * 4096 + va % 4096) else None
  {}

  /** The first four megabytes translate to themselves. */
  lemma LowTranslation(s: Space, va: u32)
    requires Inv(s) && va < 0x40_0000
    ensures Translate(s.mem, s.dir, va) == Some(va)
  {
    assert IdentityAt(s, va / 4096);
  }

  lemma AddressParts(va: u32, vb: u32)
    requires SlotOf(va) == SlotOf(vb) && PageIn(va) == PageIn(vb) && va % 4096 == vb % 4096
    ensures va == vb
  {
    assert va / 4096 == va / 0x40_0000 * 1024 + va / 4096 % 1024;
    assert vb / 4096 == vb / 0x40_0000 * 1024 + vb / 4096 % 1024;
  }

  /** No two user addresses share a physical one, and none reaches the first four megabytes. */
  lemma UserInjective(s: Space, va: u32, vb: u32, pa: nat)
    requires Inv(s) && UserSlot(SlotOf(va)) && UserSlot(SlotOf(vb))
    requires Translate(s.mem, s.dir, va) == Some(pa) && Translate(s.mem, s.dir, vb) == Some(pa)
    ensures va == vb && pa >= 0x40_0000
  {
    UserTranslation(s, va);
    UserTranslation(s, vb);
    assert FrameAt(s, PlaceOf(va)) == pa / 4096 && FrameAt(s, PlaceOf(vb)) == pa / 4096;
    assert Apart(s, PlaceOf(va), PlaceOf(vb)) && Tidy(s, PlaceOf(va));
    AddressParts(va, vb);
  }

  // ---------------------------------------------------------------------------------------------
  // A fault maps one page
  // ---------------------------------------------------------------------------------------------

  /** Frame f was the pool's to give. */
  ghost predicate WasFree(p: Pool, f: nat) {
    p.Owns(f) && p.codes[f - p.base] == Free
  }

  /** The frame granted alone was free, also before another was granted. */
  lemma GrantedWasFree(p: Pool, q: Pool)
    requires p.Good() && q.Good() && CanGet(q, 1)
    requires q == p || (CanGet(p, 1) && q == Get(p, 1))
    ensures WasFree(p, Granted(q, 1))
  {
    TakeIsSound(q);
    if q != p {
      TakeIsSound(p);
    }
  }

  lemma FaultPlaces(s: Space, d: nat, k: nat, q: Place)
    requires Inv(s) && UserSlot(d) && k < ENTRIES && CanFault(s, d, k) && q.Data?
    ensures var t := Fault(s, d, k);
      && (Occupied(t, q) <==> Occupied(s, q) || q == Data(d, k))
      && (Occupied(s, q) ==> FrameAt(t, q) == FrameAt(s, q))
      && (!Occupied(s, Data(d, k)) && q == Data(d, k) ==> WasFree(s.pool, FrameAt(t, q)))
  {
    FaultKeeps(s, d, k);
    var s1 := if HasTable(s, d) then s else NewTable(s, d);
    if !HasTable(s, d) {
      NewTableGains(s, d);
      GainsKeeps(s, s1, Table(d), Granted(s.pool, 1));
      assert GainsAt(s, s1, Table(d), Granted(s.pool, 1), q);
    }
    if !Occupied(s1, Data(d, k)) {
      NewPageGains(s1, d, k);
      assert GainsAt(s1, Fault(s, d, k), Data(d, k), Granted(s1.pool, 1), q);
      GrantedWasFree(s.pool, s1.pool);
    }
  }

  /** A fault writes at most its own slot's entry of the directory. */
  lemma FaultDirectory(s: Space, d: nat, k: nat, j: nat)
    requires Inv(s) && UserSlot(d) && k < ENTRIES && CanFault(s, d, k) && j < ENTRIES
    ensures var e := Entry(Fault(s, d, k).mem, s.dir, j);
      if j == d && !HasTable(s, d) then e == Mapping(Granted(s.pool, 1)) else e == Entry(s.mem, s.dir, j)
  {
    var s1 := if HasTable(s, d) then s else NewTable(s, d);
    if !HasTable(s, d) {
      NewFrameIsFree(s, Directory);
      NewTableGains(s, d);
      GainsKeeps(s, s1, Table(d), Granted(s.pool, 1));
    }
    assert Apart(s1, Directory, Table(d));
  }

  /** Outside the user slots, translation depends on one directory entry only. */
  lemma SystemTranslation(s: Space, va: u32)
    requires Inv(s) && !UserSlot(SlotOf(va))
    ensures var e := Entry(s.mem, s.dir, PageIn(va));
      Translate(s.mem, s.dir, va) ==
        if SlotOf(va) == 0 then Some(va) else if Present(e) then Some(FrameOf(e) * 4096 + va % 4096) else None
  {
    if SlotOf(va) == 0 {
      LowTranslation(s, va);
    }
  }

  lemma FaultMapsUser(s: Space, d: nat, k: nat, va: u32)
    requires Inv(s) && UserSlot(d) && k < ENTRIES && CanFault(s, d, k) && UserSlot(SlotOf(va))
    ensures var t := Fault(s, d, k);
      if PlaceOf(va) == Data(d, k) then
        && Occupied(t, Data(d, k))
        && Translate(t.mem, t.dir, va) == Some(FrameAt(t, Data(d, k)) * 4096 + va % 4096)
        && (!Occupied(s, Data(d, k)) ==> WasFree(s.pool, FrameAt(t, Data(d, k))))
      else Translate(t.mem, t.dir, va) == Translate(s.mem, s.dir, va)
  {
    hide Fault, Translate, EntryOf, WasFree, Occupied, FrameAt, HasEntry;
    FaultKeeps(s, d, k);
    FaultPlaces(s, d, k, PlaceOf(va));
    UserTranslation(s, va);
    UserTranslation(Fault(s, d, k), va);
  }

  lemma FaultMapsSystem(s: Space, d: nat, k: nat, va: u32)
    requires Inv(s) && UserSlot(d) && k < ENTRIES && CanFault(s, d, k) && !UserSlot(SlotOf(va))
    ensures var t := Fault(s, d, k);
      t.dir == s.dir &&
      if SlotOf(va) == 1023 && PageIn(va) == d && !HasTable(s, d) then
        && Translate(s.mem, s.dir, va) == None
        && Translate(t.mem, t.dir, va) == Some(TableFrame(t, d) * 4096 + va % 4096)
      else Translate(t.mem, t.dir, va) == Translate(s.mem, s.dir, va)
  {
    hide Fault, Translate;
    FaultKeeps(s, d, k);
    FaultDirectory(s, d, k, PageIn(va));
    FaultDir(s, d, k);
    SystemTranslation(s, va);
    SystemTranslation(Fault(s, d, k), va);
  }

  /**
   Exactly the faulting page is mapped, to a frame that was free, and every other translation is what it was; only
   the window comes to show the table that a slot without one has been given.
   */
  lemma FaultMapsOnePage(s: Space, d: nat, k: nat, va: u32)
    requires Inv(s) && UserSlot(d) && k < ENTRIES && CanFault(s, d, k)
    ensures var t := Fault(s, d, k);
      if PlaceOf(va) == Data(d, k) then
        && Occupied(t, Data(d, k))
        && Translate(t.mem, t.dir, va) == Some(FrameAt(t, Data(d, k)) * 4096 + va % 4096)
        && (!Occupied(s, Data(d, k)) ==> WasFree(s.pool, FrameAt(t, Data(d, k))))
      else if SlotOf(va) == 1023 && PageIn(va) == d && !HasTable(s, d) then
        && Translate(s.mem, s.dir, va) == None
        && Translate(t.mem, t.dir, va) == Some(TableFrame(t, d) * 4096 + va % 4096)
      else Translate(t.mem, t.dir, va) == Translate(s.mem, s.dir, va)
  {
    hide Fault, Translate, Occupied, EntryOf, FrameAt;
    FaultKeeps(s, d, k);
    if UserSlot(SlotOf(va)) {
      FaultMapsUser(s, d, k, va);
    } else {
      FaultMapsSystem(s, d, k, va);
    }
  }

  lemma FaultDir(s: Space, d: nat, k: nat)
    requires s.dir < FRAMES && d < ENTRIES && k < ENTRIES && CanFault(s, d, k)
    ensures Fault(s, d, k).dir == s.dir
  {}

  /** A fault below four megabytes finds everything in place. */
  lemma FaultInIdentity(s: Space, k: nat)
    requires Inv(s) && k < ENTRIES
    ensures CanFault(s, 0, k) && Fault(s, 0, k) == s
  {
    assert IdentityAt(s, k);
  }

  /** A fault below the window keeps the invariant. */
  lemma FaultStaysOwned(s: Space, d: nat, k: nat)
    requires Inv(s) && d < 1023 && k < ENTRIES && CanFault(s, d, k)
    ensures Inv(Fault(s, d, k))
  {
    if d == 0 {
      FaultInIdentity(s, k);
    } else {
      FaultKeeps(s, d, k);
    }
  }

  /** The release of a user page unmaps exactly that page. */
  lemma FreeUnmapsOnePage(s: Space, d: nat, k: nat, va: u32)
    requires Inv(s) && UserSlot(d) && CanFree(s, d, k)
    ensures var t := FreePage(s, d, k);
      Translate(t.mem, t.dir, va) == if PlaceOf(va) == Data(d, k) then None else Translate(s.mem, s.dir, va)
  {
    hide Translate;
    var t := FreePage(s, d, k);
    FreePageKeeps(s, d, k);
    if UserSlot(SlotOf(va)) {
      if Occupied(s, Data(d, k)) {
        FreePageLoses(s, d, k, PlaceOf(va));
      }
      UserTranslation(s, va);
      UserTranslation(t, va);
    } else {
      assert Apart(s, Directory, Table(d));
      assert t.dir == s.dir && Entry(t.mem, s.dir, PageIn(va)) == Entry(s.mem, s.dir, PageIn(va));
      SystemTranslation(s, va);
      SystemTranslation(t, va);
    }
  }

  // ---------------------------------------------------------------------------------------------
  // When a fault can be served
  // ---------------------------------------------------------------------------------------------

  /** A pool whose count is positive has a frame to give. */
  lemma FreeFrameFound(p: Pool)
    requires p.Good()
    ensures CanGet(p, 1) <==> p.free > 0
  {
    if p.free > 0 && Search(p.codes, 1).None? {
      SearchGivesUp(p.codes, 1);
      forall i | 0 <= i < |p.codes|
        ensures p.codes[i] != Free
      {
        assert !Fits(p.codes, 1, i);
      }
      CountNone(p.codes, 0, |p.codes|);
      assert false;
    }
  }

  lemma CanTakeIff(s: Space)
    requires Inv(s)
    ensures CanTake(s) <==> s.pool.free > 0
  {
    FreeFrameFound(s.pool);
    if CanGet(s.pool, 1) {
      TakeLive(s.pool);
    }
  }

  /** A fault is served exactly when the pool has the one or two frames it needs. */
  lemma FaultServed(s: Space, d: nat, k: nat)
    requires Inv(s) && UserSlot(d) && k < ENTRIES
    ensures CanFault(s, d, k) <==>
      s.pool.free >= (if HasTable(s, d) then 0 else 1) + (if Occupied(s, Data(d, k)) then 0 else 1)
  {
    CanTakeIff(s);
    if !HasTable(s, d) && CanTake(s) {
      var s1 := NewTable(s, d);
      NewTableGains(s, d);
      GainsKeeps(s, s1, Table(d), Granted(s.pool, 1));
      assert GainsAt(s, s1, Table(d), Granted(s.pool, 1), Table(d));
      assert GainsAt(s, s1, Table(d), Granted(s.pool, 1), Data(d, k));
      CanTakeIff(s1);
      TakeGood(s.pool);
    }
  }

  // ---------------------------------------------------------------------------------------------
  // A release undoes a fault
  // ---------------------------------------------------------------------------------------------

  lemma SetBack(m: Memory, f: nat, k: nat, v: u32, e: u32)
    requires f < FRAMES && k < ENTRIES && Entry(m, f, k) == e
    ensures SetEntry(SetEntry(m, f, k, v), f, k, e) == m
  {}

  /** Taking one frame and giving it back restores the pool. */
  lemma GiveUndoesTake(p: Pool)
    requires p.Good() && CanGet(p, 1)
    ensures CanRelease(Get(p, 1), Granted(p, 1)) && Unget(Get(p, 1), Granted(p, 1)) == p
  {
    TakeIsSound(p);
    ReleaseUndoesGet(p, 1);
  }

  /** Releasing the page that a fault has just mapped restores memory and pool, up to the table the slot keeps. */
  lemma FreeUndoesFault(s: Space, d: nat, k: nat)
    requires Inv(s) && UserSlot(d) && k < ENTRIES && CanFault(s, d, k) && !Occupied(s, Data(d, k))
    ensures var t := Fault(s, d, k);
      CanFree(t, d, k) && FreePage(t, d, k) == if HasTable(s, d) then s else NewTable(s, d)
  {
    var s1 := if HasTable(s, d) then s else NewTable(s, d);
    if !HasTable(s, d) {
      NewTableGains(s, d);
      GainsKeeps(s, s1, Table(d), Granted(s.pool, 1));
      assert GainsAt(s, s1, Table(d), Granted(s.pool, 1), Data(d, k));
    }
    PageUndone(s1, d, k);
  }

  lemma PageUndone(s: Space, d: nat, k: nat)
    requires Inv(s) && HasTable(s, d) && k < ENTRIES && !Occupied(s, Data(d, k)) && CanTake(s)
    ensures var t := NewPage(s, d, k);
      Occupied(t, Data(d, k)) && CanFree(t, d, k) && FreePage(t, d, k) == s
  {
    var t, f := NewPage(s, d, k), Granted(s.pool, 1);
    NewPageGains(s, d, k);
    assert GainsAt(s, t, Data(d, k), f, Data(d, k)) && Tidy(s, Data(d, k));
    assert Apart(s, Directory, Table(d));
    GiveUndoesTake(s.pool);
    SetBack(s.mem, TableFrame(s, d), k, Mapping(f), ABSENT);
  }

  /** Whatever status bits the processor sets in between, the frame that comes back is the one the fault took. */
  lemma FreeReturnsTheFrame(s: Space, d: nat, k: nat, t: Space)
    requires Inv(s) && Occupied(s, Data(d, k)) && Touched(s, t)
    ensures Inv(t) && Occupied(t, Data(d, k)) && CanFree(s, d, k) && CanFree(t, d, k)
    ensures FreePage(t, d, k).pool == FreePage(s, d, k).pool
  {
    TouchKeeps(s, t);
    TouchedPlace(s, t, Data(d, k));
    FreePageKeeps(s, d, k);
    FreePageKeeps(t, d, k);
  }

  // ---------------------------------------------------------------------------------------------
  // Frames are conserved
  // ---------------------------------------------------------------------------------------------

  /** The present entries among the first n of frame f. */
  function PresentIn(m: Memory, f: nat, n: nat): nat
    requires f < FRAMES && n <= ENTRIES
    decreases f, n
  {
    if n == 0 then 0 else PresentIn(m, f, n - 1) + if Present(Entry(m, f, n - 1)) then 1 else 0
  }

  /** The frames in use in slot d: its table and its pages. */
  function SlotUsage(s: Space, d: nat): nat
    requires s.dir < FRAMES
  {
    if HasTable(s, d) then 1 + PresentIn(s.mem, TableFrame(s, d), ENTRIES) else 0
  }

  /** The tables and pages of slots 1 to n - 1. */
  function UsageBelow(s: Space, n: nat): nat
    requires s.dir < FRAMES
    decreases s.dir, n
  {
    if n <= 1 then 0 else UsageBelow(s, n - 1) + SlotUsage(s, n - 1)
  }

  function Usage(s: Space): nat
    requires s.dir < FRAMES
  {
    UsageBelow(s, 1023)
  }

  lemma {:induction false} PresentSame(m: Memory, m': Memory, f: nat, n: nat)
    requires f < FRAMES && n <= ENTRIES
    requires forall j: nat {:trigger Entry(m', f, j)} :: j < n ==>
      (Present(Entry(m', f, j)) <==> Present(Entry(m, f, j)))
    ensures PresentIn(m', f, n) == PresentIn(m, f, n)
  {
    if n == 0 {
    } else {
      PresentSame(m, m', f, n - 1);
      assert Present(Entry(m', f, n - 1)) <==> Present(Entry(m, f, n - 1));
    }
  }

  lemma {:induction false} PresentSet(m: Memory, f: nat, k: nat, v: u32, n: nat)
    requires f < FRAMES && k < ENTRIES && n <= ENTRIES && Present(Entry(m, f, k)) != Present(v)
    ensures PresentIn(SetEntry(m, f, k, v), f, n) ==
      PresentIn(m, f, n) + if k < n then (if Present(v) then 1 else -1) else 0
  {
    if n == 0 {
    } else {
      PresentSet(m, f, k, v, n - 1);
    }
  }

  lemma {:induction false} NonePresent(m: Memory, f: nat, n: nat)
    requires f < FRAMES && n <= ENTRIES
    requires forall j: nat {:trigger Entry(m, f, j)} :: j < n ==> !Present(Entry(m, f, j))
    ensures PresentIn(m, f, n) == 0
  {
    if n == 0 {
    } else {
      NonePresent(m, f, n - 1);
      assert !Present(Entry(m, f, n - 1));
    }
  }

  /** If only slot d's usage changes, the sum changes by as much. */
  lemma {:induction false} UsageChanges(s: Space, t: Space, d: nat, n: nat)
    requires s.dir < FRAMES && t.dir < FRAMES && 1 <= d
    requires forall i :: 1 <= i < n && i != d ==> SlotUsage(t, i) == SlotUsage(s, i)
    ensures UsageBelow(t, n) - UsageBelow(s, n) == if d < n then SlotUsage(t, d) - SlotUsage(s, d) else 0
  {
    if n <= 1 {
    } else {
      UsageChanges(s, t, d, n - 1);
    }
  }

  lemma NewTableUsage(s: Space, d: nat)
    requires Inv(s) && UserSlot(d) && !HasTable(s, d) && CanTake(s)
    ensures Usage(NewTable(s, d)) == Usage(s) + 1
  {
    var t, f := NewTable(s, d), Granted(s.pool, 1);
    NewFrameIsFree(s, Directory);
    forall i: nat | 1 <= i < 1023 && i != d
      ensures SlotUsage(t, i) == SlotUsage(s, i)
    {
      if HasTable(s, i) {
        NewFrameIsFree(s, Table(i));
        assert Apart(s, Directory, Table(i));
        PresentSame(s.mem, t.mem, TableFrame(s, i), ENTRIES);
      }
    }
    NonePresent(t.mem, f, ENTRIES);
    UsageChanges(s, t, d, 1023);
  }

  lemma NewPageUsage(s: Space, d: nat, k: nat)
    requires Inv(s) && HasTable(s, d) && k < ENTRIES && !Occupied(s, Data(d, k)) && CanTake(s)
    ensures Usage(NewPage(s, d, k)) == Usage(s) + 1
  {
    EntryUsage(s, NewPage(s, d, k), d, k, Mapping(Granted(s.pool, 1)));
  }

  lemma FreePageUsage(s: Space, d: nat, k: nat)
    requires Inv(s) && Occupied(s, Data(d, k)) && CanFree(s, d, k)
    ensures Usage(FreePage(s, d, k)) == Usage(s) - 1
  {
    EntryUsage(s, FreePage(s, d, k), d, k, ABSENT);
  }

  lemma EntryUsage(s: Space, t: Space, d: nat, k: nat, v: u32)
    requires Inv(s) && HasTable(s, d) && k < ENTRIES && Present(EntryOf(s, Data(d, k))) != Present(v)
    requires t.dir == s.dir && t.mem == SetEntry(s.mem, TableFrame(s, d), k, v)
    ensures Usage(t) == Usage(s) + if Present(v) then 1 else -1
  {
    assert Apart(s, Directory, Table(d));
    forall i: nat | 1 <= i < 1023 && i != d
      ensures SlotUsage(t, i) == SlotUsage(s, i)
    {
      if HasTable(s, i) {
        assert Apart(s, Table(i), Table(d));
        PresentSame(s.mem, t.mem, TableFrame(s, i), ENTRIES);
      }
    }
    PresentSet(s.mem, TableFrame(s, d), k, v, ENTRIES);
    UsageChanges(s, t, d, 1023);
  }

  /** The frames of the pool that are free or in use by the address space. */
  function Frames(s: Space): nat
    requires s.dir < FRAMES
  {
    s.pool.free + Usage(s)
  }

  lemma FaultConserves(s: Space, d: nat, k: nat)
    requires Inv(s) && UserSlot(d) && k < ENTRIES && CanFault(s, d, k)
    ensures Frames(Fault(s, d, k)) == Frames(s)
  {
    var s1 := if HasTable(s, d) then s else NewTable(s, d);
    if !HasTable(s, d) {
      NewTableGains(s, d);
      GainsKeeps(s, s1, Table(d), Granted(s.pool, 1));
      NewTableUsage(s, d);
      TakeGood(s.pool);
    }
    if !Occupied(s1, Data(d, k)) {
      NewPageUsage(s1, d, k);
      TakeGood(s1.pool);
    }
  }

  lemma FreeConserves(s: Space, d: nat, k: nat)
    requires Inv(s) && UserSlot(d) && CanFree(s, d, k)
    ensures Frames(FreePage(s, d, k)) == Frames(s)
  {
    if Occupied(s, Data(d, k)) {
      FreePageUsage(s, d, k);
      assert Tidy(s, Data(d, k));
      GiveGood(s.pool, FrameAt(s, Data(d, k)));
    }
  }

  lemma TouchConserves(s: Space, t: Space)
    requires Inv(s) && Touched(s, t)
    ensures Frames(t) == Frames(s)
  {
    forall i: nat | 1 <= i < 1023
      ensures SlotUsage(t, i) == SlotUsage(s, i)
    {
      TouchedPlace(s, t, Table(i));
      if HasTable(s, i) {
        var f := TableFrame(s, i);
        forall j: nat {:trigger Entry(t.mem, f, j)} | j < ENTRIES
          ensures Present(Entry(t.mem, f, j)) <==> Present(Entry(s.mem, f, j))
        {
          assert TouchedAt(s, t, f, j);
        }
        PresentSame(s.mem, t.mem, f, ENTRIES);
      }
    }
    UsageChanges(s, t, 1023, 1023);
  }

  // ---------------------------------------------------------------------------------------------
  // Releasing a stretch of pages
  // ---------------------------------------------------------------------------------------------

  /** Page p of the address space is page p % 1024 of slot p / 1024. */
  ghost function FreePageNumber(s: Space, p: nat): (t: Space)
    requires Inv(s) && UserSlot(p / 1024)
    ensures Inv(t) && t.dir == s.dir
  {
    FreePageKeeps(s, p / 1024, p % 1024);
    FreePage(s, p / 1024, p % 1024)
  }

  /** Pages lo to hi - 1 belong to user slots. */
  predicate UserPages(lo: nat, hi: nat) {
    1024 <= lo <= hi <= 1023 * 1024
  }

  /** Pages lo to hi - 1 released one after the other. */
  ghost function FreePages(s: Space, lo: nat, hi: nat): (t: Space)
    requires Inv(s) && UserPages(lo, hi)
    ensures Inv(t) && t.dir == s.dir
  {
    if lo == hi then s else FreePageNumber(FreePages(s, lo, hi - 1), hi - 1)
  }

  lemma {:induction false} FreePagesConserve(s: Space, lo: nat, hi: nat)
    requires Inv(s) && UserPages(lo, hi)
    ensures Frames(FreePages(s, lo, hi)) == Frames(s)
  {
    hide FreePageNumber, Frames, Inv;
    if lo == hi {
    } else {
      FreePagesConserve(s, lo, hi - 1);
      FreeNumberConserves(FreePages(s, lo, hi - 1), hi - 1);
    }
  }

  lemma FreeNumberConserves(s: Space, p: nat)
    requires Inv(s) && UserSlot(p / 1024)
    ensures Frames(FreePageNumber(s, p)) == Frames(s)
  {
    FreePageKeeps(s, p / 1024, p % 1024);
    FreeConserves(s, p / 1024, p % 1024);
  }

  lemma PageNumber(va: u32, p: nat)
    ensures PlaceOf(va) == Data(p / 1024, p % 1024) <==> va / 4096 == p
  {
    assert va / 4096 == va / 0x40_0000 * 1024 + va / 4096 % 1024;
    assert p == p / 1024 * 1024 + p % 1024;
  }

  lemma FreeUnmapsPage(s: Space, p: nat, va: u32)
    requires Inv(s) && UserSlot(p / 1024)
    ensures var t := FreePageNumber(s, p);
      Translate(t.mem, t.dir, va) == if va / 4096 == p then None else Translate(s.mem, s.dir, va)
  {
    FreePageKeeps(s, p / 1024, p % 1024);
    FreeUnmapsOnePage(s, p / 1024, p % 1024, va);
    PageNumber(va, p);
  }

  /** The pages of the stretch no longer translate; every other translation is what it was. */
  lemma {:induction false} FreePagesUnmap(s: Space, lo: nat, hi: nat, va: u32)
    requires Inv(s) && UserPages(lo, hi)
    ensures var t := FreePages(s, lo, hi);
      Translate(t.mem, t.dir, va) == if lo <= va / 4096 < hi then None else Translate(s.mem, s.dir, va)
  {
    hide FreePageNumber;
    if lo == hi {
    } else {
      FreePagesUnmap(s, lo, hi - 1, va);
      FreeUnmapsPage(FreePages(s, lo, hi - 1), hi - 1, va);
    }
  }

  // ---------------------------------------------------------------------------------------------
  // Stores by running programs
  // ---------------------------------------------------------------------------------------------

  /** The store of word v at an address that translates and lies outside the window. */
  ghost predicate Stored(s: Space, t: Space, va: u32, v: u32)
    requires s.dir < FRAMES
  {
    && va < 0xFFC0_0000 && t.dir == s.dir && t.pool == s.pool
    && var pa := Translate(s.mem, s.dir, va);
      pa.Some? && pa.value / 4 < MEMORY_WORDS && t.mem == s.mem[pa.value / 4 := v]
  }

  /** Frame f holds no table and not the directory. */
  ghost predicate Plain(s: Space, f: nat)
    requires s.dir < FRAMES
  {
    f < FRAMES && forall p :: PlainAt(s, f, p)
  }

  ghost predicate PlainAt(s: Space, f: nat, p: Place)
    requires s.dir < FRAMES
  {
    Occupied(s, p) && !p.Data? ==> FrameAt(s, p) != f
  }

  /** An address outside the window reaches only such frames. */
  lemma StoreIsPlain(s: Space, va: u32, pa: nat)
    requires Inv(s) && va < 0xFFC0_0000 && Translate(s.mem, s.dir, va) == Some(pa)
    ensures Plain(s, pa / 4096)
  {
    if va < 0x40_0000 {
      LowTranslation(s, va);
      forall p
        ensures PlainAt(s, pa / 4096, p)
      {
        assert Tidy(s, p);
      }
    } else {
      UserTranslation(s, va);
      forall p
        ensures PlainAt(s, pa / 4096, p)
      {
        assert Apart(s, p, PlaceOf(va));
      }
    }
  }

  /** Writing such a frame changes no place. */
  lemma PlainWrite(s: Space, t: Space, f: nat, j: nat, v: u32, p: Place)
    requires Inv(s) && Plain(s, f) && j < ENTRIES
    requires t == s.(mem := SetEntry(s.mem, f, j, v))
    ensures Occupied(t, p) <==> Occupied(s, p)
    ensures Occupied(s, p) ==> FrameAt(t, p) == FrameAt(s, p)
    ensures Tidy(t, p)
  {
    assert Tidy(s, p) && PlainAt(s, f, Directory) && PlainAt(s, f, Shared);
    if p.Data? && HasTable(s, p.d) {
      assert PlainAt(s, f, Table(p.d));
    }
  }

  lemma PlainWriteKeeps(s: Space, t: Space, f: nat, j: nat, v: u32)
    requires Inv(s) && Plain(s, f) && j < ENTRIES
    requires t == s.(mem := SetEntry(s.mem, f, j, v))
    ensures Inv(t) && Frames(t) == Frames(s)
  {
    assert PlainAt(s, f, Directory) && PlainAt(s, f, Shared);
    forall k: nat | k < ENTRIES
      ensures IdentityAt(t, k)
    {
      assert IdentityAt(s, k);
    }
    forall p
      ensures Tidy(t, p)
    {
      PlainWrite(s, t, f, j, v, p);
    }
    forall p, q
      ensures Apart(t, p, q)
    {
      assert Apart(s, p, q);
      PlainWrite(s, t, f, j, v, p);
      PlainWrite(s, t, f, j, v, q);
    }
    forall i: nat | 1 <= i < 1023
      ensures SlotUsage(t, i) == SlotUsage(s, i)
    {
      if HasTable(s, i) {
        assert PlainAt(s, f, Table(i));
        PresentSame(s.mem, t.mem, TableFrame(s, i), ENTRIES);
      }
    }
    UsageChanges(s, t, 1023, 1023);
  }

  lemma WordOfFrame(pa: nat)
    ensures pa / 4 == pa / 4096 * 1024 + pa % 4096 / 4
  {}

  /** No store outside the window harms the tables: every address translates as before. */
  lemma StoreKeeps(s: Space, t: Space, va: u32, v: u32)
    requires Inv(s) && Stored(s, t, va, v)
    ensures Inv(t) && Frames(t) == Frames(s)
    ensures forall vb: u32 {:trigger Translate(t.mem, t.dir, vb)} ::
      Translate(t.mem, t.dir, vb) == Translate(s.mem, s.dir, vb)
  {
    var pa := Translate(s.mem, s.dir, va).value;
    var f, j := pa / 4096, pa % 4096 / 4;
    StoreIsPlain(s, va, pa);
    WordOfFrame(pa);
    assert t == s.(mem := SetEntry(s.mem, f, j, v));
    PlainWriteKeeps(s, t, f, j, v);
    forall vb: u32 {:trigger Translate(t.mem, t.dir, vb)}
      ensures Translate(t.mem, t.dir, vb) == Translate(s.mem, s.dir, vb)
    {
      PlainWriteTranslates(s, t, f, j, v, vb);
    }
  }

  lemma PlainWriteTranslates(s: Space, t: Space, f: nat, j: nat, v: u32, vb: u32)
    requires Inv(s) && Inv(t) && Plain(s, f) && j < ENTRIES
    requires t == s.(mem := SetEntry(s.mem, f, j, v))
    ensures Translate(t.mem, t.dir, vb) == Translate(s.mem, s.dir, vb)
  {
    hide Translate;
    if UserSlot(SlotOf(vb)) {
      UserTranslation(s, vb);
      UserTranslation(t, vb);
      PlainWrite(s, t, f, j, v, PlaceOf(vb));
    } else {
      assert PlainAt(s, f, Directory);
      SystemTranslation(s, vb);
      SystemTranslation(t, vb);
    }
  }

  // ---------------------------------------------------------------------------------------------
  // Whole runs
  // ---------------------------------------------------------------------------------------------

  /** One thing that can happen to an address space: a fault or a release of a user page, a store, a status bit. */
  ghost predicate Next(s: Space, t: Space)
    requires s.dir < FRAMES
  {
    || (exists d: nat, k: nat :: UserSlot(d) && k < ENTRIES && CanFault(s, d, k) && t == Fault(s, d, k))
    || (exists d: nat, k: nat :: UserSlot(d) && CanFree(s, d, k) && t == FreePage(s, d, k))
    || (exists va: u32, v: u32 :: Stored(s, t, va, v))
    || Touched(s, t)
  }

  ghost predicate IsRun(ss: seq<Space>) {
    && ss != []
    && (forall i :: 0 <= i < |ss| ==> ss[i].dir < FRAMES)
    && (forall i :: 0 <= i < |ss| - 1 ==> Next(ss[i], ss[i + 1]))
  }

  lemma NextKeeps(s: Space, t: Space)
    requires Inv(s) && Next(s, t)
    ensures Inv(t) && Frames(t) == Frames(s)
  {
    if Touched(s, t) {
      TouchKeeps(s, t);
      TouchConserves(s, t);
    } else if va: u32, v: u32 :| Stored(s, t, va, v) {
      StoreKeeps(s, t, va, v);
    } else if d: nat, k: nat :| UserSlot(d) && CanFree(s, d, k) && t == FreePage(s, d, k) {
      FreePageKeeps(s, d, k);
      FreeConserves(s, d, k);
    } else {
      var d: nat, k: nat :| UserSlot(d) && k < ENTRIES && CanFault(s, d, k) && t == Fault(s, d, k);
      FaultKeeps(s, d, k);
      FaultConserves(s, d, k);
    }
  }

  /** In every run from the first address space, frame ownership holds throughout and no frame is lost or made. */
  lemma {:induction false} RunKeeps(ss: seq<Space>, i: nat)
    requires IsRun(ss) && Inv(ss[0]) && i < |ss|
    ensures Inv(ss[i]) && Frames(ss[i]) == Frames(ss[0])
  {
    if i == 0 {
    } else {
      RunKeeps(ss, i - 1);
      assert Next(ss[i - 1], ss[i - 1 + 1]);
      NextKeeps(ss[i - 1], ss[i]);
    }
  }

  /**
   In every run that starts with the constructor, the directory, the tables and the pages have frames of their own,
   allocated from the pool and above the first four megabytes.
   */
  lemma RunOwnership(m: Memory, pool: Pool, ss: seq<Space>, i: nat, p: Place, q: Place)
    requires pool.Good() && 1024 <= pool.base && pool.base + |pool.codes| <= FRAMES && CanBuild(pool)
    requires IsRun(ss) && ss[0] == Build(m, pool) && i < |ss|
    requires p != q && Occupied(ss[i], p) && Occupied(ss[i], q)
    ensures FrameAt(ss[i], p) != FrameAt(ss[i], q)
    ensures Single(ss[i].pool, FrameAt(ss[i], p)) && FrameAt(ss[i], p) >= 1024
  {
    BuildKeeps(m, pool);
    RunKeeps(ss, i);
    assert Tidy(ss[i], p) && Apart(ss[i], p, q);
  }
}
