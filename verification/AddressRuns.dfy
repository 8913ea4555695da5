/**
 Whole runs of an address space under any faults, releases, stores and status changes: when frame ownership survives
 them, and how many frames they lose.
 */
module AddressRuns {
  import opened Kernel
  import opened FramePool
  import opened Paging
  import opened AddressSpace
  import opened AddressSpaceLaws
  import opened SystemPages

  /** What can be asked of an address space; the last is what the processor does to its status bits. */
  datatype Act =
    | FaultAt(d: nat, k: nat)
    | FreeAt(d: nat, k: nat)
    | StoreAt(va: u32, v: u32)
    | TouchTo(t: Space)

  ghost predicate CanStore(s: Space, va: u32)
    requires s.dir < FRAMES
  {
    va < 0xFFC0_0000 && var pa := Translate(s.mem, s.dir, va); pa.Some? && pa.value / 4 < MEMORY_WORDS
  }

  ghost predicate Possible(s: Space, a: Act)
    requires s.dir < FRAMES
  {
    match a
    case FaultAt(d, k) => d < ENTRIES && k < ENTRIES && CanFault(s, d, k)
    case FreeAt(d, k) => d < ENTRIES && k < ENTRIES && CanFree(s, d, k)
    case StoreAt(va, v) => CanStore(s, va)
    case TouchTo(t) => Touched(s, t)
  }

  ghost function After(s: Space, a: Act): (t: Space)
    requires s.dir < FRAMES && Possible(s, a)
    ensures t.dir == s.dir
  {
    match a
    case FaultAt(d, k) => FaultDir(s, d, k); Fault(s, d, k)
    case FreeAt(d, k) => FreePage(s, d, k)
    case StoreAt(va, v) => s.(mem := s.mem[Translate(s.mem, s.dir, va).value / 4 := v])
    case TouchTo(t) => t
  }

  /**
   What a caller must check first: no release of the identity mapping, of the first table or of the directory, and no
   fault in the window that takes a frame with harmful words in it.
   */
  ghost predicate IsSafe(s: Space, a: Act)
    requires s.dir < FRAMES && Possible(s, a)
  {
    match a
    case FaultAt(d, k) => d == 1023 && !HasPage(s, d, k) && CanTake(s) ==> Harmless(s, Granted(s.pool, 1))
    case FreeAt(d, k) => !Fixed(d, k)
    case StoreAt(va, v) => true
    case TouchTo(t) => true
  }

  lemma WindowTakes(s: Space, k: nat)
    requires Inv(s) && k < ENTRIES && CanFault(s, 1023, k) && !HasPage(s, 1023, k)
    ensures UserSlot(k) && !HasTable(s, k) && CanTake(s)
    ensures Fault(s, 1023, k) == NewPage(s, 1023, k)
  {}

  lemma FaultIsSafe(s: Space, d: nat, k: nat)
    requires Inv(s) && d < ENTRIES && k < ENTRIES && CanFault(s, d, k)
    ensures Inv(Fault(s, d, k)) <==> IsSafe(s, FaultAt(d, k))
  {
    hide Harmless, Fault;
    if d < 1023 {
      FaultStaysOwned(s, d, k);
    } else {
      WindowFaultKeepsExactly(s, k);
      if !HasPage(s, d, k) {
        WindowTakes(s, k);
      }
    }
  }

  /** An act that can be carried out keeps the invariant exactly when it is safe. */
  lemma ActIsSafe(s: Space, a: Act)
    requires s.dir < FRAMES && Inv(s) && Possible(s, a)
    ensures Inv(After(s, a)) <==> IsSafe(s, a)
  {
    hide Inv, Harmless, Fault, FreePage, Touched, Translate, CanFault, CanFree, Fixed, HasPage;
    match a
    case FaultAt(d, k) => FaultIsSafe(s, d, k);
    case FreeAt(d, k) => FreeKeepsExactly(s, d, k);
    case StoreAt(va, v) => StoreKeeps(s, After(s, a), va, v);
    case TouchTo(t) => TouchKeeps(s, t);
  }

  // ---------------------------------------------------------------------------------------------
  // Runs
  // ---------------------------------------------------------------------------------------------

  /** The address space before and after each act of a run that ends where an act cannot be carried out. */
  ghost function Run(s: Space, acts: seq<Act>): (r: seq<Space>)
    requires s.dir < FRAMES
    ensures 0 < |r| <= |acts| + 1 && r[0] == s && forall i :: 0 <= i < |r| ==> r[i].dir == s.dir
    decreases |acts|
  {
    if acts == [] || !Possible(s, acts[0]) then [s] else [s] + Run(After(s, acts[0]), acts[1..])
  }

  ghost predicate SafeRun(s: Space, acts: seq<Act>)
    requires s.dir < FRAMES
    decreases |acts|
  {
    acts == [] || !Possible(s, acts[0])
    || (IsSafe(s, acts[0]) && SafeRun(After(s, acts[0]), acts[1..]))
  }

  ghost predicate AllOwned(ss: seq<Space>) {
    forall i :: 0 <= i < |ss| ==> Inv(ss[i])
  }

  lemma AllOwnedCons(s: Space, ss: seq<Space>)
    requires Inv(s)
    ensures AllOwned([s] + ss) <==> AllOwned(ss)
  {
    hide Inv;
    assert AllOwned([s] + ss) ==> forall i :: 0 <= i < |ss| ==> ss[i] == ([s] + ss)[i + 1];
  }

  /** In a run of any acts the invariant holds throughout exactly when every act that was carried out was safe. */
  lemma {:induction false} RunStaysOwned(s: Space, acts: seq<Act>)
    requires s.dir < FRAMES && Inv(s)
    ensures AllOwned(Run(s, acts)) <==> SafeRun(s, acts)
    decreases |acts|
  {
    hide Inv, IsSafe, Possible, After;
    if acts == [] || !Possible(s, acts[0]) {
    } else {
      var t := After(s, acts[0]);
      ActIsSafe(s, acts[0]);
      if Inv(t) {
        RunStaysOwned(t, acts[1..]);
        AllOwnedCons(s, Run(t, acts[1..]));
      } else {
        assert Run(s, acts)[1] == t;
      }
    }
  }

  /**
   In every run from the constructor whose acts are safe, the directory, the tables and the pages have frames of their
   own, allocated from the pool and above the first four megabytes.
   */
  lemma AnyRunOwnership(m: Memory, pool: Pool, acts: seq<Act>, i: nat, p: Place, q: Place)
    requires pool.Good() && 1024 <= pool.base && pool.base + |pool.codes| <= FRAMES && CanBuild(pool)
    requires Build(m, pool).dir < FRAMES && SafeRun(Build(m, pool), acts) && i < |Run(Build(m, pool), acts)|
    requires p != q && Occupied(Run(Build(m, pool), acts)[i], p) && Occupied(Run(Build(m, pool), acts)[i], q)
    ensures var s := Run(Build(m, pool), acts)[i];
      FrameAt(s, p) != FrameAt(s, q) && Single(s.pool, FrameAt(s, p)) && FrameAt(s, p) >= 1024
  {
    hide Build, SafeRun;
    BuildKeeps(m, pool);
    RunStaysOwned(Build(m, pool), acts);
    var s := Run(Build(m, pool), acts)[i];
    assert Tidy(s, p) && Apart(s, p, q);
  }

  // ---------------------------------------------------------------------------------------------
  // The frames of a run
  // ---------------------------------------------------------------------------------------------

  /** The pages that a table brings along when the window makes it one, or leaves behind when the window releases it. */
  ghost function Gain(s: Space, a: Act): int
    requires s.dir < FRAMES && Possible(s, a)
  {
    match a
    case FaultAt(d, k) =>
      if d == 1023 && !HasPage(s, d, k) && CanTake(s) then PresentIn(s.mem, Granted(s.pool, 1), ENTRIES) else 0
    case FreeAt(d, k) =>
      if d == 1023 && HasTable(s, k) then 0 - PresentIn(s.mem, TableFrame(s, k), ENTRIES) else 0
    case StoreAt(va, v) => 0
    case TouchTo(t) => 0
  }

  lemma WindowFaultGains(s: Space, k: nat)
    requires Inv(s) && k < ENTRIES && CanFault(s, 1023, k) && !HasPage(s, 1023, k) && CanTake(s)
    ensures Frames(Fault(s, 1023, k)) == Frames(s) + PresentIn(s.mem, Granted(s.pool, 1), ENTRIES)
  {
    hide Get, Single;
    var t, f := Fault(s, 1023, k), Granted(s.pool, 1);
    WindowTakes(s, k);
    NewFrameIsFree(s, Directory);
    forall i: nat | 1 <= i < 1023 && i != k
      ensures SlotUsage(t, i) == SlotUsage(s, i)
    {
      if HasTable(s, i) {
        assert Apart(s, Directory, Table(i));
        PresentSame(s.mem, t.mem, TableFrame(s, i), ENTRIES);
      }
    }
    PresentSame(s.mem, t.mem, f, ENTRIES);
    UsageChanges(s, t, k, 1023);
    TakeGood(s.pool);
  }

  lemma FaultFrames(s: Space, d: nat, k: nat)
    requires Inv(s) && d < ENTRIES && k < ENTRIES && CanFault(s, d, k)
    ensures Frames(Fault(s, d, k)) == Frames(s) + Gain(s, FaultAt(d, k))
  {
    hide Frames, Fault, PresentIn;
    if d == 0 {
      FaultInIdentity(s, k);
    } else if d < 1023 {
      FaultConserves(s, d, k);
    } else if HasPage(s, d, k) {
      WindowFaultKeepsExactly(s, k);
    } else {
      WindowTakes(s, k);
      WindowFaultGains(s, k);
    }
  }

  lemma FreeFrames(s: Space, d: nat, k: nat)
    requires Inv(s) && d < ENTRIES && k < ENTRIES && CanFree(s, d, k) && !Fixed(d, k)
    ensures Frames(FreePage(s, d, k)) == Frames(s) + Gain(s, FreeAt(d, k))
  {
    hide Frames, PresentIn, Unget, CanRelease;
    if d < 1023 {
      FreeConserves(s, d, k);
    } else if HasTable(s, k) {
      TableReleaseLoses(s, k);
    } else {
      assert !HasPage(s, d, k);
    }
  }

  lemma ActFrames(s: Space, a: Act)
    requires s.dir < FRAMES && Inv(s) && Possible(s, a) && IsSafe(s, a)
    ensures Frames(After(s, a)) == Frames(s) + Gain(s, a)
  {
    hide Frames, Inv, Fault, FreePage, Touched, Translate, CanFault, CanFree;
    match a
    case FaultAt(d, k) => FaultFrames(s, d, k);
    case FreeAt(d, k) => FreeFrames(s, d, k);
    case StoreAt(va, v) => StoreKeeps(s, After(s, a), va, v);
    case TouchTo(t) => TouchConserves(s, t);
  }

  ghost function Gains(s: Space, acts: seq<Act>, n: nat): int
    requires s.dir < FRAMES
    decreases |acts|
  {
    if n == 0 || acts == [] || !Possible(s, acts[0]) then 0
    else Gain(s, acts[0]) + Gains(After(s, acts[0]), acts[1..], n - 1)
  }

  /**
   In a safe run the free frames, the tables and the mapped pages add up to what they were, but for the pages that the
   window's tables brought along or left behind.
   */
  lemma {:induction false} RunFrames(s: Space, acts: seq<Act>, i: nat)
    requires s.dir < FRAMES && Inv(s) && SafeRun(s, acts) && i < |Run(s, acts)|
    ensures Frames(Run(s, acts)[i]) == Frames(s) + Gains(s, acts, i)
    decreases |acts|
  {
    hide Inv, IsSafe, Possible, After, Frames, Gain;
    if i == 0 {
    } else {
      ActIsSafe(s, acts[0]);
      ActFrames(s, acts[0]);
      RunFrames(After(s, acts[0]), acts[1..], i - 1);
    }
  }
}
