/**
 An address space: who owns which frame, and the updates that a page fault and a page release make to memory and
 to the frame pool, in the direct form that addresses tables by their frames.
 */
module AddressSpace {
  import opened Kernel
  import opened FrameCodes
  import opened FrameSearch
  import opened FrameLedger
  import opened FramePool
  import opened Paging

  datatype Space = Space(mem: Memory, dir: nat, pool: Pool)

  /** What a frame can be used for: the directory, the table of slot 0, the table of slot d, page k of slot d. */
  datatype Place = Directory | Shared | Table(d: nat) | Data(d: nat, k: nat)

  /** Slots 1 to 1022 are handed out; slot 0 is the identity mapping and slot 1023 the window. */
  predicate UserSlot(d: nat) { 1 <= d < 1023 }

  predicate HasTable(s: Space, d: nat)
    requires s.dir < FRAMES
  {
    UserSlot(d) && Present(Entry(s.mem, s.dir, d))
  }

  function TableFrame(s: Space, d: nat): (f: nat)
    requires s.dir < FRAMES && d < ENTRIES
    ensures f < FRAMES
  {
    FrameOf(Entry(s.mem, s.dir, d))
  }

  /** Slot d has a table, whichever slot it is; that of slot 1023 is the directory. */
  predicate HasSlot(s: Space, d: nat)
    requires s.dir < FRAMES
  {
    d < ENTRIES && Present(Entry(s.mem, s.dir, d))
  }

  /** Page k of slot d has a frame; in a user slot this says that its place is occupied. */
  predicate HasPage(s: Space, d: nat, k: nat)
    requires s.dir < FRAMES
  {
    HasSlot(s, d) && k < ENTRIES && Present(Entry(s.mem, TableFrame(s, d), k))
  }

  function PageFrame(s: Space, d: nat, k: nat): (f: nat)
    requires s.dir < FRAMES && HasPage(s, d, k)
    ensures f < FRAMES
  {
    FrameOf(Entry(s.mem, TableFrame(s, d), k))
  }

  /** The place has an entry in the directory or in a table. */
  predicate HasEntry(s: Space, p: Place)
    requires s.dir < FRAMES
  {
    match p
    case Directory => false
    case Shared => false
    case Table(d) => UserSlot(d)
    case Data(d, k) => HasTable(s, d) && k < ENTRIES
  }

  function EntryOf(s: Space, p: Place): u32
    requires s.dir < FRAMES && HasEntry(s, p)
  {
    match p
    case Table(d) => Entry(s.mem, s.dir, d)
    case Data(d, k) => Entry(s.mem, TableFrame(s, d), k)
  }

  predicate Occupied(s: Space, p: Place)
    requires s.dir < FRAMES
  {
    p.Directory? || p.Shared? || (HasEntry(s, p) && Present(EntryOf(s, p)))
  }

  function FrameAt(s: Space, p: Place): (f: nat)
    requires s.dir < FRAMES && Occupied(s, p)
    ensures f < FRAMES
  {
    match p
    case Directory => s.dir
    case Shared => TableFrame(s, 0)
    case Table(d) => FrameOf(EntryOf(s, p))
    case Data(d, k) => FrameOf(EntryOf(s, p))
  }

  /** Frame f is allocated from the pool as a sequence of one. */
  ghost predicate Single(pool: Pool, f: nat) {
    pool.Owns(f) && f - pool.base in Live(pool.codes) && Live(pool.codes)[f - pool.base] == 1
  }

  /** An occupied place has a frame of its own from the pool; an empty one is marked absent. */
  ghost predicate Tidy(s: Space, p: Place)
    requires s.dir < FRAMES
  {
    if Occupied(s, p) then Single(s.pool, FrameAt(s, p)) else HasEntry(s, p) ==> EntryOf(s, p) == ABSENT
  }

  ghost predicate Apart(s: Space, p: Place, q: Place)
    requires s.dir < FRAMES
  {
    p != q && Occupied(s, p) && Occupied(s, q) ==> FrameAt(s, p) != FrameAt(s, q)
  }

  ghost predicate IdentityAt(s: Space, k: nat)
    requires s.dir < FRAMES && k < ENTRIES
  {
    var e := Entry(s.mem, TableFrame(s, 0), k);
    Present(e) && FrameOf(e) == k
  }

  ghost predicate Inv(s: Space) {
    && SelfMapped(s.mem, s.dir)
    && s.pool.Good() && 1024 <= s.pool.base && s.pool.base + |s.pool.codes| <= FRAMES
    && Present(Entry(s.mem, s.dir, 0))
    && (forall k: nat :: k < ENTRIES ==> IdentityAt(s, k))
    && (forall p :: Tidy(s, p))
    && (forall p, q :: Apart(s, p, q))
  }

  // ---------------------------------------------------------------------------------------------
  // Frames from the pool, one at a time
  // ---------------------------------------------------------------------------------------------

  lemma TakeIsSound(p: Pool)
    requires p.Good() && CanGet(p, 1)
    ensures Sound(p, GetFrames(1)) && Fits(p.codes, 1, Search(p.codes, 1).value)
  {
    SingleFrameIsFirstFit(p.codes);
    SearchIsFirstFit(p.codes, 1);
  }

  lemma TakeGood(p: Pool)
    requires p.Good() && CanGet(p, 1)
    ensures var q := Get(p, 1); q.Good() && q.base == p.base && |q.codes| == |p.codes| && q.free == p.free - 1
  {
    TakeIsSound(p);
    GetGood(p, 1);
  }

  lemma TakeLive(p: Pool)
    requires p.Good() && CanGet(p, 1)
    ensures var f, q := Granted(p, 1), Get(p, 1);
      p.Owns(f) && f - p.base !in Live(p.codes) && Live(q.codes) == Live(p.codes)[f - p.base := 1]
  {
    hide Search, Bad, Chained, Live, Claim, Serves;
    TakeIsSound(p);
    GetFramesIsFresh(p, 1);
    GetTracks(p, 1);
  }

  /** A frame taken alone is new, is a sequence of one, and leaves every other frame's sequence as it was. */
  lemma TakeFrame(p: Pool)
    requires p.Good() && CanGet(p, 1)
    ensures var f, q := Granted(p, 1), Get(p, 1);
      && q.Good() && q.base == p.base && |q.codes| == |p.codes| && q.free == p.free - 1
      && Single(q, f)
      && forall g: nat {:trigger Single(p, g)} {:trigger Single(q, g)} :: Single(q, g) && g != f <==> Single(p, g)
  {
    var f, q := Granted(p, 1), Get(p, 1);
    TakeGood(p);
    TakeSingle(p, f);
    forall g: nat
      ensures Single(q, g) && g != f <==> Single(p, g)
    {
      TakeSingle(p, g);
    }
  }

  lemma TakeSingle(p: Pool, g: nat)
    requires p.Good() && CanGet(p, 1)
    ensures Single(Get(p, 1), g) <==> Single(p, g) || g == Granted(p, 1)
    ensures !Single(p, Granted(p, 1))
  {
    hide Get, CanGet, Granted, Live, Pool.Good;
    TakeGood(p);
    TakeLive(p);
  }

  lemma GiveGood(p: Pool, f: nat)
    requires p.Good() && Single(p, f)
    ensures CanRelease(p, f)
    ensures var q := Unget(p, f); q.Good() && q.base == p.base && |q.codes| == |p.codes| && q.free == p.free + 1
  {
    var h := f - p.base;
    assert Records(p.codes, Live(p.codes), h);
    UngetGood(p, f);
    ReleaseCount(p.codes, h);
  }

  /** A frame given back alone is free again, and every other frame's sequence is as it was. */
  lemma GiveFrame(p: Pool, f: nat)
    requires p.Good() && Single(p, f)
    ensures CanRelease(p, f)
    ensures var q := Unget(p, f);
      && q.Good() && q.base == p.base && |q.codes| == |p.codes| && q.free == p.free + 1
      && forall g: nat {:trigger Single(p, g)} {:trigger Single(q, g)} :: Single(q, g) <==> Single(p, g) && g != f
  {
    GiveGood(p, f);
    forall g: nat
      ensures Single(Unget(p, f), g) <==> Single(p, g) && g != f
    {
      GiveSingle(p, f, g);
    }
  }

  lemma GiveSingle(p: Pool, f: nat, g: nat)
    requires p.Good() && Single(p, f) && CanRelease(p, f)
    ensures Single(Unget(p, f), g) <==> Single(p, g) && g != f
  {
    hide Unget, CanRelease, Bad, Live, Pool.Good;
    GiveGood(p, f);
    UngetTracks(p, f);
  }

  // ---------------------------------------------------------------------------------------------
  // The updates
  // ---------------------------------------------------------------------------------------------

  /** The first n entries of frame f marked absent. */
  function Clear(m: Memory, f: nat, n: nat): (r: Memory)
    requires f < FRAMES && n <= ENTRIES
    ensures forall g: nat, j: nat {:trigger Entry(r, g, j)} :: g < FRAMES && j < ENTRIES ==>
      Entry(r, g, j) == if g == f && j < n then ABSENT else Entry(m, g, j)
    decreases f, n
  {
    if n == 0 then m else SetEntry(Clear(m, f, n - 1), f, n - 1, ABSENT)
  }

  lemma ClearNone(m: Memory, f: nat)
    requires f < FRAMES
    ensures Clear(m, f, 0) == m
  {}

  lemma ClearMore(m: Memory, f: nat, n: nat)
    requires f < FRAMES && n < ENTRIES
    ensures Clear(m, f, n + 1) == SetEntry(Clear(m, f, n), f, n, ABSENT)
  {}

  /** Clearing another frame leaves the window on slot d's table. */
  lemma ClearWindow(m: Memory, dir: nat, d: nat, f: nat, n: nat)
    requires SelfMapped(m, dir) && f < FRAMES && f != dir && n <= ENTRIES && d < ENTRIES
    requires Entry(m, dir, d) == Mapping(f)
    ensures SelfMapped(Clear(m, f, n), dir) && Entry(Clear(m, f, n), dir, d) == Mapping(f)
  {}

  ghost predicate CanTake(s: Space) {
    CanGet(s.pool, 1) && Granted(s.pool, 1) < FRAMES
  }

  /** A new table for slot d, with every entry absent. */
  ghost function NewTable(s: Space, d: nat): Space
    requires s.dir < FRAMES && d < ENTRIES && CanTake(s)
  {
    var f := Granted(s.pool, 1);
    Space(Clear(SetEntry(s.mem, s.dir, d, Mapping(f)), f, ENTRIES), s.dir, Get(s.pool, 1))
  }

  /** A frame for page k of slot d, which has a table. */
  ghost function NewPage(s: Space, d: nat, k: nat): Space
    requires s.dir < FRAMES && HasSlot(s, d) && k < ENTRIES && CanTake(s)
  {
    Space(SetEntry(s.mem, TableFrame(s, d), k, Mapping(Granted(s.pool, 1))), s.dir, Get(s.pool, 1))
  }

  ghost predicate CanFault(s: Space, d: nat, k: nat)
    requires s.dir < FRAMES && d < ENTRIES && k < ENTRIES
  {
    && (!HasSlot(s, d) ==> CanTake(s))
    && var s1 := if HasSlot(s, d) then s else NewTable(s, d);
      HasSlot(s1, d) && (!HasPage(s1, d, k) ==> CanTake(s1))
  }

  /** A page fault on page k of slot d: its table first, if it has none, then the page. */
  ghost function Fault(s: Space, d: nat, k: nat): Space
    requires s.dir < FRAMES && d < ENTRIES && k < ENTRIES && CanFault(s, d, k)
  {
    var s1 := if HasSlot(s, d) then s else NewTable(s, d);
    if HasPage(s1, d, k) then s1 else NewPage(s1, d, k)
  }

  /** Memory after a fault that addresses tables by their frames: tf is for a missing table, pf for a missing page. */
  function Mapped(m: Memory, dir: nat, d: nat, k: nat, tf: nat, pf: nat): Memory
    requires dir < FRAMES && d < ENTRIES && k < ENTRIES && tf < FRAMES && pf < FRAMES
  {
    WithPage(WithTable(m, dir, d, tf), FrameOf(Entry(WithTable(m, dir, d, tf), dir, d)), k, pf)
  }

  function WithTable(m: Memory, dir: nat, d: nat, tf: nat): Memory
    requires dir < FRAMES && d < ENTRIES && tf < FRAMES
  {
    if Present(Entry(m, dir, d)) then m else Clear(SetEntry(m, dir, d, Mapping(tf)), tf, ENTRIES)
  }

  function WithPage(m: Memory, table: nat, k: nat, pf: nat): Memory
    requires table < FRAMES && k < ENTRIES && pf < FRAMES
  {
    if Present(Entry(m, table, k)) then m else SetEntry(m, table, k, Mapping(pf))
  }

  /** The fault handler's update of memory is that of the direct form, with the frames the pool grants. */
  lemma FaultIsDirect(s: Space, d: nat, k: nat)
    requires s.dir < FRAMES && d < ENTRIES && k < ENTRIES && CanFault(s, d, k)
    ensures var s1 := if HasSlot(s, d) then s else NewTable(s, d);
      var tf := if HasSlot(s, d) then 0 else Granted(s.pool, 1);
      var pf := if HasPage(s1, d, k) then 0 else Granted(s1.pool, 1);
      Fault(s, d, k).mem == Mapped(s.mem, s.dir, d, k, tf, pf)
  {}

  /** As far as this pool is concerned; release_frames finds the frame's pool among all of them. */
  ghost predicate CanFree(s: Space, d: nat, k: nat)
    requires s.dir < FRAMES
  {
    HasPage(s, d, k) && s.pool.Owns(PageFrame(s, d, k)) ==> CanRelease(s.pool, PageFrame(s, d, k))
  }

  /** The release of page k of any slot d; a page that is not mapped is left alone. */
  ghost function FreePage(s: Space, d: nat, k: nat): Space
    requires s.dir < FRAMES && CanFree(s, d, k)
  {
    if !HasPage(s, d, k) then s
    else
      var f := PageFrame(s, d, k);
      Space(
        SetEntry(s.mem, TableFrame(s, d), k, ABSENT),
        s.dir,
        if s.pool.Owns(f) then Unget(s.pool, f) else s.pool)
  }

  // ---------------------------------------------------------------------------------------------
  // Each update moves one place in or out
  // ---------------------------------------------------------------------------------------------

  /** Place p gains frame f; the frames of all other places stay. */
  ghost predicate GainsAt(s: Space, t: Space, p: Place, f: nat, q: Place)
    requires s.dir < FRAMES && t.dir < FRAMES
  {
    && (Occupied(t, q) <==> Occupied(s, q) || q == p)
    && (Occupied(t, q) ==> FrameAt(t, q) == if q == p then f else FrameAt(s, q))
    && (HasEntry(t, q) && !Occupied(t, q) ==> EntryOf(t, q) == ABSENT)
  }

  ghost predicate Gains(s: Space, t: Space, p: Place, f: nat) {
    && s.dir < FRAMES && t.dir == s.dir && HasEntry(t, p) && !Occupied(s, p)
    && CanTake(s) && f == Granted(s.pool, 1) && t.pool == Get(s.pool, 1)
    && SelfMapped(t.mem, t.dir) && Present(Entry(t.mem, t.dir, 0))
    && (forall k: nat :: k < ENTRIES ==> IdentityAt(t, k))
    && (forall q :: GainsAt(s, t, p, f, q))
  }

  lemma GainsKeeps(s: Space, t: Space, p: Place, f: nat)
    requires Inv(s) && Gains(s, t, p, f)
    ensures Inv(t)
  {
    TakeFrame(s.pool);
    forall q
      ensures Tidy(t, q)
    {
      assert Tidy(s, q) && GainsAt(s, t, p, f, q);
    }
    forall q, r
      ensures Apart(t, q, r)
    {
      assert Apart(s, q, r) && Tidy(s, q) && Tidy(s, r) && GainsAt(s, t, p, f, q) && GainsAt(s, t, p, f, r);
    }
  }

  lemma NewFrameIsFree(s: Space, p: Place)
    requires Inv(s) && CanGet(s.pool, 1) && Occupied(s, p)
    ensures Granted(s.pool, 1) < FRAMES && FrameAt(s, p) != Granted(s.pool, 1)
  {
    TakeFrame(s.pool);
    assert Tidy(s, p);
  }

  lemma NewTableGains(s: Space, d: nat)
    requires Inv(s) && UserSlot(d) && !HasTable(s, d) && CanTake(s)
    ensures Gains(s, NewTable(s, d), Table(d), Granted(s.pool, 1))
  {
    hide Get, Single;
    var t, f := NewTable(s, d), Granted(s.pool, 1);
    NewFrameIsFree(s, Directory);
    NewFrameIsFree(s, Shared);
    assert Apart(s, Directory, Shared);
    forall k: nat | k < ENTRIES
      ensures IdentityAt(t, k)
    {
      assert IdentityAt(s, k);
    }
    forall q
      ensures GainsAt(s, t, Table(d), f, q)
    {
      assert Tidy(s, q);
      if q.Data? && HasTable(s, q.d) {
        NewFrameIsFree(s, Table(q.d));
        assert Apart(s, Directory, Table(q.d));
      }
    }
  }

  lemma NewPageGains(s: Space, d: nat, k: nat)
    requires Inv(s) && HasTable(s, d) && k < ENTRIES && !Occupied(s, Data(d, k)) && CanTake(s)
    ensures Gains(s, NewPage(s, d, k), Data(d, k), Granted(s.pool, 1))
  {
    var t, f := NewPage(s, d, k), Granted(s.pool, 1);
    assert Apart(s, Directory, Table(d)) && Apart(s, Shared, Table(d));
    forall j: nat | j < ENTRIES
      ensures IdentityAt(t, j)
    {
      assert IdentityAt(s, j);
    }
    forall q
      ensures GainsAt(s, t, Data(d, k), f, q)
    {
      assert Tidy(s, q);
      if q.Data? && HasTable(s, q.d) {
        assert Apart(s, Table(q.d), Table(d));
      }
    }
  }

  /** A fault that finds frames keeps the invariant. */
  lemma FaultKeeps(s: Space, d: nat, k: nat)
    requires Inv(s) && UserSlot(d) && k < ENTRIES && CanFault(s, d, k)
    ensures Inv(Fault(s, d, k)) && Occupied(Fault(s, d, k), Data(d, k))
  {
    var s1 := if HasTable(s, d) then s else NewTable(s, d);
    if !HasTable(s, d) {
      NewTableGains(s, d);
      GainsKeeps(s, s1, Table(d), Granted(s.pool, 1));
    }
    if !Occupied(s1, Data(d, k)) {
      var f := Granted(s1.pool, 1);
      NewPageGains(s1, d, k);
      GainsKeeps(s1, NewPage(s1, d, k), Data(d, k), f);
      assert GainsAt(s1, NewPage(s1, d, k), Data(d, k), f, Data(d, k));
    }
  }

  // Releasing a page.

  ghost predicate LosesAt(s: Space, t: Space, p: Place, q: Place)
    requires s.dir < FRAMES && t.dir < FRAMES
  {
    && (Occupied(t, q) <==> Occupied(s, q) && q != p)
    && (Occupied(t, q) ==> FrameAt(t, q) == FrameAt(s, q))
    && (HasEntry(t, q) && !Occupied(t, q) ==> EntryOf(t, q) == ABSENT)
  }

  lemma FreePageLoses(s: Space, d: nat, k: nat, q: Place)
    requires Inv(s) && Occupied(s, Data(d, k)) && CanFree(s, d, k)
    ensures LosesAt(s, FreePage(s, d, k), Data(d, k), q)
  {
    hide Unget, CanRelease, Single, IdentityAt;
    assert Tidy(s, q) && Apart(s, Directory, Table(d));
    if q.Data? && HasTable(s, q.d) {
      assert Apart(s, Table(q.d), Table(d));
    }
  }

  lemma FreePageFixed(s: Space, d: nat, k: nat)
    requires Inv(s) && Occupied(s, Data(d, k)) && CanFree(s, d, k)
    ensures var t := FreePage(s, d, k);
      && SelfMapped(t.mem, t.dir) && Present(Entry(t.mem, t.dir, 0))
      && forall j: nat :: j < ENTRIES ==> IdentityAt(t, j)
  {
    assert Apart(s, Directory, Table(d)) && Apart(s, Shared, Table(d));
    forall j: nat | j < ENTRIES
      ensures IdentityAt(FreePage(s, d, k), j)
    {
      assert IdentityAt(s, j);
    }
  }

  /** The release of a user page never fails, and keeps the invariant. */
  lemma FreePageKeeps(s: Space, d: nat, k: nat)
    requires Inv(s) && UserSlot(d)
    ensures CanFree(s, d, k) && Inv(FreePage(s, d, k)) && !Occupied(FreePage(s, d, k), Data(d, k))
  {
    var p := Data(d, k);
    if Occupied(s, p) {
      assert Tidy(s, p);
      GiveFrame(s.pool, FrameAt(s, p));
      var t := FreePage(s, d, k);
      FreePageFixed(s, d, k);
      forall q
        ensures Tidy(t, q)
      {
        assert Tidy(s, q) && Apart(s, p, q);
        FreePageLoses(s, d, k, q);
      }
      forall q, r
        ensures Apart(t, q, r)
      {
        assert Apart(s, q, r);
        FreePageLoses(s, d, k, q);
        FreePageLoses(s, d, k, r);
      }
      FreePageLoses(s, d, k, p);
    }
  }

  // The processor sets status bits in the entries it uses.

  /** t is s with the status bits of some present entries changed. */
  ghost predicate Touched(s: Space, t: Space) {
    && s.dir < FRAMES && t.dir == s.dir && t.pool == s.pool
    && forall f: nat, k: nat :: f < FRAMES && k < ENTRIES ==> TouchedAt(s, t, f, k)
  }

  ghost predicate TouchedAt(s: Space, t: Space, f: nat, k: nat)
    requires f < FRAMES && k < ENTRIES
  {
    var e, e' := Entry(s.mem, f, k), Entry(t.mem, f, k);
    e' == e || (Present(e) && Present(e') && FrameOf(e') == FrameOf(e))
  }

  lemma TouchedPlace(s: Space, t: Space, q: Place)
    requires Inv(s) && Touched(s, t)
    ensures Occupied(t, q) <==> Occupied(s, q)
    ensures Occupied(s, q) ==> FrameAt(t, q) == FrameAt(s, q)
    ensures Tidy(t, q)
  {
    assert Tidy(s, q) && TouchedAt(s, t, s.dir, 0);
    match q
    case Directory =>
    case Shared =>
    case Table(d) =>
      if UserSlot(d) {
        assert TouchedAt(s, t, s.dir, d);
      }
    case Data(d, k) =>
      if UserSlot(d) && k < ENTRIES {
        assert TouchedAt(s, t, s.dir, d);
        assert TouchedAt(s, t, TableFrame(s, d), k);
      }
  }

  lemma TouchKeeps(s: Space, t: Space)
    requires Inv(s) && Touched(s, t)
    ensures Inv(t)
  {
    assert TouchedAt(s, t, s.dir, 1023) && TouchedAt(s, t, s.dir, 0);
    forall k: nat | k < ENTRIES
      ensures IdentityAt(t, k)
    {
      assert IdentityAt(s, k) && TouchedAt(s, t, TableFrame(s, 0), k);
    }
    forall q
      ensures Tidy(t, q)
    {
      TouchedPlace(s, t, q);
    }
    forall q, r
      ensures Apart(t, q, r)
    {
      assert Apart(s, q, r);
      TouchedPlace(s, t, q);
      TouchedPlace(s, t, r);
    }
  }

  // ---------------------------------------------------------------------------------------------
  // The first address space
  // ---------------------------------------------------------------------------------------------

  /** The first n entries of frame f map frames 0 to n - 1 onto themselves. */
  function Identity(m: Memory, f: nat, n: nat): (r: Memory)
    requires f < FRAMES && n <= ENTRIES
    ensures forall g: nat, j: nat {:trigger Entry(r, g, j)} :: g < FRAMES && j < ENTRIES ==>
      Entry(r, g, j) == if g == f && j < n then Mapping(j) else Entry(m, g, j)
    decreases f, n
  {
    if n == 0 then m else SetEntry(Identity(m, f, n - 1), f, n - 1, Mapping(n - 1))
  }

  /** Entries 1 to n - 1 of frame f marked absent. */
  function ClearFrom1(m: Memory, f: nat, n: nat): (r: Memory)
    requires f < FRAMES && 1 <= n <= ENTRIES
    ensures forall g: nat, j: nat {:trigger Entry(r, g, j)} :: g < FRAMES && j < ENTRIES ==>
      Entry(r, g, j) == if g == f && 1 <= j < n then ABSENT else Entry(m, g, j)
    decreases f, n
  {
    if n == 1 then m else SetEntry(ClearFrom1(m, f, n - 1), f, n - 1, ABSENT)
  }

  ghost predicate CanBuild(pool: Pool) {
    CanGet(pool, 1) && CanGet(Get(pool, 1), 1)
    && Granted(pool, 1) < FRAMES && Granted(Get(pool, 1), 1) < FRAMES
  }

  /** A directory that maps the first four megabytes and itself, over whatever the memory held. */
  function FirstTables(m: Memory, dir: nat, table: nat): Memory
    requires dir < FRAMES && table < FRAMES
  {
    var m1 := Identity(m, table, ENTRIES);
    var m2 := SetEntry(m1, dir, 0, Mapping(table));
    var m3 := SetEntry(m2, dir, ENTRIES - 1, Mapping(dir));
    ClearFrom1(m3, dir, ENTRIES - 1)
  }

  ghost function Build(m: Memory, pool: Pool): Space
    requires CanBuild(pool)
  {
    var dir, table := Granted(pool, 1), Granted(Get(pool, 1), 1);
    Space(FirstTables(m, dir, table), dir, Get(Get(pool, 1), 1))
  }

  ghost predicate Fresh(s: Space, table: nat) {
    && s.dir < FRAMES && table < FRAMES && s.dir != table
    && Entry(s.mem, s.dir, 0) == Mapping(table) && Entry(s.mem, s.dir, 1023) == Mapping(s.dir)
    && (forall d: nat {:trigger Entry(s.mem, s.dir, d)} :: UserSlot(d) ==> Entry(s.mem, s.dir, d) == ABSENT)
    && (forall k: nat {:trigger Entry(s.mem, table, k)} :: k < ENTRIES ==> Entry(s.mem, table, k) == Mapping(k))
  }

  lemma BuildFresh(m: Memory, pool: Pool)
    requires CanBuild(pool) && Granted(pool, 1) != Granted(Get(pool, 1), 1)
    ensures Fresh(Build(m, pool), Granted(Get(pool, 1), 1))
  {}

  lemma FreshTidy(s: Space, table: nat, p: Place)
    requires Fresh(s, table) && Single(s.pool, s.dir) && Single(s.pool, table)
    ensures Tidy(s, p) && (Occupied(s, p) ==> p == Directory || p == Shared)
  {
    hide Single;
  }

  lemma FreshInv(s: Space, table: nat)
    requires Fresh(s, table) && Single(s.pool, s.dir) && Single(s.pool, table)
    requires s.pool.Good() && 1024 <= s.pool.base && s.pool.base + |s.pool.codes| <= FRAMES
    ensures Inv(s)
  {
    hide Single, Pool.Good;
    forall p
      ensures Tidy(s, p)
    {
      FreshTidy(s, table, p);
    }
    forall p, q
      ensures Apart(s, p, q)
    {
      FreshTidy(s, table, p);
      FreshTidy(s, table, q);
    }
    forall k: nat | k < ENTRIES
      ensures IdentityAt(s, k)
    {
    }
  }

  /** The first address space satisfies the invariant. */
  lemma BuildKeeps(m: Memory, pool: Pool)
    requires pool.Good() && 1024 <= pool.base && pool.base + |pool.codes| <= FRAMES && CanBuild(pool)
    ensures Inv(Build(m, pool))
  {
    var pool1 := Get(pool, 1);
    var dir, table := Granted(pool, 1), Granted(pool1, 1);
    TakeFrame(pool);
    TakeFrame(pool1);
    assert Single(pool1, dir) && Single(Get(pool1, 1), dir) && Single(Get(pool1, 1), table);
    BuildFresh(m, pool);
    FreshInv(Build(m, pool), table);
  }
}
