/**
 The words that the page table writes: every entry it makes is writable, for the supervisor only, and says whether it is
 present; and so are all entries of its directory and tables in every run.
 */
module EntryWords {
  import opened Kernel
  import opened FramePool
  import opened Words
  import opened Paging
  import opened AddressSpace
  import opened AddressSpaceLaws

  // ---------------------------------------------------------------------------------------------
  // What is written
  // ---------------------------------------------------------------------------------------------

  /** A new table: its directory entry is present, writable and the supervisor's; its own entries are not present. */
  lemma NewTableWrites(s: Space, d: nat, j: nat)
    requires Inv(s) && UserSlot(d) && !HasTable(s, d) && CanTake(s) && j < ENTRIES
    ensures var t := NewTable(s, d);
      && HasTable(t, d) && t.dir == s.dir
      && Entry(t.mem, t.dir, d) % 4096 == 3
      && Entry(t.mem, TableFrame(t, d), j) == 2
  {
    NewFrameIsFree(s, Directory);
  }

  /**
   A fault on a user page that is not mapped: the page's entry, and that of a table made for it, come to be a frame's
   address with the bits for supervisor, read and write, and present; the other pages of that table are not present.
   */
  lemma FaultWrites(s: Space, d: nat, k: nat, j: nat)
    requires Inv(s) && UserSlot(d) && k < ENTRIES && CanFault(s, d, k) && !Occupied(s, Data(d, k)) && j < ENTRIES
    ensures var t := Fault(s, d, k);
      && HasTable(t, d)
      && Entry(t.mem, TableFrame(t, d), k) % 4096 == 3
      && (!HasTable(s, d) ==> Entry(t.mem, t.dir, d) % 4096 == 3)
      && (!HasTable(s, d) && j != k ==> Entry(t.mem, TableFrame(t, d), j) == 2)
  {
    hide NewTable, NewPage;
    if HasTable(s, d) {
      NewPageOnly(s, d, k, j);
    } else {
      NewTableWrites(s, d, k);
      NewTableWrites(s, d, j);
      NewTableGains(s, d);
      GainsKeeps(s, NewTable(s, d), Table(d), Granted(s.pool, 1));
      NewPageOnly(NewTable(s, d), d, k, j);
    }
  }

  lemma NewPageOnly(s: Space, d: nat, k: nat, j: nat)
    requires Inv(s) && HasTable(s, d) && k < ENTRIES && CanTake(s) && j < ENTRIES
    ensures var t := NewPage(s, d, k);
      && t.dir == s.dir && Entry(t.mem, t.dir, d) == Entry(s.mem, s.dir, d)
      && Entry(t.mem, TableFrame(t, d), k) % 4096 == 3
      && (j != k ==> Entry(t.mem, TableFrame(t, d), j) == Entry(s.mem, TableFrame(s, d), j))
  {
    assert Apart(s, Directory, Table(d));
  }

  /** The release of any mapped page leaves an entry that is not present, and otherwise as the constructor writes it. */
  lemma FreeWrites(s: Space, d: nat, k: nat)
    requires s.dir < FRAMES && HasPage(s, d, k) && CanFree(s, d, k)
    ensures Entry(FreePage(s, d, k).mem, TableFrame(s, d), k) == 2
  {}

  /** The constructor: the first table, its slot and the window's are present, and nothing else is. */
  lemma BuildWrites(m: Memory, pool: Pool, k: nat)
    requires pool.Good() && CanBuild(pool) && k < ENTRIES
    ensures var s := Build(m, pool);
      && s.dir < FRAMES
      && Entry(s.mem, TableFrame(s, 0), k) % 4096 == 3
      && (if k == 0 || k == 1023 then Entry(s.mem, s.dir, k) % 4096 == 3 else Entry(s.mem, s.dir, k) == 2)
  {
    hide Build;
    BuildIsFresh(m, pool);
  }

  lemma BuildIsFresh(m: Memory, pool: Pool)
    requires pool.Good() && CanBuild(pool)
    ensures Build(m, pool).dir < FRAMES && Fresh(Build(m, pool), Granted(Get(pool, 1), 1))
  {
    hide Build, Single, Get, CanGet, Granted, Pool.Good;
    TakeFrame(pool);
    TakeFrame(Get(pool, 1));
    BuildFresh(m, pool);
  }

  // ---------------------------------------------------------------------------------------------
  // What every run keeps
  // ---------------------------------------------------------------------------------------------

  /** The low bits say supervisor, read and write, and whether it is present. */
  predicate Supervisor(e: u32) {
    e % 8 == if Present(e) then 3 else 2
  }

  lemma MappingIsSupervisor(f: nat)
    requires f < FRAMES
    ensures Supervisor(Mapping(f)) && Supervisor(ABSENT)
  {
    LowBits(Mapping(f));
    ModUnique(Mapping(f), 32, 128 * f, 3);
  }

  /** Entry k of the directory, of the first table or of a user table is writable and the supervisor's. */
  ghost predicate WordAt(s: Space, p: Place, k: nat)
    requires s.dir < FRAMES
  {
    Occupied(s, p) && !p.Data? && k < ENTRIES ==> Supervisor(Entry(s.mem, FrameAt(s, p), k))
  }

  ghost predicate Protected(s: Space) {
    s.dir < FRAMES && forall p, k: nat :: WordAt(s, p, k)
  }

  lemma BuildProtects(m: Memory, pool: Pool)
    requires pool.Good() && CanBuild(pool)
    ensures Protected(Build(m, pool))
  {
    hide Build, Fresh, CanGet, Pool.Good;
    BuildIsFresh(m, pool);
    forall p, k: nat
      ensures WordAt(Build(m, pool), p, k)
    {
      FreshWord(Build(m, pool), Granted(Get(pool, 1), 1), p, k);
    }
  }

  lemma FreshWord(s: Space, table: nat, p: Place, k: nat)
    requires Fresh(s, table)
    ensures WordAt(s, p, k)
  {
    hide Supervisor, Mapping;
    MappingIsSupervisor(table);
    MappingIsSupervisor(s.dir);
    if k < ENTRIES {
      MappingIsSupervisor(k);
    }
  }

  lemma TableProtects(s: Space, d: nat)
    requires Inv(s) && Protected(s) && UserSlot(d) && !HasTable(s, d) && CanTake(s)
    ensures Protected(NewTable(s, d))
  {
    hide Inv, Get, Single, Supervisor;
    var t, f := NewTable(s, d), Granted(s.pool, 1);
    NewTableGains(s, d);
    NewFrameIsFree(s, Directory);
    forall p, k: nat
      ensures WordAt(t, p, k)
    {
      assert WordAt(s, p, k) && GainsAt(s, t, Table(d), f, p);
      if Occupied(s, p) {
        NewFrameIsFree(s, p);
      }
      TableWord(s, t, d, f, p, k);
    }
  }

  lemma TableWord(s: Space, t: Space, d: nat, f: nat, p: Place, k: nat)
    requires s.dir < FRAMES && t.dir == s.dir && d < ENTRIES && f < FRAMES && f != s.dir
    requires t.mem == Clear(SetEntry(s.mem, s.dir, d, Mapping(f)), f, ENTRIES)
    requires GainsAt(s, t, Table(d), f, p) && WordAt(s, p, k) && (Occupied(s, p) ==> FrameAt(s, p) != f)
    ensures WordAt(t, p, k)
  {
    hide Occupied, FrameAt, Supervisor, Mapping;
    MappingIsSupervisor(f);
  }

  /** A word of this kind written into one entry. */
  lemma WriteProtects(s: Space, t: Space, f: nat, j: nat, v: u32, p: Place, k: nat)
    requires s.dir < FRAMES && t.dir == s.dir && f < FRAMES && j < ENTRIES
    requires t.mem == SetEntry(s.mem, f, j, v) && Supervisor(v)
    requires Occupied(t, p) && !p.Data? ==> Occupied(s, p) && FrameAt(t, p) == FrameAt(s, p)
    requires WordAt(s, p, k)
    ensures WordAt(t, p, k)
  {
    hide Occupied, FrameAt, Supervisor;
  }

  lemma PageProtects(s: Space, d: nat, k: nat)
    requires Inv(s) && Protected(s) && HasTable(s, d) && k < ENTRIES && !Occupied(s, Data(d, k)) && CanTake(s)
    ensures Protected(NewPage(s, d, k))
  {
    hide Inv, Get, Single, Supervisor, Mapping;
    var t, f := NewPage(s, d, k), Granted(s.pool, 1);
    NewPageGains(s, d, k);
    MappingIsSupervisor(f);
    forall p, j: nat
      ensures WordAt(t, p, j)
    {
      assert WordAt(s, p, j) && GainsAt(s, t, Data(d, k), f, p);
      WriteProtects(s, t, TableFrame(s, d), k, Mapping(f), p, j);
    }
  }

  lemma FaultProtects(s: Space, d: nat, k: nat)
    requires Inv(s) && Protected(s) && UserSlot(d) && k < ENTRIES && CanFault(s, d, k)
    ensures Protected(Fault(s, d, k))
  {
    hide NewTable, NewPage, Protected;
    var s1 := if HasTable(s, d) then s else NewTable(s, d);
    if !HasTable(s, d) {
      TableProtects(s, d);
      NewTableGains(s, d);
      GainsKeeps(s, s1, Table(d), Granted(s.pool, 1));
    }
    if !Occupied(s1, Data(d, k)) {
      PageProtects(s1, d, k);
    }
  }

  lemma FreeProtects(s: Space, d: nat, k: nat)
    requires Inv(s) && Protected(s) && UserSlot(d) && CanFree(s, d, k)
    ensures Protected(FreePage(s, d, k))
  {
    hide Unget, CanRelease, Supervisor;
    MappingIsSupervisor(0);
    var t := FreePage(s, d, k);
    if HasPage(s, d, k) {
      forall p, j: nat
        ensures WordAt(t, p, j)
      {
        assert WordAt(s, p, j);
        FreePageLoses(s, d, k, p);
        WriteProtects(s, t, TableFrame(s, d), k, ABSENT, p, j);
      }
    }
  }

  /** A store outside the window reaches none of these entries. */
  lemma StoreProtects(s: Space, t: Space, va: u32, v: u32)
    requires Inv(s) && Protected(s) && Stored(s, t, va, v)
    ensures Protected(t)
  {
    hide Supervisor;
    var pa := Translate(s.mem, s.dir, va).value;
    var f, j := pa / 4096, pa % 4096 / 4;
    StoreIsPlain(s, va, pa);
    WordOfFrame(pa);
    assert t == s.(mem := SetEntry(s.mem, f, j, v));
    forall p, k: nat
      ensures WordAt(t, p, k)
    {
      PlainWrite(s, t, f, j, v, p);
      assert WordAt(s, p, k) && PlainAt(s, f, p);
    }
  }

  /** Nothing changed but the accessed and dirty bits of present entries, bits 5 and 6. */
  ghost predicate Used(s: Space, t: Space) {
    && s.dir < FRAMES && t.dir == s.dir && t.pool == s.pool
    && forall f: nat, k: nat :: f < FRAMES && k < ENTRIES ==> UsedAt(s, t, f, k)
  }

  ghost predicate UsedAt(s: Space, t: Space, f: nat, k: nat)
    requires f < FRAMES && k < ENTRIES
  {
    var e, e' := Entry(s.mem, f, k), Entry(t.mem, f, k);
    e' == e || (Present(e) && e' % 32 == e % 32 && e' / 128 == e / 128)
  }

  lemma LowBits(e: nat)
    ensures e % 8 == e % 32 % 8 && e % 2 == e % 32 % 2 && e / 4096 == e / 128 / 32
  {
    var q, r := e / 32, e % 32;
    ModUnique(e, 8, 4 * q + r / 8, r % 8);
    ModUnique(e, 2, 16 * q + r / 2, r % 2);
    ModUnique(e, 4096, e / 128 / 32, e / 128 % 32 * 128 + e % 128);
  }

  lemma UsedBits(e: u32, e': u32)
    requires e' % 32 == e % 32 && e' / 128 == e / 128
    ensures e' % 8 == e % 8 && e' % 2 == e % 2 && FrameOf(e') == FrameOf(e)
  {
    LowBits(e);
    LowBits(e');
  }

  lemma UsedIsTouched(s: Space, t: Space)
    requires Used(s, t)
    ensures Touched(s, t)
  {
    forall f: nat, k: nat | f < FRAMES && k < ENTRIES
      ensures TouchedAt(s, t, f, k)
    {
      assert UsedAt(s, t, f, k);
      if Entry(t.mem, f, k) != Entry(s.mem, f, k) {
        UsedBits(Entry(s.mem, f, k), Entry(t.mem, f, k));
      }
    }
  }

  lemma UseProtects(s: Space, t: Space)
    requires Inv(s) && Protected(s) && Used(s, t)
    ensures Protected(t)
  {
    UsedIsTouched(s, t);
    forall p, k: nat
      ensures WordAt(t, p, k)
    {
      assert WordAt(s, p, k);
      TouchedPlace(s, t, p);
      if Occupied(s, p) && k < ENTRIES {
        var f := FrameAt(s, p);
        assert UsedAt(s, t, f, k);
        if Entry(t.mem, f, k) != Entry(s.mem, f, k) {
          UsedBits(Entry(s.mem, f, k), Entry(t.mem, f, k));
        }
      }
    }
  }

  /** A fault on or a release of a user page, a store, or the processor's use of entries. */
  ghost predicate Moves(s: Space, t: Space)
    requires s.dir < FRAMES
  {
    || (exists d: nat, k: nat :: UserSlot(d) && k < ENTRIES && CanFault(s, d, k) && t == Fault(s, d, k))
    || (exists d: nat, k: nat :: UserSlot(d) && CanFree(s, d, k) && t == FreePage(s, d, k))
    || (exists va: u32, v: u32 :: Stored(s, t, va, v))
    || Used(s, t)
  }

  lemma MovesProtects(s: Space, t: Space)
    requires Inv(s) && Protected(s) && Moves(s, t)
    ensures Inv(t) && Protected(t)
  {
    hide Protected, Fault, FreePage, Tidy;
    if Used(s, t) {
      UsedIsTouched(s, t);
      TouchKeeps(s, t);
      UseProtects(s, t);
    } else if va: u32, v: u32 :| Stored(s, t, va, v) {
      StoreKeeps(s, t, va, v);
      StoreProtects(s, t, va, v);
    } else if d: nat, k: nat :| UserSlot(d) && CanFree(s, d, k) && t == FreePage(s, d, k) {
      FreePageKeeps(s, d, k);
      FreeProtects(s, d, k);
    } else {
      var d: nat, k: nat :| UserSlot(d) && k < ENTRIES && CanFault(s, d, k) && t == Fault(s, d, k);
      FaultKeeps(s, d, k);
      FaultProtects(s, d, k);
    }
  }

  ghost predicate IsRun(ss: seq<Space>) {
    && ss != []
    && (forall i :: 0 <= i < |ss| ==> ss[i].dir < FRAMES)
    && (forall i :: 0 <= i < |ss| - 1 ==> Moves(ss[i], ss[i + 1]))
  }

  lemma {:induction false} RunProtects(ss: seq<Space>, i: nat)
    requires IsRun(ss) && Inv(ss[0]) && Protected(ss[0]) && i < |ss|
    ensures Inv(ss[i]) && Protected(ss[i])
  {
    hide Inv, Protected, Moves;
    if i == 0 {
    } else {
      RunProtects(ss, i - 1);
      assert Moves(ss[i - 1], ss[i - 1 + 1]);
      MovesProtects(ss[i - 1], ss[i]);
    }
  }

  /**
   In every run from the constructor, every entry of the directory, of the first table and of a user table is writable
   and the supervisor's: its low three bits are 3 when it is present and 2 when it is not.
   */
  lemma RunIsProtected(m: Memory, pool: Pool, ss: seq<Space>, i: nat, p: Place, k: nat)
    requires pool.Good() && 1024 <= pool.base && pool.base + |pool.codes| <= FRAMES && CanBuild(pool)
    requires IsRun(ss) && ss[0] == Build(m, pool) && i < |ss|
    requires Occupied(ss[i], p) && !p.Data? && k < ENTRIES
    ensures var e := Entry(ss[i].mem, FrameAt(ss[i], p), k);
      e % 8 == if e % 2 == 1 then 3 else 2
  {
    hide Inv, Build, IsRun;
    BuildKeeps(m, pool);
    BuildProtects(m, pool);
    RunProtects(ss, i);
    assert WordAt(ss[i], p, k);
  }
}
