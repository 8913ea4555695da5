/**
 What releases and faults do outside the user slots: the pages of slot 0 are the identity mapping, and those of slot
 1023, the window, are the tables and the directory themselves.
 */
module SystemPages {
  import opened Kernel
  import opened FrameCodes
  import opened FrameLedger
  import opened FramePool
  import opened Paging
  import opened AddressSpace
  import opened AddressSpaceLaws

  // ---------------------------------------------------------------------------------------------
  // Releases
  // ---------------------------------------------------------------------------------------------

  /** The identity mapping, and the two pages of the window that show the first table and the directory. */
  predicate Fixed(d: nat, k: nat) {
    d == 0 || (d == 1023 && !UserSlot(k))
  }

  /** Such a page is always mapped, and its release can be asked of this pool. */
  lemma FixedCanFree(s: Space, d: nat, k: nat)
    requires Inv(s) && k < ENTRIES && Fixed(d, k)
    ensures HasPage(s, d, k) && CanFree(s, d, k)
  {
    if d == 0 {
      assert IdentityAt(s, k);
    } else if k == 0 {
      assert Tidy(s, Shared);
    } else {
      assert Tidy(s, Directory);
    }
  }

  /** Its release clears an entry that the invariant needs. */
  lemma FixedBreaks(s: Space, d: nat, k: nat)
    requires Inv(s) && k < ENTRIES && Fixed(d, k) && CanFree(s, d, k)
    ensures !Inv(FreePage(s, d, k))
  {
    FixedCanFree(s, d, k);
    var t := FreePage(s, d, k);
    if d == 0 {
      assert Apart(s, Directory, Shared);
      assert !IdentityAt(t, k);
    }
  }

  /** The release of a page of the window that shows a user table: the slot loses its table, and with it its pages. */
  lemma TableReleased(s: Space, k: nat, q: Place)
    requires Inv(s) && HasTable(s, k) && CanFree(s, 1023, k)
    ensures var t := FreePage(s, 1023, k);
      && (Occupied(t, q) <==> Occupied(s, q) && q != Table(k) && !(q.Data? && q.d == k))
      && (Occupied(t, q) ==> FrameAt(t, q) == FrameAt(s, q))
      && (HasEntry(t, q) && !Occupied(t, q) ==> EntryOf(t, q) == ABSENT)
  {
    hide Unget, CanRelease, Single, IdentityAt;
    assert Tidy(s, q) && Apart(s, Directory, Shared);
    if q.Data? && HasTable(s, q.d) {
      assert Apart(s, Directory, Table(q.d));
    }
  }

  lemma TableReleaseFixed(s: Space, k: nat)
    requires Inv(s) && HasTable(s, k) && CanFree(s, 1023, k)
    ensures var t := FreePage(s, 1023, k);
      && SelfMapped(t.mem, t.dir) && Present(Entry(t.mem, t.dir, 0))
      && forall j: nat :: j < ENTRIES ==> IdentityAt(t, j)
  {
    hide Unget, CanRelease, Single;
    assert Apart(s, Directory, Shared);
    forall j: nat | j < ENTRIES
      ensures IdentityAt(FreePage(s, 1023, k), j)
    {
      assert IdentityAt(s, j);
    }
  }

  lemma TableReleasePool(s: Space, k: nat)
    requires Inv(s) && HasTable(s, k)
    ensures Single(s.pool, TableFrame(s, k)) && CanFree(s, 1023, k)
    ensures FreePage(s, 1023, k).pool == Unget(s.pool, TableFrame(s, k))
  {
    assert Tidy(s, Table(k));
    GiveGood(s.pool, TableFrame(s, k));
  }

  lemma TableReleaseKeeps(s: Space, k: nat)
    requires Inv(s) && HasTable(s, k)
    ensures CanFree(s, 1023, k) && Inv(FreePage(s, 1023, k))
  {
    TableReleasePool(s, k);
    GiveFrame(s.pool, TableFrame(s, k));
    var t := FreePage(s, 1023, k);
    TableReleaseFixed(s, k);
    forall q
      ensures Tidy(t, q)
    {
      assert Tidy(s, q) && Apart(s, Table(k), q);
      TableReleased(s, k, q);
    }
    forall q, r
      ensures Apart(t, q, r)
    {
      assert Apart(s, q, r);
      TableReleased(s, k, q);
      TableReleased(s, k, r);
    }
  }

  /**
   The release of any page of the address space keeps the invariant exactly when the page is not one of the fixed
   ones.
   */
  lemma FreeKeepsExactly(s: Space, d: nat, k: nat)
    requires Inv(s) && d < ENTRIES && k < ENTRIES
    ensures CanFree(s, d, k) && (Inv(FreePage(s, d, k)) <==> !Fixed(d, k))
  {
    if UserSlot(d) {
      FreePageKeeps(s, d, k);
    } else if Fixed(d, k) {
      FixedCanFree(s, d, k);
      FixedBreaks(s, d, k);
    } else if HasTable(s, k) {
      TableReleaseKeeps(s, k);
    } else {
      assert Tidy(s, Table(k));
    }
  }

  function SlotPlace(d: nat): Place {
    if d == 0 then Shared else if d == 1023 then Directory else Table(d)
  }

  /** Different slots have different tables; that of slot 1023 is the directory. */
  lemma SlotFrames(s: Space, d: nat, e: nat)
    requires Inv(s) && HasSlot(s, d) && HasSlot(s, e) && d != e
    ensures TableFrame(s, d) != TableFrame(s, e)
    ensures d != 1023 ==> TableFrame(s, d) != s.dir
  {
    hide Tidy;
    assert Apart(s, SlotPlace(d), SlotPlace(e)) && Apart(s, SlotPlace(d), Directory);
  }

  /** The walk for an address reads the entry of page k of slot d, in the directory or in a table. */
  predicate WalkReads(va: u32, d: nat, k: nat) {
    (SlotOf(va) == d && PageIn(va) == k) || (d == 1023 && SlotOf(va) == k)
  }

  /** The release of any page ends the translation of exactly the addresses whose walk reads its entry. */
  lemma FreeUnmapsExactly(s: Space, d: nat, k: nat, va: u32)
    requires Inv(s) && d < ENTRIES && k < ENTRIES
    ensures CanFree(s, d, k)
    ensures var t := FreePage(s, d, k);
      Translate(t.mem, t.dir, va) == if WalkReads(va, d, k) then None else Translate(s.mem, s.dir, va)
  {
    hide Unget, CanRelease;
    FreeKeepsExactly(s, d, k);
    if HasPage(s, d, k) {
      UnmapsOn(s, FreePage(s, d, k), d, k, va);
    } else if WalkReads(va, d, k) {
      Unmapped(s, d, k, va);
    }
  }

  lemma UnmapsOn(s: Space, t: Space, d: nat, k: nat, va: u32)
    requires Inv(s) && HasPage(s, d, k)
    requires t.dir == s.dir && t.mem == SetEntry(s.mem, TableFrame(s, d), k, ABSENT)
    ensures Translate(t.mem, t.dir, va) == if WalkReads(va, d, k) then None else Translate(s.mem, s.dir, va)
  {
    hide Inv;
    SlotsSelf(s);
    var e := SlotOf(va);
    if d != 1023 {
      SlotFrames(s, d, 1023);
    }
    if HasSlot(s, e) && e != d {
      SlotFrames(s, e, d);
    }
  }

  lemma SlotsSelf(s: Space)
    requires Inv(s)
    ensures s.dir < FRAMES && HasSlot(s, 1023) && TableFrame(s, 1023) == s.dir
  {}

  /** A page without a frame is nobody's walk. */
  lemma Unmapped(s: Space, d: nat, k: nat, va: u32)
    requires Inv(s) && d < ENTRIES && k < ENTRIES && !HasPage(s, d, k) && WalkReads(va, d, k)
    ensures Translate(s.mem, s.dir, va) == None
  {}

  /** But the pages of that slot keep their frames, so frames are lost exactly when the table is not empty. */
  lemma TableReleaseLoses(s: Space, k: nat)
    requires Inv(s) && HasTable(s, k) && CanFree(s, 1023, k)
    ensures Frames(FreePage(s, 1023, k)) == Frames(s) - PresentIn(s.mem, TableFrame(s, k), ENTRIES)
  {
    hide Single, Unget, CanRelease, CanFree;
    var t := FreePage(s, 1023, k);
    TableReleasePool(s, k);
    GiveGood(s.pool, TableFrame(s, k));
    forall i: nat | 1 <= i < 1023 && i != k
      ensures SlotUsage(t, i) == SlotUsage(s, i)
    {
      if HasTable(s, i) {
        assert Apart(s, Directory, Table(i));
        PresentSame(s.mem, t.mem, TableFrame(s, i), ENTRIES);
      }
    }
    UsageChanges(s, t, k, 1023);
  }

  // ---------------------------------------------------------------------------------------------
  // Faults
  // ---------------------------------------------------------------------------------------------

  /**
   A fault in the window, for a slot without a table: the frame becomes the slot's table with whatever is in it. Its
   entry j is harmless if it is marked absent or maps a frame of the pool that nothing else has.
   */
  ghost predicate HarmlessAt(s: Space, f: nat, j: nat)
    requires s.dir < FRAMES && f < FRAMES && j < ENTRIES
  {
    var e := Entry(s.mem, f, j);
    e == ABSENT || (Present(e) && FrameOf(e) != f && Single(s.pool, FrameOf(e)) && forall p :: NotOf(s, FrameOf(e), p))
  }

  ghost predicate NotOf(s: Space, g: nat, p: Place)
    requires s.dir < FRAMES
  {
    Occupied(s, p) ==> FrameAt(s, p) != g
  }

  ghost predicate TwoHarmless(s: Space, f: nat, i: nat, j: nat)
    requires f < FRAMES && i < ENTRIES && j < ENTRIES
  {
    var e, e' := Entry(s.mem, f, i), Entry(s.mem, f, j);
    i != j && Present(e) && Present(e') ==> FrameOf(e) != FrameOf(e')
  }

  ghost predicate Harmless(s: Space, f: nat)
    requires s.dir < FRAMES && f < FRAMES
  {
    && (forall j: nat :: j < ENTRIES ==> HarmlessAt(s, f, j))
    && (forall i: nat, j: nat :: i < ENTRIES && j < ENTRIES ==> TwoHarmless(s, f, i, j))
  }

  /** The places after such a fault. */
  ghost predicate WindowAt(s: Space, t: Space, k: nat, f: nat, q: Place)
    requires s.dir < FRAMES && t.dir < FRAMES && f < FRAMES
  {
    if q == Table(k) then Occupied(t, q) && FrameAt(t, q) == f
    else if q.Data? && q.d == k then
      && (q.k < ENTRIES <==> HasEntry(t, q))
      && (q.k < ENTRIES ==> EntryOf(t, q) == Entry(s.mem, f, q.k))
    else
      && (Occupied(t, q) <==> Occupied(s, q))
      && (Occupied(t, q) ==> FrameAt(t, q) == FrameAt(s, q))
      && (HasEntry(t, q) && !Occupied(t, q) ==> EntryOf(t, q) == ABSENT)
  }

  lemma WindowPlaces(s: Space, k: nat, q: Place)
    requires Inv(s) && UserSlot(k) && !HasTable(s, k) && CanTake(s)
    ensures CanFault(s, 1023, k)
    ensures Fault(s, 1023, k).dir == s.dir
    ensures WindowAt(s, Fault(s, 1023, k), k, Granted(s.pool, 1), q)
  {
    hide Get, Single;
    NewFrameIsFree(s, Directory);
    assert Tidy(s, q) && Apart(s, Directory, Shared);
    if q.Data? && HasTable(s, q.d) {
      assert Apart(s, Directory, Table(q.d));
    }
  }

  lemma WindowFixed(s: Space, k: nat)
    requires Inv(s) && UserSlot(k) && !HasTable(s, k) && CanTake(s) && CanFault(s, 1023, k)
    ensures var t := Fault(s, 1023, k);
      && t.pool == Get(s.pool, 1) && SelfMapped(t.mem, t.dir) && Present(Entry(t.mem, t.dir, 0))
      && forall j: nat :: j < ENTRIES ==> IdentityAt(t, j)
  {
    hide Get;
    assert Apart(s, Directory, Shared);
    forall j: nat | j < ENTRIES
      ensures IdentityAt(Fault(s, 1023, k), j)
    {
      assert IdentityAt(s, j);
    }
  }

  lemma WindowTidy(s: Space, k: nat, q: Place)
    requires Inv(s) && UserSlot(k) && !HasTable(s, k) && CanTake(s) && CanFault(s, 1023, k)
    requires Harmless(s, Granted(s.pool, 1))
    ensures Fault(s, 1023, k).dir == s.dir && Tidy(Fault(s, 1023, k), q)
  {
    hide Fault, CanFault, EntryOf, Single;
    var t, f := Fault(s, 1023, k), Granted(s.pool, 1);
    TakeFrame(s.pool);
    WindowFixed(s, k);
    WindowPlaces(s, k, q);
    assert Tidy(s, q);
    if q.Data? && q.d == k && q.k < ENTRIES {
      DataEntry(t, q);
      assert HarmlessAt(s, f, q.k);
    } else if Occupied(s, q) {
      NewFrameIsFree(s, q);
    }
  }

  /** If the frame is harmless, the places stay in order. */
  lemma WindowKeeps(s: Space, k: nat)
    requires Inv(s) && UserSlot(k) && !HasTable(s, k) && CanTake(s) && CanFault(s, 1023, k)
    requires Harmless(s, Granted(s.pool, 1))
    ensures Inv(Fault(s, 1023, k))
  {
    hide Fault, CanFault, EntryOf;
    var t, f := Fault(s, 1023, k), Granted(s.pool, 1);
    TakeFrame(s.pool);
    WindowFixed(s, k);
    WindowPlaces(s, k, Table(k));
    forall q
      ensures Tidy(t, q)
    {
      WindowTidy(s, k, q);
    }
    forall q, r
      ensures Apart(t, q, r)
    {
      WindowApart(s, k, q, r);
    }
  }

  lemma DataEntry(t: Space, q: Place)
    requires t.dir < FRAMES && HasEntry(t, q)
    ensures Occupied(t, q) <==> Present(EntryOf(t, q))
    ensures Occupied(t, q) ==> FrameAt(t, q) == FrameOf(EntryOf(t, q))
  {}

  lemma WindowApart(s: Space, k: nat, q: Place, r: Place)
    requires Inv(s) && UserSlot(k) && !HasTable(s, k) && CanTake(s) && CanFault(s, 1023, k)
    requires Harmless(s, Granted(s.pool, 1))
    ensures Fault(s, 1023, k).dir == s.dir && Apart(Fault(s, 1023, k), q, r)
  {
    hide Fault, CanFault, EntryOf, Single;
    var t, f := Fault(s, 1023, k), Granted(s.pool, 1);
    WindowPlaces(s, k, q);
    WindowPlaces(s, k, r);
    assert Apart(s, q, r);
    if q.Data? && q.d == k && q.k < ENTRIES {
      DataEntry(t, q);
      assert HarmlessAt(s, f, q.k);
      assert Occupied(t, q) ==> NotOf(s, FrameOf(Entry(s.mem, f, q.k)), r);
    } else if Occupied(s, q) {
      NewFrameIsFree(s, q);
    }
    if r.Data? && r.d == k && r.k < ENTRIES {
      DataEntry(t, r);
      assert HarmlessAt(s, f, r.k);
      assert Occupied(t, r) ==> NotOf(s, FrameOf(Entry(s.mem, f, r.k)), q);
      assert q.Data? && q.d == k && q.k < ENTRIES ==> TwoHarmless(s, f, q.k, r.k);
    } else if Occupied(s, r) {
      NewFrameIsFree(s, r);
    }
  }

  lemma WindowNeedsNotOf(s: Space, k: nat, j: nat, p: Place)
    requires Inv(s) && UserSlot(k) && !HasTable(s, k) && CanTake(s) && CanFault(s, 1023, k)
    requires Inv(Fault(s, 1023, k)) && j < ENTRIES && Present(Entry(s.mem, Granted(s.pool, 1), j))
    ensures NotOf(s, FrameOf(Entry(s.mem, Granted(s.pool, 1), j)), p)
  {
    hide Fault, CanFault, EntryOf, Single, Tidy, HasEntry, Occupied, FrameAt;
    WindowPlaces(s, k, Data(k, j));
    WindowPlaces(s, k, p);
    if Occupied(s, p) {
      EmptySlot(s, k, p);
    }
    DataEntry(Fault(s, 1023, k), Data(k, j));
    assert Apart(Fault(s, 1023, k), Data(k, j), p);
  }

  lemma EmptySlot(s: Space, k: nat, p: Place)
    requires s.dir < FRAMES && UserSlot(k) && !HasTable(s, k) && Occupied(s, p)
    ensures p != Table(k) && !(p.Data? && p.d == k)
  {}

  lemma WindowNeedsOwn(s: Space, k: nat, j: nat)
    requires Inv(s) && UserSlot(k) && !HasTable(s, k) && CanTake(s) && CanFault(s, 1023, k)
    requires Inv(Fault(s, 1023, k)) && j < ENTRIES
    ensures var e := Entry(s.mem, Granted(s.pool, 1), j);
      e == ABSENT || (Present(e) && FrameOf(e) != Granted(s.pool, 1) && Single(s.pool, FrameOf(e)))
  {
    hide Fault, CanFault, EntryOf, Single;
    var t, q := Fault(s, 1023, k), Data(k, j);
    TakeFrame(s.pool);
    WindowFixed(s, k);
    WindowPlaces(s, k, q);
    WindowPlaces(s, k, Table(k));
    DataEntry(t, q);
    assert Tidy(t, q) && Apart(t, Table(k), q);
  }

  /** And if they do, the frame was harmless. */
  lemma WindowNeeds(s: Space, k: nat, j: nat)
    requires Inv(s) && UserSlot(k) && !HasTable(s, k) && CanTake(s) && CanFault(s, 1023, k)
    requires Inv(Fault(s, 1023, k)) && j < ENTRIES
    ensures HarmlessAt(s, Granted(s.pool, 1), j)
  {
    hide Fault, CanFault, NotOf;
    WindowNeedsOwn(s, k, j);
    if Present(Entry(s.mem, Granted(s.pool, 1), j)) {
      forall p
        ensures NotOf(s, FrameOf(Entry(s.mem, Granted(s.pool, 1), j)), p)
      {
        WindowNeedsNotOf(s, k, j, p);
      }
    }
  }

  lemma WindowNeedsTwo(s: Space, k: nat, i: nat, j: nat)
    requires Inv(s) && UserSlot(k) && !HasTable(s, k) && CanTake(s) && CanFault(s, 1023, k)
    requires Inv(Fault(s, 1023, k)) && i < ENTRIES && j < ENTRIES
    ensures TwoHarmless(s, Granted(s.pool, 1), i, j)
  {
    hide Fault, CanFault, EntryOf;
    var t := Fault(s, 1023, k);
    WindowPlaces(s, k, Data(k, i));
    WindowPlaces(s, k, Data(k, j));
    DataEntry(t, Data(k, i));
    DataEntry(t, Data(k, j));
    assert Apart(t, Data(k, i), Data(k, j));
  }

  /**
   A fault in the window changes nothing if the page shows a table; otherwise it keeps the invariant exactly when the
   frame that it takes is harmless as it is.
   */
  lemma WindowFaultKeepsExactly(s: Space, k: nat)
    requires Inv(s) && k < ENTRIES && CanFault(s, 1023, k)
    ensures HasPage(s, 1023, k) ==> Fault(s, 1023, k) == s
    ensures !HasPage(s, 1023, k) ==> Granted(s.pool, 1) < FRAMES
    ensures !HasPage(s, 1023, k) ==> (Inv(Fault(s, 1023, k)) <==> Harmless(s, Granted(s.pool, 1)))
  {
    if !HasPage(s, 1023, k) {
      if Harmless(s, Granted(s.pool, 1)) {
        WindowKeeps(s, k);
      }
      if Inv(Fault(s, 1023, k)) {
        forall j: nat | j < ENTRIES
          ensures HarmlessAt(s, Granted(s.pool, 1), j)
        {
          WindowNeeds(s, k, j);
        }
        forall i: nat, j: nat | i < ENTRIES && j < ENTRIES
          ensures TwoHarmless(s, Granted(s.pool, 1), i, j)
        {
          WindowNeedsTwo(s, k, i, j);
        }
      }
    }
  }

  /** One word of zeros in that frame is enough to break it. */
  lemma ZeroWordBreaks(s: Space, k: nat, j: nat)
    requires Inv(s) && k < ENTRIES && j < ENTRIES && CanFault(s, 1023, k) && !HasPage(s, 1023, k)
    requires Granted(s.pool, 1) < FRAMES && Entry(s.mem, Granted(s.pool, 1), j) == 0
    ensures !Inv(Fault(s, 1023, k))
  {
    WindowFaultKeepsExactly(s, k);
    assert !HarmlessAt(s, Granted(s.pool, 1), j);
  }
}
