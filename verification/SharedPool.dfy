/**
 Several page tables over one memory and one pool of frames, which the kernel keeps in a static field: they never
 share a frame, and nothing that one of them does changes what another maps or holds.
 */
module SharedPool {
  import opened Kernel
  import opened FrameCodes
  import opened FrameLedger
  import opened FramePool
  import opened Paging
  import opened AddressSpace
  import opened AddressSpaceLaws

  /** No frame belongs to a place of a and to a place of b. */
  ghost predicate ApartAt(a: Space, b: Space, p: Place, q: Place)
    requires a.dir < FRAMES && b.dir < FRAMES
  {
    Occupied(a, p) && Occupied(b, q) ==> FrameAt(a, p) != FrameAt(b, q)
  }

  ghost predicate Separate(a: Space, b: Space)
    requires a.dir < FRAMES && b.dir < FRAMES
  {
    forall p, q :: ApartAt(a, b, p, q)
  }

  /** Two spaces of one memory and one pool, each in order, with no frame in common. */
  ghost predicate Neighbours(a: Space, b: Space) {
    Inv(a) && Inv(b) && a.mem == b.mem && a.pool == b.pool && Separate(a, b)
  }

  /** b as it is seen after a has become t. */
  function SeenAfter(b: Space, t: Space): Space {
    Space(t.mem, b.dir, t.pool)
  }

  predicate SameWords(m: Memory, m': Memory, f: nat)
    requires f < FRAMES
  {
    forall j: nat :: j < ENTRIES ==> Entry(m', f, j) == Entry(m, f, j)
  }

  // ---------------------------------------------------------------------------------------------
  // A neighbour that keeps its frames and what is in them keeps everything
  // ---------------------------------------------------------------------------------------------

  ghost predicate KeptAt(b: Space, c: Space, p: Place)
    requires b.dir < FRAMES
  {
    Occupied(b, p) ==> Single(c.pool, FrameAt(b, p)) && SameWords(b.mem, c.mem, FrameAt(b, p))
  }

  ghost predicate Kept(b: Space, c: Space)
    requires b.dir < FRAMES
  {
    && c.dir == b.dir && c.pool.Good() && c.pool.base == b.pool.base && |c.pool.codes| == |b.pool.codes|
    && forall p :: KeptAt(b, c, p)
  }

  lemma KeptPlace(b: Space, c: Space, p: Place)
    requires Inv(b) && Kept(b, c)
    ensures Occupied(c, p) <==> Occupied(b, p)
    ensures Occupied(b, p) ==> FrameAt(c, p) == FrameAt(b, p)
    ensures Tidy(c, p)
  {
    hide Single;
    assert Tidy(b, p) && KeptAt(b, c, p) && KeptAt(b, c, Directory);
    if p.Data? && HasTable(b, p.d) {
      assert KeptAt(b, c, Table(p.d));
    }
  }

  lemma KeptFixed(b: Space, c: Space)
    requires Inv(b) && Kept(b, c)
    ensures SelfMapped(c.mem, c.dir) && Present(Entry(c.mem, c.dir, 0))
    ensures forall j: nat :: j < ENTRIES ==> IdentityAt(c, j)
  {
    hide Single;
    assert KeptAt(b, c, Directory) && KeptAt(b, c, Shared);
    forall j: nat | j < ENTRIES
      ensures IdentityAt(c, j)
    {
      assert IdentityAt(b, j);
    }
  }

  lemma KeptInv(b: Space, c: Space)
    requires Inv(b) && Kept(b, c)
    ensures Inv(c)
  {
    hide Single, Occupied, FrameAt;
    KeptFixed(b, c);
    forall p
      ensures Tidy(c, p)
    {
      KeptPlace(b, c, p);
    }
    forall p, q
      ensures Apart(c, p, q)
    {
      assert Apart(b, p, q);
      KeptPlace(b, c, p);
      KeptPlace(b, c, q);
    }
  }

  /** Every address translates as before. */
  lemma KeptTranslates(b: Space, c: Space, va: u32)
    requires Inv(b) && Kept(b, c)
    ensures Inv(c) && Translate(c.mem, c.dir, va) == Translate(b.mem, b.dir, va)
  {
    hide Translate, Single;
    KeptInv(b, c);
    if UserSlot(SlotOf(va)) {
      KeptPlace(b, c, PlaceOf(va));
      UserTranslation(b, va);
      UserTranslation(c, va);
    } else {
      assert KeptAt(b, c, Directory);
      SystemTranslation(b, va);
      SystemTranslation(c, va);
    }
  }

  // ---------------------------------------------------------------------------------------------
  // What one space does, and its neighbours
  // ---------------------------------------------------------------------------------------------

  /** t is a after writing only in the frame of its place w and in frame f. */
  ghost predicate WritesOnly(a: Space, t: Space, w: Place, f: nat)
    requires a.dir < FRAMES && Occupied(a, w)
  {
    forall g: nat :: g < FRAMES && g != FrameAt(a, w) && g != f ==> SameWords(a.mem, t.mem, g)
  }

  /** A place that gains a new frame. */
  lemma GainKept(a: Space, t: Space, b: Space, p: Place, f: nat, w: Place)
    requires Neighbours(a, b) && Gains(a, t, p, f) && Occupied(a, w) && WritesOnly(a, t, w, f)
    ensures Kept(b, SeenAfter(b, t))
  {
    TakeFrame(a.pool);
    forall q
      ensures KeptAt(b, SeenAfter(b, t), q)
    {
      assert Tidy(b, q) && ApartAt(a, b, w, q);
    }
  }

  lemma GainSeparate(a: Space, t: Space, b: Space, p: Place, f: nat)
    requires Neighbours(a, b) && Gains(a, t, p, f) && Kept(b, SeenAfter(b, t))
    ensures Separate(t, SeenAfter(b, t))
  {
    TakeFrame(a.pool);
    forall q, r
      ensures ApartAt(t, SeenAfter(b, t), q, r)
    {
      KeptPlace(b, SeenAfter(b, t), r);
      assert GainsAt(a, t, p, f, q) && ApartAt(a, b, q, r) && Tidy(b, r);
    }
  }

  lemma GainNeighbours(a: Space, t: Space, b: Space, p: Place, f: nat, w: Place)
    requires Neighbours(a, b) && Gains(a, t, p, f) && Occupied(a, w) && WritesOnly(a, t, w, f)
    ensures Kept(b, SeenAfter(b, t)) && Neighbours(t, SeenAfter(b, t))
  {
    hide Gains, WritesOnly, Kept, Separate;
    GainKept(a, t, b, p, f, w);
    GainsKeeps(a, t, p, f);
    GainSeparate(a, t, b, p, f);
    KeptInv(b, SeenAfter(b, t));
    GainDir(a, t, p, f);
  }

  lemma GainDir(a: Space, t: Space, p: Place, f: nat)
    requires Gains(a, t, p, f)
    ensures t.dir == a.dir
  {}

  lemma TableNeighbours(a: Space, b: Space, d: nat)
    requires Neighbours(a, b) && UserSlot(d) && !HasTable(a, d) && CanTake(a)
    ensures var t := NewTable(a, d); Kept(b, SeenAfter(b, t)) && Neighbours(t, SeenAfter(b, t))
  {
    hide Kept, Separate, Gains;
    var t, f := NewTable(a, d), Granted(a.pool, 1);
    NewTableGains(a, d);
    assert WritesOnly(a, t, Directory, f);
    GainNeighbours(a, t, b, Table(d), f, Directory);
  }

  lemma PageNeighbours(a: Space, b: Space, d: nat, k: nat)
    requires Neighbours(a, b) && HasTable(a, d) && k < ENTRIES && !Occupied(a, Data(d, k)) && CanTake(a)
    ensures var t := NewPage(a, d, k); Kept(b, SeenAfter(b, t)) && Neighbours(t, SeenAfter(b, t))
  {
    hide Kept, Separate, Gains;
    var t, f := NewPage(a, d, k), Granted(a.pool, 1);
    NewPageGains(a, d, k);
    assert WritesOnly(a, t, Table(d), f);
    GainNeighbours(a, t, b, Data(d, k), f, Table(d));
  }

  lemma KeptOn(b: Space, c: Space, e: Space)
    requires Inv(b) && Kept(b, c) && Kept(c, e)
    ensures Kept(b, e)
  {
    hide Single, Tidy;
    forall p
      ensures KeptAt(b, e, p)
    {
      KeptPlace(b, c, p);
      assert KeptAt(b, c, p) && KeptAt(c, e, p);
    }
  }

  lemma KeptSelf(b: Space)
    requires Inv(b)
    ensures Kept(b, b)
  {
    forall p
      ensures KeptAt(b, b, p)
    {
      assert Tidy(b, p);
    }
  }

  /** A fault of one space leaves its neighbours alone. */
  lemma FaultNeighbours(a: Space, b: Space, d: nat, k: nat)
    requires Neighbours(a, b) && UserSlot(d) && k < ENTRIES && CanFault(a, d, k)
    ensures var t := Fault(a, d, k); Kept(b, SeenAfter(b, t)) && Neighbours(t, SeenAfter(b, t))
  {
    hide Kept, Separate, NewTable, NewPage;
    var s1 := if HasTable(a, d) then a else NewTable(a, d);
    KeptSelf(b);
    assert SeenAfter(b, a) == b;
    if !HasTable(a, d) {
      TableNeighbours(a, b, d);
    }
    if !Occupied(s1, Data(d, k)) {
      var t := NewPage(s1, d, k);
      PageNeighbours(s1, SeenAfter(b, s1), d, k);
      assert SeenAfter(SeenAfter(b, s1), t) == SeenAfter(b, t);
      KeptOn(b, SeenAfter(b, s1), SeenAfter(b, t));
    }
  }

  lemma FreeKept(a: Space, b: Space, d: nat, k: nat)
    requires Neighbours(a, b) && Occupied(a, Data(d, k)) && CanFree(a, d, k)
    ensures Kept(b, SeenAfter(b, FreePage(a, d, k)))
  {
    hide FreePage, CanFree, Single;
    var t, f := FreePage(a, d, k), FrameAt(a, Data(d, k));
    FreePool(a, d, k);
    forall q
      ensures KeptAt(b, SeenAfter(b, t), q)
    {
      assert Tidy(b, q) && ApartAt(a, b, Data(d, k), q) && ApartAt(a, b, Table(d), q);
      if Occupied(b, q) {
        FreeWords(a, d, k, FrameAt(b, q));
      }
    }
  }

  lemma FreePool(a: Space, d: nat, k: nat)
    requires Inv(a) && Occupied(a, Data(d, k)) && CanFree(a, d, k)
    ensures var t, f := FreePage(a, d, k), FrameAt(a, Data(d, k));
      && t.dir == a.dir && t.pool.Good() && t.pool.base == a.pool.base && |t.pool.codes| == |a.pool.codes|
      && forall g: nat {:trigger Single(a.pool, g)} :: Single(a.pool, g) && g != f ==> Single(t.pool, g)
  {
    assert Tidy(a, Data(d, k));
    GiveFrame(a.pool, FrameAt(a, Data(d, k)));
  }

  lemma FreeWords(a: Space, d: nat, k: nat, g: nat)
    requires a.dir < FRAMES && HasTable(a, d) && CanFree(a, d, k) && g < FRAMES && g != TableFrame(a, d)
    ensures SameWords(a.mem, FreePage(a, d, k).mem, g)
  {}

  /** So does the release of a user page. */
  lemma FreeNeighbours(a: Space, b: Space, d: nat, k: nat)
    requires Neighbours(a, b) && UserSlot(d) && CanFree(a, d, k)
    ensures var t := FreePage(a, d, k); Kept(b, SeenAfter(b, t)) && Neighbours(t, SeenAfter(b, t))
  {
    var t := FreePage(a, d, k);
    FreePageKeeps(a, d, k);
    if !Occupied(a, Data(d, k)) {
      KeptSelf(b);
      assert SeenAfter(b, a) == b;
    } else {
      FreeKept(a, b, d, k);
      KeptInv(b, SeenAfter(b, t));
      FreeSeparate(a, b, d, k);
    }
  }

  lemma FreeSeparate(a: Space, b: Space, d: nat, k: nat)
    requires Neighbours(a, b) && Occupied(a, Data(d, k)) && CanFree(a, d, k)
    requires Kept(b, SeenAfter(b, FreePage(a, d, k)))
    ensures FreePage(a, d, k).dir == a.dir && Separate(FreePage(a, d, k), SeenAfter(b, FreePage(a, d, k)))
  {
    hide FreePage, Kept, Tidy, EntryOf;
    var t := FreePage(a, d, k);
    FreeDir(a, d, k);
    forall q, r
      ensures ApartAt(t, SeenAfter(b, t), q, r)
    {
      FreePageLoses(a, d, k, q);
      KeptPlace(b, SeenAfter(b, t), r);
      assert ApartAt(a, b, q, r);
    }
  }

  lemma FreeDir(a: Space, d: nat, k: nat)
    requires a.dir < FRAMES && CanFree(a, d, k)
    ensures FreePage(a, d, k).dir == a.dir
  {}

  /** And a store, which does not even change a word in a neighbour's frames. */
  lemma StoreNeighbours(a: Space, t: Space, b: Space, va: u32, v: u32)
    requires Neighbours(a, b) && Stored(a, t, va, v)
    ensures Kept(b, SeenAfter(b, t)) && Neighbours(t, SeenAfter(b, t))
  {
    var pa := Translate(a.mem, a.dir, va).value;
    var f, j := pa / 4096, pa % 4096 / 4;
    StoreFrame(a, b, va, pa);
    StoreIsPlain(a, va, pa);
    WordOfFrame(pa);
    assert t == a.(mem := SetEntry(a.mem, f, j, v));
    StoreKeeps(a, t, va, v);
    StoreKept(a, t, b, f, j, v);
    KeptInv(b, SeenAfter(b, t));
    StoreSeparate(a, t, b, f, j, v);
  }

  /** The frame that a store reaches is no neighbour's. */
  lemma StoreFrame(a: Space, b: Space, va: u32, pa: nat)
    requires Neighbours(a, b) && va < 0xFFC0_0000 && Translate(a.mem, a.dir, va) == Some(pa)
    ensures forall q {:trigger Occupied(b, q)} :: Occupied(b, q) ==> FrameAt(b, q) != pa / 4096
  {
    hide Translate;
    if va < 0x40_0000 {
      LowTranslation(a, va);
      forall q {:trigger Occupied(b, q)} | Occupied(b, q)
        ensures FrameAt(b, q) != pa / 4096
      {
        assert Tidy(b, q);
      }
    } else {
      UserTranslation(a, va);
      forall q {:trigger Occupied(b, q)} | Occupied(b, q)
        ensures FrameAt(b, q) != pa / 4096
      {
        assert ApartAt(a, b, PlaceOf(va), q);
      }
    }
  }

  lemma StoreKept(a: Space, t: Space, b: Space, f: nat, j: nat, v: u32)
    requires Neighbours(a, b) && f < FRAMES && j < ENTRIES && t == a.(mem := SetEntry(a.mem, f, j, v))
    requires forall q {:trigger Occupied(b, q)} :: Occupied(b, q) ==> FrameAt(b, q) != f
    ensures Kept(b, SeenAfter(b, t))
  {
    forall q
      ensures KeptAt(b, SeenAfter(b, t), q)
    {
      assert Tidy(b, q);
    }
  }

  lemma StoreSeparate(a: Space, t: Space, b: Space, f: nat, j: nat, v: u32)
    requires Neighbours(a, b) && Plain(a, f) && j < ENTRIES && t == a.(mem := SetEntry(a.mem, f, j, v))
    requires Kept(b, SeenAfter(b, t))
    ensures Separate(t, SeenAfter(b, t))
  {
    hide Kept, Tidy, EntryOf;
    forall q, r
      ensures ApartAt(t, SeenAfter(b, t), q, r)
    {
      PlainWrite(a, t, f, j, v, q);
      KeptPlace(b, SeenAfter(b, t), r);
      assert ApartAt(a, b, q, r);
    }
  }

  // ---------------------------------------------------------------------------------------------
  // Any number of spaces
  // ---------------------------------------------------------------------------------------------

  datatype System = System(mem: Memory, pool: Pool, dirs: seq<nat>)

  function View(y: System, i: nat): Space
    requires i < |y.dirs|
  {
    Space(y.mem, y.dirs[i], y.pool)
  }

  /** Every two page tables are neighbours. */
  ghost predicate Orderly(y: System) {
    && y.pool.Good() && 1024 <= y.pool.base && y.pool.base + |y.pool.codes| <= FRAMES
    && (forall i: nat :: i < |y.dirs| ==> Inv(View(y, i)))
    && (forall i: nat, j: nat :: i < |y.dirs| && j < |y.dirs| && i != j ==> Neighbours(View(y, i), View(y, j)))
  }

  /** What page table i can do: a fault or a release of a user page, or a store. */
  ghost predicate Acts(a: Space, t: Space)
    requires a.dir < FRAMES
  {
    || (exists d: nat, k: nat :: UserSlot(d) && k < ENTRIES && CanFault(a, d, k) && t == Fault(a, d, k))
    || (exists d: nat, k: nat :: UserSlot(d) && CanFree(a, d, k) && t == FreePage(a, d, k))
    || (exists va: u32, v: u32 :: Stored(a, t, va, v))
  }

  ghost predicate Moves(y: System, z: System, i: nat, t: Space) {
    && i < |y.dirs| && y.dirs[i] < FRAMES && Acts(View(y, i), t)
    && z == System(t.mem, t.pool, y.dirs)
  }

  /** A new page table. */
  ghost predicate Creates(y: System, z: System) {
    && CanBuild(y.pool)
    && var c := Build(y.mem, y.pool); z == System(c.mem, c.pool, y.dirs + [c.dir])
  }

  /** The processor sets status bits in entries that some page table uses. */
  ghost predicate Touches(y: System, z: System) {
    && z.pool == y.pool && z.dirs == y.dirs
    && forall j: nat :: j < |y.dirs| ==> Touched(View(y, j), View(z, j))
  }

  ghost predicate Next(y: System, z: System) {
    Creates(y, z) || Touches(y, z) || exists i: nat, t: Space :: Moves(y, z, i, t)
  }

  lemma ActNeighbours(a: Space, t: Space, b: Space)
    requires Neighbours(a, b) && Acts(a, t)
    ensures Kept(b, SeenAfter(b, t)) && Neighbours(t, SeenAfter(b, t))
  {
    hide Kept, Separate, Fault, FreePage;
    if va: u32, v: u32 :| Stored(a, t, va, v) {
      StoreNeighbours(a, t, b, va, v);
    } else if d: nat, k: nat :| UserSlot(d) && CanFree(a, d, k) && t == FreePage(a, d, k) {
      FreeNeighbours(a, b, d, k);
    } else {
      var d: nat, k: nat :| UserSlot(d) && k < ENTRIES && CanFault(a, d, k) && t == Fault(a, d, k);
      FaultNeighbours(a, b, d, k);
    }
  }

  lemma ActOwned(a: Space, t: Space)
    requires Inv(a) && Acts(a, t)
    ensures Inv(t) && t.dir == a.dir
    ensures t.pool.base == a.pool.base && |t.pool.codes| == |a.pool.codes|
  {
    hide Fault, FreePage, Tidy;
    if va: u32, v: u32 :| Stored(a, t, va, v) {
      StoreKeeps(a, t, va, v);
    } else if d: nat, k: nat :| UserSlot(d) && CanFree(a, d, k) && t == FreePage(a, d, k) {
      FreePageKeeps(a, d, k);
      FreePlacePool(a, d, k);
    } else {
      var d: nat, k: nat :| UserSlot(d) && k < ENTRIES && CanFault(a, d, k) && t == Fault(a, d, k);
      FaultKeeps(a, d, k);
      FaultDir(a, d, k);
      FaultPool(a, d, k);
    }
  }

  lemma FreePlacePool(a: Space, d: nat, k: nat)
    requires a.dir < FRAMES && CanFree(a, d, k)
    ensures var t := FreePage(a, d, k);
      t.dir == a.dir && t.pool.base == a.pool.base && |t.pool.codes| == |a.pool.codes|
  {}

  lemma FaultPool(a: Space, d: nat, k: nat)
    requires a.dir < FRAMES && d < ENTRIES && k < ENTRIES && CanFault(a, d, k)
    ensures var t := Fault(a, d, k); t.pool.base == a.pool.base && |t.pool.codes| == |a.pool.codes|
  {}

  /** Whatever page table i does, every other one keeps its frames, their words and its translations. */
  lemma MoveIsolates(y: System, z: System, i: nat, t: Space, j: nat, va: u32)
    requires Orderly(y) && Moves(y, z, i, t) && j < |y.dirs| && j != i
    ensures Kept(View(y, j), View(z, j))
    ensures Translate(z.mem, z.dirs[j], va) == Translate(y.mem, y.dirs[j], va)
  {
    hide Kept, Acts, Translate, Inv;
    assert Neighbours(View(y, i), View(y, j)) && Inv(View(y, j));
    ActNeighbours(View(y, i), t, View(y, j));
    assert View(z, j) == SeenAfter(View(y, j), t);
    KeptTranslates(View(y, j), View(z, j), va);
  }

  lemma MoveInv(y: System, z: System, i: nat, t: Space, j: nat)
    requires Orderly(y) && Moves(y, z, i, t) && j < |y.dirs|
    ensures Inv(View(z, j))
  {
    hide Acts, Inv;
    assert Inv(View(y, i)) && Inv(View(y, j));
    ActOwned(View(y, i), t);
    if j == i {
      assert View(z, i) == t;
    } else {
      assert Neighbours(View(y, i), View(y, j));
      ActNeighbours(View(y, i), t, View(y, j));
      assert View(z, j) == SeenAfter(View(y, j), t);
    }
  }

  lemma MoveNeighbours(y: System, z: System, i: nat, t: Space, j: nat, l: nat)
    requires Orderly(y) && Moves(y, z, i, t) && j < |y.dirs| && l < |y.dirs| && j != l
    ensures Neighbours(View(z, j), View(z, l))
  {
    hide Acts, Inv, Kept, Separate, Orderly;
    MoveOrderly(y, i, j, l);
    ActOwned(View(y, i), t);
    assert View(z, i) == t;
    if j == i {
      ActNeighbours(View(y, i), t, View(y, l));
      assert View(z, l) == SeenAfter(View(y, l), t);
    } else if l == i {
      ActNeighbours(View(y, i), t, View(y, j));
      assert View(z, j) == SeenAfter(View(y, j), t);
      NeighboursTurn(t, View(z, j));
    } else {
      ActNeighbours(View(y, i), t, View(y, j));
      ActNeighbours(View(y, i), t, View(y, l));
      assert View(z, j) == SeenAfter(View(y, j), t) && View(z, l) == SeenAfter(View(y, l), t);
      BothKept(View(y, j), View(z, j), View(y, l), View(z, l));
    }
  }

  lemma MoveOrderly(y: System, i: nat, j: nat, l: nat)
    requires Orderly(y) && i < |y.dirs| && j < |y.dirs| && l < |y.dirs| && j != l
    ensures Inv(View(y, i)) && Neighbours(View(y, j), View(y, l))
    ensures j != i ==> Neighbours(View(y, i), View(y, j))
    ensures l != i ==> Neighbours(View(y, i), View(y, l))
  {
    hide Inv, Neighbours;
  }

  lemma NeighboursTurn(a: Space, b: Space)
    requires Neighbours(a, b)
    ensures Neighbours(b, a)
  {
    forall p, q
      ensures ApartAt(b, a, p, q)
    {
      assert ApartAt(a, b, q, p);
    }
  }

  lemma BothKept(b: Space, b': Space, c: Space, c': Space)
    requires Neighbours(b, c) && Kept(b, b') && Kept(c, c') && b'.mem == c'.mem && b'.pool == c'.pool
    ensures Neighbours(b', c')
  {
    hide Kept, Tidy, EntryOf;
    KeptInv(b, b');
    KeptInv(c, c');
    KeptDir(b, b');
    KeptDir(c, c');
    forall p, q
      ensures ApartAt(b', c', p, q)
    {
      KeptPlace(b, b', p);
      KeptPlace(c, c', q);
      assert ApartAt(b, c, p, q);
    }
  }

  lemma KeptDir(b: Space, c: Space)
    requires b.dir < FRAMES && Kept(b, c)
    ensures c.dir == b.dir
  {}

  lemma MovesKeeps(y: System, z: System, i: nat, t: Space)
    requires Orderly(y) && Moves(y, z, i, t)
    ensures Orderly(z)
  {
    hide Acts, Neighbours;
    MovePool(y, z, i, t);
    forall j: nat | j < |z.dirs|
      ensures Inv(View(z, j))
    {
      MoveInv(y, z, i, t, j);
    }
    forall j: nat, l: nat | j < |z.dirs| && l < |z.dirs| && j != l
      ensures Neighbours(View(z, j), View(z, l))
    {
      MoveNeighbours(y, z, i, t, j, l);
    }
  }

  lemma MovePool(y: System, z: System, i: nat, t: Space)
    requires Orderly(y) && Moves(y, z, i, t)
    ensures z.pool.Good() && z.pool.base == y.pool.base && |z.pool.codes| == |y.pool.codes| && z.dirs == y.dirs
  {
    hide Acts, Neighbours;
    ActOwned(View(y, i), t);
  }

  // ---------------------------------------------------------------------------------------------
  // New page tables
  // ---------------------------------------------------------------------------------------------

  /** The frames of a new directory and first table were nobody's. */
  lemma BuildPool(pool: Pool)
    requires pool.Good() && CanBuild(pool)
    ensures var dir, table, q := Granted(pool, 1), Granted(Get(pool, 1), 1), Get(Get(pool, 1), 1);
      && q.Good() && q.base == pool.base && |q.codes| == |pool.codes| && dir != table
      && !Single(pool, dir) && !Single(pool, table) && Single(q, dir) && Single(q, table)
      && forall g: nat {:trigger Single(pool, g)} :: Single(pool, g) ==> Single(q, g)
  {
    TakeFrame(pool);
    TakeFrame(Get(pool, 1));
    assert Single(Get(pool, 1), Granted(pool, 1));
  }

  lemma BuildWords(m: Memory, pool: Pool, g: nat)
    requires CanBuild(pool) && g < FRAMES && g != Granted(pool, 1) && g != Granted(Get(pool, 1), 1)
    ensures SameWords(m, Build(m, pool).mem, g)
  {}

  lemma BuildKept(y: System, z: System, j: nat)
    requires Orderly(y) && Creates(y, z) && j < |y.dirs|
    ensures Kept(View(y, j), View(z, j))
  {
    hide Build, Neighbours, Single;
    BuildIs(y.mem, y.pool);
    BuildPool(y.pool);
    var b := View(y, j);
    assert Inv(b);
    forall p
      ensures KeptAt(b, View(z, j), p)
    {
      assert Tidy(b, p);
      if Occupied(b, p) {
        BuildWords(y.mem, y.pool, FrameAt(b, p));
      }
    }
  }

  lemma BuildIs(m: Memory, pool: Pool)
    requires CanBuild(pool)
    ensures var c := Build(m, pool); c.dir == Granted(pool, 1) && c.pool == Get(Get(pool, 1), 1)
  {}

  /** A new space has two places, both in frames that were nobody's. */
  lemma BuildSeparate(y: System, z: System, j: nat)
    requires Orderly(y) && Creates(y, z) && j < |y.dirs|
    ensures Neighbours(View(z, |y.dirs|), View(z, j))
  {
    hide Build, Single, Kept;
    var c, b, b' := Build(y.mem, y.pool), View(y, j), View(z, j);
    assert Inv(b);
    BuildKept(y, z, j);
    BuildKeeps(y.mem, y.pool);
    BuildIs(y.mem, y.pool);
    BuildPool(y.pool);
    BuildFresh(y.mem, y.pool);
    KeptInv(b, b');
    KeptDir(b, b');
    assert View(z, |y.dirs|) == c;
    forall p, q
      ensures ApartAt(c, b', p, q)
    {
      FreshTidy(c, Granted(Get(y.pool, 1), 1), p);
      KeptPlace(b, b', q);
      assert Tidy(b, q);
    }
  }

  lemma CreatesKeeps(y: System, z: System)
    requires Orderly(y) && Creates(y, z)
    ensures Orderly(z)
  {
    hide Build, Kept, Separate, Single, Tidy;
    var n := |y.dirs|;
    BuildKeeps(y.mem, y.pool);
    BuildIs(y.mem, y.pool);
    BuildPool(y.pool);
    assert View(z, n) == Build(y.mem, y.pool);
    forall j: nat | j < n
      ensures Inv(View(z, j)) && Neighbours(View(z, n), View(z, j)) && Neighbours(View(z, j), View(z, n))
    {
      BuildSeparate(y, z, j);
      NeighboursTurn(View(z, n), View(z, j));
    }
    forall j: nat, l: nat | j < n && l < n && j != l
      ensures Neighbours(View(z, j), View(z, l))
    {
      assert Neighbours(View(y, j), View(y, l));
      BuildKept(y, z, j);
      BuildKept(y, z, l);
      BothKept(View(y, j), View(z, j), View(y, l), View(z, l));
    }
  }

  lemma TouchedNeighbours(a: Space, t: Space, b: Space, c: Space)
    requires Neighbours(a, b) && Touched(a, t) && Touched(b, c) && t.mem == c.mem
    ensures Neighbours(t, c)
  {
    hide Tidy, EntryOf;
    TouchKeeps(a, t);
    TouchKeeps(b, c);
    forall p, q
      ensures ApartAt(t, c, p, q)
    {
      TouchedPlace(a, t, p);
      TouchedPlace(b, c, q);
      assert ApartAt(a, b, p, q);
    }
  }

  lemma TouchesKeeps(y: System, z: System)
    requires Orderly(y) && Touches(y, z)
    ensures Orderly(z)
  {
    hide Neighbours, Touched, Inv;
    forall j: nat | j < |z.dirs|
      ensures Inv(View(z, j))
    {
      assert Inv(View(y, j)) && Touched(View(y, j), View(z, j));
      TouchKeeps(View(y, j), View(z, j));
    }
    forall j: nat, l: nat | j < |z.dirs| && l < |z.dirs| && j != l
      ensures Neighbours(View(z, j), View(z, l))
    {
      assert Neighbours(View(y, j), View(y, l));
      TouchedNeighbours(View(y, j), View(z, j), View(y, l), View(z, l));
    }
  }

  // ---------------------------------------------------------------------------------------------
  // Whole runs
  // ---------------------------------------------------------------------------------------------

  ghost predicate IsRun(ys: seq<System>) {
    ys != [] && forall i: nat :: i < |ys| - 1 ==> Next(ys[i], ys[i + 1])
  }

  lemma NextKeeps(y: System, z: System)
    requires Orderly(y) && Next(y, z)
    ensures Orderly(z)
  {
    hide Orderly, Creates, Moves, Touches;
    if Creates(y, z) {
      CreatesKeeps(y, z);
    } else if Touches(y, z) {
      TouchesKeeps(y, z);
    } else {
      var i: nat, t: Space :| Moves(y, z, i, t);
      MovesKeeps(y, z, i, t);
    }
  }

  /** In every run from a pool without page tables, every two page tables are neighbours throughout. */
  lemma {:induction false} RunIsOrderly(m: Memory, pool: Pool, ys: seq<System>, n: nat)
    requires pool.Good() && 1024 <= pool.base && pool.base + |pool.codes| <= FRAMES
    requires IsRun(ys) && ys[0] == System(m, pool, []) && n < |ys|
    ensures Orderly(ys[n])
  {
    hide Next;
    if n == 0 {
    } else {
      RunIsOrderly(m, pool, ys, n - 1);
      assert Next(ys[n - 1], ys[n - 1 + 1]);
      NextKeeps(ys[n - 1], ys[n]);
    }
  }

  /** So no physical address is a user address of two of them. */
  lemma RunNeverShares(m: Memory, pool: Pool, ys: seq<System>, n: nat, i: nat, j: nat, va: u32, vb: u32)
    requires pool.Good() && 1024 <= pool.base && pool.base + |pool.codes| <= FRAMES
    requires IsRun(ys) && ys[0] == System(m, pool, []) && n < |ys|
    requires i < |ys[n].dirs| && j < |ys[n].dirs| && i != j
    requires UserSlot(SlotOf(va)) && UserSlot(SlotOf(vb))
    ensures ys[n].dirs[i] < FRAMES && ys[n].dirs[j] < FRAMES
    ensures Translate(ys[n].mem, ys[n].dirs[i], va).Some? ==>
      Translate(ys[n].mem, ys[n].dirs[i], va) != Translate(ys[n].mem, ys[n].dirs[j], vb)
  {
    hide IsRun, Translate;
    RunIsOrderly(m, pool, ys, n);
    var a, b := View(ys[n], i), View(ys[n], j);
    assert Neighbours(a, b);
    UserTranslation(a, va);
    UserTranslation(b, vb);
    assert ApartAt(a, b, PlaceOf(va), PlaceOf(vb));
  }
}
