/** The page table over physical memory, reached through its own window, and the pools of virtual memory. */
module VirtualMemory {
  import opened Kernel
  import opened Words
  import opened FramePool
  import opened Paging
  import opened AddressSpace
  import opened AddressSpaceLaws
  import C = ContFramePool
  import F = FrameRegistry
  import R = Regions

  /** Clearing the low ten bits leaves two status bits, which the division drops. */
  lemma FrameField(e: u32)
    ensures And(e, Not(0x3FF)) / PAGE_SIZE == FrameOf(e)
  {
    hide And;
    Above10(e);
    DropTwoBits(e);
  }

  lemma DropTwoBits(e: nat)
    ensures (e - e % 1024) / 4096 == e / 4096
  {
    var q, r := e / 4096, e % 4096;
    ModUnique(e, 1024, 4 * q + r / 1024, r % 1024);
    ModUnique(e - r % 1024, 4096, q, r / 1024 * 1024);
  }

  /** Releasing the pages of a page-aligned region ends the translation of exactly the addresses it covers. */
  lemma RegionUnmapped(s: Space, r: R.Region, va: u32)
    requires Inv(s) && r.start % PAGE_SIZE == 0 && r.size % PAGE_SIZE == 0
    requires 0x40_0000 <= r.start && r.End() <= 0xFFC0_0000
    ensures var t := FreePages(s, r.start / PAGE_SIZE, r.End() / PAGE_SIZE);
      Translate(t.mem, t.dir, va) == if r.Covers(va) then None else Translate(s.mem, s.dir, va)
  {
    hide FreePages, Translate;
    FreePagesUnmap(s, r.start / PAGE_SIZE, r.End() / PAGE_SIZE, va);
    assert r.Covers(va) <==> r.start / PAGE_SIZE <= va / 4096 < r.End() / PAGE_SIZE;
  }

  /** The assertion lets a base through that is not on a page, even where the field held that base already. */
  lemma CheckMissesBase()
    ensures And(0, 0x3FF) == 0 && And(0x2000_0400, 0x3FF) == 0
    ensures var v := R.Initial(0x2000_0400, 0x1000_0000);
      R.Good(v) && v.regions[0].start % PAGE_SIZE != 0
  {
    hide And;
    Low10(0);
    Low10(0x2000_0400);
    R.InitialGood(0x2000_0400, 0x1000_0000);
  }

  class VMPool {
    const LIST_SIZE: nat := 512
    const base: u32
    const size: u32
    const pageTable: PageTable
    const list: array<R.Region>
    var count: nat

    /** The list fills at most its page; remove_item may read one entry past it. */
    ghost predicate Valid()
      reads this
    {
      count <= LIST_SIZE && list.Length == LIST_SIZE + 1
    }

    ghost function State(): R.Pool
      requires Valid()
      reads this, list
    {
      R.Pool(base, size, list[..count])
    }

    /** A new pool, entered in its page table's list. */
    constructor (base: u32, size: u32, pageTable: PageTable)
      requires |pageTable.vmPools| < pageTable.CAPACITY
      modifies pageTable`vmPools
      ensures Valid() && State() == R.Initial(base, size) && this.pageTable == pageTable && fresh(list)
      ensures pageTable.vmPools == old(pageTable.vmPools) + [this]
    {
      this.base := base;
      this.size := R.RoundUp(size);
      this.pageTable := pageTable;
      list := new R.Region[LIST_SIZE + 1](_ => R.Region(0, 0));
      count := 0;
      new;
      pageTable.RegisterPool(this);
      list[0] := R.Region(base, PAGE_SIZE);
      count := 1;
    }

    /** The constructor with its assertion, which looks at what the field base_address held before it is set. */
    static method Create(base: u32, size: u32, pageTable: PageTable, stale: u32) returns (r: Outcome<VMPool>)
      requires |pageTable.vmPools| < pageTable.CAPACITY
      modifies pageTable`vmPools
      ensures r.Returns? <==> stale % 1024 == 0
      ensures r.Returns? ==> fresh(r.value) && fresh(r.value.list) && r.value.pageTable == pageTable
      ensures r.Returns? ==> r.value.Valid() && r.value.State() == R.Initial(base, size)
      ensures pageTable.vmPools == if r.Returns? then old(pageTable.vmPools) + [r.value] else old(pageTable.vmPools)
    {
      Low10(stale);
      if And(stale, 0x3FF) != 0 {
        return Halts;
      }
      var pool := new VMPool(base, size, pageTable);
      return Returns(pool);
    }

    method IsLegitimate(a: u32) returns (valid: bool)
      requires Valid()
      ensures valid == R.Legitimate(State(), a)
    {
      valid := false;
      if count == 0 {
        return true;
      }
      var i := 0;
      while i < count
        invariant 0 <= i <= count
        invariant forall j :: 0 <= j < i ==> !R.Accepts(list[j], a)
      {
        if list[i].start <= a && Add32(list[i].start, list[i].size) > a {
          assert R.Accepts(State().regions[i], a);
          return true;
        }
        i := i + 1;
      }
    }

    /** Index 0 belongs to the list itself; with it the source's unsigned counter would never go below it. */
    method InsertItem(x: R.Region, index: nat)
      requires Valid() && 0 < index <= count < LIST_SIZE
      modifies this`count, list
      ensures Valid() && count == old(count) + 1
      ensures State() == old(State()).(regions := R.InsertAt(old(State()).regions, index, x))
    {
      ghost var before := list[..];
      var i := count - 1;
      while i >= index
        invariant index - 1 <= i < count == old(count)
        invariant forall j :: 0 <= j <= i ==> list[j] == before[j]
        invariant forall j :: i + 1 < j <= count ==> list[j] == before[j - 1]
      {
        list[i + 1] := list[i];
        i := i - 1;
      }
      list[index] := x;
      R.InsertedInPlace(before, list[..], count, index, x);
      count := count + 1;
    }

    method RemoveItem(index: nat)
      requires Valid() && index < count
      modifies this`count, list
      ensures Valid() && count == old(count) - 1
      ensures State() == old(R.Drop(State(), index))
    {
      ghost var before := list[..];
      var i := index;
      while i < count
        invariant index <= i <= count == old(count)
        invariant forall j :: 0 <= j < index ==> list[j] == before[j]
        invariant forall j :: index <= j < i ==> list[j] == before[j + 1]
        invariant forall j :: i <= j <= count ==> list[j] == before[j]
      {
        list[i] := list[i + 1];
        i := i + 1;
      }
      list[count - 1] := R.Region(0, 0);
      R.RemovedInPlace(before, list[..], count, index);
      count := count - 1;
    }

    method Allocate(bytes: u32) returns (r: Outcome<u32>)
      requires Valid() && 0 < count < LIST_SIZE
      modifies this`count, list
      ensures Valid()
      ensures r.Returns? <==> old(R.CanAllocate(State(), bytes))
      ensures r.Returns? ==> r.value == old(R.Address(State(), bytes)) && State() == old(R.Allocate(State(), bytes))
      ensures r.Halts? ==> State() == old(State())
    {
      hide R.RoundUp, R.InsertAt;
      ghost var v := State();
      var need := R.RoundUp(bytes);
      var i := 0;
      while i < count - 1
        invariant 0 <= i <= count - 1
        invariant R.FirstGap(v, need, 0) == R.FirstGap(v, need, i)
      {
        if Sub32(Sub32(list[i + 1].start, list[i].start), list[i].size) >= need {
          var address := Add32(list[i].start, list[i].size);
          InsertItem(R.Region(address, need), i + 1);
          return Returns(address);
        }
        i := i + 1;
      }
      if Sub32(Sub32(Add32(base, size), list[count - 1].start), list[count - 1].size) >= need {
        var address := Add32(list[count - 1].start, list[count - 1].size);
        InsertItem(R.Region(address, need), count);
        return Returns(address);
      }
      return Halts;
    }

    /** release as it is written: line 116 compares region_num with i where it should set it, so nothing is found. */
    method Release(start: u32)
      requires Valid()
      ensures State() == old(State())
    {
      var regionNum := 0;
      var i := 1;
      while i < count
        invariant regionNum == 0
      {
        if list[i].start == start {
          var unused := regionNum == i;
          break;
        }
        i := i + 1;
      }
      if regionNum == 0 {
        return;
      }
    }

    /** What follows in release, for the region it should have found: its pages, then its entry. */
    method ReleaseRegion(k: nat)
      requires Valid() && 0 < k < count && R.Good(State()) && pageTable.Valid()
      requires this !in pageTable.registry.Footprint() && list !in pageTable.registry.Footprint()
      requires 0x40_0000 <= base && base + size <= 0xFFC0_0000
      modifies this`count, list, pageTable.memory, pageTable.registry.Footprint()
      ensures Valid() && State() == old(R.Drop(State(), k))
      ensures pageTable.Valid()
      ensures pageTable.State() ==
        old(FreePages(pageTable.State(), State().regions[k].start / PAGE_SIZE, State().regions[k].End() / PAGE_SIZE))
    {
      hide Inv, FreePages, FreePageNumber;
      assert R.InPool(State(), State().regions[k]);
      pageTable.FreePagesOf(list[k].start / PAGE_SIZE, Add32(list[k].start, list[k].size) / PAGE_SIZE);
      RemoveItem(k);
    }
  }

  class PageTable {
    const CAPACITY: nat := 10
    const memory: array<u32>
    const directory: nat
    const frames: C.ContFramePool
    const registry: F.Registry
    ghost const index: nat
    var vmPools: seq<VMPool>

    /** The frame pool is one of the registered ones, and what it keeps is not in the frames it hands out. */
    ghost predicate Linked()
      reads this, registry
    {
      && memory.Length == MEMORY_WORDS
      && registry.Valid() && registry.Separate()
      && index < |registry.pools| && registry.pools[index] == frames
      && this !in registry.Footprint() && registry !in registry.Footprint() && memory !in registry.Footprint()
    }

    ghost function State(): Space
      requires Linked()
      reads this, registry, memory, frames, frames.bitmap
    {
      Space(memory[..], directory, frames.State())
    }

    ghost predicate Valid()
      reads this, registry, memory, frames, frames.bitmap
    {
      Linked() && Inv(State())
    }

    // ---------------------------------------------------------------------------------------------
    // Memory, as the processor reaches it
    // ---------------------------------------------------------------------------------------------

    /** The table walk of the processor. */
    method Walk(va: u32) returns (pa: nat)
      requires memory.Length == MEMORY_WORDS && directory < FRAMES && Translate(memory[..], directory, va).Some?
      ensures Translate(memory[..], directory, va) == Some(pa)
    {
      var pde := memory[directory * 1024 + va / 0x40_0000];
      var pte := memory[FrameOf(pde) * 1024 + va / 4096 % 1024];
      pa := FrameOf(pte) * 4096 + va % 4096;
    }

    /** *construct_pde_address(d) */
    method ReadDirectory(d: u32) returns (e: u32)
      requires memory.Length == MEMORY_WORDS && SelfMapped(memory[..], directory) && d < ENTRIES
      ensures e == Entry(memory[..], directory, d)
    {
      hide Translate, PdeAddress;
      DirectoryWindow(memory[..], directory, d);
      var pa := Walk(PdeAddress(d));
      e := memory[pa / 4];
    }

    method WriteDirectory(d: u32, e: u32)
      requires memory.Length == MEMORY_WORDS && SelfMapped(memory[..], directory) && d < ENTRIES
      modifies memory
      ensures memory[..] == SetEntry(old(memory[..]), directory, d, e)
    {
      hide Translate, PdeAddress;
      DirectoryWindow(memory[..], directory, d);
      var pa := Walk(PdeAddress(d));
      memory[pa / 4] := e;
    }

    /** *construct_pte_address(d, k) */
    method ReadTable(d: u32, k: u32) returns (e: u32)
      requires memory.Length == MEMORY_WORDS && SelfMapped(memory[..], directory) && d < ENTRIES && k < ENTRIES
      requires Present(Entry(memory[..], directory, d))
      ensures e == Entry(memory[..], FrameOf(Entry(memory[..], directory, d)), k)
    {
      hide Translate, PteAddress;
      TableWindow(memory[..], directory, d, k);
      var pa := Walk(PteAddress(d, k));
      e := memory[pa / 4];
    }

    method WriteTable(d: u32, k: u32, e: u32)
      requires memory.Length == MEMORY_WORDS && SelfMapped(memory[..], directory) && d < ENTRIES && k < ENTRIES
      requires Present(Entry(memory[..], directory, d))
      modifies memory
      ensures memory[..] == SetEntry(old(memory[..]), FrameOf(Entry(old(memory[..]), directory, d)), k, e)
    {
      hide Translate, PteAddress;
      TableWindow(memory[..], directory, d, k);
      var pa := Walk(PteAddress(d, k));
      memory[pa / 4] := e;
    }

    /** The constructor: a directory and a first table in two new frames, or the machine halts. */
    static method Create(memory: array<u32>, registry: F.Registry, ghost index: nat, frames: C.ContFramePool)
      returns (r: Outcome<PageTable>)
      requires memory.Length == MEMORY_WORDS && registry.Valid() && registry.Separate()
      requires index < |registry.pools| && registry.pools[index] == frames
      requires registry !in registry.Footprint() && memory !in registry.Footprint()
      requires frames.baseFrameNo + frames.nframes <= FRAMES
      modifies memory, frames`nFreeFrames, frames.bitmap
      ensures r.Returns? <==> old(CanBuild(frames.State()))
      ensures r.Returns? ==> fresh(r.value) && r.value.Linked() && r.value.vmPools == []
      ensures r.Returns? ==> r.value.memory == memory && r.value.registry == registry && r.value.frames == frames
      ensures r.Returns? ==> r.value.State() == Build(old(memory[..]), old(frames.State()))
      ensures r.Returns? && old(frames.State()).Good() && 1024 <= frames.baseFrameNo ==> r.value.Valid()
    {
      hide FirstTables, Inv;
      ghost var m, pool := memory[..], frames.State();
      var dir := frames.GetFrames(1);
      if dir.Halts? {
        return Halts;
      }
      var table := frames.GetFrames(1);
      if table.Halts? {
        return Halts;
      }
      MapFirst(memory, dir.value, table.value);
      var pageTable := new PageTable(memory, dir.value, registry, index, frames);
      if pool.Good() && 1024 <= frames.baseFrameNo {
        BuildKeeps(m, pool);
      }
      return Returns(pageTable);
    }

    constructor (memory: array<u32>, directory: nat, registry: F.Registry, ghost index: nat, frames: C.ContFramePool)
      ensures this.memory == memory && this.directory == directory && this.frames == frames
      ensures this.registry == registry && this.index == index && vmPools == []
    {
      this.memory := memory;
      this.directory := directory;
      this.frames := frames;
      this.registry := registry;
      this.index := index;
      vmPools := [];
    }

    /** The first table: frames 0 to 1023 onto themselves. */
    static method MapLow(memory: array<u32>, table: nat)
      requires memory.Length == MEMORY_WORDS && table < FRAMES
      modifies memory
      ensures memory[..] == Identity(old(memory[..]), table, ENTRIES)
    {
      var address: u32 := 0;
      var i := 0;
      while i < ENTRIES
        invariant 0 <= i <= ENTRIES && address == i * 4096
        invariant memory[..] == Identity(old(memory[..]), table, i)
      {
        OrAt12(i, 3);
        memory[table * 1024 + i] := Or(address, 3);
        address := Add32(address, PAGE_SIZE);
        i := i + 1;
      }
    }

    /** The directory: the first table, itself, and nothing else. */
    static method MapDirectory(memory: array<u32>, dir: nat, table: nat)
      requires memory.Length == MEMORY_WORDS && dir < FRAMES && table < FRAMES
      modifies memory
      ensures memory[..] == ClearFrom1(
        SetEntry(SetEntry(old(memory[..]), dir, 0, Mapping(table)), dir, ENTRIES - 1, Mapping(dir)), dir, ENTRIES - 1)
    {
      OrAt12(table, 3);
      OrAt12(dir, 3);
      memory[dir * 1024] := PAGE_SIZE * table;
      memory[dir * 1024] := Or(memory[dir * 1024], 3);
      memory[dir * 1024 + (ENTRIES - 1)] := Or(PAGE_SIZE * dir, 3);
      ghost var m := memory[..];
      assert m == SetEntry(SetEntry(old(memory[..]), dir, 0, Mapping(table)), dir, ENTRIES - 1, Mapping(dir));
      var i := 1;
      while i < ENTRIES - 1
        invariant 1 <= i <= ENTRIES - 1
        invariant memory[..] == ClearFrom1(m, dir, i)
      {
        memory[dir * 1024 + i] := 2;
        i := i + 1;
      }
    }

    static method MapFirst(memory: array<u32>, dir: nat, table: nat)
      requires memory.Length == MEMORY_WORDS && dir < FRAMES && table < FRAMES
      modifies memory
      ensures memory[..] == FirstTables(old(memory[..]), dir, table)
    {
      hide Identity, ClearFrom1, SetEntry, Mapping;
      MapLow(memory, table);
      MapDirectory(memory, dir, table);
    }

    method RegisterPool(p: VMPool)
      requires |vmPools| < CAPACITY
      modifies this`vmPools
      ensures vmPools == old(vmPools) + [p]
    {
      vmPools := vmPools + [p];
    }

    ghost predicate PoolsValid()
      reads this, vmPools
    {
      forall i :: 0 <= i < |vmPools| ==> vmPools[i].Valid()
    }

    /** Some registered pool calls the address legitimate. */
    ghost predicate Legitimate(a: u32)
      requires PoolsValid()
      reads this, vmPools, set p: VMPool | p in vmPools :: p.list
    {
      exists i :: 0 <= i < |vmPools| && R.Legitimate(vmPools[i].State(), a)
    }

    method CheckAddress(a: u32) returns (valid: bool)
      requires PoolsValid()
      ensures valid == Legitimate(a)
    {
      valid := false;
      var i := 0;
      while i < |vmPools|
        invariant 0 <= i <= |vmPools|
        invariant valid == exists j :: 0 <= j < i && R.Legitimate(vmPools[j].State(), a)
      {
        var legitimate := vmPools[i].IsLegitimate(a);
        if legitimate {
          valid := true;
        }
        i := i + 1;
      }
    }

    // ---------------------------------------------------------------------------------------------
    // Page faults
    // ---------------------------------------------------------------------------------------------

    /** The table of slot d, in frame f, marked empty entry by entry through the window. */
    method ClearTable(d: u32, f: nat)
      requires memory.Length == MEMORY_WORDS && SelfMapped(memory[..], directory)
      requires UserSlot(d) && f < FRAMES && f != directory && Entry(memory[..], directory, d) == Mapping(f)
      modifies memory
      ensures memory[..] == Clear(old(memory[..]), f, ENTRIES)
    {
      hide SetEntry, Entry, Clear, SelfMapped;
      ClearNone(memory[..], f);
      var i := 0;
      while i < ENTRIES
        invariant 0 <= i <= ENTRIES
        invariant memory[..] == Clear(old(memory[..]), f, i)
      {
        ClearWindow(old(memory[..]), directory, d, f, i);
        WriteTable(d, i, ABSENT);
        ClearMore(old(memory[..]), f, i);
        i := i + 1;
      }
    }

    /** What the pool would grant is in memory and is not the directory. */
    lemma GrantFits()
      requires Valid()
      ensures CanGet(frames.State(), 1) ==>
        Granted(frames.State(), 1) < FRAMES && Granted(frames.State(), 1) != directory
    {
      if CanGet(frames.State(), 1) {
        NewFrameIsFree(State(), Directory);
      }
    }

    /** The first half of the fault handler: a new table for slot d. */
    method AddTable(d: u32) returns (r: Outcome<()>)
      requires Valid() && UserSlot(d) && !HasTable(State(), d)
      modifies memory, frames`nFreeFrames, frames.bitmap
      ensures Linked()
      ensures r.Returns? <==> old(CanTake(State()))
      ensures r.Returns? ==> State() == old(NewTable(State(), d))
    {
      hide Or, Inv;
      ValidWindow();
      GrantFits();
      var got := frames.GetFrames(1);
      if got.Halts? {
        return Halts;
      }
      OrAt12(got.value, 3);
      WriteDirectory(d, Or(PAGE_SIZE * got.value, 3));
      ClearTable(d, got.value);
      return Returns(());
    }

    /** The second half: a frame for the page. */
    method AddPage(d: u32, k: u32) returns (r: Outcome<()>)
      requires Valid() && HasSlot(State(), d) && k < ENTRIES
      modifies memory, frames`nFreeFrames, frames.bitmap
      ensures Linked()
      ensures r.Returns? <==> old(CanTake(State()))
      ensures r.Returns? ==> State() == old(NewPage(State(), d, k))
    {
      hide Or, Inv;
      ValidWindow();
      GrantFits();
      var got := frames.GetFrames(1);
      if got.Halts? {
        return Halts;
      }
      OrAt12(got.value, 3);
      WriteTable(d, k, Or(PAGE_SIZE * got.value, 3));
      return Returns(());
    }

    method EnsureTable(d: u32) returns (r: Outcome<()>)
      requires Valid() && d < ENTRIES
      modifies memory, frames`nFreeFrames, frames.bitmap
      ensures Linked()
      ensures r.Returns? <==> old(HasSlot(State(), d) || CanTake(State()))
      ensures r.Returns? ==> Valid() && HasSlot(State(), d)
      ensures r.Returns? ==> State() == old(if HasSlot(State(), d) then State() else NewTable(State(), d))
    {
      ghost var s := State();
      var pde := ReadDirectory(d);
      Bit0(pde);
      if And(pde, 1) != 0 {
        return Returns(());
      }
      r := AddTable(d);
      if r.Returns? {
        NewTableGains(s, d);
        GainsKeeps(s, State(), Table(d), Granted(s.pool, 1));
        assert GainsAt(s, State(), Table(d), Granted(s.pool, 1), Table(d));
      }
    }

    method EnsurePage(d: u32, k: u32) returns (r: Outcome<()>)
      requires Valid() && HasSlot(State(), d) && k < ENTRIES
      modifies memory, frames`nFreeFrames, frames.bitmap
      ensures Linked()
      ensures r.Returns? <==> old(HasPage(State(), d, k) || CanTake(State()))
      ensures r.Returns? ==> State() == old(if HasPage(State(), d, k) then State() else NewPage(State(), d, k))
    {
      var pte := ReadTable(d, k);
      Bit0(pte);
      if And(pte, 1) != 0 {
        return Returns(());
      }
      r := AddPage(d, k);
    }

    /**
     A page fault on page k of slot d, whichever slot it is; it may halt with the table made and no frame left for the
     page.
     */
    method ServeFault(d: u32, k: u32) returns (r: Outcome<()>)
      requires Valid() && d < ENTRIES && k < ENTRIES
      modifies memory, frames`nFreeFrames, frames.bitmap
      ensures Linked()
      ensures r.Returns? <==> old(CanFault(State(), d, k))
      ensures r.Returns? ==> State() == old(Fault(State(), d, k))
      ensures r.Returns? && d < 1023 ==> Valid()
    {
      hide Inv, NewTable, NewPage;
      ghost var s := State();
      r := EnsureTable(d);
      if r.Halts? {
        return Halts;
      }
      r := EnsurePage(d, k);
      if r.Returns? && d < 1023 {
        FaultStaysOwned(s, d, k);
      }
    }

    /** The fault handler. */
    method HandleFault(address: u32) returns (r: Outcome<()>)
      requires Valid() && PoolsValid()
      modifies memory, frames`nFreeFrames, frames.bitmap
      ensures Linked()
      ensures r.Returns? <==>
        old(Legitimate(address) && CanFault(State(), address / 0x40_0000, address / 4096 % 1024))
      ensures r.Returns? ==> State() == old(Fault(State(), address / 0x40_0000, address / 4096 % 1024))
      ensures r.Returns? && address < 0xFFC0_0000 ==> Valid()
    {
      var legitimate := CheckAddress(address);
      if !legitimate {
        return Halts;
      }
      Shifts(address);
      Low10(Shr(address, 12));
      r := ServeFault(Shr(address, 22), And(Shr(address, 12), Not(0xFFFF_FC00)));
    }

    // ---------------------------------------------------------------------------------------------
    // Releasing a page
    // ---------------------------------------------------------------------------------------------

    /**
     free_page, for any page of the address space. It halts when some pool has the frame and does not hold it as the
     head of a sequence; for a user page it never does.
     */
    method FreePage(page: u32) returns (r: Outcome<()>)
      requires Valid() && page < FRAMES
      modifies memory, registry.Footprint()
      ensures Linked()
      ensures r.Returns? <==> old(HasPage(State(), page / 1024, page % 1024) ==>
        F.CanReleaseIn(registry.States(), PageFrame(State(), page / 1024, page % 1024)))
      ensures r.Returns? ==> old(CanFree(State(), page / 1024, page % 1024))
      ensures r.Returns? ==> State() == old(AddressSpace.FreePage(State(), page / 1024, page % 1024))
      ensures r.Returns? ==> registry.States() == old(
        if HasPage(State(), page / 1024, page % 1024)
        then F.ReleaseIn(registry.States(), PageFrame(State(), page / 1024, page % 1024))
        else registry.States())
      ensures UserSlot(page / 1024) ==> r.Returns?
      ensures r.Returns? && UserSlot(page / 1024) ==> Valid()
    {
      hide And, Shr, Inv, F.ReleaseIn, F.CanReleaseIn, AddressSpace.FreePage, CanFree;
      Shifts(page);
      Low10(page);
      var d, k := Shr(page, 10), And(page, Not(0xFFFF_FC00));
      ValidWindow();
      if UserSlot(d) {
        FreePageKeeps(State(), d, k);
        UserPageReleasable(d, k);
      }
      r := ReleasePage(d, k);
    }

    /** free_page, once the page number has been taken apart. */
    method ReleasePage(d: u32, k: u32) returns (r: Outcome<()>)
      requires Linked() && SelfMapped(memory[..], directory) && d < ENTRIES && k < ENTRIES
      modifies memory, registry.Footprint()
      ensures Linked()
      ensures r.Returns? <==>
        old(HasPage(State(), d, k) ==> F.CanReleaseIn(registry.States(), PageFrame(State(), d, k)))
      ensures r.Returns? ==> old(CanFree(State(), d, k)) && State() == old(AddressSpace.FreePage(State(), d, k))
      ensures r.Returns? ==> registry.States() == old(
        if HasPage(State(), d, k) then F.ReleaseIn(registry.States(), PageFrame(State(), d, k)) else registry.States())
    {
      hide And, F.ReleaseIn, F.CanReleaseIn, CanRelease, Unget;
      var pde := ReadDirectory(d);
      Bit0(pde);
      if And(pde, 1) != 0 {
        var pte := ReadTable(d, k);
        Bit0(pte);
        if And(pte, 1) != 0 {
          r := Unmap(d, k, pte);
          return r;
        }
      }
      return Returns(());
    }

    lemma ValidWindow()
      requires Valid()
      ensures SelfMapped(memory[..], directory)
    {}

    /** The frame of a user page is this pool's, and no other pool is asked for it. */
    lemma UserPageReleasable(d: nat, k: nat)
      requires Valid() && UserSlot(d)
      ensures HasPage(State(), d, k) ==> F.CanReleaseIn(registry.States(), PageFrame(State(), d, k))
    {
      if HasPage(State(), d, k) {
        FreePageKeeps(State(), d, k);
        assert Tidy(State(), Data(d, k));
        registry.SeparateIsDisjoint();
        F.OwnerOnly(registry.States(), index, PageFrame(State(), d, k));
      }
    }

    /** The loop of release over the pages of a region. */
    method FreePagesOf(first: u32, end: u32)
      requires Valid() && UserPages(first, end)
      modifies memory, registry.Footprint()
      ensures Valid() && State() == old(FreePages(State(), first, end))
    {
      hide Inv, FreePageNumber;
      var page := first;
      while page < end
        invariant first <= page <= end
        invariant Valid() && State() == old(FreePages(State(), first, page))
      {
        FreeUserPage(page);
        page := page + 1;
      }
    }

    /** free_page as the loop uses it. */
    method FreeUserPage(page: u32)
      requires Valid() && UserSlot(page / 1024)
      modifies memory, registry.Footprint()
      ensures Valid() && State() == old(FreePageNumber(State(), page))
    {
      hide Inv;
      var r := FreePage(page);
    }

    /** The rest of free_page, once the page is known to be mapped by entry pte. */
    method Unmap(d: u32, k: u32, pte: u32) returns (r: Outcome<()>)
      requires Linked() && SelfMapped(memory[..], directory)
      requires HasPage(State(), d, k) && pte == Entry(memory[..], TableFrame(State(), d), k)
      modifies memory, registry.Footprint()
      ensures Linked()
      ensures r.Returns? <==> old(F.CanReleaseIn(registry.States(), PageFrame(State(), d, k)))
      ensures r.Returns? ==> old(CanFree(State(), d, k)) && State() == old(AddressSpace.FreePage(State(), d, k))
      ensures r.Returns? ==> registry.States() == old(F.ReleaseIn(registry.States(), PageFrame(State(), d, k)))
    {
      hide And, FrameOf, F.ReleaseIn, F.CanReleaseIn, CanRelease, Unget;
      FrameField(pte);
      var address := And(pte, Not(0x3FF));
      r := GiveBack(address / PAGE_SIZE);
      if r.Returns? {
        WriteTable(d, k, 2);
      }
    }

    /** release_frames, seen from this page table's pool: it changes only if the frame is its own. */
    method GiveBack(f: nat) returns (r: Outcome<()>)
      requires Linked()
      modifies registry.Footprint()
      ensures Linked()
      ensures r.Returns? <==> old(F.CanReleaseIn(registry.States(), f))
      ensures r.Returns? ==> registry.States() == old(F.ReleaseIn(registry.States(), f))
      ensures r.Returns? && old(frames.State()).Owns(f) ==>
        old(CanRelease(frames.State(), f)) && frames.State() == old(Unget(frames.State(), f))
      ensures r.Returns? && !old(frames.State()).Owns(f) ==> frames.State() == old(frames.State())
    {
      registry.SeparateIsDisjoint();
      ghost var before := registry.States();
      if frames.State().Owns(f) {
        F.OwnerOnly(before, index, f);
      }
      r := registry.ReleaseFrames(f);
      assert before[index] == old(frames.State()) && registry.States()[index] == frames.State();
    }
  }
}
