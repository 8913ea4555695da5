/**
 The page table of P3, which takes its tables from the kernel's pool and addresses them by their frames. Its fault
 handler makes the same update of memory as the one that works through the recursive window.
 */
module DirectPaging {
  import opened Kernel
  import opened Words
  import opened FrameCodes
  import opened FrameSearch
  import opened FramePool
  import opened Paging
  import opened AddressSpace
  import C = ContFramePool

  /** Frame f is not one the pool could hand out. */
  ghost predicate NotGranted(p: Pool, f: nat) {
    p.Owns(f) ==> p.codes[f - p.base] != Free
  }

  lemma GrantedApart(p: Pool, f: nat)
    requires CanGet(p, 1) && NotGranted(p, f)
    ensures p.Owns(Granted(p, 1)) && Granted(p, 1) != f
  {
    SingleFrameIsFirstFit(p.codes);
  }

  lemma GrantKeepsApart(p: Pool, f: nat)
    requires CanGet(p, 1) && NotGranted(p, f)
    ensures NotGranted(Get(p, 1), f)
  {}

  class DirectPageTable {
    const memory: array<u32>
    const directory: nat
    const kernel: C.ContFramePool
    const process: C.ContFramePool

    ghost predicate Valid()
      reads kernel, kernel.bitmap, memory
    {
      && memory.Length == MEMORY_WORDS && directory < FRAMES
      && kernel.Valid() && kernel.baseFrameNo + kernel.nframes <= FRAMES
      && process.Valid() && process.baseFrameNo + process.nframes <= FRAMES
      && kernel != process && kernel.bitmap != process.bitmap
      && NotGranted(kernel.State(), directory)
    }

    constructor (memory: array<u32>, directory: nat, kernel: C.ContFramePool, process: C.ContFramePool)
      ensures this.memory == memory && this.directory == directory
      ensures this.kernel == kernel && this.process == process
    {
      this.memory := memory;
      this.directory := directory;
      this.kernel := kernel;
      this.process := process;
    }

    /** Slot d has no table. */
    ghost predicate LacksTable(d: nat)
      requires memory.Length == MEMORY_WORDS && directory < FRAMES && d < ENTRIES
      reads memory
    {
      !Present(Entry(memory[..], directory, d))
    }

    /** Page k of slot d has no frame; nor has any page of a table still to be made. */
    ghost predicate LacksPage(d: nat, k: nat)
      requires memory.Length == MEMORY_WORDS && directory < FRAMES && d < ENTRIES && k < ENTRIES
      reads memory
    {
      LacksTable(d) || !Present(Entry(memory[..], FrameOf(Entry(memory[..], directory, d)), k))
    }

    method ClearTable(f: nat)
      requires memory.Length == MEMORY_WORDS && f < FRAMES
      modifies memory
      ensures memory[..] == Clear(old(memory[..]), f, ENTRIES)
    {
      var i := 0;
      while i < ENTRIES
        invariant 0 <= i <= ENTRIES
        invariant memory[..] == Clear(old(memory[..]), f, i)
      {
        memory[f * 1024 + i] := 2;
        i := i + 1;
      }
    }

    method EnsureTable(d: u32) returns (r: Outcome<()>)
      requires Valid() && d < ENTRIES
      modifies memory, kernel`nFreeFrames, kernel.bitmap
      ensures r.Returns? ==> Valid()
      ensures r.Returns? <==> old(LacksTable(d) ==> CanGet(kernel.State(), 1))
      ensures r.Returns? && old(!LacksTable(d)) ==>
        memory[..] == old(memory[..]) && kernel.State() == old(kernel.State())
      ensures r.Returns? && old(LacksTable(d)) ==>
        && kernel.State() == old(Get(kernel.State(), 1))
        && old(Granted(kernel.State(), 1)) < FRAMES && old(Granted(kernel.State(), 1)) != directory
        && memory[..] == WithTable(old(memory[..]), directory, d, old(Granted(kernel.State(), 1)))
    {
      hide Or, And, NotGranted;
      Bit0(memory[directory * 1024 + d]);
      if And(memory[directory * 1024 + d], 1) != 0 {
        return Returns(());
      }
      ghost var m := memory[..];
      ghost var p := kernel.State();
      var got := kernel.GetFrames(1);
      if got.Halts? {
        return Halts;
      }
      GrantedApart(p, directory);
      GrantKeepsApart(p, directory);
      OrAt12(got.value, 3);
      memory[directory * 1024 + d] := PAGE_SIZE * got.value;
      memory[directory * 1024 + d] := Or(memory[directory * 1024 + d], 3);
      assert memory[..] == SetEntry(m, directory, d, Mapping(got.value));
      ClearTable(got.value);
      return Returns(());
    }

    method EnsurePage(d: u32, k: u32) returns (r: Outcome<()>)
      requires memory.Length == MEMORY_WORDS && directory < FRAMES
      requires process.Valid() && process.baseFrameNo + process.nframes <= FRAMES
      requires d < ENTRIES && k < ENTRIES && !LacksTable(d)
      modifies memory, process`nFreeFrames, process.bitmap
      ensures r.Returns? <==> old(LacksPage(d, k) ==> CanGet(process.State(), 1))
      ensures r.Returns? && old(!LacksPage(d, k)) ==>
        memory[..] == old(memory[..]) && process.State() == old(process.State())
      ensures r.Returns? && old(LacksPage(d, k)) ==>
        && process.State() == old(Get(process.State(), 1)) && old(Granted(process.State(), 1)) < FRAMES
        && memory[..] == WithPage(
          old(memory[..]), old(FrameOf(Entry(memory[..], directory, d))), k, old(Granted(process.State(), 1)))
    {
      hide Or, And;
      Above12(memory[directory * 1024 + d]);
      var word := And(memory[directory * 1024 + d], Not(0xFFF)) / 4 + k;
      assert word == FrameOf(Entry(memory[..], directory, d)) * 1024 + k;
      Bit0(memory[word]);
      if And(memory[word], 1) != 0 {
        return Returns(());
      }
      var got := process.GetFrames(1);
      if got.Halts? {
        return Halts;
      }
      OrAt12(got.value, 3);
      memory[word] := Or(PAGE_SIZE * got.value, 3);
      return Returns(());
    }

    /** The fault handler; it returns when each pool has the frame it is asked for. */
    method HandleFault(address: u32) returns (r: Outcome<()>)
      requires Valid()
      modifies memory, kernel`nFreeFrames, kernel.bitmap, process`nFreeFrames, process.bitmap
      ensures r.Returns? ==> Valid()
      ensures var d, k := address / 0x40_0000, address / 4096 % 1024;
        && (r.Returns? <==> old(
          && (LacksTable(d) ==> CanGet(kernel.State(), 1))
          && (LacksPage(d, k) ==> CanGet(process.State(), 1))))
        && (r.Returns? ==>
          var tf := old(if LacksTable(d) then Granted(kernel.State(), 1) else 0);
          var pf := old(if LacksPage(d, k) then Granted(process.State(), 1) else 0);
          && tf < FRAMES && pf < FRAMES && memory[..] == Mapped(old(memory[..]), directory, d, k, tf, pf)
          && kernel.State() == old(if LacksTable(d) then Get(kernel.State(), 1) else kernel.State())
          && process.State() == old(if LacksPage(d, k) then Get(process.State(), 1) else process.State()))
    {
      hide And, Shr, CanGet, Get, Granted, NotGranted;
      Shifts(address);
      Low10(Shr(address, 12));
      var d, k := Shr(address, 22), And(Shr(address, 12), Not(0xFFFF_FC00));
      r := EnsureTable(d);
      if r.Halts? {
        return Halts;
      }
      r := EnsurePage(d, k);
    }
  }
}
