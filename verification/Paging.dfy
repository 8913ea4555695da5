/**
 Two-level paging over a physical memory: translation, and the window through which a directory that maps itself
 shows its own entries.
 */
module Paging {
  import opened Kernel
  import opened Words

  const FRAMES: nat := 0x10_0000
  const ENTRIES: nat := 1024
  const MEMORY_WORDS: nat := 0x4000_0000

  /** The physical memory, word by word. */
  type Memory = m: seq<u32> | |m| == MEMORY_WORDS ghost witness seq(MEMORY_WORDS, _ => 0)

  /** Word k of frame f. */
  function Entry(m: Memory, f: nat, k: nat): u32
    requires f < FRAMES && k < ENTRIES
  {
    m[f * 1024 + k]
  }

  function SetEntry(m: Memory, f: nat, k: nat, v: u32): (r: Memory)
    requires f < FRAMES && k < ENTRIES
    ensures forall g: nat, j: nat {:trigger Entry(r, g, j)} :: g < FRAMES && j < ENTRIES ==>
      Entry(r, g, j) == if g == f && j == k then v else Entry(m, g, j)
  {
    m[f * 1024 + k := v]
  }

  /** An entry's present bit and the frame it names; the bits between are status. */
  predicate Present(e: u32) { e % 2 == 1 }

  function FrameOf(e: u32): (f: nat)
    ensures f < FRAMES
  {
    e / 4096
  }

  /** A present, writable, supervisor entry for frame f. */
  function Mapping(f: nat): (e: u32)
    requires f < FRAMES
    ensures Present(e) && FrameOf(e) == f
  {
    f * 4096 + 3
  }

  const ABSENT: u32 := 2

  // ---------------------------------------------------------------------------------------------
  // Translation, and the window
  // ---------------------------------------------------------------------------------------------

  /** The physical address of a virtual one, by directory and table, or None where the walk meets an absent entry. */
  function Translate(m: Memory, dir: nat, va: u32): Option<nat>
    requires dir < FRAMES
  {
    var pde := Entry(m, dir, va / 0x40_0000);
    if !Present(pde) then None
    else
      var pte := Entry(m, FrameOf(pde), va / 4096 % 1024);
      if !Present(pte) then None else Some(FrameOf(pte) * 4096 + va % 4096)
  }

  function PteAddress(pdi: u32, pti: u32): nat {
    Or(Or(0xFFC0_0000, Shl(pdi, 12)), Shl(pti, 2))
  }

  function PdeAddress(pdi: u32): nat {
    Or(0xFFFF_F000, Shl(pdi, 2))
  }

  lemma PteAddressIs(pdi: u32, pti: u32)
    requires pdi < ENTRIES && pti < ENTRIES
    ensures PteAddress(pdi, pti) == 0xFFC0_0000 + pdi * 4096 + pti * 4
  {
    Shifts(pdi);
    Shifts(pti);
    OrFields(0x3FF, pdi, pti);
  }

  lemma PdeAddressIs(pdi: u32)
    requires pdi < ENTRIES
    ensures PdeAddress(pdi) == 0xFFFF_F000 + pdi * 4
  {
    Shifts(pdi);
    OrAt12(0xFFFFF, pdi * 4);
  }

  /** The directory is seen through the window as the table of its own slot. */
  lemma PdeAddressIsPteAddress(pdi: u32)
    requires pdi < ENTRIES
    ensures PdeAddress(pdi) == PteAddress(1023, pdi)
  {
    PdeAddressIs(pdi);
    PteAddressIs(1023, pdi);
  }

  lemma WindowFields(pdi: nat, pti: nat, va: nat)
    requires pdi < ENTRIES && pti < ENTRIES && va == 0xFFC0_0000 + pdi * 4096 + pti * 4
    ensures va < WORD && va / 0x40_0000 == 1023 && va / 4096 % 1024 == pdi && va % 4096 == pti * 4
  {
    assert va / 4096 == 1023 * 1024 + pdi;
  }

  ghost predicate SelfMapped(m: Memory, dir: nat) {
    dir < FRAMES && Present(Entry(m, dir, 1023)) && FrameOf(Entry(m, dir, 1023)) == dir
  }

  lemma Window(m: Memory, dir: nat, pdi: nat, pti: nat, va: nat)
    requires SelfMapped(m, dir) && pdi < ENTRIES && pti < ENTRIES
    requires va == 0xFFC0_0000 + pdi * 4096 + pti * 4
    ensures va < WORD
    ensures Translate(m, dir, va) ==
      if Present(Entry(m, dir, pdi)) then Some(4 * (FrameOf(Entry(m, dir, pdi)) * 1024 + pti)) else None
  {
    WindowFields(pdi, pti, va);
  }

  /** The window address of entry pti of table pdi reaches exactly that entry, when there is such a table. */
  lemma TableWindow(m: Memory, dir: nat, pdi: u32, pti: u32)
    requires SelfMapped(m, dir) && pdi < ENTRIES && pti < ENTRIES
    ensures PteAddress(pdi, pti) < WORD
    ensures Translate(m, dir, PteAddress(pdi, pti)) ==
      if Present(Entry(m, dir, pdi)) then Some(4 * (FrameOf(Entry(m, dir, pdi)) * 1024 + pti)) else None
  {
    PteAddressIs(pdi, pti);
    Window(m, dir, pdi, pti, PteAddress(pdi, pti));
  }

  /** The window address of directory entry pdi reaches that entry, present or not. */
  lemma DirectoryWindow(m: Memory, dir: nat, pdi: u32)
    requires SelfMapped(m, dir) && pdi < ENTRIES
    ensures PdeAddress(pdi) < WORD
    ensures Translate(m, dir, PdeAddress(pdi)) == Some(4 * (dir * 1024 + pdi))
  {
    PdeAddressIs(pdi);
    var slot: nat := 1023;
    Window(m, dir, slot, pdi, PdeAddress(pdi));
  }
}
