# Verification of the teaching kernel's allocators, paging and queues

This project models the parts of the kernel that keep packed state in place, and proves what they are for:

- the contiguous frame pool of P4: a bitmap of two-bit codes, four frames to a byte, searched with a whole-byte skip,
  and the static registry through which a frame is given back to its pool;
- the recursive page table and the virtual-memory pools of P4, over a physical memory of 2^30 words and the two-level
  translation of 32-bit paging (section 4.3 of the Intel SDM, Volume 3A);
- the table-driven CRC-32 of P1, against bit-serial division by the polynomial of section 3.2.9 of IEEE 802.3;
- the doubly linked ready queue and the FIFO scheduler of P5;
- the one-bit frame pool of P2.

Each component is an imperative class whose methods are proved against functions on values, and the main results are
lemmas about those functions over every input, every state or every run. A failed `assert` and `abort()` are the
outcome `Halts`; everything else `Returns`. `unsigned long` is the type `u32`, whose additions and subtractions wrap.

| file | contents |
|---|---|
| `LinearRegister.dfy`, `Crc32.dfy`, `CrcDetection.dfy` | the algebra of feedback registers; the CRC program; what it detects |
| `FrameCodes.dfy`, `FrameSearch.dfy`, `FrameLedger.dfy` | packed codes; the search; what a bitmap means |
| `FramePool.dfy`, `ContFramePool.dfy`, `FrameRegistry.dfy` | operations and runs on values; the class; the list of pools |
| `SpareFrames.dfy` | pools whose size is not a multiple of four |
| `SimpleFramePool.dfy` | the one-bit pool |
| `Words.dfy`, `Paging.dfy` | bit operations on words; translation and the recursive window |
| `AddressSpace.dfy`, `AddressSpaceLaws.dfy` | who owns which frame; faults, releases, stores, conservation and runs |
| `Regions.dfy`, `VirtualMemory.dfy` | the region list; the classes of the page table and the virtual-memory pool |
| `EntryWords.dfy` | the words written into the directory and the tables, and what every run keeps of them |
| `SystemPages.dfy` | what releases and faults do in slot 0 and in the window |
| `AddressRuns.dfy`, `SharedPool.dfy` | runs of any faults and releases; several page tables over one pool |
| `VirtualRuns.dfy` | whole runs of the page table and its pools together |
| `DirectPaging.dfy` | the page table of P3, which addresses tables by their frames |
| `LinkedList.dfy`, `Scheduler.dfy` | the ready queue; the scheduler |

## Where the code departs from its description

The code is modelled as it is written. For each departure a lemma gives an input on which the code misses what its
comments promise, and another says exactly when it does not.

- `get_frames` (P4/cont_frame_pool.C:203-218) does not reset `count` at a used frame of a byte that is not zero, although
  P4/cont_frame_pool.C:59-62 asks for consecutive free frames. `SearchStraddles` and `GetTakesUsedFrame` are an input on
  which a sequence in use of a good pool is handed out again; `SearchIsFirstFit` says exactly which bitmaps are searched
  rightly, in terms of the bitmap and n alone; failure is always right (`SearchGivesUp`), and a single frame always is
  (`SingleFrameIsFirstFit`), so that a run that takes frames one at a time stays good (`SinglesAreSound`).
- `mark_inaccessible` (P4/cont_frame_pool.C:250) binds `>` before `&` and so tests bit 0 of the byte.
  `MarkRefusesFreeFrame` and `MarkTakesUsedFrame` are its two mistakes; `MarkGood` says exactly when a call that
  returns was right, and `MarkAccepts` exactly which ranges are accepted, free or not.
- `mark_inaccessible` adds in 32 bits, both in the assertion on its range (P4/cont_frame_pool.C:241) and in the bound of
  its loop (P4/cont_frame_pool.C:244). `MarkTakesNothing` is a range outside the pool that is accepted with nothing
  marked; `MarkWraps` says exactly which of the ranges that wrap are.
- The constructor sets the free count (P4/cont_frame_pool.C:141) before it rounds the size
  (P4/cont_frame_pool.C:149-152). `FiveFramesMiscounted` is a pool that counts wrongly; `InitialGood` says that the
  count is right exactly for multiples of four. `SixOfFive` is a new pool that grants more frames than it has, and
  `NewPoolGrants` exactly what a new pool grants; `SpareFramesStay` says that requests for single frames never reach
  the frames added by the rounding.
- `release` (P4/vm_pool.C:116) compares where it should assign, so it releases nothing. `ReleaseForgets` is a region that
  it keeps; `ReleaseDoesNothing` says exactly when that is right. The statements after it are modelled as
  `ReleaseRegion`, for any region number.
- The constructor of a virtual-memory pool (P4/vm_pool.C:53) checks `base_address` before setting it, and with a mask of
  ten bits. `Create` takes what the field held as a parameter; `CheckMissesBase` is a base that is not on a page and
  passes, even where the field held it already; `PageAligned` says that all regions are page-aligned exactly when the
  base is.
- Rounding a size to pages (P4/vm_pool.C:55, P4/vm_pool.C:72) wraps to zero for size 0 and for sizes above 2^32 - 4096.
  `NothingIsGranted` is a new pool on which a request for no bytes spoils the list; `AllocateKeeps` and
  `Regions.RunStaysGood` say that the list stays in order exactly when no such size is asked for.
- `is_legitimate` (P4/vm_pool.C:147-148) wraps for a region that ends at 2^32. `TopPageIsRefused` is a pool whose own page
  it refuses; `LegitimateExactly` says that it is right for all addresses exactly when no region ends there.
- The assertion on where info frames are (P4/cont_frame_pool.C:161-163) is there to keep them out of the pool, but also
  refuses info frames that end exactly where the pool starts. `AdjacentInfoRefused` is such a placement;
  `AcceptsInfoExactly` says that there are no others.
- `get_frames` (P4/cont_frame_pool.H:97) and `allocate` (P4/vm_pool.H:76) are described as returning 0 when they fail. The
  code asserts instead (P4/cont_frame_pool.C:193, P4/cont_frame_pool.C:220-222, P4/vm_pool.C:103-106), and the outcome is
  `Halts`.

Two hazards are stated for what they are, without a promise in the code to measure them by. `free_page` takes any page
number: `FreeKeepsExactly` says which releases keep the address space in order, and `TableReleaseLoses` what one of a
table loses. A page fault in the window enters a frame as a table without clearing it: `WindowFaultKeepsExactly` says
when that does no harm, and `ZeroWordBreaks` what is enough to do some.

## Model

| member | source | states |
|---|---|---|
| Crc32.ShiftKernel | P1/bochs-2.6.8/crc.cc:48 | the shift-and-reduce step maps only zero to zero, and a step with an even result has not reduced |
| Crc32.ShiftLinear | P1/bochs-2.6.8/crc.cc:48 | the step is linear over exclusive or |
| Crc32.Laws | P1/bochs-2.6.8/crc.cc:39-48 | the 32-bit register with this polynomial satisfies every law the burst theory needs |
| Crc32.LookupIsEightSteps | P1/bochs-2.6.8/crc.cc:62-63 | for every register value and byte, one table lookup equals eight steps of bit-serial division |
| Crc32.Lookup | P1/bochs-2.6.8/crc.cc:63 | the loop body, with a complete table, feeds the byte's eight bits to the register |
| Crc32.Crc32Table.InitCrc32 | P1/bochs-2.6.8/crc.cc:41-51 | every table entry is eight shift-and-reduce steps of its index at the top of the register |
| Crc32.Crc32Table.Crc32 | P1/bochs-2.6.8/crc.cc:53-65 | for every buffer and length, building the table when needed, the result is bit-serial division preloaded with ones and complemented |
| Crc32.Crc32Table.Divide | P1/bochs-2.6.8/crc.cc:61-64 | the byte loop, from the preloaded register, over any complete table |
| CrcDetection.BurstOfBitsDetected | P1/bochs-2.6.8/crc.cc:53-65 | two messages of one length that differ only within 32 consecutive bits have different checksums |
| CrcDetection.FourByteDamageDetected | P1/bochs-2.6.8/crc.cc:53-65 | two different buffers of one length that differ only within four consecutive bytes have different checksums |
| CrcDetection.ReceiverCheck | P1/bochs-2.6.8/crc.cc:53-65 | a message followed by four bytes has the fixed residue as checksum if and only if the four bytes are the message's checksum |
| CrcDetection.ComplementedStart | P1/bochs-2.6.8/crc.cc:61-65 | for four bytes or more, the checksum is the complement of the remainder, from an empty register, of the message with its first four bytes complemented |
| CrcDetection.EmptyChecksum | P1/bochs-2.6.8/crc.cc:61-65 | the checksum of no bytes is 0 |
| CrcDetection.LeadingZeroDetected | P1/bochs-2.6.8/crc.cc:61-65 | a zero byte in front of a message changes its checksum |
| LinearRegister.BurstDetected | P1/bochs-2.6.8/crc.cc:46-63 | over any lawful register, messages that differ in one burst no wider than the register leave different remainders |
| FrameCodes.SetHeadCode | P4/cont_frame_pool.C:227-229 | writing code 10 sets one frame's code and keeps the other three of the byte |
| FrameCodes.SetContCode | P4/cont_frame_pool.C:233 | the same for code 00 |
| FrameCodes.SetInaccessibleCode | P4/cont_frame_pool.C:251-252 | the same for code 01 |
| FrameCodes.SetFreeCode | P4/cont_frame_pool.C:284 | the same for code 11 |
| FrameCodes.ZeroByte | P4/cont_frame_pool.C:203 | a byte is zero if and only if its four frames continue sequences |
| FrameCodes.CodesOfByte | P4/cont_frame_pool.C:209-284 | the codes 11, 10, 00 and 01, first frame in the high bits, are free, head, continuation and inaccessible |
| FrameCodes.CodeOfFrame | P4/cont_frame_pool.C:209 | frame i of the bitmap is decoded from byte i / 4 at slot i % 4 |
| FrameSearch.SearchIsFirstFit | P4/cont_frame_pool.C:198-218 | the search finds a run of n free frames, and then the lowest, if and only if the bitmap serves n: some run of n free frames has no other free frame between the last skipped byte and its start, and no stretch between skipped bytes has had n free frames up to there |
| FrameSearch.TallyCounts | P4/cont_frame_pool.C:198-218 | the counter is the number of free frames since the last skipped byte, whatever it passed in between |
| FrameSearch.SearchStopsShort | P4/cont_frame_pool.C:203-206 | no range that the search returns reaches into or across a byte whose four frames are all continuations |
| FrameSearch.SearchCounts | P4/cont_frame_pool.C:198-218 | the range returned ends at a free frame, and the frames since the last such byte up to there hold exactly n free ones: no other byte clears the counter |
| FrameSearch.SearchMissesNone | P4/cont_frame_pool.C:198-218 | and the search ends no later than where n free frames have first come together without such a byte between them |
| FrameSearch.SearchGivesUp | P4/cont_frame_pool.C:220-222 | when the search fails there is no run of n free frames anywhere |
| FrameSearch.SingleFrameIsFirstFit | P4/cont_frame_pool.C:198-218 | for n = 1 the search returns the lowest free frame |
| FrameSearch.SearchForNothing | P4/cont_frame_pool.C:212 | asking for zero frames never succeeds |
| FrameSearch.SearchStraddles | P4/cont_frame_pool.C:209-217 | an input on which the range returned contains a frame in use although a free run exists |
| FrameLedger.UniqueHolder | P4/cont_frame_pool.C:31-41 | every 10 or 00 frame belongs to exactly one sequence, the one its codes chain back to, and no other frame belongs to any |
| FrameLedger.LedgerDisjoint | P4/cont_frame_pool.C:31-41 | sequences lie inside the pool, are pairwise disjoint and hold no inaccessible frame |
| FrameLedger.MeaningInjective | P4/cont_frame_pool.C:31-41 | two bitmaps of one size that decode to the same ledger are equal |
| FrameLedger.ClaimMeaning | P4/cont_frame_pool.C:227-234 | writing a head and continuations over free frames adds exactly that sequence |
| FrameLedger.ReleaseMeaning | P4/cont_frame_pool.C:283-297 | releasing a head removes exactly its sequence |
| FrameLedger.ReleaseFrees | P4/cont_frame_pool.C:288-297 | the frames freed are those of that sequence and never a neighbour's |
| FrameLedger.MarkMeaning | P4/cont_frame_pool.C:244-252 | marking free frames adds them to the inaccessible ones and keeps every sequence |
| FrameLedger.ReleaseUndoesClaim | P4/cont_frame_pool.C:227-234 | releasing what was just claimed restores every code |
| FramePool.GetGood | P4/cont_frame_pool.C:190-236 | after get_frames the bitmap decodes and the free count agrees if and only if the range taken was free |
| FramePool.GrantIsHeld | P4/cont_frame_pool.C:224-235 | whatever was in the range, afterwards it belongs to the sequence whose head is returned, which is longer if and only if the frame after the range continued another |
| FramePool.MarkGood | P4/cont_frame_pool.C:238-255 | after mark_inaccessible they do if and only if every frame marked was free |
| FramePool.StepIsSound | P4/cont_frame_pool.C:190-298 | an operation that returns keeps the pool good if and only if, before it, the bitmap served n for get_frames, or the frames to be marked were free for mark_inaccessible; a release always does |
| FramePool.StepChained | P4/cont_frame_pool.C:190-298 | whatever else it does, an operation that returns leaves a bitmap that decodes if and only if it was not a mark that ends inside a sequence |
| FramePool.StepTracks | P4/cont_frame_pool.C:190-298 | a sound operation changes the ledger of sequences and inaccessible frames as it says, and get_frames is first fit |
| FramePool.ServedIsGranted | P4/cont_frame_pool.C:190-222 | a good pool whose bitmap serves n never fails the request |
| FramePool.ReleaseAccepts | P4/cont_frame_pool.C:273-282 | release_frame accepts exactly the pool's heads of live sequences |
| FramePool.MarkAccepts | P4/cont_frame_pool.C:238-252 | a range in the pool, whatever is in it, is accepted if and only if every byte it touches ends in a free or inaccessible frame |
| FramePool.MarkAcceptsFree | P4/cont_frame_pool.C:238-252 | for a free range in the pool only its last byte matters |
| FramePool.MarkStopsAt | P4/cont_frame_pool.C:244-253 | a call that does not return, on a range in the pool, has marked and counted exactly the frames before the first whose byte ends in a frame in use |
| FramePool.MarkWraps | P4/cont_frame_pool.C:241-244 | a range whose 32-bit end wraps is accepted if and only if it starts in or after the pool, its length wraps past the pool's start as well, and its wrapped end is no further than the pool's; nothing is marked then |
| FramePool.MarkTakesNothing | P4/cont_frame_pool.C:241-244 | such a range, for every pool that has a frame |
| FramePool.GetTakesUsedFrame | P4/cont_frame_pool.C:209-217 | a good pool on which a request for two frames takes a head in use and leaves a pool that is not good |
| FramePool.MarkRefusesFreeFrame | P4/cont_frame_pool.C:250 | a free range on which the assertion fails |
| FramePool.MarkTakesUsedFrame | P4/cont_frame_pool.C:250 | a frame in use that the assertion lets through |
| FramePool.ReleaseUndoesGet | P4/cont_frame_pool.C:190-298 | releasing what get_frames returned restores bitmap and free count if and only if the bitmap served the request |
| FramePool.GetFramesIsFresh | P4/cont_frame_pool.C:224-235 | a sound get_frames never returns the head of a live sequence |
| FramePool.RunStaysGood | P4/cont_frame_pool.C:190-298 | in a run of any length every state decodes and counts right if and only if the bitmap served every request carried out and every range marked was free |
| FramePool.RunStaysChained | P4/cont_frame_pool.C:190-298 | every bitmap of a run decodes if and only if no mark carried out cut a sequence short |
| FramePool.SinglesAreSound | P4/page_table.C:98-113 | a run that asks for frames one at a time and marks free ranges is sound, whatever it releases, and stays good |
| FramePool.RunKeepsInaccessible | P4/cont_frame_pool.C:172-181 | in every sound run frames marked 01, such as info frames, stay inaccessible |
| FramePool.RunKeepsSequence | P4/cont_frame_pool.C:257-298 | in every sound run a sequence keeps its frames until its own head is released |
| ContFramePool.NeededIsCeiling | P4/cont_frame_pool.C:300-303 | needed_info_frames is the least number of frames whose bytes hold the bitmap |
| ContFramePool.InitialGood | P4/cont_frame_pool.C:139-181 | a new pool has just its info frames inaccessible, and its count is right if and only if its size is a multiple of four |
| ContFramePool.FiveFramesMiscounted | P4/cont_frame_pool.C:141-152 | a pool of five frames counts five free ones where its bitmap has eight |
| SpareFrames.NewPoolGrants | P4/cont_frame_pool.C:133-222 | a new pool grants a request if and only if it has a frame of its own left and the rounded bitmap has the room, and from the first frame after the info frames |
| SpareFrames.SixOfFive | P4/cont_frame_pool.C:141-152 | of a new pool of five frames, six are granted, and the free count wraps |
| SpareFrames.SpareFramesStay | P4/cont_frame_pool.C:141-236 | in every run that asks for single frames, marks free frames of the pool's own and releases, the pool behaves as one of the size it was asked for: the frames of the rounding stay free, the free count is that of its own frames, and a frame is granted if and only if one of them is free, and is one of them |
| ContFramePool.InfoFramesStay | P4/cont_frame_pool.C:172-298 | in every state of every run from a new pool, sound or not, an info frame is inaccessible, no range that get_frames returns holds it, and release_frame neither accepts nor frees it |
| ContFramePool.InfoFramesNotMarked | P4/cont_frame_pool.C:172-255 | nor does a mark of free frames reach it |
| ContFramePool.AcceptsInfoExactly | P4/cont_frame_pool.C:161-163 | the assertion holds if and only if no info frame is the pool's and they do not end exactly where it starts |
| ContFramePool.AdjacentInfoRefused | P4/cont_frame_pool.C:162 | an info frame right below the pool is refused |
| ContFramePool.ContFramePool.Create | P4/cont_frame_pool.C:133-187 | builds that pool if and only if both assertions hold, and halts otherwise |
| ContFramePool.ContFramePool.FindFrames | P4/cont_frame_pool.C:198-218 | the byte-skipping loop over the packed bitmap computes the search over decoded codes |
| ContFramePool.ContFramePool.GetFrames | P4/cont_frame_pool.C:190-236 | returns exactly when the search finds a range, with that range's first frame, and leaves bitmap and count as the operation on values says |
| ContFramePool.ContFramePool.MarkInaccessible | P4/cont_frame_pool.C:238-255 | with 32-bit sums, returns exactly when the range passes its assertion and every frame the loop reaches the test as written, and then those are marked and counted; otherwise the frames before the first that fails are |
| ContFramePool.ContFramePool.ReleaseFrame | P4/cont_frame_pool.C:273-298 | returns exactly for a head in the pool, frees its sequence and counts it; otherwise nothing changes |
| FrameRegistry.ReleaseFramesIsLocal | P4/cont_frame_pool.C:257-271 | with disjoint pools only the owning pool changes, and in it exactly the sequence of that head becomes free |
| FrameRegistry.FirstOwnerReleases | P4/cont_frame_pool.C:257-271 | even among pools that overlap the first that owns the frame decides, by whether it is one of its live heads, and changes alone |
| FrameRegistry.StrayIsIgnored | P4/cont_frame_pool.C:257-271 | a frame of no pool is ignored |
| FrameRegistry.Registry.ReleaseFrames | P4/cont_frame_pool.C:257-271 | the loop over the registered pools releases in the first pool that owns the frame, and a frame of no pool is ignored |
| FrameRegistry.Registry.Register | P4/cont_frame_pool.C:145-147 | a pool is entered at the end of the list |
| SimpleFramePool.SimpleFramePool.Create | P2/simple_frame_pool.C:6-42 | if and only if both assertions hold, a pool in which every frame is free except the first when it holds the bitmap, and the count agrees |
| SimpleFramePool.SimpleFramePool.GetFrame | P2/simple_frame_pool.C:44-72 | from a positive count alone, the lowest free frame is returned and exactly its bit cleared; both loops end inside the bitmap |
| SimpleFramePool.SimpleFramePool.FindByte | P2/simple_frame_pool.C:54-57 | the byte loop ends at the byte of the first set bit |
| SimpleFramePool.SimpleFramePool.FindBit | P2/simple_frame_pool.C:61-65 | the mask loop ends at that bit |
| SimpleFramePool.SimpleFramePool.MarkFrame | P2/simple_frame_pool.C:84-98 | returns exactly for a free frame of the pool, and clears its bit |
| SimpleFramePool.SimpleFramePool.MarkInaccessible | P2/simple_frame_pool.C:74-82 | returns exactly when all frames of the range are free and in the pool, and clears exactly those; otherwise exactly those before the first that is not; a range that wraps in 32 bits is empty |
| SimpleFramePool.FirstSet | P2/simple_frame_pool.C:48-57 | a positive count of set bits means there is a first one |
| Paging.PdeAddressIsPteAddress | P4/page_table.C:128-147 | the address built for directory entry pdi is the one built for entry pdi of table 1023 |
| Paging.TableWindow | P4/page_table.C:128-137 | in a directory that maps itself, the address built for (pdi, pti) translates to entry pti of the table in slot pdi if and only if that slot is present |
| Paging.DirectoryWindow | P4/page_table.C:139-147 | the address built for pdi translates to directory entry pdi, present or not |
| Words.Low10 | P4/page_table.C:120-122 | masking with ~0xFFFFFC00 keeps the low ten bits |
| Words.Above10 | P4/page_table.C:179 | masking with ~0x3FF clears the low ten bits |
| VirtualMemory.FrameField | P4/page_table.C:179-181 | the frame released is the one in the entry, although the mask leaves two status bits |
| AddressSpace.BuildKeeps | P4/page_table.C:28-53 | the constructor's directory and first table satisfy the ownership invariant whatever memory held before |
| AddressSpace.FaultKeeps | P4/page_table.C:86-116 | a served fault keeps the ownership invariant and maps the page |
| AddressSpace.FaultIsDirect | P4/page_table.C:92-116 | for every slot, the update of memory is the one that addresses tables by their frames, with the frames that the pool grants |
| AddressSpace.FreePageKeeps | P4/page_table.C:168-192 | the release of a user page never fails, keeps the invariant and unmaps the page |
| AddressSpace.TouchKeeps | P4/page_table.C:96-112 | the processor's accessed and dirty bits do not disturb the invariant |
| AddressSpaceLaws.UserInjective | P4/page_table.C:28-192 | no two user addresses share a physical one, and none reaches the first four megabytes |
| AddressSpaceLaws.LowTranslation | P4/page_table.C:35-43 | the first four megabytes translate to themselves in every state of the invariant |
| AddressSpaceLaws.FaultMapsOnePage | P4/page_table.C:86-116 | exactly the faulting page comes to translate, to a frame that was free in the pool; every other translation is unchanged, and only the window comes to show a table that was made |
| AddressSpaceLaws.FaultServed | P4/page_table.C:96-116 | a fault is served if and only if the pool has the frames it still needs, none, one or two |
| AddressSpaceLaws.FreeUnmapsOnePage | P4/page_table.C:168-192 | the release of a user page ends exactly its translation, over all addresses |
| AddressSpaceLaws.FreeUndoesFault | P4/page_table.C:110-192 | a release after a fault restores memory and pool, up to the table the slot keeps |
| AddressSpaceLaws.FreeReturnsTheFrame | P4/page_table.C:176-184 | whatever status bits are set in between, the same frame returns to the pool |
| AddressSpaceLaws.FaultConserves | P4/page_table.C:96-116 | free frames plus tables plus mapped pages are the same before and after a fault |
| AddressSpaceLaws.FreeConserves | P4/page_table.C:177-184 | and before and after the release of a user page |
| AddressSpaceLaws.StoreKeeps | P4/page_table.C:96-116 | a store at any address outside the window keeps the ownership invariant and every translation |
| AddressSpaceLaws.FreePagesUnmap | P4/vm_pool.C:126-131 | over user pages, the release loop ends the translation of exactly the pages from the first to before the last |
| AddressSpaceLaws.FreePagesConserve | P4/vm_pool.C:126-131 | and keeps the sum of free frames, tables and mapped pages |
| AddressSpaceLaws.RunKeeps | P4/page_table.C:70-192 | in every run of faults on and releases of user pages, stores and status changes the invariant holds and no frame is lost or made |
| AddressSpaceLaws.RunOwnership | P4/page_table.C:28-192 | in every such run from the constructor, directory, tables and pages hold pairwise distinct frames allocated from the pool, none in the first four megabytes |
| AddressSpaceLaws.FaultInIdentity | P4/page_table.C:96-116 | a fault below four megabytes is always served and changes nothing |
| EntryWords.FaultWrites | P4/page_table.C:96-116 | after a fault on a user page that was not mapped, the low twelve bits of its entry, and of the directory entry of a table made for it, are 3: supervisor, read and write, present; every other entry of that table is 2 |
| EntryWords.FreeWrites | P4/page_table.C:183-184 | the entry of a page that was released is 2 |
| EntryWords.BuildWrites | P4/page_table.C:35-52 | after the constructor the low twelve bits of every entry of the first table, of its slot and of the window's slot are 3, and every other slot is 2 |
| EntryWords.RunIsProtected | P4/page_table.C:28-192 | in every run from the constructor, of faults on and releases of user pages, stores and accessed and dirty bits, every entry of the directory, of the first table and of a user table is writable and the supervisor's: its low three bits are 3 when it is present and 2 when it is not |
| SystemPages.FreeKeepsExactly | P4/page_table.C:168-192 | the release of any page keeps the invariant if and only if the page is not in slot 0 and not the window's view of the first table or of the directory |
| SystemPages.FreeUnmapsExactly | P4/page_table.C:168-192 | the release of any page ends exactly the translations whose walk reads the entry it clears, over all addresses |
| SystemPages.TableReleaseLoses | P4/page_table.C:177-184 | releasing the window's view of a user table loses exactly the frames of the pages mapped in it |
| SystemPages.WindowFaultKeepsExactly | P4/page_table.C:92-116 | a fault in the window changes nothing where a table shows; elsewhere it keeps the invariant if and only if every entry of the frame it takes is marked absent or maps a pool frame that nothing else has, no two the same |
| SystemPages.ZeroWordBreaks | P4/page_table.C:112-116 | one zero word in that frame breaks it |
| AddressRuns.ActIsSafe | P4/page_table.C:70-192 | a fault anywhere, a release of any page, a store or a status change keeps the invariant if and only if it is not the release of a fixed page and not a window fault that takes a frame with harmful words |
| AddressRuns.RunStaysOwned | P4/page_table.C:70-192 | in a run of any such acts the invariant holds throughout if and only if every act carried out was one of those |
| AddressRuns.AnyRunOwnership | P4/page_table.C:28-192 | in every such run from the constructor, directory, tables and pages hold pairwise distinct frames allocated from the pool, none in the first four megabytes |
| AddressRuns.RunFrames | P4/page_table.C:70-192 | and free frames, tables and mapped pages add up to what they were, but for the pages that a table entered or released through the window brings or leaves |
| SharedPool.MoveIsolates | P4/page_table.C:70-192 | of several page tables over the one process pool, no fault, release or store of one changes another's frames, the words in them, or any of its translations |
| SharedPool.RunIsOrderly | P4/page_table.C:8-192 | in every run that creates page tables over one pool and lets them take turns, each keeps the ownership invariant and no two have a frame in common |
| SharedPool.RunNeverShares | P4/page_table.C:8-192 | so no user address of one page table ever translates to the physical address of one of another's |
| Regions.RoundUpIs | P4/vm_pool.C:72 | the rounded size is the least multiple of a page that is large enough, or zero for sizes 0 and above 2^32 - 4096 |
| Regions.InitialGood | P4/vm_pool.C:52-67 | a new pool's list is in order if and only if its size does not round to zero and it ends by 2^32 |
| Regions.GapIs | P4/vm_pool.C:79-92 | the gap computed in 32 bits is the true distance, also for a pool that ends at 2^32 |
| Regions.AllocateIsFirstFit | P4/vm_pool.C:71-108 | allocation succeeds if and only if the rounded size fits somewhere in the pool outside all regions; the address is then the lowest such if and only if the size does not round to zero |
| Regions.AllocateKeeps | P4/vm_pool.C:71-108 | an allocation keeps the list sorted, disjoint, in bounds and in whole pages if and only if its size does not round to zero |
| Regions.AllocateCovers | P4/vm_pool.C:81-98 | an allocation adds to the addresses covered exactly those from the address returned up to the rounded size |
| Regions.DropCovers | P4/vm_pool.C:165-174 | and a removal takes exactly the region's away |
| Regions.AllocationsApart | P4/vm_pool.C:71-174 | in every run, until the region of an allocation is removed no later allocation meets it |
| Regions.NothingIsGranted | P4/vm_pool.C:72-85 | on a new pool a request for no bytes is granted and leaves the list out of order |
| Regions.DropKeeps | P4/vm_pool.C:133-174 | removing any region but the list's own keeps the list in order |
| Regions.DropUndoesAllocate | P4/vm_pool.C:156-174 | removing the first entry that starts where an allocation did restores the list, for every size |
| Regions.RemoveUndoesInsert | P4/vm_pool.C:156-174 | remove_item undoes insert_item at every index |
| Regions.ReleaseDoesNothing | P4/vm_pool.C:110-124 | release as written changes nothing, which is right if and only if no region starts at the address |
| Regions.ReleaseForgets | P4/vm_pool.C:115-118 | a live region that release does not release |
| Regions.PageAligned | P4/vm_pool.C:53-67 | all regions start on pages if and only if the pool does |
| Regions.LegitimateIs | P4/vm_pool.C:139-154 | an address is legitimate if and only if a region that ends below 2^32 covers it |
| Regions.LegitimateExactly | P4/vm_pool.C:139-154 | the answer is right for every address if and only if no region ends at 2^32 |
| Regions.EmptyAcceptsAll | P4/vm_pool.C:142-144 | while the list is empty every address is legitimate |
| Regions.TopPageIsRefused | P4/vm_pool.C:147-148 | a good pool at the top of memory whose own page is not legitimate |
| Regions.RunStaysGood | P4/vm_pool.C:71-174 | in every run of allocations and removals the list stays in order if and only if no size rounds to zero |
| VirtualMemory.VMPool.Create | P4/vm_pool.C:48-69 | if and only if what the field base_address held passes the assertion, a pool with a list of its own whose one region is the list's page, entered in its page table |
| VirtualMemory.CheckMissesBase | P4/vm_pool.C:53 | a base that is not on a page and that the assertion lets through |
| VirtualMemory.VMPool.Allocate | P4/vm_pool.C:71-108 | over the array of entries, returns and inserts what the search on values says, and halts without change otherwise |
| VirtualMemory.VMPool.InsertItem | P4/vm_pool.C:156-164 | shifting in place inserts one entry and keeps the order of the others |
| VirtualMemory.VMPool.RemoveItem | P4/vm_pool.C:165-174 | shifting in place removes one entry and keeps the order of the others |
| VirtualMemory.VMPool.IsLegitimate | P4/vm_pool.C:139-154 | the loop decides legitimacy as defined over the regions, and is true for an empty list |
| VirtualMemory.VMPool.Release | P4/vm_pool.C:110-124 | as written, changes nothing |
| VirtualMemory.VMPool.ReleaseRegion | P4/vm_pool.C:126-134 | for the region it should have found, releases exactly its pages and removes its entry |
| VirtualMemory.RegionUnmapped | P4/vm_pool.C:126-131 | after that exactly the addresses the region covered no longer translate |
| VirtualMemory.PageTable.Create | P4/page_table.C:28-53 | returns exactly when the pool grants two frames; writes the first table and the directory, and leaves a valid address space when the pool is good and above the first four megabytes |
| VirtualMemory.PageTable.CheckAddress | P4/page_table.C:150-160 | true exactly when some registered pool calls the address legitimate |
| VirtualMemory.PageTable.RegisterPool | P4/page_table.C:162-166 | a pool is entered at the end of the list |
| VirtualMemory.PageTable.ServeFault | P4/page_table.C:92-116 | for every slot, the handler's writes through the recursive window make the update of the direct form, and halt exactly when frames run out |
| VirtualMemory.PageTable.HandleFault | P4/page_table.C:70-118 | for every address, returns exactly when it is legitimate and its fault can be served, with that update, and leaves a valid address space for every address below the window |
| VirtualMemory.PageTable.ReadDirectory | P4/page_table.C:96 | reading through the window at the built address reads the directory entry |
| VirtualMemory.PageTable.WriteTable | P4/page_table.C:105 | writing through the window at the built address writes exactly that table entry |
| VirtualMemory.PageTable.FreePage | P4/page_table.C:168-192 | for every page, releases its frame to the registered pool that has it and marks its entry, or changes nothing when it is not mapped; halts exactly when that pool does not hold the frame as a head, which never happens for a user page |
| VirtualMemory.PageTable.GiveBack | P4/page_table.C:181 | among disjoint pools a frame goes back to the pool that owns it, and this page table's pool changes only for its own |
| DirectPaging.DirectPageTable.HandleFault | P3/page_table.C:67-102 | the handler of P3, with tables from the kernel's pool and pages from the process pool, makes the same update of memory, returns exactly when each pool has the frame it is asked for, and then can be called again |
| DirectPaging.DirectPageTable.EnsureTable | P3/page_table.C:79-91 | a missing table is made in a frame of the kernel's pool, with every entry absent |
| DirectPaging.DirectPageTable.EnsurePage | P3/page_table.C:94-100 | a missing page gets a frame of the process pool |
| VirtualRuns.RunIsSafe | P4/vm_pool.C:48-154 | in every run from a new page table, of new pools with the fault that writing their lists makes, faults, allocations, releases and stores, every mapped user page lies in a live region, frames are owned as they should be, and every list is in order; the release step is that of lines 126-134, which release as written never reaches |
| VirtualRuns.NewPoolIsServed | P4/vm_pool.C:62-67 | the fault at the base of a pool just registered passes the same test as any other, because its list is still empty, and is served if and only if the frames are there, for every user address |
| VirtualRuns.ReleasedIsGone | P4/vm_pool.C:126-154 | with pools that do not overlap, no address of a region released by those lines is mapped or legitimate |
| LinkedList.WithoutCounts | P5/linked_list.H:175-186 | what remove(T) leaves holds every other value as often as before |
| LinkedList.WithoutEmbeds | P5/linked_list.H:175-186 | and is a subsequence: nothing changes places |
| LinkedList.LinkedList.PushBack | P5/linked_list.H:59-71 | appends one element and keeps all links, ends and the length consistent |
| LinkedList.LinkedList.PushFront | P5/linked_list.H:76-88 | prepends one element, likewise |
| LinkedList.LinkedList.PopFront | P5/linked_list.H:91-105 | drops the first element, and leaves an empty list empty |
| LinkedList.LinkedList.Front | P5/linked_list.H:125-129 | the first element, if there is one |
| LinkedList.LinkedList.Back | P5/linked_list.H:132-136 | the last element, if there is one |
| LinkedList.LinkedList.RemoveNode | P5/linked_list.H:156-172 | unlinks exactly the given node, wherever it stands |
| LinkedList.LinkedList.RemoveValue | P5/linked_list.H:175-186 | ends although it unlinks while it walks, and leaves exactly the other elements in order |
| Scheduler.Scheduler.Yield | P5/scheduler.C:55-61 | the first ready thread becomes current, or nothing changes when there is none |
| Scheduler.Scheduler.Resume | P5/scheduler.C:63-65 | the thread is queued last |
| Scheduler.Scheduler.Add | P5/scheduler.C:67-69 | the thread is queued last |
| Scheduler.Scheduler.Terminate | P5/scheduler.C:71-73 | every entry of the thread leaves the queue |
| Scheduler.PassOnRotates | P5/scheduler.C:55-65 | resuming oneself and yielding rotates the ring of threads, and loses or doubles none |
| Scheduler.DispatchOrder | P5/scheduler.C:55-65 | from any state the dispatch order is the cyclic order: the thread at place k runs after exactly k + 1 yields, and a full round restores the state |
| Scheduler.FirstInFirstOut | P5/scheduler.C:55-69 | in every run without terminations the m-th yield dispatches the m-th thread of the queue, whatever is added in between |
| Scheduler.BoundedWaiting | P5/scheduler.C:55-73 | in every run a waiting thread at place k that is not terminated is dispatched by a yield, the (k + 1)-th at the latest, also when it is current as well |
| Scheduler.NeverDispatched | P5/scheduler.C:71-73 | after terminate(t) no run dispatches t unless it is added or resumed again |
| Scheduler.Shutdown | P5/scheduler.C:55-73 | a thread that terminates itself and yields keeps the CPU if and only if no other thread is ready |
| Scheduler.RunConserves | P5/scheduler.C:55-73 | in every run the threads at the end and those displaced or terminated are, counted, the threads at the start and those added or resumed |
| Scheduler.RunDistinct | P5/scheduler.C:55-73 | in every run no thread is ever queued twice if and only if each is queued only while it is not |
| Scheduler.PassOnDistinct | P5/scheduler.C:55-65 | handing on keeps every thread queued at most once |
| Scheduler.AddDistinct | P5/scheduler.C:67-69 | adding keeps that if and only if the thread is not yet there |
| Scheduler.TerminateDistinct | P5/scheduler.C:71-73 | terminating keeps it always |

## Left out

- Hardware: port I/O, inline assembly, descriptor tables, interrupt and exception dispatch, console, keyboard, timer and disks. The fault address, read_cr2 in the code, is a parameter; reloading the TLB has no effect in the model.
- Context switching: dispatching a thread makes it current; stacks and the low-level switch are not part of this model.
- The frame pools' bitmaps and the region lists are arrays of their own; that they lie in frames of the same memory is not modelled, and of the faults that touching a region list can make only the constructor's is, in VirtualRuns.
- Capacities are requirements: eight frame pools, ten virtual-memory pools, and one page of region entries. remove_item may read the entry after the page, which the model gives the list.
- ContFramePool.ContFramePool.Create: a pool that keeps its own bitmap has at least one frame, because the source would write outside it, and ends within the 32-bit address space; entering the pool in the registry is a separate method.
- SimpleFramePool.SimpleFramePool.Create: a pool that keeps its own bitmap has at least one frame, for the same reason.
- VirtualMemory.VMPool.ReleaseRegion: pools that reach into slots 0 or 1023 are excluded; what one release of such a page does is stated by PageTable.FreePage and SystemPages.FreeKeepsExactly.
- AddressSpaceLaws.RunKeeps: runs fault on and release user pages; AddressRuns.RunStaysOwned and AddressRuns.RunFrames state it for faults and releases of any page.
- EntryWords.RunIsProtected: faults and releases are of user pages, because a fault in the window enters a frame as a table without writing it.
- SharedPool.RunIsOrderly: the page tables fault on and release user pages.
- AddressSpaceLaws.FreePagesUnmap: stretches reach no further than the user slots; SystemPages.FreeUnmapsExactly states the release of one page for every page.
- ContFramePool.ContFramePool.MarkInaccessible: a range that passes the assertion only because its end wraps, and whose loop would run past the bitmap, is excluded, because the source would then write outside it.
- VirtualMemory.VMPool.InsertItem: index 0 is excluded; the source's unsigned loop counter would not end, and no caller passes it.
- VirtualRuns.RunIsSafe: pools start on a page and keep clear of slots 0 and 1023, and no requested size rounds to zero; the other lemmas say what happens otherwise.
- DirectPaging.DirectPageTable.HandleFault: the directory's frame must not be free in the kernel's pool, from which it was taken.
- A fault that finds a frame for the table and none for the page halts; what it has written by then is not stated.
- Heap storage: nodes are allocated by the language and `delete` is not modelled; NULL results are the value None.
- Widths of counters that cannot overflow in use, such as the list's length, and of frame numbers outside mark_inaccessible are unbounded.
- The linked list's pop_back and get do not type-check if instantiated, and size and print add nothing.
- P2/cont_frame_pool.C and P3/cont_frame_pool.C are versions of the P4 pool; SimpleFramePool's release_frame has its body compiled out; the pools of P5 and P6 only hand out.
- Page sizes other than 4 KB, protection bits and several processors.
- A frame pool with 2^32 frames or more, and the search counter's wrap at 2^32.
