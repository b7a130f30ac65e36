# Verification of the AArch64 startup library

These Dafny files model the part of the startup library that runs before there is a kernel: it finds
out what memory there is, hands it out, maps it, loads the first executables into it and builds the
system page. They prove what each layer promises the next. `dafny verify dfyconfig.toml` checks all
of it.

The layers, from the bottom:

- **Boot RAM.** `RamList` is the sorted, coalesced, terminated array of free ranges and the in-place
  scans that add and take memory; `Ranges` is the set algebra they are measured by. `RamSearch` has
  the avoid list and the two searches, and `RamFit` says which block each finds. `RamRuns` says
  exactly which runs of the allocator are safe: free memory, avoided memory and everything handed out
  stay apart. `BootRam` is `ram.c` on top of these, with its two views of free memory, the list and
  the "sysram" address space entries.
- **Address space.** `AddressSpace` has the entries, the owner chain and `as_add_containing`;
  `Pieces`, `Nesting` and `Placement` its interval splitting, `Views` what names cover, and `Sysram`
  the rescan of `alloc_ram` that keeps the second view in step.
- **EFI map.** `EfiSort` is the heap sort of the firmware's memory map and `EfiRam` the three passes
  that feed the allocator.
- **Page tables.** `Descriptors` has the VMSAv8-64 descriptor and address fields (section D8.3 of the
  Arm Architecture Reference Manual, DDI 0487) for 4K and 64K pages, `TableTree` the tables as a tree
  and the walk through them, `TableUpdates` the changes made to them, `Mapping` one call of
  `aarch64_map` seen page by page, and `Translation` map and translate together. `PageTables` is
  `aarch64_map.c`: the nested loops, table pages from the boot allocator, and physical memory.
- **ELF loader.** `ElfLoader` loads program headers (chapter 5 of the System V gABI) on top of the
  page tables, the allocator and memory, and reads the result back through the tables.
- **System page.** `Arena` and `ArenaRuns` model the shared buffer of `syspage_memory.c` on values
  and prove it a refinement of a plain list of sections; `Syspage` is the code over its buffer.
  `Callouts` is the two-pass layout of the callout routines. `Strings`, `TypedStrings`, `HwTags`,
  `HwInfo` and `HwRuns` are the tables that live inside sections.
- **In-place algorithms and arithmetic.** `BootArgs` is the editor of packed argument strings (on
  `Texts`), `Timer` the long division and tick conversion, `Numbers` number printing and parsing.

Code that changes its state step by step is modelled by classes and methods; each is proved against
functions and predicates on values, and the lemmas about those carry the properties over runs. A
call of `crash()` is the outcome `Crash`. Where it matters, contracts say exactly when it happens.
Addresses are natural numbers with explicit bounds of 2^48 and 2^64, and wrap-around is written out
where the code can wrap.

## Findings

Some of what the code is meant to do does not hold for every input. The code is modelled as it is;
in each case a lemma shows what goes wrong, and the condition under which it does not.

- An alignment of zero makes `find_ram` return address zero (`RamSearch.ZeroAlignmentFit`,
  `RamSearch.ZeroAlignmentInput`), although `fix_size` and the rest of the search treat the request
  as any other.
- `find_top_ram_aligned_limit` compares the limit with the size before rounding it, so the rounded
  size can exceed the limit and the subtraction wraps (`RamSearch.TopWraps`,
  `RamSearch.TopWrapsInput`); and a block moved down to end at the limit loses its alignment. The
  result is aligned whatever memory is free exactly if the limit less the rounded size is, or the
  limit is so high that no block can reach it (`RamSearch.TopAlwaysAligned`,
  `RamSearch.LimitBreaksAlignment`).
- `ws_alloc` goes back to the early workspace whenever the free list is empty, also when memory has
  been added since, so an early block can lie in memory that was handed out
  (`RamRuns.EarlyWorkspaceOverlap`). A run is safe exactly if every early block met the memory added
  until then at most where a caller had taken it by its address (`RamRuns.RunSafeExactly`). Before
  the first `add_ram` that is always so (`RamRuns.EarlyBeforeSupply`).
- For containers that overlap without nesting, `as_add_containing` can emit overlapping entries
  (`Nesting.OverlapWithoutNesting`); exactly when is in `Placement.DisjointExactly` and
  `Views.EmittedApartExactly`.
- For an address named by the caller `aarch64_map` adds the page offset twice to what it returns
  (`Translation.NamedAddress`, `Translation.NamedAddressInput`).
- `boot_vaddr_base` takes a segment at page zero for "not set" (`ElfLoader.BaseIsLeast`,
  `ElfLoader.BaseNotLeastInput`).
- `set_syspage_section` puts a section at base + fixed_size without a look at what lies there. That
  is right exactly if the place is between two sections (`Arena.SetTiled`, `ArenaRuns.PlaceExactly`,
  and after any run `ArenaRuns.RunExactly`); after a set section has been grown it lies inside that
  section (`Arena.GrownFixedSection`).
- With two NULL pointers `do_adjust` drops the count of a list and leaves its last string to the
  list behind it (`BootArgs.Entry.ArgAdjust`, `BootArgs.TwoNullsInput`).
- `align_tag` adds one pad of one word however wide the gap, which is enough exactly where the gap is
  one word (`HwTags.PadReaches`). With a wider one `hwi_alloc_item` pads twice and leaves the item
  without a size (`HwTags.WideAlignment`); from then on the section shows no list, whatever is
  allocated later, and so it does exactly then (`HwRuns.ItemExactly`, `HwRuns.RunExactly`). A tag
  allocated next is missed by the walk over sizes (`HwRuns.WalkMissesTag`, `HwRuns.MissedTagInput`).
- `add_string` returns for the empty name an offset that the next new name gets as well
  (`Strings.EmptyNameShared`, `Strings.EmptyThenNew`). Offsets tell names apart over a run exactly if
  no empty name is followed by a new one (`Strings.InternedExactly`).
- `timer_tick2ns` can divide by zero, whether the first product overflows or not, and also where the
  quotient is far from zero; `Timer.ScaleExactly` says for which periods, powers and ticks.
  `invert_timer_freq` gives such a period for a timer of 2 GHz, which comes out even as 5 times
  10^-10 (`Timer.TwoGigahertz`).
- A hexadecimal zero that is followed by an x is read as a prefix (`Numbers.RoundTrip`, `Numbers.HexZeroInput`).

## Model

| member | source | states |
|---|---|---|
| `RamList.RamList.AddMem` | bsp/qnx800.bsp.hw.qc_qrb2210-arduino-imola/bsp/BSP_qc-qrb2210-arduino-imola_be-800/src/hardware/startup/lib/ram.c:82-113 | the covered set becomes old + [start, start + size), and the list is in normal form again (nonempty, sorted, strictly separated, terminated); it crashes exactly on a full list, which it then leaves alone |
| `RamList.RamList.TakeMem` | bsp/qnx800.bsp.hw.qc_qrb2210-arduino-imola/bsp/BSP_qc-qrb2210-arduino-imola_be-800/src/hardware/startup/lib/ram.c:293-316 | the list half of alloc_ram makes the covered set old - [addr, addr + size), in normal form, although entries are deleted and inserted under the scan; it crashes exactly if a full list has an entry with memory left on both sides |
| `RamList.RamList.Coalesce` | bsp/qnx800.bsp.hw.qc_qrb2210-arduino-imola/bsp/BSP_qc-qrb2210-arduino-imola_be-800/src/hardware/startup/lib/ram.c:100-110 | the coalescing scan keeps the covered set and restores the normal form |
| `RamList.RamList.InsertionPoint` | bsp/qnx800.bsp.hw.qc_qrb2210-arduino-imola/bsp/BSP_qc-qrb2210-arduino-imola_be-800/src/hardware/startup/lib/ram.c:90-92 | the first entry that begins above start |
| `RamList.RamList.InsertAt` | bsp/qnx800.bsp.hw.qc_qrb2210-arduino-imola/bsp/BSP_qc-qrb2210-arduino-imola_be-800/src/hardware/startup/lib/ram.c:96-99 | memmove and fill: the new entry at k, everything else kept in order |
| `RamList.RamList.DeleteAt` | bsp/qnx800.bsp.hw.qc_qrb2210-arduino-imola/bsp/BSP_qc-qrb2210-arduino-imola_be-800/src/hardware/startup/lib/ram.c:303-304 | memmove: entry k is gone, everything else kept in order |
| `RamList.RamList.MergeAt` | bsp/qnx800.bsp.hw.qc_qrb2210-arduino-imola/bsp/BSP_qc-qrb2210-arduino-imola_be-800/src/hardware/startup/lib/ram.c:101-109 | two entries that touch become one |
| `RamList.RamList.TakeStep` | bsp/qnx800.bsp.hw.qc_qrb2210-arduino-imola/bsp/BSP_qc-qrb2210-arduino-imola_be-800/src/hardware/startup/lib/ram.c:295-315 | one entry of the scan: exactly its common part with the block leaves the covered set, and the entry it goes on to is the right one after a deletion |
| `RamList.RamList.CutInside` | bsp/qnx800.bsp.hw.qc_qrb2210-arduino-imola/bsp/BSP_qc-qrb2210-arduino-imola_be-800/src/hardware/startup/lib/ram.c:309-314 | the branch that splits an entry in two with add_mem |
| `RamList.InsideFromStart` | bsp/qnx800.bsp.hw.qc_qrb2210-arduino-imola/bsp/BSP_qc-qrb2210-arduino-imola_be-800/src/hardware/startup/lib/ram.c:294-316 | an entry around the hole found at any time of the scan lies in an entry around the hole from the start |
| `RamList.SplitOnlyOnce` | bsp/qnx800.bsp.hw.qc_qrb2210-arduino-imola/bsp/BSP_qc-qrb2210-arduino-imola_be-800/src/hardware/startup/lib/ram.c:294-316 | the scan splits at most one entry |
| `Ranges.NormalFormUnique` | bsp/qnx800.bsp.hw.qc_qrb2210-arduino-imola/bsp/BSP_qc-qrb2210-arduino-imola_be-800/src/hardware/startup/lib/ram.c:82-113 | the normal form is canonical: lists in it that cover the same addresses are equal |
| `Bits.RoundBounds` | bsp/qnx800.bsp.hw.qc_qrb2210-arduino-imola/bsp/BSP_qc-qrb2210-arduino-imola_be-800/src/hardware/startup/lib/public/startup.h:148-148 | ROUND never moves below its argument and moves by less than the alignment, for every nonzero alignment |
| `Bits.AndBit` | bsp/qnx800.bsp.hw.qc_qrb2210-arduino-imola/bsp/BSP_qc-qrb2210-arduino-imola_be-800/src/hardware/startup/lib/public/startup.h:148-148 | the mask is the bitwise AND: a bit is set exactly if it is set in both words |
| `Bits.PowerOfTwoAlignment` | bsp/qnx800.bsp.hw.qc_qrb2210-arduino-imola/bsp/BSP_qc-qrb2210-arduino-imola_be-800/src/hardware/startup/lib/public/startup.h:148-148 | for powers of two ROUND and TRUNC give multiples, and ROUND leaves multiples alone |
| `Bits.ZeroAlignment` | bsp/qnx800.bsp.hw.qc_qrb2210-arduino-imola/bsp/BSP_qc-qrb2210-arduino-imola_be-800/src/hardware/startup/lib/public/startup.h:148-148 | with alignment zero ROUND and TRUNC give zero |
| `Bits.UpToIsRound` | bsp/qnx800.bsp.hw.qc_qrb2210-arduino-imola/bsp/BSP_qc-qrb2210-arduino-imola_be-800/src/hardware/startup/lib/public/startup.h:148-148 | for every power of two ROUND is the next multiple, which is how the callers with a fixed alignment are modelled |
| `Bits.FixedAlignments` | bsp/qnx800.bsp.hw.qc_qrb2210-arduino-imola/bsp/BSP_qc-qrb2210-arduino-imola_be-800/src/hardware/startup/lib/public/startup.h:148-148 | so it is for the alignments 4, 8, 128 and both page sizes |
| `RamSearch.Restrict` | bsp/qnx800.bsp.hw.qc_qrb2210-arduino-imola/bsp/BSP_qc-qrb2210-arduino-imola_be-800/src/hardware/startup/lib/ram.c:217-222 | the loop over the avoid list, as both searches run it |
| `RamSearch.UsableIsClear` | bsp/qnx800.bsp.hw.qc_qrb2210-arduino-imola/bsp/BSP_qc-qrb2210-arduino-imola_be-800/src/hardware/startup/lib/ram.c:115-148 | what fix_size leaves over the whole avoid list lies in the entry and meets no avoided range |
| `RamSearch.FindRam` | bsp/qnx800.bsp.hw.qc_qrb2210-arduino-imola/bsp/BSP_qc-qrb2210-arduino-imola_be-800/src/hardware/startup/lib/ram.c:203-272 | the first entry in which the block fits decides; which address that is, and when an entry is passed over, is in RamFit |
| `RamFit.UntouchedIsWhole` | bsp/qnx800.bsp.hw.qc_qrb2210-arduino-imola/bsp/BSP_qc-qrb2210-arduino-imola_be-800/src/hardware/startup/lib/ram.c:115-148 | an entry is left whole exactly if every avoided range lies beside it |
| `RamFit.UsableInOrder` | bsp/qnx800.bsp.hw.qc_qrb2210-arduino-imola/bsp/BSP_qc-qrb2210-arduino-imola_be-800/src/hardware/startup/lib/ram.c:217-222 | the avoid list is gone through from the front: the last range cuts what the others have left |
| `RamFit.FitExactly` | bsp/qnx800.bsp.hw.qc_qrb2210-arduino-imola/bsp/BSP_qc-qrb2210-arduino-imola_be-800/src/hardware/startup/lib/ram.c:228-257 | for every power of two and every size but zero: the block is put at the least aligned address of what the avoid list leaves of the entry, and the entry is passed over exactly if no aligned block of that size lies there |
| `RamFit.FirstFitExactly` | bsp/qnx800.bsp.hw.qc_qrb2210-arduino-imola/bsp/BSP_qc-qrb2210-arduino-imola_be-800/src/hardware/startup/lib/ram.c:203-272 | so find_ram returns the least such address in the first entry that has one, and nothing exactly if none has |
| `RamFit.OddAlignment` | bsp/qnx800.bsp.hw.qc_qrb2210-arduino-imola/bsp/BSP_qc-qrb2210-arduino-imola_be-800/src/hardware/startup/lib/ram.c:228-257 | for every other alignment but zero the block begins less than the alignment behind the start of what is left, with no bit of the mask set |
| `RamSearch.FitIsFree` | bsp/qnx800.bsp.hw.qc_qrb2210-arduino-imola/bsp/BSP_qc-qrb2210-arduino-imola_be-800/src/hardware/startup/lib/ram.c:228-257 | for every nonzero alignment a block found lies in one free entry and meets no avoided range; for a power of two it is aligned |
| `RamSearch.ZeroAlignmentFit` | bsp/qnx800.bsp.hw.qc_qrb2210-arduino-imola/bsp/BSP_qc-qrb2210-arduino-imola_be-800/src/hardware/startup/lib/ram.c:228-228 | with alignment zero a search that succeeds returns address zero; that is inside the usable part exactly when that part begins at zero |
| `RamSearch.ZeroAlignmentInput` | bsp/qnx800.bsp.hw.qc_qrb2210-arduino-imola/bsp/BSP_qc-qrb2210-arduino-imola_be-800/src/hardware/startup/lib/ram.c:228-228 | an entry above address zero for which alignment zero returns a block that is not free |
| `RamSearch.FindTopRam` | bsp/qnx800.bsp.hw.qc_qrb2210-arduino-imola/bsp/BSP_qc-qrb2210-arduino-imola_be-800/src/hardware/startup/lib/ram.c:150-192 | the result of the top search, entry by entry, for every size, one whose rounding wraps to zero included |
| `RamSearch.TopIsFree` | bsp/qnx800.bsp.hw.qc_qrb2210-arduino-imola/bsp/BSP_qc-qrb2210-arduino-imola_be-800/src/hardware/startup/lib/ram.c:159-191 | when the rounded size fits below the limit, the block is free, not avoided and ends within the limit |
| `RamSearch.TopWraps` | bsp/qnx800.bsp.hw.qc_qrb2210-arduino-imola/bsp/BSP_qc-qrb2210-arduino-imola_be-800/src/hardware/startup/lib/ram.c:163-180 | when it does not, any result but none has wrapped around 2^64 and is no free block |
| `RamSearch.TopWrapsInput` | bsp/qnx800.bsp.hw.qc_qrb2210-arduino-imola/bsp/BSP_qc-qrb2210-arduino-imola_be-800/src/hardware/startup/lib/ram.c:163-180 | a list, a size and a limit for which it does |
| `RamSearch.TopIsHighest` | bsp/qnx800.bsp.hw.qc_qrb2210-arduino-imola/bsp/BSP_qc-qrb2210-arduino-imola_be-800/src/hardware/startup/lib/ram.c:194-196 | with the limit ~0: the highest aligned proposal of all entries |
| `RamFit.TopExactly` | bsp/qnx800.bsp.hw.qc_qrb2210-arduino-imola/bsp/BSP_qc-qrb2210-arduino-imola_be-800/src/hardware/startup/lib/ram.c:173-177 | what an entry proposes is the greatest aligned address of what the avoid list leaves of it, and nothing exactly if there is none; alignment zero stands for one |
| `RamFit.TopIsHighestBelow` | bsp/qnx800.bsp.hw.qc_qrb2210-arduino-imola/bsp/BSP_qc-qrb2210-arduino-imola_be-800/src/hardware/startup/lib/ram.c:165-191 | for every limit that the size fits below and every free list: the result is at least as high as every aligned block that ends within the limit, although the search stops at the first entry that reaches it; it is such a block itself, or a free one that ends at the limit |
| `RamSearch.TopAligned` | bsp/qnx800.bsp.hw.qc_qrb2210-arduino-imola/bsp/BSP_qc-qrb2210-arduino-imola_be-800/src/hardware/startup/lib/ram.c:173-185 | for every list, avoid list, size and limit that the size fits below: a block found is aligned exactly if it ends before the limit or the limit less the size is aligned |
| `RamSearch.TopAlwaysAligned` | bsp/qnx800.bsp.hw.qc_qrb2210-arduino-imola/bsp/BSP_qc-qrb2210-arduino-imola_be-800/src/hardware/startup/lib/ram.c:173-185 | so for every limit of 64 bits: whatever is free and avoided, the result is aligned exactly if the limit less the rounded size is, or the next multiple above that leaves no room for the block in physical memory, which a caller can check before the call |
| `RamSearch.LimitBreaksAlignment` | bsp/qnx800.bsp.hw.qc_qrb2210-arduino-imola/bsp/BSP_qc-qrb2210-arduino-imola_be-800/src/hardware/startup/lib/ram.c:178-183 | for every other size, limit and power of two: free memory in which the block returned is not aligned |
| `RamRuns.StepSafe` | bsp/qnx800.bsp.hw.qc_qrb2210-arduino-imola/bsp/BSP_qc-qrb2210-arduino-imola_be-800/src/hardware/startup/lib/ram.c:82-466 | every operation keeps the blocks handed out apart from each other and from what can still be found, but for an early block, which does so exactly if it is new; a block found by a search meets neither avoided memory nor an earlier block. Memory may be added around earlier, avoided blocks |
| `RamRuns.RunSafe` | bsp/qnx800.bsp.hw.qc_qrb2210-arduino-imola/bsp/BSP_qc-qrb2210-arduino-imola_be-800/src/hardware/startup/lib/ram.c:82-466 | so every run without early blocks is safe, from any safe state and of any length |
| `RamRuns.RunAccounted` | bsp/qnx800.bsp.hw.qc_qrb2210-arduino-imola/bsp/BSP_qc-qrb2210-arduino-imola_be-800/src/hardware/startup/lib/ram.c:82-466 | over every run from the start all memory ever added is free, taken by its address, or handed out, and each block lies below ws_early_next or in added memory that nobody has taken by its address |
| `RamRuns.EarlyIsNew` | bsp/qnx800.bsp.hw.qc_qrb2210-arduino-imola/bsp/BSP_qc-qrb2210-arduino-imola_be-800/src/hardware/startup/lib/ram.c:453-456 | the next early bytes meet no earlier block exactly if they meet the memory added so far at most where a caller took it by its address; and they meet nothing in use at all exactly if they miss all memory added so far |
| `RamRuns.RunSafeExactly` | bsp/qnx800.bsp.hw.qc_qrb2210-arduino-imola/bsp/BSP_qc-qrb2210-arduino-imola_be-800/src/hardware/startup/lib/ram.c:82-466 | a run from the start is safe exactly if each of its early blocks was handed out that way; in every other run two blocks overlap |
| `RamRuns.NoDoubleAllocation` | bsp/qnx800.bsp.hw.qc_qrb2210-arduino-imola/bsp/BSP_qc-qrb2210-arduino-imola_be-800/src/hardware/startup/lib/ram.c:82-466 | two blocks handed out anywhere in a run from the start whose early blocks are clear never overlap |
| `RamRuns.EarlyBeforeSupply` | bsp/qnx800.bsp.hw.qc_qrb2210-arduino-imola/bsp/BSP_qc-qrb2210-arduino-imola_be-800/src/hardware/startup/lib/_main.c:135-135 | early blocks handed out before the first add_ram are always safe, although the memory added later holds them |
| `RamRuns.EarlyWorkspaceOverlap` | bsp/qnx800.bsp.hw.qc_qrb2210-arduino-imola/bsp/BSP_qc-qrb2210-arduino-imola_be-800/src/hardware/startup/lib/ram.c:453-456 | a run of three steps, add, allocate everything, ws_alloc, that hands out the same bytes twice |
| `BootRam.BootRam.constructor` | bsp/qnx800.bsp.hw.qc_qrb2210-arduino-imola/bsp/BSP_qc-qrb2210-arduino-imola_be-800/src/hardware/startup/lib/ram.c:56-79 | ws_init: the avoid list, the free list and the startup code are avoided; nothing is free |
| `BootRam.BootRam.AvoidRam` | bsp/qnx800.bsp.hw.qc_qrb2210-arduino-imola/bsp/BSP_qc-qrb2210-arduino-imola_be-800/src/hardware/startup/lib/ram.c:400-419 | the avoided bytes grow by the range, merged with the last one if they touch; the crash comes after the list has outgrown its space |
| `BootRam.BootRam.Find` | bsp/qnx800.bsp.hw.qc_qrb2210-arduino-imola/bsp/BSP_qc-qrb2210-arduino-imola_be-800/src/hardware/startup/lib/ram.c:262-272 | find_ram on the current lists |
| `BootRam.BootRam.AllocRam` | bsp/qnx800.bsp.hw.qc_qrb2210-arduino-imola/bsp/BSP_qc-qrb2210-arduino-imola_be-800/src/hardware/startup/lib/ram.c:274-350 | a named range, or the block of the search, leaves the free list, and from add_sysram on the sysram entries, which go on covering the same bytes; it crashes exactly if a full list has to be split, or a sysram entry would vanish |
| `BootRam.BootRam.TakeRange` | bsp/qnx800.bsp.hw.qc_qrb2210-arduino-imola/bsp/BSP_qc-qrb2210-arduino-imola_be-800/src/hardware/startup/lib/ram.c:293-348 | both halves of alloc_ram for a known range |
| `BootRam.BootRam.WsAlloc` | bsp/qnx800.bsp.hw.qc_qrb2210-arduino-imola/bsp/BSP_qc-qrb2210-arduino-imola_be-800/src/hardware/startup/lib/ram.c:444-466 | with an empty free list the next early bytes, otherwise the first fit, by the least multiple of 8 that is enough; always one step of the allocator, and the bytes are avoided from then on |
| `BootRam.BootRam.AddRam` | bsp/qnx800.bsp.hw.qc_qrb2210-arduino-imola/bsp/BSP_qc-qrb2210-arduino-imola_be-800/src/hardware/startup/lib/ram.c:363-398 | the memory becomes free without the image behind startup; the first memory large enough gives up a block for the temporary system page; the first call sets up all memory there can be; the call is three steps of the allocator whenever the memory holds no earlier block that is not avoided; it returns while both lists have room |
| `BootRam.InitialViews` | bsp/qnx800.bsp.hw.qc_qrb2210-arduino-imola/bsp/BSP_qc-qrb2210-arduino-imola_be-800/src/hardware/startup/lib/ram.c:368-372 | the two entries of an empty section name all memory up to its end, and the part below four gigabytes |
| `BootRam.BootRam.SupplyRam` | bsp/qnx800.bsp.hw.qc_qrb2210-arduino-imola/bsp/BSP_qc-qrb2210-arduino-imola_be-800/src/hardware/startup/lib/ram.c:375-379 | the free list part of add_ram |
| `BootRam.BootRam.AddRamEntry` | bsp/qnx800.bsp.hw.qc_qrb2210-arduino-imola/bsp/BSP_qc-qrb2210-arduino-imola_be-800/src/hardware/startup/lib/ram.c:368-373 | the ram entries of the memory inside the memory containers; the old entries stay as they are but for their marks, and all new ones are ram |
| `BootRam.BootRam.PlaceTempSyspage` | bsp/qnx800.bsp.hw.qc_qrb2210-arduino-imola/bsp/BSP_qc-qrb2210-arduino-imola_be-800/src/hardware/startup/lib/ram.c:387-393 | the temporary system page is found in free memory and avoided from then on |
| `BootRam.BootRam.AddSysram` | bsp/qnx800.bsp.hw.qc_qrb2210-arduino-imola/bsp/BSP_qc-qrb2210-arduino-imola_be-800/src/hardware/startup/lib/ram.c:426-441 | afterwards the sysram entries cover exactly the free bytes that lie in ram entries, each inside the entry that owns it; so both views agree exactly if every free byte does |
| `BootRam.BootRam.ReserveRam` | bsp/qnx800.bsp.hw.qc_qrb2210-arduino-imola/bsp/BSP_qc-qrb2210-arduino-imola_be-800/src/hardware/startup/lib/ram.c:492-516 | the block is free, of the search asked for, and the part of it in ram entries gets the name asked for, before add_sysram and after it; the two views of free memory still agree; it crashes exactly if the search finds none, or where taking the block out of the two views does |
| `BootRam.BootRam.ReserveBlock` | bsp/qnx800.bsp.hw.qc_qrb2210-arduino-imola/bsp/BSP_qc-qrb2210-arduino-imola_be-800/src/hardware/startup/lib/ram.c:499-511 | the block from the top of memory, or of the first fit in the low region, is one allocation step; the same exact crash |
| `Sysram.CutSysram` | bsp/qnx800.bsp.hw.qc_qrb2210-arduino-imola/bsp/BSP_qc-qrb2210-arduino-imola_be-800/src/hardware/startup/lib/ram.c:323-348 | the rescan terminates and takes exactly the range out of the sysram entries; it crashes exactly if it meets an entry that lies wholly in the range |
| `Sysram.CutEntry` | bsp/qnx800.bsp.hw.qc_qrb2210-arduino-imola/bsp/BSP_qc-qrb2210-arduino-imola_be-800/src/hardware/startup/lib/ram.c:334-346 | one round: the hit is shortened, and what is left behind the range becomes an entry of its own |
| `Sysram.CutKeepsView` | bsp/qnx800.bsp.hw.qc_qrb2210-arduino-imola/bsp/BSP_qc-qrb2210-arduino-imola_be-800/src/hardware/startup/lib/ram.c:337-346 | cutting one sysram entry takes exactly the common addresses out of the view |
| `Sysram.CutKeepsOthers` | bsp/qnx800.bsp.hw.qc_qrb2210-arduino-imola/bsp/BSP_qc-qrb2210-arduino-imola_be-800/src/hardware/startup/lib/ram.c:337-346 | no other name gains or loses an address by it, if every sysram entry lies inside the entry that owns it, which then stays so |
| `AddressSpace.AddressSpace.MatchName` | bsp/qnx800.bsp.hw.qc_qrb2210-arduino-imola/bsp/BSP_qc-qrb2210-arduino-imola_be-800/src/hardware/startup/lib/as_find_containing.c:28-35 | the walk up the owner chain finds the name exactly if the entry or one of its owners has it |
| `AddressSpace.AddressSpace.FindContaining` | bsp/qnx800.bsp.hw.qc_qrb2210-arduino-imola/bsp/BSP_qc-qrb2210-arduino-imola_be-800/src/hardware/startup/lib/as_find_containing.c:37-58 | the first entry behind off that has the name, by itself or through an owner, and shares an address with the range |
| `AddressSpace.TouchesIsOverlap` | bsp/qnx800.bsp.hw.qc_qrb2210-arduino-imola/bsp/BSP_qc-qrb2210-arduino-imola_be-800/src/hardware/startup/lib/as_find_containing.c:51-53 | for proper ranges the three comparisons together say that an address is shared |
| `AddressSpace.MatchStable` | bsp/qnx800.bsp.hw.qc_qrb2210-arduino-imola/bsp/BSP_qc-qrb2210-arduino-imola_be-800/src/hardware/startup/lib/as_find_containing.c:28-35 | appending entries and marking owners changes no match |
| `AddressSpace.AddressSpace.Add` | bsp/qnx800.bsp.hw.qc_qrb2210-arduino-imola/bsp/BSP_qc-qrb2210-arduino-imola_be-800/src/hardware/startup/lib/as_add64.c:29-63 | the entry is appended, its owner marked, everything else kept, and an io entry put over it if asked |
| `Views.AddedNames` | bsp/qnx800.bsp.hw.qc_qrb2210-arduino-imola/bsp/BSP_qc-qrb2210-arduino-imola_be-800/src/hardware/startup/lib/as_add64.c:29-63 | the range carries the new name, those of all its owners, and io if the overlay is asked for; no other name gains or loses an address |
| `Pieces.PlaceInList` | bsp/qnx800.bsp.hw.qc_qrb2210-arduino-imola/bsp/BSP_qc-qrb2210-arduino-imola_be-800/src/hardware/startup/lib/as_add_containing.c:59-114 | the inner loop splits the first piece that contains the start of the new one, or appends it |
| `Pieces.PlaceAllHolds` | bsp/qnx800.bsp.hw.qc_qrb2210-arduino-imola/bsp/BSP_qc-qrb2210-arduino-imola_be-800/src/hardware/startup/lib/as_add_containing.c:50-115 | whatever the containers, the list holds exactly the addresses that lie in one of them |
| `Nesting.PlaceAllPartitions` | bsp/qnx800.bsp.hw.qc_qrb2210-arduino-imola/bsp/BSP_qc-qrb2210-arduino-imola_be-800/src/hardware/startup/lib/as_add_containing.c:50-115 | for nested containers the list is a partition: nonempty after dropping the empty pieces, pairwise disjoint, their union that of the containers, each piece owned by the innermost container, neighbours owned differently |
| `Nesting.PlaceAllAscends` | bsp/qnx800.bsp.hw.qc_qrb2210-arduino-imola/bsp/BSP_qc-qrb2210-arduino-imola_be-800/src/hardware/startup/lib/as_add_containing.c:50-115 | for nested containers the list ascends, if each container that lies in no earlier one is found behind the earlier ones |
| `Placement.DisjointExactly` | bsp/qnx800.bsp.hw.qc_qrb2210-arduino-imola/bsp/BSP_qc-qrb2210-arduino-imola_be-800/src/hardware/startup/lib/as_add_containing.c:50-115 | for containers of any shape: the pieces do not overlap exactly if each container, when it is found, misses the earlier ones or has one of them as the last around its start and around all else of it that they hold; every address then belongs to the last container around it |
| `Nesting.OverlapWithoutNesting` | bsp/qnx800.bsp.hw.qc_qrb2210-arduino-imola/bsp/BSP_qc-qrb2210-arduino-imola_be-800/src/hardware/startup/lib/as_add_containing.c:78-113 | two containers that overlap without nesting, for which the pieces overlap |
| `AddressSpace.AddressSpace.Collect` | bsp/qnx800.bsp.hw.qc_qrb2210-arduino-imola/bsp/BSP_qc-qrb2210-arduino-imola_be-800/src/hardware/startup/lib/as_add_containing.c:51-115 | the outer loop places the clipped range of every matching container, in order |
| `AddressSpace.AddressSpace.Emit` | bsp/qnx800.bsp.hw.qc_qrb2210-arduino-imola/bsp/BSP_qc-qrb2210-arduino-imola_be-800/src/hardware/startup/lib/as_add_containing.c:118-124 | one CONTINUED entry for every piece that is not empty, each owned by its container |
| `AddressSpace.AddressSpace.OverlayRun` | bsp/qnx800.bsp.hw.qc_qrb2210-arduino-imola/bsp/BSP_qc-qrb2210-arduino-imola_be-800/src/hardware/startup/lib/as_add_containing.c:128-137 | the overlay loop follows the CONTINUED marks over exactly the run, and gives each entry its overlay |
| `AddressSpace.AddressSpace.AddContaining` | bsp/qnx800.bsp.hw.qc_qrb2210-arduino-imola/bsp/BSP_qc-qrb2210-arduino-imola_be-800/src/hardware/startup/lib/as_add_containing.c:36-140 | the whole: one run of consecutive entries, all but the last CONTINUED, overlaid if asked; all else is as before but for kids marks; the first is returned |
| `Views.EmittedIsIntersection` | bsp/qnx800.bsp.hw.qc_qrb2210-arduino-imola/bsp/BSP_qc-qrb2210-arduino-imola_be-800/src/hardware/startup/lib/as_add_containing.c:51-124 | nested or not, the new entries cover exactly the part of the range that lies in the containers |
| `Views.EmittedApartExactly` | bsp/qnx800.bsp.hw.qc_qrb2210-arduino-imola/bsp/BSP_qc-qrb2210-arduino-imola_be-800/src/hardware/startup/lib/as_add_containing.c:51-124 | the entries of one call do not overlap exactly under that condition on the containers found |
| `Views.NestedEntriesPartition` | bsp/qnx800.bsp.hw.qc_qrb2210-arduino-imola/bsp/BSP_qc-qrb2210-arduino-imola_be-800/src/hardware/startup/lib/as_add_containing.c:51-124 | if the entries of the container name are nested, so are the containers found, and the new entries are a partition of the asked range inside them, each a part of its owner that no later container reaches into |
| `Views.NestedEntriesAscend` | bsp/qnx800.bsp.hw.qc_qrb2210-arduino-imola/bsp/BSP_qc-qrb2210-arduino-imola_be-800/src/hardware/startup/lib/as_add_containing.c:51-124 | then the new entries ascend as well |
| `Views.ContainedNames` | bsp/qnx800.bsp.hw.qc_qrb2210-arduino-imola/bsp/BSP_qc-qrb2210-arduino-imola_be-800/src/hardware/startup/lib/as_add_containing.c:116-124 | the addresses under the new name are those before and those of the pieces |
| `Views.OtherNamesKept` | bsp/qnx800.bsp.hw.qc_qrb2210-arduino-imola/bsp/BSP_qc-qrb2210-arduino-imola_be-800/src/hardware/startup/lib/as_add_containing.c:116-124 | no other name gains or loses an address, unless a piece is owned by it |
| `Views.ContainerNameKept` | bsp/qnx800.bsp.hw.qc_qrb2210-arduino-imola/bsp/BSP_qc-qrb2210-arduino-imola_be-800/src/hardware/startup/lib/as_add_containing.c:116-124 | entries inside containers of a name add no address to that name |
| `EfiSort.SiftUp` | bsp/qnx800.bsp.hw.qc_qrb2210-arduino-imola/bsp/BSP_qc-qrb2210-arduino-imola_be-800/src/hardware/startup/lib/efi_entry_point.c:116-132 | one round of heapify moves the new entry up to its place: the heap has one entry more, and the same entries |
| `EfiSort.Heapify` | bsp/qnx800.bsp.hw.qc_qrb2210-arduino-imola/bsp/BSP_qc-qrb2210-arduino-imola_be-800/src/hardware/startup/lib/efi_entry_point.c:113-133 | the first count entries become a max-heap, a permutation of themselves; the others do not move |
| `EfiSort.SortOne` | bsp/qnx800.bsp.hw.qc_qrb2210-arduino-imola/bsp/BSP_qc-qrb2210-arduino-imola_be-800/src/hardware/startup/lib/efi_entry_point.c:141-148 | one round of the sort: the largest entry behind the heap, the rest a heap again |
| `EfiSort.SortMap` | bsp/qnx800.bsp.hw.qc_qrb2210-arduino-imola/bsp/BSP_qc-qrb2210-arduino-imola_be-800/src/hardware/startup/lib/efi_entry_point.c:135-149 | any nonempty map becomes an ascending permutation of itself |
| `EfiRam.AvoidPass` | bsp/qnx800.bsp.hw.qc_qrb2210-arduino-imola/bsp/BSP_qc-qrb2210-arduino-imola_be-800/src/hardware/startup/lib/init_raminfo_efi.c:67-160 | pass 0 avoids exactly the memory of the descriptors whose type is not ConventionalMemory |
| `EfiRam.SupplyPass` | bsp/qnx800.bsp.hw.qc_qrb2210-arduino-imola/bsp/BSP_qc-qrb2210-arduino-imola_be-800/src/hardware/startup/lib/init_raminfo_efi.c:142-163 | pass 1 calls add_ram once with nothing, and then with exactly the maximal contiguous runs, whose union is the memory of the eight types the switch names; earlier blocks may lie in it where they are avoided |
| `EfiRam.TakePass` | bsp/qnx800.bsp.hw.qc_qrb2210-arduino-imola/bsp/BSP_qc-qrb2210-arduino-imola_be-800/src/hardware/startup/lib/init_raminfo_efi.c:138-140 | pass 2 takes the memory of the seven types still in use out of the free list |
| `EfiRam.RunPasses` | bsp/qnx800.bsp.hw.qc_qrb2210-arduino-imola/bsp/BSP_qc-qrb2210-arduino-imola_be-800/src/hardware/startup/lib/init_raminfo_efi.c:67-164 | the three passes over a map in order; they return while both lists have room |
| `EfiRam.ClassKinds` | bsp/qnx800.bsp.hw.qc_qrb2210-arduino-imola/bsp/BSP_qc-qrb2210-arduino-imola_be-800/src/hardware/startup/lib/init_raminfo_efi.c:126-160 | the three groups of the switch in terms of the firmware's types |
| `EfiRam.InitRaminfo` | bsp/qnx800.bsp.hw.qc_qrb2210-arduino-imola/bsp/BSP_qc-qrb2210-arduino-imola_be-800/src/hardware/startup/lib/init_raminfo_efi.c:44-165 | from any firmware map of disjoint nonempty ranges, in any order, and with any early blocks handed out before: the free memory is exactly that of the ConventionalMemory descriptors without the image behind startup, that of all other descriptors is avoided, the allocator is safe, and the call returns for every map that leaves room in both lists |
| `EfiRam.StillBooting` | bsp/qnx800.bsp.hw.qc_qrb2210-arduino-imola/bsp/BSP_qc-qrb2210-arduino-imola_be-800/src/hardware/startup/lib/_main.c:135-139 | early blocks and avoided memory before main leave the allocator as init_raminfo_efi expects it |
| `Descriptors.WordFields` | bsp/qnx800.bsp.hw.qc_qrb2210-arduino-imola/bsp/BSP_qc-qrb2210-arduino-imola_be-800/src/hardware/startup/lib/aarch64/aarch64_map.c:28-29 | address, type bits and CONTIG can be read back from a descriptor word, for both page sizes |
| `Descriptors.IndexDigits` | bsp/qnx800.bsp.hw.qc_qrb2210-arduino-imola/bsp/BSP_qc-qrb2210-arduino-imola_be-800/src/hardware/startup/lib/aarch64/aarch64_map.c:227-259 | the three index fields are the digits of the page number |
| `TableTree.OneSlotPerTable` | bsp/qnx800.bsp.hw.qc_qrb2210-arduino-imola/bsp/BSP_qc-qrb2210-arduino-imola_be-800/src/hardware/startup/lib/aarch64/aarch64_map.c:242-258 | in a tree of tables every table but a root is reached from exactly one slot outside the self map |
| `TableTree.WalkReadsPageWord` | bsp/qnx800.bsp.hw.qc_qrb2210-arduino-imola/bsp/BSP_qc-qrb2210-arduino-imola_be-800/src/hardware/startup/lib/aarch64/aarch64_map.c:285-349 | outside the self map elf_vaddr_to_paddr returns what the page's level 3 descriptor says, or nothing if a table or the descriptor is missing |
| `TableTree.DirectoryBlock` | bsp/qnx800.bsp.hw.qc_qrb2210-arduino-imola/bsp/BSP_qc-qrb2210-arduino-imola_be-800/src/hardware/startup/lib/aarch64/aarch64_map.c:329-338 | a block descriptor in a level 2 table maps its 2 megabytes, or half a gigabyte with large pages, in one piece |
| `TableTree.TopBlock` | bsp/qnx800.bsp.hw.qc_qrb2210-arduino-imola/bsp/BSP_qc-qrb2210-arduino-imola_be-800/src/hardware/startup/lib/aarch64/aarch64_map.c:311-321 | one in the level 1 table maps a gigabyte |
| `TableUpdates.HangKeepsAll` | bsp/qnx800.bsp.hw.qc_qrb2210-arduino-imola/bsp/BSP_qc-qrb2210-arduino-imola_be-800/src/hardware/startup/lib/aarch64/aarch64_map.c:242-244 | hanging a new empty table keeps the tree and every page's descriptor |
| `TableUpdates.WriteKeepsTree` | bsp/qnx800.bsp.hw.qc_qrb2210-arduino-imola/bsp/BSP_qc-qrb2210-arduino-imola_be-800/src/hardware/startup/lib/aarch64/aarch64_map.c:271-271 | writing a level 3 descriptor keeps the tree |
| `TableUpdates.WriteSetsPageWord` | bsp/qnx800.bsp.hw.qc_qrb2210-arduino-imola/bsp/BSP_qc-qrb2210-arduino-imola_be-800/src/hardware/startup/lib/aarch64/aarch64_map.c:271-271 | ...and changes the descriptor of that page only |
| `TableUpdates.FirstTree` | bsp/qnx800.bsp.hw.qc_qrb2210-arduino-imola/bsp/BSP_qc-qrb2210-arduino-imola_be-800/src/hardware/startup/lib/aarch64/aarch64_map.c:117-126 | the two level 1 tables, one with its self map slot, are a tree |
| `TableUpdates.FirstDirectoryTree` | bsp/qnx800.bsp.hw.qc_qrb2210-arduino-imola/bsp/BSP_qc-qrb2210-arduino-imola_be-800/src/hardware/startup/lib/aarch64/aarch64_map.c:128-136 | with 4K pages so are they with the first level 2 table |
| `TableUpdates.FirstDirectoryLinked` | bsp/qnx800.bsp.hw.qc_qrb2210-arduino-imola/bsp/BSP_qc-qrb2210-arduino-imola_be-800/src/hardware/startup/lib/aarch64/aarch64_map.c:117-136 | the self map slots lead back to the level 1 table of the high half, and all descriptors of tables have the attributes of tables |
| `TableUpdates.HangKeepsLinked` | bsp/qnx800.bsp.hw.qc_qrb2210-arduino-imola/bsp/BSP_qc-qrb2210-arduino-imola_be-800/src/hardware/startup/lib/aarch64/aarch64_map.c:242-258 | hanging a table leaves that so |
| `TableUpdates.WriteKeepsLinked` | bsp/qnx800.bsp.hw.qc_qrb2210-arduino-imola/bsp/BSP_qc-qrb2210-arduino-imola_be-800/src/hardware/startup/lib/aarch64/aarch64_map.c:271-271 | ...and so does a level 3 store; it is part of what every call of aarch64_map keeps |
| `Mapping.ContigTest` | bsp/qnx800.bsp.hw.qc_qrb2210-arduino-imola/bsp/BSP_qc-qrb2210-arduino-imola_be-800/src/hardware/startup/lib/aarch64/aarch64_map.c:33-34 | USE_CONTIG decides exactly whether an equally aligned block lies wholly in what is left of the range |
| `Mapping.BlockIsConsistent` | bsp/qnx800.bsp.hw.qc_qrb2210-arduino-imola/bsp/BSP_qc-qrb2210-arduino-imola_be-800/src/hardware/startup/lib/aarch64/aarch64_map.c:264-273 | the pages of a CONTIG block lie in one table, are all marked, have the same attributes and consecutive, equally aligned outputs |
| `Translation.ContigExact` | bsp/qnx800.bsp.hw.qc_qrb2210-arduino-imola/bsp/BSP_qc-qrb2210-arduino-imola_be-800/src/hardware/startup/lib/aarch64/aarch64_map.c:260-278 | after a call the descriptor of an address has CONTIG set exactly if the 64 kilobytes around it, 2 megabytes with large pages, lie wholly in the range and are mapped to an address that is a multiple of as much |
| `Translation.TranslatesInside` | bsp/qnx800.bsp.hw.qc_qrb2210-arduino-imola/bsp/BSP_qc-qrb2210-arduino-imola_be-800/src/hardware/startup/lib/aarch64/aarch64_map.c:285-349 | after a mapping the walk returns the physical address at the same distance, from a descriptor with the attributes asked for, for every address of the range |
| `Translation.TranslatesOutside` | bsp/qnx800.bsp.hw.qc_qrb2210-arduino-imola/bsp/BSP_qc-qrb2210-arduino-imola_be-800/src/hardware/startup/lib/aarch64/aarch64_map.c:285-349 | ...and for every other address, of both halves, what it returned before, from the descriptor it had |
| `Translation.AssignedAddress` | bsp/qnx800.bsp.hw.qc_qrb2210-arduino-imola/bsp/BSP_qc-qrb2210-arduino-imola_be-800/src/hardware/startup/lib/aarch64/aarch64_map.c:189-191 | what is returned for an assigned address translates, byte by byte, to the physical range asked for |
| `Translation.NamedAddress` | bsp/qnx800.bsp.hw.qc_qrb2210-arduino-imola/bsp/BSP_qc-qrb2210-arduino-imola_be-800/src/hardware/startup/lib/aarch64/aarch64_map.c:282-282 | for an address named by the caller the page offset is added again: while twice the offset lies in the rounded range, the result translates to the physical address exactly if the offset is zero; otherwise the result is an address the call did not map |
| `Translation.NamedAddressInput` | bsp/qnx800.bsp.hw.qc_qrb2210-arduino-imola/bsp/BSP_qc-qrb2210-arduino-imola_be-800/src/hardware/startup/lib/aarch64/aarch64_map.c:282-282 | sixteen bytes at 0x5008 mapped at 0x41008: what is returned translates to 0x5010 |
| `Translation.RoundPageIsRound` | bsp/qnx800.bsp.hw.qc_qrb2210-arduino-imola/bsp/BSP_qc-qrb2210-arduino-imola_be-800/src/hardware/startup/lib/aarch64/aarch64_map.c:188-188 | rounding to whole pages is ROUND with the page size |
| `PageTables.PageTables.CallocRam` | bsp/qnx800.bsp.hw.qc_qrb2210-arduino-imola/bsp/BSP_qc-qrb2210-arduino-imola_be-800/src/hardware/startup/lib/ram.c:352-361 | the block of the search, cleared; nothing else in memory changes, and the two views of free memory stay in step; without a block the allocator refuses that size and alignment as it is then |
| `PageTables.PageTables.PtAlloc` | bsp/qnx800.bsp.hw.qc_qrb2210-arduino-imola/bsp/BSP_qc-qrb2210-arduino-imola_be-800/src/hardware/startup/lib/aarch64/aarch64_map.c:81-90 | a page not handed out before, cleared, and a table descriptor that leads to it with the attributes of tables; it crashes only where the allocator has no page |
| `PageTables.PageTables.HangTable` | bsp/qnx800.bsp.hw.qc_qrb2210-arduino-imola/bsp/BSP_qc-qrb2210-arduino-imola_be-800/src/hardware/startup/lib/aarch64/aarch64_map.c:242-258 | an empty slot gets a new table; no page's descriptor changes |
| `PageTables.PageTables.WriteRun` | bsp/qnx800.bsp.hw.qc_qrb2210-arduino-imola/bsp/BSP_qc-qrb2210-arduino-imola_be-800/src/hardware/startup/lib/aarch64/aarch64_map.c:270-274 | n descriptors in consecutive slots, one page apart |
| `PageTables.PageTables.FillStep` | bsp/qnx800.bsp.hw.qc_qrb2210-arduino-imola/bsp/BSP_qc-qrb2210-arduino-imola_be-800/src/hardware/startup/lib/aarch64/aarch64_map.c:260-278 | one page or one contiguous block, and the variables of the loops after it |
| `PageTables.PageTables.FillTable` | bsp/qnx800.bsp.hw.qc_qrb2210-arduino-imola/bsp/BSP_qc-qrb2210-arduino-imola_be-800/src/hardware/startup/lib/aarch64/aarch64_map.c:259-279 | the innermost loop ends at the end of the range or of the level 3 table |
| `PageTables.PageTables.FillDirectory` | bsp/qnx800.bsp.hw.qc_qrb2210-arduino-imola/bsp/BSP_qc-qrb2210-arduino-imola_be-800/src/hardware/startup/lib/aarch64/aarch64_map.c:248-279 | the middle loop ends at the end of the range or of the level 2 table |
| `PageTables.PageTables.FillRange` | bsp/qnx800.bsp.hw.qc_qrb2210-arduino-imola/bsp/BSP_qc-qrb2210-arduino-imola_be-800/src/hardware/startup/lib/aarch64/aarch64_map.c:227-280 | the outer loop writes every page of the range and nothing else |
| `PageTables.PageTables.Map` | bsp/qnx800.bsp.hw.qc_qrb2210-arduino-imola/bsp/BSP_qc-qrb2210-arduino-imola_be-800/src/hardware/startup/lib/aarch64/aarch64_map.c:172-283 | on success every address of the rounded range translates to the physical address at the same distance with the attributes asked for, every other translation outside the self map is as before, the tables are a tree again, the self map is intact, memory in use has kept its contents, and the two views of free memory agree if they did, before add_sysram and after it; it crashes only if a named address has another offset in its page, the range does not lie in one half, or the allocator has no page for a table |
| `PageTables.MapInit` | bsp/qnx800.bsp.hw.qc_qrb2210-arduino-imola/bsp/BSP_qc-qrb2210-arduino-imola_be-800/src/hardware/startup/lib/aarch64/aarch64_map.c:101-144 | the tables set up are a tree in which nothing is mapped, with the self map in place; it crashes only where the allocator has no page |
| `PageTables.NothingMapped` | bsp/qnx800.bsp.hw.qc_qrb2210-arduino-imola/bsp/BSP_qc-qrb2210-arduino-imola_be-800/src/hardware/startup/lib/aarch64/aarch64_map.c:285-349 | without level 3 tables no address translates |
| `ElfLoader.MapPages` | bsp/qnx800.bsp.hw.qc_qrb2210-arduino-imola/bsp/BSP_qc-qrb2210-arduino-imola_be-800/src/hardware/startup/lib/aarch64/elf_map.c:28-43 | elf_map of whole pages with the attributes given leaves every byte that could be read elsewhere readable, and its attributes |
| `ElfLoader.CopyAndMap` | bsp/qnx800.bsp.hw.qc_qrb2210-arduino-imola/bsp/BSP_qc-qrb2210-arduino-imola_be-800/src/hardware/startup/lib/elf64.c:87-89 | calloc_ram, copy_memory and elf_map: the pages show the bytes copied and zeros behind them, with the attributes given |
| `ElfLoader.LoadInPlace` | bsp/qnx800.bsp.hw.qc_qrb2210-arduino-imola/bsp/BSP_qc-qrb2210-arduino-imola_be-800/src/hardware/startup/lib/elf64.c:79-90 | whole pages of the file part mapped in place, the tail copied: the segment's bytes read as they should, by descriptors with the attributes of its flags, and the pages in place have not been copied |
| `ElfLoader.LoadSegment` | bsp/qnx800.bsp.hw.qc_qrb2210-arduino-imola/bsp/BSP_qc-qrb2210-arduino-imola_be-800/src/hardware/startup/lib/elf64.c:62-118 | one PT_LOAD header, all branches: every byte of the segment reads as the file byte, or as zero behind the file part, by a descriptor with the attributes of p_flags; whole pages that mkifs has placed are mapped where they are; other segments and translations are not disturbed; it stops only if the segment's pages do not lie in one half, or the allocator has no block for them or for a table |
| `ElfLoader.Loader.LoadElf64mmu` | bsp/qnx800.bsp.hw.qc_qrb2210-arduino-imola/bsp/BSP_qc-qrb2210-arduino-imola_be-800/src/hardware/startup/lib/elf64.c:56-120 | after the loop every byte of every loadable segment, read through the translation tables, is the source byte or zero, and the descriptor it is read by has the attributes of the segment's flags; outside the segments' pages every translation is as before; it stops only where some segment does |
| `ElfLoader.SegmentBytes` | bsp/qnx800.bsp.hw.qc_qrb2210-arduino-imola/bsp/BSP_qc-qrb2210-arduino-imola_be-800/src/hardware/startup/lib/elf64.c:62-118 | the byte at distance d of a loaded segment is the one d behind p_paddr, or if that is zero d behind p_offset in the image, and zero from p_filesz on |
| `ElfLoader.Loader.Mark` | bsp/qnx800.bsp.hw.qc_qrb2210-arduino-imola/bsp/BSP_qc-qrb2210-arduino-imola_be-800/src/hardware/startup/lib/elf64.c:69-74 | boot_vaddr_base and boot_vaddr_end for one segment |
| `ElfLoader.BaseIsLeast` | bsp/qnx800.bsp.hw.qc_qrb2210-arduino-imola/bsp/BSP_qc-qrb2210-arduino-imola_be-800/src/hardware/startup/lib/elf64.c:69-71 | zero stands for unset: boot_vaddr_base is the lowest start page exactly if no segment starts at page zero, or the last one does |
| `ElfLoader.BaseNotLeastInput` | bsp/qnx800.bsp.hw.qc_qrb2210-arduino-imola/bsp/BSP_qc-qrb2210-arduino-imola_be-800/src/hardware/startup/lib/elf64.c:69-71 | a segment at page zero and one at 0x1000 behind it: the base is 0x1000 |
| `ElfLoader.OneMoreLoaded` | bsp/qnx800.bsp.hw.qc_qrb2210-arduino-imola/bsp/BSP_qc-qrb2210-arduino-imola_be-800/src/hardware/startup/lib/elf64.c:61-119 | a segment on pages of its own leaves the earlier ones readable |
| `Arena.GrowTiled` | bsp/qnx800.bsp.hw.qc_qrb2210-arduino-imola/bsp/BSP_qc-qrb2210-arduino-imola_be-800/src/hardware/startup/lib/syspage_memory.c:65-77 | growing any section keeps the tiling: every byte of the page in exactly one section, the sizes summing to total_size |
| `Arena.GrowContent` | bsp/qnx800.bsp.hw.qc_qrb2210-arduino-imola/bsp/BSP_qc-qrb2210-arduino-imola_be-800/src/hardware/startup/lib/syspage_memory.c:65-77 | every section keeps its bytes; the one that grew has zeros behind them |
| `Arena.Round8Exactly` | bsp/qnx800.bsp.hw.qc_qrb2210-arduino-imola/bsp/BSP_qc-qrb2210-arduino-imola_be-800/src/hardware/startup/lib/syspage_memory.c:58-58 | sizes are rounded to the least multiple of eight that is enough |
| `Arena.SetTiled` | bsp/qnx800.bsp.hw.qc_qrb2210-arduino-imola/bsp/BSP_qc-qrb2210-arduino-imola_be-800/src/hardware/startup/lib/syspage_memory.c:82-90 | setting an empty section keeps the tiling exactly if no section lies across base + fixed_size |
| `Arena.GrownFixedSection` | bsp/qnx800.bsp.hw.qc_qrb2210-arduino-imola/bsp/BSP_qc-qrb2210-arduino-imola_be-800/src/hardware/startup/lib/syspage_memory.c:82-90 | a section that was set and then grown is cut in two by every later set |
| `ArenaRuns.StepRefines` | bsp/qnx800.bsp.hw.qc_qrb2210-arduino-imola/bsp/BSP_qc-qrb2210-arduino-imola_be-800/src/hardware/startup/lib/syspage_memory.c:47-138 | each operation on the buffer is that operation on a plain list of sections, growth of any section included; a section is set where base + fixed_size lies between two sections |
| `ArenaRuns.PlaceExactly` | bsp/qnx800.bsp.hw.qc_qrb2210-arduino-imola/bsp/BSP_qc-qrb2210-arduino-imola_be-800/src/hardware/startup/lib/syspage_memory.c:82-90 | for any empty section: what set_syspage_section leaves is some list of sections again exactly if base + fixed_size lies between two of them |
| `ArenaRuns.RunRefines` | bsp/qnx800.bsp.hw.qc_qrb2210-arduino-imola/bsp/BSP_qc-qrb2210-arduino-imola_be-800/src/hardware/startup/lib/syspage_memory.c:47-138 | so is every run of grow, set, store, register and relocate that sets sections there, whatever it grows in between: the sections tile the page, contain what the list says, and every registered owner names the slot of the section it was registered for |
| `ArenaRuns.RunExactly` | bsp/qnx800.bsp.hw.qc_qrb2210-arduino-imola/bsp/BSP_qc-qrb2210-arduino-imola_be-800/src/hardware/startup/lib/syspage_memory.c:47-138 | after any such run the next section can be set exactly if that place is between two sections; nothing else that happened matters |
| `ArenaRuns.BehindIsAllowed` | bsp/qnx800.bsp.hw.qc_qrb2210-arduino-imola/bsp/BSP_qc-qrb2210-arduino-imola_be-800/src/hardware/startup/lib/syspage_memory.c:65-90 | a run that grows only sections behind base + fixed_size never needs the test, however many sections it sets |
| `ArenaRuns.PlacedStays` | bsp/qnx800.bsp.hw.qc_qrb2210-arduino-imola/bsp/BSP_qc-qrb2210-arduino-imola_be-800/src/hardware/startup/lib/syspage_memory.c:82-90 | a section that was set keeps its offset over every run that grows no other section in front of it; it may be grown itself, and if it is not it keeps its length |
| `ArenaRuns.OnlyZerosBehind` | bsp/qnx800.bsp.hw.qc_qrb2210-arduino-imola/bsp/BSP_qc-qrb2210-arduino-imola_be-800/src/hardware/startup/lib/syspage_memory.c:75-75 | over every such run without stores into it a section, set or not, is its old bytes and zeros |
| `ArenaRuns.RunAligned` | bsp/qnx800.bsp.hw.qc_qrb2210-arduino-imola/bsp/BSP_qc-qrb2210-arduino-imola_be-800/src/hardware/startup/lib/syspage_memory.c:47-138 | over every run, whatever sizes are asked for, sections begin at multiples of eight and have such sizes, if they did at first |
| `ArenaRuns.RegisterRefines` | bsp/qnx800.bsp.hw.qc_qrb2210-arduino-imola/bsp/BSP_qc-qrb2210-arduino-imola_be-800/src/hardware/startup/lib/callouts.c:158-177 | registering by address is registering by slot: a slot has at most one entry |
| `ArenaRuns.RelocateRefines` | bsp/qnx800.bsp.hw.qc_qrb2210-arduino-imola/bsp/BSP_qc-qrb2210-arduino-imola_be-800/src/hardware/startup/lib/syspage_memory.c:126-138 | moving the page moves sections and registered owners along |
| `Syspage.Syspage.Grow` | bsp/qnx800.bsp.hw.qc_qrb2210-arduino-imola/bsp/BSP_qc-qrb2210-arduino-imola_be-800/src/hardware/startup/lib/syspage_memory.c:47-80 | the loops over the buffer compute the grown state, by a multiple of eight less than eight above what was asked; it crashes exactly if the page would exceed its maximum, and then leaves it alone |
| `Syspage.Syspage.Set` | bsp/qnx800.bsp.hw.qc_qrb2210-arduino-imola/bsp/BSP_qc-qrb2210-arduino-imola_be-800/src/hardware/startup/lib/syspage_memory.c:82-90 | the section is put at base + fixed_size and grown, by a multiple of eight as well |
| `Syspage.Syspage.ShiftSections` | bsp/qnx800.bsp.hw.qc_qrb2210-arduino-imola/bsp/BSP_qc-qrb2210-arduino-imola_be-800/src/hardware/startup/lib/syspage_memory.c:66-70 | exactly the sections behind the one that grows move |
| `Syspage.Syspage.RelocData` | bsp/qnx800.bsp.hw.qc_qrb2210-arduino-imola/bsp/BSP_qc-qrb2210-arduino-imola_be-800/src/hardware/startup/lib/callouts.c:179-191 | exactly the registered owners in the moved bytes move along |
| `Syspage.Syspage.RegisterData` | bsp/qnx800.bsp.hw.qc_qrb2210-arduino-imola/bsp/BSP_qc-qrb2210-arduino-imola_be-800/src/hardware/startup/lib/callouts.c:158-177 | the owner is registered unless it is already |
| `Syspage.InitAllowed` | bsp/qnx800.bsp.hw.qc_qrb2210-arduino-imola/bsp/BSP_qc-qrb2210-arduino-imola_be-800/src/hardware/startup/lib/syspage_memory.c:92-124 | the calls of init_syspage_memory set both their sections between two sections |
| `Syspage.Syspage.Init` | bsp/qnx800.bsp.hw.qc_qrb2210-arduino-imola/bsp/BSP_qc-qrb2210-arduino-imola_be-800/src/hardware/startup/lib/syspage_memory.c:92-124 | the page after init_syspage_memory: a tiling with the two set sections behind the header and three grown ones, all in whole words |
| `Syspage.InitResult` | bsp/qnx800.bsp.hw.qc_qrb2210-arduino-imola/bsp/BSP_qc-qrb2210-arduino-imola_be-800/src/hardware/startup/lib/syspage_memory.c:92-124 | where each section is then, how long it is, and that it holds zeros: the header, callouts, the CPU's section, typed strings, strings, hardware information, and the empty ones |
| `Syspage.Syspage.Reloc` | bsp/qnx800.bsp.hw.qc_qrb2210-arduino-imola/bsp/BSP_qc-qrb2210-arduino-imola_be-800/src/hardware/startup/lib/syspage_memory.c:126-138 | the buffer, the sections and the owners at the new base |
| `Callouts.Output.SizeOne` | bsp/qnx800.bsp.hw.qc_qrb2210-arduino-imola/bsp/BSP_qc-qrb2210-arduino-imola_be-800/src/hardware/startup/lib/callouts.c:105-122 | one slot when sizing: code is counted, and a rw_size pointer seen first gets an area |
| `Callouts.Output.OutputSizing` | bsp/qnx800.bsp.hw.qc_qrb2210-arduino-imola/bsp/BSP_qc-qrb2210-arduino-imola_be-800/src/hardware/startup/lib/callouts.c:72-90 | the sizing pass: total code, and one area for each rw_size pointer in use, stacked without gaps |
| `Callouts.AreasDisjoint` | bsp/qnx800.bsp.hw.qc_qrb2210-arduino-imola/bsp/BSP_qc-qrb2210-arduino-imola_be-800/src/hardware/startup/lib/callouts.c:107-120 | different rw_size pointers have disjoint areas |
| `Callouts.AreaInside` | bsp/qnx800.bsp.hw.qc_qrb2210-arduino-imola/bsp/BSP_qc-qrb2210-arduino-imola_be-800/src/hardware/startup/lib/callouts.c:107-120 | every area lies below the size of all areas |
| `Callouts.CopiesDisjoint` | bsp/qnx800.bsp.hw.qc_qrb2210-arduino-imola/bsp/BSP_qc-qrb2210-arduino-imola_be-800/src/hardware/startup/lib/callouts.c:124-156 | the copies of different slots are disjoint, in the order of the slots, behind the common start |
| `Callouts.CopiesPacked` | bsp/qnx800.bsp.hw.qc_qrb2210-arduino-imola/bsp/BSP_qc-qrb2210-arduino-imola_be-800/src/hardware/startup/lib/callouts.c:124-156 | and without gaps |
| `Callouts.SpaceSuffices` | bsp/qnx800.bsp.hw.qc_qrb2210-arduino-imola/bsp/BSP_qc-qrb2210-arduino-imola_be-800/src/hardware/startup/lib/syspage_memory.c:158-161 | the space computed before the pages are allocated holds the routines, page aligned and above all areas, if at most four entries were added since |
| `Callouts.FifthEntry` | bsp/qnx800.bsp.hw.qc_qrb2210-arduino-imola/bsp/BSP_qc-qrb2210-arduino-imola_be-800/src/hardware/startup/lib/syspage_memory.c:158-161 | with a fifth entry there are sizes for which it does not |
| `Callouts.Output.WriteOne` | bsp/qnx800.bsp.hw.qc_qrb2210-arduino-imola/bsp/BSP_qc-qrb2210-arduino-imola_be-800/src/hardware/startup/lib/callouts.c:124-156 | one slot when writing: its code is copied behind the others, its patcher told where code, area and data are, and the slot made to point to the copy |
| `Callouts.CallsAreRight` | bsp/qnx800.bsp.hw.qc_qrb2210-arduino-imola/bsp/BSP_qc-qrb2210-arduino-imola_be-800/src/hardware/startup/lib/callouts.c:124-153 | each patched routine has one call, in the order of the slots: told the offset its slot points to, the data of the first owner registered for the slot, and an area of its pointer's size inside the read/write areas; routines with one pointer are told the same area, with two disjoint ones, and without a pointer the end of the page |
| `Callouts.Output.OutputWriting` | bsp/qnx800.bsp.hw.qc_qrb2210-arduino-imola/bsp/BSP_qc-qrb2210-arduino-imola_be-800/src/hardware/startup/lib/callouts.c:72-90 | the write pass: areas cleared, every routine copied to its own place, every slot pointing at its own copy, every patcher called with the right things, the rest of the page as before |
| `Callouts.Output.AllocSyspageMemory` | bsp/qnx800.bsp.hw.qc_qrb2210-arduino-imola/bsp/BSP_qc-qrb2210-arduino-imola_be-800/src/hardware/startup/lib/syspage_memory.c:140-203 | both passes and the space between them: all copies and areas fit below the per-cpu pages, and every patcher is told its own area |
| `BootArgs.Entry.DoAdjust` | bsp/qnx800.bsp.hw.qc_qrb2210-arduino-imola/bsp/BSP_qc-qrb2210-arduino-imola_be-800/src/hardware/startup/lib/bootstrap_cmdline.c:28-81 | the packed lists become the edited lists with the same bytes behind them, the size field agrees, and the result is 0 exactly if old is given and absent, when nothing changes |
| `BootArgs.Entry.FindEntry` | bsp/qnx800.bsp.hw.qc_qrb2210-arduino-imola/bsp/BSP_qc-qrb2210-arduino-imola_be-800/src/hardware/startup/lib/bootstrap_cmdline.c:39-56 | the scan finds the first occurrence, or the end of the list when adding |
| `BootArgs.Splice` | bsp/qnx800.bsp.hw.qc_qrb2210-arduino-imola/bsp/BSP_qc-qrb2210-arduino-imola_be-800/src/hardware/startup/lib/bootstrap_cmdline.c:70-76 | memmove and memcpy: the old string gives way to the new one and the data behind it moves, for growing and shrinking alike |
| `BootArgs.Entry.ArgAdjust` | bsp/qnx800.bsp.hw.qc_qrb2210-arduino-imola/bsp/BSP_qc-qrb2210-arduino-imola_be-800/src/hardware/startup/lib/bootstrap_cmdline.c:84-87 | the argument list is edited as a list, the environment is unchanged, the count agrees; with two NULL pointers the count drops and the string stays |
| `BootArgs.Entry.EnvAdjust` | bsp/qnx800.bsp.hw.qc_qrb2210-arduino-imola/bsp/BSP_qc-qrb2210-arduino-imola_be-800/src/hardware/startup/lib/bootstrap_cmdline.c:90-93 | the same for the environment |
| `BootArgs.TwoNullsInput` | bsp/qnx800.bsp.hw.qc_qrb2210-arduino-imola/bsp/BSP_qc-qrb2210-arduino-imola_be-800/src/hardware/startup/lib/bootstrap_cmdline.c:58-81 | one argument and two NULL pointers: the count is zero and the string is still there |
| `BootArgs.EditedLists` | bsp/qnx800.bsp.hw.qc_qrb2210-arduino-imola/bsp/BSP_qc-qrb2210-arduino-imola_be-800/src/hardware/startup/lib/bootstrap_cmdline.c:84-93 | an edit of one list leaves the other alone |
| `BootArgs.EditIs` | bsp/qnx800.bsp.hw.qc_qrb2210-arduino-imola/bsp/BSP_qc-qrb2210-arduino-imola_be-800/src/hardware/startup/lib/bootstrap_cmdline.c:39-67 | adding puts the string behind the others, deleting and replacing concern the first equal one, nothing else moves |
| `Texts.DecodeUnique` | bsp/qnx800.bsp.hw.qc_qrb2210-arduino-imola/bsp/BSP_qc-qrb2210-arduino-imola_be-800/src/hardware/startup/lib/bootstrap_cmdline.c:39-56 | the packed bytes and the counts determine the strings and the bytes behind them |
| `Texts.StrLen` | bsp/qnx800.bsp.hw.qc_qrb2210-arduino-imola/bsp/BSP_qc-qrb2210-arduino-imola_be-800/src/hardware/startup/lib/bootstrap_cmdline.c:41-45 | strlen of a packed string |
| `Texts.StrEqual` | bsp/qnx800.bsp.hw.qc_qrb2210-arduino-imola/bsp/BSP_qc-qrb2210-arduino-imola_be-800/src/hardware/startup/lib/bootstrap_cmdline.c:46-46 | strcmp against a packed string |
| `HwTags.WithTagWellFormed` | bsp/qnx800.bsp.hw.qc_qrb2210-arduino-imola/bsp/BSP_qc-qrb2210-arduino-imola_be-800/src/hardware/startup/lib/hwi_alloc.c:56-77 | a tag behind the list adds its words to the size of the last item only |
| `HwTags.WithItemWellFormed` | bsp/qnx800.bsp.hw.qc_qrb2210-arduino-imola/bsp/BSP_qc-qrb2210-arduino-imola_be-800/src/hardware/startup/lib/hwi_alloc.c:79-100 | an item adds a kid to its owner only, and begins with its own size |
| `HwTags.TagRepresents` | bsp/qnx800.bsp.hw.qc_qrb2210-arduino-imola/bsp/BSP_qc-qrb2210-arduino-imola_be-800/src/hardware/startup/lib/hwi_alloc.c:56-77 | the stores of hwi_alloc_tag do that to the section, whatever the alignment |
| `HwTags.ItemRepresents` | bsp/qnx800.bsp.hw.qc_qrb2210-arduino-imola/bsp/BSP_qc-qrb2210-arduino-imola_be-800/src/hardware/startup/lib/hwi_alloc.c:79-100 | the stores of hwi_alloc_item do that to the section, for every alignment that takes at most one pad |
| `HwTags.PadReaches` | bsp/qnx800.bsp.hw.qc_qrb2210-arduino-imola/bsp/BSP_qc-qrb2210-arduino-imola_be-800/src/hardware/startup/lib/hwi_alloc.c:46-54 | for every power of two: one pad reaches the alignment exactly if the gap is at most one word, which it is for alignments up to eight |
| `HwTags.RoundToIsRound` | bsp/qnx800.bsp.hw.qc_qrb2210-arduino-imola/bsp/BSP_qc-qrb2210-arduino-imola_be-800/src/hardware/startup/lib/hwi_alloc.c:50-50 | the gap is measured with the macro itself, power of two or not |
| `HwTags.GrowsInChunks` | bsp/qnx800.bsp.hw.qc_qrb2210-arduino-imola/bsp/BSP_qc-qrb2210-arduino-imola_be-800/src/hardware/startup/lib/hwi_alloc.c:61-68 | the section grows only where the tag does not fit, by whole chunks of 128 bytes |
| `HwTags.OnePadExactly` | bsp/qnx800.bsp.hw.qc_qrb2210-arduino-imola/bsp/BSP_qc-qrb2210-arduino-imola_be-800/src/hardware/startup/lib/hwi_alloc.c:46-54 | for every power of two no second pad is needed exactly if the gap is at most one word |
| `HwTags.WideAlignment` | bsp/qnx800.bsp.hw.qc_qrb2210-arduino-imola/bsp/BSP_qc-qrb2210-arduino-imola_be-800/src/hardware/startup/lib/hwi_alloc.c:79-92 | otherwise, for every owner: hwi_alloc_item pads twice, last_item points to the second pad, the item behind it has its prefix but no size, and the tags before are as they were but for the kid counted in the owner |
| `HwInfo.HwInfo.AlignTag` | bsp/qnx800.bsp.hw.qc_qrb2210-arduino-imola/bsp/BSP_qc-qrb2210-arduino-imola_be-800/src/hardware/startup/lib/hwi_alloc.c:46-54 | one pad or none |
| `HwInfo.HwInfo.AllocTag` | bsp/qnx800.bsp.hw.qc_qrb2210-arduino-imola/bsp/BSP_qc-qrb2210-arduino-imola_be-800/src/hardware/startup/lib/hwi_alloc.c:56-77 | the memory after the call, through its own recursion with align_tag |
| `HwInfo.HwInfo.AllocItem` | bsp/qnx800.bsp.hw.qc_qrb2210-arduino-imola/bsp/BSP_qc-qrb2210-arduino-imola_be-800/src/hardware/startup/lib/hwi_alloc.c:79-100 | the memory after the call, owner included |
| `HwInfo.WalkVisits` | bsp/qnx800.bsp.hw.qc_qrb2210-arduino-imola/bsp/BSP_qc-qrb2210-arduino-imola_be-800/src/hardware/startup/lib/hwi_alloc.c:70-76 | the walk by prefix.size from the start visits exactly the tags and pads, in order, and stops behind them |
| `HwInfo.EmptySection` | bsp/qnx800.bsp.hw.qc_qrb2210-arduino-imola/bsp/BSP_qc-qrb2210-arduino-imola_be-800/src/hardware/startup/lib/hwi_alloc.c:43-44 | the cleared section with offset and last_item zero shows the empty list, from which runs start |
| `HwRuns.StepShown` | bsp/qnx800.bsp.hw.qc_qrb2210-arduino-imola/bsp/BSP_qc-qrb2210-arduino-imola_be-800/src/hardware/startup/lib/hwi_alloc.c:46-100 | one allocation that takes no second pad: tags of any alignment, items with any owner |
| `HwRuns.RunWellFormed` | bsp/qnx800.bsp.hw.qc_qrb2210-arduino-imola/bsp/BSP_qc-qrb2210-arduino-imola_be-800/src/hardware/startup/lib/hwi_alloc.c:46-100 | after any run of allocations that begins with an item, and in which no item takes a second pad, the list is well formed: sizes are distances to the next item, kids are numbers of items with that owner, and the walk visits all of it. Tags may take any alignment |
| `HwRuns.RunKeepsAll` | bsp/qnx800.bsp.hw.qc_qrb2210-arduino-imola/bsp/BSP_qc-qrb2210-arduino-imola_be-800/src/hardware/startup/lib/hwi_alloc.c:46-100 | every tag and item of the run is in the list at its end, with its length, its names and its owner |
| `HwRuns.ItemExactly` | bsp/qnx800.bsp.hw.qc_qrb2210-arduino-imola/bsp/BSP_qc-qrb2210-arduino-imola_be-800/src/hardware/startup/lib/hwi_alloc.c:79-100 | from any list, for any alignment and owner: after hwi_alloc_item the section shows some list exactly if one pad reaches the alignment |
| `HwRuns.TornIsNoList` | bsp/qnx800.bsp.hw.qc_qrb2210-arduino-imola/bsp/BSP_qc-qrb2210-arduino-imola_be-800/src/hardware/startup/lib/hwi_alloc.c:79-100 | behind two pads the section shows no list at all: from the first item on the sizes lead to the second pad, which is no item |
| `HwRuns.StaysTorn` | bsp/qnx800.bsp.hw.qc_qrb2210-arduino-imola/bsp/BSP_qc-qrb2210-arduino-imola_be-800/src/hardware/startup/lib/hwi_alloc.c:46-100 | no later allocation of a tag or an item, whatever its alignment and owner, repairs that |
| `HwRuns.RunExactly` | bsp/qnx800.bsp.hw.qc_qrb2210-arduino-imola/bsp/BSP_qc-qrb2210-arduino-imola_be-800/src/hardware/startup/lib/hwi_alloc.c:46-100 | over runs of any length and any alignments: the section shows a list at the end exactly if no item took a second pad on the way |
| `HwRuns.WalkMissesTag` | bsp/qnx800.bsp.hw.qc_qrb2210-arduino-imola/bsp/BSP_qc-qrb2210-arduino-imola_be-800/src/hardware/startup/lib/hwi_alloc.c:56-92 | after an item with two pads the next tag is added to the prefix of the item, not to its size: the walk by prefix.size ends with the item and never comes to the tag, which lies below the offset |
| `HwRuns.MissedTagInput` | bsp/qnx800.bsp.hw.qc_qrb2210-arduino-imola/bsp/BSP_qc-qrb2210-arduino-imola_be-800/src/hardware/startup/lib/hwi_alloc.c:56-92 | a run of three calls from the empty section whose walk misses the tag at word 8 |
| `Strings.Table.AddString` | bsp/qnx800.bsp.hw.qc_qrb2210-arduino-imola/bsp/BSP_qc-qrb2210-arduino-imola_be-800/src/hardware/startup/lib/strings.c:90-113 | a known name gives its old offset and changes nothing, a new one is appended; the bytes behind the terminator stay zero; the section grows only where the name does not fit, by whole chunks of 128 bytes |
| `Strings.Interned` | bsp/qnx800.bsp.hw.qc_qrb2210-arduino-imola/bsp/BSP_qc-qrb2210-arduino-imola_be-800/src/hardware/startup/lib/strings.c:90-113 | over any run, for nonempty names: equal names get equal offsets and different names different ones |
| `Strings.InternedExactly` | bsp/qnx800.bsp.hw.qc_qrb2210-arduino-imola/bsp/BSP_qc-qrb2210-arduino-imola_be-800/src/hardware/startup/lib/strings.c:90-113 | over any run of any names: offsets agree exactly where names do, if and only if no empty name is followed by a name that is new at that point |
| `Strings.InternedReadBack` | bsp/qnx800.bsp.hw.qc_qrb2210-arduino-imola/bsp/BSP_qc-qrb2210-arduino-imola_be-800/src/hardware/startup/lib/hwi_alloc.c:31-35 | at the end of the run the offset of every nonempty name reads back as that name |
| `Strings.EmptyNameShared` | bsp/qnx800.bsp.hw.qc_qrb2210-arduino-imola/bsp/BSP_qc-qrb2210-arduino-imola_be-800/src/hardware/startup/lib/strings.c:101-112 | the offset given for the empty name is given again for the next new name, in every run |
| `Strings.EmptyThenNew` | bsp/qnx800.bsp.hw.qc_qrb2210-arduino-imola/bsp/BSP_qc-qrb2210-arduino-imola_be-800/src/hardware/startup/lib/strings.c:101-112 | the shortest such run, from the empty table |
| `TypedStrings.Table.FindTyped` | bsp/qnx800.bsp.hw.qc_qrb2210-arduino-imola/bsp/BSP_qc-qrb2210-arduino-imola_be-800/src/hardware/startup/lib/strings.c:28-43 | the offset of the entry of the type, the end for the type that ends the list, or -1 |
| `TypedStrings.Lookup` | bsp/qnx800.bsp.hw.qc_qrb2210-arduino-imola/bsp/BSP_qc-qrb2210-arduino-imola_be-800/src/hardware/startup/lib/strings.c:28-43 | what is found is the string the map has for the type, if it has one |
| `TypedStrings.Table.Del` | bsp/qnx800.bsp.hw.qc_qrb2210-arduino-imola/bsp/BSP_qc-qrb2210-arduino-imola_be-800/src/hardware/startup/lib/strings.c:45-66 | the section packs the other entries, zeros behind them |
| `TypedStrings.WithoutMap` | bsp/qnx800.bsp.hw.qc_qrb2210-arduino-imola/bsp/BSP_qc-qrb2210-arduino-imola_be-800/src/hardware/startup/lib/strings.c:45-66 | the map loses the type and nothing else |
| `TypedStrings.Table.Add` | bsp/qnx800.bsp.hw.qc_qrb2210-arduino-imola/bsp/BSP_qc-qrb2210-arduino-imola_be-800/src/hardware/startup/lib/strings.c:68-88 | the map has the string for the type, and is otherwise the same; the offset of the entry is returned; the section grows only where the entry does not fit, by whole words |
| `Timer.LongDivision` | bsp/qnx800.bsp.hw.qc_qrb2210-arduino-imola/bsp/BSP_qc-qrb2210-arduino-imola_be-800/src/hardware/startup/lib/invert_timer_freq.c:55-63 | the loop ends, no step leaves 32 bits, and the period is floor(10^k / f) for the first k where the division comes out even or the period reaches UINT_MAX/10 - 10 |
| `Timer.StopsInTime` | bsp/qnx800.bsp.hw.qc_qrb2210-arduino-imola/bsp/BSP_qc-qrb2210-arduino-imola_be-800/src/hardware/startup/lib/invert_timer_freq.c:55-63 | that is so for some k of at most 18 |
| `Timer.Qtime.InvertTimerFreq` | bsp/qnx800.bsp.hw.qc_qrb2210-arduino-imola/bsp/BSP_qc-qrb2210-arduino-imola_be-800/src/hardware/startup/lib/invert_timer_freq.c:35-66 | period and scale for every 32-bit frequency, the period at least 429496719 where the division does not come out even; it crashes exactly for zero |
| `Timer.Precision` | bsp/qnx800.bsp.hw.qc_qrb2210-arduino-imola/bsp/BSP_qc-qrb2210-arduino-imola_be-800/src/hardware/startup/lib/invert_timer_freq.c:55-63 | so what the division leaves out is less than a part in 429496719 |
| `Timer.PeriodError` | bsp/qnx800.bsp.hw.qc_qrb2210-arduino-imola/bsp/BSP_qc-qrb2210-arduino-imola_be-800/src/hardware/startup/lib/invert_timer_freq.c:49-53 | how far period * frequency is from the power of ten, the dropped digit of large frequencies included |
| `Timer.ProductFits` | bsp/qnx800.bsp.hw.qc_qrb2210-arduino-imola/bsp/BSP_qc-qrb2210-arduino-imola_be-800/src/hardware/startup/lib/timer_tick2ns.c:39-43 | dividing the 64-bit product again shows exactly whether it has overflowed |
| `Timer.ScaleFits` | bsp/qnx800.bsp.hw.qc_qrb2210-arduino-imola/bsp/BSP_qc-qrb2210-arduino-imola_be-800/src/hardware/startup/lib/timer_tick2ns.c:37-49 | where the first product fits the result is the exact quotient, rounded down, or a division by zero |
| `Timer.DropsLeast` | bsp/qnx800.bsp.hw.qc_qrb2210-arduino-imola/bsp/BSP_qc-qrb2210-arduino-imola_be-800/src/hardware/startup/lib/timer_tick2ns.c:39-43 | Drops is the least number of digits of the period to drop before the product fits |
| `Timer.ScaleExactly` | bsp/qnx800.bsp.hw.qc_qrb2210-arduino-imola/bsp/BSP_qc-qrb2210-arduino-imola_be-800/src/hardware/startup/lib/timer_tick2ns.c:37-49 | the first loop for every period and every 64-bit tick count, overflowing products included: it divides by zero exactly if the period has no more than `power` digits and the product that first fits is below the power of ten left; otherwise its result is the quotient of that product |
| `Timer.TwoGigahertz` | bsp/qnx800.bsp.hw.qc_qrb2210-arduino-imola/bsp/BSP_qc-qrb2210-arduino-imola_be-800/src/hardware/startup/lib/timer_tick2ns.c:37-49 | for 2 GHz the period is 5 and the power one: timer_tick2ns divides by zero exactly for less than two ticks and for all that make the product overflow |
| `Timer.ScaleBounds` | bsp/qnx800.bsp.hw.qc_qrb2210-arduino-imola/bsp/BSP_qc-qrb2210-arduino-imola_be-800/src/hardware/startup/lib/timer_tick2ns.c:37-49 | with a period of digits enough and an exact result of 64 bits: never more than the exact quotient, and short of it by no more than ticks |
| `Timer.Qtime.Tick2Ns` | bsp/qnx800.bsp.hw.qc_qrb2210-arduino-imola/bsp/BSP_qc-qrb2210-arduino-imola_be-800/src/hardware/startup/lib/timer_tick2ns.c:28-55 | the loops of timer_tick2ns, both signs of power |
| `Numbers.FillBackwards` | bsp/qnx800.bsp.hw.qc_qrb2210-arduino-imola/bsp/BSP_qc-qrb2210-arduino-imola_be-800/src/hardware/startup/lib/ultoa_end.c:30-34 | the digit loop of both printers |
| `Numbers.UltoaEnd` | bsp/qnx800.bsp.hw.qc_qrb2210-arduino-imola/bsp/BSP_qc-qrb2210-arduino-imola_be-800/src/hardware/startup/lib/ultoa_end.c:25-40 | the digits of v and a NUL; the end of the digits is returned; 33 bytes suffice from radix 4 on |
| `Numbers.StrToPaddr` | bsp/qnx800.bsp.hw.qc_qrb2210-arduino-imola/bsp/BSP_qc-qrb2210-arduino-imola_be-800/src/hardware/startup/lib/strtoul.c:45-71 | value modulo 2^64 and end pointer, prefixes and base 0 included |
| `Numbers.RoundTrip` | bsp/qnx800.bsp.hw.qc_qrb2210-arduino-imola/bsp/BSP_qc-qrb2210-arduino-imola_be-800/src/hardware/startup/lib/strtoul.c:45-71 | what is printed in radix 2 to 16 is read back in that radix, stopping at the end of the digits, exactly unless a hexadecimal zero is followed by x or X |
| `Numbers.HexZeroInput` | bsp/qnx800.bsp.hw.qc_qrb2210-arduino-imola/bsp/BSP_qc-qrb2210-arduino-imola_be-800/src/hardware/startup/lib/strtoul.c:56-69 | the zero of 0x: no digit is read, and the end pointer goes back to the start |
| `Numbers.HexFromText` | bsp/qnx800.bsp.hw.qc_qrb2210-arduino-imola/bsp/BSP_qc-qrb2210-arduino-imola_be-800/src/hardware/startup/lib/strtoul.c:50-60 | with base zero a text behind 0x or 0X is read in base 16, as with base 16 itself |
| `Numbers.OctalFromText` | bsp/qnx800.bsp.hw.qc_qrb2210-arduino-imola/bsp/BSP_qc-qrb2210-arduino-imola_be-800/src/hardware/startup/lib/strtoul.c:50-60 | behind a zero in base 8 |
| `Numbers.DecimalFromText` | bsp/qnx800.bsp.hw.qc_qrb2210-arduino-imola/bsp/BSP_qc-qrb2210-arduino-imola_be-800/src/hardware/startup/lib/strtoul.c:50-60 | and otherwise in base 10 |
| `Numbers.ParsedUpper` | bsp/qnx800.bsp.hw.qc_qrb2210-arduino-imola/bsp/BSP_qc-qrb2210-arduino-imola_be-800/src/hardware/startup/lib/strtoul.c:34-41 | small and capital letters are read alike |
| `Numbers.Console.PrintNumber` | bsp/qnx800.bsp.hw.qc_qrb2210-arduino-imola/bsp/BSP_qc-qrb2210-arduino-imola_be-800/src/hardware/startup/lib/kprintf.c:103-115 | vmsg prints a number with the padding of its conversion |
| `Numbers.PrintedForm` | bsp/qnx800.bsp.hw.qc_qrb2210-arduino-imola/bsp/BSP_qc-qrb2210-arduino-imola_be-800/src/hardware/startup/lib/kprintf.c:51-115 | %d and %u print decimal digits without zeros in front; all others print hexadecimal digits, two for each byte of the argument |
| `Numbers.PrintedRoundTrip` | bsp/qnx800.bsp.hw.qc_qrb2210-arduino-imola/bsp/BSP_qc-qrb2210-arduino-imola_be-800/src/hardware/startup/lib/kprintf.c:51-115 | what vmsg prints for a number is read back in the same radix |

## Left out

- RamSearch.FindRam: colour, mask and a nonzero range_start, which find_ram never passes; and no claim about blocks in the fragments of an entry that fix_size drops (what it keeps is all that RamFit.LeastFit speaks of).
- RamRuns.StepSafe: memory that is added again while a search has handed out part of it, which no allocator can make safe; alloc_ram at an address the caller names is taken as the caller's own business.
- BootRam.BootRam.AllocRam: zeroing on a secure system (secure_system is 0).
- BootRam.BootRam.AddRam: the watchers, init_asinfo, and moving the temporary system page, which is ArenaRuns.Relocate; memory reserved for the CPU, which this CPU does not define.
- BootRam.BootRam.ReserveRam: after add_sysram the name is promised if every sysram entry lies inside the entry that owns it, as add_sysram leaves them and alloc_ram keeps them, and if it is not "sysram" itself.
- BootRam.BootRam.AvoidRam: an avoided range that ends at address zero, which would end the list early; ranges are taken to lie below 2^48.
- AddressSpace.AddressSpace.Add: entries are taken by number instead of byte offset, priorities are constant, and the crash of a full system page while an entry is appended is not passed on.
- AddressSpace.AddressSpace.AddContaining: running out of stack in ALLOCA, and the linked list of pieces, which is a sequence here.
- EfiRam.InitRaminfo: descriptors of zero pages, ranges that overlap and ranges above 2^48; efi_walk_map is the order of the array.
- PageTables.PageTables.Map: the bits set_pte chooses for each protection are a parameter, because aarch64/mmu.h is not part of this model; mapped ranges avoid the slots of the self map, and their physical end lies below 2^48; what has been written when it crashes is not said.
- PageTables.MapInit: the per-cpu L0 tables and their mapping.
- PageTables.PageTables.CopyMemory: startup_memory_map windows; copying is one slice copy. Table pages and other memory are kept apart, so a store into a table page through physical memory is not seen by the walk.
- ElfLoader.LoadSegment: when calloc_ram finds no memory the loader goes on with an unusable address; the model stops with Crash. A segment of no bytes at all without a physical address asks calloc_ram for nothing and is not modelled.
- ElfLoader.Loader.LoadElf64mmu: the check of the file header, the path without virtual addresses, BOOTSTRAPS_RUN_ONE_TO_ONE, and load_elf32, a near copy.
- Syspage.Syspage.Grow: total_size + add is taken not to exceed 32 bits, and fields of the header that live in the page (total_size, size, versions, element sizes) are kept apart from its bytes.
- Syspage.Syspage.Reloc: a new place that overlaps the old one.
- Syspage.Syspage.Init: hwi_default, which is a run of HwInfo allocations.
- Callouts.Output.AllocSyspageMemory: the offset tables of the header, the contents of the per-cpu pages, the virtual mapping of the pages, and what patchers change in the copies; a slot is visited once in each pass and the slots do not change in between.
- BootArgs.Entry.DoAdjust: sizes of 64K and more; the memory in front of the strings is at least as long as the new string, because growing moves bytes in front of the edit along; counts are taken to be those of the lists.
- HwInfo.HwInfo.AllocTag: an alignment of zero; 16-bit truncation of sizes and name offsets; the bodies of tags, which callers fill; structure sizes are those of a prefix of 4 bytes, a pad of 4 bytes aligned to 4 and an item of 12 bytes, because the header that has them is not part of this model; tag offsets are counted in words.
- hwi_grow_tag, whose parameter hides the file's offset.
- Strings.Table.AddString: the crash of a full system page; the section is modelled by itself, with growth as ArenaRuns.Extend states it.
- TypedStrings.Table.Add: types are nonzero; adding or deleting the type that ends the list is not modelled.
- Timer.Qtime.Tick2Ns: the scale and the period are read as they are; only the two loops are modelled.
- Numbers.UltoaEnd: radix 2 and 3, whose digits do not fit the buffer.
- Numbers.StrToPaddr: bases above 37, for which every character is a digit.
- Numbers.Console.PrintNumber: scanning of the format string, and arguments wider than their conversion.
- Register-level code, firmware calls, device tree and ACPI access, secondary CPUs, decompression, option parsing and system page printing.
