# Verified models of coreboot's allocator, memtest86+ and the sortbootorder flash drivers

This project states in Dafny what six independent parts of the repository do and proves what they are
for. Every model follows the branches, constants and error conditions of the code it names; code that
works in place is a method on arrays or objects, proved against a function whose own properties are the
lemmas below. `dafny verify dfyconfig.toml` checks everything.

**Resource allocation** (`src/device/device.c`, `src/device/device_util.c`). `Selection` is the
stateless "next after last" search; `Windows` states both passes on trees of values with 64-bit
wrap-around; `Devices` and `Allocator` are the passes themselves on mutable resource objects, and
`Listing` says which resources a pass is about. `Layout` proves that the size promised by pass 1 is
enough for pass 2 at any depth, `Placement` reads that off for paths in the tree, `Packing` proves the
packing optimal and I/O bases alias free. `Constraints` and `AvoidFixed` add the fixed resources and end
in a statement about a domain's memory windows, `IoWindow` has the one about its I/O window, whose base
need not be aligned, and `Configure` runs the sequences of `dev_configure` on the objects.

**The SMP barrier and spin lock** (`smp.c`, `smp.h`). `SpinLock` and `Barrier` are transition systems for
any number of processors in which every load, store and locked instruction is a step of its own. All
statements are about every schedule. The lock's byte is signed and wraps; the exact number of processors
it serves is proved.

**The memory map and BadRAM patterns** (`memsize.c`, `patn.c`). `E820`, `ChangePoints`, `Sanitize` and
`SanitizedMap` are `sanitize_e820_map`: lists of change points, the bubble sort, the sweep with its
unordered overlap list, and what the result means. `Cubes`, `BadRam` and `PatternTable` are the table of
at most ten address/mask patterns; `PatternOrigins` says what a run makes of the patterns before it, and
`PatternLoss` has the tables on which it loses addresses. Words are lists of bits there, lowest first.

**Memory tests and windows** (`test.c`, `main.c`, `vmem.c`). `Shifting`, `MovInv` and `MovInvTest` are
test 8 on memory that returns what was written, and `Shares` is how processors divide a segment;
`Rotation`, `BlockMove`, `BlockWords` and `BlockMoveTest` are test 7, down to the value of every word;
`VirtualMemory` and `TestWindows` are the 2 GB windows and the page tables behind them. Loop counters
follow the assembly, not the commented C beside it.

**Checksums and self-relocation** (`compute_ip_checksum.c`, `linuxbios.c`, `reloc.c`). `Checksum` is the
Internet checksum of section 2 of RFC 1071, bytewise, word-wise and combined. `Reloc` and `Loader` are
the relocation of memtest86+ by itself, on the bytes of its image modulo 2^32, against the formulas of
the System V ABI, Intel386 supplement, chapter 4, "Relocation". The host is little-endian.

**Bus numbering and flash writing** (`pci_device.c`, the sortbootorder drivers). `BusNumbers` and
`BusScan` are the recursive numbering with the history of every register write. `FlashChip` is a chip
that wraps inside pages, clears its write-enable latch, increments word addresses and ignores commands
while busy, on a bus that can fail at any transfer; `FlashDrivers` are the writers and the erase. `Powers`
and `Wrappers` are the arithmetic and the option type that several modules share.

Where the code does less than its documentation says, or its comments say something else, the model
follows the code:

- The VGA test in both allocator loops follows a test that already excludes its addresses.
- `relocateidx` says it never selects its own slot; it can when the mask has fewer than two set bits, and the
  pattern is then dropped.
- `relocateiffree` goes on with the number of a slot that it may just have moved, and then loses patterns.
- `sanitize_e820_map` loses memory behind an entry of size 0.
- `movinv32` and `calculate_chunk` disagree: chunks are multiples of 16 words, the walking pattern needs 32.
- `calculate_chunk` says it rounds down; it rounds up, and many processors then run past the end of a short
  segment.
- `ip_compute_csum` treats an odd start address as if it did not shift the following words.
- `R_386_32` and `R_386_PC32` add the symbol again whenever the last load address was 0.
- `constrain_resources` can wrap a limit below 0, and `dev_configure` ignores the base it computed for
  memory windows.

## Model

| member | source | states |
|---|---|---|
| `Selection.NextIsSuccessor` | src/device/device.c:238-286 | One call of largest_resource returns the least candidate after the last one in the order (alignment descending, size descending, list order), or none when there is none. |
| `Selection.OrderIsSortedPermutation` | src/device/device.c:238-286 | Calling it repeatedly visits every non-fixed matching resource exactly once, sorted, and then stops. |
| `Allocator.LargestResource` | src/device/device.c:269-286 | The walk over the bus with the callback names the resource of that specification, on mutable resource objects. |
| `Allocator.PickLargestResource` | src/device/device.c:238-267 | The callback, as one step of the specified search. |
| `Listing.BusIsListed` | src/device/device_util.c:703-738 | What a pass for a type under a mask is about, said of flags, devices and links alone: exactly the resources of the bus whose flags agree with the type on the mask, each once, in device and list order; a window is a bridge resource of a device with links, and behind it are those of its link for the mask with PREFETCH and the bridge's own PREFETCH, and so on down. |
| `Addresses.RoundExact` | src/device/device.c:185-192 | The wrapping 64-bit round() is the least multiple of 2^pow not below the value, whenever that multiple is a 64-bit number. |
| `Addresses.RoundUpLeast` | src/device/device.c:185-192 | The specified round-up is the least such multiple. |
| `Layout.SkipLegacyExact` | src/device/device.c:407-423 | The VGA branch of the I/O skip can never be taken after the 0x300 test. |
| `Layout.SkipLeast` | src/device/device.c:407-423 | The I/O skip goes to the first address at or above the base whose bits 8 and 9 are clear, and no further. |
| `Allocator.ComputeResources` | src/device/device.c:321-453 | Pass 1 in place leaves exactly the tree of the specification, for every tree of distinct resources and every 64-bit value. |
| `Allocator.AllocateResources` | src/device/device.c:469-612 | Pass 2 in place leaves exactly the tree of the specification. |
| `Layout.SizeExact` | src/device/device.c:436-446 | The size stored in a bridge window is the rounded end of the walk less the rounded start. |
| `Layout.ComputeLoopLimit` | src/device/device.c:390-397 | Pass 1 lowers a window's limit no further than to the limit of a resource behind it that needs space. |
| `Layout.WindowMoves` | src/device/device.c:490-571 | Behind a granted window every resource ends at its pass 1 offset from the window base. |
| `Layout.TwoPassAgreement` | src/device/device.c:288-314 | The central promise of the two passes: if no 64-bit sum of pass 1 wraps and the computed size is granted at an aligned base within the limit, pass 2 places every nonzero resource at every depth, at its pass 1 offset. Any base in pass 1; I/O windows need 1 KiB alignment. |
| `Placement.PlacedBelow` | src/device/device.c:493-571 | After both passes a resource at any depth is aligned, assigned, within its limit and inside the topmost window. |
| `Placement.EnclosingWindows` | src/device/device.c:493-571 | It lies inside every window on the path above it. |
| `Placement.UnrelatedAreApart` | src/device/device.c:288-294 | Two resources of which neither is a window around the other never overlap. |
| `Placement.ResourceMaxIsGreatest` | src/device/device_util.c:640-647 | resource_max is the greatest aligned base at which the resource ends within its limit. |
| `Placement.MemoryWindowSucceeds` | src/device/device.c:1067-1099 | For every memory window of a domain, computed size at most the space below the limit is enough for all of it to be placed. |
| `Configure.ConfigureMemoryWindow` | src/device/device.c:1030-1099 | The sequence pass 1, limit, resource_max, pass 2 on the objects ends in that placement. |
| `Configure.ConfigureIoWindow` | src/device/device.c:745-749 | The sequence pass 1, base raised and limit lowered, pass 2 on the objects, for an I/O window. |
| `Packing.WalkIsGapFree` | src/device/device.c:303-306 | From an aligned base, the walk by descending alignment over resources sized to their alignment leaves no gap. |
| `Packing.WindowIsGapFree` | src/device/device.c:303-306 | Such a window computed from base 0 is exactly the sum of the sizes rounded up to the granularity: the packing is optimal. |
| `Packing.IoIsAliasFree` | src/device/device.c:407-427 | Every I/O resource of PCI shape gets a base with the alias bits 0x300 clear in pass 1. |
| `Packing.IoStaysAliasFree` | src/device/device.c:504-531 | And keeps them clear in pass 2. |
| `Constraints.ConstrainResources` | src/device/device.c:629-687 | The recursive walk over the enabled tree cuts each kind's range by its fixed resources, in walk order. |
| `Constraints.ListedExactly` | src/device/device.c:679-686 | The walk comes to a resource if and only if its device is reached on a path of links and enabled devices. |
| `Constraints.KindCases` | src/device/device.c:649-657 | Which range each combination of flags concerns, for either value of MEM_MASK. |
| `Constraints.ConstrainSides` | src/device/device.c:659-676 | Which part of the range is left, on its bounds: all of it when the resource is empty or outside, else the part above the resource if and only if the signed distance up to the limit is the larger one, and else the part below. |
| `Constraints.LargerPartIsKept` | src/device/device.c:667-676 | Around a resource inside a range of less than half the address space the larger part is kept, whole; on a tie the lower one. |
| `Constraints.ConstrainExactly` | src/device/device.c:656-676 | One fixed resource: what is left lies in the old range and avoids the resource if and only if the new bound does not wrap around 64 bits. |
| `Constraints.AllAvoided` | src/device/device.c:629-687 | When no step wraps, the final range avoids every fixed resource. |
| `Constraints.CoveredRegionIsFreed` | src/device/device.c:656-676 | Where it goes wrong: a fixed resource at address 0 that covers the whole range turns it into the whole address space. |
| `AvoidFixed.AvoidFixedResources` | src/device/device.c:689-751 | In place: the ranges begin at 0 and at the lowest limit among the domain's windows of each kind, the whole tree of fixed resources cuts them, and each window is narrowed to its range; nothing else of it changes. |
| `AvoidFixed.RegionCases` | src/device/device.c:729-740 | Which range narrows a window, flag by flag; a fixed resource is no window. |
| `AvoidFixed.NarrowedAvoids` | src/device/device.c:745-749 | So when no cut wraps, no address of a narrowed window is one of a fixed resource of its kind. |
| `Constraints.WindowInRegion` | src/device/device.c:1043-1057 | resource_max stays inside the range if and only if the window fits above the range's base; the code does not check it. |
| `Constraints.DomainAvoidsFixed` | src/device/device.c:1003-1099 | End to end: no resource of a domain's memory window overlaps a fixed resource of its kind, when nothing wraps and the size fits the range that is left. |
| `Constraints.InnerIsClean` | src/device/device.c:656-676 | Nothing wraps when no fixed resource starts at address 0 or ends at the end of the address space. |
| `Constraints.DomainAvoidsInner` | src/device/device.c:1003-1099 | So the end-to-end statement holds for all such fixed resources, when the size fits the range that is left. |
| `IoWindow.WalkAssignsExactly` | src/device/device.c:493-571 | The walk of pass 2 behind an I/O window of a domain, from any base, aligned or not: it assigns every resource if and only if its unwrapped end is within the limit, or nothing needs space. |
| `IoWindow.StepRefuses` | src/device/device.c:531-571 | A resource that does not fit keeps its base and its marks; only its limit comes down to the bridge's, and the running base moves by the legacy skip at most. |
| `IoWindow.RefusedTakesNoRoom` | src/device/device.c:493-571 | Every resource behind a refused one ends exactly as if that one were not there, so a smaller one can still be placed. |
| `IoWindow.IoWindowSucceeds` | src/device/device.c:1067-1099 | Then both passes place everything behind the window at every depth, aligned, apart and within base and limit. |
| `IoWindow.RoomAbove` | src/device/device.c:745-749 | It is enough that the computed size fits above the raised base rounded up to the alignment and to 1 KiB. |
| `IoWindow.DomainIoAvoidsFixed` | src/device/device.c:1003-1099 | End to end for I/O: with room above the raised base nothing placed at any depth meets a fixed I/O resource, when no cut wraps. |
| `SpinLock.LockIsSafe` | payloads/memtest86+/smp.h:340-363 | For every interleaving of up to 129 processors: at most one holds the lock, the byte is 1 minus the decrements since the last unlock and never below 1 - N. |
| `SpinLock.LockWraps` | payloads/memtest86+/smp.h:340-363 | With 130 or more the signed byte wraps and two processors hold the lock. |
| `SpinLock.MutualExclusionExactly` | payloads/memtest86+/smp.h:321-363 | Mutual exclusion holds on every run if and only if there are at most 129 processors. |
| `Barrier.InvStep` | payloads/memtest86+/smp.c:55-77 | Every single load, store or locked instruction keeps the episode invariant; the episode advances by at most one. |
| `Barrier.BarrierIsSafe` | payloads/memtest86+/smp.c:55-77 | For every interleaving of N processors, N from 2 to 129 (MAX_CPUS is 32), nobody leaves its k-th barrier before all have entered their k-th; completed counts differ by at most one. |
| `Barrier.GatesServeOneEpisode` | payloads/memtest86+/smp.c:60-75 | No processor of one episode passes a gate of another. |
| `Barrier.BarrierIsReusable` | payloads/memtest86+/smp.c:34-77 | When nobody is inside, lock, counter and gates are as barrier_init left them. |
| `Barrier.BarrierNeverDeadlocks` | payloads/memtest86+/smp.c:55-77 | In every reachable state with callers inside, one of them can take a step that is not a failed poll, unless all wait for one that has not called. |
| `Barrier.FairSchedulesComplete` | payloads/memtest86+/smp.c:55-77 | Liveness under fairness: from every reachable state, every schedule that contains 26 N (k + 2) rounds, each stepping every processor at least once, lets every processor complete k more barriers. |
| `Barrier.BarrierNeverWedges` | payloads/memtest86+/smp.c:55-77 | From every reachable state some continuation lets everybody complete any number of barriers. |
| `Barrier.OneProcessorWedges` | payloads/memtest86+/smp.c:57-59 | The body with a single participant lets it through at most once, hence the early return. |
| `ChangePoints.SwapRemovesInversion` | payloads/memtest86+/memsize.c:281-293 | A swap of neighbours in the wrong order removes exactly one inversion, under the source's order on ties. |
| `ChangePoints.SortPoints` | payloads/memtest86+/memsize.c:277-295 | The bubble sort terminates with a sorted permutation. |
| `Sanitize.SweptStep` | payloads/memtest86+/memsize.c:304-344 | One change point keeps the sweep's map right below the point. |
| `Sanitize.SanitizeE820Map` | payloads/memtest86+/memsize.c:199-347 | 0 when an entry overflows; otherwise a canonical map (sorted, disjoint, no empty entry, no abutting equal types) that gives each address below the cut the greatest type that reaches it. For maps of at most 127 entries that at no address need more than the 127 places of the overlap list. |
| `SanitizedMap.MeaningPreservedExactly` | payloads/memtest86+/memsize.c:199-347 | The new map gives every address the greatest type covering it in the old one if and only if no empty entry disturbs an address below the cut and nothing is covered above it. |
| `SanitizedMap.MeaningPreserved` | payloads/memtest86+/memsize.c:199-240 | In particular for every map without empty entries. |
| `SanitizedMap.FullMapIsRightBelow` | payloads/memtest86+/memsize.c:333-335 | A map that filled up is right as far as it goes. |
| `SanitizedMap.EmptyEntryLosesMemory` | payloads/memtest86+/memsize.c:306-311 | An entry of size 0, both of whose change points count as starts, makes usable memory disappear. |
| `SanitizedMap.SanitizeIsIdempotent` | payloads/memtest86+/memsize.c:199-347 | Sanitizing the result again changes nothing. |
| `E820.CanonicalUnique` | payloads/memtest86+/memsize.c:199-240 | A canonical map is determined by its meaning. |
| `Cubes.CombineIsLeast` | payloads/memtest86+/patn.c:35-46 | combine() gives the least address/mask pattern that holds both arguments. |
| `Cubes.CubeSize` | payloads/memtest86+/patn.c:48-60 | A pattern holds 2^k addresses for k clear mask bits, counted as a set. |
| `Cubes.CountAddresses` | payloads/memtest86+/patn.c:50-60 | The doubling loop computes that number modulo 2^32. |
| `Cubes.CombiCostIsExact` | payloads/memtest86+/patn.c:65-70 | combicost() is exactly the number of addresses gained, although addresses() wraps to 0 at mask 0. |
| `Cubes.FreeMeansWithin` | payloads/memtest86+/patn.c:65-70 | It is 0 if and only if the second pattern lies in the first. |
| `BadRam.CheapIndexIsCheapest` | payloads/memtest86+/patn.c:75-86 | cheapindex() finds a cheapest slot below the bound, or none exists. |
| `BadRam.CheapIndexExactly` | payloads/memtest86+/patn.c:75-86 | It returns slot k if and only if k is below the bound, none is cheaper, and none with a higher number is as cheap. |
| `BadRam.InsertReturnsZeroIffHeld` | payloads/memtest86+/patn.c:125-127 | insertaddress() returns 0, changing nothing, if and only if one pattern already holds the whole longword. |
| `BadRam.InsertEnters` | payloads/memtest86+/patn.c:129-144 | Where a new longword goes: into a slot of its own while there is room; in a full table into the one slot k whose least pattern with it gains the fewest addresses, fewer than any slot after it, and no other slot changes. Relocation starts from there. |
| `BadRam.RelocatesExactly` | payloads/memtest86+/patn.c:91-99 | The relocation of a pattern whose mask has two or more bits set selects slot k if and only if k gains least by taking it in, counted in addresses, and less than every slot after it. |
| `PatternOrigins.InsertKeepsAllExactly` | payloads/memtest86+/patn.c:125-144 | insertaddress() covers the new word and keeps everything covered if and only if one pattern held the word already, or what the orphaned slots stood for before the run lies in the joins of the groups; nothing of the resulting table is asked. |
| `BadRam.InsertKeepsOrDrops` | payloads/memtest86+/patn.c:125-144 | For every table and address: whatever is lost, of the table or of the new word, was covered by a pattern that a merge of the run dropped. |
| `BadRam.InsertCoverageExactly` | payloads/memtest86+/patn.c:125-144 | No table on the way covers less than the one before it if and only if at every merge the slots that stay cover what is dropped; and then the new word and everything covered before are covered in the end. |
| `BadRam.InsertCovers` | payloads/memtest86+/patn.c:125-144 | Otherwise the new word is covered and everything covered stays so, with at most ten patterns, when every merge of relocateiffree() goes into another slot that is not the last. |
| `BadRam.RelocateKeepsCoverage` | payloads/memtest86+/patn.c:105-120 | relocateiffree() keeps coverage on such runs. |
| `BadRam.StepExactly` | payloads/memtest86+/patn.c:101-120 | One merge: afterwards an address is covered if and only if a slot other than the one given up covers it, the slot merged into counting with what it took in. |
| `BadRam.RunKeepsOrDrops` | payloads/memtest86+/patn.c:105-120 | Whatever the run of relocateiffree(), an address that is lost was covered by a pattern it dropped; the dropped patterns are a function of the table. |
| `BadRam.RunCoverageExactly` | payloads/memtest86+/patn.c:105-120 | No table of the run covers less than the one before it if and only if at every merge the slots that stay cover the dropped pattern; and then the run keeps everything. |
| `PatternOrigins.RunCovers` | payloads/memtest86+/patn.c:105-120 | After any run an address is covered if and only if it lies in the join of a group of the patterns before the run, on each bit admitted by one of the group; the groups follow the slots through the merges. |
| `PatternOrigins.RunKeepsAllExactly` | payloads/memtest86+/patn.c:105-120 | A run keeps everything covered in the end, recovered or not, if and only if the joins of the groups hold the patterns that are in no group. |
| `BadRam.DropsNothingExactly` | payloads/memtest86+/patn.c:105-120 | A run drops nothing if and only if every merge of it goes into another slot that is not the last. |
| `BadRam.MergeIntoLastDrops` | payloads/memtest86+/patn.c:105-120 | A merge of a slot in use into the last slot, another one, is followed by a second merge that drops the then last pattern; the two keep coverage if and only if the patterns below the last, in the table between the two, cover what that one held. |
| `BadRam.MergeIsFree` | payloads/memtest86+/patn.c:101-120 | A merge into another slot that is not the last never increases the total number of addresses of the table. |
| `BadRam.SelectsItselfExactly` | payloads/memtest86+/patn.c:91-99 | relocateidx() selects the slot it hides if and only if the slot is in use, its mask has fewer than two set bits, every lower slot costs at least as much and every higher one more. |
| `BadRam.OnlyPatternSelectsItself` | payloads/memtest86+/patn.c:91-99 | For a table of one pattern: if and only if its mask has fewer than two set bits. |
| `BadRam.SelfMergeDrops` | payloads/memtest86+/patn.c:101-120 | Merging a slot into itself keeps exactly the addresses that another pattern covers. |
| `PatternLoss.SelfMergeLosesNewWord` | payloads/memtest86+/patn.c:125-144 | In a full table of ten longwords far apart, inserting address 0 reports a change, and neither it nor the tenth longword is covered afterwards. |
| `PatternLoss.ReachableLoss` | payloads/memtest86+/patn.c:125-144 | Such a table is reached from an empty one by ten insertions; the eleventh address is lost. |
| `PatternLoss.InsertCanLoseEverything` | payloads/memtest86+/patn.c:114-118 | Inserting 4 into {0}, {8,c} empties the table, because line 118 goes on with a slot that has been moved. |
| `PatternLoss.ReachableEmpty` | payloads/memtest86+/patn.c:125-144 | That table is reached: inserting 0, c, 8 and 4 into an empty table leaves no pattern at all. |
| `BadRam.InsertKeepsLongwords` | payloads/memtest86+/patn.c:125-144 | No pattern ever gets finer than a longword, so the full-table branch always finds a slot. |
| `PatternTable.Patterns.Insert` | payloads/memtest86+/patn.c:125-144 | The in-place table and the returned value are those of the specification; a change is the entry of the word as InsertEnters says, followed by relocation. |
| `PatternTable.Patterns.RelocateFree` | payloads/memtest86+/patn.c:105-120 | Likewise for the recursive relocation. |
| `Checksum.ComputeIpChecksum` | src/lib/compute_ip_checksum.c:4-34 | The running 16-bit sum with carry wrap is the complement of the ones' complement sum of the little-endian words, zero padded (section 2 of RFC 1071). |
| `Checksum.ChecksumOfConcatenation` | src/lib/compute_ip_checksum.c:36-53 | For all byte strings, of odd length too, combining the checksums of the parts gives the checksum of the whole. |
| `Checksum.ChecksumVerifies` | src/lib/compute_ip_checksum.c:4-34 | A byte string with its checksum stored behind it, at an even or odd offset, has checksum 0. |
| `Checksum.SwapIsShift` | src/lib/compute_ip_checksum.c:41-47 | Swapping the bytes is multiplication by 256 in ones' complement arithmetic. |
| `Checksum.IpComputeCsum` | payloads/memtest86+/linuxbios.c:4-52 | The word-at-a-time routine, with its separate first byte at odd addresses. |
| `Checksum.RoutinesAgree` | payloads/memtest86+/linuxbios.c:4-52 | It equals the bytewise checksum from every even address; from an odd one if and only if the sum of the bytes after the first is a multiple of 257. |
| `Reloc.FixAllFormula` | payloads/memtest86+/reloc.c:70-125 | After any sequence of load addresses a word holds the ABI formula at the last one, off by the symbol once for every earlier address 0. |
| `Reloc.PassFixes` | payloads/memtest86+/reloc.c:193-206 | One pass fixes each entry's word once, whatever the order of the entries. |
| `Reloc.MovesFormula` | payloads/memtest86+/reloc.c:70-125 | The same for the bytes of the image. |
| `Reloc.PathIndependence` | payloads/memtest86+/reloc.c:209-265 | Relocating step by step equals relocating once, byte for byte, if and only if no entry drifts; always when no earlier load address was 0. |
| `Loader.Program.DlStart` | payloads/memtest86+/reloc.c:209-265 | The start-up code in place: dynamic addresses, tables found through them, image and last load address. |
| `Loader.ElfMachineRel` | payloads/memtest86+/reloc.c:70-125 | One entry in place. |
| `MovInvTest.MovInv32` | payloads/memtest86+/test.c:703-979 | On fault-free memory no error is reported if and only if there is no iteration or every segment but the last is a multiple of 32 words; the pattern is then back in place. |
| `MovInvTest.Test8` | payloads/memtest86+/main.c:931-943 | The same for all 64 patterns the test runs through: with at least one iteration every word is compared with a one and with a zero at each of the 32 bits, and memory ends with the last pattern. |
| `MovInvTest.Turn` | payloads/memtest86+/test.c:871-878 | k and the pattern recomputed between the passes are those of the last word. |
| `MovInvTest.PassDown` | payloads/memtest86+/test.c:880-978 | The way down carries bit and pattern across segments and pieces. |
| `Shares.ShareWordsLeast` | payloads/memtest86+/test.c:53-58 | A share is the least multiple of 64 bytes that is no less than its part of the segment. |
| `Shares.SharesPartition` | payloads/memtest86+/test.c:41-73 | Every word of a segment is in exactly one processor's share, and no other word is in any, if and only if all shares but the last fit into the segment. |
| `Shares.LargeSegmentsFit` | payloads/memtest86+/test.c:41-73 | They do in a segment of more than 16 N (N - 1) words for N processors. |
| `Shares.PageForTwelve` | payloads/memtest86+/test.c:57-71 | They do not in a segment of one page for twelve: the eleventh runs 32 words past its end. |
| `Shares.SharesOutOfStep` | payloads/memtest86+/test.c:41-72 | Shares rounded to 64 bytes are not always multiples of 32 words: three processors and two segments of two pages. |
| `Rotation.MovedBlock` | payloads/memtest86+/test.c:1288-1336 | After n >= 1 moves the first half is the original first half turned right by 8n words and the second the same turned by 8(n-1). |
| `BlockMove.CopiesAreStep` | payloads/memtest86+/test.c:1305-1333 | The three copies are that turn. |
| `Rotation.MovedPairs` | payloads/memtest86+/test.c:1288-1340 | Moving keeps adjacent words equal, however a segment falls into pieces. |
| `BlockMove.FilledPairs` | payloads/memtest86+/test.c:1185-1260 | Filling leaves equal pairs, whatever the carry. |
| `BlockWords.PatternRuns` | payloads/memtest86+/test.c:1240-1245 | The rotation through the carry has period 33: in closed form 1, then bit n with the first carry below it, then the carry alone at the top. |
| `BlockWords.FilledPieceAt` | payloads/memtest86+/test.c:1215-1257 | Word i of block n of a piece is that value or, at 4, 5, 10, 11, 14 and 15, its complement. |
| `BlockWords.PieceForExactly` | payloads/memtest86+/test.c:1199-1214 | The piece of an address, in closed form: all of the segment when it begins at 0, ends the address space or is short, else the quotient by SPINSZ. |
| `BlockWords.SourceIsTurned` | payloads/memtest86+/test.c:1288-1336 | Where the word at an offset of a piece was n >= 1 moves before: 8n words back in the first half, 8(n-1) in the second. |
| `BlockWords.FilledAt` | payloads/memtest86+/test.c:1185-1260 | So every word of a filled segment is given, however it falls into pieces. |
| `BlockWords.MovedAt` | payloads/memtest86+/test.c:1288-1340 | And every word of a moved one is taken from its source. |
| `BlockMoveTest.PairsSurvive` | payloads/memtest86+/test.c:1185-1340 | After filling and moving all segments every one still consists of equal pairs. |
| `BlockMoveTest.FinalMemory` | payloads/memtest86+/test.c:1185-1340 | After filling and moving all segments every word of them is its closed form, and no other word has changed. |
| `BlockMoveTest.CheckAll` | payloads/memtest86+/test.c:1342-1407 | The check finds an error if and only if some segment does not consist of equal pairs. |
| `BlockMoveTest.Test7` | payloads/memtest86+/test.c:1185-1407 | On fault-free memory no error is ever reported, and every word of memory ends as that closed form says. |
| `VirtualMemory.MappingResolves` | payloads/memtest86+/vmem.c:63-129 | With the entries of its window loaded, the mapped address of a page resolves to that page at every byte. |
| `VirtualMemory.EntriesMap` | payloads/memtest86+/vmem.c:85-98 | Every loaded entry is present, writable and a 2 MB page, for the supervisor and cached. |
| `VirtualMemory.Pager.PageOfMapping` | payloads/memtest86+/vmem.c:140-150 | page_of is the inverse of mapping. |
| `VirtualMemory.Pager.MapPage` | payloads/memtest86+/vmem.c:63-113 | It loads the 1024 entries of the page's window, or fails exactly without PAE, or above page 0x1000000 without long mode. |
| `TestWindows.ComputeSegments` | payloads/memtest86+/main.c:1189-1281 | The segments are the map's ranges clipped to window and limits. |
| `TestWindows.ReachesExactly` | payloads/memtest86+/vmem.c:115-138 | The words from mapping() of a range's first page to emapping() of its end lead to exactly the words of its pages. |
| `TestWindows.SegmentSize` | payloads/memtest86+/vmem.c:131-138 | A segment through its last word is exactly as long as its pages. |
| `TestWindows.SegmentsExact` | payloads/memtest86+/main.c:1189-1281 | Inside one window the words of the segments lead to exactly the words of the selected pages, each of them. |
| `TestWindows.FirstSelected` | payloads/memtest86+/main.c:671-690 | The page that is mapped for a window is the first selected one of the first range that has any there. |
| `TestWindows.TestAllWindows` | payloads/memtest86+/main.c:549-696 | Exactly the words of the selected pages below the end of the run are reached. That is every page below MAX_MEM and one window more if and only if in every window the first page of the first segment can be mapped, in long mode always; otherwise the run ends at the first window where it cannot. |
| `FlashDrivers.WinbondWrite` | payloads/sortbootorder/winbond.c:112-173 | Chunks of 64 or 256 bytes: the abstract write, or a prefix of it when the bus fails; it succeeds if and only if the bus lasts three transfers for each page the range touches. |
| `FlashDrivers.EonWrite` | payloads/sortbootorder/eon.c:62-121 | The same write, with the same exact number of transfers, from page and byte numbers. |
| `FlashDrivers.SstWrite` | payloads/sortbootorder/sst.c:152-218 | The same write from an odd byte, auto-increment words and an odd byte, for at least one byte: it succeeds if and only if the bus lasts three transfers for each odd byte, two for each word and two more. |
| `FlashDrivers.SstByteWrite` | payloads/sortbootorder/sst.c:127-149 | One byte of it. |
| `FlashDrivers.WroteOnErased` | payloads/sortbootorder/winbond.c:112-173 | On an erased range the abstract write leaves exactly the buffer there and nothing else changes. |
| `FlashDrivers.Erase` | payloads/sortbootorder/spi_flash.c:139-183 | Refused if and only if misaligned; otherwise exactly the named units are erased if and only if the bus lasts three transfers for each, and a failure leaves a prefix of whole units erased. |
| `FlashDrivers.EraseThenWrite` | payloads/sortbootorder/spi_flash.c:139-183 | Erase and write inside: the bytes read back, the rest is erased, nothing outside changes. |
| `FlashChip.InsidePage` | payloads/sortbootorder/winbond.c:132-135 | A page program that stays in its page puts bytes where they belong. |
| `FlashChip.AcrossPageWraps` | payloads/sortbootorder/winbond.c:132-135 | One that does not overwrites the start of the page: why the writers cut at pages. |
| `BusScan.ScanBus` | src/device/pci_device.c:1118-1201 | Scanning the bridges of a bus: final numbers, the routing at every moment of the history, and that at every moment a configuration cycle for any bus numbered so far arrives there; every bridge keeps its latency timer. |
| `BusScan.ScanBridge` | src/device/pci_device.c:1220-1285 | One bridge: open at 0xff while scanning behind it, then closed at the highest number used. |
| `BusNumbers.NumbersAreConsecutive` | src/device/device.c:903-913 | The numbers below a bus are consecutive, each used once. |
| `BusNumbers.SettledClaims` | src/device/pci_device.c:1274-1280 | At every depth the buses at and behind a bridge are exactly its secondary to its subordinate. |
| `BusNumbers.OneClaim` | src/device/pci_device.c:1242-1267 | At every moment no bus number is claimed by two bridges on the same bus. |
| `BusNumbers.ClaimsNest` | src/device/pci_device.c:1242-1267 | What a bridge claims, every bridge above it claims, and their own buses are not among it. |
| `BusNumbers.RoutedDelivers` | src/device/pci_device.c:1242-1280 | A configuration cycle for a numbered bus is claimed by exactly one bridge on each bus of its path and comes out behind the bridge with that secondary number. |
| `BusNumbers.EveryNumberIsReached` | src/device/pci_device.c:1118-1201 | After the scan every number up to the highest used is reached in this way. |

## Left out

- FlashDrivers.SstWrite: lengths of at least one byte, since the code computes the length less one without
  a sign; range on the chip and a chip of at most 16 MB, as three address bytes allow.
- Checksum.IpComputeCsum: at an odd address the length is at least 1, since the code subtracts 1 from an
  unsigned length.
- MovInvTest.MovInv32: segments are at least two words long and do not leave a last piece of one word (or,
  on the way down, none), which the piecewise loops would skip or overrun; whole pages and 64-byte multiples
  never do.
- BlockMoveTest.Test7: segments are whole 64-byte blocks; the code drops a remainder of its lengths.
- Layout.TwoPassAgreement: I/O windows below the top have at least 1 KiB alignment (PCI bridges have 4 KiB)
  and an I/O walk starts on a 1 KiB boundary, because the legacy skip is not invariant under shorter moves.
- IoWindow.WalkAssignsExactly: resources that are not yet assigned and a walk without a 64-bit wrap, as in
  pass 1; in the other direction neither is asked.
- Constraints.LargerPartIsKept: ranges of less than half the address space, since the code compares the two
  parts as signed numbers; ConstrainSides is about all of them.
- Listing.BusIsListed: a type within its mask, as in every call; another type lists nothing.
- Shares.SharesPartition: segments of which every processor's part rounds to at least one share; for a segment
  of fewer bytes than processors the code's shares are empty.
- Sanitize.SanitizeE820Map: at most E820MAX entries, and at no address more of them, an empty one counted
  twice, than the overlap list holds; the arrays of the code have no more room.
- The barrier is modelled on sequentially consistent memory, and only the polling loops without
  monitor/mwait, since cpuid.c clears the mon bit; `s_barrier` has the same body on other fields.
- Flags of resources are split into the kinds that neither pass changes and the two marks they set.
- Subtractive resources, and bus resets that repeat a scan; disabled bridges count as not scanned.
- Device probing: the bridges that a scan finds on each bus are given.
- Relocations of type `R_386_COPY`, which read another object; entries that overlap.
- Barriers, ticks and bail-outs inside the memory tests, running them on several processors at once, and
  the copies of the program that `run_at` makes between windows; error reporting is a counter.
- `movinv1`, `modtst`, `bit_fade` and the random tests: loops of the same shape with less state.
- The bit fade test's windows, and 32-bit overflow of page numbers in maps above 16 TB.
- Page tables other than the 1024 entries from 2 GB to 4 GB, and control registers.
- The SPI controller, status bits other than busy and write enable, timeouts (a bus failure stands for
  them), block protection and flash reads.
- `save_flash`, `sort_pmap`, CBFS, bootmem, LZMA, consoles, menus and hardware tables.
