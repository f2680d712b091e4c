# A model of the vimos-minimal kernel core

vimos-minimal is a small x86-64 UEFI kernel. This project models its memory management from
the boot loader to page faults, its xHCI rings and port enumeration, and its formatter, and
proves what they do for every input, every run and every interleaving.

| modules | source | content |
|---|---|---|
| `Options`, `PhysicalMemory`, `Radix`, `Translation` | include/paging.h | frames of 512 words, page numbers as base-512 numerals, the processor's page walk (section 4.5 of volume 3A of the Intel SDM) |
| `FreeList`, `FreeMem`, `MemoryInit` | kernel/mem.c | the intrusive free list, its headers inside the free pages |
| `Paging`, `PageSupply`, `PageTables`, `PageFaults` | kernel/paging.c, kernel/exception.c | growing the tables, as a function and as code in place; what that takes off the free list; runs of allocations, stores and faults |
| `BootTables`, `KernelStart`, `KernelImage`, `KernelRuns` | boot/boot.c, kernel/paging.c | the first page tables, the start of the kernel, loading the ELF image, all of it together over every run |
| `TransferRing`, `RingProtocol` | kernel/xhci.c | the producer of a ring, and its interleavings with the controller |
| `EventRing`, `EventProtocol` | kernel/xhci.c | the consumer of the event ring, and its interleavings with the controller |
| `Enumeration`, `EnumerationRuns` | kernel/xhci.c | one port at a time: `current_port`, `device_status`, the slots and the command ring; runs |
| `Numerals`, `Format` | stdlib/vsprintf.c | `number` and `vsprintf` |

Memory is a map from frame numbers to pages. Page tables, free-list headers, the pages of user
programs and the bytes of the kernel image all live in it, so disjointness is proved, not
assumed. Code that works in place is a class or a method with loops, proved against a function;
the lemmas are about the function. Where the code falls short of its intent the exact condition
under which it is right is proved:

- `free_mem` returns a range to the list correctly if and only if `FreeMem.Restores` holds, which
  compares the range with the first two blocks only. The sequence under TEST_MEM in kernel/kernel.c
  fails it.
- `alloc_mem` of 2^20 pages or more may return pages that stay listed, `alloc_mem(0)` always does.
- `init_mem` keeps all usable pages if and only if no usable region starts at address 0 or ends
  the memory map, and usable regions that follow each other leave no gap.
- A read-only `setupPageMaps` also takes the write permission of pages it was not asked for.
- The direct map behind its first 128 GB hangs off a table that `init_mem` may list. All of the direct
  map lasts over every run if and only if it does not; and the kernel, which reaches memory
  through the direct map only, can always reach all memory it manages if and only if that
  memory lies below 640 GB and the table is not listed, or all of it lies below 128 GB.
- `setupPageMaps` runs out of memory if and only if fewer pages are free than entries on the paths of
  the requested pages are absent.
- The scan for a waiting port reads one entry too many and, if this entry reads as waiting, writes
  outside `device_status`; all else holds if and only if no scan of the run finds it so.
- A ring with 255 outstanding TRBs can stall for good; with 254 it never does.
- The handler of command completions reads the type of the command from the command ring, which is
  written without a check for space. With at most 254 commands not completed it reads the right
  one, and all results about runs hold; with 255 a run ends in a lookup outside `device_status`.
- Enumeration ends if and only if no enabled port reports a status change while it is the current one.
- `number` never writes a minus sign; negative arguments of `%d` lose their sign. A `*` takes an
  argument and then prints itself.
- `CopyLoadSegments` stays inside the pages of the kernel if and only if no segment is longer in
  the file than in memory.

Two oddities of the source that the model follows or takes as given, without a theorem:

- The test for a connected port in `usb_process_events` has a misplaced parenthesis and reads
  USBCMD, which is not zero while the controller runs; the model takes it as passed.
- `Elf_Phdr` reads 16 of the 32 bits of p_type.

## Model

| member | source | states |
|---|---|---|
| PhysicalMemory.FromValueOfValue | include/paging.h:15-31 | the bit-field view of an entry and its number determine each other |
| PhysicalMemory.ValueOfFromValue | include/paging.h:15-31 | every 64-bit number is the number of exactly the entry read from it |
| Radix.Galois | include/paging.h:33-44 | comparing leading digits of a page number is comparing pages |
| Radix.WithPart | kernel/paging.c:41-47 | replacing one digit keeps all digits above and below it |
| FreeList.PtrWordValue | include/paging.h:9-11 | the stored pointer is the direct-map address of its frame |
| FreeList.AllocConserves | kernel/mem.c:10-42 | each listed page is afterwards listed or handed out, never both |
| FreeList.AllocKeepsList | kernel/mem.c:10-42 | the headers still spell out a sorted, coalesced list of RAM |
| FreeList.AllocFirstFit | kernel/mem.c:14-32 | NULL exactly if no block is large enough, otherwise the lowest block that is |
| FreeList.AllocWritesListed | kernel/mem.c:17-27 | only pages that stay listed are written |
| FreeList.AllocDisjointIff | kernel/mem.c:17-27 | handed-out pages leave the list exactly if the size does not wrap or the whole block goes |
| FreeList.AllocNothing | kernel/mem.c:17-27 | a request for 0 pages returns a page that stays listed |
| FreeList.RunConserves | kernel/mem.c:10-42 | over any run of requests granted and listed pages together are the pages of the start |
| FreeList.RunGrantsDisjoint | kernel/mem.c:10-42 | blocks granted in a run are pairwise disjoint |
| FreeList.Allocator.AllocMem | kernel/mem.c:10-42 | the loop over prev and m does to list and memory what the functions say, whatever the request |
| FreeMem.FreeMem | kernel/mem.c:44-94 | it terminates, and the list is canonical with exactly the range added if and only if Restores held and it did not crash |
| FreeMem.SpoiledIsWrong | kernel/mem.c:62-71 | a list broken by a misplaced insertion cannot be read as a right one |
| FreeMem.CanonicalUnique | kernel/mem.c:44-94 | a canonical list is determined by its pages |
| FreeMem.AllocFreeRoundTrip | kernel/mem.c:14-32 | freeing what alloc_mem returned restores the list exactly if it came from the first or second block and another follows |
| FreeMem.RequestsConserve | kernel/mem.c:10-94 | over every run of requests and of frees that Restores allows the list stays canonical, and each page of the start is listed or held, never both |
| FreeMem.GivenBackUnique | kernel/mem.c:44-94 | the list free_mem leaves is then determined |
| FreeMem.MemoryTestFails | kernel/kernel.c:36-51 | on one large block the TEST_MEM sequence does not restore the list |
| MemoryInit.InitMem | kernel/mem.c:100-143 | the list is canonical; a page is listed exactly if its descriptor joins a run that an unusable one closes; memlist.pages is the sum; headers are stored into pages that end up listed only; by UEFI type, only pages of types 1, 2, 3, 4 and 7 are listed, and all pages of a closed gapless run of these that does not start at 0 |
| MemoryInit.TypesListed | kernel/mem.c:96-98 | what is listed and what never is, by the low 16 bits of the type |
| MemoryInit.ListedPages | kernel/mem.c:114-138 | listed pages are usable; all usable pages are listed if and only if the map is Gapless |
| Paging.SetupGrows | kernel/paging.c:57-99 | for any level a call keeps tree and list, only moves cleared pages from list to tree, changes only entries over pages it reached, and stops at the end of request, table or memory |
| Paging.SetupWalk | kernel/paging.c:72-99 | translation of every page after a call on a table of any level |
| Paging.SetupPageMapsCorrect | kernel/paging.c:72-105 | exactly the pages of the request up to 2^36 become user pages with the permission; all frames stay; nothing else is mapped; the surplus is returned |
| Paging.SetupPageMapsFailure | kernel/paging.c:75-85 | out of memory: -1, the list is empty, tree intact, an initial segment of the request is mapped |
| Paging.NewPageIsFresh | kernel/paging.c:49-70 | a newly mapped page has its own zeroed frame off the free list |
| PageSupply.FailsIff | kernel/paging.c:49-99 | a request for n pages fails exactly if fewer pages are free than entries on their paths are absent, otherwise it takes just these |
| PageSupply.UserReach | kernel/paging.c:79-80 | when memory suffices, an earlier page is open to user mode afterwards exactly if each entry on its path was, or is shared with the path of a requested page |
| PageSupply.ReadOnlyReach | kernel/paging.c:79-80 | a read-only request for which memory suffices keeps the write permission of another page exactly if no requested page is under the same PML4 entry, or between two that are |
| PageTables.LinearAddress.Advance | kernel/paging.c:92-95 | setPart and the loop that clears lower parts reach the first page of the next entry |
| PageTables.NewMapIfNotPresent | kernel/paging.c:57-70 | allocation, clearing and the stores to the entry in place |
| PageTables.SetupMap | kernel/paging.c:72-99 | the loop and recursion in place compute SetupPageMap for every 32-bit count, through the int it is returned in |
| PageFaults.StepRefines | kernel/exception.c:65-75 | each allocation, kernel store, fault or user store keeps the invariant, with the direct map translating all frames in use, and changes user memory as a plain map of pages would |
| PageFaults.StepStoresUsed | include/paging.h:8-13 | all that a step stores goes to frames in use, which the direct map translates |
| PageFaults.RunRefines | kernel/exception.c:50-76 | the same over every run, the direct map included, with the kernel half translated as before |
| PageFaults.OneReference | kernel/paging.c:57-70 | two user entries lead to the same frame exactly if they are the same entry |
| PageFaults.OneFramePerPage | kernel/paging.c:57-99 | distinct user pages never share a frame |
| PageFaults.WritablePage | kernel/paging.c:79-80 | user mode can write only to frames that the tree holds for that page |
| PageFaults.OutOfMemoryIff | kernel/paging.c:49-55 | a fault fails exactly if fewer pages are free than entries of its path are absent |
| PageFaults.FaultProvides | kernel/exception.c:55-75 | which faults change nothing and which provide a page, for every consistent kernel |
| PageFaults.DoPageFault | kernel/exception.c:50-76 | halts exactly for protection faults; an address below brk or above 0x7fffffffe000 changes nothing; any other page ends up mapped and writable for user mode if memory suffices, zero if it was not mapped, and no other user page changes; the invariant is kept |
| BootTables.EntryWords | boot/boot.c:220-240 | the numbers stored are table links and 2 MB entries |
| BootTables.Loader.FillWindow | boot/boot.c:226-231 | the nested loops write exactly one window |
| BootTables.Loader.BuildTables | boot/boot.c:181-269 | all tables hold what they must, the rest of memory is untouched |
| BootTables.BootWalk | boot/boot.c:220-269 | the tables translate every page as the three windows say and map nothing else |
| KernelStart.UnmappedWalk | kernel/paging.c:9-13 | clearing entry 0 removes the identity window and nothing else |
| KernelStart.V2PIsTranslation | kernel/paging.c:15-21 | _v2p gives the physical address of every mapped address |
| KernelStart.P2VRoundTrip | include/paging.h:8-13 | _v2p inverts P2V, and P2V addresses below 640 GB are mapped there |
| KernelStart.StartReach | kernel/mem.c:131-139 | in every memory that differs from the tables as built in listed pages only, the direct map translates the PML4 and all pages that get listed |
| KernelStart.Start | kernel/kernel.c:20-32 | from the boot tables to a state with the invariant, no user page mapped, the windows in place; each header store of init_mem goes through a direct map that translates it |
| KernelStart.WindowsSurvive | boot/boot.c:181-209 | over every run the kernel window and the first 128 GB of the direct map translate as built, and all of the kernel half if kernel_pdp2 is not listed |
| KernelStart.PageLost | boot/boot.c:201-203 | once kernel_pdp2 is listed, for each page of its slot a run of single-page requests and one store unmaps it |
| KernelStart.DirectMapSurvivesIff | boot/boot.c:201-203 | all 640 GB of the direct map last over every run if and only if init_mem has not listed kernel_pdp2 |
| KernelStart.ReachIff | include/paging.h:8-13 | the direct map translates all memory in use after every run if and only if it lies below 640 GB and kernel_pdp2 is not listed, or all of it lies below 128 GB |
| KernelImage.StoreByteEffect | boot/boot.c:10-26 | a byte store changes that byte of memory only |
| KernelImage.CalcLoadAddressRange | boot/boot.c:65-82 | lowest start and highest end of the segments, in 64-bit arithmetic |
| KernelImage.CopySegment | boot/boot.c:94-101 | for any lengths: zero where memset writes with its 64-bit length, else the file byte where memcpy writes, else unchanged |
| KernelImage.CopyLoadSegments | boot/boot.c:84-103 | every byte of memory: of the last segment that writes it zero or the file byte, else unchanged |
| KernelImage.StaysInsideIff | boot/boot.c:98-101 | all bytes written lie in the allocated pages if and only if no segment is longer in the file than in memory |
| KernelImage.ImageThroughTables | boot/boot.c:233-241 | any segment address read through the boot tables yields the file byte or the zero fill |
| KernelImage.LoadKernel | boot/boot.c:154-269 | loading and table building together: the allocated pages cover all segments of type 1, all of these read back, and outside them and the tables no byte changes |
| KernelRuns.Boot | boot/boot.c:154-269 | loading, building the tables and starting memory management end with the invariant, the image readable and apart from all memory the kernel manages |
| KernelRuns.RunKeepsApart | kernel/mem.c:10-42 | no run touches RAM that is neither listed, held nor part of the tree; the invariant it starts from keeps every store inside the direct map |
| KernelRuns.ImageSurvives | boot/boot.c:159-163 | after any run each address of the kernel image still reads, through the tables, as the file byte or the zero fill |
| TransferRing.Ring.WriteStatic | kernel/xhci.c:98-107 | the four stores, the one with the cycle bit last |
| TransferRing.Ring.Write | kernel/xhci.c:110-127 | the stores of write_ring with the Link TRB, and the new index and cycle bit |
| RingProtocol.WriteIsSteps | kernel/xhci.c:110-127 | undisturbed, the producer's steps do what write_ring does |
| RingProtocol.LinkReads | kernel/xhci.c:115-124 | the Link TRB as stored: address of the ring, type 6, toggle cycle, cycle bit, all else 0 |
| RingProtocol.Delivery | kernel/xhci.c:98-127 | in every interleaving with at most 255 outstanding the controller fetches exactly the TRBs written, in order, once, whole |
| RingProtocol.NeverStalls | kernel/xhci.c:110-127 | with at most 254 outstanding the next TRB is always fetched within eight loads |
| RingProtocol.WaitsIff | kernel/xhci.c:115-126 | the controller waits with TRBs outstanding exactly if there are 255 and it is still before the Link TRB |
| RingProtocol.StallRun | kernel/xhci.c:115-126 | with 255 allowed a run reaches that state |
| RingProtocol.StuckForever | kernel/xhci.c:115-126 | and never leaves it |
| EventRing.Consumer.Advance | kernel/xhci.c:136-149 | ERDP moves to the next TRB inside the ring, the cycle bit flips exactly at the wrap |
| EventRing.Consumer.GetEvent | kernel/xhci.c:156-164 | returns the address of the event and advances by one |
| EventRing.WrittenErdp | kernel/xhci.c:143-147 | ERDP is written with the event handler busy flag set and reads back as the pointer |
| EventProtocol.EventDelivery | kernel/xhci.c:129-164 | in every interleaving events are delivered once and in order; ERDP, cycle bit and er_isQueued are right |
| EventProtocol.QueuedIff | kernel/xhci.c:152-154 | er_isQueued says yes exactly if a complete event is not taken |
| EventProtocol.ReturnedEventStays | kernel/xhci.c:156-164 | the returned TRB is not overwritten before the next call |
| Enumeration.OldestSlot | kernel/xhci.c:110-127 | the slot of the oldest uncompleted command holds this command exactly if at most 255 are not completed, else a later one |
| Enumeration.ReadsRight | kernel/xhci.c:829-839 | with at most 254 not completed both tests of the handler read the command that completed, although the first may have written to the ring |
| EnumerationRuns.CurrentPort | kernel/xhci.c:608-936 | while at most 254 commands are not completed: a run makes no store or lookup outside device_status and no access through a missing ring, if and only if no scan finds the entry behind the array waiting; then a port being enabled or addressed is current, and without one nothing waits or is outstanding |
| EnumerationRuns.OnePort | kernel/xhci.c:820-857 | under the same bound, at each completion acted on port_id and current_port are the same valid port |
| EnumerationRuns.StepSends | kernel/xhci.c:614-911 | under the same bound, exactly which commands each event sends |
| EnumerationRuns.PortHistory | kernel/xhci.c:614-911 | in a run under the same bound a port is in EndOfInitialize if and only if, after its address command completed and with no status change since, a transfer with code 1 or 13 and a configuration completed for one of its slots; likewise for having an address, for AddressDevice and for Reset |
| EnumerationRuns.HistoryHolds | kernel/xhci.c:614-911 | the same for every prefix of a sequence of states that steps of the model connect, from the initial state on |
| EnumerationRuns.EnumerationCompletes | kernel/xhci.c:884-911 | under the same bound, once all commands completed, every enabled port has its address and none is current if and only if no event hit the current port |
| EnumerationRuns.RunStalledIff | kernel/xhci.c:905-911 | under the same bound, a run ends stalled exactly if an event hit the current port; then current and waiting ports never change |
| EnumerationRuns.FewEventsRoomy | kernel/xhci.c:884-911 | the bound holds in every run with at most 254 counting four for each status change of an enabled port and one for each configuration set |
| EnumerationRuns.CrowdedExample | kernel/xhci.c:829-879 | with 255 not completed a run with clean scans ends in a lookup at device_status[-2] |
| EnumerationRuns.BeyondExample | kernel/xhci.c:861-869 | with the entry behind the array waiting, the first port that gets its address leads to a store outside it |
| EnumerationRuns.StallExample | kernel/xhci.c:905-911 | two status changes of port 1 stall the enumeration |
| Enumeration.LastWaiting | kernel/xhci.c:860-865 | the highest waiting entry, or -1 exactly if none waits |
| Enumeration.Enumerator.FindWaiting | kernel/xhci.c:860-865 | the scan over 256 entries finds the highest waiting one |
| Enumeration.Enumerator.WriteCommand | kernel/xhci.c:110-127 | the command goes to the next slot, whatever that slot holds |
| Enumeration.Enumerator.HandleEnableSlot | kernel/xhci.c:474-596 | context, ring, commands and status for the current port |
| Enumeration.Enumerator.CommandCompleted | kernel/xhci.c:814-881 | in every state the two tests on the ring slot and the scan do the step, or report the invalid access right before it |
| Enumeration.Enumerator.PortStatusChanged | kernel/xhci.c:884-934 | likewise for a port status change |
| Enumeration.Enumerator.Transferred | kernel/xhci.c:614-808 | likewise for the status change at the end of a transfer event |
| Numerals.DigitsParse | stdlib/vsprintf.c:39-45 | the digits denote the number |
| Numerals.RenderedLength | stdlib/vsprintf.c:47-63 | length max(width, sign + max(digits, precision)) plus the prefix |
| Numerals.ReadsBack | stdlib/vsprintf.c:23-66 | for every base, width, precision and flags the text reads back to the number as strtoul reads |
| Numerals.RenderedPlaced | stdlib/vsprintf.c:29-63 | padding, sign, prefix, zeros, digits and letter case stand in the text as flags, width and precision say, and only one text fits these rules |
| Numerals.ScratchFits | stdlib/vsprintf.c:24-45 | 36 scratch digits suffice for all 64-bit numbers exactly for bases from 4 |
| Numerals.SignLost | stdlib/vsprintf.c:33-36 | a signed value comes back exactly if it is not negative; no minus sign is written |
| Numerals.Number | stdlib/vsprintf.c:23-66 | refuses bases outside 2 to 36, otherwise writes at str exactly the rendering, which keeps the placement rules |
| Format.ParseConcat | stdlib/vsprintf.c:73-148 | the pieces of f + g are those of f and g exactly if f does not end inside a directive |
| Format.FormattedConcat | stdlib/vsprintf.c:73-148 | then the text of f + g is the text of f and the text of g, each with its arguments |
| Format.EscapeRoundTrip | stdlib/vsprintf.c:141-146 | any text with each % doubled formats to itself |
| Format.PaddedString | stdlib/vsprintf.c:116-129 | length of a string conversion with width and precision; StringDirective says which characters |
| Format.SkipAtoi | stdlib/vsprintf.c:7-13 | reads all digits up to the next other character, as a decimal number |
| Format.ReadSpec | stdlib/vsprintf.c:79-113 | flags, width and precision of any directive, with the argument that * takes, and the position of its conversion character |
| Format.NumericDirective | stdlib/vsprintf.c:73-141 | for all flags, width, precision and qualifier: x and X write the number in base 16, d, i and u in base 10, placed as the parts of the directive say; it reads back to the number; x uses small letters, X capital ones |
| Format.StringDirective | stdlib/vsprintf.c:115-129 | s writes the first characters up to the precision, with blanks up to the width behind for -, else before |
| Format.OtherDirective | stdlib/vsprintf.c:141-147 | another conversion is echoed behind %, % stands for itself, a directive cut off writes % |
| Format.StarDirective | stdlib/vsprintf.c:88-108 | `*` takes an argument, ends the directive and writes %* |
| Format.Vsprintf | stdlib/vsprintf.c:68-152 | terminates, writes the rendered pieces and a NUL and nothing else, returns the length |

## Left out

- FreeMem.FreeMem: requires a range disjoint from the list, of 1 to 2^20 - 1 pages. It reports a crash for the NULL dereference at line 83; once init_interrupt has run, the page fault handler maps page 0 and the pass goes on, which is not modelled.
- MemoryInit.InitMem: requires a memory map in address order without overlaps or empty regions, with fewer than 2^32 usable pages, all below 640 GB; the map is a value apart from memory.
- KernelStart.Start: requires the PML4 and all usable memory below 640 GB, or below 128 GB if kernel_pdp2 is going to be listed; ReachIff says why.
- EventRing.Consumer.GetEvent: requires an event in the ring; the busy wait for one is a step that `EventProtocol` enables when the event is complete.
- EnumerationRuns.CurrentPort: is about runs in which at most 254 commands are not completed whenever a completion is handled; assumes that commands complete in order, that every Enable Slot command succeeds with a new slot id from 1 to 255 and that transfers complete only for slots with a context; the source ignores the completion code, and a failed command with slot id 0 would overwrite the scratchpad entry device_contexts[0].
- EnumerationRuns.EnumerationCompletes: is about runs in which no scan finds the entry behind the array waiting.
- Enumeration.Enumerator.HandleEnableSlot: assumes that alloc_mem succeeds; the source stops in panic otherwise.
- KernelImage.CopyLoadSegments: requires that all it writes is RAM, and that the file is apart from it.
- KernelRuns.ImageSurvives: stores of the kernel into its own image are no event of a run, so this is about the code and data it does not write itself.
- KernelImage.LoadKernel: assumes that the firmware places kernel and tables in disjoint RAM; the file is a value apart from memory.
- Format.Vsprintf: requires arguments of the right kinds and a large enough buffer; widths and precisions are unbounded, overflow of an int is undefined in the source.
- `free_mem` does not take part in the runs of `PageFaults`, only in those of FreeMem.RequestsConserve on the list; no caller in kernel/ uses it outside TEST_MEM.
- The list `start` in kernel/xhci.c is always NULL; following it reads page 0, which is not modelled.
- The stack of kernel/asm.S lies outside the pages that boot/boot.c reserves for it; nothing is claimed about it.
- The TLB and the accessed and dirty bits: translation reads the tables as they are.
- Descriptors and endpoints (kernel/xhci.c:615-803): only their number matters here.
- MMIO registers other than ERDP, the doorbells, port resets, firmware calls, interrupts, display, keyboard, PCI and string helpers.
