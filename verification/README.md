# A verified model of the Toastium kernel core

Toastium is a small RISC-V kernel. Its difficult parts are index structures kept
in raw memory and state machines driven by traps. This project models those parts
in Dafny and proves what they do:

- the Sv39 page-table editor and the address spaces built with it, against the
  table walk of sections 4.3.2 and 4.4 of the RISC-V Privileged Architecture,
  version 20211203;
- the paged file store: radix trees, the sixteen nested roots of an inode file,
  and the read and write loops of file descriptors;
- trap nesting with three trap frames per process, under preemption;
- the device-tree parser, against the format of section 5.4 of the Devicetree
  Specification v0.4;
- the page, block and bump allocators, the round-robin scheduler and the hash map.

`PANIC` never returns; an operation that can reach it has an `Outcome` whose other
case is `Halt`. Words are 64 bits and wrap (`Machine`). Memory is typed: tables,
nodes, pages, leaves and frames are objects found by their addresses. `pg_alloc`
and `mem_alloc` mean "an address nobody uses" to their clients; that the page and
block allocators deliver this is proved in `Pager` and `Slab`.

`dafny verify dfyconfig.toml` checks everything.

## Files

| file | content |
|---|---|
| `Machine`, `Sets`, `Digits` | words and outcomes; set exchange; shifts, masks and digits |
| `Sv39`, `TableEdits`, `Splitter`, `VirtualMemory`, `PageEditor` | entries and the architecture's walk; what one table edit does to the walk; the request splitter; what a request means; the editor as a class |
| `ProcessSpace`, `UniformWindow` | the address space of a process; the request that frees a linked table |
| `RadixTree`, `Radix` | lookups by digit sequences and what an edit does to them; the radix routines as a class |
| `FileSpec`, `FileStore`, `InodeFile` | files as maps from page numbers to bytes and runs over them; the nested roots; inodes and descriptors as classes |
| `TrapSpec`, `Traps`, `TrapHandler`, `TrapSpace` | a stack of contexts per process; three frames per process and the refinement; the handlers as a class; the frame switches on the page tables |
| `DtbFormat`, `DeviceTree` | the format and what devices stand for; the parser |
| `Pager`, `Slab`, `SlabIndex`, `Scheduler`, `Hashmap` | the allocators, where a block's bit is, the scheduler and the hash map |

## Main results

1. **Translation.** For every well-formed table and every page-aligned request of 1
   to 511 pages inside one 2 MiB window that does not start on a 1 GiB boundary, which
   is what every caller in the repository asks for, the walk after
   `vma_replace_section` is the old walk overridden on exactly the requested pages, also under 1 GiB and 2 MiB leaves that are split on the way
   (`ReplaceSection`). The tables stay an unshared tree of pages in use, no page is
   leaked or freed twice, *if and only if* the edited window is not left uniformly
   mapped: then `shrink_branch` frees a table that stays linked, and two requests on a
   new table get there (`FreedButLinked`).
2. **Address spaces.** A process that is created, given its program and bound to a
   hart has exactly the intended layout, and halts only if fewer than 31 pages are
   free (`CreateAndBind`). Binding works for every user half and whichever of the
   three trap frames is mapped (`BindHart`, `MapUser`, `SwitchFrame`), the mapped frame is the one the trap model says
   (`Enter`, `Leave`), and no other address space changes (`OtherSpaceKept`).
3. **Files.** Over every run of seeks, reads and writes through any descriptors,
   a byte read is the last byte written there, or zero (`RunReads`); the loops over
   pages and radix roots compute exactly that (`Write`, `Read`), and all files on
   one heap and one store of pages stay apart, with every other file's contents as they
   were (`FilesKept`, `FileJoins`). When a write halts is characterised exactly
   (`WriteHalts`).
4. **Radix trees** of every depth and fan-out whose keys fit 64 bits refine finite
   maps (`Insert`, `Remove`, `Iter`, `Delete`), and every root deep enough for a page number finds
   the same page (`RootsAgree`).
5. **Traps.** Every run of the three-frame kernel is a run of a machine with a
   stack of contexts per process (`RunRefines`); a trap returns to the context, trap
   state and frame mapping it interrupted whatever happens in between
   (`TrapReturns`), and preemption is invisible (`PreemptionTransparent`).
6. **Device trees.** Parsing yields exactly the tree, in document order, and halts
   if and only if nodes nest to the depth limit (`BlockParsed`, `NothingLost`), from
   the header and bytes of a blob on (`DumpEncoded`).
7. **Allocators and scheduling.** `pg_alloc` returns the lowest free page, freeing
   by address clears the bit that was set, live blocks are disjoint, and `n`
   runnable processes have one turn each in any `n` swaps.

## Findings

Where the code does not do what it is for, the model follows the code and the
exact condition is proved:

- A window that a request leaves fully and uniformly mapped has its table freed
  while the entry still points to it (`src/arch/risc-v/arch_vma/virtual_memory.c:122`
  drops the merged leaf): `ReplaceSection` has the exact condition, `FreedButLinked`
  two requests that meet it.
- Small pages that cross a 2 MiB boundary are written past the end of their table:
  `SmallPagesFit`, `CrossingOverruns`.
- A write records `seek + 2 * size` as the end of the file
  (`src/kernel/file_system/file_descriptor.c:164`), so a later write can stop at a
  page the file is said to have: `RecordedSize`, `AppendHalts`,
  `AppendAfterPageHalts`.
- `radix_remove` returns the old value cut to eight bits, so the removal of a page
  address is reported as nothing removed: `Remove`, `RemovePage`.
- `mem_alloc` and `mem_free` count rows with different strides. For a block of the
  class's first data page they agree on its bit (`FirstDataPage`). In general they
  agree if and only if the two positions of `FreeFindsBit` satisfy its equation; in
  the first index page that is `number * stride == row * (1 + count)`
  (`FirstIndexPage`), which fails for the second block of 2048 bytes
  (`SecondHalfPage`). Far outside the first data page the counts can meet again
  (`CountsMeetAgain`).
- `mem_alloc` rounds a request above 2^63 bytes to 0, which passes its guard and
  becomes a divisor: `RoundedLarge`, `Alloc`.
- `trapframe_parse` tests a bit of `scause` that no known exception has set, so a trap
  counts as coming from user mode if and only if `scause` is 8, and the three handlers
  that would kill a process always panic: `UserModeIsSyscall`.
- `uninterruptible_trap_syscall` defers a system call if and only if the answer is 1,
  so the `U64_MAX` with which the call that prints a string asks for the
  interruptible handler counts as handled and the string is dropped:
  `SyscallDeferred`, `PrintsNotDeferred`, `StringPrintDropped`.
- A handler's end writes a0 if and only if it ends the page fault of a user copy whose
  page was not loaded; no deferred system call returns a value: `ResultReaches`.

## Model

| member | source | states |
|---|---|---|
| `Sv39.BranchRoundTrip` | src/arch/risc-v/arch_vma/virtual_memory.c:31-40 | a branch entry leads back to its table if and only if the table is page aligned and in the 56-bit physical space |
| `Sv39.Graft` | src/arch/risc-v/arch_vma/virtual_memory.c:223-244 | replacing an entry with what lies below keeps the tree, exchanges exactly the subtree's pages and changes the walk of exactly the pages below it |
| `Sv39.Frame` | src/arch/risc-v/arch_vma/virtual_memory.c:35-51 | tree, pages and walk depend on the tree's own pages only |
| `TableEdits.ExpandedWalk` | src/arch/risc-v/arch_vma/virtual_memory.c:53-74 | a split superpage translates every page as the superpage did |
| `TableEdits.CollapseAt` | src/arch/risc-v/arch_vma/virtual_memory.c:97-118 | unlinking an empty table keeps every translation and gives up exactly that page |
| `TableEdits.WriteAt` | src/arch/risc-v/arch_vma/virtual_memory.c:237-242 | rewriting a table without branches keeps the tree and its pages and changes the walk below it only |
| `Splitter.SplitRange` | src/arch/risc-v/arch_vma/virtual_memory.c:162-212 | terminates; halts exactly on a misaligned non-empty request; otherwise the five counters are the closed form and sum, by weight, to the size |
| `Splitter.GreedyIsSplit` | src/arch/risc-v/arch_vma/virtual_memory.c:173-212 | the pieces taken tile the range, each aligned to its own size, and the counters count them |
| `Splitter.WindowSplit` | src/arch/risc-v/arch_vma/virtual_memory.c:183-206 | a short request inside one 2 MiB window is counted as small pages of the first phase |
| `Splitter.SmallPagesFit` | src/arch/risc-v/arch_vma/virtual_memory.c:219-242 | for every request, the small pages of the first phase fit their table if and only if the request starts at a 2 MiB boundary or its part before the first 1 GiB boundary ends at one or in the window it starts in |
| `Splitter.CrossingOverruns` | src/arch/risc-v/arch_vma/virtual_memory.c:237-242 | a request that overruns its table |
| `VirtualMemory.WriteWindow` | src/arch/risc-v/arch_vma/virtual_memory.c:236-242 | the rows written give the request laid over the old translation |
| `VirtualMemory.WindowUniform` | src/arch/risc-v/arch_vma/virtual_memory.c:101-113 | the test of shrink_branch holds if and only if the request leaves the window mapped to consecutive frames with one set of compressible flags |
| `VirtualMemory.ShrinkWindow` | src/arch/risc-v/arch_vma/virtual_memory.c:89-126 | shrinking changes no translation; an empty table is unlinked and freed, a uniform one only freed |
| `VirtualMemory.ShrinkRoot` | src/arch/risc-v/arch_vma/virtual_memory.c:258-310 | the 1 GiB entry loses only an empty table, and shrinking it again does nothing |
| `VirtualMemory.OtherSpaceKept` | src/arch/risc-v/arch_vma/virtual_memory.c:128-310 | an edit leaves every other address space as it was and disjoint |
| `PageEditor.TableMemory.ExpandLeaf` | src/arch/risc-v/arch_vma/virtual_memory.c:53-74 | a fresh page becomes the table of the leaf's pieces; refuses leaves that must not be split |
| `PageEditor.TableMemory.ShrinkBranch` | src/arch/risc-v/arch_vma/virtual_memory.c:89-126 | frees the table below an entry if it is empty, unlinking it, or uniform, leaving it linked |
| `PageEditor.TableMemory.OpenWindow` | src/arch/risc-v/arch_vma/virtual_memory.c:216-234 | descends to a window's table, splitting superpages; no translation changes, only fresh pages are added |
| `PageEditor.TableMemory.WriteSmallPages` | src/arch/risc-v/arch_vma/virtual_memory.c:236-243 | the loop writes one leaf per page of the request |
| `PageEditor.TableMemory.CloseWindow` | src/arch/risc-v/arch_vma/virtual_memory.c:244-310 | tables that became empty are unlinked and freed once; no translation changes |
| `PageEditor.TableMemory.ReplaceSection` | src/arch/risc-v/arch_vma/virtual_memory.c:128-310 | the new translation is the old one overridden on exactly the request; tables stay an owned tree without leak or double free if and only if the window is not left uniform; other pages keep their contents; when it halts |
| `ProcessSpace.LinearTree` | src/arch/risc-v/arch_vma/virtual_memory.c:385-397 | the table of vma_create maps the kernel half linearly and nothing else |
| `ProcessSpace.MapKernelPage` | src/arch/risc-v/arch_vma/virtual_memory.c:347-352 | one page of the top window is mapped and the tables stay an owned tree |
| `ProcessSpace.CreateCutTable` | src/kernel/process/process.c:65-67 | linear kernel mapping below KERN_MAPPING_BOTTOM, nothing above; halts only with fewer than 3 pages left |
| `ProcessSpace.NewBlankProcess` | src/kernel/process/process.c:41-76 | eight distinct pages and an address space with exactly the trap frame, the kernel stack and the linear mapping; all other memory untouched; halts only with fewer than 21 pages left |
| `ProcessSpace.MapUser` | src/arch/risc-v/arch_vma/virtual_memory.c:354-360 | the user half is overridden on exactly the request, the kernel half keeps its layout; the tables stay an owned tree if and only if the window is not left uniform; halts only for want of two pages or under a superpage that must not be split |
| `ProcessSpace.CreateProcess` | src/kernel/process/process.c:171-178 | a blank process with its one-page program at 0x1000 and nothing else in its user half; halts only with fewer than 23 pages left |
| `ProcessSpace.SwitchFrame` | src/kernel/trap/process_handler.c:34-41 | another of the process's trap frames is mapped, the rest of the layout is unchanged; halts only with fewer than 2 pages left |
| `ProcessSpace.BindHart` | src/kernel/process/process.c:157-169 | for every user half and whichever trap frame is mapped, afterwards the layout is that of the new hart, everything else as before; halts only with fewer than 8 pages left |
| `ProcessSpace.CreateAndBind` | src/kernel/process/process.c:157-178 | creation, program and binding compose: exactly program, trap frame, kernel stack, hart stack and the linear mapping; halts only with fewer than 31 pages left |
| `VirtualMemory.PinnedWalk` | src/arch/risc-v/arch_vma/virtual_memory.c:58-60 | pages under a superpage that must not be split are mapped with that flag |
| `UniformWindow.LastPageCompletes` | src/arch/risc-v/arch_vma/virtual_memory.c:101-113 | the last page of a window of consecutive frames leaves the window uniform |
| `UniformWindow.FreedButLinked` | src/arch/risc-v/arch_vma/virtual_memory.c:119-124 | two mapping requests on a new table, in any window of the user half: all pages are mapped as asked for and a table of the tree is no longer in use |
| `RadixTree.RebuildPath` | src/kernel/memory/radix.c:30-43 | rebuilding the tree at the end of a path keeps the whole an unshared tree and reroutes exactly the keys through it |
| `RadixTree.AllocUnder` | src/kernel/memory/radix.c:32-39 | hanging an empty node into an empty slot changes no lookup |
| `Digits.DigitsInjective` | src/kernel/memory/radix.c:12-13 | keys in range are told apart by their digits |
| `Digits.KeyDigits` | src/kernel/memory/radix.c:12-13 | every sequence of digits belongs to a key in range |
| `Digits.OrderOfKeys` | src/kernel/memory/radix.c:12-13 | numeric order is the order of digit sequences, both ways |
| `Radix.NodeHeap.Get` | src/kernel/memory/radix.c:8-20 | the value stored under the key, 0 if there is none |
| `Radix.NodeHeap.Insert` | src/kernel/memory/radix.c:22-49 | sets exactly one key and returns what it held; new nodes are fresh, the rest of the heap untouched; refuses exactly keys that do not fit |
| `Radix.NodeHeap.Remove` | src/kernel/memory/radix.c:75-93 | clears exactly one key and frees nothing; reports the old value modulo 256 |
| `Radix.NodeHeap.RemovePage` | src/kernel/memory/radix.c:75-93 | every page address is removed and reported as 0 |
| `Radix.NodeHeap.Create` | src/kernel/memory/radix.c:95-105 | a fresh node without values |
| `Radix.NodeHeap.Iter` | src/kernel/memory/radix.c:107-129 | calls come once per stored value, in ascending order of the keys as numbers |
| `Radix.NodeHeap.Delete` | src/kernel/memory/radix.c:51-73 | frees every node below the root exactly once and, when asked, every stored value once per key |
| `FileSpec.WriteStores` | src/kernel/file_system/file_descriptor.c:147-161 | a write that does not halt stores exactly its bytes at exactly its offsets; other bytes keep their value, new pages are zero elsewhere |
| `FileSpec.WriteHalts` | src/kernel/file_system/file_descriptor.c:59-78 | a write halts if and only if a page it opens is missing at an offset below the recorded size |
| `FileSpec.WritePages` | src/kernel/file_system/file_descriptor.c:66-72 | a write adds exactly the pages its bytes lie in |
| `FileSpec.ReadHalts` | src/kernel/file_system/file_descriptor.c:73-77 | a read halts if and only if a page it needs is missing |
| `FileSpec.ReadReturns` | src/kernel/file_system/file_descriptor.c:110-120 | a read returns exactly the bytes at its offsets |
| `FileSpec.StepAgrees` | src/kernel/file_system/file_descriptor.c:82-173 | one operation keeps file and log of writes in agreement; a read returns min(size, length - seek) bytes and moves the seek position by as many |
| `FileSpec.RunReads` | src/kernel/file_system/file_descriptor.c:82-200 | over every run through any descriptors, each byte read is the last one written at its offset, or zero |
| `FileSpec.RecordedSize` | src/kernel/file_system/file_descriptor.c:163-164 | the recorded size is the end of the data if and only if the write is empty or the file already longer by the count |
| `FileSpec.AppendHalts` | src/kernel/file_system/file_descriptor.c:66-77 | a second write after a first one halts if and only if it opens a page that the recorded size claims |
| `FileSpec.AppendAfterPageHalts` | src/kernel/file_system/file_descriptor.c:163-164 | a page, then one byte: the kernel stops |
| `FileStore.LevelCovers` | src/kernel/file_system/file_descriptor.c:51-56 | for every 64-bit offset the chosen root is at most the fourteenth and covers the page number |
| `FileStore.RootsAgree` | src/kernel/file_system/inode.c:38-46 | every root deep enough for a page number finds the same page |
| `FileStore.InsertIntoRoot` | src/kernel/file_system/file_descriptor.c:69-71 | an insertion through one root changes one page of the whole file and keeps the chain of roots and the rest of the heap |
| `FileStore.OtherFileKept` | src/kernel/file_system/file_descriptor.c:69-71 | an operation on one file leaves another file that shares no node and no page with it, and its bytes, as it was, and the two still share nothing |
| `FileStore.FilesKept` | src/kernel/file_system/file_descriptor.c:59-80 | of any number of files that share no node and no page, an operation on one keeps this and the contents of all the others |
| `FileStore.FileJoins` | src/kernel/file_system/inode.c:31-49 | a file created on the heap shares nothing with the files there, which keep their contents |
| `InodeFile.Inode.constructor` | src/kernel/file_system/inode.c:31-49 | sixteen nested roots and an empty file, made of new nodes only |
| `InodeFile.Inode.FindPage` | src/kernel/file_system/file_descriptor.c:50-80 | finds the page or adds a zeroed one; halts exactly when the page is missing below the recorded size; radix_insert's range guard never fires; a page added is one that no file has, and of heap and pages only the file's own change |
| `InodeFile.FileDescriptor.Write` | src/kernel/file_system/file_descriptor.c:130-173 | contents, seek position and recorded size are those of the specification; halts exactly when it does; heap and pages change only at the file's own |
| `InodeFile.FileDescriptor.Read` | src/kernel/file_system/file_descriptor.c:82-128 | the bytes and the seek position are those of the specification; heap and pages are unchanged |
| `InodeFile.FileDescriptor.Seek` | src/kernel/file_system/file_descriptor.c:196-200 | sets the seek position |
| `TrapSpec.UserModeIsSyscall` | src/arch/risc-v/arch_trap/parser.c:12-31 | a trap is taken to come from user mode if and only if scause is 8 |
| `TrapSpec.SyscallDeferred` | src/kernel/trap/uninterruptible/syscall.c:8-17 | a system call is deferred if and only if the answer is 1, and handled otherwise |
| `TrapSpec.PrintsNotDeferred` | src/kernel/syscall/handler.c:16-29 | exactly the two printing calls are never deferred |
| `TrapSpec.StringPrintDropped` | src/kernel/syscall/uart/handler.c:19-24 | after the call that prints a string the process goes on with its registers as they were and no handler is entered |
| `TrapSpec.AnswerWrites` | src/kernel/trap/interruptible/page_fault.c:9-26 | a0 is sent if and only if a user copy's page was not loaded |
| `TrapSpec.PendingKept` | src/kernel/trap/process_handler.c:18-110 | while a process is in deeper handlers, the contexts below stay as they are |
| `TrapSpec.Returns` | src/kernel/trap/process_handler.c:78-110 | the end of a handler returns to the interrupted context, save for a0 and the program counter |
| `TrapSpec.Preempted` | src/kernel/trap/handler.c:31-41 | a process without its turn does not change |
| `Traps.StepRefines` | src/kernel/trap/process_handler.c:18-110 | every step of the three-frame kernel is the step of the stack machine, halts exactly when it does, and keeps the invariant |
| `Traps.RunDetermined` | src/kernel/trap/process_handler.c:24-48 | over every interleaving the trap state determines the mapped frame and the pending handlers |
| `Traps.RunRefines` | src/kernel/trap/handler.c:43-118 | every run of the kernel is a run of the stack machine |
| `Traps.TrapReturns` | src/kernel/trap/process_handler.c:78-110 | whatever is interleaved, a handler's end restores trap state, frame mapping and registers, save for a0 and the program counter |
| `Traps.ResultReaches` | src/kernel/trap/process_handler.c:100-109 | over every run, a trap's handler writes a0 if and only if the trap was a page fault in a user copy and the page was not loaded; a system call changes the program counter only |
| `Traps.PreemptionTransparent` | src/kernel/trap/handler.c:31-41 | from one turn to the next a process keeps registers, trap state and mapping |
| `TrapHandler.Kernel.Dispatch` | src/kernel/trap/handler.c:53-92 | the switch over trap codes, including the handlers it calls |
| `TrapHandler.Kernel.HandleSyncTrap` | src/kernel/trap/handler.c:43-118 | the trap state is restored on every path; only a handled system call touches a frame |
| `TrapHandler.Kernel.EnterAsync` | src/kernel/trap/process_handler.c:18-50 | the frame switch of the first half |
| `TrapHandler.Kernel.LeaveAsync` | src/kernel/trap/process_handler.c:78-110 | the second half is the specified return |
| `TrapHandler.Kernel.TrapEntry` | src/arch/risc-v/arch_trap/trap.S:8-35 | saving, handling and resuming together are the specified trap step |
| `TrapSpace.Enter` | src/kernel/trap/process_handler.c:18-50 | the first switch of handle_async_trap on the page tables: the address space keeps its layout with the frame mapped that the trap model has mapped; halts only where the trap model does or for want of two pages |
| `TrapSpace.Leave` | src/kernel/trap/process_handler.c:78-110 | the same for the second switch |
| `TrapSpace.StartsInStep` | src/kernel/process/process.c:69-76 | a new process starts with tables and trap model in step |
| `DtbFormat.IntRoundTrip` | src/arch/risc-v/arch_device_tree/dtb.c:9-11 | reading a 32-bit number that was written |
| `DtbFormat.ShiftedBytes` | src/arch/risc-v/arch_device_tree/dtb.c:9-11 | the shifts of dtb_read_int |
| `DtbFormat.EncodedHolds` | src/arch/risc-v/arch_device_tree/dtb.c:66-141 | a blob with the bytes of a tree holds the tree, token by token |
| `DtbFormat.RepresentsUnique` | src/arch/risc-v/arch_device_tree/dtb.c:72-135 | linked devices stand for one tree only |
| `DeviceTree.ParsesItems` | src/arch/risc-v/arch_device_tree/dtb.c:66-141 | from any stack, a list at the cursor is parsed to its devices and links, and the cursor moves past it; halts exactly when it nests too deeply |
| `DeviceTree.DevicesRepresent` | src/arch/risc-v/arch_device_tree/dtb.c:72-135 | the devices built represent the list |
| `DeviceTree.BlockParsed` | src/arch/risc-v/arch_device_tree/dtb.c:59-148 | a well-formed block, with NOP tokens anywhere, yields exactly its tree in document order; halts if and only if the depth limit is reached |
| `DeviceTree.EncodingParsed` | src/arch/risc-v/arch_device_tree/dtb.c:59-148 | the same from the bytes of an encoded tree |
| `DeviceTree.NothingLost` | src/arch/risc-v/arch_device_tree/dtb.c:59-148 | the devices represent the tree and, up to NOP tokens, no other |
| `DeviceTree.RootReturned` | src/arch/risc-v/arch_device_tree/dtb.c:147-148 | the root of a block with one root node is the first device |
| `DeviceTree.StepAdvances` | src/arch/risc-v/arch_device_tree/dtb.c:66-68 | on any blob the cursor moves forward by whole words |
| `DeviceTree.Dump` | src/arch/risc-v/arch_device_tree/dtb.c:30-149 | header checks and the loop: root and devices are those of the run over the block |
| `DeviceTree.DumpEncoded` | src/arch/risc-v/arch_device_tree/dtb.c:30-149 | a blob whose header brackets the bytes of a tree is dumped to the first device as root and devices that represent the tree, unless it nests to the limit |
| `DeviceTree.PrefixGetChild` | src/arch/risc-v/arch_device_tree/dtb.c:153-168 | the n-th child in document order whose name starts with the prefix |
| `Pager.PageAllocator.Alloc` | src/kernel/memory/pager.c:230-262 | the lowest free scanned page over all regions, zeroed; fails if and only if every scanned page is in use; the hint stays sound |
| `Pager.PageAllocator.Free` | src/kernel/memory/pager.c:264-312 | clears the bit of the page that holds the address; exactly when it halts; the hint stays sound |
| `Pager.LowestUnique` | src/kernel/memory/pager.c:234-258 | there is at most one lowest free page, so the result of an allocation is determined |
| `Pager.PageAllocator.FindClosest` | src/kernel/memory/pager.c:273-284 | the region with the greatest base not above the address |
| `Pager.HintAfterFree` | src/kernel/memory/pager.c:306-311 | every scanned page before the hint is in use after a free |
| `Pager.FindsRegion` | src/kernel/memory/pager.c:273-287 | for disjoint regions in any order the search finds a page's region and number |
| `Pager.AllocThenFree` | src/kernel/memory/pager.c:264-304 | freeing an allocated page restores the bitmaps |
| `Pager.AllocApart` | src/kernel/memory/pager.c:246-256 | an allocated page is aligned and overlaps no page in use |
| `Slab.RoundedLarge` | src/kernel/memory/allocator.c:80-89 | requests above half a page round to a page or more, save that those above 2^63 round to 0 |
| `Slab.SlabAllocator.Alloc` | src/kernel/memory/allocator.c:76-165 | the lowest free slot of the smallest class; exactly what is refused and what divides by zero; the double-acquire test never fires |
| `Slab.SlabAllocator.Free` | src/kernel/memory/allocator.c:176-227 | recovers slot and bit from the address and clears exactly that bit; refuses exactly free blocks |
| `Slab.BlocksApart` | src/kernel/memory/allocator.c:160-162 | live blocks of all classes are disjoint, inside their pages and clear of the header |
| `Slab.SlotRecovered` | src/kernel/memory/allocator.c:176-186 | page and slot recovered from a block's address |
| `SlabIndex.ScanRows` | src/kernel/memory/allocator.c:104-165 | over the whole chain of index pages, the scan finds the first free slot in its order, starting where lowest_free_entry says, its data page's number and the place of its bit |
| `SlabIndex.FreeFindsBit` | src/kernel/memory/allocator.c:193-203 | for every row, number and slot, mem_free looks at the bit mem_alloc set if and only if its position is the scan's, corrected for the one entry per page that the scan leaves out |
| `SlabIndex.FirstIndexPage` | src/kernel/memory/allocator.c:193-203 | in the first index page, if and only if number times mem_free's stride is row times mem_alloc's |
| `SlabIndex.FirstDataPage` | src/kernel/memory/allocator.c:104-133 | a block of the first data page is always found |
| `SlabIndex.CountedFromZero` | src/kernel/memory/allocator.c:104-133 | while rows are numbered from 0, only those |
| `SlabIndex.SecondHalfPage` | src/kernel/memory/allocator.c:193-203 | a block whose bit is missed |
| `SlabIndex.CountsMeetAgain` | src/kernel/memory/allocator.c:104-203 | a block in the eighth index page whose bit is found |
| `Slab.TakenThenGiven` | src/kernel/memory/allocator.c:152-222 | a block freed after its allocation leaves the free slots as they were |
| `Slab.BumpAllocator.Alloc` | src/kernel/memory/allocator.c:233-248 | over every run the blocks are disjoint, 8-byte aligned and each in one page |
| `Slab.NextApart` | src/kernel/memory/allocator.c:238-245 | the next block is apart from all earlier ones |
| `Scheduler.RunSchedules` | src/kernel/trap/handler.c:31-38 | in every state of every run from a state with the invariant a live normal process is current or queued once; idle and dead ones are not queued; the running flag tells who is current |
| `Scheduler.StepKeeps` | src/kernel/process/context.c:17-43 | every admission, swap and death keeps the invariant |
| `Scheduler.EachOnce` | src/kernel/process/scheduler.c:26-44 | n runnable processes are each chosen exactly once in any n swaps |
| `Scheduler.SwapsChoose` | src/kernel/process/scheduler.c:26-44 | who is chosen by the k-th swap, and the order of the rest |
| `Scheduler.Hart.QueueProcess` | src/kernel/process/scheduler.c:37-44 | the ring buffer appends to a queue; refuses exactly when full |
| `Scheduler.Hart.NextProcess` | src/kernel/process/scheduler.c:26-35 | the ring buffer removes the head of a queue; idle when empty |
| `Scheduler.Hart.ChangeProcess` | src/kernel/process/context.c:17-43 | the running flags and the retirement of a dead process |
| `Scheduler.Hart.Swap` | src/kernel/trap/handler.c:31-38 | queueing, choosing and changing together are the specified swap |
| `Scheduler.Hart.KillCurrent` | src/kernel/process/process.c:119-128 | the current process is marked dead |
| `Hashmap.Map.Insert` | src/kernel/memory/hashmap.c:10-22 | the insertion becomes the newest of its bucket's chain |
| `Hashmap.Map.Get` | src/kernel/memory/hashmap.c:47-61 | the data of the most recent insertion with an equal key, or 0 |
| `Hashmap.BucketFinds` | src/kernel/memory/hashmap.c:47-61 | searching the key's bucket finds what searching all insertions would |
| `Hashmap.WordHash` | src/kernel/memory/hashmap.c:71-80 | the hash of a string depends on its contents only |
| `Hashmap.WordEqual` | src/kernel/memory/hashmap.c:82-94 | compares contents and reads neither string past its end |
| `Hashmap.ChoosePid` | src/kernel/process/process.c:35-43 | the first id from process_upto on that no process has |

## Left out

- PageEditor.TableMemory.ReplaceSection: only non-empty page-aligned requests shorter than 2 MiB inside one 2 MiB window and not starting on a 1 GiB boundary, with flags that make a leaf or no flags; every mapping call in the repository is of this kind. The 2 MiB and 1 GiB phases and destroy_branch pass an entry's value where its address is needed and do not advance the table indices.
- PageEditor.TableMemory.ReplaceSection: address-space identifiers and the sfence.vma loops are hardware effects.
- ProcessSpace.NewBlankProcess: the process record's other fields, its registration and the running list are not modelled; the page-fault frame is taken to carry its process pointer, which src/kernel/process/process.c:79-80 does not set.
- InodeFile.FileDescriptor.Write: files of other types than INODE_FILE panic and are not modelled; interrupt enabling is a hardware effect.
- Radix.NodeHeap.Insert: levels times bits per level must stay below 64; beyond that the shift of src/kernel/memory/radix.c:25 is undefined in C.
- Radix.NodeHeap.Delete: the call frees nodes; the model returns the addresses in order instead of changing the heap.
- Traps.TrapReturns: runs in which an interruptible handler asks for its process to be killed are excluded; that path removes a process from the scheduler's ring with a routine that updates neither start nor count.
- TrapHandler.Kernel.TrapEntry: saving and loading a frame is one step; interrupt-enable bits, stack placement on nested faults and floating-point registers are not modelled. A timer interrupt is allowed at any point of a process's code, which includes every real one.
- DeviceTree.Dump: reading outside the blob counts as halting; a 32-bit cursor that wraps past 4 GiB on a malformed blob is not modelled; all slots of the node stack start empty, where the source sets three.
- Pager.PageAllocator.Alloc: building the region list in pager_init is not modelled; regions have at most 2^19 pages, beyond which src/kernel/memory/pager.c:250 overflows 32 bits.
- Slab.SlabAllocator.Alloc: what happens once a class's first data page is full is modelled in `SlabIndex` as the scan and the place of a block's bit, not as a run of allocations; the call returns `Spilled`.
- Slab.SlabAllocator.Free: an address that is no slot of a data page is undefined in the source and excluded.
- Scheduler.RunSchedules: one hart; block_waiting is never set in the repository and is taken to be 0; killing a process that is not current, which removes it from the ring, is excluded.
- Hashmap.Map.Get: hashmap_remove never unlinks a leaf and is not modelled.
- remove_reserved_memory_regions, list.c, path lookup, reference counts, the descriptor table, the ELF parser, drivers, string helpers and boot code are not modelled.
