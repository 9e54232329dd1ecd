# Yalnix kernel core, modelled in Dafny

Yalnix is a small teaching operating system kernel that runs on a simulated machine with two
virtual-memory regions. Region 0 belongs to the kernel; its page table is shared by every
process and holds the kernel text, data, heap and the per-process kernel stack. Region 1
belongs to the running user process.

This project models the kernel's core:

- The bookkeeping structures:
  - the PCB queues (`queue.c`);
  - the doubly linked list (`list.c`);
  - the list of pipes (`pipe.c`).
- Page-table set-up at boot and the kernel break (`kernel.c`).
- The two kernel-context switch functions (`contextswitch.c`).
- The system calls Fork, Exit, Wait, GetPid, GetPPid, Brk, Delay, TtyRead and TtyWrite
  (`syscalls.c`).
- The clock trap handler and two draft system calls (`not-implemented-traphandlers.c`).
- The program loader (`load_program.c`) and its earlier draft, which allocates pages from
  the kernel's bit vector (`loadprogram.c`).

How the model is built:

- Objects the C code updates in place are Dafny classes. This covers PCBs, queues, list
  nodes, pipes, physical memory and the kernel globals.
- Page tables and the frame bit vector are arrays. C loops are `while` loops with invariants.
- Each method is proved against a specification function or predicate on values. Lemmas
  prove the properties of those specifications: round trips, preservation and frame
  accounting.
- Code the core calls but does not contain becomes a parameter of the model. This covers
  `malloc`, LoadInfo, file reads, `init_process`, `CopyUPT` and the hardware registers.
- Where a path ends in `SwapProcess`, `KernelContextSwitch` or `Halt`, the result is a `Next`
  value that names that continuation.

The modules follow the source files:

| module | files | C source |
|---|---|---|
| `Defs` | `defs.dfy` | hardware constants, page-table entries, contexts |
| `Process` | `process.dfy` | the PCB |
| `Queues` | `queue.dfy` | `queue.c` |
| `Lists` | `list.dfy` | `list.c` |
| `Pipes` | `pipe.dfy` | `pipe.c` |
| `State` | `state.dfy` | the globals, physical memory |
| `KernelTables` | `kernel.dfy` | `kernel.c` |
| `ContextSwitch` | `contextswitch.dfy` | `contextswitch.c` |
| `Sweeps` | `sweeps.dfy` | the pop-and-re-add loops shared by the queue sweeps |
| `Syscalls` | `syscalls.dfy` | Exit, Wait, GetPid, GetPPid, Delay, Fork in `syscalls.c` |
| `UserBrk` | `brk.dfy` | Brk in `syscalls.c` |
| `Tty` | `tty.dfy` | TtyRead, TtyWrite in `syscalls.c` |
| `TrapHandlers` | `traphandlers.dfy` | `not-implemented-traphandlers.c` |
| `LoadProgram` | `load_program.dfy` | `load_program.c` |
| `DraftLoader` | `draft_loader.dfy` | `loadprogram.c` |

## Model

| member | source | states |
|---|---|---|
| Queues.Queue.Init | queue.c:45-53 | a new queue has id 0, size 0 and no nodes |
| Queues.Queue.Add | queue.c:65-79 | the node goes to the tail; size stays equal to the node count |
| Queues.Queue.Pop | queue.c:100-110 | the head's PCB is returned and unlinked; the rest keep their order |
| Queues.Queue.Peek | queue.h:101-107 | NULL exactly for an empty queue, otherwise the head |
| Queues.QueueInit | queue.c:45-53 | NULL exactly when the allocation fails, otherwise an empty queue |
| Queues.QueueAdd | queue.c:65-79 | 0 exactly for a non-NULL queue, non-NULL data and an allocated node, with the node at the tail; otherwise -1 and the queue unchanged; the queue's own id never changes |
| Queues.QueuePop | queue.c:100-110 | NULL for a NULL or empty queue, with nothing changed; otherwise the head's PCB, and the queue loses exactly its head; the queue's own id never changes |
| Queues.QueueSize | queue.h:91-99 | -1 exactly for a NULL queue, otherwise the number of nodes |
| Queues.FifoOrder | queue.c:65-110 | PCBs added one by one and popped until empty come back in the order they were added |
| Lists.LNode.constructor | list.c:64-71 | an unlinked node that holds the item |
| Lists.List.Init | list.c:15-20 | an empty, well-formed list of size 0 |
| Lists.List.Add | list.c:22-36 | the item is appended after the tail, `prev` is linked to the old tail, the result is the new size, and the list stays well formed |
| Lists.List.PopAsWritten | list.c:38-48 | on any linked list, including one whose tail link already dangles, the tail item is returned and unlinked, but the new tail's `next` still points at the freed node |
| Lists.List.Pop | list.c:38-48 | LIFO removal: the last item added is returned, the others keep their order, and the list stays well formed |
| Lists.ListAdd | list.c:22-36 | -1 with no change for a NULL list or a failed allocation, otherwise append and return the new size |
| Lists.ListPop | list.c:38-48 | NULL for a NULL or empty list, otherwise the last item, which is removed as written: the links between the remaining nodes hold, and the new tail's `next` still points at the removed node |
| Lists.ListIter | list.c:57-62 | the callback sees every item once, head to tail, and nothing for a NULL list or callback |
| Lists.PopLeavesDanglingTail | list.c:38-48 | after two adds and one pop as written, the remaining tail's `next` is a node outside the list |
| Lists.PopTwiceAsWritten | list.c:38-48 | popping as written twice in a row hands back the last two items, newest first, and leaves the first, still linked |
| Lists.PopKeepsListWalkable | list.c:38-62 | after two adds and one corrected pop, list_iter visits exactly the remaining item |
| Pipes.Pipe.constructor | pipe.c:28-32 | a new pipe is empty, free and has a zeroed buffer |
| Pipes.FirstIndex | pipe.c:105-113 | the first position holding the id, or the length exactly when the id is absent |
| Pipes.Without | pipe.c:115-121 | unlinking one pipe keeps the others in order |
| Pipes.PipeList.Ids | pipe.c:134-148 | the ids of the pipes, position by position |
| Pipes.PipeList.InitHead | pipe.c:19-38 | one empty, free pipe with id MAX_LOCKS + MAX_CVARS + 1 and a zeroed buffer |
| Pipes.InitHeadPipe | pipe.c:19-38 | NULL exactly when malloc fails, otherwise a one-pipe list with the first pipe id |
| Pipes.PipeList.Add | pipe.c:46-88 | ERROR with no change on a malloc failure or a NULL head; otherwise the new pipe is linked after the tail, with the tail's id + 1 as its id and as the result |
| Pipes.PipeList.Get | pipe.c:134-148 | NULL exactly when no pipe has the id, otherwise the first pipe that has it |
| Pipes.PipeList.Remove | pipe.c:98-123 | ERROR with no change exactly when the id is absent; otherwise the first pipe with it is unlinked and the others keep their order |
| Pipes.AddKeepsIncreasing | pipe.c:71-83 | ids stay strictly increasing from head to tail after add_pipe |
| Pipes.RemoveLeavesNoDuplicate | pipe.c:98-123 | with increasing ids, after a removal no pipe has that id and the ids still increase |
| Pipes.RemoveThenGet | pipe.c:98-148 | get_pipe finds nothing under an id that remove_pipe just removed |
| State.PhysMem.Free | syscalls.c:370 | the free frames are exactly those on the free list |
| State.PhysMem.AllocatePfn | syscalls.c:370-374 | ERROR when no frame is free; otherwise a free frame that stops being free |
| State.PhysMem.DeallocatePfn | syscalls.c:395-398 | ERROR exactly for a negative or already free frame; otherwise that frame becomes free |
| KernelTables.SetRegion0 | kernel.c:163-296 | each region-0 page in text, data, heap or the kernel stack is mapped to its own frame with its segment's protection and marked taken; every other page is invalid and free; the table and the bit vector agree |
| KernelTables.Region0Coverage | kernel.c:207-293 | for a kernel laid out in order, exactly the pages below the break and the stack pages are mapped, and no page is both writable and executable |
| KernelTables.SetRegion1 | kernel.c:306-365 | the stack pointer sits `uPtSize` entries' bytes below the region's limit, and `uPtSize` entries are mapped downwards from its page, read/write and taken |
| KernelTables.Region1MapsEveryPage | kernel.c:332-357 | with a full-size region and a table that fits one page, every entry of the region-1 table is mapped, not just one stack page |
| KernelTables.FirstFree | kernel.c:451-486 | the lowest untaken slot in the range, or its end when every slot is taken |
| KernelTables.RangeUntaken | kernel.c:417-422 | true exactly when no slot in the range is taken |
| KernelTables.MapRange | kernel.c:429-441 | exactly the pages in the range become mapped read/write and taken; the table still agrees with the bit vector |
| KernelTables.GrowKernelBrk | kernel.c:395-448 | ERROR with no change for a NULL or too-high break, a target page not above the break's page, or a taken page in between; otherwise those pages are mapped and the break moves to the target's page |
| KernelTables.ScanKernelBrk | kernel.c:451-486 | the break becomes the first untaken page at or above the original break, or ERROR when the scan reaches the kernel stack; no other kernel global changes |
| KernelTables.SetKernelBrk | kernel.c:381-493 | VM on grows the mapped heap, VM off only scans, and any other register value is ERROR; of the kernel's globals only the break, region 0 and the bit vector can change |
| KernelTables.PageIndex | kernel.c:131 | the intended region-0 index: the address lies in page index + vp0 |
| KernelTables.IndexAsParsed | kernel.c:406 | the index as C parses `x >> PAGESHIFT - vp0`: the address shifted right by PAGESHIFT - vp0 |
| KernelTables.ParsedIndexAgreesAtPageZero | kernel.c:406-457 | with region 0 at page 0, `x >> PAGESHIFT - vp0` as C parses it equals the intended index |
| KernelTables.ParsedIndexWrongOffPageZero | kernel.c:406-457 | with region 0 one page up, the parsed index of the third page's address is 4 instead of 1 |
| ContextSwitch.HighestInvalid | contextswitch.c:31-40 | the highest invalid index at or below the start, or -1 exactly when none is invalid |
| ContextSwitch.FindWindow | contextswitch.c:31-40 | the window search returns the highest invalid region-0 entry at or below the stack base |
| ContextSwitch.CopyFramesCopies | contextswitch.c:44-51 | with distinct destination frames that are not sources, each destination holds its source's old contents and other frames are untouched |
| ContextSwitch.CopyPage | contextswitch.c:44-51 | one copy round: the destination becomes valid, the window maps its frame, and the live stack page is copied there |
| ContextSwitch.CopyThroughWindow | contextswitch.c:44-54 | every kernel-stack frame of the new PCB holds a copy of the live stack; the window ends invalid; no other region-0 entry changes |
| ContextSwitch.KCCopy | contextswitch.c:17-59 | NULL with no change for NULL arguments. Otherwise the context is saved in the PCB first. The result is then NULL when no window is free, with nothing else changed; otherwise the stack is copied as CopyThroughWindow says and the context is returned. Only the PCB's saved context and kernel-stack entries may change |
| ContextSwitch.Remap | contextswitch.c:84-88 | only the kernel-stack entries are replaced |
| ContextSwitch.KCSwitch | contextswitch.c:69-96 | the context is saved in `curr`, whose other fields stay; region 0's stack entries become `next`'s, all others stay; the result is `next`'s saved context |
| ContextSwitch.RemapRoundTrip | contextswitch.c:69-96 | switching A to B and back restores A's stack entries and leaves the rest of region 0 as it was |
| ContextSwitch.SwitchThereAndBack | contextswitch.c:69-96 | two KCSwitch calls, A to B and B to A, leave the table as before in every entry outside the stack, and the stack entries are A's |
| Sweeps.SelectSplits | syscalls.c:204-221 | a mask and its negation split a queue's PCBs without losing or duplicating any |
| Sweeps.SelectSplitsLength | syscalls.c:204-221 | the two selections together are as long as the sequence they split |
| Sweeps.SelectAll | syscalls.c:140-161 | a mask that is true everywhere keeps the whole queue |
| Sweeps.SelectMember | syscalls.c:165-202 | a PCB ends on the queue a sweep builds exactly when one of its visited positions holds it and is marked for that queue |
| Syscalls.ParentSeenExists | syscalls.c:140-161 | the ready sweep reports the parent exactly when some visited PCB is the parent |
| Syscalls.ExitReadySweep | syscalls.c:140-161 | the ready queue ends as it began; children of the exiting process get ppid 0; the result says whether the parent was met |
| Syscalls.LiveParentSeenExists | syscalls.c:165-202 | the blocked sweep reports the parent exactly when it meets the parent blocked on something other than Wait |
| Syscalls.ExitBlockedSweep | syscalls.c:165-202 | a parent blocked in Wait moves to the tail of ready with the exit code and one child fewer; children are orphaned; the others stay blocked in order |
| Syscalls.ExitDefunctSweep | syscalls.c:204-221 | defunct children of the exiting process are dropped and the other defunct PCBs keep their order |
| Syscalls.ExitSweeps | syscalls.c:137-222 | the three sweeps in order, over queues that share no PCB, leave the queues as ExitSwept describes |
| Syscalls.KernelExit | syscalls.c:122-248 | ERROR with no change for a NULL context; otherwise the exit code is recorded, the sweeps run when there is a parent or a child, and the process parks on defunct exactly when a parent that is not waiting was met |
| Syscalls.TakeOneLeavesRest | syscalls.c:264-286 | taking the first child out of the defunct queue removes exactly that one entry |
| Syscalls.ScanDefunct | syscalls.c:264-286 | the first defunct child is returned and removed, and the others rotate around it; with none, the queue ends as it began |
| Syscalls.KernelWait | syscalls.c:256-296 | ERROR with status ERROR when there are no children; a defunct child gives 0, its exit code as status and one child fewer; otherwise the caller blocks in Wait on the blocked queue |
| Syscalls.KernelWaitResumed | syscalls.c:299-303 | the resumed waiter gets its blocked code as status and is no longer blocked |
| Syscalls.ExitWakesWaitingParent | syscalls.c:165-303 | after Exit's blocked sweep (syscalls.c:165-202) and the end of Wait (syscalls.c:299-303), a parent blocked in Wait has left the blocked queue for the ready queue with one child fewer, its Wait reports the child's exit code as status, and it is no longer blocked |
| Syscalls.KernelGetPid | syscalls.c:311-316 | ERROR with no active process, otherwise its pid |
| Syscalls.KernelGetPPid | syscalls.c:323-328 | ERROR with no active process, otherwise its parent's pid |
| Syscalls.KernelDelay | syscalls.c:423-445 | 0 ticks gives 0 and a negative count gives ERROR, both with no change; otherwise the tick count and BLOCKED_DELAY are recorded and the caller parks on blocked |
| Syscalls.KernelFork | syscalls.c:22-87 | the highest invalid region-0 entry at or below the stack base is reserved for CopyUPT; a CopyUPT failure is ERROR with the window still reserved; otherwise the window is reset, the child joins the tail of ready, and KCCopy switches to it |
| UserBrk.TargetIndex | syscalls.c:349 | the region-1 index of the first page wholly at or above the address |
| UserBrk.AllMarked | syscalls.c:362-364 | true exactly when every entry in the range has the given valid bit |
| UserBrk.MapFresh | syscalls.c:366-380 | pages are mapped in order on free frames; when frames run out the result is ERROR and the pages mapped so far stay mapped |
| UserBrk.ReleasedStopsAtRefusal | syscalls.c:391-405 | the release stops exactly at a negative frame, a free frame or a frame released earlier in the same run |
| UserBrk.UnmapRange | syscalls.c:391-405 | frames go back one by one and entries are reset until DeallocatePFN refuses one, which makes the result ERROR |
| UserBrk.GrowHeap | syscalls.c:360-380 | ERROR with no change if a page in the range is valid; otherwise the pages are mapped as far as frames go, and 0 exactly when all are |
| UserBrk.ShrinkHeap | syscalls.c:384-406 | ERROR with no change if a page in the range is invalid; otherwise frames are handed back as far as DeallocatePFN takes them |
| UserBrk.KernelBrk | syscalls.c:336-410 | ERROR with no change for NULL or a target outside the data–stack gap; otherwise grow or shrink, and the heap index becomes the target exactly when that gave 0; no frame's contents change |
| UserBrk.OwnedFramesRelease | syscalls.c:391-405 | frames that are non-negative, distinct and not free are all taken back |
| UserBrk.GrowThenShrink | syscalls.c:360-406 | growing by n pages and shrinking back releases every frame taken, restores the invalid entries, and keeps the same free frames |
| UserBrk.FreeListRotated | syscalls.c:360-406 | after grow then shrink, the frames taken have rotated to the end of the free list |
| Tty.LineLength | syscalls.c:478-485 | the first line's length including its newline, or all of the input when there is no newline |
| Tty.FindLineEnd | syscalls.c:478-485 | the scan loop returns the first line's length in the filled part of the buffer |
| Tty.ReadLosesNothing | syscalls.c:475-506 | the bytes handed out followed by the bytes left buffered are the bytes buffered before, and the buffer keeps its size |
| Tty.TakeBytes | syscalls.c:492-504 | the first n bytes go to the caller, the rest move to the front, and the freed bytes become NUL |
| Tty.ReadLine | syscalls.c:475-506 | the first line, capped at len, goes to the caller; its length is returned and the fill count drops by it |
| Tty.WakeNextReader | syscalls.c:509-513 | with readers queued and input left, the head reader is unblocked and added to ready |
| Tty.ReadAndWake | syscalls.c:475-515 | a read as ReadLine says, then the next reader is woken when input remains |
| Tty.KernelTtyRead | syscalls.c:456-516 | ERROR for a missing queue or buffer or a negative length; 0 for length 0; otherwise the caller either parks on the reader queue or reads its line at once. The caller's buffer changes only where the line is copied. Queued readers other than the caller never change, and the caller changes only when it parks. Other terminals' fill counts never change |
| Tty.LinesCover | syscalls.c:553-593 | the lines sent, put back together, are the whole write; none is empty or longer than the maximum, and all but the last are full |
| Tty.LinesAfterOneMore | syscalls.c:553-593 | lines sent, then the lines of what is left, always make the lines of the whole write |
| Tty.ClaimTransmitter | syscalls.c:559-571 | a closed transmitter blocks the caller on this terminal; then it is marked closed for this line; no other terminal changes |
| Tty.TransmitLines | syscalls.c:553-593 | the write goes out as the lines of the buffer, in order |
| Tty.WakeNextWriter | syscalls.c:595-603 | the writer leaves the writer queue, and the next writer, if any, is unblocked and added to ready |
| Tty.KernelTtyWrite | syscalls.c:527-604 | ERROR for a missing writer queue or a negative length; 0 for length 0; otherwise the caller queues, writes all len bytes in lines when at the head, wakes the next writer (now not blocked and on the ready queue), and returns len. Other terminals' transmitters never change, and this one changes only when lines are sent. On ERROR or 0 no PCB changes. A parked caller leaves the other writers unchanged, and a completed write changes no writer but the caller and the one it wakes |
| TrapHandlers.TicksCountDown | not-implemented-traphandlers.c:104-131 | a non-negative delay clock counts down by one per tick and then stays at 0; a negative one never changes |
| TrapHandlers.DueAfterExactly | not-implemented-traphandlers.c:104-131 | a PCB delayed d >= 0 ticks is due after exactly d ticks and not before; a negative clock is never due |
| TrapHandlers.DelaySweepKeepsEveryPcb | not-implemented-traphandlers.c:104-131 | the sweep loses and duplicates no PCB across the blocked and ready queues |
| TrapHandlers.DelaySweep | not-implemented-traphandlers.c:104-131 | each blocked PCB ticks once; due ones move in order to the tail of ready, and the others stay blocked in order |
| TrapHandlers.CheckRunning | not-implemented-traphandlers.c:92-101 | exactly one running PCB is returned and the queue ends as it began; any other size halts |
| TrapHandlers.RotateReady | not-implemented-traphandlers.c:134-182 | with a PCB ready, it is popped to running, the current PCB goes to the tail of ready, and the handler switches to the popped PCB; with nothing ready, a negative delay clock is decremented |
| TrapHandlers.SweepAndRotate | not-implemented-traphandlers.c:104-184 | with one PCB running: every blocked PCB ticks once, due ones join the ready tail in order and the rest stay blocked in order; then the ready head runs and the current PCB joins the ready tail with the trap's context, or, with nothing ready, it keeps its context and takes the idle tick |
| TrapHandlers.TrapClockHandler | not-implemented-traphandlers.c:88-184 | halts with no change to the queues or to any queued PCB's delay clock or user context unless exactly one PCB runs; otherwise the delay sweep, then the ready rotation. A current PCB that switches out keeps its delay clock; one that stays keeps its user context |
| TrapHandlers.KernelGetPid | not-implemented-traphandlers.c:391-403 | the pid of the running PCB; the queue ends as it began |
| TrapHandlers.KernelDelay | not-implemented-traphandlers.c:511-547 | 0 or ERROR with no change for 0 or negative ticks; otherwise the head of the running queue is rotated to the tail (the queue is unchanged when it holds one PCB), its delay clock is set, no other running PCB's clock changes, and 0 is returned without blocking |
| LoadProgram.FirstNull | load_program.c:72-77 | argc is the index of the first NULL argument |
| LoadProgram.ArgBytesFitPacked | load_program.c:72-77 | the size counted is exactly what the arguments take saved back to back with their NULs |
| LoadProgram.CountArgs | load_program.c:72-77 | the loop returns argc and the argument bytes |
| LoadProgram.StackLayoutSound | load_program.c:91-112 | the arguments end at the region's limit; cpp is 8-byte aligned with room for argc, argv, envp and the spare space; sp leaves the initial frame; the stack pages start at sp's page |
| LoadProgram.FreedReleasesEveryFrame | load_program.c:189-197 | the teardown keeps the old free list in front and frees every frame a valid entry held |
| LoadProgram.FreedKeepsNoDuplicates | load_program.c:189-197 | the teardown never lists a frame twice |
| LoadProgram.DiscardRegion1 | load_program.c:189-197 | every valid entry becomes invalid with frame 0, and its frame goes to DeallocatePFN in table order |
| LoadProgram.MapSegment | load_program.c:211-270 | a segment's pages are made valid and read/write and get the next free frames; running out stops the loop |
| LoadProgram.RebuildLayout | load_program.c:199-270 | for ordered segments, all pages are mapped exactly when enough frames are free, and the pages get the first free frames in order |
| LoadProgram.ProtectText | load_program.c:319-322 | every text page becomes readable and executable and not writable; nothing else changes |
| LoadProgram.BuildRegion1 | load_program.c:189-270 | the teardown, then the three segment loops, with each segment index set as its loop starts |
| LoadProgram.LoadAccepted | load_program.c:133-362 | the stack pointer is set; a failed argument buffer gives ERROR; a short build gives ERROR, and exactly then the address space goes to free_addr_space; a failed read gives KILL; otherwise the text is protected, pc is set, and SUCCESS |
| LoadProgram.LoadProgram | load_program.c:17-362 | ERROR with no change and no free_addr_space call for a refused executable, otherwise LoadAccepted |
| LoadProgram.MappedImageOfSlots | load_program.c:199-322 | segment pages on the first free frames in slot order, with all else invalid, make an image with distinct frames none of which stays free |
| LoadProgram.AcceptedImage | load_program.c:133-362 | a successful accepted load maps exactly the segment pages with their protections and distinct frames, sets the indices, and sets pc and sp |
| LoadProgram.LoadedImage | load_program.c:17-362 | a successful load leaves region 1 as the executable asks, with at least one page between heap and stack and the user context set |
| LoadProgram.LoadRunsShort | load_program.c:199-270 | with the argument buffer allocated, the load gives ERROR exactly when fewer frames are free after the teardown than the segments need, and exactly then calls free_addr_space |
| DraftLoader.FreeCountPositive | loadprogram.c:413-426 | some slot in the range is free exactly when the free count is positive |
| DraftLoader.FreeCountTake | loadprogram.c:413-426 | taking one free slot lowers the free count by one |
| DraftLoader.FirstFree | loadprogram.c:413-426 | the lowest free slot of the range |
| DraftLoader.GetFreePage | loadprogram.c:413-426 | the lowest free region-1 slot is marked not free and returned, and nothing else changes |
| DraftLoader.DiscardTable | loadprogram.c:227-232 | valid entries become invalid with frame 0, and no frame is given back |
| DraftLoader.CallsBelowGrows | loadprogram.c:245-310 | more table indices never take fewer pages |
| DraftLoader.MapPage | loadprogram.c:262-267 | the index gets the lowest free page, valid and read/write |
| DraftLoader.MapIndex | loadprogram.c:251-306 | each test that takes the index maps it to a new page, and the last one wins |
| DraftLoader.BuildTable | loadprogram.c:245-310 | every segment page gets its own formerly free page, other entries are unchanged, and exactly one page is taken per test that fires |
| DraftLoader.DraftProtect | loadprogram.c:367-372 | indices in [text, text + pages - 1) get X_W_NO_R and nothing else changes |
| DraftLoader.DraftProtectMisses | loadprogram.c:367-372 | the last text page is not executable, and the other text pages are writable but not readable |
| DraftLoader.RebuildRegion1 | loadprogram.c:227-310 | the teardown and the build leave a DraftBuilt table, with every mapped page still readable-writable |
| DraftLoader.DraftAccepted | loadprogram.c:172-410 | the stack pointer is set; a failed argument buffer gives ERROR with nothing else changed; otherwise the table is rebuilt, and a failed text or data read gives KILL with the table built but unprotected and pc unset; when both reads succeed the text is protected as written, pc is set, and SUCCESS |
| DraftLoader.DraftLoadProgram | loadprogram.c:55-410 | ERROR exactly for a refused image or a failed argument buffer, leaving the bit vector and table unchanged; KILL exactly when the build ran and a segment read failed; SUCCESS exactly when both reads succeeded, with a DraftBuilt table and pc set |

## Left out

- I/O and file reads: `open`, `LoadInfo`, `lseek` and `read` are outside the model. Their
  outcomes are parameters: what LoadInfo reports, and whether each segment read succeeds.
- TLB flushes, `WriteRegister` and `TracePrintf` have no state in the model.
- The argument copy onto the new stack (`strcpy`, `memset`, `bzero`) is left out. Only the
  stack layout it uses is modelled.
- `SwapProcess`, `KernelContextSwitch`, `Halt`, `delete_process` and `free_addr_space` are not
  part of this model. A path that calls one ends in a `Next` value or takes the callee's
  outcome as a parameter. LoadProgram instead reports its call of `free_addr_space` after a
  short build in the `freesAddrSpace` result.
- `init_process` and `CopyUPT` are not part of this model. KernelFork takes the child and
  CopyUPT's outcome as parameters.
- The bodies of `AllocatePFN` and `DeallocatePFN` are not in the source. `PhysMem` gives them
  a free-list contract.
- `queue_remove`, `queue_find` and `queue_delete` have empty bodies in `queue.c`.
  `process_init` in `process.c` holds only comments.
- After `KernelContextSwitch` returns, the clock handler repairs the queues
  (not-implemented-traphandlers.c:165-169). This code runs in another process's turn and is
  not modelled. Until then the current PCB is on both the running and ready queues.
- A failed `queue_add` node allocation is modelled only in queue.c's own QueueAdd and in
  KernelFork (syscalls.c:72). Every other caller assumes the allocation succeeds:
  - the Exit sweeps and the defunct scan of KernelWait (syscalls.c:157, 182, 198, 216, 282);
  - the tty wake-ups and the writer queue (syscalls.c:512, 542, 600);
  - the clock handler's re-adds and rotation (not-implemented-traphandlers.c:101, 118-128,
    149-150);
  - the draft KernelGetPid and KernelDelay (not-implemented-traphandlers.c:401, 533).
- Pipes.PipeList: the chain of `next` pointers is the order of a sequence of pipes, so a
  cyclic chain, or two pipes sharing one successor, cannot be expressed. In-place relinking
  is modelled as sequence updates.
- KernelTtyWrite's wait for the transmit interrupt is left out. The model continues as if the
  interrupt had reopened the transmitter.
- Addresses and sizes are unbounded integers, so 32-bit wrap-around is not modelled.
- LoadProgram's check of `u_pt` for NULL (load_program.c:173-176) is left out. The PCB's
  table is an array, so it is never NULL.
- `queue_add` returns -1 on failure, while queue.h documents 1. The model follows queue.c.
- `list_init` has no return statement. The model gives the list as the result.
- The KernelDelay of syscalls.c sets `clock_ticks`, but the clock handler counts down
  `delay_clock`. Both fields are modelled as written, so a delay set through syscalls.c is
  never counted down by this handler.
- The draft loader reads the segments only as the `textReadOk` and `dataReadOk` outcomes,
  and never sets the segment indices. It frees no
  frames at teardown and searches the bit vector only over region-1 page numbers. Where
  segments overlap, it takes more pages than it maps. The model states all of this as written.
- LoadProgram.LoadProgram: requires LoadInfo's answer to be sane (`Sane`): no negative page
  count, and text and data starting inside region 1. The C code trusts LoadInfo on these.
- Syscalls.KernelWait: requires a non-NULL status pointer, because the C code writes
  ERROR through it even when it is NULL.
- Tty.KernelTtyRead: requires the terminal id to name a terminal, because the C code
  never checks it.
- Tty.KernelTtyWrite: requires the terminal id to name a terminal, because the C code
  never checks it.
- Pipes.PipeList.Remove: the head's id is excluded, because the C code then writes through an
  uninitialised `pipe_before`.
- Pipes.PipeList.Get: requires a non-empty list, because the C code dereferences the head.
- DraftLoader.GetFreePage: requires a free slot, because the C function falls off its end
  without a return value when there is none.
- DraftLoader.DraftLoadProgram: requires as many free pages as the build takes, for the
  same reason as GetFreePage.
- KernelTables.GrowKernelBrk: requires `addr`'s page to lie inside the table and the bit
  vector, because the C code never checks `addr`.
- ContextSwitch.KCCopy: requires KERNEL_STACK_SIZE to be positive and the live stack pages
  to be mapped, as they are while the kernel runs on them.
- TrapHandlers.KernelDelay: for a positive tick count, requires a non-empty running queue,
  because the C code dereferences the head that `queue_pop` returns.
- TrapHandlers.KernelGetPid: requires a non-empty running queue, because the C code
  dereferences its head.
- UserBrk.MapFresh: the clean-up call after `return` at syscalls.c:373 is unreachable. The
  model leaves the pages mapped so far as they are, as the code does.

## Findings

| source | as written | input that shows it | evidently intended | confidence | as-written member | corrected member |
|---|---|---|---|---|---|---|
| list.c:38-48 | `list_pop` unlinks and frees the tail but never clears the new tail's `next` | add a, add b, pop: a's `next` still points at the freed node, and a later `list_iter` walks into it | the new tail's `next` becomes NULL | not executed | Lists.PopLeavesDanglingTail | Lists.PopKeepsListWalkable |
| kernel.c:406 | `addr >> PAGESHIFT - vp0`, also at lines 409, 427 and 457: C's `-` binds tighter than `>>`, so this shifts by `PAGESHIFT - vp0`. The bug is latent while region 0 starts at page 0, as it does in this model | vp0 = 1, PAGESHIFT = 13, address 2 * 8192: index 4 instead of 1 | `(addr >> PAGESHIFT) - vp0`, as kernel.c:131 writes it | not executed | KernelTables.ParsedIndexWrongOffPageZero | KernelTables.PageIndex |
| loadprogram.c:367-372 | the text protection loop stops one page short and uses X_W_NO_R | a text segment of two pages: page 0 becomes writable, executable and unreadable; page 1 keeps read/write and is not executable | every text page readable and executable, not writable | not executed | DraftLoader.DraftProtectMisses | LoadProgram.ProtectText |
