# Yu-OS in Dafny

A model of the stateful cores of Yu-OS, a small x86 kernel with a user-level copy-on-write fork and a user-level file
server, and proofs about it. `dafny verify dfyconfig.toml` checks everything.

| file | what it models |
|---|---|
| Base, Paging, Accounting | shared vocabulary; physical memory, two-level page tables and what refers to which frame; the page allocator's list and counts |
| EnvTable, KernelCalls | environment ids, free list, scheduling order and IPC fields; the system calls and what each must have done |
| KernelRuns, Kernel | the traces of runs and what adds up over them; the kernel as a class: pmap.c, env.c, sched.c, syscall.c, the return path of trap.c, and runs of any length |
| CowFork, ForkCopies | fork.c as interleaved steps of many environments, refining eager page copying; what a finished fork has copied, and that nobody gets stuck |
| FaultFrames | the fault frame pushed by trap.c and the instructions of pfentry.S that unwind it, at any nesting depth |
| Blocks, FsLayout, FsInvariant | disk blocks as bytes, words and bits; struct File, directory and indirect blocks read off a block image; the file-system invariant and how each store keeps it |
| FileSystem, PathNames | the block cache and the file operations of bc.c and fs.c as a class; how paths are spelled |
| FsRestart | what a server started afresh finds on the disk after a flush |
| FsFormat, FsAgreement | fsformat.c as a class, and its agreement with the server |
| OpenFiles, FileRuns | the open-file table and the open, read and write requests of serv.c; runs of file operations against one flat byte array per file |
| FileServer | the request protocol of fsipc, ipc.c and serve as interleaved steps |
| ArgvStack, StabSearch | init_stack of spawn.c; stab_binsearch of kdebug.c |

Main results:

- Reference counts are exact, and the environment table in order, after every run of system calls, timer ticks and user
  stores from boot, if and only if no page has more references than the 16-bit `pp_ref` can hold (`Kernel.Boot`,
  `Kernel.Run`, `Kernel.Trap`).
- In every such run each trap did what its call should and went where it should: every tick schedules, and the kernel
  stops only in a panic or when nothing can run. Over any stretch of a run in which a slot could run and did not, the
  yields are at most its circular distance, plus its slot number for every environment that exited, after which the scan
  starts again at slot 0 (`Kernel.Run`, `NoStarvation`).
- In every such run each message used up a wait of its receiver and stays until that slot's next wait, and an id whose
  slot has been allocated again names nobody, until 2^19 - 1 allocations later (`Kernel.Run`, `RunBalances`,
  `OldIdsStayStale`).
- In every such run memory keeps its contents: while a page stays mapped, each of its words is the one last stored there
  through any mapping of it, whatever is mapped, sent, unmapped, forked or destroyed meanwhile, and the kernel's own
  translations stay (`MemoryHolds`, `RunRemembers`).
- Tearing an environment down returns exactly the pages that only it referred to (`TeardownConserves`).
- Copy-on-write fork refines eager copying for any number of forks and any interleaving (`ForkRefinesEagerCopying`,
  `FreshRunsRefine`). A finished fork has copied the parent: every page it had at the start but the exception stack,
  each exactly once and as the parent held it at that instant (`ForkCopiesParent`).
- The return instructions of the fault upcall restore every interrupted state at any depth (`NestedFaultsRestore`), and
  until then each handler finds the address and error code of its own fault in its frame (`NestedFaultsTell`); one level
  restores it exactly unless the stack pointer is at the very top of the exception stack (`RoundTrip`).
- Blocks of the file system are owned by exactly one reference, nothing leaks, and the bitmap on disk never shows a
  named block free; every operation keeps this (`Server.Valid`, `NamedOnceAndInUse`, `NothingLeaks`).
- So do runs of any length. Every operation of a run does what it should to the file it names and fails only for its
  reasons, the disk is in order after each, and the whole behaves like one flat byte array per file (`Step`,
  `StoryRefines`, `RunOps`). From every formatted disk this covers runs of lookups, creations, reads, writes, resizes and
  flushes in any order, the directory growing as it must, until after a resize that cut a file the directory would have
  to take a free block (`Run`, `FormatThenRun`).
- What the directory may grow into, be overwritten with and lose without breaking that ownership is characterised
  exactly (`StaleDirectory`, `GrowsExactly`, `DirectoryWrite`, `DirectoryWriteIndirect`, `DirectoryCut`).
- However a path is spelled, it stands for the names between its slashes, and every path is a spelling of the names it
  is taken apart into (`ComponentsOfSpelling`, `PathIsSpelled`, `ResolvesExactly`).
- `file_write` and `file_read` refine one flat byte array per file (`FileWrite`, `FileRead`, `WriteThenRead`,
  `OpenWriteRead`), and `file_flush` makes a file survive the loss of the cache (`FlushSurvives`, `FlushRestartRead`).
- Any image `fsformat` builds from a non-empty list is accepted by the server and reads back byte for byte
  (`FormatThenRead`); with an empty list it is not (`EmptyListUnsound`).
- The file-server protocol gives every client the answer to its own request, once, in every interleaving
  (`ProtocolSafe`), never gets stuck (`NeverStuck`), and takes exactly eight steps a request besides retries, after which
  all are answered (`WorkConserved`, `EveryRequestAnswered`).
- `stab_binsearch` is right exactly unless the entry of the address is come upon before that of the next address, or is
  the last address of all, with one lucky exception (`RightExactly`).

Conventions. A kernel or server panic is either a result of the model or a precondition that every call in the model
proves. Frames, blocks and environments are numbers; a `struct File *` is the block and word it points at. Ghost
parameters of methods (`limbo`, `f`, `files`) name the thing a pointer or a half-done step stands for. In FsLayout, `Target`,
`Home`, `Size`, `Kind` and `Char` are the readings `Walk`, `Seat`, `Field` and `FieldByte` under names that proofs look
through only after `assert Open(0)`, which keeps proofs about whole images small; `Bytes` in Blocks and FaultFrames and
`Instructions` in FaultFrames, `Detail` in EnvTable and ForkCopies and `Halved` in StabSearch serve the same purpose. The field
`wrapped` of the kernel class only tells `Run` when to stop: it is shown to be set exactly when some page has more than
65535 references.

## Model

| member | source | states |
|---|---|---|
| `KernelModel.PageInit` | kern/pmap.c:234-269 | the free list threads exactly the frames outside page 0, the I/O hole and the kernel, each once, with zero counts |
| `KernelModel.Kernel.PageAlloc` | kern/pmap.c:283-300 | takes the head of the list, unreferenced, zeroed on request; fails only on an empty list; no translation moves |
| `KernelModel.Kernel.PageFree` | kern/pmap.c:306-320 | puts an unreferenced frame back at the head; neither panic is reachable |
| `KernelModel.Kernel.PageDecref` | kern/pmap.c:480-486 | drops one owed reference and frees the frame exactly when the count reaches zero |
| `KernelModel.Kernel.PageLookup` | kern/pmap.c:333-347 | finds exactly the entry of the two-level lookup, and it maps a referenced data frame |
| `KernelModel.Kernel.NewTable` | kern/pmap.c:371-395 | a new table maps nothing: all translations stay, one directory entry is added |
| `KernelModel.Kernel.PgdirWalk` | kern/pmap.c:371-395 | the table of an address, created only on demand and only when missing; failure changes nothing |
| `KernelModel.Kernel.PageRemove` | kern/pmap.c:460-474 | deletes exactly one translation and returns the frame if that was its last reference |
| `KernelModel.Kernel.FillPte` | kern/pmap.c:420-445 | adds one translation and one reference; counts stay exact if 16 bits suffice |
| `KernelModel.Kernel.Repermit` | kern/pmap.c:420-445 | re-inserting the same page changes permissions only, and no count |
| `KernelModel.Kernel.MakeRoom` | kern/pmap.c:420-445 | drops whatever other page is mapped at the address; the page to come keeps its references |
| `KernelModel.Kernel.StorePte` | kern/pmap.c:420-445 | replaces whatever was mapped there, including the same page |
| `KernelModel.Kernel.TableFor` | kern/pmap.c:420-445 | the walk of page_insert finds or makes the table, and the page to be mapped keeps its references; failure changes nothing |
| `KernelModel.Kernel.PageInsert` | kern/pmap.c:420-445 | updates exactly one entry of the flat map, or returns -E_NO_MEM with everything unchanged |
| `KernelModel.Kernel.BootMapPage` | kern/pmap.c:548-558 | maps one kernel page and leaves every other kernel page alone |
| `KernelModel.Kernel.BootMapRegion` | kern/pmap.c:548-558 | maps a range linearly and leaves every other kernel page alone |
| `KernelModel.Kernel.MapRegions` | kern/pmap.c:160-196 | every kernel page is mapped by the last region that covers it; stops only without a free page |
| `KernelModel.AllMappedNext` | kern/pmap.c:160-196 | one more region keeps the earlier ones except where it covers them |
| `KernelModel.BareSpace` | kern/pmap.c:234-269 | with only the empty kernel directory, zero counts and a full free list are exact |
| `KernelCalls.UserPagesDistinct` | kern/syscall.c:173-213 | an aligned address below UTOP is put together from its directory and table indices, so different ones never share both |
| `KernelCalls.SplitsUp` | kern/syscall.c:173-213 | an address is put together from its directory index, table index and offset |
| `KernelCalls.PermissionBits` | kern/syscall.c:231-278 | the permission tests of the system calls are about bits 0 to 2 and 9 to 11 of perm, one by one |
| `KernelCalls.EntryBits` | kern/pmap.c:420-445 | a table word is present by bit 0 and writable by bit 1, and a page inserted gets the bits of perm and PTE_P, no others |
| `KernelCalls.UntouchedKeeps` | kern/syscall.c:231-278 | a call that leaves all frames in use alone keeps the words of every mapped page |
| `KernelCalls.FreshKeeps` | kern/syscall.c:173-213 | so does one that zeroes a frame taken from the free list |
| `Accounting.UntouchedTorn` | kern/env.c:422-472 | tearing an address space down changes no page that is still mapped |
| `KernelModel.EnvInit` | kern/env.c:110-123 | every slot free and listed in order; the table invariant holds |
| `KernelModel.Kernel.EnvidToEnv` | kern/env.c:68-102 | answers exactly for the id of a live, permitted environment |
| `KernelModel.Kernel.CopyKernelHalf` | kern/env.c:156-193 | a directory that repeats the kernel above UTOP, maps itself at UVPT and is blank below |
| `KernelModel.Kernel.EnvSetupVm` | kern/env.c:156-193 | a directory with no user translations; fails exactly when there is no frame, changing nothing |
| `KernelModel.Kernel.EnvAlloc` | kern/env.c:203-264 | first free slot, next id, counts exact; both failures change nothing |
| `KernelModel.Kernel.FreeTable` | kern/env.c:422-472 | one page table emptied and freed, all other references in place |
| `KernelModel.Kernel.ReleaseSpace` | kern/env.c:422-472 | every reference of the environment dropped and no other |
| `KernelModel.Kernel.EnvFree` | kern/env.c:422-472 | address space released, slot back at the head of the free list, other slots untouched |
| `KernelModel.Kernel.EnvDestroy` | kern/env.c:477-486 | as env_free, with no other slot changed; then schedules exactly when the caller destroyed itself, over the table without it and without a curenv |
| `KernelModel.Kernel.EnvRun` | kern/env.c:513-541 | exactly the hand-over: a RUNNING curenv becomes RUNNABLE, the chosen slot RUNNING and curenv, no other slot changes |
| `KernelModel.Kernel.SchedYield` | kern/sched.c:8-34 | hands over to a runnable slot at least as near as every other runnable one, or back to curenv for want of one; stops exactly when nothing can run, changing nothing |
| `KernelModel.Kernel.AllocAt` | kern/syscall.c:173-213 | a zeroed page at one address, or the page given back; no other mapped page loses a word |
| `KernelModel.Kernel.SysPageAlloc` | kern/syscall.c:173-213 | each error exactly when its check fails; success maps the head of the free list, zeroed, at one address; no other mapped page loses a word |
| `KernelModel.Kernel.MapAt` | kern/syscall.c:231-278 | the source page mapped at one place of the destination, with every word of every mapped page as it was; refused exactly when absent or read-only and write asked |
| `KernelModel.Kernel.MapVa` | kern/syscall.c:231-278 | mapping by address; afterwards the counts are exact iff no page has more than 65535 references, which holds iff this page has not |
| `KernelModel.Kernel.SysPageMap` | kern/syscall.c:231-278 | each error explained, unknown permission bits panic; on success the source page, with the contents it had, at one place of the destination, every other mapped page as it was, with exact counts iff no page has more than 65535 references |
| `KernelModel.Kernel.SysPageUnmap` | kern/syscall.c:287-305 | exactly one translation removed, or an error with nothing changed; what is still mapped keeps its words |
| `KernelModel.Kernel.MarkChild` | kern/syscall.c:72-99 | the store after env_alloc leaves a child of the caller, and nothing else posted |
| `KernelModel.Kernel.AllocChild` | kern/syscall.c:72-99 | env_alloc for the caller: its slot and no other is allocated once more; both failures change nothing |
| `KernelModel.Kernel.SysExofork` | kern/syscall.c:72-99 | one free slot is allocated once more, as a NOT_RUNNABLE child of the caller with no pages, under the slot's next id, which named nobody; no other slot is allocated; each failure explained and without effect |
| `KernelModel.Kernel.SysEnvSetStatus` | kern/syscall.c:108-131 | only a permitted environment's status changes, only to the two allowed values |
| `KernelModel.Kernel.SysEnvDestroy` | kern/syscall.c:50-66 | only a permitted environment is destroyed, with its whole address space; control leaves the caller exactly when it destroyed itself |
| `KernelModel.Kernel.SendPage` | kern/syscall.c:374-425 | refuses exactly the bad offers; moves the page exactly when the receiver wants one; counts exact iff no page has more than 65535 references |
| `KernelModel.Kernel.Deliver` | kern/syscall.c:374-425 | value, sender and, with a page, permission land in the waiting receiver, which can run again |
| `KernelModel.Kernel.SendTo` | kern/syscall.c:374-425 | page and message to a waiting receiver together, or nothing; a send that succeeds with a page offered had a good offer |
| `KernelModel.Kernel.SysIpcTrySend` | kern/syscall.c:374-425 | all or nothing: a failed send changes nothing, with each error explained; counts exact iff no page has more than 65535 references |
| `KernelModel.Kernel.BeginWait` | kern/syscall.c:438-452 | the wait is recorded, one more receive counted, and nobody else changes |
| `KernelModel.Kernel.SysIpcRecv` | kern/syscall.c:438-452 | the caller waits with its destination recorded; one more receive counted; every other slot keeps everything but its status; schedules over exactly that table, counting from the caller |
| `KernelModel.Kernel.MemoryCall` | kern/syscall.c:507-560 | dispatches to the memory calls with their full effects; the counts are exact afterwards iff no page has more than 65535 references |
| `KernelModel.Kernel.EnvCall` | kern/syscall.c:507-560 | dispatches to the environment calls with their full effects, what they post, and where control is left: it leaves the caller exactly when the caller destroyed itself, and halts only if nothing can run |
| `KernelModel.Kernel.IpcCall` | kern/syscall.c:507-560 | dispatches to the two IPC calls with their full effects, what they post and where control is left: the waiting flags, mail and tallies of all other slots stay; the counts are exact afterwards iff no page has more than 65535 references |
| `KernelModel.Kernel.UserStore` | kern/trap.c:239-279 | one word of the page mapped there, or a fault exactly when the page is absent or read-only; no translation moves |
| `KernelModel.Kernel.Tick` | kern/trap.c:187-236 | a tick always schedules over the table it finds; halts exactly when nothing can run |
| `KernelModel.Kernel.PageCall` | kern/syscall.c:507-560 | the memory calls leave the table alone and keep the CPU; sys_page_map with unknown permission bits halts the kernel |
| `KernelModel.Kernel.Dispatch` | kern/trap.c:187-236 | one trap: the effect of its call, the message, wait or allocation it posted and no other, the table invariant, exact counts iff no page has more than 65535 references, and where control is left: which calls schedule, over which table, and why the kernel halts |
| `KernelModel.Kernel.Resume` | kern/trap.c:270-279 | returns to curenv, changing nothing, while it is RUNNING, otherwise schedules over the table as it is |
| `KernelModel.Kernel.Finish` | kern/trap.c:239-279 | the way back to user mode posts nothing of its own, and schedules exactly when the call came back and curenv no longer runs |
| `KernelModel.Kernel.Trap` | kern/trap.c:239-279 | what the call did and posted, whichever it was: waiting flags, mail, ids and tallies of all slots move only so; exactly where control went: which slot got the CPU and why, or why the kernel stopped; the invariant holds afterwards iff no page has more than 65535 references |
| `KernelModel.Kernel.RunOne` | kern/trap.c:239-279 | a trap adds its call, what it did and posted, and where it went to the story of the run |
| `KernelModel.Kernel.Run` | kern/trap.c:239-279 | over any sequence of traps: the trace has each call with its result, what it did and where it went; the invariant holds iff no page has more than 65535 references; no slot that can run is passed over for longer than `NoStarvation` says; the run ends early only where the last trap stopped the kernel or a count overflowed; for every slot, messages never outnumber waits, mail stays until the next wait, allocations are counted, and an old id names nobody for 2^19 - 2 allocations; words of mapped pages change only by stores to them |
| `KernelModel.Kernel.Start` | kern/init.c:15-75 | the first environment is created without a parent, under its slot's next id, and run |
| `KernelModel.Kernel.ReserveRing` | kern/e1000.c:82-84 | the ring's pages are taken off the list for good, without moving a translation; fails only on an empty list |
| `KernelModel.Kernel.RingIsApart` | kern/e1000.c:82-84 | as long as the invariant holds no table, directory or user mapping refers to a ring page |
| `KernelModel.Kernel.BringUp` | kern/init.c:15-75 | regions mapped, ring pages taken and the first environment running, with the invariant; fails only for lack of a page |
| `KernelModel.Kernel.PowerOn` | kern/init.c:15-75 | from any memory contents to the first environment running, with the invariant and the ring pages taken; fails only for lack of a page |
| `KernelModel.Kernel.RunApart` | kern/trap.c:239-279 | all that `Run` says, and the ring pages are still nobody's |
| `KernelModel.Kernel.Boot` | kern/init.c:15-75 | from power-on, with any memory contents, any kernel regions mapped and any number of ring pages taken, the invariant holds after every run iff no page has more than 65535 references; the ring pages are still nobody's; the trace, number of calls and halt of the run with everything `Run` says of them |
| `KernelModel.Kernel.constructor` | kern/init.c:15-75 | after page_init and env_init the invariant holds and nothing is mapped |
| `Paging.WriteData` | kern/pmap.c:283-300 | stores into data frames move no translation |
| `Paging.WriteTable` | kern/pmap.c:420-445 | a store into a table changes exactly one translation |
| `Paging.InstallTable` | kern/pmap.c:371-395 | hooking in a blank table translates nothing new |
| `Paging.InstallDir` | kern/env.c:156-193 | a fresh directory adds one reference and no translation |
| `Paging.CountMoves` | kern/pmap.c:420-486 | moving one reference moves the counts of its old and new frame by one |
| `Paging.StructuralCount` | kern/pmap.c:371-395 | a table or directory frame is referred to exactly once, so never mapped as user data |
| `Accounting.ChainPop` | kern/pmap.c:283-300 | taking the head keeps the list acyclic and duplicate-free |
| `Accounting.ChainPush` | kern/pmap.c:306-320 | pushing an unlisted frame keeps the list acyclic and duplicate-free |
| `Accounting.ExactGain` | inc/memlayout.h:120 | after a 16-bit increment counts are exact iff the new count fits |
| `Accounting.ExactLoss` | kern/pmap.c:460-474 | clearing an entry leaves exactly one reference owed to the count |
| `Accounting.SoundIsBounded` | inc/memlayout.h:120 | exact 16-bit counts imply at most 65535 references per frame |
| `Accounting.TeardownConserves` | kern/env.c:422-472 | env_free lowers each count by the environment's own references and frees exactly the frames it alone referred to |
| `EnvTable.NextIdIsNth` | kern/env.c:203-264 | the generation arithmetic, sign wrap included, gives the n-th id of a slot |
| `EnvTable.Successor` | kern/env.c:203-264 | one step of that arithmetic, with the reset after the sign wrap |
| `EnvTable.IdsRecur` | kern/env.c:203-264 | ids are positive, carry their slot, and recur exactly every 2^19 - 1 allocations of the slot |
| `EnvTable.LiveIdsDistinct` | kern/env.c:68-102 | two live environments never share an id |
| `EnvTable.StaleIdStaysStale` | kern/env.c:68-102 | an old id names no live environment until the slot has been reallocated 2^19 - 1 times |
| `EnvTable.NextIdIsNobodys` | kern/env.c:203-264 | the id a free slot gets next is positive and names no live environment |
| `EnvTable.DistIs` | kern/sched.c:8-34 | the circular distance without the remainder |
| `EnvTable.DistShrinks` | kern/sched.c:8-34 | each yield that picks another slot brings a runnable slot strictly nearer |
| `KernelRuns.GoesBack` | kern/trap.c:239-279 | a trap that does not stop the kernel ends with curenv RUNNING |
| `KernelRuns.StopsExactly` | kern/trap.c:239-279 | a trap stops the kernel exactly when it is sys_page_map with unknown permission bits, the rest of its arguments in order, or leaves nothing that can run |
| `KernelRuns.OthersStay` | kern/syscall.c:108-131 | a call that only stops its own caller leaves every other slot runnable |
| `KernelRuns.PassedOver` | kern/sched.c:8-34 | a trap that passes a runnable slot over brings it strictly nearer if it yields, leaves the distance if it does not, and counts from slot 0 if the caller exited |
| `KernelRuns.NoStarvation` | kern/sched.c:8-34 | over any stretch of a run in which a slot is RUNNABLE before every trap while another runs, and is not running at the end: ticks are at most yields, and yields at most the slot's circular distance at the start plus its slot number for every self-destruction in the stretch |
| `EnvTable.FindRunnable` | kern/sched.c:8-34 | the scan finds the nearest runnable slot, the current one last |
| `EnvTable.SlotTaken` | kern/env.c:203-264 | taking the first free slot keeps the table invariant |
| `EnvTable.SlotReturned` | kern/env.c:465-472 | returning a slot keeps the table invariant |
| `EnvTable.ChildMade` | kern/syscall.c:72-99 | the new slot is a NOT_RUNNABLE child with its slot's next id, which is positive; no other slot's mail, id or allocations change, and the table invariant holds |
| `EnvTable.PostedThen` | kern/sched.c:8-34 | scheduling after a call leaves mail, ids and tallies as the call left them |
| `EnvTable.NamesOne` | kern/env.c:68-102 | an id names at most one environment |
| `KernelCalls.ExoforkMade` | kern/syscall.c:72-99 | the id handed out named nobody before |
| `KernelCalls.WaitBegun` | kern/syscall.c:438-452 | setting the fields and scheduling is a wait begun, with every other slot's fields kept |
| `KernelRuns.ScheduleServes` | kern/sched.c:8-34 | the same for every slot and every stretch of a run |
| `KernelRuns.BalancedNext` | kern/syscall.c:374-452 | one trap keeps the balance of messages and waits of every slot |
| `KernelRuns.RunBalances` | kern/syscall.c:374-452 | over any run and for every slot: messages received plus the final flag are at most waits begun plus the initial flag; value and sender stay while the slot begins no wait; allocations and id changes are exactly the forks that took the slot |
| `KernelRuns.OldIdsStayStale` | kern/env.c:68-102 | over any run an id names nobody once its slot has been allocated again, up to 2^19 - 2 times |
| `KernelRuns.WordStep` | kern/trap.c:239-279 | one trap changes a word of a mapped page only by a store to it |
| `KernelRuns.MemoryHolds` | kern/trap.c:239-279 | over any stretch of a run in which a frame stays mapped, each of its words is the one last stored there |
| `KernelRuns.KernelStays` | kern/env.c:156-193 | over any run the kernel's own translations stay |
| `KernelRuns.RunRemembers` | kern/trap.c:239-279 | both for every stretch, frame and word of a run |
| `KernelRuns.OneMore` | kern/trap.c:239-279 | a trap that did what it should and went where it should extends the story of a run |
| `KernelRuns.ToldMeans` | kern/trap.c:239-279 | a run whose traps each did what they should starves nobody, balances every slot's messages and ids and keeps memory |
| `CowFork.StepKeeps` | lib/fork.c:14-170 | every step of every handler, duppage call and store keeps the page invariant |
| `CowFork.StepView` | lib/fork.c:14-170 | what each environment sees after a step is the eager effect of that step |
| `CowFork.StepAllowed` | lib/fork.c:72-103 | the eager system can always take the matching step |
| `CowFork.StepCommon` | lib/fork.c:72-103 | PTE_SHARE pages stay common to all who map them |
| `CowFork.StepRefines` | lib/fork.c:14-170 | each step is one step, or none, of eager copying |
| `CowFork.ForkRefinesEagerCopying` | lib/fork.c:120-170 | every run of forks, faults and stores, in any interleaving, is a run of eager page copying |
| `CowFork.FreshIsInv` | lib/fork.c:120-170 | environments with private, distinct pages and pages shared wherever mapped satisfy the invariant, so runs can start |
| `CowFork.FreshRunsRefine` | lib/fork.c:120-170 | from any such state every run is a run of eager copying from the same contents |
| `CowFork.EagerStart` | user/dumbfork.c:25-41 | every state of the invariant has an eager counterpart |
| `CowFork.LoadsAgree` | lib/fork.c:120-170 | a load returns what it would with private copies |
| `CowFork.WritableIsUnshared` | lib/fork.c:72-103 | with no handler or duppage half done, a writable private page has exactly one mapping |
| `CowFork.ScratchIsPrivate` | lib/fork.c:40-60 | nothing else maps the handler's scratch frame |
| `CowFork.SourceIsStable` | lib/fork.c:40-60 | nobody can write the frame a handler copies from |
| `CowFork.Dup1View` | lib/fork.c:72-103 | the first mapping call of duppage, on each of its branches, as the child sees it |
| `CowFork.Dup2View` | lib/fork.c:72-103 | the second mapping call takes the child's copy at that instant |
| `CowFork.HRemapView` | lib/fork.c:14-61 | replacing the page by its copy is invisible |
| `ForkCopies.PassStep` | lib/fork.c:149-157 | the loop goes past a page only if it is the exception stack, or the parent has none there, or the child has it |
| `ForkCopies.HeldStep` | lib/fork.c:14-170 | no step of anybody takes a page from a running environment |
| `ForkCopies.ForkRun` | lib/fork.c:149-157 | over any run before the end of a fork: the child has exactly the pages copied, each once; the parent loses none; whatever the parent has where the loop passes, the child gets |
| `ForkCopies.CopyIsParents` | lib/fork.c:72-103 | a page of the child is what the parent held at the instant of its copy |
| `ForkCopies.CopyStays` | lib/fork.c:72-103 | until the child runs nobody changes its pages |
| `ForkCopies.ForkCopiesParent` | lib/fork.c:120-170 | a finished fork has copied every page the parent had when it began but the exception stack, each exactly once; the child then runs with those pages and a blank exception stack |
| `ForkCopies.ForkGoesOn` | lib/fork.c:149-165 | while its parent is not in a handler a fork has a next step, nearer its end |
| `ForkCopies.HandlerGoesOn` | lib/fork.c:14-61 | a handler always has a next step, nearer its end, where the faulting page is writable |
| `ForkCopies.StoreGoesOn` | lib/fork.c:14-61 | a store goes through, faults into the handler or takes a fresh page, unless the page is read-only |
| `ForkCopies.ForkBegins` | lib/fork.c:134-145 | a running environment can always begin to fork |
| `FaultFrames.PageFaultHandler` | kern/trap.c:327-344 | the frame, 52 bytes below the top of the exception stack or a blank word below the interrupted stack pointer on it, has the fault address and error code in its first two words and records the interrupted state; only the frame's bytes change |
| `FaultFrames.PushRecords` | kern/trap.c:327-344 | reading the frame back gives fault address, error code, registers, eflags, eip and esp |
| `FaultFrames.UnwindIs` | lib/pfentry.S:68-95 | what the instruction sequence comes to: registers and eflags from the frame, then eip through the esp found there |
| `FaultFrames.UnwindRestores` | lib/pfentry.S:68-95 | the instruction sequence restores exactly the recorded state if the word below the interrupted stack is clear of the frame |
| `FaultFrames.ClearExactlyBelowTop` | kern/trap.c:327-344 | for every stack pointer, aligned or not, that word is clear of the frame exactly unless esp is UXSTACKTOP to UXSTACKTOP + 3 |
| `FaultFrames.OverlapExactly` | lib/pfentry.S:68-95 | which eip leaves the frame's esp slot as it was when it is written over it, byte by byte |
| `FaultFrames.RoundTrip` | lib/pfentry.S:68-95 | from any stack pointer, push then unwind restores the state exactly unless esp is UXSTACKTOP to UXSTACKTOP + 3 and the eip does not fit the slot it overwrites |
| `FaultFrames.LevelRestores` | lib/pfentry.S:68-95 | running one level's return instructions restores its state and disturbs nothing above its base |
| `FaultFrames.NestedFaultsRestore` | lib/pfentry.S:68-95 | at any nesting depth running each level's return instructions restores the state it interrupted, and no outer frame is touched |
| `FaultFrames.NestedFaultsTell` | kern/trap.c:327-344 | whenever a handler goes on, at any depth and after any number of faults inside it, the first two words of its frame are still its own fault address and error code |
| `FaultFrames.FaultFromUserCode` | kern/trap.c:327-344 | the outermost fault from an ordinary stack restores too, and every handler under it finds its own fault in its frame |
| `Blocks.SetWord` | fs/fs.c:143-167 | storing a 32-bit word changes that word and no other |
| `Blocks.WordOnDisk` | fs/fs.c:143-167 | a word on the disk has its low byte first |
| `Blocks.BitOnDisk` | fs/fs.c:30-40 | bit b of the bitmap is bit b % 8 of byte b / 8 of the block |
| `Blocks.PutBitValue` | fs/fs.c:43-51 | setting a bit adds its power of two to the word, clearing takes it away |
| `Blocks.BitAtIs` | fs/fs.c:30-40 | the bitmap test on word b/32, bit b%32, is the b-th bit |
| `Blocks.SetBitAt` | fs/fs.c:43-51 | the bitmap store changes that bit and no other |
| `Blocks.Splice` | fs/fs.c:489-513 | memmove into a block changes exactly the copied bytes |
| `FsLayout.SetRefTargets` | fs/fs.c:142-197 | writing one slot or indirect pointer changes the block named by that reference and by no other |
| `FsLayout.SetRefInfo` | fs/fs.c:142-197 | and no file's size, type or name |
| `FsLayout.SetRefData` | fs/fs.c:142-197 | and no file's data |
| `FsLayout.StaleDirectory` | fs/fs.c:233-262 | the directory can take a block at any slot and keep every block owned once exactly when none of the sixteen structs in it names anything |
| `FsLayout.DirectoryWrite` | fs/serv.c:226-253 | a client writing to the root over a direct pointer of an entry keeps ownership exactly when it writes the number already there |
| `FsLayout.DirectoryWriteIndirect` | fs/serv.c:226-253 | a client writing to the root over the indirect pointer of an entry keeps ownership exactly when the new pointer and the table it leads to name, once each, the blocks the old ones did |
| `FsLayout.TableDecides` | fs/fs.c:142-167 | an indirect pointer may be replaced exactly by one whose list of blocks is the same, each once |
| `FsLayout.OwnershipMoves` | fs/fs.c:142-167 | with the same blocks listed once each, every block still has exactly one owner |
| `FsLayout.ListsMatch` | fs/fs.c:142-167 | two owned images that differ only in one file's indirect table list the same blocks there |
| `FsInvariant.SoundAlloc` | fs/fs.c:59-76 | taking a free block keeps the invariant, the block now loose |
| `FsInvariant.SoundInstall` | fs/fs.c:177-197 | giving the loose block to a slot within the size restores the invariant and keeps everything mapped |
| `FsInvariant.GrowsExactly` | fs/fs.c:233-262 | the directory can take a block and keep the whole invariant exactly when it holds sixteen decent structs |
| `FsInvariant.SoundRelease` | fs/fs.c:405-419 | freeing a block and clearing its slot keeps the invariant |
| `FsInvariant.DirectoryCut` | fs/fs.c:405-419 | truncating the root by a block keeps ownership exactly when none of the structs in it names anything; otherwise their blocks are lost |
| `FsInvariant.IndirectGrown` | fs/fs.c:142-167 | a new indirect block, linked and then cleared, keeps the invariant and adds no slot |
| `FsInvariant.SoundContents` | fs/fs.c:489-513 | overwriting a data block changes no metadata |
| `FsInvariant.SoundSize` | fs/fs.c:451-460 | storing a size the slots allow keeps the invariant |
| `FsInvariant.SoundGrowth` | fs/fs.c:233-262 | a complete directory can grow by a block |
| `FsInvariant.SoundName` | fs/fs.c:342-364 | naming an entry keeps the invariant and reads back as that name |
| `FsInvariant.NotAtHome` | fs/fs.c:142-197 | no reference names the block it is stored in |
| `FileSystem.Server.constructor` | fs/fs.c:104-123 | mounting a sound image establishes the server's invariant |
| `FileSystem.Server.Touch` | fs/bc.c:30-71 | a fault maps the disk's copy, clean, and a block already mapped stays as it is; the panics are unreachable for blocks in use |
| `FileSystem.Server.LoadWord` | fs/bc.c:30-71 | a load sees the current image whether or not the block was cached |
| `FileSystem.Server.StoreBlock` | fs/bc.c:30-71 | a store changes the image at that block only and leaves the disk alone |
| `FileSystem.Server.StoreWord` | fs/bc.c:30-71 | a store of one word changes that word of the image only |
| `FileSystem.Server.FlushBlock` | fs/bc.c:80-104 | the block on disk becomes what loads see, its page is clean, and no other block on disk changes |
| `FileSystem.Server.BlockIsFree` | fs/fs.c:30-40 | true exactly for blocks in range whose bit is set |
| `FileSystem.Server.FreeBlock` | fs/fs.c:43-51 | sets one bit in memory and none on disk |
| `FileSystem.Server.TakeBit` | fs/fs.c:59-76 | clears one bit and brings the bitmap on disk up to date |
| `FileSystem.Server.AllocBlock` | fs/fs.c:59-76 | the first free block, or -E_NO_DISK exactly when there is none; disk and memory bitmaps agree afterwards |
| `FileSystem.Server.AddIndirect` | fs/fs.c:142-167 | links and clears the indirect block, keeping everything mapped |
| `FileSystem.Server.NewIndirect` | fs/fs.c:142-167 | one reference takes the first free block and nothing else changes |
| `FileSystem.Server.FileBlockWalk` | fs/fs.c:142-167 | where slot k is stored; an indirect block is added when missing whatever `alloc` says; each error explained |
| `FileSystem.Server.NewSlot` | fs/fs.c:177-197 | a slot takes the first free block and nothing else changes |
| `FileSystem.Server.FillSlot` | fs/fs.c:177-197 | the block in a slot, allocated only if there is none |
| `FileSystem.Server.FileGetBlock` | fs/fs.c:177-197 | the block behind block k; everything mapped is kept; -E_INVAL iff k is out of range |
| `FileSystem.Server.ReadPiece` | fs/fs.c:377-401 | the bytes of one block |
| `FileSystem.Server.ReadStep` | fs/fs.c:377-401 | one round of the copy, up to a block boundary or the end |
| `FileSystem.Server.ReadLoop` | fs/fs.c:377-401 | the copying loop: all bytes of the range, or an error only over a gap |
| `FileSystem.Server.FileRead` | fs/fs.c:377-401 | the file's bytes from offset, no more than asked, none past the end and fewer only at the end, so that a read from 0 of at least the size is the whole file; of the root directory too; failure only over a gap; nothing mapped changes |
| `FileSystem.Server.Release` | fs/fs.c:405-419 | one reference cleared, its block free, everything else as it was |
| `FileSystem.Server.FreeSlot` | fs/fs.c:405-419 | the slot is empty afterwards, whether or not it named a block |
| `FileSystem.Server.FileFreeBlock` | fs/fs.c:405-419 | block k is gone, other slots unchanged, even when the walk had to add or failed to add an indirect block |
| `FileSystem.Server.FreeTail` | fs/fs.c:430-448 | every slot from the new count on is empty |
| `FileSystem.Server.FileTruncateBlocks` | fs/fs.c:430-448 | nothing at or past the new count, no indirect block for at most NDIRECT blocks, everything below kept |
| `FileSystem.Server.NewSize` | fs/fs.c:451-460 | only this file's size changes |
| `FileSystem.Server.FileSetSize` | fs/fs.c:451-460 | the new size, nothing past it, every block below kept, the struct on disk |
| `FileSystem.Server.Overwrite` | fs/fs.c:489-513 | the copy into one block changes those bytes of that file and no free block |
| `FileSystem.Server.WritePiece` | fs/fs.c:489-513 | only the written bytes of one block change, among all mapped bytes of all files |
| `FileSystem.Server.WriteStep` | fs/fs.c:489-513 | one round of the copy extends the part already written |
| `FileSystem.Server.WriteLoop` | fs/fs.c:489-513 | on success the whole range is written |
| `FileSystem.Server.Extend` | fs/fs.c:489-513 | the size becomes at least the end of the range and no mapped byte changes |
| `FileSystem.Server.FileWrite` | fs/fs.c:489-513 | the bytes stand at offset, size is the maximum, every other mapped byte of every file is unchanged; fails only over a gap |
| `FileSystem.Server.WriteThenRead` | fs/fs.c:377-513 | a successful write is read back byte for byte |
| `FileSystem.Server.FlushNamed` | fs/fs.c:466-483 | the block a reference names, and no other, goes to disk |
| `FileSystem.Server.FlushStep` | fs/fs.c:466-483 | block k is on disk; only it and the bitmap moved |
| `FileSystem.Server.FlushBlocks` | fs/fs.c:466-483 | all data blocks are on disk |
| `FileSystem.Server.FlushStruct` | fs/fs.c:466-483 | the struct and the indirect block are on disk |
| `FileSystem.Server.FileFlush` | fs/fs.c:466-483 | the struct, indirect block and data of the file on disk equal what loads see |
| `FsRestart.FlushSurvives` | fs/bc.c:30-104 | after a flush the disk holds the same size and bytes, and each of its blocks, struct and indirect block included, can be read in exactly when the file has it |
| `FsRestart.Fault` | fs/bc.c:30-71 | reading a block in panics exactly when it is out of range or free on disk |
| `FsRestart.Locate` | fs/fs.c:142-197 | block k of the file on disk is found, without panic or allocation, exactly when it and the blocks on the way are in use |
| `FsRestart.Reread` | fs/fs.c:377-401 | file_read on a fresh cache goes through exactly when all its blocks are in use, and returns their bytes, no more than asked, none past the end and fewer only at the end |
| `FsRestart.FlushRestartRead` | fs/fs.c:377-483 | flush, restart over the disk and read: goes through exactly when the range has no hole, with the bytes the file had |
| `FileSystem.NamedOnceAndInUse` | fs/fs.c:43-76 | no block is named twice, and no named block is free in memory or on disk |
| `FileSystem.NothingLeaks` | fs/fs.c:43-76 | a block is in use exactly when reserved or named by some file |
| `FileSystem.HoldsUnique` | fs/fs.c:377-401 | what a range holds is unique |
| `FileSystem.CutBytes` | fs/fs.c:451-460 | growing a file keeps every mapped byte of every file |
| `FileSystem.SpliceBytes` | fs/fs.c:489-513 | writing into a data block changes only that range of that file |
| `FileSystem.FindName` | fs/fs.c:203-229 | the first of the sixteen entries with that name |
| `FileSystem.FindUnused` | fs/fs.c:233-262 | the first unnamed entry of a block |
| `FileSystem.Server.SearchBlock` | fs/fs.c:203-229 | the first entry of that name in a block, or none there |
| `FileSystem.Server.LookupStep` | fs/fs.c:203-229 | one directory block searched; a missing one is allocated |
| `FileSystem.Server.DirLookup` | fs/fs.c:203-229 | the first entry of that name, or none exists in the complete directory; every file kept, and nothing at all changes if no block was missing |
| `FileSystem.CompleteIsSafe` | fs/fs.c:203-229 | a directory with all its blocks can be searched whatever the free blocks hold |
| `FileSystem.VacantIsReady` | fs/fs.c:233-262 | if every free block holds unused entries the directory can grow into whichever it takes |
| `FileSystem.VacantStays` | fs/fs.c:59-76 | an operation that frees no block and writes no free block keeps it so |
| `FileSystem.Server.RoomIn` | fs/fs.c:233-262 | the first unused entry of a block |
| `FileSystem.Server.FindRoom` | fs/fs.c:233-262 | an unused entry if there is any; a complete directory is only read |
| `FileSystem.Server.GrowDir` | fs/fs.c:233-262 | the directory's size grows by a block and nothing else changes |
| `FileSystem.Server.GrowForFile` | fs/fs.c:233-262 | a new block of unused entries at the end, the first handed out; every file kept even on failure |
| `FileSystem.Server.DirAllocFile` | fs/fs.c:233-262 | an unused entry, in a new block only if the directory is full; every file kept even on failure |
| `FileSystem.Server.WalkStep` | fs/fs.c:280-334 | one path component: only the root is a directory |
| `FileSystem.Server.WalkPath` | fs/fs.c:280-334 | which file a path names, in terms of the names between its slashes, and for one missing component that it could be created in the root; a complete directory is only read |
| `PathNames.ComponentsOfSpelling` | fs/fs.c:265-334 | a path of slash-free names with one slash or more between them, and any number before and after, has exactly these names as its components |
| `PathNames.PathIsSpelled` | fs/fs.c:265-334 | every path is such a spelling of its components: none is empty, none has a slash, nothing is left out |
| `PathNames.OneName` | fs/fs.c:265-334 | a name with slashes around it, or none, is a path of that one component |
| `PathNames.ResolvesExactly` | fs/fs.c:280-334 | a path leads to a file exactly when it is slashes around the name of that entry, or only slashes for the root |
| `FileSystem.NameText` | fs/fs.c:265-334 | splitting a component off a path agrees with its list of components |
| `FileSystem.Server.NameEntry` | fs/fs.c:342-364 | the entry reads back as the name, with size zero |
| `FileSystem.Server.CreateNamed` | fs/fs.c:342-364 | entry, name and flush for a name that is missing; always succeeds while an entry is unused |
| `FileSystem.Server.FileCreate` | fs/fs.c:342-364 | the only entry of its name, empty, with the directory on disk; every other file keeps name, size, blocks and bytes |
| `FsFormat.NewSuper` | fs/fsformat.c:116-120 | magic number, size and an empty root directory called "/" |
| `FsFormat.Formatter.constructor` | fs/fsformat.c:93-125 | super block, all-ones bitmap and nothing laid out yet |
| `FsFormat.Formatter.Alloc` | fs/fsformat.c:82-91 | consecutive blocks; fails exactly when the position reaches the end of the disk |
| `FsFormat.Formatter.FillDirect` | fs/fsformat.c:141-157 | direct slots name consecutive blocks, the rest stay zero |
| `FsFormat.Formatter.FillTable` | fs/fsformat.c:141-157 | the indirect table continues the sequence |
| `FsFormat.Formatter.FinishFile` | fs/fsformat.c:141-157 | the struct describes the file; an indirect block from NDIRECT blocks on |
| `FsFormat.Formatter.CopyIn` | fs/fsformat.c:189-223 | the data stands in its blocks and no other block changes |
| `FsFormat.Formatter.PlaceFile` | fs/fsformat.c:189-223 | contents and entry of one file, in exactly its extent |
| `FsFormat.Formatter.WriteFile` | fs/fsformat.c:167-223 | one more file laid out after the others; fails exactly when too large, too many or out of space |
| `FsFormat.BuiltMore` | fs/fsformat.c:167-223 | adding a file disturbs none of the earlier ones |
| `FsFormat.Formatter.EntryBlock` | fs/fsformat.c:178-187 | copying only the used entries copies the whole block |
| `FsFormat.Formatter.CopyEntries` | fs/fsformat.c:178-187 | the entry blocks stand in the image |
| `FsFormat.Formatter.FinishDir` | fs/fsformat.c:178-187 | the root describes the entry blocks; for no entries it claims a block it did not allocate |
| `FsFormat.Formatter.FinishDisk` | fs/fsformat.c:127-139 | the bitmap is free exactly from the final position on |
| `FsAgreement.Wanted` | fs/fsformat.c:141-223 | every reference of the image names the block the layout gives it |
| `FsAgreement.FormattedOwned` | fs/fsformat.c:141-223 | every block before the final position has exactly one owner |
| `FsAgreement.FormattedSound` | fs/fsformat.c:141-223 | the image satisfies the server's invariant |
| `FsAgreement.FormattedReady` | fs/fsformat.c:93-125 | files can be looked up, and created: no block of the directory is missing and the one it would grow into holds unused entries |
| `FsAgreement.FormattedVacant` | fs/fsformat.c:93-125 | every free block of a formatted image holds unused entries |
| `FsAgreement.FileHolds` | fs/fsformat.c:189-223 | the server sees each input's bytes, across the direct and indirect boundary |
| `FsAgreement.NameFinds` | fs/fsformat.c:167-176 | an input's name belongs to one entry only |
| `FsAgreement.WriteFiles` | fs/fsformat.c:232-259 | the loop over all files |
| `FsAgreement.Format` | fs/fsformat.c:232-259 | succeeds exactly when everything fits, with the image described |
| `FsAgreement.EmptyListUnsound` | fs/fsformat.c:178-187 | with no files the root names a free block, so no ownership exists |
| `FsAgreement.FormatThenRead` | fs/fsformat.c:232-259 | format, mount, look up and read returns each input byte for byte |
| `FsAgreement.InputsAreFlat` | fs/fsformat.c:189-223 | the flat files a run on a formatted image starts from are the inputs |
| `FsAgreement.FormatThenRun` | fs/fsformat.c:232-259 | format, mount and any such run: each operation does what it should, ownership and the order of the bitmap on disk hold after every one, and every read returns what flat files starting as the inputs would |
| `FsAgreement.ReadBack` | fs/fs.c:203-401 | lookup and read of one file on a formatted image |
| `OpenFiles.FileOpen` | fs/fs.c:368-372 | the root or the named file the path resolves to; each error explained; a complete directory is only read |
| `OpenFiles.CreateOpen` | fs/serv.c:130-150 | O_CREAT: a created file is the only one of its name, empty, and always then opened; an existing one is an error only under O_EXCL |
| `OpenFiles.OpenPath` | fs/serv.c:129-164 | the file serve_open opens, with each failure explained and every other file kept |
| `FileRuns.SpareStays` | fs/fs.c:233-262 | a directory that keeps its blocks and size stays complete and loses only the entries that were named |
| `FileRuns.OnFile` | fs/fs.c:377-513 | one read, write, resize or flush: the bytes read, written, cut or kept, every other file as it was; reads and writes fail only over a gap, past the largest file or with no block free, the others never |
| `FileRuns.OnDir` | fs/fs.c:203-372 | one lookup or creation: the file found or made, every other file as it was; each failure explained, and with room in a complete directory only the path decides |
| `FileRuns.StepSteady` | fs/fs.c:203-513 | an operation leaves alone the size and bytes of every file it does not write, resize or make |
| `FileRuns.Step` | fs/fs.c:203-513 | any run, one operation at a time: from whatever story led here, an operation permitted now extends it by an event that tells which file it was about, what the client saw, the files then open, the disk and the image; after a flush the file is on disk, after a creation the directory is |
| `FileRuns.SizeFollows` | fs/fs.c:451-513 | the size of every file follows the flat file's |
| `FileRuns.ByteFollows` | fs/fs.c:377-513 | every byte of every file that the flat file knows follows it |
| `FileRuns.ReadFollows` | fs/fs.c:377-401 | a read returns as many bytes as the flat file has there, and those |
| `FileRuns.AgreesMore` | fs/fs.c:203-513 | an operation that did what it should keeps image and flat files in agreement, and its reads true |
| `FileRuns.FlatMore` | fs/fs.c:203-372 | every open file is a known flat file, so no read is left unexplained |
| `FileRuns.StoryRefines` | fs/fs.c:203-513 | every run whose events are what their operations should have done behaves like one flat byte array per file: every successful read returned its size and known bytes, sizes and known bytes at the end agree, and files not touched are as they were |
| `FileRuns.RunOps` | fs/fs.c:203-513 | any run whose creations fit the unused entries is such a story from the first operation to the last, with the client's results, the disk in order after each, and refines flat files |
| `FileRuns.WouldCut` | fs/fs.c:451-460 | whether a resize would cut its file |
| `FileRuns.RoomLeft` | fs/fs.c:233-262 | whether a complete directory has an unused entry, found without changing anything |
| `FileRuns.MayStep` | fs/fs.c:203-364 | an operation is refused only if it is on the directory after a cut and the directory is incomplete or full |
| `FileRuns.Run` | fs/fs.c:203-513 | any run, cuts and growth of the directory together, is such a story and refines flat files; it stops only before a lookup or creation for which, after a cut, the directory would have to take a free block |
| `FileRuns.VacantPermits` | fs/fs.c:233-262 | on such a disk every operation may be made |
| `OpenFiles.StaleFileId` | fs/serv.c:62-83 | a file id recurs only after its slot has been allocated 2^22 times |
| `OpenFiles.OpenTable.constructor` | fs/serv.c:49-59 | ids start as slot numbers |
| `OpenFiles.OpenTable.OpenfileAlloc` | fs/serv.c:62-83 | the first entry no client maps gets the next id of its slot; each failure explained |
| `OpenFiles.OpenTable.ServeOpen` | fs/serv.c:103-184 | the first entry no client maps, under its next id, for the file the path names, created on request; other entries untouched; each failure explained |
| `OpenFiles.OpenTable.OpenfileLookup` | fs/serv.c:86-97 | succeeds exactly for an id in use, however the ids are spread over slots |
| `OpenFiles.OpenTable.Seek` | lib/fd.c:226-238 | only the seek position changes |
| `OpenFiles.OpenTable.ServeRead` | fs/serv.c:191-220 | the bytes at the seek position, as many as asked or as there are, and the position moves past them; fails only for an id not open or over a gap |
| `OpenFiles.OpenTable.ServeWrite` | fs/serv.c:226-253 | the bytes at the seek position, every other byte kept, position moved; fails only for an id not open or over a gap that no free block fills or that is past the largest file |
| `OpenFiles.OpenTable.ServeFlush` | fs/serv.c:279-295 | struct, indirect block and data of an open file are on disk as reads see them; any other id is refused |
| `OpenFiles.OpenTable.OpenWriteRead` | fs/serv.c:103-253 | open, write, seek back, read: a client gets its bytes |
| `FileServer.StepKeeps` | fs/serv.c:309-342 | every step of every client and of the server keeps the protocol invariant |
| `FileServer.ClientKeeps` | lib/file.c:15-31 | the client's steps |
| `FileServer.HandleKeeps` | fs/serv.c:309-342 | a handler's step, whatever it answers |
| `FileServer.ServerSendKeeps` | lib/ipc.c:52-73 | the server's send, retried or delivered |
| `FileServer.RunKeeps` | fs/serv.c:309-342 | the invariant over whole runs |
| `FileServer.RunHistory` | lib/file.c:15-31 | the recorded requests, replies and returns of a client are those of the run's steps |
| `FileServer.ProtocolSafe` | lib/file.c:15-31 | at most one outstanding request, replies never exceed requests, and the i-th call returns what the i-th handler run for that client made, which worked on its i-th request, all counted from the steps of the run |
| `FileServer.HandlerSeesRequest` | fs/serv.c:309-342 | no request is left hanging, no client's page stays mapped while the server receives, and the handler works on the arguments of the client it answers, as last asked |
| `FileServer.ReplyIsAwaited` | lib/ipc.c:52-73 | a reply only goes to a client that is in, or on its way to, its receive |
| `FileServer.NeverStuck` | lib/ipc.c:22-73 | while a client is inside fsipc some step is possible that is no new request and no retry, and it leaves one step less to do |
| `FileServer.StepWorks` | lib/ipc.c:52-73 | a new request adds eight steps of work, a retry changes nothing at all, every other step takes one away |
| `FileServer.WorkConserved` | fs/serv.c:309-342 | in every run the steps made besides retries and the steps left add up to eight a request |
| `FileServer.NextStep` | lib/ipc.c:22-73 | while work is left a step that takes some away is possible, without waiting for a retry to succeed |
| `FileServer.EveryRequestAnswered` | lib/file.c:15-31 | from every reachable state, once as many steps as there is work left have been made, in whatever order and with whatever retries, every request of every client is answered with what its handler produced |
| `FileServer.AnswersExist` | fs/serv.c:309-342 | and such a run always exists |
| `ArgvStack.StringSize` | lib/spawn.c:199-205 | the space for the strings, modulo 2^32 |
| `ArgvStack.CopyStrings` | lib/spawn.c:243-248 | every pointer and string in place, the last string ending exactly at the end of the page |
| `ArgvStack.FillPage` | lib/spawn.c:243-254 | a child at the initial stack pointer decodes the original arguments; nothing below it is touched |
| `ArgvStack.FinishedDecodes` | lib/spawn.c:243-254 | argc, argv, the null-terminated vector and every string, read at child addresses |
| `ArgvStack.WordBytes` | lib/spawn.c:243-254 | a word of the page has its low byte first, as the processor reads it |
| `ArgvStack.InitStack` | lib/spawn.c:191-254 | succeeds exactly when everything fits one page; refuses exactly when the wrapped lowest address is below UTEMP |
| `ArgvStack.OversizeAccepted` | lib/spawn.c:216-220 | an argument of a little over four megabytes wraps past the size check |
| `ArgvStack.LowestComputed` | lib/spawn.c:207-220 | the 32-bit computation of the lowest address |
| `ArgvStack.SizeCheck` | lib/spawn.c:207-220 | the check passes exactly when the wrapped lowest address is at least UTEMP |
| `ArgvStack.CheckSees` | lib/spawn.c:207-220 | what fits passes the check, and what does not is refused as long as it is too small to wrap |
| `StabSearch.LastOfKind` | kern/kdebug.c:48-92 | the backward scan finds the last entry of the type |
| `StabSearch.RoundShrinks` | kern/kdebug.c:48-92 | a round makes progress even on an exact match, and when the address wraps |
| `StabSearch.RoundKeeps` | kern/kdebug.c:48-92 | while the `addr++` does no harm one round keeps the answer in range |
| `StabSearch.SearchRound` | kern/kdebug.c:48-92 | the loop's body is one step of the search |
| `StabSearch.Search` | kern/kdebug.c:48-92 | the main loop computes the search, and whether anything of the type was there |
| `StabSearch.Matched` | kern/kdebug.c:48-92 | an entry with the address is matched, with the next address still in range if the search comes upon the address first |
| `StabSearch.Beyond` | kern/kdebug.c:48-92 | once addr is past an entry the search never comes back before it, however often it matches or wraps |
| `StabSearch.Overtaken` | kern/kdebug.c:48-92 | coming upon the address first, the search ends on or after the next address, or wraps there |
| `StabSearch.LastAddressMissed` | kern/kdebug.c:48-92 | looking up 2^32 - 1 where it is present misses it |
| `StabSearch.RightExactly` | kern/kdebug.c:48-92 | over entries in increasing order the result is right iff the address, if present, is not 2^32 - 1 and is not come upon before the next address, or the two are neighbours and the next is 2^32 - 1 |
| `StabSearch.StabBinsearch` | kern/kdebug.c:48-92 | right means: left is the last entry at or below the address and right ends just before the next one of the type, or all lie above; over entries in increasing order that is the result iff the condition of `RightExactly` holds; with none of the type the region is empty |
| `StabSearch.OutcomesDecide` | kern/kdebug.c:48-92 | the outcome decides which entries are at or below the address |
| `StabSearch.SpacedIsSure` | kern/kdebug.c:48-92 | unless the address is 2^32 - 1 or both it and the next are present the condition holds, whatever the order of the probes |
| `StabSearch.AdjacentValuesMislead` | kern/kdebug.c:48-92 | looking up 5 among 5 and 6 the search's own result is wrong |

## Left out

- Packet calls and `user_mem_page_replace`: the receive ring is modelled only as the pages that booting takes off the free list for it.
- `user_mem_check`, console, clock and device code, ELF loading, SMP start-up, the TLB, trap frames and registers inside the kernel model, `env_runs`, `env_type`.
- `sys_page_alloc` and `sys_page_map` find environments without the permission check their comments promise; the model follows the code.
- `sys_page_map` panics on unknown permission bits where its comment promises -E_INVAL; the model follows the code.
- `envs` is taken to start zeroed, as `env_init` does not write the status.
- KernelModel.Kernel.Start: the first environment has no pages, since `load_icode` is not modelled.
- CowFork: allocation failures (the code panics), and page faults of the fault handler itself.
- FaultFrames: the checks that destroy an environment without an upcall or on overflow of the exception page come before the modelled part, and byte addresses do not wrap at 2^32.
- StabSearch.StabBinsearch: says nothing of the result over entries that are not in increasing order.
- ArgvStack.InitStack: mapping the finished page into the child, and failure to allocate it.
- FileSystem.Server.DirLookup: requires that a block missing inside the directory, if there is one, would be filled with decent structs, since the code does not clear it; FsInvariant.GrowsExactly shows that this is exactly what the invariant needs.
- FileSystem.Server.WalkPath: requires the same.
- FileSystem.Server.FileCreate: requires the same and an unused entry, or that the block the directory would take holds unused entries.
- FileSystem.Server.DirAllocFile: requires the same.
- FileSystem.Server.FileWrite: for regular files, with a non-negative offset and an end below 2^31; the server does not stop clients from writing to the root, which FsLayout.DirectoryWrite and FsLayout.DirectoryWriteIndirect show to break ownership.
- FileSystem.Server.FileSetSize: for regular files; the server does not stop clients from truncating the root, which FsInvariant.DirectoryCut shows to break ownership.
- FileSystem.Server.FileRead: the length of the reply page is not modelled.
- FileRuns.RunOps: creations that would need a new directory block are not part of its runs; they are part of those of FileRuns.Run.
- FileRuns.Run: after a resize that cut a file it stops before the directory would have to take a free block, since freed blocks keep what they held and FsInvariant.GrowsExactly shows that one may break ownership; FileRuns.Step continues wherever the block that would be taken is known to be safe.
- Files are never removed and directories never nest in the source, so the root is the only directory of the model.
- File-system memory is not scarce: allocating a cache page and disk transfers do not fail (the code panics).
- The bitmap is one block (`s_nblocks` at most BLKBITSIZE), as fsformat ensures.
- FsFormat: the entry array is taken to start zeroed, names are given without their directory part and fit the field.
- OpenFiles.OpenTable.ServeOpen: without O_TRUNC, which the source applies through an uninitialised pointer unless O_CREAT is given too; modes and permissions of the Fd page are not modelled.
- `serve_stat`; the reference counts of Fd pages enter OpenFiles as arguments.
- OpenFiles.OpenTable.ServeWrite: requires the id, if open, to name a regular file recorded by an open, and the end of the write to stay below 2^31.
- OpenFiles.OpenTable.ServeRead: requires the id, if open, to name a file recorded by an open.
- FileServer: only fsipc clients send to the server and only the server sends to clients; destroying an environment in the middle of a request and failing page transfers (ipc_send panics) are not modelled. No bound is stated for a client that keeps losing the race to send while others keep asking.
- CowFork and FileServer are state machines on values: they do not model update in place.
