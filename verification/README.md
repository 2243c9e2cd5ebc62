# Verified model of linux-0.01-still-runs

A Dafny 4.11 model of the parts of this repository whose correctness depends on state: the paging code, the
buffer cache and Minix file system, the scheduler and wait queues, the disk driver together with the emulated
controller it talks to, the boot handoff, `exec`, the console, and the host tools that write and check disk
images.  Check it with `dafny verify dfyconfig.toml`.

## How it is arranged

Code that changes state in place is a class whose fields are the C globals and whose methods have the loops and
branches of the C functions.  Each method is proved equal to a function on a snapshot of those fields, and the
properties below are lemmas about the functions, so they hold of the methods.  A task switch, an interrupt or an
injected fault is a step of a state machine, and the theorems speak of every sequence of steps.

| area | files | main results |
|---|---|---|
| paging and fork | `PageModel`, `PageInvariant`, `PageCore`, `PageSteps`, `PageFork`, `PageFaults`, `PageSupply`, `PageRuns`, `Memory` | every page count is exactly the number of holders; any run behaves as if each address space owned its bytes; a failed fork leaves no trace; how many free pages decide whether an operation succeeds |
| scheduler | `Scheduler` | greatest credit wins, one recharge is enough, waiting is bounded, what sleepers gain |
| wait queues | `WaitQueue` | in every interleaving no sleeper is lost |
| disk queue | `Elevator` | exactly when the waiting requests stay one or two ascending sweeps; exactly when a run with interrupts stalls the driver |
| controller and driver | `IdeController`, `IdeReports`, `HdDriver`, `HardDisk` | sectors change whole, in order; where a power cut falls; exactly which accesses report an error; driver and controller composed are writes and reads of 1024-byte blocks, faults included |
| file system | `ZoneTree`, `FileBytes`, `FileSystem`, `Loader` | every zone in use has one owner; a file is a growable byte array; the loader reads the same bytes |
| buffer cache | `BufferModel`, `BufferInterleave`, `BufferSteps`, `BufferContent`, `BufferTurns`, `BufferWrites`, `BufferLinks`, `BufferCache` | structure under every interleaving; `getblk` returns the block that was asked for; the cache is invisible; how long a block stays; pointers and sequences agree |
| console | `Console`, `ConsoleCodes` | the sliding window of video memory is a 50 by 80 grid terminal; what every control code and sequence does to it |
| exec | `ExecArgs` | arguments and environment arrive as they were given, exactly when they fit and the pages suffice |
| boot handoff | `Crc64`, `Folds`, `CrcPolynomial`, `CrcCheck`, `HandoffBuild`, `HandoffSpace`, `HandoffParse`, `HandoffAccepts`, `Handoff`, `HandoffCode`, `HandoffDamage`, `HandoffEscape` | what the builder finalizes the parser accepts, exactly when its limits allow; what is accepted at all; the checksum is the remainder of a polynomial division; exactly which damage is noticed |
| disk images | `ImageZones`, `ImageBuild`, `ImageLinks`, `ImageAudit`, `AuditFinds`, `ImageWriter`, `Inspector`, `FileEnds` | an image is a volume the kernel's own write would have made, with exact link counts; it passes the audit and prints back; what the audit cannot overlook |

Results where the code does less than one might expect are stated with their exact condition:

* `Elevator.AddIsLiveExactlyWhen` and `Elevator.RunIsLiveExactlyWhen`: `add_request` clears `sorting` without starting
  the next request, so a completion interrupt that falls inside that window leaves the driver waiting for good; over a
  whole run it is alive at the end exactly when none ever did.
* `Elevator.InsertKeepsShapeExactly` and `Elevator.EqualPlacesBreakShape`: adding a request makes a third sweep exactly
  when a second sweep exists, the request does not fit into the first, and either two neighbours of the first sweep
  that name the same sectors come after it, or its sectors are already named in the second sweep and that goes on
  beyond them.  Requests for different sectors never do.
* `WaitQueue.HeadNeverRestored`: a task resumed in `sleep_on` is never the head of its queue, so on queues used only
  through `sleep_on` and `wake_up` the branch that puts the remembered sleeper back never runs.
* `BufferInterleave.CheckSucceeds`: the re-check in `get_hash_table` after waiting can never fail, because a
  reference already holds the buffer.
* `ImageAudit.DumpIsExact`, `ImageAudit.HoleIsLost` and `FileEnds.KernelFilesPrint`: `dump_file` skips a missing block
  without advancing, so a file is printed as it is exactly when it has no hole, whoever wrote it; files that mkimage
  writes have none.
* `HandoffDamage.DamageDecides`, `HandoffDamage.DamageShows` and `HandoffEscape.StraddlingEscapes`: damage goes unseen
  exactly when the checksum field changed by what the rest of the change alone leaves in the CRC register.  For a burst
  of up to eight bytes wholly inside or wholly outside the field that is never so; for one across the edge of the field
  it can be, and such a burst is given for every tag with a one-byte body.

## Model

| member | source | states |
|---|---|---|
| `PageSteps.GetFreeKeeps` | mm/memory.c:48-77 | a page from `get_free_page` was nobody's, is cleared, and is counted once; no mapping and no readable byte changes |
| `PageSteps.UnmapKeeps` | mm/memory.c:107-120 | dropping one page table entry keeps every count equal to the number of holders |
| `PageSteps.FreeDirsKeeps` | mm/memory.c:96-130 | `free_page_tables` removes exactly the mappings of its range and their tables, and keeps counts exact |
| `PageSteps.ShareKeeps` | mm/memory.c:164-178 | sharing one entry makes both copies read-only, counts the page once more, and lets the new address read what the old one reads |
| `PageFork.CopyDirsKeeps` | mm/memory.c:141-186 | whether it succeeds or runs out of pages, `copy_page_tables` keeps counts exact; on success the target range names and reads the same pages as the source, on failure removing the target range gives back the old state |
| `PageFork.SameHoldersSameCounts` | mm/memory.c:48-90 | two states with the same mappings and kernel holders have the same reference counts |
| `PageFork.ForkWorks` | kernel/fork.c:60-86 | after a successful fork the child reads exactly what the parent read, and only the child's directory entries changed |
| `PageFork.ForkUndone` | kernel/fork.c:76-79 | a fork that fails after any number of shared tables leaves counts, mappings, contents and page tables as they were |
| `PageFaults.NoPageKeeps` | mm/memory.c:258-269 | a demand fault adds one page of zeros or, without memory, changes no count and no mapping |
| `PageFaults.UnWpKeeps` | mm/memory.c:215-235 | a write fault leaves every address space reading the same and makes the page writable and its own, copying only if it was shared |
| `PageFaults.WriteVerifyKeeps` | mm/memory.c:245-256 | making a page writable ahead of the kernel's own store changes nothing that anyone reads |
| `PageFaults.StoreKeeps` | mm/memory.c:215-235 | a store to a writable page changes one word of one address and nothing any other address reads |
| `PageSupply.DirSucceedsExactlyWhen` | mm/memory.c:152-184 | one directory entry of the source: nothing is needed where it has no page table, one free page where it has |
| `PageSupply.CopySucceedsExactlyWhen` | mm/memory.c:141-186 | `copy_page_tables` goes through exactly when there are as many free pages as page tables in the source range, and takes that many; otherwise it uses up what there is |
| `PageSupply.OccupiedStops` | mm/memory.c:152-156 | it goes through or runs out only if no directory entry of the destination is in use, and changes none outside the destination |
| `PageSupply.ForkSucceedsExactlyWhen` | kernel/fork.c:60-86 | a fork succeeds exactly when the free pages are at least one more than the parent has page tables in the range |
| `PageSupply.DemandSucceedsExactlyWhen` | mm/memory.c:258-269 | a demand fault succeeds exactly when one page is free, or two where there is no page table yet |
| `PageSupply.WriteSucceedsExactlyWhen` | mm/memory.c:215-235 | a write fault succeeds exactly when the page has no other holder or a page is free |
| `PageSupply.VerifySucceedsExactlyWhen` | mm/memory.c:245-256 | making a page writable ahead of a store fails exactly where a write fault would for want of a page, and then changes nothing |
| `PageSupply.PutSucceedsExactlyWhen` | mm/memory.c:188-213 | a page whose count is 1 is entered exactly if there is a page table or a free page for one |
| `PageSupply.NearestIsTaken` | mm/memory.c:48-77 | the page handed out is the nearest free one going round from where the last search ended, and the next search starts right behind it |
| `PageModel.WordsMean` | mm/memory.c:206-211 | an entry for a page is its address with the three low bits set, taking away the right to write takes 2 away, a cleared page is zeros |
| `PageRuns.StepRefines` | mm/memory.c:96-269 | each operation keeps the invariant and acts on the contents as on address spaces that share nothing |
| `PageRuns.SucceedsExactlyWhen` | mm/memory.c:96-269 | in any state that the invariant allows, an operation that makes sense succeeds exactly when the free pages are as many as it needs |
| `PageRuns.RunRefines` | mm/memory.c:96-269 | any sequence of forks, failed forks, exits, faults and stores reads as the same sequence on private copies |
| `PageRuns.Isolation` | mm/memory.c:96-269 | no sequence of operations that does not touch a virtual page changes what is read there |
| `PageRuns.ChildReadsParent` | kernel/fork.c:60-86 | after fork every page of the child reads as the parent's did, and the parent's is unchanged |
| `PageRuns.BootGood` | mm/memory.c:38-41 | the state before any task has a page satisfies the invariant |
| `Memory.PageMemory.GetFreePage` | mm/memory.c:48-77 | the search from the hint and the wrap-around find the next free page, or none exists |
| `Memory.PageMemory.FreePage` | mm/memory.c:79-94 | counts one holder less, ignores low memory, and panics exactly on a bad address or a page already free |
| `Memory.PageMemory.FreePageTables` | mm/memory.c:96-130 | the nested loops remove the range; a misaligned or zero start is a panic that changes nothing |
| `Memory.PageMemory.CopyPageTables` | mm/memory.c:141-186 | the nested loops share the range if there is a free page for each page table of it, and otherwise stop without memory |
| `Memory.PageMemory.PutPage` | mm/memory.c:188-213 | the page is entered where asked, with a new table if needed, or the call fails |
| `Memory.PageMemory.UnWpPage` | mm/memory.c:215-235 | the last holder gets the write bit, any other gets a copy; nobody reads anything different |
| `Memory.PageMemory.DoWpPage` | mm/memory.c:237-243 | the same from the faulting address |
| `Memory.PageMemory.WriteVerify` | mm/memory.c:245-256 | unprotects a present read-only page and does nothing to any other |
| `Memory.PageMemory.VerifyArea` | kernel/fork.c:38-58 | on success every byte of the range is in a page that is absent or writable, and nothing readable changed; it fails only for a range outside the segment, or when no page is free and one of the range still cannot be written |
| `Memory.PageMemory.VerifyReadArea` | kernel/fork.c:19-36 | accepts exactly the non-null ranges that lie within the limit without wrapping |
| `Memory.PageMemory.DoNoPage` | mm/memory.c:258-269 | takes a page, installs it, and gives it back if that fails |
| `Memory.PageMemory.CopyMem` | kernel/fork.c:60-86 | on failure the part already shared is freed again |
| `Memory.PageMemory.CopyProcess` | kernel/fork.c:134-137 | the page for the child is the kernel's on success; when it or the copy cannot be had, everything taken is given back |
| `Memory.PageMemory.ForkTask` | kernel/fork.c:60-86 | exactly when there is a free page for the task and one for each page table, the child reads as the parent; otherwise nothing changed |
| `Scheduler.PickFound` | kernel/sched.c:88-100 | the scan finds a runnable task of greatest credit, the highest-numbered of them, or task 0 when none is runnable |
| `Scheduler.RechargeRevives` | kernel/sched.c:100-105 | when the best credit is 0 one recharge gives some runnable task credit, so the loop recharges at most once |
| `Scheduler.ScheduleChooses` | kernel/sched.c:69-107 | recharges only if every runnable task is out of credit; then switches to a runnable task of greatest credit with credit left, to task 0 only if none is runnable |
| `Scheduler.ScheduleFields` | kernel/sched.c:69-107 | one call of `schedule`, task by task in plain fields: which alarms fire and are cleared, who wakes, and who gets half its old credit plus its priority |
| `Scheduler.YieldWaits` | kernel/sched.c:69-107 | a voluntary switch does not lengthen a runnable task's wait beyond the credit of the others and one recharge |
| `Scheduler.TickWaits` | kernel/sched.c:164-174 | each user-mode tick shortens a waiting runnable task's remaining wait by at least one |
| `Scheduler.BoundedWaiting` | kernel/sched.c:69-107 | without forks or priority changes a task that stays runnable is dispatched within the others' credit plus one full recharge of user-mode ticks |
| `Scheduler.CreditBounded` | kernel/sched.c:101-104 | credit below twice the priority stays below it |
| `Scheduler.SleeperGains` | kernel/sched.c:100-105 | a task asleep through a recharge comes half as near again to twice its priority, to the unit |
| `Scheduler.HalvedIs` | kernel/sched.c:100-105 | after k recharges asleep what it lacks of that is the old lack divided by 2^k, so its credit rises strictly until it stays at twice its priority less one |
| `Scheduler.SliceLasts` | kernel/sched.c:164-174 | a running task with credit c keeps the processor for c - 1 ticks, and each takes one unit of credit |
| `Scheduler.SliceEnds` | kernel/sched.c:164-174 | the tick after those ends its slice: in user mode the choice is made anew, in kernel mode it goes on without credit |
| `Scheduler.EventsHappen` | kernel/sched.c:116-162 | a change of state or an exit touches one task |
| `Scheduler.Kernel.CheckAlarmsAndSignals` | kernel/sched.c:76-84 | expired alarms raise SIGALRM and are cleared; an interruptible sleeper with a signal becomes running |
| `Scheduler.Kernel.RechargeCounters` | kernel/sched.c:101-104 | every task but task 0 gets half its credit plus its priority |
| `Scheduler.Kernel.Scan` | kernel/sched.c:89-99 | the downward scan computes the greatest credit and who has it |
| `Scheduler.Kernel.Schedule` | kernel/sched.c:69-107 | the scan-and-recharge loop ends and makes the choice that the specification makes |
| `Scheduler.Kernel.DoTimer` | kernel/sched.c:164-174 | a tick counts down, and switches only in user mode when the slice is used up |
| `Scheduler.Kernel.SysNice` | kernel/sched.c:214-221 | lowers the priority only while it stays positive and touches no other task |
| `WaitQueue.EnterKeeps` | kernel/sched.c:116-127 | a new sleeper becomes the head and remembers the old one; each blocked task stays on one acyclic chain |
| `WaitQueue.WakeUpKeeps` | kernel/sched.c:156-162 | waking the head keeps every other sleeper reachable, now from the woken task's saved pointer |
| `WaitQueue.ResumeKeeps` | kernel/sched.c:128-132 | a resumed task wakes the one it remembered and leaves the chains well formed |
| `WaitQueue.EnterDoes` | kernel/sched.c:116-127 | in full: the new sleeper is blocked, heads its queue and remembers who did before, and nothing else changes |
| `WaitQueue.WakeUpDoes` | kernel/sched.c:156-162 | in full: the first sleeper becomes runnable, the queue is forgotten, and nothing else changes |
| `WaitQueue.ResumeDoes` | kernel/sched.c:128-132 | in full: the resumed task leaves, the one that it remembered becomes runnable, and nothing else changes |
| `WaitQueue.RunKeeps` | kernel/sched.c:116-162 | all of this in every interleaving |
| `WaitQueue.WakeUpReleases` | kernel/sched.c:156-162 | after a `wake_up` no sleeper from before it can be reached from the queue head |
| `WaitQueue.RunReleased` | kernel/sched.c:116-162 | and none ever becomes so again |
| `WaitQueue.SomeoneCanRun` | kernel/sched.c:128-132 | as long as a sleeper from before the `wake_up` is left, one of them is runnable |
| `WaitQueue.OldOnlyLeave` | kernel/sched.c:116-162 | the sleepers from before a given moment only ever leave, one for each resumption |
| `WaitQueue.NoLostSleeper` | kernel/sched.c:116-162 | once no earlier sleeper is runnable, every task that slept on the queue before the `wake_up` has been resumed |
| `WaitQueue.EachResumptionCounts` | kernel/sched.c:128-132 | there is always an earlier sleeper whose resumption brings their number down by one |
| `WaitQueue.HeadNeverRestored` | kernel/sched.c:128-131 | a woken task is never the queue head, so what it does on resuming leaves every head as it is |
| `WaitQueue.BootGood` | kernel/sched.c:116-162 | queues that start empty satisfy the invariant |
| `WaitQueue.Sleepers.SleepOn` | kernel/sched.c:116-127 | the first half of `sleep_on`, up to the switch |
| `WaitQueue.Sleepers.WokenUp` | kernel/sched.c:128-132 | the second half; no queue head changes |
| `WaitQueue.Sleepers.WakeUpQueue` | kernel/sched.c:156-162 | `wake_up` on a queue head |
| `Elevator.InOrderIsLbaOrder` | kernel/hd.c:52-56 | on one disk the macro IN_ORDER is the order of block addresses |
| `Elevator.InsertIsPermutation` | kernel/hd.c:406-439 | no request is lost or doubled, and the first two entries are never displaced |
| `Elevator.InsertKeepsShape` | kernel/hd.c:406-439 | if the sectors differ, the queue behind the request in service stays one or two ascending sweeps of different sectors |
| `Elevator.PlacedKeepsSweepsExactly` | kernel/hd.c:426-433 | for any list in one or two sweeps, repeated sectors included: the loop's choice of place keeps them, except exactly when the list has a second sweep, the request does not fit into the first, and it comes before two neighbours there that name the same sectors or names sectors of the second sweep, which goes on beyond them |
| `Elevator.InsertKeepsShapeExactly` | kernel/hd.c:406-439 | the same for the whole queue with its request in service |
| `Elevator.DistinctNeverLoses` | kernel/hd.c:406-439 | the condition for a third sweep needs sectors named twice |
| `Elevator.DoneKeepsShape` | kernel/hd.c:352-369 | so does a completion |
| `Elevator.EqualPlacesBreakShape` | kernel/hd.c:406-439 | a queue of four different sectors in two sweeps to which a second request for one of them adds a third sweep |
| `Elevator.RunKeepsShape` | kernel/hd.c:352-439 | the shape holds through every mix of requests and completions in which no request is added at a moment when it makes a third sweep |
| `Elevator.ElsewhereNeverLoses` | kernel/hd.c:352-439 | runs whose requests always name sectors that nothing queued names are among these |
| `Elevator.RunConserves` | kernel/hd.c:352-439 | queued and served requests together are those that were added, and what was served stays served |
| `Elevator.AddIsLiveExactlyWhen` | kernel/hd.c:371-439 | adding a request leaves the driver running exactly if it was idle or no completion falls while the queue is being sorted; otherwise it stops for good, with all requests still queued unless the new one was linked behind one just done |
| `Elevator.DeadForever` | kernel/hd.c:371-439 | a driver stopped in that way is not started again by any later request or interrupt |
| `Elevator.RunIsLiveExactlyWhen` | kernel/hd.c:352-439 | over any run of requests and interrupts the driver is alive at the end exactly if no completion ever fell into the window of a request; then its queue is the one that the events alone make, and otherwise it is stopped |
| `Elevator.RequestTable.FindFree` | kernel/hd.c:453-461 | a free slot of the table, or all are queued |
| `Elevator.RequestTable.Enqueue` | kernel/hd.c:441-474 | a request is put into a free slot and inserted in order, or the table is full |
| `Elevator.RequestTable.AddRequest` | kernel/hd.c:406-439 | the pointer loop links the slot where the specification inserts it |
| `Elevator.RequestTable.Search` | kernel/hd.c:426-431 | the scan stops behind the entry after which the request belongs |
| `Elevator.RequestTable.LinkIn` | kernel/hd.c:432-433 | linking behind an entry inserts at that place of the queue |
| `Elevator.RequestTable.Complete` | kernel/hd.c:362-369 | a completion takes the first request off the queue |
| `IdeController.SectorFullKeeps` | bemu/ide.c:326-358 | a sector is committed as one whole of exactly the 512 staged bytes, unless the cut comes before it |
| `IdeController.SectorDoneKeeps` | bemu/ide.c:276-304 | moving on to the next sector changes no disk byte |
| `IdeController.PushClosed` | bemu/ide.c:326-358 | the byte loop of a data write stages the bytes, or fills the sector and drops the rest |
| `IdeController.PullClosed` | bemu/ide.c:306-324 | the byte loop of a data read returns the next bytes of the sector |
| `IdeController.StepKeeps` | bemu/ide.c:203-380 | every port access, fault, reset and cut keeps the invariant; the IRQ line is always pending and not masked |
| `IdeController.RunKeeps` | bemu/ide.c:203-380 | so does every run |
| `IdeController.RunFollows` | bemu/ide.c:237-358 | over a whole run the disk changes only by whole sectors of the 512 bytes received for them, in ascending order within a command |
| `IdeController.CutFires` | bemu/ide.c:54-82 | an armed cut fires at exactly one kind of step; before the commit the sector is old, after it new |
| `IdeController.OffForever` | bemu/ide.c:68-82 | after power off no access changes the disk or raises the line |
| `IdeController.RunCut` | bemu/ide.c:54-82 | in a run that ends off, the final disk is the one at the step where the armed cut fired |
| `IdeReports.CommandReports` | bemu/ide.c:203-274 | after any command with the power on: the error bit, with error code 4, nothing to transfer and an interrupt, exactly if the command is none of the four, or a transfer whose address the disk does not have or whose first sector has a matching fault |
| `IdeReports.SectorReports` | bemu/ide.c:276-304 | when a sector is through: the same error exactly if there is to be another and it lies beyond the disk or has a matching fault; otherwise the next sector is offered or the transfer is over |
| `IdeReports.ReadReports` | bemu/ide.c:306-324 | so after the port access that reads the last byte of a sector |
| `IdeReports.WriteReports` | bemu/ide.c:326-358 | and after the one that writes it, unless the power is cut there; the sector is then on the disk |
| `IdeReports.ResetReports` | bemu/ide.c:360-380 | a reset goes through busy to ready, with error code 1 and no transfer or interrupt left |
| `IdeReports.OffReports` | bemu/ide.c:68-82 | with the power off every bit of the status reads 0, and stays so |
| `IdeReports.OffIsDown` | bemu/ide.c:68-82 | power off clears status, error and interrupt and keeps the disk |
| `IdeReports.MaskKeeps` | bemu/ide.c:360-380 | masking or unmasking the interrupt hides or shows the pending one and changes nothing else |
| `IdeReports.StatusKeeps` | bemu/bemu_linux01.c:284-285 | reading the status acknowledges the interrupt, reading the other status port does nothing |
| `IdeReports.ArmKeeps` | bemu/ide.c:54-66 | a cut is armed exactly if none was, the drive is on and has the sector |
| `IdeReports.InjectKeeps` | bemu/ide.c:47-52 | a fault that is injected stays in place until an access meets it |
| `IdeReports.LatchKeeps` | bemu/bemu_linux01.c:318-325 | the registers hold what was written to them |
| `IdeController.Drive.SetIrqLine` | bemu/ide.c:173-184 | raises the line only if interrupts are not masked |
| `IdeController.Drive.ClearIrqLine` | bemu/ide.c:186-190 | drops the pending interrupt |
| `IdeController.Drive.AbortTransfer` | bemu/ide.c:203-212 | an abort drops the transfer, sets the error bit and error code 4, and raises the interrupt |
| `IdeController.Drive.SwitchOff` | bemu/ide.c:68-82 | power off keeps the disk and nothing else |
| `IdeController.Drive.FaultMatches` | bemu/ide.c:214-221 | an injected fault is taken by the first matching access only |
| `IdeController.Drive.CutMatches` | bemu/ide.c:223-235 | a cut fires at its own phase and sector only |
| `IdeController.Drive.WriteCommand` | bemu/ide.c:237-274 | command decoding with its address check, faults and cut points |
| `IdeController.Drive.StartTransfer` | bemu/ide.c:250-272 | the transfer registers of a new read or write |
| `IdeController.Drive.FinishSector` | bemu/ide.c:276-304 | the end of a sector, with the faults of the next one |
| `IdeController.Drive.TakeSector` | bemu/ide.c:336-357 | a full sector is committed between its two cut points |
| `IdeController.Drive.WriteData` | bemu/ide.c:326-358 | the data port, one access of any width |
| `IdeController.Drive.ReadData` | bemu/ide.c:306-324 | the data port in the other direction |
| `IdeController.Drive.WriteControl` | bemu/ide.c:360-380 | reset and interrupt mask |
| `IdeController.Drive.ArmPowerCut` | bemu/ide.c:54-66 | a cut is armed only for a sector of the disk and only once |
| `HdDriver.SplitAndRecombine` | kernel/hd.c:116-132 | for every block address of the disk the driver's cylinder, head and sector are in range and the controller puts them together to the same address |
| `HdDriver.RecombineIsLba` | bemu/ide.c:192-201 | and the other way round |
| `HdDriver.LoadStarts` | kernel/hd.c:245-265 | the eight register writes start a two-sector transfer at the request's address |
| `HdDriver.SectorSent` | kernel/hd.c:352-369 | 256 words written to the port put 512 bytes into exactly one sector |
| `HdDriver.WordsFill` | kernel/hd.c:352-369 | the word loop on the driver's side is the sector on the controller's |
| `HdDriver.WordsRead` | kernel/hd.c:182-232 | the word loop of a polled read returns the sector |
| `HdDriver.ReadBlockWorks` | kernel/hd.c:182-232 | a polled read that no fault spoils returns the two sectors, finds the status it waits for at each step, and changes nothing |
| `HdDriver.FaultStopsRead` | kernel/hd.c:204-213 | a polled read of a block with a fault on one of its two sectors finds the error bit where it waits for that sector, and the fault is used up |
| `HdDriver.WriteReported` | kernel/hd.c:234-243 | a write of a block finds the error bit after the sector that a fault was armed for, and not otherwise |
| `HdDriver.ResetRevives` | kernel/hd.c:182-232 | after an error and a reset the controller is ready again, with the disk as it was |
| `HdDriver.WritesCommute` | kernel/hd.c:352-399 | writes to different blocks commute |
| `HdDriver.WrittenInserted` | kernel/hd.c:406-439 | so wherever the elevator puts a write, the disk after the queue is the same |
| `HdDriver.InterruptKeeps` | kernel/hd.c:352-369 | each interrupt moves one half of one block to its sector and leaves disk plus queued writes the same |
| `HdDriver.SubmitKeeps` | kernel/hd.c:371-474 | submitting a write adds exactly that write to disk plus queue |
| `HdDriver.SettleWrites` | kernel/hd.c:352-399 | after enough interrupts the queue is empty and every queued block is on the disk, its 1024 bytes at its two sectors and no other byte changed |
| `HdDriver.ReadAfterWrite` | kernel/hd.c:182-399 | a read after the writes have settled returns what was written, or the old bytes of any other block |
| `HdDriver.BlockPlaces` | kernel/hd.c:116-132 | different blocks of a partition use different sectors |
| `HardDisk.ControllerReady` | kernel/hd.c:174-180 | one poll of the status register |
| `HardDisk.WaitForData` | kernel/hd.c:385-390 | the driver waits for the controller to ask for data |
| `HardDisk.WaitForSector` | kernel/hd.c:204-213 | a read waits for data without error |
| `HardDisk.WinResult` | kernel/hd.c:234-243 | success is ready and seek complete with no error |
| `HardDisk.SendWords` | kernel/hd.c:352-369 | the word loop against the controller's data port |
| `HardDisk.ReceiveWords` | kernel/hd.c:182-232 | the same for reading |
| `HardDisk.LoadRegisters` | kernel/hd.c:245-265 | the register writes against the controller's |
| `HardDisk.ReadAttempt` | kernel/hd.c:191-226 | one attempt of a polled read returns the block, or fails exactly if a fault awaits one of its two sectors |
| `HardDisk.ReadBack` | kernel/hd.c:182-232 | the loop of `read_abs_hd`: a fault spoils one attempt, the reset after it works, and the block is read |
| `HardDisk.WriteAttempt` | kernel/hd.c:371-399 | of one sector written by hand the driver is told of an error exactly if a fault awaited it |
| `HardDisk.ResetController` | kernel/hd.c:296-305 | the quiet reset by the driver, which then finds the drive ready |
| `HardDisk.DriveBusy` | kernel/hd.c:267-280 | the wait for the drive after a reset |
| `HardDisk.Driver.StartRequest` | kernel/hd.c:371-399 | the next request, if any, is started on the controller; the panic for a controller that is not ready and the reset for one that asks for no data cannot come |
| `HardDisk.Driver.Interrupt` | kernel/hd.c:352-369 | the write interrupt handler: one step, one sector, one unit of work less |
| `HardDisk.Driver.Write` | kernel/hd.c:441-474 | a write is queued and started, or the table is full and nothing changes |
| `HardDisk.Driver.Read` | kernel/hd.c:182-232 | a read returns the block whatever one fault awaits the drive, and leaves the disk and the driver as they were |
| `ZoneTree.ConservedMeans` | fs/bitmap.c:64-128 | the owner map exists exactly if every zone number in an inode or table is in range and marked used, and every used zone in range is named exactly once |
| `ZoneTree.NewBlockWorks` | fs/bitmap.c:92-128 | `new_block` gives a zone that was free, cleared, and fails exactly when no zone in range is free |
| `ZoneTree.StoreChangesOne` | fs/inode.c:49-115 | storing a new zone's number changes one place in the trees of all files |
| `ZoneTree.GrowWorks` | fs/inode.c:58-65 | filling an empty place takes one free zone for it, keeps every zone owned once, and leaves all data alone |
| `ZoneTree.CreateWorks` | fs/inode.c:49-115 | `create_block` at any of the three levels keeps every zone owned once, changes only the place asked for and missing tables above it, and fails only on a full volume |
| `ZoneTree.CreateMaps` | fs/inode.c:117-125 | creating a block leaves every other block of every file mapped where it was |
| `ZoneTree.BlockRefs` | fs/inode.c:57-88 | block numbers and places in the tree correspond one to one |
| `ZoneTree.TruncateWorks` | fs/truncate.c:5-58 | `truncate` frees exactly the inode's own zones and touches no other file |
| `FileBytes.ReadIs` | fs/file_dev.c:11-40 | `file_read` returns the bytes of the file from the position on, zero where there is no block |
| `FileBytes.WriteWorks` | fs/file_dev.c:42-84 | `file_write` stores exactly the prefix it reports, changes no other byte of any file, keeps every zone owned once, and stops short only on a full volume |
| `FileBytes.StoredContents` | fs/file_dev.c:42-84 | as byte sequences: the file is overlaid at the position, a gap reads as zeros, other files are unchanged |
| `FileBytes.SysReadIs` | fs/file_dev.c:11-40 | reading is slicing the byte sequence, clipped at its end |
| `FileBytes.TruncateContents` | fs/truncate.c:41-58 | a truncated file is empty and the others keep their bytes |
| `FileBytes.StepRefines` | fs/file_dev.c:11-84 | each write, append or truncation acts on all files as on plain byte sequences |
| `FileBytes.RunRefines` | fs/file_dev.c:11-84 | so does any run over any files, with every zone accounted for at the end |
| `FileSystem.FreeOne` | fs/truncate.c:5-21 | the zone given back at each step is still marked used, so the panic in `free_block` cannot come, and each is freed once |
| `FileSystem.AllFreed` | fs/truncate.c:41-58 | after the last step the bitmap is that of the truncated volume |
| `FileSystem.Volume.FindFirstZero` | fs/bitmap.c:35-50 | the first clear bit of one bitmap block |
| `FileSystem.Volume.TakeBlock` | fs/bitmap.c:92-128 | the loop over bitmap blocks is `new_block` |
| `FileSystem.Volume.SlotOf` | fs/inode.c:58-65 | an inode slot, filled if asked for |
| `FileSystem.Volume.WordOf` | fs/inode.c:77-83 | a table word, filled if asked for |
| `FileSystem.Volume.Bmap` | fs/inode.c:49-115 | `_bmap` panics exactly on a block number that no file can have, and otherwise returns the mapping, or creates it as the specification does |
| `FileSystem.Volume.FreeBlock` | fs/bitmap.c:64-90 | clears exactly the zone's bit; a zone outside the data area or already free is a panic |
| `FileSystem.Volume.FreeInd` | fs/truncate.c:5-21 | all zones of one table, then the table |
| `FileSystem.Volume.FreeDind` | fs/truncate.c:23-39 | all tables under the double-indirect one, then that |
| `FileSystem.Volume.Truncate` | fs/truncate.c:41-58 | the whole tree of one inode |
| `FileSystem.Volume.ReadFile` | fs/file_dev.c:11-40 | the copy loop returns the specified bytes and leaves the volume alone |
| `FileSystem.Volume.WriteFile` | fs/file_dev.c:42-84 | the copy loop is the specified write, with the position and the return value of the code |
| `Loader.BlockLoaded` | fs/exec.c:38-54 | loading one block extends the part of memory that equals the file from offset 1024 on |
| `Loader.HolesLoaded` | fs/exec.c:90-117 | blocks that are missing leave zeros, as the file reads |
| `Loader.ReadHead` | fs/exec.c:38-54 | the six direct blocks after the header block |
| `Loader.ReadInd` | fs/exec.c:56-88 | the blocks of one table, missing table included |
| `Loader.ReadDouble` | fs/exec.c:105-116 | the blocks under the double-indirect table |
| `Loader.ReadArea` | fs/exec.c:90-117 | the program's memory is the file's bytes from offset 1024 on, whole blocks, and zero beyond |
| `BufferModel.FindBufferIs` | fs/buffer.c:107-116 | the hash lookup finds the buffer of a block exactly if one is listed |
| `BufferModel.XorBits` | fs/buffer.c:68 | the bits of the hashed word are those in which device and block number differ |
| `BufferModel.RemoveKeeps` | fs/buffer.c:71-87 | taking a buffer off both queues leaves the others in place |
| `BufferModel.InsertKeeps` | fs/buffer.c:89-105 | putting it back keeps chains and list in agreement if no other buffer has its name |
| `BufferModel.ChangeKeeps` | fs/buffer.c:188-202 | renaming a buffer that is off the list, or changing anything else of one that is on it, disturbs neither queue |
| `BufferInterleave.CheckSucceeds` | fs/buffer.c:124-138 | the re-check after waiting always succeeds |
| `BufferInterleave.PickKeeps` | fs/buffer.c:145-180 | taking the first free buffer off the list keeps the structure |
| `BufferInterleave.FinishKeeps` | fs/buffer.c:186-206 | the end of an eviction, with the case that another task got the block first |
| `BufferInterleave.StepKeeps` | fs/buffer.c:71-216 | every step keeps: listed buffers are listed once, chains hold exactly the listed buffers with a device, no two share a block, counts are the references |
| `BufferInterleave.RunKeeps` | fs/buffer.c:71-216 | in every interleaving |
| `BufferInterleave.HeldBufferStays` | fs/buffer.c:124-216 | a buffer held by reference keeps its device and block until it is released |
| `BufferInterleave.ListNeverEmpty` | fs/buffer.c:145-180 | with more buffers than tasks the list is never empty |
| `BufferSteps.LookDoes` | fs/buffer.c:118-145 | in full: the buffer listed for the block is found and counted, or the search starts at the head of the list |
| `BufferSteps.PickDoes` | fs/buffer.c:152-180 | in full: a buffer is taken off the list exactly if nobody uses it |
| `BufferSteps.FinishDoes` | fs/buffer.c:186-206 | in full: the evicted buffer is listed for the block with one reference, or, exactly if another has been listed for it meanwhile, listed free |
| `BufferSteps.ReleaseDoes` | fs/buffer.c:208-220 | in full: one reference and one count less, and nothing else changes |
| `BufferSteps.AskDoes` | fs/buffer.c:145-152 | in full: a call of `getblk` begins for the device and block given |
| `BufferSteps.MoveDoes` | fs/buffer.c:152-172 | in full: the walk goes on to another buffer, or the task sleeps when none is left |
| `BufferSteps.WakeDoes` | fs/buffer.c:173-178 | in full: woken, it begins again with the lookup |
| `BufferSteps.TouchDoes` | fs/buffer.c:222-235 | in full: contents and flags of a buffer change, its name, count and place do not |
| `BufferSteps.GetblkReturnsTheBlock` | fs/buffer.c:145-206 | in every interleaving: when `getblk` has returned, its caller has a reference to a listed buffer for the block that it asked for |
| `BufferInterleave.BootGood` | fs/buffer.c:237-266 | the cache as initialised satisfies the invariant |
| `BufferContent.ViewIsSeen` | fs/buffer.c:107-116 | what a block reads as, an up-to-date buffer or else the disk, is well defined |
| `BufferContent.SyncWorks` | fs/buffer.c:37-66 | a sync changes no block's reading and afterwards the disk holds it |
| `BufferContent.RecycleWorks` | fs/buffer.c:179-206 | evicting a buffer, dirty or not, changes no block's reading |
| `BufferContent.GetBlkWorks` | fs/buffer.c:145-206 | `getblk` gives the block's only buffer and changes no block's reading; it fails exactly when every buffer is in use and none has the block |
| `BufferContent.BReadWorks` | fs/buffer.c:222-235 | `bread` gives a buffer with exactly what the block reads as |
| `BufferContent.ModifyWorks` | fs/buffer.c:222-235 | a change through a held buffer changes that block's reading only |
| `BufferContent.BRelseWorks` | fs/buffer.c:208-220 | a release changes only the count |
| `BufferContent.StepShows` | fs/buffer.c:37-235 | each read, write and sync through the cache is one on a plain map of blocks |
| `BufferContent.RunShows` | fs/buffer.c:37-235 | any sequence of them returns what the plain map returns |
| `BufferTurns.TakesInTurn` | fs/buffer.c:145-206 | a block that is not in the cache gets the first unused buffer of the list, which then goes to its end; one that is leaves the list as it is |
| `BufferTurns.OperationTurns` | fs/buffer.c:145-235 | so with no buffer in use the list turns round by one at each miss |
| `BufferTurns.StaysInCache` | fs/buffer.c:145-235 | a block stays in the cache through any run in which no more operations miss than there are buffers before its own in the list |
| `BufferTurns.JustBroughtIn` | fs/buffer.c:145-235 | which for one just brought in is all the others |
| `BufferTurns.ShowsContents` | fs/buffer.c:107-116 | every state of cache and disk that keeps the invariant shows some array of blocks |
| `BufferWrites.OnlyWrittenBlocksChange` | fs/buffer.c:37-235 | over any run of reads, writes and syncs the disk changes only at blocks that the run writes or that a buffer was waiting to be written to before it |
| `BufferLinks.CircleRemove` | fs/buffer.c:80-86 | unlinking from the circular list gives the list without the buffer |
| `BufferLinks.CircleInsert` | fs/buffer.c:91-95 | linking before the head appends it |
| `BufferLinks.ChainRemove` | fs/buffer.c:73-79 | unlinking from a hash chain |
| `BufferLinks.ChainInsert` | fs/buffer.c:96-104 | linking at the head of a hash chain |
| `BufferCache.Buffers.Remove` | fs/buffer.c:71-87 | the pointer code of `remove_from_queues` |
| `BufferCache.Buffers.Insert` | fs/buffer.c:89-105 | the pointer code of `insert_into_queues` |
| `BufferCache.Buffers.Find` | fs/buffer.c:107-116 | the walk of a hash chain |
| `BufferCache.Buffers.SyncDevice` | fs/buffer.c:52-66 | the loop over all buffers |
| `BufferCache.Buffers.FindFree` | fs/buffer.c:152-172 | the walk round the list to the first buffer not in use |
| `BufferCache.Buffers.GetBlk` | fs/buffer.c:145-206 | lookup, search, eviction and renaming for one task |
| `BufferCache.Buffers.TakeOver` | fs/buffer.c:179-206 | an unused buffer is written out if dirty, renamed and listed again |
| `BufferCache.Buffers.BRelse` | fs/buffer.c:208-220 | one reference less |
| `BufferCache.Buffers.BRead` | fs/buffer.c:222-235 | the data is what the block reads as |
| `BufferCache.Buffers.constructor` | fs/buffer.c:237-266 | the initial circular list and empty chains |
| `Console.TermKeeps` | kernel/console.c:373-536 | in the plain terminal the cursor stays within 80 columns (or just past them) and 50 lines |
| `Console.UpShows` | kernel/console.c:95-119 | scrolling up, by moving the origin or by copying, is moving the lines of the grid up, also when the origin wraps |
| `Console.DownShows` | kernel/console.c:121-129 | scrolling down is moving the lines of the region down |
| `Console.ShiftWindow` | kernel/console.c:262-302 | the carry loops act inside the window as on the grid |
| `Console.CharShows` | kernel/console.c:262-302 | inserting and deleting a character |
| `Console.RepeatShows` | kernel/console.c:317-355 | the repeated forms, lines included |
| `Console.FeedShows` | kernel/console.c:131-149 | line feed and reverse line feed with scroll regions |
| `Console.PutShows` | kernel/console.c:384-399 | a printed character, with wrap at the last column |
| `Console.EraseDisplayShows` | kernel/console.c:166-188 | erasing in the display |
| `Console.EraseLineShows` | kernel/console.c:190-214 | erasing in the line |
| `Console.DoShows` | kernel/console.c:373-536 | every action of the state machine keeps window and grid equal, and the position at the cursor |
| `Console.BytesShow` | kernel/console.c:373-536 | after any bytes the 50 by 80 cells at the origin are the grid of a terminal that scrolls by moving lines, and the window is inside video memory |
| `ConsoleCodes.DecimalIs` | kernel/console.c:454-456 | the decimal digits of a number stand for it |
| `ConsoleCodes.TakesText` | kernel/console.c:446-457 | digits accumulate to the number that they write, modulo 2^32, and semicolons separate up to 16 of them |
| `ConsoleCodes.SequenceMeans` | kernel/console.c:446-532 | between sequences, escape, bracket, an optional question mark, up to 16 numbers in digits and any final byte have exactly the effect that the final byte means for those numbers, on cells, cursor, region and attribute, for every final byte; a 17th parameter ends the sequence without effect |
| `ConsoleCodes.NumbersMean` | kernel/console.c:446-532 | the same for numbers below 2^32 written in decimal |
| `ConsoleCodes.EscapeByteMeans` | kernel/console.c:428-445 | every two-byte sequence has exactly its effect |
| `ConsoleCodes.PlainByteMeans` | kernel/console.c:382-427 | every byte outside a sequence, printed or control code, has exactly its effect, wrapping and scrolling included |
| `ConsoleCodes.ConsoleSequenceMeans` | kernel/console.c:373-536 | a control sequence has that effect on the console itself, seen through the window on video memory |
| `Console.Screen.CopyScreen` | kernel/console.c:44-51 | the upward word copy |
| `Console.Screen.CopyScreenDown` | kernel/console.c:53-60 | the downward word copy |
| `Console.Screen.ClearScreen` | kernel/console.c:62-68 | the fill with blanks |
| `Console.Screen.ScrollUp` | kernel/console.c:95-119 | the three cases of `scrup` |
| `Console.Screen.ScrollDown` | kernel/console.c:121-129 | `scrdown` |
| `Console.Screen.LineFeedAt` | kernel/console.c:131-139 | `lf` |
| `Console.Screen.ReverseAt` | kernel/console.c:141-149 | `ri` |
| `Console.Screen.InsertCell` | kernel/console.c:262-274 | `insert_char` |
| `Console.Screen.DeleteCell` | kernel/console.c:289-302 | `delete_char` |
| `Console.Screen.RepeatOp` | kernel/console.c:317-358 | the bounded repetitions |
| `Console.Screen.PutCell` | kernel/console.c:384-399 | one printed character |
| `Console.Screen.Erase` | kernel/console.c:166-214 | `csi_J` and `csi_K` |
| `Console.Screen.MoveCursor` | kernel/console.c:400-536 | the cursor movements |
| `Console.Screen.Act` | kernel/console.c:373-536 | one action of the state machine |
| `Console.Screen.Write` | kernel/console.c:373-536 | `con_write` over a whole queue |
| `ExecArgs.FillWorks` | fs/exec.c:185-190 | filled pages always form a suffix of the area; filling fails exactly when too few pages are free |
| `ExecArgs.CopyStringsWorks` | fs/exec.c:170-200 | copying succeeds exactly if the strings fit and the pages suffice, puts the strings with their NULs, in order, below the start, and takes exactly the pages that were missing |
| `ExecArgs.FillTableWorks` | fs/exec.c:137-146 | a pointer table points at the successive strings and disturbs nothing else |
| `ExecArgs.CreateTablesWorks` | fs/exec.c:124-148 | both tables are in place, end with NULL, and lie below the strings |
| `ExecArgs.CopyAllWorks` | fs/exec.c:303-305 | environment and then arguments: both succeed exactly if all strings together leave room and enough pages are free for them, and then the area holds them in order |
| `ExecArgs.ArgumentsArrive` | fs/exec.c:124-200 | whenever the strings fit and the pages suffice, the program finds argc, argv and envp; entry k of each table points at an exact NUL-terminated copy of string k; tables and strings do not overlap and nothing else changed |
| `ExecArgs.StringPages.FillPages` | fs/exec.c:185-190 | pages from the needed one up to the first that is there |
| `ExecArgs.StringPages.CopyOne` | fs/exec.c:177-198 | one string with its NUL, or failure |
| `ExecArgs.StringPages.CopyBack` | fs/exec.c:191-197 | the backward byte loop meets only pages that are there, so its panic cannot come |
| `ExecArgs.StringPages.CopyUp` | fs/exec.c:170-200 | the loop over the strings, last one first |
| `ExecArgs.FillPointers` | fs/exec.c:137-146 | the loop that stores pointers and skips strings |
| `ExecArgs.MakeTables` | fs/exec.c:124-148 | `create_tables` in memory |
| `Crc64.Update` | bbp/include/bbp/bbp_crc64.h:45-56 | the nested loop is the byte-wise fold |
| `Crc64.OneShot` | bbp/include/bbp/bbp_crc64.h:65-68 | the one-shot form is the complemented fold |
| `Crc64.CrcSkip` | bbp/bbp_kernel.c:35-45 | the checksum of the structure with its checksum field zeroed; all ones if it is too short |
| `Crc64.StepBijective` | bbp/include/bbp/bbp_crc64.h:50-53 | the bit step has an inverse on 64-bit states |
| `Crc64.AbsorbInjective` | bbp/include/bbp/bbp_crc64.h:45-56 | no byte merges two states |
| `Crc64.WindowAsWord` | bbp/include/bbp/bbp_crc64.h:45-56 | up to eight bytes act as one word mixed into the state |
| `Crc64.BurstDetected` | bbp/include/bbp/bbp_crc64.h:45-68 | messages of any length that differ only within eight consecutive bytes have equal checksums exactly if they are equal |
| `Crc64.CrcMixes` | bbp/include/bbp/bbp_crc64.h:45-68 | two checksums differ by what the difference of the messages alone leaves in the register |
| `Crc64.StreamingAgrees` | bbp/include/bbp/bbp_crc64.h:37-68 | feeding a message in pieces gives the one-shot checksum |
| `CrcPolynomial.PolyIsGenerator` | bbp/include/bbp/bbp_crc64.h:33 | the constant is the generator x^64 + x^62 + ... + 1, written out by its exponents, without its highest power and with its bits reversed |
| `CrcPolynomial.CrcIsRemainder` | bbp/include/bbp/bbp_crc64.h:33-68 | for every message the checksum, complemented, is the remainder of the message polynomial, started with 64 ones and raised by x^64, on division by that generator |
| `CrcPolynomial.OnlyRemainder` | bbp/include/bbp/bbp_crc64.h:33-68 | there is only one such remainder |
| `CrcCheck.CheckValue` | bbp/include/bbp/bbp_crc64.h:13 | the checksum of "123456789" is 0x995DC9BBDF1939FA |
| `HandoffBuild.SealSeals` | bbp/bbp_build.c:238-239 | storing the checksum does not change it |
| `HandoffBuild.AllocTagKeeps` | bbp/bbp_build.c:97-126 | a new tag is linked last and empty; all earlier tags keep their fields and bodies |
| `HandoffBuild.AddBytesKeeps` | bbp/bbp_build.c:165-207 | a blob lands outside every tag and is there as given |
| `HandoffBuild.FillBodyKeeps` | bbp/bbp_build.c:97-126 | writing a body disturbs no other tag |
| `HandoffBuild.RunHolds` | bbp/bbp_build.c:64-207 | after any sequence that did not overflow the chain is exactly the appended tags with their bodies |
| `HandoffBuild.BuiltFromInit` | bbp/bbp_build.c:43-207 | the same from `bbp_builder_init` on: any calls that do not overflow leave exactly the tags they mean, in the arena that was given |
| `HandoffBuild.SealFromWorks` | bbp/bbp_build.c:229-245 | the sealing loop seals every tag and reaches the end of the chain |
| `HandoffBuild.FinalizeWorks` | bbp/bbp_build.c:209-260 | finalizing succeeds exactly if the info structure lies right below the arena without wrapping and the total fits, and then every tag is sealed |
| `HandoffSpace.BumpSucceedsExactlyWhen` | bbp/bbp_build.c:64-95 | space is found exactly when it is in the arena and in the address space, and it is the next at a multiple of 8 |
| `HandoffSpace.InitSucceedsExactlyWhen` | bbp/bbp_build.c:43-62 | an arena is taken, and cleared, exactly when its addresses are multiples of 8 and its last byte has one |
| `HandoffSpace.RunSucceedsExactlyWhen` | bbp/bbp_build.c:64-207 | any calls go through exactly when each of them is served, by sizes, counts and room alone |
| `HandoffSpace.ArenaSuffices` | bbp/bbp_build.c:43-207 | in an arena below the end of the address space any calls go through exactly when all of it together, each part moved up to a multiple of 8, is no longer than the arena |
| `HandoffParse.ValidateFinds` | bbp/bbp_kernel.c:133-167 | a chain that validates has its HHDM tag wholly inside the window |
| `HandoffAccepts.AcceptsExactlyWhen` | bbp/bbp_kernel.c:192-253 | whatever the info structure and the memory hold: they are accepted exactly if the structure has the magic, the version, a possible size, its own checksum and at most 1024 tags, and the memory holds a chain of that many sound tags from where it says, each wholly in the window, with at most one HHDM tag, which agrees with the hint |
| `HandoffAccepts.ChainValidates` | bbp/bbp_kernel.c:133-167 | a chain of sound tags validates exactly if it has at most one HHDM tag |
| `HandoffAccepts.ValidatesChain` | bbp/bbp_kernel.c:133-167 | what validates is a chain of as many sound tags as were counted |
| `HandoffAccepts.SearchAnswers` | bbp/bbp_kernel.c:314-340 | whatever has become of the memory, a search answers exactly if it holds a chain of that many sound tags and one is of the kind, and then with the first |
| `Handoff.TagRead` | bbp/bbp_kernel.c:290-312 | the parser reads from a finished tag what the builder wrote |
| `Handoff.ValidateIs` | bbp/bbp_kernel.c:133-167 | validation of a finished chain succeeds exactly if every tag is of version 1, within the size limit and reachable, with at most one HHDM tag |
| `Handoff.FindIs` | bbp/bbp_kernel.c:314-340 | a search returns the first tag of the kind |
| `Handoff.AcceptedExactlyWhen` | bbp/bbp_kernel.c:192-253 | what was built and finalized is accepted exactly if the tags are within the limits, at most one HHDM tag is there and it says the hint; then every search finds the first appended tag of its kind with its body intact |
| `Handoff.RoundTrip` | bbp/bbp_kernel.c:192-253 | the whole way: an initialised arena, any calls, finalizing, which succeeds exactly if nothing overflowed and the places fit, and a parser that accepts exactly what its limits allow and then finds the first tag appended of every kind |
| `Handoff.AnswersAll` | bbp/bbp_kernel.c:314-340 | every search in an accepted handoff is answered from the tags as appended |
| `HandoffCode.TagBuilder.constructor` | bbp/bbp_build.c:43-62 | an aligned arena is cleared, any other refused |
| `HandoffCode.TagBuilder.Take` | bbp/bbp_build.c:64-95 | the aligned bump with all its overflow checks |
| `HandoffCode.TagBuilder.NewTag` | bbp/bbp_build.c:97-126 | allocation, header and link |
| `HandoffCode.TagBuilder.AddBlob` | bbp/bbp_build.c:196-207 | a blob |
| `HandoffCode.TagBuilder.AddString` | bbp/bbp_build.c:165-194 | a string up to its NUL |
| `HandoffCode.TagBuilder.SealAll` | bbp/bbp_build.c:229-241 | the sealing loop |
| `HandoffCode.TagBuilder.Finish` | bbp/bbp_build.c:209-260 | `bbp_builder_finalize` |
| `HandoffCode.ValidateChain` | bbp/bbp_kernel.c:133-167 | the loop over an arbitrary window reads no byte outside it and ends within the count |
| `HandoffCode.Find` | bbp/bbp_kernel.c:314-340 | the search loop on an arbitrary window, likewise |
| `HandoffDamage.DamageShows` | bbp/bbp_kernel.c:35-45 | a sealed structure changed within eight consecutive bytes, all inside or all outside its checksum, is sealed exactly if it was not changed at all |
| `HandoffDamage.DamageDecides` | bbp/bbp_kernel.c:35-45 | any change at all to a sealed structure goes unseen exactly if its field changed by what the rest of the change alone leaves in the register, whatever the structure says |
| `HandoffEscape.EscapeRounds` | bbp/include/bbp/bbp_crc64.h:45-56 | what one particular byte leaves in a clear register |
| `HandoffEscape.StraddlingEscapes` | bbp/bbp_kernel.c:35-45 | in every sealed structure with one byte behind its checksum, a change of eight bytes in a row across the end of the checksum leaves it sealed |
| `HandoffDamage.DamagedInfoRefused` | bbp/bbp_kernel.c:214-218 | an accepted info structure damaged in that way is refused, whatever the tags |
| `HandoffDamage.DamagedTagStops` | bbp/bbp_kernel.c:307-312 | a sound tag damaged in that way, its size aside, fails its checksum |
| `HandoffDamage.DamagedChainRefused` | bbp/bbp_kernel.c:133-167 | a chain that validates does not validate once one of its tags has been damaged in that way |
| `ImageZones.TakeNext` | tools/mkimage.c:215-222 | handing out zones in order is what the kernel's search for a free zone does on such a volume |
| `ImageZones.CreateFills` | fs/inode.c:49-115 | on such a volume creating a block takes the next zones, one for each missing place on the way, and fills those places only |
| `ImageZones.CountIsTotal` | tools/mkimage.c:241-256 | the formula of `file_zone_count` is the sum of what the blocks take one by one |
| `ImageZones.FileCountIs` | tools/mkimage.c:241-256 | for every length |
| `ImageZones.WriteFills` | tools/mkimage.c:319-371 | writing a whole file takes exactly that many zones, leaves no hole, and cannot run out once they are there |
| `ImageBuild.DuplicateIs` | tools/mkimage.c:267-284 | the byte comparisons of `add_dirent` find a duplicate exactly if the directory has the name |
| `ImageBuild.EntryWorks` | tools/mkimage.c:267-299 | an entry is added exactly if the name is a good one, is new, and there is room; it is appended to the directory's bytes and nothing else changes |
| `ImageBuild.FileWorks` | tools/mkimage.c:319-371 | a new file takes exactly the zones counted in advance and reads, through the kernel's mapping, as the bytes given; all other files are as before |
| `ImageBuild.DeviceWorks` | tools/mkimage.c:378-392 | a device takes an inode and no zone |
| `ImageBuild.DeviceNumber` | tools/mkimage.c:378-392 | major and minor are bytes and can be had back from the zone number |
| `ImageBuild.DirWorks` | tools/mkimage.c:301-317 | a directory takes one zone and holds `.` and `..` |
| `ImageBuild.AddedWorks` | tools/mkimage.c:394-416 | each operation succeeds exactly if inode, zones, name, slot and link count allow it, keeps the image in order, and enters the new inode under its name |
| `ImageBuild.AssembledWorks` | tools/mkimage.c:394-416 | after any operations the image is in order and still holds everything each of them put there: directories with `.` and `..`, files with their bytes, devices with their numbers, each under its name |
| `ImageBuild.ImageIsVolume` | tools/mkimage.c:657-805 | every finished image is a volume on which the kernel's file system invariant holds: each zone in use has one owner, each file its bytes |
| `ImageLinks.LinksStay` | tools/mkimage.c:394-416 | an operation keeps every link count equal to the number of directory entries that name the inode, `.` and `..` among them |
| `ImageLinks.ImageLinksExact` | tools/mkimage.c:657-805 | so it is in every image that mkimage finishes |
| `ImageAudit.WalkIsNamed` | tools/minix-inspect.c:269-309 | the walk marks only zones that the inode names |
| `ImageAudit.WalkIsExact` | tools/minix-inspect.c:269-309 | for a file without holes it marks all of them |
| `ImageAudit.DumpIsExact` | tools/minix-inspect.c:184-229 | what is printed for a file is the file exactly if it has no hole |
| `ImageAudit.HoleIsLost` | tools/minix-inspect.c:184-229 | a file with one byte at offset 1024 is printed wrongly |
| `FileEnds.WriteEnds` | fs/file_dev.c:42-84 | a write leaves no block mapped past the end of any file, even one that stops short on a full volume |
| `FileEnds.RunEnds` | fs/file_dev.c:42-84 | nor does any run of writes, appends and truncations |
| `FileEnds.KernelFilesPrint` | tools/minix-inspect.c:184-229 | after any such run the inspector prints a file as it is exactly if the file has no hole |
| `FileEnds.BuiltEnds` | tools/mkimage.c:657-805 | every image in order is a volume to start such a run from |
| `ImageAudit.BuiltIsClean` | tools/minix-inspect.c:311-373 | an image in order has nothing to complain about: bitmaps, inodes, reachable zones and directory entries agree |
| `ImageAudit.ImagesPass` | tools/minix-inspect.c:184-373 | every image mkimage finishes passes the audit, and every file is printed back as it was given |
| `AuditFinds.FindsWrongInodeBit` | tools/minix-inspect.c:315-325 | in any image, an inode whose bit and mode disagree is a complaint |
| `AuditFinds.FindsLostZone` | tools/minix-inspect.c:327-341 | in any image, so is a zone marked used that no inode in use names |
| `AuditFinds.FindsUnmarkedZone` | tools/minix-inspect.c:327-341 | in any image, so is a zone marked free that a file without holes names |
| `AuditFinds.FindsDanglingEntry` | tools/minix-inspect.c:343-367 | in any image, so is a directory entry that names an inode which is not there or not used |
| `ImageWriter.GrowStep` | tools/mkimage.c:231-239 | zone first and number after is what the kernel does in one step |
| `ImageWriter.CreateThrough` | tools/mkimage.c:340-368 | making a table first comes to the same as making it on the way |
| `ImageWriter.Image.constructor` | tools/mkimage.c:657-673 | the cleared image |
| `ImageWriter.Image.AllocInode` | tools/mkimage.c:206-213 | the next inode number, or the end |
| `ImageWriter.Image.AllocZone` | tools/mkimage.c:215-222 | the next zone, or the end |
| `ImageWriter.Image.WriteDataBlock` | tools/mkimage.c:231-239 | the next zone, filled |
| `ImageWriter.Image.FillSlots` | tools/mkimage.c:334-339 | the loop over the direct blocks |
| `ImageWriter.Image.FillTable` | tools/mkimage.c:344-350 | the loop over one table |
| `ImageWriter.Image.FillDouble` | tools/mkimage.c:352-368 | the loop over the tables under the double-indirect one always reaches the end of the data |
| `ImageWriter.Image.MkFile` | tools/mkimage.c:319-371 | the loops make the volume that the kernel's write would make; a failure is noticed first |
| `ImageWriter.Image.MkDir` | tools/mkimage.c:301-317 | `mkdir_inode` |
| `ImageWriter.Image.MkChr` | tools/mkimage.c:378-392 | `mkchr_inode` |
| `ImageWriter.Image.AddDirent` | tools/mkimage.c:267-299 | the two passes over the slots |
| `ImageWriter.Image.AddDir` | tools/mkimage.c:394-402 | `add_dir`, the link count last |
| `ImageWriter.Image.AddFile` | tools/mkimage.c:404-409 | `add_file` |
| `ImageWriter.Image.AddChr` | tools/mkimage.c:411-416 | `add_chr` |
| `Inspector.BuiltInside` | tools/minix-inspect.c:112-122 | in a built image no block outside the partition is asked for |
| `Inspector.Inspection.MarkZone` | tools/minix-inspect.c:261-267 | one bit, for zones in range |
| `Inspector.Inspection.WalkInodeZones` | tools/minix-inspect.c:269-309 | the three loops mark the zones of the walk |
| `Inspector.Inspection.DumpFile` | tools/minix-inspect.c:184-229 | the three loops print the specified bytes |
| `Inspector.Inspection.AuditInodes` | tools/minix-inspect.c:315-325 | an error for each inode whose bit and mode disagree |
| `Inspector.Inspection.WalkAll` | tools/minix-inspect.c:327-331 | the marks are the zones reached from some inode in use |
| `Inspector.Inspection.AuditZones` | tools/minix-inspect.c:333-341 | an error for each zone whose bit and mark disagree |
| `Inspector.Inspection.AuditDir` | tools/minix-inspect.c:343-367 | an error for each entry that names an inode not in use |
| `Inspector.Inspection.AuditBitmaps` | tools/minix-inspect.c:311-373 | no error is counted exactly if the image is clean |

## Left out

- The kernel's identity map and the first fork from it: low memory is shared there on purpose, so isolation is stated
  for user slots only.
- Memory.PageMemory.CopyProcess: segment descriptors, the task structure and open files are not modelled, only the
  memory side of `copy_process`.
- `interruptible_sleep_on` and signal delivery: the wait-queue theorems are for queues used through `sleep_on` and
  `wake_up`.
- HdDriver.SubmitKeeps: `add_request` is one step here, because what an interrupt inside it does is stated on its own by
  `Elevator.AddIsLiveExactlyWhen` and `Elevator.RunIsLiveExactlyWhen`.
- Elevator.RequestTable.Enqueue: a full request table is reported to the caller, where the source sleeps until a slot is
  free.
- HardDisk.Driver.Read: one fault can await the drive at a time, as the host injects them; the sleep until the queue is
  empty is a precondition.
- HardDisk.WriteAttempt: the first sector of a write as far as the look at the status after it; what `write_intr` then
  does about an error, `bad_rw_intr`, is not followed.
- HardDisk.Driver.Write: a full request table is reported to the caller, where the source sleeps until a slot is free.
- HdDriver.InterruptKeeps: the sector count left is one field for the request in service, and `bad_rw_intr` is never
  reached because the run is free of faults.
- The order of bytes inside a port word and the timing of the polling loops.
- BufferInterleave.StepKeeps: waits and buffer locks are over-approximated by letting any task run at every sleep point,
  and block contents may change freely while a task waits; contents are proved for one task at a time in `BufferContent`.
- The eight-bit wrap of `b_count`: counts are unbounded.
- BufferContent.GetBlkWorks: no buffer being free is a result, where the source sleeps and tries again.
- BufferCache.Buffers.GetBlk: likewise, for one task.
- ZoneTree.TruncateWorks: blocks that another task holds in the cache, which `free_block` refuses to free, are not
  modelled.
- `new_inode`, `free_inode`, inode and super-block caching, time stamps, pipes and path lookup.
- Several mounted devices: a volume is one device.
- FileSystem.Volume.ReadFile: positions that no file can have, on which `_bmap` panics, are excluded.
- FileSystem.Volume.WriteFile: likewise.
- FileSystem.Volume.FreeBlock: the refusal for a block that another task holds in the cache is not modelled.
- Exec: header checks, credentials, `change_ldt`, and a failing `put_page`; argument strings hold no NUL, as C strings.
- Console: the status report of `respond`, cursor shape, output ports, and tab stops beyond the built-in ones.
- HandoffBuild.RunHolds: the bytes that `bbp_arena_strdup` and `bbp_arena_blob` add are followed up to their own call.
- Handoff.AcceptedExactlyWhen: the walk window is enabled and covers the info structure and the arena, as the kernel
  calls it; a disabled window would read unchecked memory.
- Handoff: the checksum is any function of the bytes there; `Crc64` and `HandoffDamage` are about the one that is used.
- HandoffDamage.DamagedTagStops: damage to the size field changes how many bytes are summed, so no burst guarantee
  exists for it.
- `bbp_for_each_tag`, `bbp_verify_blob`, `bbp_verify_header` and the raw header: the same checks in other arrangements.
- Disk images: permission bits and owners, the super block and MBR bytes, wrapping programs into a.out files, and
  everything about writing the result to the host.
- ImageWriter.Image.MkFile: the repeated loop for one table is one method that is called for both kinds of table.
- Inspector.Inspection.AuditBitmaps: bitmaps are sequences of bits; the text of each message is not modelled.
- Emulated PIC, PIT, UART and clock registers, KVM and host input and output, the shell and the other user programs.
