# Verified models of a 15-410 kernel and its libraries

This project models the hard cores of a small x86 kernel (`kern/`), of the C support
library it is built on (`410kern/`), and of its user-level allocator and thread library
(`410user/`, `user/`), and proves what their documentation promises of them. Each component
is a group of modules:

- **64-bit division** (`LongDivision`): `__qdivrem` is Algorithm D of section 4.3.1 of Knuth,
  The Art of Computer Programming, volume 2, in base 2^16 on digit arrays updated in place,
  with the wrap-around subtraction written out.
- **qsort** (`Qsort`): the Bentley-McIlroy partition in place (section 7.22.5.2 of ISO/IEC
  9899:2011), for any comparator that is a total preorder.
- **Threads** (`ThreadLists`, `Scheduler`, `ThreadEffects`, `Fairness`, `KernelThreads`, `ThreadRings`): the
  specification of `alter_state` and of every event as functions on values, what each event
  leaves said of the lists themselves, the invariant over whole runs, the
  bounded-waiting measure, and a class whose methods walk and change the lists as the program
  does and are proved equal to those functions. `ThreadRings` does everything that
  relinks the lists (`alter_state`, `round_robin`, the insertions of both forks and the
  emptying of the terminated list) on the links themselves.
- **Virtual memory** (`FramePool`, `PageDirectory`, `AddressSpace`, `DemandZero`, `NewPages`,
  `ForkSpace`, `UserBytes`, `ArgumentStack`, `Loader`, `FrameConservation`): two-level page directories (section 4.3 of the
  Intel SDM, volume 3A) refine flat maps from pages to entries. `Now` is the value of a
  directory and the memory under it; the contracts of the multi-step operations relate such
  values. `Loader` follows exec down to every byte the new program finds. `FrameConservation`
  puts all processes over one pool.
- **The kernel allocator** (`LmmNodes`, `LmmAlign`, `Lmm`, `LmmOps`, `KernelMalloc`): canonical
  free lists are determined by the bytes they hold, so every operation is specified by which
  bytes it takes or gives.
- **The user allocator** (`Blocks`, `BoundaryTag`): eight-byte words with headers and footers
  refine an abstract sequence of blocks.
- **wait and vanish** (`WaitProtocol`, `WaitSafety`, `WaitTree`, `WaitRuns`, `WaitDeadlock`,
  `WaitStranded`, `WaitEffects`): a transition
  system with one step for each lock acquisition and each change that another thread can see.
- **Condition variables and semaphores** (`CondVar`, `Semaphore`): transition systems down to
  the state word of the mutexes.
- **Numbers as text** (`NumberPrint`, `NumberParse`, `NumberRoundTrip`, `NumberMeaning`): the number path of
  `printf` and `strtol`/`strtoul` (sections 7.21.6.1 and 7.22.1.4 of ISO/IEC 9899:2011).
- **Circular lists** (`CircularList`): the links of the doubly linked lists that the other
  modules take as sequences.

What can fail for lack of kernel memory (a page table, a list node, a control block, the
file of an executable) is an input: the allocator's answers come as parameters, so that a
contract says both when a call fails and when it must succeed.

Where the code does not do what it is meant to do, the model follows the code and the
condition under which it works is proved exactly:

- `Divdi3` is exact unless it divides -2^63 by -1.
- `lmm_remove_free` leaves part of a block free if and only if the block starts inside a
  unit of eight bytes that was free (`Leftover`).
- The kernel's and the user's `malloc` ask for too little exactly when 32-bit rounding wraps
  around (`RequestIsEnough`, `AdjustedSizeExact`).
- `strtol` does not pass over a plus sign, so printing with the plus flag is not undone for
  numbers that are not negative (`SignedRoundTrip`).
- `switch_context` accepts states in which the old thread cannot be left, such as NEW_STATE:
  its first `alter_state` then fails unnoticed and two threads are running. It keeps one
  running thread if and only if the state is READY, TERMINATED or waiting for a proper reason
  (`SwitchedInv`).
- A thread whose list entry is refused in `cond_wait` sleeps without a token and is never
  woken; every other step keeps one token for each waiter (`StepKeeps`, `LostForever`).
- A semaphore keeps its books if and only if it does not start below zero (`StartInv`).
- `wait` loses no wake-up, but it can deadlock. A call that has begun is held up for good if
  and only if the locks are wanted in a circle: a thread of init that looks at its children
  waits for a scanning thread of the child it has come to, that one for one of its own
  child, and so on down to a reaper that has detached its child and wants init's lock
  (`StuckIffJammed`, `JammedForever`; reached in `DeadlockReachable`). Without a thread of
  init in its scan, or such a reaper elsewhere, there is no circle (`JamNeeds`), so runs in
  which init never calls `wait`, or nobody else does, are free of it (`OneSideIsSafe`).
- A thread asleep in `wait` may never be told that its process has no children left. This
  happens at one kind of step only: when the last reaper of a process without children wakes
  the first waiter, every other one is stranded (`StrandedAt`, `StrandedIff`,
  `StrandedForever`; reached in `StrandedReachable`). A process with at most one thread in
  `wait` at a time strands nobody (`AloneIsSafe`).
- The user's `mem_sbrk` takes an int and computes 32-bit addresses: extensions of 2^31 bytes
  or more, counted in whole pages, always fail, and where the break would wrap around it succeeds without asking for
  memory (`Sbrk`).

## Model

| member | source | states |
|---|---|---|
| `LongDivision.Qdivrem` | 410kern/misc/gccisms.c:89-283 | for every 64-bit dividend and divisor: the divide error exactly for divisor 0, otherwise uq == q * vq + r with 0 <= r < vq |
| `LongDivision.EstimateDigit` | 410kern/misc/gccisms.c:206-231 | the D3 loop ends with an estimate: the greatest digit that passes the two-digit test |
| `LongDivision.EstimateOffByOne` | 410kern/misc/gccisms.c:206-231 | any such estimate is the true digit or one more |
| `LongDivision.SubtractDigit` | 410kern/misc/gccisms.c:239-241 | one step of the wrap-around subtraction, with the borrow it hands on |
| `LongDivision.MultiplySubtract` | 410kern/misc/gccisms.c:238-250 | the window after D4 is the old one less estimate times divisor, up to one wrap-around recorded in the final borrow; nothing else changes |
| `LongDivision.BorrowIffTooLarge` | 410kern/misc/gccisms.c:245-251 | the final borrow is nonzero exactly when the estimate was one too large |
| `LongDivision.AddBack` | 410kern/misc/gccisms.c:252-259 | D6 adds the divisor to the window and drops the carry |
| `LongDivision.DivideWindow` | 410kern/misc/gccisms.c:203-261 | one D2-D7 round leaves the true digit and the true remainder in the window |
| `LongDivision.LeadingDigits` | 410kern/misc/gccisms.c:206-213 | the leading digits of window and divisor satisfy what D3 relies on |
| `LongDivision.DivideByDigit` | 410kern/misc/gccisms.c:145-170 | exercise 16: division by one digit, quotient and remainder exact |
| `LongDivision.NormalizingShift` | 410kern/misc/gccisms.c:190-192 | the shift that brings the top digit to at least B/2, and no further |
| `LongDivision.Shl` | 410kern/misc/gccisms.c:290-299 | multiplies the digit array by a power of two modulo the top it drops, touching no other digit |
| `LongDivision.Normalize` | 410kern/misc/gccisms.c:193-196 | scaling dividend and divisor loses nothing |
| `LongDivision.RowAdvances` | 410kern/misc/gccisms.c:203-261 | the invariant of long division from one quotient digit to the next |
| `LongDivision.DivideDigits` | 410kern/misc/gccisms.c:200-261 | the digit loop computes quotient and scaled remainder |
| `LongDivision.Denormalize` | 410kern/misc/gccisms.c:268-274 | the right shift of the remainder, digit by digit |
| `LongDivision.RenormalValue` | 410kern/misc/gccisms.c:268-277 | that shift divides the remainder's value by the scale |
| `LongDivision.DivideProper` | 410kern/misc/gccisms.c:184-282 | Algorithm D for divisors of two to four digits |
| `LongDivision.Remainder` | 410kern/misc/gccisms.c:268-278 | the remainder read back is the unscaled one |
| `LongDivision.Umoddi3` | 410kern/misc/gccisms.c:305-312 | the Euclidean remainder |
| `LongDivision.Udivdi3` | 410kern/misc/gccisms.c:317-322 | the Euclidean quotient |
| `LongDivision.Divdi3` | 410kern/misc/gccisms.c:328-346 | the quotient truncated toward zero, if and only if it is not -2^63 / -1 |
| `Qsort.Qsort` | 410kern/stdlib/qsort.c:90-170 | sorted and a permutation, in place, for every comparator that is a total preorder |
| `Qsort.QsortRange` | 410kern/stdlib/qsort.c:99-170 | the same for the loop on one stretch, nothing outside it changed |
| `Qsort.Med3IsMedian` | 410kern/stdlib/qsort.c:80-88 | med3 returns one of its arguments, between the other two |
| `Qsort.InsertionSort` | 410kern/stdlib/qsort.c:101-107 | the short and the switched-to insertion sort sorts its stretch |
| `Qsort.Sift` | 410kern/stdlib/qsort.c:103-105 | its inner loop extends a sorted prefix by one |
| `Qsort.ScanUp` | 410kern/stdlib/qsort.c:125-132 | the upward scan keeps the four zones |
| `Qsort.ScanDown` | 410kern/stdlib/qsort.c:133-140 | the downward scan keeps the four zones |
| `Qsort.Partition` | 410kern/stdlib/qsort.c:124-147 | the partition loop ends with the equal, less, greater and equal zones meeting |
| `Qsort.VecSwap` | 410kern/stdlib/qsort.c:78-78 | exchanges two stretches that do not overlap |
| `Qsort.GatherEquals` | 410kern/stdlib/qsort.c:156-160 | the two vecswaps leave less, equal, greater in that order |
| `Qsort.SortPass` | 410kern/stdlib/qsort.c:99-160 | one pass either sorts the stretch or splits it |
| `Qsort.SplitSettles` | 410kern/stdlib/qsort.c:161-168 | after the left part is sorted only the right part is unsettled |
| `Qsort.SortedLess` | 410kern/stdlib/qsort.c:161-163 | sorting one side keeps the split |
| `ThreadLists.AlterKeepsLists` | kern/ctrl_blk.c:422-616 | alter_state between different lists keeps the lists: every thread in the one its state names, sleepers in order, processes contiguous among the ready threads |
| `ThreadLists.ExactlyOneList` | kern/ctrl_blk.c:422-616 | a thread that has not terminated is in exactly the list its state or blocking reason names |
| `ThreadLists.HeadNotDue` | kern/timer.c:45-69 | if the first sleeper is not due, none is |
| `ThreadEffects.AlterMeans` | kern/ctrl_blk.c:422-616 | alter_state takes the thread from its place in one list and puts it at its place in another: behind all, before the sleepers that wake later, or behind the ready threads of its process; no other list or thread changes |
| `ThreadEffects.TurnMeans` | kern/scheduler.c:25-42 | round_robin moves the front group, all of one process and as long as can be, behind all others |
| `ThreadEffects.FirstReadyMeans` | kern/scheduler.c:55-67 | the thread found is the first ready one of the process, and none is found only if none is ready |
| `ThreadEffects.FirstOfMeans` | kern/ctrl_blk.c:645-674 | the waiter found is the first of its process in the list, and none is found only if there is none |
| `ThreadEffects.AloneMeans` | kern/ctrl_blk.c:627-643 | the count is one if and only if no other thread of the process is alive |
| `ThreadEffects.SpawnMeans` | kern/ctrl_blk.c:117-152 | a forked thread is ready, behind the ready threads of its process, and the last of its process's list |
| `ThreadEffects.TickMeans` | kern/timer.c:45-69 | what a tick leaves, without the functions that make up the step |
| `ThreadEffects.StepMeans` | kern/system_call.c:237-512 | the same for every event: who runs, the state of the thread that gave way, what the terminated list gets, and that nothing else changes; no event halts while a thread is ready |
| `ThreadEffects.VanishMeans` | kern/system_call.c:475-512 | the same for vanish |
| `ThreadEffects.VanishedMeans` | kern/system_call.c:475-512 | of the threads: the caller is in the terminated list; after the last one the parent's first waiter waits no more and the head of the ready list as it then stands runs, and otherwise a ready mate runs if there is one |
| `KernelThreads.Kernel.AlterState` | kern/ctrl_blk.c:422-616 | the walks and the change of lists give the specified state, or leave it alone where the one running thread stays; refusals change nothing |
| `KernelThreads.Kernel.FindSleepPosition` | kern/ctrl_blk.c:463-608 | the walk to a sleeper's place by wake-up time |
| `KernelThreads.Kernel.FindGroupEnd` | kern/ctrl_blk.c:537-559 | the walk to the end of a thread's process group |
| `KernelThreads.Kernel.RoundRobin` | kern/scheduler.c:25-42 | the head's group goes to the back as a whole |
| `KernelThreads.Kernel.FindNextThread` | kern/scheduler.c:55-67 | a ready thread of the running process if there is one, else round robin |
| `KernelThreads.Kernel.SwitchContext` | kern/context_switcher.c:31-84 | for every state argument: the two state changes in their order, including the argument whose first change fails unnoticed |
| `KernelThreads.Kernel.HandleTimer` | kern/timer.c:45-69 | a tick switches to the first sleeper if it is due, otherwise to the head of the ready list if there is one; the thread that gives way is ready |
| `KernelThreads.Kernel.HandleYield` | kern/system_call.c:293-318 | yield to the head of the ready list or to a given ready thread, the caller staying ready, and its refusals |
| `KernelThreads.Kernel.HandleSleep` | kern/system_call.c:894-923 | the caller sleeps until its tick and the next thread runs; halting when no thread is ready |
| `KernelThreads.Kernel.HandleDeschedule` | kern/system_call.c:237-271 | the caller is descheduled and the next thread runs, unless rejected |
| `KernelThreads.Kernel.HandleMakeRunnable` | kern/system_call.c:273-291 | a descheduled thread with that id becomes ready; otherwise nothing changes |
| `KernelThreads.Kernel.AliveCount` | kern/ctrl_blk.c:627-643 | the number of threads of a process that have not terminated |
| `KernelThreads.Kernel.FindWaiter` | kern/ctrl_blk.c:645-674 | the first waiter of a process in list order |
| `KernelThreads.Kernel.HandleVanish` | kern/system_call.c:475-512 | the caller has terminated and is the last of that list; the last thread alive in its process wakes the parent's first waiter and then gives way to the head of the ready list, another one to the next thread; it halts only when nobody is ready |
| `ThreadRings.Rings.AlterState` | kern/ctrl_blk.c:422-616 | on the rings: the very node of the thread is unlinked and linked before its destination, the front moves only where it is pushed or taken, all rings stay well linked and share no node, and they show the specified lists |
| `ThreadRings.Rings.MoveNode` | kern/ctrl_blk.c:583-608 | the relinking: one node gone from one ring and in its place in another, no other list changed |
| `ThreadRings.AlteredIsMoved` | kern/ctrl_blk.c:583-608 | moving a node between those two places is what the state machine calls alter_state |
| `ThreadRings.Rings.FindSleeper` | kern/ctrl_blk.c:473-503 | the walk over the sleepers' links ends before the first that wakes no earlier |
| `ThreadRings.Rings.FindGroup` | kern/ctrl_blk.c:537-560 | the backward walk over the ready ring ends behind the last thread of the process |
| `ThreadRings.Rings.RoundRobin` | kern/scheduler.c:25-42 | only the head of the ready ring moves, to the first thread of another process, and the ring then shows the rotated list |
| `ThreadRings.Rings.ThreadFork` | kern/ctrl_blk.c:117-152 | the new thread's node goes behind the ready threads of its process, or nothing changes if it is refused |
| `ThreadRings.Rings.Fork` | kern/ctrl_blk.c:387-400 | the node of a new process's thread goes behind all ready threads |
| `ThreadRings.Rings.Bury` | kern/system_call.c:430-441 | the nodes of the terminated list go one by one, and the rings show what the state machine says |
| `ThreadRings.Rings.Init` | kern/ctrl_blk.c:70-75 | the rings at boot |
| `Scheduler.SwitchSteps` | kern/context_switcher.c:31-84 | a switch is the two alter_state steps and keeps the whole invariant |
| `Scheduler.SwitchedInv` | kern/context_switcher.c:31-84 | one running thread and the invariant after a switch, if and only if the old thread can be left in the state given; with NEW_STATE two threads run |
| `Scheduler.Step` | kern/system_call.c:237-317 | every event of timer and system calls keeps the invariant |
| `Scheduler.SpawnKeeps` | kern/ctrl_blk.c:124-152 | a forked thread enters the lists in good order |
| `Scheduler.BuryKeeps` | kern/system_call.c:424-441 | reaping a dead process keeps the live threads' lists |
| `Scheduler.BootInv` | kern/ctrl_blk.c:42-87 | the initial control blocks satisfy the invariant |
| `Scheduler.RunInvariant` | kern/ctrl_blk.c:422-616 | the invariant in every state of every run |
| `Fairness.RoundRobinBetter` | kern/scheduler.c:25-42 | after a round robin a waiting thread has run or strictly fewer threads of its group, or as few and strictly fewer groups, before it |
| `Fairness.StepProgress` | kern/ctrl_blk.c:537-559 | no event makes that pair worse |
| `Fairness.TickBetter` | kern/timer.c:45-69 | every round-robin tick makes it strictly better |
| `Fairness.StepRank` | kern/timer.c:45-69 | in numbers: the rank never grows and falls with each round-robin tick |
| `Fairness.BoundedWaiting` | kern/scheduler.c:25-42 | in every run the round-robin ticks that pass a ready thread over are at most its rank |
| `Fairness.LeavesByRunning` | kern/context_switcher.c:31-84 | at each listed event a thread leaves the ready list only by running |
| `Fairness.RunsWithinRank` | kern/scheduler.c:25-42 | in every run with more round-robin ticks than the rank of a ready thread there is a state in which it runs |
| `Fairness.RankBound` | kern/scheduler.c:25-42 | the rank is less than the ready threads times the processes |
| `Fairness.RunsSoon` | kern/scheduler.c:25-42 | so a ready thread has run after that many round-robin ticks |
| `Fairness.RoundRobinTicks` | kern/timer.c:58-67 | which ticks count: those at which no sleeper is due |
| `Fairness.TicksCount` | kern/timer.c:58-67 | and how many of them a run has |
| `FramePool.PoolUnique` | kern/vm.c:149-179 | an ascending pool is determined by its members |
| `FramePool.Memory.constructor` | kern/vm.c:101-130 | the initial pool: every multiple of the page size strictly between the zero frame and the end of the user frames, and the zero frame all zeros |
| `FramePool.UserFrames` | kern/vm.c:101-130 | the frames counted are those addresses |
| `FramePool.ClearedBytes` | kern/vm.c:101-130 | each of the 4096 bytes of a cleared page is 0 |
| `FramePool.Memory.AllocFrame` | kern/vm.c:132-147 | the least pooled frame, or failure on an empty pool |
| `FramePool.Memory.FreeFrame` | kern/vm.c:149-179 | adds a managed frame once if its list node is granted, and is refused exactly when a node is needed and not granted; kernel frames, the zero frame and pooled ones change nothing; order kept |
| `PageDirectory.PageDir.Construct` | kern/vm.c:193-247 | given the kernel heap's answers: the fresh space if and only if the directory and all its tables are granted |
| `PageDirectory.FreshMeans` | kern/vm.c:193-247 | in addresses: the first 16 megabytes are mapped to themselves, writable, and nothing above |
| `PageDirectory.PageDir.Destruct` | kern/vm.c:249-269 | with list nodes granted, exactly the frames the space owns go back to the pool |
| `PageDirectory.PageDir.EnsureTable` | kern/vm.c:290-312 | creating a page table, or failing to, is invisible in the flat space |
| `PageDirectory.PageDir.MapNewFrame` | kern/vm.c:271-324 | success if and only if the page is an unmapped user page, a frame is left, and a page table is there or granted; then exactly one page changes, to the least pooled frame, and on failure nothing does |
| `PageDirectory.PageDir.MapZeroFrame` | kern/vm.c:326-375 | the same for the zero frame, read-only, which needs no pooled frame |
| `PageDirectory.PageDir.CheckUserPage` | kern/vm.c:377-419 | what is mapped at a page, in the flat space |
| `PageDirectory.PageDir.UnmapFrame` | kern/vm.c:421-447 | one page becomes available and its frame, if it owns one and a list node is granted, is pooled |
| `PageDirectory.PageDir.SetAccess` | kern/vm.c:449-472 | one page's access changes, or nothing |
| `PageDirectory.PageDir.GetAccess` | kern/vm.c:474-494 | the access in the flat space |
| `PageDirectory.PageDir.SetAvailability` | kern/vm.c:496-544 | success if and only if the page is an unmapped user page, the value is one of the two, and a table is there, granted or not needed; one page changes, or nothing |
| `PageDirectory.PageDir.GetAvailability` | kern/vm.c:546-566 | the availability in the flat space |
| `AddressSpace.MapKeeps` | kern/vm.c:271-324 | mapping moves one frame from the pool to the space and duplicates none |
| `AddressSpace.SharedKeeps` | kern/vm.c:326-375 | replacing entries that own nothing moves no frame |
| `AddressSpace.AccessKeeps` | kern/vm.c:449-472 | changing access moves no frame |
| `AddressSpace.UnmapKeeps` | kern/vm.c:421-447 | unmapping moves one frame back |
| `AddressSpace.ViewsUnaffected` | kern/vm.c:271-324 | a space that owns none of the written frames sees the same memory |
| `AddressSpace.Abandon` | kern/vm.c:249-269 | destroying a half-built space restores the very same pool |
| `DemandZero.HandlePageFault` | kern/fault_handler.c:45-103 | a fault is repaired if and only if it can be: an offered page with memory for it, or a zero page and a frame; unseen by the program, the page mapped as the access needs, at most one frame taken; nothing changes that the program could see otherwise |
| `DemandZero.ReplaceZeroPage` | kern/fault_handler.c:81-98 | a write to a zero page gets a cleared frame if and only if one is left, and the program sees the same |
| `DemandZero.UserLoad` | kern/fault_handler.c:45-103 | a load with its fault succeeds if and only if it is allowed and the memory it needs is there, and returns the byte the page stands for |
| `DemandZero.UserStore` | kern/fault_handler.c:45-103 | a store with its fault succeeds under the same conditions, changes one byte of one page as the program sees it, and is a step of the whole system |
| `DemandZero.OneAccess` | kern/fault_handler.c:45-103 | either access does what flat memory would and is a step of the whole system |
| `DemandZero.WhyNot` | kern/fault_handler.c:45-103 | an allowed access fails only for want of a frame or of a page table |
| `DemandZero.RunAccesses` | kern/fault_handler.c:45-103 | any interleaving of byte loads and stores returns and leaves what flat memory would; all of it is done when every access is allowed, missing page tables are granted and the stores are no more than the frames, and else the access it stops at has one of these reasons |
| `DemandZero.StoresCount` | kern/fault_handler.c:81-98 | the number of stores that it counts |
| `NewPages.ClaimPage` | kern/system_call.c:705-722 | one page is claimed, or nothing changes and it was not free, no frame was left, or a page table was refused |
| `NewPages.UndoPage` | kern/system_call.c:723-731 | one page of the rollback |
| `NewPages.UndoClaimed` | kern/system_call.c:723-731 | what is left of the claim after it |
| `NewPages.AllUndone` | kern/system_call.c:723-731 | after the rollback the space and the pool are the original ones |
| `NewPages.ClaimRange` | kern/system_call.c:704-735 | the whole range is claimed if and only if its pages are free, frames suffice and no missing page table is refused, else everything is restored; also for ranges that wrap past the top |
| `NewPages.HandleNewPages` | kern/system_call.c:679-784 | success if and only if the range is good and free, frames suffice, and the list node and the missing page tables are granted; every refusal or failure leaves all as before; the allocation list stays sorted |
| `NewPages.InsertAllocation` | kern/system_call.c:741-766 | the sorted insertion, by contents |
| `NewPages.GrantedMeans` | kern/system_call.c:679-784 | exactly the range becomes writable zeros in frames of its own; nothing else is seen to change |
| `ForkSpace.ForkIsACopy` | kern/ctrl_blk.c:210-315 | the child sees and may write exactly what the parent does, the parent is unaffected, and no frame is shared |
| `ForkSpace.CopyNoTable` | kern/ctrl_blk.c:220-238 | a whole page table is skipped or spread at once, if and only if no table it needs is refused |
| `ForkSpace.CopyPrivatePage` | kern/ctrl_blk.c:276-302 | a private page is copied with contents and access, unless a table is refused or the private pages so far outnumber the pool |
| `ForkSpace.CopyPages` | kern/ctrl_blk.c:215-313 | the loop copies every user page if and only if there is a frame for every private one and no page table the child needs is refused |
| `ForkSpace.Fork` | kern/ctrl_blk.c:168-358 | a complete copy if and only if what is asked of the kernel heap is granted and the pool has a frame for every private page; else the caller's space and the pool as before |
| `Loader.ChangeAvailability` | kern/loader.c:593-611 | every page of the range becomes available, no other page changes; it fails only on a mapped or kernel page or when a missing page table of the range is refused |
| `Loader.MapAndClear` | kern/loader.c:660-695 | every unmapped page of the range is mapped, mapped ones stay; it fails only on a page neither mapped nor offered or for want of a frame |
| `Loader.ChangeAccess` | kern/loader.c:572-590 | every page of the range gets the access, no other page changes |
| `Loader.PushVal` | kern/loader.c:625-644 | the value lies at the greatest multiple of four that leaves room for it, no other byte changes, and the stack pages from there on are mapped; it fails only for want of memory or past the end of the stack |
| `Loader.PushAll` | kern/loader.c:248-317 | every string, the vector of their addresses and the five words are in their places, in stretches of their own, ending at the stack pointer, if and only if they fit the stack and memory lasts |
| `ArgumentStack.ArrangedEnds` | kern/loader.c:248-317 | however the strings are placed, each at the greatest multiple of four under the one before, with the vector and five words below, the stack pointer is the same: the strings' end less four bytes an argument and twenty |
| `ArgumentStack.OwnStretches` | kern/loader.c:248-317 | no two strings, nor a string and what is below them, share a byte |
| `ArgumentStack.ArrangementExists` | kern/loader.c:248-317 | there is such an arrangement for all arguments |
| `ArgumentStack.StillStarted` | kern/loader.c:426-481 | what is written below the stack changes nothing of it |
| `UserBytes.WordMeans` | kern/loader.c:635-637 | a pushed word is there with its least byte first |
| `UserBytes.VectorHas` | kern/loader.c:271-276 | the vector is its words, one behind the other |
| `UserBytes.StoredByte` | kern/loader.c:635-637 | a store changes one byte of what the program finds |
| `UserBytes.ProgramReads` | kern/loader.c:660-695 | these bytes are what a program reads wherever it may look |
| `Loader.WriteBytes` | kern/loader.c:97-104 | the bytes are in their place, no other byte changes |
| `Loader.LoadOne` | kern/loader.c:426-481 | a section's pages are mapped and begin with the bytes the file has for it, if and only if the file has the offset and memory lasts |
| `Loader.SectionsWritten` | kern/loader.c:426-481 | below the stack a program finds data, else constants, else text, where the file supplies it, and zeros elsewhere |
| `Loader.OfferSection` | kern/loader.c:393-418 | with the stack mapped, a section is taken only where it fits |
| `Loader.SectionFitsBytes` | kern/loader.c:593-611 | in bytes: a section fits if and only if it is empty or lies in user memory below the stack |
| `Loader.ProtectedInOrder` | kern/loader.c:484-508 | the three access changes leave data writable and the rest of text and constants read-only |
| `Loader.BssLoaded` | kern/loader.c:510-520 | the final layout of a loaded program |
| `Loader.LoadedOwns` | kern/loader.c:448-520 | the loaded program owns a frame for exactly the pages of its pushed arguments, text, constants and data |
| `Loader.LoadedTables` | kern/loader.c:593-611 | no page table was refused to a loaded program |
| `Loader.DrawnReplaces` | kern/loader.c:545-545 | destroying the old space after success loses and duplicates no frame |
| `Loader.LoadExecutable` | kern/loader.c:127-558 | a program laid out with the right access in a new space if and only if its arguments and sections fit, the file holds them, the pool has a frame for every page that needs one, and the directory and the page tables of the stack and the sections are granted; it finds its arguments at the stack pointer, the bytes of its sections, and zeros elsewhere; on any failure, as for a section that overlaps the stack, the caller's space and the pool as before |
| `FrameConservation.FaultIsStep` | kern/fault_handler.c:45-103 | a page fault is a step of the whole system; loads and stores promise the same themselves |
| `FrameConservation.NewPagesIsStep` | kern/system_call.c:679-784 | new_pages is one |
| `FrameConservation.FailureIsStep` | kern/system_call.c:723-735 | so is a call that failed |
| `FrameConservation.ExecIsStep` | kern/loader.c:545-545 | and an exec |
| `FrameConservation.ForkConserves` | kern/ctrl_blk.c:210-315 | fork conserves frames over all processes |
| `FrameConservation.ExitConserves` | kern/vm.c:249-269 | destroying a space conserves them |
| `FrameConservation.StepConserves` | kern/vm.c:132-179 | every step of any process does |
| `FrameConservation.StepIsolates` | kern/vm.c:132-179 | no step of one process changes what another sees |
| `FrameConservation.RunConserves` | kern/vm.c:132-179 | conservation in every state of every run from a conserved one |
| `FrameConservation.BootConserved` | kern/vm.c:101-130 | the system at boot is conserved |
| `FrameConservation.Boot` | kern/vm.c:193-247 | the allocator's initialization and the first address space bring that state about |
| `FrameConservation.BootRunConserves` | kern/vm.c:132-179 | conservation of all user frames but the zero frame in every state of every run from boot |
| `FrameConservation.ExactlyOnePlace` | kern/vm.c:132-179 | each managed frame is in the pool once or mapped by exactly one entry of one directory |
| `LmmNodes.CanonicalUnique` | 410kern/lmm/lmm_free.c:27-108 | a canonical free list is determined by the bytes it holds |
| `LmmNodes.TakenCanonical` | 410kern/lmm/lmm_alloc_gen.c:98-139 | cutting bytes out of a node leaves a canonical list without exactly those bytes |
| `LmmNodes.PutCanonical` | 410kern/lmm/lmm_free.c:56-107 | putting a block back, joined with what it meets, leaves a canonical list with exactly those bytes more |
| `LmmAlign.AlignFrom` | 410kern/lmm/lmm_alloc_gen.c:75-85 | the bit loop computes the least address from the start that agrees with the offset |
| `LmmAlign.AddBit` | 410kern/lmm/lmm_alloc_gen.c:80-85 | adding a differing bit makes one more low bit agree |
| `Lmm.RegionsUnique` | 410kern/lmm/lmm_free.c:27-108 | all free lists are determined by what is free |
| `Lmm.TakeGive` | 410kern/lmm/lmm_free.c:27-108 | giving back exactly what was taken restores the lists |
| `LmmOps.BreakIsSafe` | 410kern/lmm/lmm_alloc_gen.c:92-96 | the early break loses no block |
| `LmmOps.Allocator.ScanRegion` | 410kern/lmm/lmm_alloc_gen.c:57-96 | the first node of a region that holds a suitable block and its lowest address, or none does |
| `LmmOps.Allocator.Carve` | 410kern/lmm/lmm_alloc_gen.c:98-139 | the in-place split takes exactly the given bytes |
| `LmmOps.Allocator.AllocGen` | 410kern/lmm/lmm_alloc_gen.c:27-155 | the lowest suitable block of the first region that has one; 0 only if no block exists |
| `LmmOps.NoFitBytes` | 410kern/lmm/lmm_alloc_gen.c:27-155 | no block exists if and only if no suitable region has that many free bytes on end at an aligned address in the range |
| `LmmOps.Allocator.Alloc` | 410kern/lmm/lmm_alloc.c:27-86 | the same without constraints, on the rounded size |
| `LmmOps.Allocator.Free` | 410kern/lmm/lmm_free.c:27-108 | the rounded extent, and nothing else, becomes free |
| `LmmOps.Allocator.Give` | 410kern/lmm/lmm_free.c:52-107 | the four cases of coalescing |
| `LmmOps.Allocator.FindFree` | 410kern/lmm/lmm_find_free.c:27-74 | the lowest free node part from the start on, over all regions |
| `LmmOps.LowestBytes` | 410kern/lmm/lmm_find_free.c:27-74 | in bytes: nothing is free before it |
| `LmmOps.Allocator.RemoveFree` | 410kern/lmm/lmm_remove_free.c:27-49 | which bytes are removed; the asserted address is the one returned |
| `LmmOps.Leftover` | 410kern/lmm/lmm_remove_free.c:27-49 | nothing of the block stays free if and only if it starts on a unit boundary or its first unit was not free |
| `LmmOps.LeftoverInput` | 410kern/lmm/lmm_remove_free.c:27-49 | an input that leaves the whole block free |
| `LmmOps.Allocator.AddFree` | 410kern/lmm/lmm_add_free.c:27-71 | the whole units of the block that lie in regions become free |
| `KernelMalloc.RequestIsEnough` | 410kern/malloc/malloc.c:24-39 | the 32-bit size asked for is enough if and only if adding prefix and rounding do not wrap |
| `KernelMalloc.KernelHeap.Malloc` | 410kern/malloc/malloc.c:24-39 | a payload inside a fresh extent, recorded by its size word; it fails only if every free node is shorter than the size and four bytes |
| `KernelMalloc.KernelHeap.Memalign` | 410kern/malloc/memalign.c:25-50 | the same, at a multiple of the least sufficient power of two; it fails only if no free node has room for the size and four bytes behind which the address is aligned |
| `KernelMalloc.KernelHeap.AlignedNoFit` | 410kern/malloc/memalign.c:38-49 | no fit for the request means that no free node has such room |
| `KernelMalloc.AlignedPrefix` | 410kern/malloc/memalign.c:38-49 | the addresses that suit the request are those four bytes before a multiple of the alignment |
| `KernelMalloc.PrefixAlign` | 410kern/malloc/memalign.c:38-49 | the offset makes the address behind the prefix aligned |
| `KernelMalloc.KernelHeap.Free` | 410kern/malloc/free.c:24-30 | the extent recomputed from the size word is exactly the one taken |
| `KernelMalloc.KernelHeap.MallocThenFree` | 410kern/malloc/free.c:24-30 | allocating and freeing restores the free lists exactly |
| `KernelMalloc.KernelHeap.MemalignThenFree` | 410kern/malloc/memalign.c:25-50 | so does allocating aligned memory and freeing it |
| `KernelMalloc.AllFreed` | 410kern/malloc/free.c:24-30 | once every chunk is freed, in any order, the free lists are the initial ones |
| `Blocks.SpliceTiled` | 410user/libmalloc/malloc.c:378-416 | re-marking a stretch keeps the tiling and every payload outside it |
| `Blocks.LiveApart` | 410user/libmalloc/malloc.c:202-245 | payloads in use do not overlap |
| `Blocks.WordDecodes` | 410user/libmalloc/malloc.c:488-530 | a header word tells size and state |
| `BoundaryTag.AdjustedSizeExact` | 410user/libmalloc/malloc.c:479-482 | the adjusted size is large enough if and only if the request is at most 2^32 - 32 |
| `BoundaryTag.AdjustedSizeTight` | 410user/libmalloc/malloc.c:479-482 | the adjusted size is the least multiple of sixteen with room for the tags |
| `BoundaryTag.MergedCoalesced` | 410user/libmalloc/malloc.c:378-416 | merging leaves no two free neighbours |
| `BoundaryTag.Heap.constructor` | 410user/libmalloc/malloc.c:166-189 | the heap of prologue and epilogue |
| `BoundaryTag.Heap.Neighbours` | 410user/libmalloc/malloc.c:566-595 | the tags before and after a block tell its neighbours |
| `BoundaryTag.Heap.Coalesce` | 410user/libmalloc/malloc.c:378-416 | the footer-based merge is the merge of the abstract blocks; payloads unchanged |
| `BoundaryTag.Heap.FindFit` | 410user/libmalloc/malloc.c:451-465 | the first free block that is large enough, or none is |
| `BoundaryTag.Heap.Place` | 410user/libmalloc/malloc.c:425-445 | one block more in use, as large as asked for and less than 32 bytes more; the rest, if there are at least 32 bytes of it, is one free block, and all other blocks stay |
| `BoundaryTag.Heap.Sbrk` | 410user/libmalloc/memlib.c:46-71 | mem_sbrk refuses what an int cannot say or new_pages does not grant, grants the pages up to the new break, and does not notice a break that wraps around |
| `BoundaryTag.Heap.ExtendHeap` | 410user/libmalloc/malloc.c:350-371 | the new free block, merged with a free last block, of the size asked for rounded up to pages, if and only if mem_sbrk grants it; nothing changes when it refuses or the break wraps around |
| `BoundaryTag.Heap.Malloc` | 410user/libmalloc/malloc.c:202-245 | a pointer if and only if a free block fits or mem_sbrk grants more; then exactly one new payload, in the first block that fits, aligned, large enough and less than 48 bytes larger than asked for, disjoint; and exactly when the break wraps around instead |
| `BoundaryTag.Heap.Free` | 410user/libmalloc/malloc.c:251-266 | exactly that payload is gone and free blocks stay coalesced |
| `BoundaryTag.Heap.Realloc` | 410user/libmalloc/malloc.c:276-315 | the new payload replaces the old one, starts with the same bytes and is less than 48 bytes larger than asked for, if and only if it can be had |
| `BoundaryTag.Heap.CopyPayload` | 410user/libmalloc/malloc.c:303-309 | as many bytes as both hold and are asked for are copied, every other byte of the new payload stays |
| `BoundaryTag.CopiedBytes` | 410user/libmalloc/malloc.c:303-309 | byte by byte, also within the last word |
| `BoundaryTag.SameLow` | 410user/libmalloc/malloc.c:303-309 | two words have the same low bytes as numbers if and only if each of these bytes is the same |
| `WaitTree.EmptyOnlyForInit` | kern/system_call.c:402-406 | the branch that gives orphans to the caller is reached only when the caller is init |
| `WaitTree.SpliceKeeps` | kern/system_call.c:392-414 | splicing orphans keeps the invariant |
| `WaitTree.WalkKeeps` | kern/system_call.c:415-422 | each changed parent pointer keeps it |
| `WaitTree.ReleaseKeeps` | kern/system_call.c:423-458 | freeing the child keeps it; nothing points to it any more |
| `WaitTree.DetachKeeps` | kern/system_call.c:372-388 | detaching the child keeps it |
| `WaitSafety.LockChildKeeps` | kern/ctrl_blk.c:676-700 | looking at the next child under its lock keeps it |
| `WaitSafety.SleepKeeps` | kern/system_call.c:351-369 | going to sleep, the children's locks just released, loses no wake-up |
| `WaitSafety.VanishKeeps` | kern/system_call.c:475-512 | an exit wakes a waiter of the parent, or a mover still will |
| `WaitSafety.FinalWakeKeeps` | kern/system_call.c:460-472 | the reaper's last wake-ups suffice |
| `WaitRuns.StepKeeps` | kern/system_call.c:320-512 | every step of the protocol keeps locks exclusive, the tree in shape and wake-ups unlost |
| `WaitRuns.NoLostWakeup` | kern/system_call.c:332-472 | in every reachable state an exited child and a sleeper imply somebody who will look or wake |
| `WaitRuns.TreeKept` | kern/system_call.c:372-458 | in every reachable state each process is in its parent's list only and once, except while being moved or freed |
| `WaitRuns.OrphansGoToInit` | kern/system_call.c:392-414 | orphans are appended to init's list in every reachable state |
| `WaitEffects.StepAdvances` | kern/system_call.c:320-512 | every step of a begun call brings it nearer to its end, so it ends or sleeps after finitely many |
| `WaitEffects.FailsAtOnce` | kern/system_call.c:332-342 | wait fails exactly in a process without children |
| `WaitEffects.FindsFirst` | kern/ctrl_blk.c:676-700 | the scan takes the first child that is not alive |
| `WaitEffects.SleepsLast` | kern/system_call.c:351-369 | a thread sleeps behind all others, and only when every child is alive |
| `WaitEffects.TakesOut` | kern/system_call.c:372-388 | the child found is taken out of its place and is in no list |
| `WaitEffects.Adopts` | kern/system_call.c:415-422 | each orphan gets init for a parent, in turn |
| `WaitEffects.Frees` | kern/system_call.c:423-458 | the child is gone, nothing else changes, and nothing points to it |
| `WaitEffects.WakeFirst` | kern/ctrl_blk.c:645-674 | waking takes the first sleeper of the process off the list, or changes nothing |
| `WaitEffects.Exits` | kern/system_call.c:475-512 | the thread has terminated, and the parent's first sleeper looks again if and only if it was the last of its process |
| `WaitEffects.Finishes` | kern/system_call.c:460-472 | the reaper returns, and the first sleepers of its process and of init look again |
| `WaitDeadlock.MovableIff` | kern/system_call.c:332-512 | a thread in wait or vanish that is not asleep can take its next step if and only if no other thread has the lock for it |
| `WaitDeadlock.HolderBelow` | kern/ctrl_blk.c:676-700 | a scanning thread waits for a thread of the younger process it has come to |
| `WaitDeadlock.HolderOfInit` | kern/system_call.c:394-397 | a reaper waits for a thread that can go on or for a scanning thread of init |
| `WaitDeadlock.ProgressUnlessJammed` | kern/system_call.c:332-512 | without the circle every begun call can go on, or waits in a chain whose last thread can |
| `WaitDeadlock.JamCloses` | kern/ctrl_blk.c:676-700 | on the circle each thread waits for the next and for nobody else |
| `WaitDeadlock.StuckIffJammed` | kern/system_call.c:332-512 | some begun call is held up for good if and only if there is the circle |
| `WaitDeadlock.JamNeeds` | kern/system_call.c:394-397 | the circle takes a scanning thread of init and a reaper elsewhere that wants init's lock |
| `WaitDeadlock.HolderKept` | kern/system_call.c:332-512 | while a thread has its process's lock nobody changes what it does or its list of children |
| `WaitDeadlock.JammedForever` | kern/ctrl_blk.c:676-700 | in every run the threads on the circle never move again |
| `WaitDeadlock.OneSideIsSafe` | kern/system_call.c:332-369 | a run in which init never waits, or only init does, has no circle |
| `WaitDeadlock.DeadlockReachable` | kern/system_call.c:394-397 | a run from boot to the circle |
| `WaitStranded.StrandedAt` | kern/system_call.c:460-472 | a thread comes to be stranded at exactly the last wake-up of the last reaper of a process without children that wakes another |
| `WaitStranded.StrandedIff` | kern/system_call.c:334-342 | in every run a thread is stranded if and only if such a step was made |
| `WaitStranded.AloneIsSafe` | kern/system_call.c:334-342 | a process with at most one thread in wait at a time strands nobody |
| `WaitStranded.StrandedReachable` | kern/system_call.c:334-342 | a run from boot strands a thread |
| `WaitStranded.StrandedForever` | kern/system_call.c:334-342 | a stranded thread stays so, whatever happens |
| `CondVar.OneToken` | user/libthread/cond.c:65-161 | while every entry is granted, in every reachable state a waiter has exactly one token, in the list or with one signaller |
| `CondVar.TakenIsWoken` | user/libthread/cond.c:99-127 | a waiter taken off the list stays one until that signaller wakes it, even if it is not asleep yet |
| `CondVar.WakesOne` | user/libthread/cond.c:99-161 | an attempt on a thread asleep wakes it and nobody else, for every length of the signaller's list; on one not asleep yet it changes nothing |
| `CondVar.AllAreWoken` | user/libthread/cond.c:136-161 | with all of its list asleep, as many attempts as there are entries wake every one |
| `CondVar.WakesInOrder` | user/libthread/cond.c:136-161 | in every run, whatever others do in between, after that many attempts exactly the first so many have been woken |
| `CondVar.ListedIsNext` | user/libthread/cond.c:65-127 | nobody in the list is overtaken or lost |
| `CondVar.TakesFirst` | user/libthread/cond.c:99-161 | a signal takes the first waiter, a broadcast all |
| `CondVar.StepKeeps` | user/libthread/cond.c:65-161 | each step keeps one token for each waiter, if and only if it is not a wait whose list entry is refused |
| `CondVar.RunInv` | user/libthread/linked_list.c:14-18 | the invariant lasts exactly until the first refused entry |
| `CondVar.LostForever` | user/libthread/linked_list.c:14-18 | a waiter whose entry was refused is never woken |
| `CondVar.LostReachable` | user/libthread/linked_list.c:14-18 | a run to such a waiter |
| `Semaphore.StartInv` | user/libthread/sem.c:27-33 | the invariant holds at first if and only if the count is not negative |
| `Semaphore.StepKeeps` | user/libthread/sem.c:43-76 | every step keeps the invariant if and only if it refuses no list entry |
| `Semaphore.RunInv` | user/libthread/linked_list.c:14-18 | from a count that is not negative the invariant lasts exactly until the first refused entry |
| `Semaphore.ListMatchesCount` | user/libthread/sem.c:43-76 | while every entry is granted, whenever the lock is free the list is as long as the count is below zero |
| `Semaphore.SignalFinds` | user/libthread/sem.c:64-76 | while every entry is granted, a signal on a negative count always finds a waiter |
| `Semaphore.Advances` | user/libthread/sem.c:43-76 | every step brings the call nearer to its end, except an attempt to wake a waiter that is not asleep yet |
| `Semaphore.Exclusion` | user/libthread/mutex.c:62-92 | at most one thread is between lock and unlock |
| `Semaphore.WaitsAreCovered` | user/libthread/sem.c:43-76 | while every entry is granted, completed waits never exceed the initial count plus the signals |
| `NumberPrint.BuildDigits` | 410kern/stdio/doprnt.c:590-593 | the digits, most significant first |
| `NumberPrint.BufferIsEnough` | 410kern/stdio/doprnt.c:576-577 | the buffer holds any 32-bit number |
| `NumberPrint.PrintNum` | 410kern/stdio/doprnt.c:574-624 | sign, prefix, digits and padding in their places |
| `NumberMeaning.DigitChars` | 410kern/stdio/doprnt.c:578-578 | the characters of the digits, with small letters |
| `NumberMeaning.DigitAt` | 410kern/stdio/doprnt.c:590-593 | the k-th digit from the right is the number divided k times by the base, modulo the base |
| `NumberMeaning.FirstDigit` | 410kern/stdio/doprnt.c:590-593 | there is no leading zero |
| `NumberMeaning.TextOf` | 410kern/stdio/doprnt.c:594-624 | the text is exactly as long as asked for if the number is not longer, and padded in one place, with zeros or blanks |
| `NumberMeaning.PrefixChars` | 410kern/stdio/doprnt.c:579-588 | the prefix of the alternate form |
| `NumberPrint.PrintSigned` | 410kern/stdio/doprnt.c:552-565 | the sign and the magnitude printed |
| `NumberPrint.PrintUnsigned` | 410kern/stdio/doprnt.c:567-573 | the number printed without a sign |
| `NumberParse.Strtol` | 410kern/stdlib/strtol.c:26-67 | the number read, where it ends, and when it overflows |
| `NumberParse.Strtoul` | 410kern/stdlib/strtoul.c:26-61 | the number read modulo 2^32, and where it ends |
| `NumberMeaning.DigitValues` | 410kern/stdlib/strtol.c:47-60 | which characters are digits of a base, and their values |
| `NumberMeaning.SkipMeans` | 410kern/stdlib/strtol.c:31-32 | exactly the leading white space is passed over |
| `NumberMeaning.ScanMeans` | 410kern/stdlib/strtol.c:47-60 | the number is the sum of the digits by their places, up to the first character that is none |
| `NumberRoundTrip.SignedRoundTrip` | 410kern/stdlib/strtol.c:26-67 | %d output reads back as the number, stopping behind its last digit, if and only if no plus sign was printed |
| `NumberRoundTrip.UnsignedRoundTrip` | 410kern/stdlib/strtoul.c:26-61 | %u, %x and %o read back in their base, %#x and %#o also in base 0 |
| `CircularList.List.PushBack` | kern/inc/list.h:41-59 | one element more at the end of a well-linked ring if and only if a node is granted |
| `CircularList.List.PushFront` | kern/inc/list.h:21-40 | one element more at the front, likewise |
| `CircularList.List.PopFront` | kern/inc/list.h:60-74 | the first element gone |
| `CircularList.List.PopBack` | kern/inc/list.h:75-87 | the last element gone |
| `CircularList.List.RemoveNode` | user/libthread/linked_list.c:33-55 | the node gone if it is in the list, else nothing |
| `CircularList.List.Splice` | kern/system_call.c:402-413 | one ring behind another |
| `CircularList.Unlinked` | user/libthread/linked_list.c:39-52 | a ring without one node, its neighbours tied, is a ring |
| `CircularList.Rotate` | kern/inc/list.h:21-40 | a ring read from another node is a ring |
| `CircularList.List.InsertBefore` | kern/ctrl_blk.c:596-608 | a given node goes before any node of a ring, and becomes the front if pushed there |
| `CircularList.RotateBy` | kern/scheduler.c:34-35 | a ring read from any of its nodes is a ring |

## Left out

- Registers, interrupts and devices: saving and loading register files, segment and IDT setup, the timer chip, consoles and keyboards; disabling and enabling interrupts are the borders of one step.
- Guests: the guest branch of `load_executable` and virtual interrupts.
- `handle_remove_pages`, which stops its search at an equal base and so finds only the lowest allocation; `handle_readline` beyond its effect on the lists; `handle_task_vanish`.
- Kernel memory taken by page tables and control blocks is not counted; a page table lives as long as its directory.
- PageDirectory.PageDir.Destruct: the list nodes of the frames given back are assumed to be granted, as in the rollback of NewPages.ClaimRange; FramePool.Memory.FreeFrame says what is lost otherwise.
- DemandZero.RunAccesses: accesses of user code only; stores by the kernel through user pointers are not covered.
- Loader.LoadExecutable: host programs only, whose text starts in user memory; the arguments must fit the kernel's heap, which ends below user memory. Whether the ELF header and the copies of the arguments could be had is one input; parsing the header, with the entry point and the other registers the program starts with, is not modelled.
- ForkSpace.Fork: the process must be single-threaded, as the program checks before; copying the allocation list and the control blocks is one request, granted or not.
- NewPages.HandleNewPages: the list of allocations is a sequence; its circular links are those of CircularList.
- Threads: `tick_count` does not wrap around, and apart from ThreadRings the lists are sequences. KernelThreads.Kernel.AlterState and ThreadRings.Rings.AlterState move a thread between different lists, as every caller does, or keep the one running thread in its list.
- Fairness.LeavesByRunning: `handle_task_vanish`, which also takes ready threads off their list, is not among the events; nor is it in RunsWithinRank.
- Wait and vanish, condition variables and semaphores are modelled on values, as steps: the model does not capture a step of the program being interrupted between two accesses that only the holder of a lock can see. Fork appends to the child list in one step, which the program does without taking the lock; fairness of locks and of yielding is not covered.
- CondVar.OneToken: `deschedule` is given a valid pointer; an entry refused while the list is empty makes the program follow a null pointer, and no run goes on from there.
- Semaphore.WaitsAreCovered: no run goes on after an entry is refused while the list is empty, where the program follows a null pointer.
- Qsort.Qsort: elements are opaque values and the byte-wise ways of swapping them are not followed.
- LmmOps.Allocator.AllocGen: regions end at or below 2^30 and alignments are at most 2^30, so that no address computed wraps around; `lmm_add_region` and the page-sized wrappers are not modelled.
- KernelMalloc.KernelHeap.Malloc: sizes at which the request wraps around are excluded, as RequestIsEnough justifies; `calloc`, `realloc` and `smalloc` of the kernel would add nothing new.
- KernelMalloc.KernelHeap.Memalign: alignments up to 2^30.
- BoundaryTag.Heap.Malloc: the heap is initialized already; a first call whose initialization gets no memory at all is not covered.
- BoundaryTag.Heap.Realloc: `calloc` and `mm_checkheap` are not modelled.
- NumberParse.Strtol: beyond the range of a long, where signed overflow is undefined, only the fact of overflow is stated.
- NumberPrint.PrintNum: conversions of 64-bit arguments, other radixes and the `%b` and string conversions.
- BoundaryTag.Heap.Sbrk: what the program does once the break has wrapped around is not followed.
