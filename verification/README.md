# A verified model of the kernel's allocator, scheduler, widgets and codecs

This project models six parts of the operating system and proves what they are for.

| file | what it models |
|---|---|
| `Machine.dfy` | 32-bit integer conversions |
| `HeapModel.dfy`, `HeapRuns.dfy`, `MemoryManagement.dfy` | the heap: the chunk list and its operations; whole runs; the allocator that rewrites linked headers in place |
| `TaskTable.dfy`, `TaskRuns.dfy`, `TaskEffects.dfy`, `WaitRuns.dfy`, `Fairness.dfy`, `TaskManager.dfy`, `SystemCalls.dfy` | the process table: its transitions; invariants of runs; what each transition does to every field; waiting and termination; round-robin, priorities and aging; the task manager that updates it in place; the system calls by number and register, and their handler |
| `WidgetTree.dfy`, `WidgetEvents.dfy`, `WidgetPaths.dfy`, `DesktopModel.dfy`, `Vga.dfy`, `Gui.dfy` | the widget tree: drawing against hit testing; focus and mouse routing; exactly which widgets an event changes; the pointer and dragging; the frame buffer; the widgets updated in place |
| `Gdt.dfy` | packing of segment base and limit |
| `MouseStream.dfy`, `MouseDriver.dfy` | the three-byte mouse protocol and the byte-at-a-time driver |
| `Decimal.dfy` | the decimal printer and the keyboard integer reader |

## How the model is built

Every part has a specification as functions on values and a class (or, for the printer, methods)
in the source's own form: fields, arrays and loops updated step by step. Each method's `ensures`
ties the new state to the function, and the theorems are about the functions, over all inputs and
whole runs. A few methods hold one block of a longer source function
(`Split`, `MergePrev`, `WakeWaiter`, `Scan`, `TellFirst` and the like).

**Heap.** Pointers are addresses, 0 is null, a header takes 16 bytes (the i386 layout of
`MemoryChunk`), and size arithmetic is modulo 2^32. The header memory is a map from addresses to
headers, the list of chunks is ghost, and `Valid` says that the headers are exactly the doubly
linked form of the list. The heap lies above address 0 and ends at or below 2^32. `free` requires a
live pointer.

**Tasks.** The software interrupt inside `waitpid` and `exit` is a call of `Schedule` in the same
step. Where the scheduler reads `tasks[-1]` before it tests the index (lines 344 and 357), the model
tests the index first. There is one task manager, so `next_pid` starts at 0. System calls need a
current task. The registers of a process are a value; those the kernel never looks at are one opaque
component of it.

When no runnable task has a priority below 255 the scheduler falls back to the current task, whatever
its state, and marks it Running. So "`exit` ends the caller" and "`waitpid` puts the caller to sleep" are
false in general. `WaitRuns.ExitEndsIffRunnable` and `WaitRuns.WaitpidSleepsIffRunnable` give the exact
condition on the table at the call: some other task can run. `WaitRuns.LoneTaskCannotExit` and
`WaitRuns.LoneTaskCannotWait` are runs from the constructor in which the call fails. The theorems on
waiting and termination assume that each scan finds something to run (`WaitRuns.Live`, which
`WaitRuns.LiveIff` states on the table before the step); those on the process table do not. The same holds
of a task that blocks itself by `set_state(2)`: `WaitRuns.BlockedSleepsIffRunnable` says when the next tick
puts it to sleep, and `WaitRuns.SelfBlockedForever` that then nothing ever wakes it.

The repository's `README.md` (line 62) says that aging prevents starvation. The code raises the
target to priority 1 once, when the interrupt count is 20, while the default priority is -1 and lower
numbers win.
`Fairness.AgedIsServedIff` says exactly when the ticks that follow select the target. In
`Fairness.AgingStarvesItsTarget`, a run from the constructor, it is aging itself that keeps the target
from ever being selected again. While some runnable task is more urgent, a task is not selected
(`Fairness.LessUrgentStarves`); what can end that is a system call, such as the exit of the more urgent
task, a wake-up, or the aging tick.

**Widgets.** A widget is numbered in the order of construction, so a parent has a smaller number than
its children, as a parent must exist before its child's constructor runs. The kinds Plain, Composite
and Window stand for the three widget classes, and the desktop is widget 0. Coordinates are unbounded
integers, except where the desktop wraps and clamps them and where `FillRectangle` converts them to
`uint32_t`; its loop counters wrap at 32 bits. So a widget with a negative corner is not itself drawn,
although clicks on its visible part reach it (`WidgetTree.EdgeHitNotDrawn`). Drawing and clicking use the
same order of children, but drawing goes down to the first child whose whole subtree covers the pixel and
a click to the first child whose own rectangle does: `WidgetTree.DrawnIsTop` and
`WidgetTree.ShownIsClickedIff` say, for every tree and pixel, what is shown and exactly when it is what a
click reaches, and `WidgetTree.DrawnIsHit` that nested widgets always agree.

**Descriptors.** Shifts and masks are written as divisions and remainders by powers of two.

## Model

| member | source | states |
|---|---|---|
| Machine.Conversions | source/include/common/types.h:13-14 | conversions to 32 bits keep a number modulo 2^32 and land in the range of the type |
| HeapModel.FirstFit | source/src/memorymanagement.cpp:39-41 | the index found fits and no earlier chunk does |
| HeapModel.Ordered | source/src/memorymanagement.cpp:46-59 | chunks of a tiled heap lie strictly one after the other |
| HeapModel.PayloadsDisjoint | source/src/memorymanagement.cpp:46-62 | payloads overlap neither each other nor any header |
| HeapModel.TakeKeepsInv | source/src/memorymanagement.cpp:35-63 | `malloc` keeps the exact tiling and leaves no two neighbouring free chunks |
| HeapModel.MergeSpan | source/src/memorymanagement.cpp:71-87 | `free` merges the block with at most its two neighbours, all of them free, and the merged chunk has no free neighbour |
| HeapModel.ReleaseKeepsInv | source/src/memorymanagement.cpp:65-89 | `free` keeps the exact tiling and leaves no two neighbouring free chunks |
| HeapModel.TakeExact | source/src/memorymanagement.cpp:35-63 | `malloc(n)` returns 0 exactly when no free chunk is strictly larger than n; otherwise it takes the lowest such chunk, adds one block there of n to n + 16 bytes, and changes no other block |
| HeapModel.ReleaseLive | source/src/memorymanagement.cpp:65-89 | `free` removes exactly the freed block from the live blocks |
| HeapRuns.RunKeepsInv | source/src/memorymanagement.cpp:35-89 | the heap invariant holds after every legal run of `malloc` and `free` |
| HeapRuns.Canonical | source/src/memorymanagement.cpp:35-89 | two heaps with the same bounds and the same live blocks have the same chunk list |
| HeapRuns.HistoryIrrelevant | source/src/memorymanagement.cpp:10-89 | two runs from the constructor that leave the same live blocks leave the same chunk list |
| HeapRuns.FullRecovery | source/src/memorymanagement.cpp:10-89 | a run that ends with nothing live leaves the one free chunk of the start |
| HeapRuns.FreeOrderIrrelevant | source/src/memorymanagement.cpp:65-89 | freeing two distinct live blocks is legal in either order and gives the same chunk list |
| HeapRuns.FreeAll | source/src/memorymanagement.cpp:65-89 | distinct live blocks can be freed one after the other, and exactly they stop being live |
| HeapRuns.FreeAnyOrder | source/src/memorymanagement.cpp:65-89 | any number of live blocks may be freed in any two orders, with the same chunk list at the end |
| HeapRuns.MallocThenFree | source/src/memorymanagement.cpp:35-89 | `malloc` followed by `free` of its result is legal and restores the exact chunk list |
| HeapRuns.FreeNeverHurts | source/src/memorymanagement.cpp:65-89 | a request that could be met before a `free` can be met after it |
| HeapRuns.BytesConserved | source/src/memorymanagement.cpp:10-89 | headers, live bytes and free bytes add up to the heap size |
| HeapRuns.FreeChunksFew | source/src/memorymanagement.cpp:65-89 | there is at most one more free chunk than live blocks |
| HeapRuns.FragmentationBound | source/src/memorymanagement.cpp:35-89 | with k live blocks and more than (k+1)(n+16) bytes outside them, `malloc(n)` succeeds |
| HeapRuns.FragmentationBoundTight | source/src/memorymanagement.cpp:10-89 | for every k and n some heap meets that bound with equality and `malloc(n)` fails; for n > 0 a legal run from the constructor reaches it, in any address space that holds it |
| HeapRuns.ZeroRequestBound | source/src/memorymanagement.cpp:35-89 | for n = 0 no reachable heap with something live meets that bound with equality: there 16k bytes take the place of 16(k+1) |
| MemoryManagement.HeadersAvoidPayloads | source/src/memorymanagement.cpp:46-59 | no byte of a header lies in a live payload, so no header write damages user data |
| MemoryManagement.PayloadWritesKeepLinks | source/include/memorymanagement.h:11-17 | user writes confined to live payloads leave the linked list intact |
| MemoryManagement.AbsorbedLinks | source/src/memorymanagement.cpp:71-87 | the link updates of one merge give the doubly linked form of the merged list |
| MemoryManagement.CutLinked | source/src/memorymanagement.cpp:46-61 | the link updates of a split give the doubly linked form of the split list |
| MemoryManagement.FreeIsRelease | source/src/memorymanagement.cpp:65-89 | the two conditional merges of `free`, one after the other, give the specified list |
| MemoryManagement.GuardNeverWraps | source/src/memorymanagement.cpp:46 | the 32-bit sum in the split guard never wraps when it is evaluated |
| MemoryManagement.MemoryManager.constructor | source/src/memorymanagement.cpp:10-27 | the fresh heap: empty if too small for a header, else one free chunk |
| MemoryManagement.MemoryManager.Search | source/src/memorymanagement.cpp:37-41 | the list walk finds the first fit |
| MemoryManagement.MemoryManager.Malloc | source/src/memorymanagement.cpp:35-63 | headers rewritten in place refine the list operation; only headers of the new list are written |
| MemoryManagement.MemoryManager.Split | source/src/memorymanagement.cpp:46-61 | the split writes exactly the specified headers |
| MemoryManagement.MemoryManager.Free | source/src/memorymanagement.cpp:65-89 | headers rewritten in place refine the list operation; only headers of the old list are written |
| TaskTable.FindPid | source/src/multitasking.cpp:123-130 | `findTaskByPID` is the identity on issued pids and -1 on all others |
| TaskTable.BestSpec | source/src/multitasking.cpp:351-380 | the running best of a cyclic pass is the first of least priority so far |
| TaskTable.PickSpec | source/src/multitasking.cpp:351-383 | the task selected is the first after the current one, cyclically, of least runnable priority below 255; with none the current task |
| TaskRuns.BeforeScanRow | source/src/multitasking.cpp:340-360 | every row as the scan sees it: the current one has its registers saved, the waiter of a terminated one is Ready, the aging target has priority 1, and nothing else has changed |
| TaskRuns.RunnableIff | source/src/multitasking.cpp:340-373 | the scan finds something to run if and only if some task is awake, or is about to be woken, and has priority below 255 or is about to age |
| TaskRuns.ScheduleRuns | source/src/multitasking.cpp:335-388 | with something to run, the task selected was awake or has just been woken, and no other state changes |
| TaskRuns.ScheduleFallsBack | source/src/multitasking.cpp:352-383 | with nothing to run, the current task is kept and marked Running whatever its state |
| TaskRuns.ForkExact | source/src/multitasking.cpp:89-118 | `fork` adds one row with result 0 and gives the caller the child's pid; on a full table only the caller's result changes, to -1 |
| TaskRuns.AddTaskExact | source/src/multitasking.cpp:57-85 | `AddTask` adds one parentless Ready row, or does nothing on a full table |
| TaskRuns.StepKeepsWf | source/src/multitasking.cpp:57-388 | every step keeps the process-table invariant |
| TaskRuns.RunKeepsWf | source/src/multitasking.cpp:49-388 | after every run next_pid equals numTasks, slot i has pid i, parents have smaller pids, recorded waiters exist and unused slots are pristine |
| TaskRuns.ParentChainEnds | source/src/multitasking.cpp:62-63 | parent chains strictly descend in pid and end at a task without parent |
| TaskRuns.BootIsWf | source/src/multitasking.cpp:49-55 | the constructor's table satisfies the invariant |
| TaskEffects.MustBlockIff | source/src/multitasking.cpp:133-142 | `waitpid` waits exactly for a pid that was issued to a task still alive |
| TaskEffects.WakeTargetIs | source/src/multitasking.cpp:343-349 | the task a scan wakes: the waiter recorded by a terminated current task, if any |
| TaskEffects.AgedIs | source/src/multitasking.cpp:354-360 | the task that ages: the one named, on the scan that finds the interrupt count at 20 |
| TaskEffects.SetPriorityExact | source/src/multitasking.cpp:230-233 | the number given is stored in the caller's row and nothing else changes |
| TaskEffects.SetStateExact | source/src/syscalls.cpp:67-72 | code 0 makes the caller Ready, 2 Blocked, and any other changes nothing |
| TaskEffects.ExecveExact | source/src/multitasking.cpp:175-183 | the caller starts afresh at the entry point with its identity and priority; nothing else changes |
| TaskEffects.ScheduleExact | source/src/multitasking.cpp:335-388 | every field of every row after a scan, and one more on the interrupt count |
| TaskEffects.ResumesSavedFrame | source/src/multitasking.cpp:340-387 | the registers resumed are those the selected task had saved |
| TaskEffects.StepCounts | source/src/multitasking.cpp:57-388 | each step raises the interrupt count by the number of its scans and numTasks by the rows it adds; only `set_aging` names another target |
| TaskEffects.CountFromBoot | source/src/multitasking.cpp:385 | after every run from the constructor the interrupt count is the number of scans |
| TaskEffects.RunKeepsPriority | source/src/multitasking.cpp:230-360 | over any run a task's priority stays as it is unless it sets it or ages |
| TaskEffects.RunKeepsForkValue | source/src/multitasking.cpp:89-118 | over any run the value for the double return stays as it is unless the task forks |
| WaitRuns.ExitLoopIsIdle | source/src/multitasking.cpp:164-169 | the wake-up loop of `exit` wakes nobody |
| WaitRuns.ExitWakes | source/src/multitasking.cpp:343-349 | the exiting task hands over to its one recorded waiter, which is blocked and recorded nowhere else |
| WaitRuns.StepKeepsWaitInv | source/src/multitasking.cpp:133-173 | recorded waiters are blocked, no two living tasks share one, and the current task is alive and nobody's waiter |
| WaitRuns.RunKeepsWaitInv | source/src/multitasking.cpp:133-173 | the same after every run in which each scan finds something to run |
| WaitRuns.ReachableWaitInv | source/src/multitasking.cpp:49-173 | so it holds after every such run from the constructor |
| WaitRuns.LiveIff | source/src/multitasking.cpp:335-383 | when the scan of a timer tick, a `waitpid` or an `exit` finds something to run, on the table before the step |
| WaitRuns.TerminatedForever | source/src/multitasking.cpp:157-173 | a terminated task stays terminated and is never selected again |
| WaitRuns.ExitEndsIffRunnable | source/src/multitasking.cpp:157-173 | `exit` ends the caller if and only if some other task is awake or is the caller's waiter, and has priority below 255 or is about to age; otherwise the caller runs on |
| WaitRuns.LoneTaskCannotExit | source/src/multitasking.cpp:157-173 | from the constructor, the only task calls `exit` and is current and Running after it |
| WaitRuns.LoneTaskCannotWait | source/src/multitasking.cpp:133-155 | from the constructor, the only task waits for itself and is current and Running after it |
| WaitRuns.WokenExactly | source/src/multitasking.cpp:343-349 | a sleeping task is woken by the exit of the task that records it and by no other step |
| WaitRuns.WaitpidSleepsIffRunnable | source/src/multitasking.cpp:133-155 | `waitpid` on a living task puts the caller to sleep until that task ends if and only if some other task can run; otherwise the caller is current and Running at once |
| WaitRuns.WaitpidPutsToSleep | source/src/multitasking.cpp:133-155 | when it does, the caller is recorded by that task alone, and a task that waited for it before sleeps on, recorded by no other task |
| WaitRuns.WaitSafety | source/src/multitasking.cpp:133-155 | over any run, the waiter is neither made ready nor selected while the awaited task lives |
| WaitRuns.WaitWakeUp | source/src/multitasking.cpp:133-173 | if nobody has since waited on the same task, the waiter is Ready or Running at the end of that task's exit |
| WaitRuns.DeadlockForever | source/src/multitasking.cpp:133-173 | sleeping tasks that wait only for one another, in cycles of any length, or for nobody alive, sleep in every run from there on |
| WaitRuns.BlockedSleepsIffRunnable | source/src/syscalls.cpp:70-71 | a task that makes itself Blocked sleeps from the next tick on if and only if some other task can run; otherwise the tick resumes it, Running |
| WaitRuns.SelfBlockedForever | source/src/syscalls.cpp:70-71 | once it sleeps, it sleeps in every run from there on |
| WaitRuns.OvertakenForever | source/src/multitasking.cpp:148-149 | a waiter whose place is taken by a later `waitpid` on the same task sleeps in every run from there on |
| WaitRuns.SelfWaitForever | source/src/multitasking.cpp:133-155 | a task that waits for itself sleeps in every run from there on |
| Fairness.MembersSpec | source/src/multitasking.cpp:366-380 | the list of most urgent tasks is ascending and complete |
| Fairness.QuietTick | source/src/multitasking.cpp:364-383 | a quiet tick selects the first urgent task in cyclic order and leaves the same tasks urgent |
| Fairness.StaysQuiet | source/src/multitasking.cpp:343-360 | ticks that all come before or all after the aging tick are quiet once no wake-up is pending |
| Fairness.RoundRobin | source/src/multitasking.cpp:335-388 | over as many quiet ticks as there are urgent tasks each is selected exactly once, in cyclic index order, and nothing else is |
| Fairness.LessUrgentStarves | source/src/multitasking.cpp:366-383 | while a more urgent task can run, a less urgent one is not selected, over any number of quiet ticks |
| Fairness.UrgentServed | source/src/multitasking.cpp:335-388 | over at least as many quiet ticks as there are urgent tasks, a task is selected if and only if it is urgent |
| Fairness.AgingHelpsIff | source/src/multitasking.cpp:354-360 | aging makes its target one of the most urgent if and only if it is not blocked and no other runnable task has a priority below 1 |
| Fairness.AgedIsServedIff | source/src/multitasking.cpp:335-388 | over the ticks after the aging tick, once each urgent task has had its turn, the target has been selected if and only if it was not blocked and no other runnable task had a priority below 1 |
| Fairness.AgingStarvesItsTarget | source/src/multitasking.cpp:354-360 | from the constructor: of two tasks of the default priority the one named for aging is among the most urgent just before the aging tick and never selected after it |
| Fairness.SetPriorityUrgentIff | source/src/multitasking.cpp:230-233 | a task that can run makes itself one of the most urgent if and only if it sets a priority below 255 that no other runnable task undercuts |
| Fairness.SetPriorityServedIff | source/src/multitasking.cpp:335-388 | over enough quiet ticks it is then selected, and only then |
| Fairness.ContextRestored | source/src/multitasking.cpp:340-341 | a task switched out with some registers has those registers when it is next selected |
| TaskManager.TaskManager.constructor | source/src/multitasking.cpp:51-55 | the initial process table |
| TaskManager.TaskManager.AddTask | source/src/multitasking.cpp:57-85 | refines the table transition and fills in the caller's record |
| TaskManager.TaskManager.Fork | source/src/multitasking.cpp:89-118 | refines the table transition; the caller's eax receives the child's pid |
| TaskManager.TaskManager.FindTaskByPID | source/src/multitasking.cpp:123-130 | the loop finds the first slot with the pid, or -1 |
| TaskManager.TaskManager.Execve | source/src/multitasking.cpp:175-183 | refines the table transition and returns the fresh registers |
| TaskManager.LeadsStep | source/src/multitasking.cpp:366-380 | a place the scan has passed never wins again, so a restart always moves forward |
| TaskManager.TaskManager.Scan | source/src/multitasking.cpp:351-380 | the restarting scan terminates and returns the result of a single cyclic pass |
| TaskManager.TaskManager.Schedule | source/src/multitasking.cpp:335-388 | refines the table transition and returns the selected task's registers |
| TaskManager.TaskManager.Waitpid | source/src/multitasking.cpp:133-155 | refines the table transition; -1 exactly for a pid never issued |
| TaskManager.TaskManager.Exit | source/src/multitasking.cpp:157-173 | refines the table transition |
| SystemCalls.SyscallHandler.HandleInterrupt | source/src/syscalls.cpp:13-82 | refines the specified call, which the rows below pin down by number and register |
| SystemCalls.ForkCall | source/src/syscalls.cpp:22-24 | call 2 gives in eax a pid nobody had, by which one more task is found, with the caller's registers, eax 0 and the caller as parent; on a full table nothing changes but the double return |
| SystemCalls.GetPidCall | source/src/syscalls.cpp:30-32 | call 3 gives in ecx the pid by which the caller is found, and changes nothing else |
| SystemCalls.DoubleReturnCall | source/src/syscalls.cpp:26-28 | call 5 gives in ebx 0 in the child and the child's pid in the parent, after any run in which it did not fork again |
| SystemCalls.FailedForkCall | source/src/syscalls.cpp:26-28 | after a fork on a full table call 5 gives -1 |
| SystemCalls.WaitpidCall | source/src/syscalls.cpp:38-40 | call 6 takes the pid in ebx: nothing for a pid no living task has; else the caller waits and another task goes on with its saved registers, or, with none to run, the caller goes on |
| SystemCalls.ExitCall | source/src/syscalls.cpp:42-44 | call 7 ends the caller and another task goes on with its saved registers, or, with none to run, the caller goes on |
| SystemCalls.ExecveCall | source/src/syscalls.cpp:46-49 | call 8 takes the entry point in ebx; all other registers are fresh and nothing else changes |
| SystemCalls.SetPriorityCall | source/src/syscalls.cpp:51-53 | call 9 stores ebx, read as signed, as the caller's priority, and changes nothing else |
| SystemCalls.InterruptCountCall | source/src/syscalls.cpp:59-61 | call 10 gives in edx the number of scans since the constructor |
| SystemCalls.SetAgingCall | source/src/syscalls.cpp:63-65 | call 11 makes the task whose pid is in ebx the aging target, and changes nothing else |
| SystemCalls.GetPriorityCall | source/src/syscalls.cpp:55-57 | call 12 gives in edx what call 9 was given in ebx, after any run in which the caller neither set it again nor aged |
| SystemCalls.SetStateCall | source/src/syscalls.cpp:67-72 | call 13 makes the caller Ready for ebx 0 and Blocked for ebx 2, and changes nothing else |
| SystemCalls.OtherCall | source/src/syscalls.cpp:74-80 | every other number changes nothing |
| WidgetTree.FirstHit | source/src/gui/widget.cpp:116-121 | the child found contains the point and no earlier one does |
| WidgetTree.DrawnIsTop | source/src/gui/widget.cpp:106-111 | in every tree, after a widget is drawn each pixel that its subtree covers has the colour of the widget found by going down to the first child whose subtree covers it, and no other pixel changes |
| WidgetTree.ShownIsClickedIff | source/src/gui/widget.cpp:106-122 | in every tree, the widget shown at a pixel is the one a click there reaches if and only if, at every widget on the way of the click, the child clicked is the first whose subtree covers the pixel |
| WidgetTree.NestedAgree | source/src/gui/widget.cpp:106-122 | nested widgets cover exactly their own rectangles and meet that condition at every pixel |
| WidgetTree.DrawnIsHit | source/src/gui/widget.cpp:106-122 | so after a nested widget is drawn each of its pixels has the colour of the widget a click there descends to, and no other pixel changes |
| WidgetTree.RootDrawnIsHit | source/src/gui/widget.cpp:106-122 | the same for the whole tree in screen coordinates |
| WidgetTree.OverhangDrawnNotHit | source/src/gui/widget.cpp:106-122 | a grandchild that sticks out of its parent is shown there while a click reaches the root |
| WidgetTree.EdgeHitNotDrawn | source/src/drivers/vga.cpp:151-156 | a window over the left edge is clicked on its visible part while the desktop is shown there |
| WidgetEvents.KeysFollowFocus | source/src/gui/widget.cpp:90-95 | after `GetFocus` keys given to the root go where keys given to the new focus go |
| WidgetEvents.MouseDownFocus | source/src/gui/widget.cpp:49-53 | a mouse-down moves the focus to the plain focussable widget it lands on and else leaves it |
| WidgetEvents.MouseDownKeepsPlace | source/src/gui/widget.cpp:114-122 | a mouse-down changes focus and dragging only |
| WidgetEvents.MouseUp | source/src/gui/widget.cpp:124-132 | a mouse-up keeps the tree and changes dragging only |
| WidgetEvents.MouseMove | source/src/gui/window.cpp:31-40 | a dragging window moves by as much as the pointer; no widget constructed before it changes |
| WidgetEvents.KeysReachLastClicked | source/src/gui/widget.cpp:90-165 | after any sequence of presses, releases and moves, a key given to the root reaches the plain widget the last mouse-down landed on |
| WidgetPaths.MouseDownDragging | source/src/gui/window.cpp:19-23 | a mouse-down sets dragging for the left button and clears it for others in the windows on its way, found by screen coordinates, and in no other |
| WidgetPaths.MouseUpDragging | source/src/gui/window.cpp:25-29 | a mouse-up clears dragging in the windows on its way and in no other |
| WidgetPaths.GetFocusLinks | source/src/gui/widget.cpp:90-95 | `GetFocus` puts the focus of every container around a widget on the child that holds it, and no other |
| WidgetPaths.MouseDownLinks | source/src/gui/widget.cpp:49-122 | a mouse-down that lands on a plain focussable widget does so for that widget; any other changes no focus |
| WidgetPaths.MovesOnlyDragged | source/src/gui/widget.cpp:134-152 | with one window dragging, a move displaces that window once, by as much as the pointer, exactly if the children under the old and the new place lead down to it, and changes nothing else |
| DesktopModel.PointerStaysOnDesktop | source/src/gui/desktop.cpp:45-62 | the pointer stays on the desktop whatever offsets arrive |
| DesktopModel.PointerLands | source/src/gui/desktop.cpp:45-62 | the pointer moves by a quarter of each offset, rounded towards zero, within the desktop; a sum beyond 32 bits lands on the lower edge |
| DesktopModel.PointerSum | source/src/gui/desktop.cpp:45-62 | over moves that reach no edge the pointer moves by the sum of the quarters |
| DesktopModel.PressStartsDrag | source/src/gui/window.cpp:19-23 | pressing the left button on the front window starts a drag |
| DesktopModel.ReleaseEndsDrag | source/src/gui/window.cpp:25-29 | releasing a button over the dragged window ends the drag |
| DesktopModel.DragStep | source/src/gui/widget.cpp:134-152 | a dragged front window alone is told of the move, once, and keeps its offset from the pointer |
| DesktopModel.DragConservation | source/src/gui/desktop.cpp:45-62 | over any sequence of moves the offset stays constant, each move is told to that window alone, and the pointer stays on the desktop |
| DesktopModel.DragSum | source/src/gui/window.cpp:31-40 | over moves that reach no edge a dragged window moves by the sum of the quarters |
| DesktopModel.PointerMovesOneWindow | source/src/gui/desktop.cpp:58 | on a desktop of any shape with one window dragging, a pointer move moves that window with the pointer if it is reached, and changes nothing else |
| Vga.ColorsShown | source/src/drivers/vga.cpp:136-144 | black, blue, green, red and white get the palette index that shows them, every other colour that of black |
| Vga.VideoGraphicsArray.PutPixel | source/src/drivers/vga.cpp:126-149 | at most the one pixel on the screen changes |
| Vga.VideoGraphicsArray.FillRectangle | source/src/drivers/vga.cpp:151-156 | for all arguments, exactly the screen pixels change that lie between the corners as `uint32_t` values; with a negative corner, none |
| Gui.NestedOnDesktop | source/src/gui/widget.cpp:33-39 | widgets nested in a desktop all lie on it |
| Gui.NestedFilledWhole | source/src/drivers/vga.cpp:151-156 | so drawing fills exactly the rectangle of each of them |
| Gui.Desktop.constructor | source/src/gui/desktop.cpp:9-16 | an empty desktop at (0, 0) without focus, the pointer in its middle |
| Gui.Desktop.AddChild | source/src/gui/widget.cpp:97-103 | a new last child, refused exactly when there are 100 |
| Gui.Desktop.ModelToScreen | source/src/gui/widget.cpp:33-39 | adds the widget's screen position |
| Gui.Desktop.Draw | source/src/gui/widget.cpp:106-111 | for every tree, the frame buffer holds the specified painting |
| Gui.Desktop.DrawAll | source/src/gui/desktop.cpp:22-24 | each screen pixel shows the first widget that covers it; with nested widgets, the one a click there reaches |
| Gui.Desktop.PassMouseDown | source/src/gui/widget.cpp:49-122 | refines the specified event and reports the widget reached |
| Gui.Desktop.CompositeMouseMove | source/src/gui/widget.cpp:134-152 | refines the specified event and reports the children told |
| Gui.Desktop.OnKeyDown | source/src/gui/widget.cpp:155-159 | the key reaches the end of the focus path |
| Gui.Desktop.OnMouseMove | source/src/gui/desktop.cpp:45-62 | refines the specified pointer move |
| Gdt.Layout | source/src/gdt.cpp:63-75 | read as one 64-bit number, each field of the descriptor lies at the bits the processor expects |
| Gdt.BaseRoundTrip | source/src/gdt.cpp:68-88 | every base and access byte comes back unchanged |
| Gdt.LimitLoss | source/src/gdt.cpp:37-102 | the limit is exact if and only if it is at most 65536 or ends in twelve one bits; otherwise it falls short by at most 4095 |
| Gdt.RepackingIsStable | source/src/gdt.cpp:33-102 | packing the decoded pair again decodes to the same pair |
| Gdt.AlmostMonotone | source/src/gdt.cpp:37-61 | decoding reverses the order of two limits exactly when the smaller is 65536 and the larger below 0x10FFF |
| Gdt.SegmentDescriptor.constructor | source/src/gdt.cpp:33-76 | the eight bytes written |
| Gdt.SegmentDescriptor.Base | source/src/gdt.cpp:78-88 | the base read from the bytes |
| Gdt.SegmentDescriptor.Limit | source/src/gdt.cpp:90-102 | the limit read from the bytes |
| MouseStream.RunMeansEvents | source/src/drivers/mouse.cpp:67-101 | from any state the driver emits what the pending and the further mouse bytes mean |
| MouseStream.DriverRefinesPackets | source/src/drivers/mouse.cpp:48-101 | the byte-at-a-time driver emits the events of the complete packets, whatever other interrupts are mixed in |
| MouseStream.EventsAlternate | source/src/drivers/mouse.cpp:87-97 | each button's events alternate, and a button is reported held as the last packet says |
| MouseStream.ButtonsAlternate | source/src/drivers/mouse.cpp:48-101 | over any stream of interrupts every button's events alternate, starting with Down |
| MouseStream.FromMouseIff | source/src/drivers/mouse.cpp:69-71 | a byte is the mouse's if and only if the bit worth 32 of the status is set |
| MouseStream.PacketExact | source/src/drivers/mouse.cpp:82-96 | a packet reports first the move by its signed second byte and minus its signed third one, if either is not 0, and then, lowest button first, a press for each bit newly set and a release for each newly clear |
| MouseStream.MovementConserved | source/src/drivers/mouse.cpp:67-101 | over any stream of interrupts the moves add up to the signed second bytes and minus the signed third bytes of the complete packets, in one move for each packet that has one |
| MouseDriver.MouseDriver.HandleInterrupt | source/src/drivers/mouse.cpp:67-101 | refines the specified step, with and without a handler |
| MouseDriver.MouseDriver.EmitButtons | source/src/drivers/mouse.cpp:87-96 | the loop over the button bits makes the specified calls |
| Decimal.TenDigits | source/src/kernel.cpp:94-100 | a positive 32-bit number has at most ten digits, so the digit buffer never overflows |
| Decimal.PrintedWholeIff | source/src/kernel.cpp:97-100 | the whole numeral is printed if and only if it fits the given size or is a single digit |
| Decimal.PrinterFitsIff | source/src/kernel.cpp:97-109 | text and NUL stay within the given size if and only if the numeral is shorter than it; for a numeral as long as the size (at least 2) or longer, one character is written beyond |
| Decimal.SplitDigits | source/src/kernel.cpp:94-100 | the digit buffer holds the low digits in reverse, as many as there is room for |
| Decimal.CopyReversed | source/src/kernel.cpp:102-105 | the characters in reverse, and nothing else changed |
| Decimal.IntToString | source/src/kernel.cpp:87-109 | the buffer receives the text and a final NUL and is otherwise unchanged |
| Decimal.ReadDigits | source/src/kernel.cpp:152-154 | reading the numeral of n leaves n, without overflow on the way |
| Decimal.TypedMeaning | source/src/kernel.cpp:140-158 | whatever keys are typed, the reader holds the number their digits make, below 2^31, and is negative if and only if a minus came before any digit but 0 |
| Decimal.EnterMeaning | source/src/kernel.cpp:145-149 | Enter completes the reading with that number, negated if negative |
| Decimal.PrintedReadsLowDigits | source/src/kernel.cpp:87-172 | what is printed with room for k digits reads back as the remainder by 10^k, with its sign |
| Decimal.PrintReadRoundTrip | source/src/kernel.cpp:87-172 | with room for eleven characters, typing what is printed for n and Enter completes with n, and nothing overflows |
| Decimal.PrintReadRoundTripIff | source/src/kernel.cpp:87-172 | for any size, typing what is printed for n and Enter yields n if and only if the numeral fits the size or is a single digit |
| Decimal.OtherKeysIgnored | source/src/kernel.cpp:140-158 | keys other than digits, minus and Enter change nothing |
| Decimal.CompletedIsFinal | source/src/kernel.cpp:141-143 | keys after Enter change nothing until the next reset |
| Decimal.IntegerScanfKeyboardEventHandler.OnKeyDown | source/src/kernel.cpp:140-158 | refines one key of the reader, and says which keys are echoed |

## Left out

- Port input and output, interrupt controller, descriptor-table loading, PCI, ATA and the network card: their effects are in hardware.
- Assembly stubs and the copying of raw stacks in `fork` and `AddTask`: a process's registers are a value, and the words a fresh frame leaves uninitialised are modelled as 0.
- `free(0)`, freeing a pointer that is not live, and `tasks[-1]`: excluded by preconditions or by testing the index first.
- Signed overflow of the counters of `FillRectangle`: undefined in C++, wraps at 32 bits here.
- Printing and negating the smallest 32-bit integer: undefined in the source, excluded by a precondition.
- Overflow of the interrupt counter and of the coordinates in hit tests: both are unbounded integers here.
- WidgetTree.DrawnIsHit: for nested widgets at non-negative coordinates; ShownIsClickedIff is the statement for all trees.
- WaitRuns.WaitSafety: for runs in which each scan finds something to run; LiveIff says when one does, and LoneTaskCannotWait is a run in which the waiter goes on at once.
- Decimal.IntToString: the array stands for the memory behind the pointer, which must hold all that is written, while `buffer_size` is what the caller claims; PrinterFitsIff says when the claim suffices, and what a call that overruns its memory damages is not modelled.
- Decimal.IntegerScanfKeyboardEventHandler.OnKeyDown: whether a key is echoed, not what `printf` puts on the screen, as it is given a single character without a NUL.
- Gui.Desktop.AddChild: construction and adding are one step, so adding a widget twice, adding it under another parent, and a widget whose `AddChild` was refused are not covered.
- The mouse cursor drawn over the desktop, the text screen shared by `printf` and the console mouse, keyboard scan codes and VGA registers.
- The demonstration tasks, the searches among them, and the commented-out schedulers.
- The global `new` and `delete` operators and the pointer to the active memory manager.
