# A verified model of the TivaC preemptive OS scheduler

This project models the scheduler and context-switch core of a small
preemptive kernel for the TM4C123 (Cortex-M4). Source/OS.c holds the
kernel's task table (`OS_Control`), its ready FIFO, the tick counter
`g_tick` and the three exception handlers: `SVC_Handler`, `SysTick_Handler`
and `PendSV_Handler`. Includes/bitwise_operation.h holds a few bit macros.
The model is written in Dafny and every contract below is proved.

Layout:

- `tasks.dfy` (module `Tasks`): the task descriptor `Task_ref` as a class.
  The constant fields come from the configuration. The stack bounds,
  `Current_PSP` and the stack words are mutable. The `TaskState` and
  `Blocking` enums keep the source's order.
- `scheduling.dfy` (module `Scheduling`):
  - the bubble sort of `Update_SchedularTable` on a sequence of tasks, with
    its stability proof;
  - the cohort the scan enqueues, on a sequence of `(priority, suspended)`
    slots.
- `control.dfy` (module `KernelState`): a snapshot of the kernel as a value.
  It holds the table, the task states, the queue, `CurrentTask`, `NextTask`,
  `OS_STATE`, the pending switch and `g_tick`. A refresh, each `svc` code,
  the tick and the switch are each a function on snapshots, and their
  properties are proved there as lemmas.
- `arena.dfy` (module `StackArena`): the address arithmetic of the main
  stack and of the task stacks carved below it.
- `context_frame.dfy` (module `ContextFrame`):
  - the initial 16-word frame of a new task;
  - the 8 words r4..r11 of a context save.
  The hardware-stacked part follows section B1.5.6 of the ARMv7-M
  Architecture Reference Manual, and `EXC_RETURN` 0xFFFFFFFD ("Thread mode,
  PSP") follows section B1.5.8.
- `os.dfy` (module `Os`): the kernel as a class `Kernel`, imperative like
  the source:
  - a task table `array<Task?>` whose slots are swapped in place by the sort;
  - the queue, the states, `CurrentTask`, `NextTask` and the counter as
    fields;
  - each task's stack as an `array` that the save, the restore and task
    creation write word by word, moving `Current_PSP`.

  Each handler is proved to move the ghost snapshot `View()` exactly as the
  `KernelState` function of the same purpose does. Each handler also keeps
  the kernel invariant: a table of distinct tasks, sorted by priority, with
  the queue and the current and next task inside it.
- `bitwise_operation.dfy` (module `BitwiseOperation`): the macros on `bv32`
  and `bv8`. The macros that assign into `REG` are methods; the others are
  functions.

Further modelling choices:

- An `svc #n` becomes a call `Svc(n)`, and the PendSV pending bit becomes a
  flag.
- Word addresses are integers. Byte arithmetic is written out as `4 * w`.
- Where the outcome of the C code depends on a null pointer dereference,
  the method returns `fault == true`:
  - a dispatch on an empty queue when `NextTask` is null;
  - a null slot of the table in the tick loop;
  - `SemaphoreGive` with no waiter.

  So does the division by a zero `Ticks_Count`. The contract then says
  exactly when the fault happens. One null dereference is deliberately not
  a fault: the scan's look-ahead at the last used slot (see "## Left out"),
  whose value cannot change the outcome.

Where the code and its prose description differ, the model follows the
code:

- Codes 0 and 1 fall through into the refresh of code 2. That second
  refresh drains the queue the dispatch built and rebuilds it. It sets each
  task of the rebuilt queue Ready again, so `NextTask`, when it is in that
  queue, ends up Ready rather than Running.
- The wake test is `g_tick % Ticks_Count - 1 == 0` in unsigned arithmetic,
  which holds exactly when the remainder is 1. A task with period 1 is
  therefore never woken.

## Model

| member | source | states |
|---|---|---|
| Tasks.Task.constructor | Includes/OS.h:34-60 | a descriptor holds the configured stack size, priority (below 256, a `uint8`), entry, blocking mode, period and idle flag, with no stack carved yet |
| Scheduling.BubbleSortOrders | Source/OS.c:42-50 | after the sort the table is in non-decreasing priority |
| Scheduling.BubbleSortStable | Source/OS.c:42-50 | the sort is a permutation that keeps the relative order of tasks of equal priority (a witness index map is returned) |
| Scheduling.BubbleSortKeepsSorted | Source/OS.c:42-50 | a table already in priority order is left exactly as it is |
| Scheduling.BubbleSortKeepsTasks | Source/OS.c:42-50 | the sort keeps the tasks distinct and neither loses nor adds a task |
| Scheduling.PermutationKeepsTasks | Source/OS.c:44-47 | a stable permutation of distinct tasks is distinct and has the same set of tasks |
| Scheduling.InjectionCovers | Source/OS.c:44-47 | an injective index map into `[0, n)` of length n hits every index |
| Scheduling.PassesPlace | Source/OS.c:42-49 | after i passes the last i entries are the largest, sorted |
| Scheduling.FirstEligible | Source/OS.c:53-58 | the first entry from k on that is not Suspended: all before it are Suspended |
| Scheduling.RunEnd | Source/OS.c:60-78 | the end of the run of not-Suspended entries of one priority: everything before it is in the run and the entry at it breaks it |
| Scheduling.CohortShape | Source/OS.c:53-81 | the cohort starts after the leading Suspended entries, is empty exactly when every entry is Suspended, and otherwise is a maximal run of not-Suspended entries of its first entry's priority |
| Scheduling.CohortUnique | Source/OS.c:53-81 | any range with the properties of `CohortShape` is the cohort |
| Scheduling.CohortStep | Source/OS.c:58-78 | at entry k the scan skips a Suspended entry before the cohort, enqueues an entry inside it, and breaks exactly when the next entry is Suspended, of another priority, or absent |
| StackArena.Floor8 | Source/OS.c:181-182 | `(x / 8) * 8` in bytes: an even word address at most 8 bytes below x |
| StackArena.MainStackEnd | Source/OS.c:180-181 | the main stack ends 1000 bytes, rounded down to 8, below the initial stack pointer |
| StackArena.FirstLocator | Source/OS.c:182 | the first task stack starts 8 bytes below the aligned end of the main stack |
| StackArena.Carve | Source/OS.c:201-202 | a region starts at the locator, both bounds are 8-aligned, and its size is at least `StackSize` and less than `StackSize + 8` bytes |
| StackArena.NextLocator | Source/OS.c:203 | the next locator lies 30 words below the region's end and stays 8-aligned |
| StackArena.LayoutBelow | Source/OS.c:201-203 | every region carved from a locator lies below it, and the locator after them lies 30 words below the last region |
| StackArena.LayoutDisjoint | Source/OS.c:201-203 | successively carved regions are aligned, of the right size, strictly descending and separated by the 30-word guard |
| ContextFrame.FirstSwitchInto | Source/OS.c:206-223 | the first switch into a new task restores r4..r11 as zeros and unstacks R0-R3 and R12 as 0, LR as 0xFFFFFFFD, PC as the entry and xPSR as 0x01000000 |
| ContextFrame.RestoreAfterSave | Source/OS.c:124-159 | restoring 8 saved words gives back the saved r4..r11, and every 8-word image is what the save of its restored registers writes |
| BitwiseOperation.SetBit | Includes/bitwise_operation.h:4 | bit BIT becomes 1 and every other bit is unchanged |
| BitwiseOperation.ClearBit | Includes/bitwise_operation.h:5 | bit BIT becomes 0 and every other bit is unchanged |
| BitwiseOperation.GetBit | Includes/bitwise_operation.h:6 | the result is 0 or 1 and equals bit BIT of REG |
| BitwiseOperation.ToggleBit | Includes/bitwise_operation.h:7 | only bit BIT is flipped |
| BitwiseOperation.SetThenGet | Includes/bitwise_operation.h:4-6 | `GET_BIT` reads 1 right after `SET_BIT` and 0 right after `CLEAR_BIT` |
| BitwiseOperation.ToggleTwice | Includes/bitwise_operation.h:7 | toggling the same bit twice restores REG |
| BitwiseOperation.BitIsSet | Includes/bitwise_operation.h:17 | non-zero exactly when bit BIT is 1, and then it is the mask itself |
| BitwiseOperation.BitIsClear | Includes/bitwise_operation.h:20 | 1 when bit BIT is 0 and 0 when it is 1 |
| BitwiseOperation.SetIffNotClear | Includes/bitwise_operation.h:17-20 | `BIT_IS_SET` is non-zero exactly when `BIT_IS_CLEAR` is 0 |
| BitwiseOperation.Ror | Includes/bitwise_operation.h:11 | on a byte and `num <= 8`, bit i moves to position (i - num) mod 8 |
| BitwiseOperation.Rol | Includes/bitwise_operation.h:14 | on a byte and `num <= 8`, bit i moves to position (i + num) mod 8 |
| BitwiseOperation.RorThenRol | Includes/bitwise_operation.h:11-14 | `ROR` then `ROL` by the same amount restores the byte |
| KernelState.WakeDue | Source/OS.c:286 | the literal wake test holds exactly when `g_tick mod Ticks_Count` is 1 |
| KernelState.PeriodOneNeverWakes | Source/OS.c:286 | under that test a period of 1 never wakes a task |
| KernelState.Admitted | Source/OS.c:61-77 | each enqueued task is set Ready; no other state changes |
| KernelState.Sorted | Source/OS.c:42-50 | the sort changes only the table, which ends sorted |
| KernelState.Scanned | Source/OS.c:52-81 | on the drained queue the scan enqueues the cohort of the table in table order, sets exactly those tasks Ready and changes nothing else |
| KernelState.Refreshed | Source/OS.c:35-83 | a refresh sorts the table, rebuilds the queue as the cohort of the sorted table, sets the queued tasks Ready (a Running one too), moves no task into or out of Suspended, and changes nothing else |
| KernelState.RefreshedQueue | Source/OS.c:53-81 | the rebuilt queue holds distinct tasks, none Suspended, all of the head's priority |
| KernelState.CohortTasks | Source/OS.c:53-81 | the cohort of a table of distinct tasks is distinct, not Suspended and of one priority |
| KernelState.RefreshedEmpty | Source/OS.c:53-81 | the queue is empty after a refresh exactly when every task is Suspended |
| KernelState.RefreshedHead | Source/OS.c:53-81 | the head of the rebuilt queue has the least priority of all tasks that are not Suspended and is the first of them in the sorted table |
| KernelState.RefreshedIdempotent | Source/OS.c:111-113 | a second refresh changes nothing, so the fall-through of codes 0 and 1 with no dispatch does no harm |
| KernelState.RefreshedKeepsOrder | Source/OS.c:42-50 | a refresh leaves a sorted table in place |
| KernelState.RefreshedKeepsTasks | Source/OS.c:42-50 | a refresh keeps every task in the table |
| KernelState.RefreshedAlone | Source/OS.c:53-81 | with one task that is not Suspended, the refresh enqueues it alone and sets it Ready |
| KernelState.RefreshSameSuspension | Source/OS.c:53-81 | on a sorted table, two snapshots that agree on which tasks are Suspended rebuild the same queue |
| KernelState.HandedTo | Source/OS.c:101-109 | the dispatch step: `NextTask` is set Running, the current task is enqueued and set Ready exactly when it has `NextTask`'s priority and is not Suspended, and a switch is pended |
| KernelState.DispatchedKeepsSuspension | Source/OS.c:101-107 | a dispatch to a task that is not Suspended moves no task into or out of Suspended |
| KernelState.SvcSpec | Source/OS.c:94-115 | codes 0 to 2 leave the table sorted; other codes change nothing; the current task and the tick never change |
| KernelState.SvcFaultWhen | Source/OS.c:98-102 | the handler writes through a null `NextTask` exactly when the code is 0 or 1, the kernel runs, the current task is not idle and every task is Suspended |
| KernelState.ActivationNeverFaults | Source/OS.c:233-237 | activating a task of the table never faults |
| KernelState.SvcKeepsTasks | Source/OS.c:94-115 | no code removes a task from the table |
| KernelState.SvcCoherent | Source/OS.c:94-115 | every code keeps the queue, `CurrentTask`, `NextTask` and every known task inside the table |
| KernelState.SvcWithoutDispatch | Source/OS.c:94-114 | code 2, or code 0 or 1 before `OS_Start` or with the idle task current, is one refresh: `CurrentTask` and `NextTask` unchanged and no switch pended |
| KernelState.SvcDispatch | Source/OS.c:97-113 | code 0 or 1 with an eligible task: `NextTask` is the former queue head, a switch is pended, the final queue is the first refresh's, and nothing faults |
| KernelState.SvcDispatchUnfolds | Source/OS.c:97-113 | that case is a refresh, the dispatch step and the fall-through refresh |
| KernelState.DispatchOnRefreshed | Source/OS.c:101-113 | the fall-through refresh after a dispatch rebuilds the same queue and keeps `NextTask` and the pending switch |
| KernelState.SvcDispatchStates | Source/OS.c:101-113 | after a dispatch by code 0 or 1 every queued task is Ready; the current task, if outside the queue, is Ready when it kept its turn; every other task keeps its state |
| KernelState.DispatchStatesOnRefreshed | Source/OS.c:101-113 | the same on a snapshot a refresh leaves as it is |
| KernelState.DispatchedStates | Source/OS.c:102-106 | the dispatch step sets the current task Ready when it keeps its turn and leaves every task other than `NextTask` as it was |
| KernelState.Parked | Source/OS.c:235 | `OS_ActivateTask`, and the wake of a task, change only that task's state, to Waiting |
| KernelState.Held | Source/OS.c:244 | `OS_TerminateTask` and `OS_HoldTask` change only that task's state, to Suspended, keeping the kernel coherent |
| KernelState.Created | Source/OS.c:225-228 | `OS_CreateTask` appends the task to the table, Suspended, keeping the kernel coherent |
| KernelState.Launched | Source/OS.c:265-271 | `OS_Start` runs the kernel with the idle task current and sets it Waiting, keeping the kernel coherent and pending no switch |
| KernelState.LaunchActivates | Source/OS.c:265-271 | the activation inside `OS_Start` sees a coherent running kernel, sets the idle task Waiting exactly as `Launched` does, and pends no switch |
| KernelState.Boot | Source/OS.c:178-184 | `OS_Init` starts from an empty table and queue, the kernel not running |
| KernelState.IdleCreated | Source/OS.c:186-192 | creating the idle task on the empty kernel leaves it alone in the table and the queue, Ready |
| KernelState.IdleParked | Source/OS.c:225-235 | creation and activation of the idle task leave it alone in the table, Waiting |
| KernelState.IdleAlone | Source/OS.c:94-114 | code 0 with the idle task alone and Waiting enqueues it and sets it Ready |
| KernelState.WakeRound | Source/OS.c:284-289 | one round of the wake loop keeps the current and next task, the pending switch and the tick |
| KernelState.RoundKeepsTable | Source/OS.c:288 | on a sorted table the refresh inside a wake round keeps the table |
| KernelState.RoundSuspended | Source/OS.c:284-289 | after round i - 1, the Suspended tasks are those Suspended before and not due among the first i |
| KernelState.ParkedSuspended | Source/OS.c:287-288 | waking entry k and refreshing leaves exactly the other Suspended entries Suspended |
| KernelState.RoundChanges | Source/OS.c:284-289 | a wake round changes a state only to Ready, or from Suspended to Waiting |
| KernelState.Wake | Source/OS.c:283-292 | after the first i rounds on a sorted table, exactly the Suspended tasks that are not due among the first i are still Suspended; every other change is to Ready or from Suspended to Waiting; if no task is due, nothing changes |
| KernelState.WakeStep | Source/OS.c:284-291 | one more round keeps those facts |
| KernelState.WakeFault | Source/OS.c:286 | the loop divides by zero exactly when, in some round, a Suspended blocking task has period 0 |
| KernelState.StallsExtend | Source/OS.c:283-286 | a stall among the first i rounds is one among the first i - 1 or one in round i - 1 |
| KernelState.WakeStarts | Source/OS.c:283 | no round has run yet |
| KernelState.WakeUnfolds | Source/OS.c:283-292 | one more round is a wake round, and it faults exactly when it stalls |
| KernelState.WakeFaultPersists | Source/OS.c:283-292 | once the loop has faulted it stays faulted |
| KernelState.TickDispatched | Source/OS.c:293-307 | the tick dispatch always pends a switch and keeps the table, `CurrentTask` and the tick |
| KernelState.TickDispatch | Source/OS.c:293-306 | with an empty queue and a current task that is not Suspended, that task becomes `NextTask`, Running, alone in the queue; otherwise the head (or, with an empty queue, the old `NextTask`) becomes `NextTask`, Running, and the current task is re-enqueued Ready exactly when it keeps its turn |
| KernelState.Incremented | Source/OS.c:281 | `g_tick++` adds 1 modulo 2^32 |
| KernelState.Woken | Source/OS.c:281-292 | the increment and the wake loop keep the table when it is sorted and keep `CurrentTask` |
| KernelState.Ticked | Source/OS.c:280-308 | the tick increments `g_tick`, keeps `CurrentTask` and the sorted table, and pends a switch |
| KernelState.TickCoherent | Source/OS.c:280-308 | the tick keeps the kernel coherent and the table as it is |
| KernelState.Switched | Source/OS.c:141-142 | after the switch `CurrentTask` is the former `NextTask`, `NextTask` is null and nothing is pending, and the kernel stays coherent |
| Os.Kernel.Table | Source/OS.c:19-23 | the used part of the table has `ActiveTasksNo` entries |
| Os.Kernel.SetState | Source/OS.c:62 | a `TaskState` write changes only that task's state |
| Os.Kernel.Enqueue | Source/OS.c:61 | `FIFO_enqueue` appends at the tail; a full queue is left as it is |
| Os.Kernel.Dequeue | Source/OS.c:101 | `FIFO_dequeue` removes and returns the head, or reports an empty queue |
| Os.Kernel.BubblePass | Source/OS.c:43-49 | one inner pass of the sort swaps the table slots in place as `PassPrefix` says |
| Os.Kernel.Sort | Source/OS.c:42-50 | the nested loops leave the table equal to `BubbleSort` of the old one |
| Os.Kernel.Drain | Source/OS.c:52 | the drain leaves the queue empty |
| Os.Kernel.Scan | Source/OS.c:53-81 | the scan loop builds exactly the `Scanned` snapshot |
| Os.Kernel.ScanStarts | Source/OS.c:41-53 | before the first step nothing is scanned or enqueued |
| Os.Kernel.ScanEnds | Source/OS.c:53-81 | when the loop ends or breaks, the queue is the cohort and exactly those tasks are Ready |
| Os.Kernel.ScanStep | Source/OS.c:55-80 | one step enqueues entry k exactly when it is in the cohort and stops exactly at the cohort's end |
| Os.Kernel.Inspect | Source/OS.c:55-75 | it reads whether entry k is Suspended and whether the next entry ends the run |
| Os.Kernel.ReadState | Source/OS.c:58-60 | the states the scan reads are those before the scan |
| Os.Kernel.Admit | Source/OS.c:61-77 | enqueueing entry k and setting it Ready extends the scanned prefix |
| Os.Kernel.Refresh | Source/OS.c:35-83 | `Update_SchedularTable` builds exactly the `Refreshed` snapshot |
| Os.Kernel.HandOver | Source/OS.c:102-109 | the dispatch step builds exactly the `HandedTo` snapshot |
| Os.Kernel.SvcDispatch | Source/OS.c:101-109 | the dispatch faults exactly on an empty queue and otherwise builds `Dispatched` |
| Os.Kernel.Svc | Source/OS.c:85-116 | `SVC_Handler` builds exactly `SvcSpec` and faults exactly when `SvcFault` says |
| Os.Kernel.SupervisorCall | Source/OS.c:85-116 | an `svc` keeps the kernel invariant and leaves the table sorted |
| Os.Kernel.WakeLoop | Source/OS.c:283-292 | the loop over all `TasksNo` slots faults on a null slot or a period of 0, and otherwise builds `Wake` |
| Os.Kernel.WakeNext | Source/OS.c:283-291 | one iteration extends the wake by one round or reports the stall |
| Os.Kernel.WakeSlot | Source/OS.c:284-290 | the body of the loop for one slot builds `WakeRound` or reports the stall |
| Os.Kernel.TickDispatch | Source/OS.c:293-307 | the dispatch of the tick builds `TickDispatched` or faults exactly as `TickDispatchFault` says |
| Os.Kernel.Tick | Source/OS.c:280-308 | `SysTick_Handler` builds `Ticked`, keeping the invariant, or faults exactly as `TickFault` says |
| Os.Kernel.Push | Source/OS.c:124-125 | one decrement of `Current_PSP` and one store at the new address |
| Os.Kernel.Pop | Source/OS.c:144-145 | one load at `Current_PSP` and one increment |
| Os.Kernel.Save | Source/OS.c:122-139 | `Current_PSP` takes the process stack pointer and drops by 8 words; r4 is at the highest and r11 at the lowest of those words; the rest of the stack is untouched |
| Os.Kernel.Restore | Source/OS.c:144-159 | r11 down to r4 are read back from the 8 words at `Current_PSP`, which rises by 8 |
| Os.Kernel.SwitchStacks | Source/OS.c:122-159 | the save and the restore across two stacks: both stay shaped, the outgoing one keeps a saved image, and switching to the same task needs no saved image and gives back its registers and stack pointer |
| Os.Kernel.PendSV | Source/OS.c:119-166 | `PendSV_Handler` builds `Switched`, keeps the invariant, saves and restores as above and returns the new process stack pointer; the incoming task needs a saved image only when it differs from the outgoing one |
| Os.Kernel.InitStack | Source/OS.c:206-223 | the top 16 words become the initial frame, `Current_PSP` is the start less 16 words, and nothing else of the stack changes |
| Os.Kernel.CarveStack | Source/OS.c:201-203 | the task's region is carved at the locator and the locator moves below it |
| Os.Kernel.CreateTask | Source/OS.c:199-231 | the task gets its region and initial frame, is appended to the table, activated, and the kernel builds `SvcSpec(Parked(Created(...)), 0)` |
| Os.Kernel.Enter | Source/OS.c:225-229 | the table entry and the activation |
| Os.Kernel.Append | Source/OS.c:225-228 | the task goes into slot `ActiveTasksNo`, the count rises by 1 and the task is Suspended |
| Os.Kernel.ActivateTask | Source/OS.c:233-239 | the task is set Waiting and code 0 is issued |
| Os.Kernel.Suspend | Source/OS.c:242-256 | the task is set Suspended and code 1 is issued |
| Os.Kernel.TerminateTask | Source/OS.c:242-247 | as `Suspend` |
| Os.Kernel.HoldTask | Source/OS.c:250-256 | as `Suspend` |
| Os.Kernel.GetTime | Source/OS.c:257-261 | returns `g_tick` |
| Os.Kernel.Start | Source/OS.c:263-271 | the kernel runs with the idle task current, activated, and no switch pending |
| Os.Kernel.constructor | Source/OS.c:178-192 | the main stack and the first locator are placed and the idle task (300 bytes, priority 20, not blocking) is created, alone in the queue, Ready; its region is the one carved at the first locator, the locator then stands a guard gap below it, and its stack holds the initial frame with `Current_PSP` at its base |
| Os.BinarySemaphore.constructor | Includes/OS.h:63-69 | a semaphore with no holder and no waiter |
| Os.BinarySemaphore.Enlist | Source/OS.c:314 | the waiter slot takes the task |
| Os.BinarySemaphore.Release | Source/OS.c:327-328 | the waiter becomes the holder and the waiter slot is cleared |
| Os.SemaphoreTake | Source/OS.c:311-322 | with an empty waiter slot the caller is recorded, set Suspended and code 1 is issued; with the slot taken nothing changes |
| Os.SemaphoreGive | Source/OS.c:325-332 | the waiter becomes the holder and is set Waiting and code 0 is issued; with no waiter the handler faults and the kernel is unchanged |

## Left out

- Inline assembly and hardware effects are not modelled, because they are outside the scheduler's logic:
  - `CPSID`/`CPSIE` interrupt masking;
  - the `mrs`/`msr` of PSP and CONTROL, `OS_SET_SP_TO_PSP` and the switch to unprivileged mode;
  - the `BX LR` return, the jump to the idle task's entry at the end of `OS_Start`, and the `wfe` loop of the idle task;
  - the NVIC priority write at the end of `OS_Init`.
- The register values come in as parameters, because registers are not program state:
  - the registers r4..r11 and the process stack pointer enter `PendSV` as parameters (`regs`, `psp`);
  - the restored registers and the new PSP are returned;
  - the hardware-stacked frame of the interrupted task is not written by the model.
- The SVC number that `SVC_Handler` reads from the instruction stream is the parameter `code` of `Svc`. The decode itself is not modelled.
- `Systick_Start` (Source/systick.c) is left out and is not part of this model: the tick source is a call of `Tick`.
- Concurrency between exception levels is not modelled, because that needs a model of preemption:
  - each handler is one atomic method;
  - `Svc`, `Suspend`, `ActivateTask`, `CreateTask` and the semaphore calls require that no switch is pending, since PendSV, at the lowest priority, runs before thread code resumes.
- The FIFO (`MY_RTOS_FIFO.h`) is not part of this model, so its behaviour is assumed:
  - it is a bounded queue of capacity 10, and a full queue drops the new entry; the kernel invariant keeps the queue at most as long as the table (9), so that case never arises;
  - the `counter` test of the tick handler is a test for the empty queue;
  - a dequeue from an empty queue leaves its out-parameter as it was, so a dispatch that finds the queue empty leaves `NextTask` unchanged.
- The scan's look-ahead `pNextTask = Tasks[k+1]` at `k = ActiveTasksNo - 1` is not read, and its `->TaskState` read is not a fault. The scan reads that slot only when it reaches the last used slot without a `break` and finds that task not Suspended, that is, when no earlier task that is not Suspended is followed by a Suspended one or by one of a different priority. On such a refresh the C code dereferences a null pointer when fewer than 9 tasks exist (OS_Init's first refresh, with the idle task alone, is one) and reads past the array when 9 exist. The model leaves this out because, at that k, every branch either enqueues the task and breaks or enqueues it and ends the loop, so the value read cannot change the outcome. The tick loop's null slot is a fault because there the value read decides whether the loop writes through the pointer and divides by its period.
- The task name and the `strcmp` against "IDLETASK" are replaced by the flag `isIdle`.
- The `*(Current_PSP) &= 0x0` writes before each store of the initial frame are not modelled, because the following store overwrites them.
- `PreviousTask`, `BinarySemaphoreName`, `OS_Cfg.c` and `main.c` are not modelled, because the core does not use them; the configuration is a parameter of each `Task`.
- Os.Kernel.CreateTask: requires a task that is not yet in the table and a stack of at least 64 bytes. The source checks neither. With a smaller stack, the 16-word frame is written below the carved region.
- Os.Kernel.CreateTask: requires a slot left in the table (`ActiveTasksNo < TasksNo`). The source writes past the array otherwise.
- Os.Kernel.PendSV: the stacks are stated task by task, not as an invariant of the whole kernel:
  - `PendSV` requires a shaped stack of each of the two tasks it switches, with a saved image on the incoming one, and the PSP inside the outgoing one;
  - `CreateTask` and the constructor establish those facts for a new task;
  - `PendSV` keeps both stacks shaped and leaves a saved image on the outgoing task when it differs from the incoming one; a switch of a task to itself, as the tick pends when the current task keeps running, needs no saved image, since the save rewrites `Current_PSP` before the restore reads it;
  - that the regions of different tasks are disjoint is proved on the arena arithmetic (`StackArena.LayoutDisjoint`), not carried on the heap.
- Os.Kernel.Tick: requires `OS_Start` to have been called, as the tick is started there.
- Os.Kernel.Start: requires that the kernel has not started yet and that the idle task is in the table; the source does not check either.
- Os.Kernel.TerminateTask and Os.Kernel.HoldTask: both call `Suspend`, because they have the same body in the source.
- BitwiseOperation.SetBit, ClearBit, ToggleBit, GetBit, BitIsSet and BitIsClear: require `BIT < 31`, because `1 << 31` overflows the C macros' signed `int`.
- BitwiseOperation.Ror and Rol: require `num <= 8`, as the macros shift by `8 - num`.
