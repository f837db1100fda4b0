/**
 * The scheduler and context-switch engine of Source/OS.c: the `OS_Control`
 * block, the ready FIFO and the tick counter as one `Kernel` object, and the
 * handlers and services as its methods.
 *
 * The exception layer is made explicit: an `svc #n` instruction is a call
 * `Svc(n)`, a tick interrupt a call `Tick()`, and setting PENDSVSET records
 * `pendSV`; `PendSV(...)` is the pended handler when it runs.  Each handler
 * runs to completion.  Every handler is proved to move the kernel's snapshot
 * `View()` as the function of module `KernelState` it is named after does.
 * A write through a null pointer or a division by zero is reported as a
 * `fault`; the kernel is then left as it was at that point.
 */
module Os {
  import opened Tasks
  import opened Scheduling
  import opened StackArena
  import opened ContextFrame
  import opened KernelState

  class Kernel {
    /** `OS_Control.Tasks`: slots `[0, activeTasksNo)` hold the created tasks. */
    const tasks: array<Task?>
    var activeTasksNo: nat
    /** `_S_MSP_Task`, `_E_MSP_Task`, `_PSP_TaskLocator` (word addresses). */
    var mainStackStartW: int
    var mainStackEndW: int
    var locatorW: int
    var current: Task?
    var next: Task?
    /** `OS_STATE == Running`. */
    var started: bool
    /** The contents of the ready FIFO, head first. */
    var ready: seq<Task>
    /** `g_tick`. */
    var gTick: Word
    /** PENDSVSET is set: a context switch is pending. */
    var pendSV: bool
    /** The field `TaskState` of every created descriptor. */
    var states: map<Task, TaskState>
    /** The statically allocated `Idletask`. */
    const idle: Task

    /** The table array has `TasksNo` slots, the first `activeTasksNo` of them set. */
    predicate TableShaped()
      reads this`activeTasksNo, tasks
    {
      && tasks.Length == TasksNo
      && activeTasksNo <= TasksNo
      && (forall i :: 0 <= i < activeTasksNo ==> tasks[i] != null)
    }

    /** The used part of the table. */
    function Table(): (ts: seq<Task>)
      reads this`activeTasksNo, tasks
      requires TableShaped()
      ensures |ts| == activeTasksNo
    {
      tasks[..activeTasksNo]
    }

    /** The kernel as the scheduler sees it. */
    ghost function View(): Control
      reads this`activeTasksNo, tasks, this`states, this`ready,
            this`current, this`next, this`started, this`pendSV, this`gTick
      requires TableShaped()
    {
      Control(Table(), states, ready, current, next, started, pendSV, gTick)
    }

    /**
     * The kernel invariant between handlers: the table is shaped, the
     * snapshot is coherent and the table is sorted by priority.
     */
    ghost predicate Valid()
      reads this`activeTasksNo, tasks, this`states, this`ready,
            this`current, this`next, this`started, this`pendSV, this`gTick
    {
      TableShaped() && Coherent(View()) && PrioritySorted(Table())
    }

    /**
     * The stack of a created task: its region is double-word aligned, its
     * words are `stack`, and its saved stack pointer lies in the region.
     */
    static ghost predicate StackShaped(t: Task)
      reads t`stackStartW, t`stackEndW, t`stack, t`currentPsp
    {
      && Aligned8(t.stackStartW) && Aligned8(t.stackEndW)
      && t.stack.Length == t.stackStartW - t.stackEndW
      && t.stackEndW <= t.currentPsp <= t.stackStartW
    }

    /** A task that is not running has its r4..r11 image saved above its stack pointer. */
    static ghost predicate ImageSaved(t: Task)
      reads t`stackStartW, t`currentPsp
    {
      t.currentPsp + SavedWords <= t.stackStartW
    }

    // `Valid()` is the invariant of the handlers; only its first two
    // conjuncts, `TableShaped() && Coherent(View())`, hold between a change
    // to the table and the refresh that sorts it.  The stacks are stated task by task: `CreateTask`
    // builds a shaped stack with a saved image, and `PendSV` needs and keeps
    // that of the two tasks it switches.

    /** `Task->TaskState = st`. */
    method SetState(t: Task, st: TaskState)
      modifies this`states
      ensures states == old(states)[t := st]
    {
      states := states[t := st];
    }

    /** `FIFO_enqueue`: appends at the tail; a full queue is left as it is. */
    method Enqueue(t: Task)
      modifies this`ready
      ensures ready == Enqueued(old(ready), t)
    {
      if |ready| < QueueCapacity {
        ready := ready + [t];
      }
    }

    /** `FIFO_dequeue`: removes and returns the head, or reports an empty queue. */
    method Dequeue() returns (empty: bool, head: Task?)
      modifies this`ready
      ensures empty <==> old(ready) == []
      ensures !empty ==> head == old(ready)[0] && ready == old(ready)[1..]
      ensures empty ==> head == null && ready == []
    {
      if ready == [] {
        empty, head := true, null;
      } else {
        empty, head := false, ready[0];
        ready := ready[1..];
      }
    }

    /**
     * One pass of the bubble sort of `Update_SchedularTable` (the inner loop):
     * compares the adjacent entries below `m` in ascending order, swapping a
     * pair whose first entry has the greater priority.
     */
    method BubblePass(m: nat)
      requires TableShaped() && m < activeTasksNo
      modifies tasks
      ensures TableShaped()
      ensures Table() == PassPrefix(old(Table()), m)
    {
      ghost var before := Table();
      var j := 0;
      while j < m
        invariant 0 <= j <= m
        invariant TableShaped()
        invariant Table() == PassPrefix(before, j)
      {
        ghost var prev := Table();
        if tasks[j].priority > tasks[j + 1].priority {
          var temp := tasks[j];
          tasks[j] := tasks[j + 1];
          tasks[j + 1] := temp;
        }
        assert Table() == SwapIfGreater(prev, j);
        j := j + 1;
      }
    }

    /**
     * The bubble sort of `Update_SchedularTable`, in place on the table: the
     * outer loop runs `activeTasksNo - 1` passes, pass `i` covering the
     * entries below `activeTasksNo - i`.
     */
    method Sort()
      requires TableShaped() && activeTasksNo >= 1
      modifies tasks
      ensures TableShaped()
      ensures Table() == BubbleSort(old(Table()))
    {
      var n := activeTasksNo;
      ghost var t0 := Table();
      var i := 0;
      while i < n - 1
        invariant 0 <= i <= n - 1
        invariant TableShaped()
        invariant Table() == Passes(t0, i)
      {
        BubblePass(n - i - 1);
        i := i + 1;
      }
    }

    /** The drain loop of `Update_SchedularTable`: dequeues until the queue reports empty. */
    method Drain()
      modifies this`ready
      ensures ready == []
    {
      var empty := false;
      while !empty
        invariant empty ==> ready == []
        decreases |ready|, if empty then 0 else 1
      {
        var dummy;
        empty, dummy := Dequeue();
      }
    }

    /**
     * The scan of `Update_SchedularTable` on an empty queue: walks the table,
     * skipping Suspended entries, enqueues the first one that is not and each
     * following entry of the same priority that is not Suspended, setting each
     * enqueued task Ready, and stops at the first entry that breaks the run.
     * The look-ahead at the last entry is not read: every outcome of it
     * enqueues the entry and ends the loop.
     */
    method Scan(ghost c: Control)
      requires TableShaped() && Wf(c) && c.ready == [] && View() == c
      modifies this`ready, this`states
      ensures View() == Scanned(c)
    {
      hide Scanning, SlotsOf, Admitted, Cohort, FirstEligible, RunEnd, Wf;
      var n := activeTasksNo;
      ghost var lo := 0;
      var k := 0;
      var stop := false;
      ScanStarts(c);
      while k < n && !stop
        invariant TableShaped() && Table() == c.table && k <= n
        invariant Scanning(c, k, lo, stop, ready, states)
      {
        lo, stop := ScanStep(c, lo, k);
        k := k + 1;
      }
      ScanEnds(c, k, lo, stop, ready, states);
    }

    /**
     * The scan after entries `[0, k)`: the queue `q` holds entries `[lo, k)`,
     * each set Ready in `st`; before the cohort nothing is admitted, inside it
     * the entries from its start, and `stop` is set once it is complete.
     */
    static ghost predicate Scanning(c: Control, k: nat, lo: nat, stop: bool, q: seq<Task>, st: map<Task, TaskState>)
      requires Wf(c)
    {
      var r := Cohort(SlotsOf(c.table, c.state));
      && k <= r.hi && lo <= k
      && (k <= r.lo ==> lo == k && !stop)
      && (r.lo < k ==> lo == r.lo && (stop <==> k == r.hi))
      && q == c.table[lo..k] && st == Admitted(c.state, c.table[lo..k])
    }

    /** Before the scan nothing is admitted. */
    static lemma ScanStarts(c: Control)
      requires Wf(c)
      ensures Scanning(c, 0, 0, false, [], c.state)
    {
      assert c.table[0..0] == [] && Admitted(c.state, []) == c.state;
    }

    /** A scan that reached the end of the table or was stopped has enqueued the cohort. */
    static lemma ScanEnds(c: Control, k: nat, lo: nat, stop: bool, q: seq<Task>, st: map<Task, TaskState>)
      requires Wf(c) && k <= |c.table| && Scanning(c, k, lo, stop, q, st) && (k == |c.table| || stop)
      ensures var r := Cohort(SlotsOf(c.table, c.state));
              q == c.table[r.lo..r.hi] && st == Admitted(c.state, q)
    {
    }

    /** One round of the scan: entry `k` is skipped, admitted, or admitted as the cohort's last. */
    method ScanStep(ghost c: Control, ghost lo: nat, k: nat) returns (ghost lo': nat, stop: bool)
      requires TableShaped() && Wf(c) && Table() == c.table && k < |c.table|
      requires Scanning(c, k, lo, false, ready, states)
      modifies this`ready, this`states
      ensures Scanning(c, k + 1, lo', stop, ready, states)
    {
      CohortStep(SlotsOf(c.table, c.state), k);
      var admit, last := Inspect(c, lo, k);
      if admit {
        lo', stop := lo, last;
        Admit(c, lo, k);
      } else {
        assert c.table[lo..k] == [] == c.table[k + 1..k + 1];
        lo', stop := k + 1, false;
      }
    }

    /**
     * The tests of one round of the scan, while `[lo, k)` is admitted: entry
     * `k` is admitted when it is not Suspended, and is then the last one
     * when it is the last entry of the table or the look-ahead at entry
     * `k + 1` finds it Suspended or of a lower or higher priority.
     */
    method Inspect(ghost c: Control, ghost lo: nat, k: nat) returns (admit: bool, last: bool)
      requires TableShaped() && Wf(c) && lo <= k < |c.table| && Table() == c.table
      requires states == Admitted(c.state, c.table[lo..k])
      ensures var v := SlotsOf(c.table, c.state);
              && (admit <==> !v[k].suspended)
              && (admit ==> last == (k == |v| - 1 || v[k + 1].suspended || v[k].priority != v[k + 1].priority))
    {
      var pTask := tasks[k];
      ReadState(c, lo, k, k);
      admit, last := states[pTask] != Suspended, false;
      if admit {
        if k == activeTasksNo - 1 {
          last := true;
        } else {
          var pNextTask := tasks[k + 1];
          ReadState(c, lo, k, k + 1);
          last := states[pNextTask] == Suspended || pTask.priority < pNextTask.priority
                  || pTask.priority > pNextTask.priority;
        }
      }
    }

    /** While the scan admits `[lo, k)`, entry `j` from `k` on still has its state from before the scan. */
    lemma ReadState(c: Control, lo: nat, k: nat, j: nat)
      requires TableShaped() && Wf(c) && lo <= k <= j < |c.table| && Table() == c.table
      requires states == Admitted(c.state, c.table[lo..k])
      ensures tasks[j] in states && states[tasks[j]] == c.state[c.table[j]]
      ensures (states[tasks[j]] == Suspended) == SlotsOf(c.table, c.state)[j].suspended
    {
      OutsideSlice(c.table, lo, k, j);
    }

    /** The scan enqueues entry `k` and sets it Ready. */
    method Admit(ghost c: Control, ghost lo: nat, k: nat)
      requires TableShaped() && Wf(c) && lo <= k < |c.table| && Table() == c.table
      requires ready == c.table[lo..k] && states == Admitted(c.state, c.table[lo..k])
      modifies this`ready, this`states
      ensures ready == c.table[lo..k + 1] && states == Admitted(c.state, c.table[lo..k + 1])
    {
      var pTask := tasks[k];
      assert c.table[lo..k + 1] == c.table[lo..k] + [pTask];
      AdmittedSnoc(c.state, c.table[lo..k], pTask);
      Enqueue(pTask);
      SetState(pTask, Ready);
    }

    /**
     * `Update_SchedularTable`: sorts the table, empties the ready queue and
     * fills it with the cohort of the sorted table (`Refreshed` states what
     * that leaves).
     */
    method Refresh(ghost c: Control)
      requires TableShaped() && Wf(c) && |c.table| >= 1 && View() == c
      modifies tasks, this`ready, this`states
      ensures TableShaped() && View() == Refreshed(c)
    {
      Sort();
      Drain();
      Scan(Sorted(c).(ready := []));
    }

    /**
     * The dispatch step shared by both handlers, once `NextTask` holds `nxt`
     * and `q` is left in the queue: `nxt` is set Running, the current task is
     * re-enqueued and set Ready when it has `nxt`'s priority and is not
     * Suspended, and a switch is pended.
     */
    method HandOver(ghost c: Control, ghost nxt: Task, ghost q: seq<Task>)
      requires TableShaped() && Wf(c) && c.started && nxt in c.state
      requires |q| < |c.table| && forall i :: 0 <= i < |q| ==> q[i] in c.state
      requires View() == c.(ready := q, next := nxt)
      modifies this`ready, this`pendSV, this`states
      ensures View() == HandedTo(c, nxt, q)
    {
      SetState(next, Running);
      if current.priority == next.priority && states[current] != Suspended {
        Enqueue(current);
        SetState(current, Ready);
      }
      pendSV := true;
    }

    /**
     * The dispatch of codes 0 and 1 of `SVC_Handler`: dequeues into
     * `NextTask`, whose state is then written; an empty queue leaves it null
     * and the write faults.
     */
    method SvcDispatch(ghost c: Control) returns (fault: bool)
      requires TableShaped() && Wf(c) && c.started && !c.pendSV && View() == c
      modifies this`ready, this`next, this`pendSV, this`states
      ensures fault <==> c.ready == []
      ensures fault ==> View() == c
      ensures !fault ==> View() == Dispatched(c)
    {
      var empty, head := Dequeue();
      if empty {
        return true;
      }
      next := head;
      HandOver(c, head, c.ready[1..]);
      fault := false;
    }

    /**
     * `SVC_Handler` with the decoded number `code`: codes 0 and 1 refresh,
     * dispatch once the kernel runs and the current task is not the idle
     * task, and fall through into the refresh of code 2; other codes do
     * nothing.
     */
    method Svc(code: Word) returns (fault: bool)
      requires TableShaped() && Wf(View()) && activeTasksNo >= 1 && !pendSV
      modifies tasks, this`ready, this`next, this`pendSV, this`states
      ensures TableShaped()
      ensures fault == SvcFault(old(View()), code)
      ensures View() == SvcSpec(old(View()), code)
    {
      hide Refreshed, Sorted, Scanned, HandedTo;
      fault := false;
      if code == 0 || code == 1 {
        Refresh(View());
        if started && !current.isIdle {
          fault := SvcDispatch(View());
          if fault {
            return;
          }
        }
        Refresh(View());
      } else if code == 2 {
        Refresh(View());
      }
    }

    /**
     * An `svc` instruction from thread code: the handler keeps the kernel
     * sound and leaves the table sorted.
     */
    method SupervisorCall(code: Word) returns (fault: bool)
      requires (TableShaped() && Coherent(View())) && activeTasksNo >= 1 && !pendSV && code <= 2
      modifies tasks, this`ready, this`next, this`pendSV, this`states
      ensures Valid()
      ensures fault == SvcFault(old(View()), code)
      ensures View() == SvcSpec(old(View()), code)
    {
      ghost var c := View();
      SvcCoherent(c, code);
      fault := Svc(code);
    }

    /**
     * The wake loop of `SysTick_Handler`, over all `TasksNo` slots: a slot
     * past the created tasks is a null pointer, and a Suspended blocking task
     * with a zero period is a division by zero; both fault.
     */
    method WakeLoop(ghost c: Control) returns (fault: bool)
      requires TableShaped() && Wf(c) && View() == c
      modifies tasks, this`ready, this`states
      ensures TableShaped()
      ensures fault == (|c.table| < TasksNo || WakeFault(c, |c.table|))
      ensures !fault ==> View() == Wake(c, |c.table|)
    {
      hide Wake, WakeFault, WakeRound, Refreshed, Parked, Wf;
      WakeStarts(c);
      var i := 0;
      while i < activeTasksNo
        invariant 0 <= i <= |c.table| && activeTasksNo == |c.table|
        invariant TableShaped() && View() == Wake(c, i) && !WakeFault(c, i)
      {
        var stalled := WakeNext(c, i);
        if stalled {
          WakeFaultPersists(c, i + 1, |c.table|);
          return true;
        }
        i := i + 1;
      }
      assert i == |c.table|;
      // The next slot, if the loop reaches one, holds a null pointer.
      fault := activeTasksNo < TasksNo;
    }

    /** Round `i` of the wake loop, after rounds `0 .. i - 1` that did not stall. */
    method WakeNext(ghost c: Control, i: nat) returns (stalled: bool)
      requires TableShaped() && Wf(c) && i < |c.table| && activeTasksNo == |c.table|
      requires View() == Wake(c, i) && !WakeFault(c, i)
      modifies tasks, this`ready, this`states
      ensures TableShaped() && activeTasksNo == |c.table|
      ensures stalled == WakeFault(c, i + 1)
      ensures !stalled ==> View() == Wake(c, i + 1)
    {
      WakeUnfolds(c, i);
      stalled := WakeSlot(Wake(c, i), i);
    }

    /**
     * Round `i` of the wake loop: a Suspended blocking task in slot `i` is
     * set Waiting and the table refreshed when its period is due; a zero
     * period stalls the loop.
     */
    method WakeSlot(ghost d: Control, i: nat) returns (stalled: bool)
      requires TableShaped() && Wf(d) && i < |d.table| && View() == d
      modifies tasks, this`ready, this`states
      ensures TableShaped()
      ensures stalled == Stalls(d, i)
      ensures !stalled ==> View() == WakeRound(d, i)
    {
      var t := tasks[i];
      stalled := false;
      if states[t] == Suspended {
        if t.blocking == BlockingEnabled {
          if t.ticksCount == 0 {
            return true;
          }
          if WakeDue(gTick, t.ticksCount) {
            SetState(t, Waiting);
            Refresh(Parked(d, t));
          }
        }
      }
    }

    /**
     * The dispatch of `SysTick_Handler`: with an empty queue and a current
     * task that is not Suspended, that task keeps the processor; otherwise
     * the head of the queue, if any, becomes `NextTask` and the dispatch step
     * follows.  A null `NextTask` faults.
     */
    method TickDispatch(ghost c: Control) returns (fault: bool)
      requires TableShaped() && Wf(c) && c.started && |c.table| >= 1 && View() == c
      modifies this`ready, this`next, this`pendSV, this`states
      ensures fault == TickDispatchFault(c)
      ensures fault ==> View() == c
      ensures !fault ==> View() == TickDispatched(c)
    {
      if ready == [] && states[current] != Suspended {
        SetState(current, Running);
        Enqueue(current);
        next := current;
        pendSV := true;
      } else {
        var empty, head := Dequeue();
        if !empty {
          next := head;
        }
        if next == null {
          return true;
        }
        HandOver(c, next, if empty then [] else c.ready[1..]);
      }
      fault := false;
    }

    /**
     * `SysTick_Handler`: advances `g_tick` modulo 2^32, runs the wake loop
     * and the dispatch.
     */
    method Tick() returns (fault: bool)
      requires Valid() && started
      modifies tasks, this`ready, this`next, this`pendSV, this`states, this`gTick
      ensures fault == TickFault(old(View()))
      ensures !fault ==> Valid() && View() == Ticked(old(View()))
    {
      ghost var c := View();
      gTick := (gTick + 1) % TickModulus;
      ghost var c1 := c.(tick := Incremented(c.tick));
      fault := WakeLoop(c1);
      if fault {
        return;
      }
      ghost var w := Woken(c);
      fault := TickDispatch(w);
      if !fault {
        TickCoherent(c);
      }
    }

    /** One `Current_PSP--` and store of `w` on task `t`'s stack. */
    static method Push(t: Task, w: Word)
      requires t.stack.Length == t.stackStartW - t.stackEndW
      requires t.stackEndW < t.currentPsp <= t.stackStartW
      modifies t`currentPsp, t.stack
      ensures t.currentPsp == old(t.currentPsp) - 1
      ensures t.stack[..] == old(t.stack[..])[t.currentPsp - t.stackEndW := w]
    {
      t.currentPsp := t.currentPsp - 1;
      t.stack[t.Index(t.currentPsp)] := w;
    }

    /** One load from task `t`'s stack and `Current_PSP++`. */
    static method Pop(t: Task) returns (w: Word)
      requires t.stack.Length == t.stackStartW - t.stackEndW
      requires t.stackEndW <= t.currentPsp < t.stackStartW
      modifies t`currentPsp
      ensures w == t.stack[old(t.currentPsp) - t.stackEndW]
      ensures t.currentPsp == old(t.currentPsp) + 1
    {
      w := t.stack[t.Index(t.currentPsp)];
      t.currentPsp := t.currentPsp + 1;
    }

    /**
     * The save half of `PendSV_Handler`: `Current_PSP` takes the process
     * stack pointer `psp`, and r4..r11 (`regs`) are pushed below it, r4
     * first.
     */
    static method Save(t: Task, psp: int, regs: seq<Word>)
      requires t.stack.Length == t.stackStartW - t.stackEndW
      requires t.stackEndW + SavedWords <= psp <= t.stackStartW && |regs| == SavedWords
      modifies t`currentPsp, t.stack
      ensures t.currentPsp == psp - SavedWords
      ensures var lo := psp - SavedWords - t.stackEndW;
              && t.stack[lo..lo + SavedWords] == SavedImage(regs)
              && t.stack[..lo] == old(t.stack[..lo])
              && t.stack[lo + SavedWords..] == old(t.stack[lo + SavedWords..])
    {
      ghost var s0 := t.stack[..];
      ghost var lo := psp - SavedWords - t.stackEndW;
      t.currentPsp := psp;
      Push(t, regs[0]);
      Push(t, regs[1]);
      Push(t, regs[2]);
      Push(t, regs[3]);
      Push(t, regs[4]);
      Push(t, regs[5]);
      Push(t, regs[6]);
      Push(t, regs[7]);
      assert forall j :: 0 <= j < |s0| ==> t.stack[j] == if lo <= j < lo + SavedWords then regs[lo + SavedWords - 1 - j] else s0[j];
      assert t.stack[lo..lo + SavedWords] == SavedImage(regs);
      assert t.stack[..lo] == s0[..lo];
      assert t.stack[lo + SavedWords..] == s0[lo + SavedWords..];
    }

    /**
     * The restore half of `PendSV_Handler`: r11 down to r4 are popped from
     * task `t`'s stack, r11 first; the result lists r4..r11.
     */
    static method Restore(t: Task) returns (regs: seq<Word>)
      requires t.stack.Length == t.stackStartW - t.stackEndW
      requires t.stackEndW <= t.currentPsp && t.currentPsp + SavedWords <= t.stackStartW
      modifies t`currentPsp
      ensures t.currentPsp == old(t.currentPsp) + SavedWords
      ensures var lo := old(t.currentPsp) - t.stackEndW;
              regs == RestoredRegisters(t.stack[lo..lo + SavedWords])
    {
      ghost var lo := t.currentPsp - t.stackEndW;
      var r11 := Pop(t);
      var r10 := Pop(t);
      var r9 := Pop(t);
      var r8 := Pop(t);
      var r7 := Pop(t);
      var r6 := Pop(t);
      var r5 := Pop(t);
      var r4 := Pop(t);
      regs := [r4, r5, r6, r7, r8, r9, r10, r11];
    }

    /**
     * `PendSV_Handler`, entered with the process stack pointer `psp` of the
     * current task (its hardware frame already stacked) and its registers
     * r4..r11 in `regs`: saves them on the outgoing task's stack, makes
     * `NextTask` current, clears `NextTask`, and restores the incoming task's
     * r4..r11, returning them and its new process stack pointer.  Taking the
     * exception clears the pending bit.
     */
    method PendSV(psp: int, regs: seq<Word>) returns (newPsp: int, restored: seq<Word>)
      requires Valid() && pendSV && |regs| == SavedWords
      requires StackShaped(current) && StackShaped(next) && (current != next ==> ImageSaved(next))
      requires current != next ==> current.stack != next.stack
      requires current.stackEndW + SavedWords <= psp <= current.stackStartW
      modifies this`current, this`next, this`pendSV, current`currentPsp, current.stack, next`currentPsp
      ensures Valid()
      ensures View() == Switched(old(View()))
      ensures StackShaped(old(current)) && StackShaped(current)
      ensures old(next) != old(current) ==> ImageSaved(old(current))
      ensures var out := old(current);
              var lo := psp - SavedWords - out.stackEndW;
              && out.stack[lo..lo + SavedWords] == SavedImage(regs)
      ensures old(next) != old(current) ==>
                && old(current).currentPsp == psp - SavedWords
                && var inn := old(next);
                   var lo := old(inn.currentPsp) - inn.stackEndW;
                   && restored == RestoredRegisters(inn.stack[lo..lo + SavedWords])
                   && newPsp == inn.currentPsp == old(inn.currentPsp) + SavedWords
      ensures old(next) == old(current) ==> restored == regs && newPsp == psp == current.currentPsp
    {
      hide SvcSpec, Refreshed, Sorted, Scanned, Dispatched, HandedTo, Coherent, Wf, PrioritySorted;
      ghost var c := View();
      CoherentWf(c);
      ghost var d := Switched(c);
      var out, inn := current, next;
      newPsp, restored := SwitchStacks(out, inn, psp, regs);
      assert View() == c;
      current, next, pendSV := inn, null, false;
    }

    /**
     * The stack work of `PendSV_Handler`: r4..r11 (`regs`) are saved below
     * the process stack pointer `psp` of the outgoing task `out`, and the
     * incoming task `inn`'s r4..r11 are restored.  Both stacks stay shaped,
     * and the outgoing one, unless it is also the incoming one, keeps a saved
     * image.
     */
    static method SwitchStacks(out: Task, inn: Task, psp: int, regs: seq<Word>)
        returns (newPsp: int, restored: seq<Word>)
      requires StackShaped(out) && StackShaped(inn) && (inn != out ==> ImageSaved(inn)) && |regs| == SavedWords
      requires inn != out ==> out.stack != inn.stack
      requires out.stackEndW + SavedWords <= psp <= out.stackStartW
      modifies out`currentPsp, out.stack, inn`currentPsp
      ensures StackShaped(out) && StackShaped(inn)
      ensures inn != out ==> ImageSaved(out)
      ensures var lo := psp - SavedWords - out.stackEndW;
              && out.stack[lo..lo + SavedWords] == SavedImage(regs)
              && out.stack[..lo] == old(out.stack[..lo])
              && out.stack[lo + SavedWords..] == old(out.stack[lo + SavedWords..])
      ensures inn != out ==>
                && out.currentPsp == psp - SavedWords
                && var lo := old(inn.currentPsp) - inn.stackEndW;
                   && restored == RestoredRegisters(inn.stack[lo..lo + SavedWords])
                   && newPsp == inn.currentPsp == old(inn.currentPsp) + SavedWords
      ensures inn == out ==> restored == regs && newPsp == psp == inn.currentPsp
    {
      Save(out, psp, regs);
      restored := Restore(inn);
      newPsp := inn.currentPsp;
      if inn == out {
        RestoreAfterSave(regs, SavedImage(regs));
      }
    }

    /**
     * The frame `OS_CreateTask` builds below `_S_PSP_Task`: xPSR, the entry
     * point and EXC_RETURN, then 13 zero words for R12 and R0-R3 and the
     * r4..r11 image.
     */
    method InitStack(t: Task)
      requires t.stack.Length == t.stackStartW - t.stackEndW
      requires t.stackEndW + FrameWords <= t.stackStartW
      modifies t`currentPsp, t.stack
      ensures t.currentPsp == t.stackStartW - FrameWords
      ensures t.stack[t.stack.Length - FrameWords..] == InitialFrame(t.entry)
      ensures t.stack[..t.stack.Length - FrameWords] == old(t.stack[..t.stack.Length - FrameWords])
    {
      ghost var s0 := t.stack[..];
      var top := t.stack.Length;
      t.currentPsp := t.stackStartW;
      Push(t, InitialXpsr);
      Push(t, t.entry);
      Push(t, ExcReturnThreadPsp);
      var i := 0;
      while i < 13
        invariant 0 <= i <= 13
        invariant t.currentPsp == t.stackStartW - 3 - i
        invariant t.stack.Length == top
        invariant t.stack[top - 3..] == [ExcReturnThreadPsp, t.entry, InitialXpsr]
        invariant forall j :: top - 3 - i <= j < top - 3 ==> t.stack[j] == 0
        invariant t.stack[..top - 3 - i] == s0[..top - 3 - i]
      {
        Push(t, 0);
        i := i + 1;
      }
      assert forall j :: 0 <= j < FrameWords ==> t.stack[top - FrameWords..][j] == InitialFrame(t.entry)[j];
    }

    /**
     * `OS_CreateTask`: carves the task's stack region below the locator and
     * moves the locator a guard gap further down, builds the initial frame,
     * appends the task to the table as Suspended and activates it.
     */
    method CreateTask(t: Task)
      requires Valid() && !pendSV && t !in states && activeTasksNo < TasksNo
      requires Aligned8(locatorW) && 4 * FrameWords <= t.stackSize
      modifies tasks, this`activeTasksNo, this`states, this`ready, this`next, this`pendSV, this`locatorW
      modifies t`stackStartW, t`stackEndW, t`stack, t`currentPsp
      ensures Valid() && Aligned8(locatorW)
      ensures Region(t.stackStartW, t.stackEndW) == Carve(old(locatorW), t.stackSize)
      ensures locatorW == NextLocator(Region(t.stackStartW, t.stackEndW))
      ensures fresh(t.stack) && StackShaped(t) && ImageSaved(t)
      ensures t.currentPsp == t.stackStartW - FrameWords
      ensures t.stack[t.stack.Length - FrameWords..] == InitialFrame(t.entry)
      ensures View() == SvcSpec(Parked(Created(old(View()), t), t), 0)
    {
      // The scheduler's specification is not needed to carry the stack
      // through the table entry.
      hide SvcSpec, Refreshed, Sorted, Scanned, Dispatched, HandedTo, Parked, Created, Coherent, Wf, PrioritySorted, Distinct;
      ghost var c := View();
      CarveStack(t);
      InitStack(t);
      assert View() == c;
      Enter(t);
    }

    /**
     * The region of `OS_CreateTask`: `_S_PSP_Task` is the locator,
     * `_E_PSP_Task` lies `StackSize` bytes below it rounded down to a double
     * word, and the locator moves a guard gap below that.
     */
    method CarveStack(t: Task)
      requires Aligned8(locatorW) && 4 * FrameWords <= t.stackSize
      modifies this`locatorW, t`stackStartW, t`stackEndW, t`stack
      ensures Region(t.stackStartW, t.stackEndW) == Carve(old(locatorW), t.stackSize)
      ensures locatorW == NextLocator(Region(t.stackStartW, t.stackEndW))
      ensures fresh(t.stack) && t.stack.Length == t.stackStartW - t.stackEndW
      ensures Aligned8(t.stackStartW) && Aligned8(t.stackEndW) && t.stackEndW + FrameWords <= t.stackStartW
    {
      var r := Carve(locatorW, t.stackSize);
      t.stackStartW := r.startW;
      t.stackEndW := r.endW;
      t.stack := new Word[r.startW - r.endW];
      locatorW := NextLocator(r);
    }

    /** The table half of `OS_CreateTask`: the new entry, then its activation. */
    method Enter(t: Task)
      requires Valid() && !pendSV && t !in states && activeTasksNo < TasksNo
      modifies tasks, this`activeTasksNo, this`states, this`ready, this`next, this`pendSV
      ensures Valid()
      ensures View() == SvcSpec(Parked(Created(old(View()), t), t), 0)
    {
      Append(t);
      ActivateTask(t);
    }

    /** `OS_CreateTask` enters the task in the next table slot, Suspended. */
    method Append(t: Task)
      requires Valid() && t !in states && activeTasksNo < TasksNo
      modifies tasks, this`activeTasksNo, this`states
      ensures (TableShaped() && Coherent(View()))
      ensures View() == Created(old(View()), t)
    {
      hide SvcSpec, Refreshed, Sorted, Scanned, Dispatched, HandedTo, Coherent, Wf, PrioritySorted, Distinct;
      ghost var c := View();
      CoherentWf(c);
      tasks[activeTasksNo] := t;
      activeTasksNo := activeTasksNo + 1;
      SetState(t, Suspended);
      assert Table() == c.table + [t];
      assert View() == Created(c, t);
    }

    /** `OS_ActivateTask`: sets the task Waiting and traps with code 0, which never faults. */
    method ActivateTask(t: Task)
      requires (TableShaped() && Coherent(View())) && !pendSV && t in states
      modifies tasks, this`ready, this`next, this`pendSV, this`states
      ensures Valid()
      ensures View() == SvcSpec(Parked(old(View()), t), 0)
    {
      hide Refreshed, Sorted, Scanned, Dispatched, HandedTo;
      ActivationNeverFaults(View(), t);
      SetState(t, Waiting);
      var fault := SupervisorCall(0);
    }

    /**
     * The body shared by `OS_TerminateTask`, `OS_HoldTask` and the wait of
     * `SemaphoreTake`: sets the task Suspended and traps with code 1; the
     * dispatch faults when no task is left that is not Suspended.
     */
    method Suspend(t: Task) returns (fault: bool)
      requires Valid() && !pendSV && t in states
      modifies tasks, this`ready, this`next, this`pendSV, this`states
      ensures Valid()
      ensures fault == SvcFault(Held(old(View()), t), 1)
      ensures View() == SvcSpec(Held(old(View()), t), 1)
    {
      hide Refreshed, Sorted, Scanned, Dispatched, HandedTo;
      SetState(t, Suspended);
      fault := SupervisorCall(1);
    }

    /** `OS_TerminateTask`. */
    method TerminateTask(t: Task) returns (fault: bool)
      requires Valid() && !pendSV && t in states
      modifies tasks, this`ready, this`next, this`pendSV, this`states
      ensures Valid()
      ensures fault == SvcFault(Held(old(View()), t), 1)
      ensures View() == SvcSpec(Held(old(View()), t), 1)
    {
      fault := Suspend(t);
    }

    /** `OS_HoldTask`: the same as `OS_TerminateTask`. */
    method HoldTask(t: Task) returns (fault: bool)
      requires Valid() && !pendSV && t in states
      modifies tasks, this`ready, this`next, this`pendSV, this`states
      ensures Valid()
      ensures fault == SvcFault(Held(old(View()), t), 1)
      ensures View() == SvcSpec(Held(old(View()), t), 1)
    {
      fault := Suspend(t);
    }

    /** `OS_GetTime`: the tick count. */
    method GetTime() returns (r: Word)
      ensures r == gTick
    {
      r := gTick;
    }

    /**
     * `OS_Start`: the kernel runs with the idle task current, and the idle
     * task is activated; no switch is pended, since the idle task does not
     * dispatch.
     */
    method Start()
      requires Valid() && !pendSV && !started && idle in states && idle.isIdle
      modifies tasks, this`started, this`current, this`ready, this`next, this`pendSV, this`states
      ensures Valid() && started && current == idle && !pendSV
      ensures View() == SvcSpec(Launched(old(View()), idle), 0)
    {
      hide SvcSpec, Refreshed, Sorted, Scanned, Dispatched, HandedTo, Coherent, Wf, Parked, Launched;
      LaunchActivates(View(), idle);
      started := true;
      current := idle;
      ActivateTask(idle);
    }

    /**
     * `OS_Init`: places the main stack 1000 bytes below the initial stack
     * pointer and the task locator below it, empties the ready FIFO, and
     * creates the idle task (300 bytes of stack, priority 20, not blocking),
     * which a single refresh leaves alone in the queue, Ready.
     */
    constructor (initialSpW: int, idleEntry: Word)
      ensures Valid() && fresh(idle) && idle.isIdle && idle.entry == idleEntry
      ensures StackShaped(idle) && ImageSaved(idle) && Aligned8(locatorW)
      ensures idle.priority == 20 && idle.stackSize == 300 && idle.blocking == BlockingDisabled
      ensures mainStackStartW == initialSpW && mainStackEndW == MainStackEnd(initialSpW)
      ensures Region(idle.stackStartW, idle.stackEndW) == Carve(FirstLocator(mainStackEndW), idle.stackSize)
      ensures locatorW == NextLocator(Region(idle.stackStartW, idle.stackEndW))
      ensures idle.currentPsp == idle.stackStartW - FrameWords
      ensures idle.stack[idle.stack.Length - FrameWords..] == InitialFrame(idleEntry)
      ensures Table() == [idle] && ready == [idle] && states == map[idle := Ready]
      ensures current == null && next == null && !started && !pendSV && gTick == 0
    {
      hide SvcSpec, Refreshed, Sorted, Scanned, Dispatched, HandedTo, Parked, Created, Coherent, Wf, PrioritySorted, Distinct;
      tasks := new Task?[TasksNo];
      activeTasksNo := 0;
      mainStackStartW := initialSpW;
      mainStackEndW := MainStackEnd(initialSpW);
      locatorW := FirstLocator(MainStackEnd(initialSpW));
      current, next := null, null;
      started, pendSV := false, false;
      ready := [];
      gTick := 0;
      states := map[];
      idle := new Task(300, 20, idleEntry, BlockingDisabled, 0, true);
      new;
      assert View() == Boot();
      CreateTask(idle);
      IdleCreated(idle);
    }
  }

  /**
   * `BinarySemaphore`: `currentTask` is the task the last give released,
   * `nextTask` the task waiting to take it.
   */
  class BinarySemaphore {
    var currentTask: Task?
    var nextTask: Task?

    constructor ()
      ensures currentTask == null && nextTask == null
    {
      currentTask, nextTask := null, null;
    }

    /** `Semaphore->NextTask = task`: records the waiting task. */
    method Enlist(task: Task)
      modifies this`nextTask
      ensures nextTask == task
    {
      nextTask := task;
    }

    /** The give's hand-over: the waiter becomes `CurrentTask`, and no task waits. */
    method Release()
      modifies this
      ensures currentTask == old(nextTask) && nextTask == null
    {
      currentTask := nextTask;
      nextTask := null;
    }
  }

  /**
   * `SemaphoreTake`: with no task waiting, records `task` as the waiter,
   * suspends it and traps with code 1; otherwise does nothing.
   */
  method SemaphoreTake(k: Kernel, s: BinarySemaphore, task: Task) returns (fault: bool)
    requires k.Valid() && !k.pendSV && task in k.states
    modifies s`nextTask, k.tasks, k`ready, k`next, k`pendSV, k`states
    ensures k.Valid()
    ensures old(s.nextTask) != null ==> !fault && s.nextTask == old(s.nextTask) && k.View() == old(k.View())
    ensures old(s.nextTask) == null ==>
              && s.nextTask == task
              && var c := old(k.View()).(state := old(k.states)[task := Suspended]);
                 fault == SvcFault(c, 1) && k.View() == SvcSpec(c, 1)
  {
    fault := false;
    if s.nextTask == null {
      s.Enlist(task);
      fault := k.Suspend(task);
    }
  }

  /**
   * `SemaphoreGive`: hands the semaphore to the waiting task, clears the
   * waiter, sets the task Waiting and traps with code 0.  With no waiter the
   * state write goes through a null pointer and faults.
   */
  method SemaphoreGive(k: Kernel, s: BinarySemaphore) returns (fault: bool)
    requires k.Valid() && !k.pendSV && (s.nextTask != null ==> s.nextTask in k.states)
    modifies s, k.tasks, k`ready, k`next, k`pendSV, k`states
    ensures k.Valid() && s.currentTask == old(s.nextTask) && s.nextTask == null
    ensures fault <==> old(s.nextTask) == null
    ensures fault ==> k.View() == old(k.View())
    ensures !fault ==> k.View() == SvcSpec(old(k.View()).(state := old(k.states)[old(s.nextTask) := Waiting]), 0)
  {
    s.Release();
    fault := s.currentTask == null;
    if !fault {
      k.ActivateTask(s.currentTask);
    }
  }
}
