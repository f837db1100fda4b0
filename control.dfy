/**
 * The scheduler's decisions (Source/OS.c), stated on a snapshot of the
 * kernel: the task table of `OS_Control`, the state of every task in it, the
 * ready FIFO, `CurrentTask`, `NextTask`, `OS_STATE`, the pending context
 * switch and `g_tick`.  Each handler of the `Kernel` class is proved to move
 * its snapshot as the function of the same name here does, and the
 * properties of the handlers are proved here, on values.
 */
module KernelState {
  import opened Tasks
  import opened Scheduling

  /** Capacity of the task table (`TasksNo`, Includes/OS_Cfg.h). */
  const TasksNo: nat := 9
  /** Capacity of the ready FIFO (`Ready_QUEUE_FIFO[10]`). */
  const QueueCapacity: nat := 10
  /** `g_tick` is a `uint32`. */
  const TickModulus: nat := 0x1_0000_0000

  /**
   * The periodic-wake test `g_tick % Ticks_Count - 1 == 0`: `-` binds tighter
   * than `==`, and the subtraction is unsigned, so the test holds exactly
   * when the remainder is 1.
   */
  function WakeDue(tick: Word, count: Word): (due: bool)
    requires count > 0
    ensures due <==> tick % count == 1
  {
    ((tick % count) - 1) % TickModulus == 0
  }

  /** A task with period 1 is never woken: every remainder modulo 1 is 0. */
  lemma PeriodOneNeverWakes(tick: Word)
    ensures !WakeDue(tick, 1)
  {
  }

  /** The kernel as the scheduler sees it. */
  datatype ControlOf<States> = Control(
    table: seq<Task>,               // OS_Control.Tasks[0 .. ActiveTasksNo)
    state: States,                  // TaskState of each task of the table
    ready: seq<Task>,               // the ready FIFO, head first
    current: Task?,                 // OS_Control.CurrentTask
    next: Task?,                    // OS_Control.NextTask
    started: bool,                  // OS_STATE == Running
    pendSV: bool,                   // PENDSVSET is set
    tick: Word)                     // g_tick

  type Control = ControlOf<map<Task, TaskState>>

  /**
   * The snapshots the kernel reaches: at most `TasksNo` distinct tasks, whose
   * states are known; the queue, `CurrentTask` and `NextTask` point into the
   * table; the queue never holds more entries than the table; there is a
   * `CurrentTask` exactly once the kernel runs; a switch is pending exactly
   * when `NextTask` is set, and only once the kernel runs.
   */
  predicate Wf(c: Control)
  {
    && |c.table| <= TasksNo
    && Distinct(c.table)
    && (forall i :: 0 <= i < |c.table| ==> c.table[i] in c.state)
    && |c.ready| <= |c.table|
    && (forall i :: 0 <= i < |c.ready| ==> c.ready[i] in c.state)
    && (c.current != null ==> c.current in c.state)
    && (c.next != null ==> c.next in c.state)
    && (c.started <==> c.current != null)
    && (c.pendSV <==> c.next != null)
    && (c.pendSV ==> c.started)
  }

  /** `FIFO_enqueue`: appends at the tail; a full queue is left as it is. */
  function Enqueued(q: seq<Task>, t: Task): seq<Task>
  {
    if |q| < QueueCapacity then q + [t] else q
  }

  /** What the scan reads of each table entry, under the states `st`. */
  function SlotsOf(ts: seq<Task>, st: map<Task, TaskState>): (v: seq<Slot>)
    requires forall t :: t in ts ==> t in st
    ensures |v| == |ts|
    ensures forall i :: 0 <= i < |ts| ==> v[i] == Slot(ts[i].priority, st[ts[i]] == Suspended)
  {
    if ts == [] then []
    else [Slot(ts[0].priority, st[ts[0]] == Suspended)] + SlotsOf(ts[1..], st)
  }

  /** Sets each task of `q` Ready. */
  function Admitted(st: map<Task, TaskState>, q: seq<Task>): (r: map<Task, TaskState>)
    ensures r.Keys == st.Keys
    ensures forall t :: t in st ==> r[t] == if t in q then Ready else st[t]
  {
    map t | t in st :: if t in q then Ready else st[t]
  }

  /** Appending a task to a queue sets that task Ready too. */
  lemma AdmittedSnoc(st: map<Task, TaskState>, q: seq<Task>, t: Task)
    requires t in st
    ensures Admitted(st, q + [t]) == Admitted(st, q)[t := Ready]
  {
    assert forall u :: u in q + [t] <==> u in q || u == t;
  }

  /** An entry of a table of distinct tasks at or past `k` is not in the slice `[lo, k)`. */
  lemma OutsideSlice(ts: seq<Task>, lo: nat, k: nat, j: nat)
    requires Distinct(ts) && lo <= k <= j < |ts|
    ensures ts[j] !in ts[lo..k]
  {
    if ts[j] in ts[lo..k] {
      var a :| 0 <= a < k - lo && ts[lo..k][a] == ts[j];
      DistinctAt(ts, lo + a, j);
    }
  }

  /**
   * The sorted table holds tasks of the table only, so their states are
   * known, and every entry of a table is Suspended exactly when every entry
   * of its sorted table is.
   */
  lemma SortedStates(ts: seq<Task>, st: map<Task, TaskState>)
    requires |ts| >= 1 && Distinct(ts) && forall i :: 0 <= i < |ts| ==> ts[i] in st
    ensures forall i :: 0 <= i < |BubbleSort(ts)| ==> BubbleSort(ts)[i] in st
    ensures (forall i :: 0 <= i < |ts| ==> st[ts[i]] == Suspended) <==>
            (forall i :: 0 <= i < |BubbleSort(ts)| ==> st[BubbleSort(ts)[i]] == Suspended)
  {
    BubbleSortKeepsTasks(ts);
    var us := BubbleSort(ts);
    forall i | 0 <= i < |us| ensures us[i] in st {
      var j :| 0 <= j < |ts| && ts[j] == us[i];
    }
    forall i | 0 <= i < |ts| && (forall k :: 0 <= k < |us| ==> st[us[k]] == Suspended)
      ensures st[ts[i]] == Suspended
    {
      var j :| 0 <= j < |us| && us[j] == ts[i];
    }
  }

  /**
   * The bubble sort of `Update_SchedularTable`: the table in non-decreasing
   * priority, holding the same tasks.
   */
  function Sorted(c: Control): (d: Control)
    requires Wf(c) && |c.table| >= 1
    ensures Wf(d) && PrioritySorted(d.table)
    ensures d == c.(table := BubbleSort(c.table))
  {
    BubbleSortKeepsTasks(c.table);
    BubbleSortOrders(c.table);
    SortedStates(c.table, c.state);
    c.(table := BubbleSort(c.table))
  }

  /**
   * The scan of `Update_SchedularTable` on an empty queue: the cohort of the
   * table is enqueued in table order and each of its tasks set Ready.
   */
  function Scanned(c: Control): (d: Control)
    requires Wf(c) && c.ready == []
    ensures Wf(d)
    ensures d.table == c.table && d.state.Keys == c.state.Keys
    ensures var r := Cohort(SlotsOf(c.table, c.state));
            d.ready == c.table[r.lo..r.hi]
    ensures forall t :: t in c.state ==> d.state[t] == if t in d.ready then Ready else c.state[t]
    ensures d == c.(ready := d.ready, state := d.state)
  {
    hide Cohort, FirstEligible, RunEnd;
    var r := Cohort(SlotsOf(c.table, c.state));
    var q := c.table[r.lo..r.hi];
    assert forall i :: 0 <= i < |q| ==> q[i] == c.table[r.lo + i];
    c.(ready := q, state := Admitted(c.state, q))
  }

  /**
   * `Update_SchedularTable`: the sort, the drain of the queue and the scan.
   * The table must not be empty: with no task, `ActiveTasksNo - 1` wraps
   * around and the sort runs off the table.  No task becomes or stops being
   * Suspended.
   */
  function Refreshed(c: Control): (d: Control)
    requires Wf(c) && |c.table| >= 1
    ensures Wf(d)
    ensures d.table == BubbleSort(c.table) && PrioritySorted(d.table)
    ensures d.state.Keys == c.state.Keys
    ensures var r := Cohort(SlotsOf(d.table, c.state));
            d.ready == d.table[r.lo..r.hi]
    ensures forall t :: t in c.state ==> d.state[t] == if t in d.ready then Ready else c.state[t]
    ensures forall t :: t in c.state ==> (d.state[t] == Suspended <==> c.state[t] == Suspended)
    ensures d == c.(table := d.table, ready := d.ready, state := d.state)
  {
    Scanned(Sorted(c).(ready := []))
  }

  /**
   * The queue a refresh builds is the cohort of the sorted table, in table
   * order (`CohortShape` states what the cohort is): distinct tasks, of one
   * priority, none of them Suspended.
   */
  lemma RefreshedQueue(c: Control)
    requires Wf(c) && |c.table| >= 1
    ensures var d := Refreshed(c);
            && Distinct(d.ready)
            && forall i :: 0 <= i < |d.ready| ==>
                 c.state[d.ready[i]] != Suspended && d.ready[i].priority == d.ready[0].priority
  {
    CohortTasks(Refreshed(c).table, c.state);
  }

  /**
   * The cohort of a table of distinct tasks, as a slice of the table:
   * distinct tasks of one priority, none of them Suspended.
   */
  lemma CohortTasks(ts: seq<Task>, st: map<Task, TaskState>)
    requires Distinct(ts) && forall t :: t in ts ==> t in st
    ensures var r := Cohort(SlotsOf(ts, st));
            var q := ts[r.lo..r.hi];
            && Distinct(q)
            && forall i :: 0 <= i < |q| ==> st[q[i]] != Suspended && q[i].priority == q[0].priority
  {
    var v := SlotsOf(ts, st);
    var r := Cohort(v);
    var q := ts[r.lo..r.hi];
    SliceDistinct(ts, r.lo, r.hi);
    forall i | 0 <= i < |q|
      ensures st[q[i]] != Suspended && q[i].priority == q[0].priority
    {
      CohortEntry(v, r.lo + i);
      assert q[i] == ts[r.lo + i] && q[0] == ts[r.lo];
    }
  }

  /** The queue a refresh builds is empty exactly when every task of the table is Suspended. */
  lemma RefreshedEmpty(c: Control)
    requires Wf(c) && |c.table| >= 1
    ensures Refreshed(c).ready == [] <==> forall i :: 0 <= i < |c.table| ==> c.state[c.table[i]] == Suspended
  {
    var d := Refreshed(c);
    var v := SlotsOf(d.table, c.state);
    CohortShape(v);
    SortedStates(c.table, c.state);
    assert (forall i :: 0 <= i < |v| ==> v[i].suspended) <==>
           (forall i :: 0 <= i < |d.table| ==> c.state[d.table[i]] == Suspended);
  }

  /**
   * The head of the queue a refresh builds has the least priority of any
   * entry of the sorted table that is not Suspended, and every entry before
   * it is Suspended.
   */
  lemma RefreshedHead(c: Control)
    requires Wf(c) && |c.table| >= 1 && Refreshed(c).ready != []
    ensures var d := Refreshed(c);
            && (forall i :: 0 <= i < |d.table| && c.state[d.table[i]] != Suspended ==>
                  d.ready[0].priority <= d.table[i].priority)
            && exists k :: 0 <= k < |d.table| && d.table[k] == d.ready[0] &&
                 forall j :: 0 <= j < k ==> c.state[d.table[j]] == Suspended
  {
    var d := Refreshed(c);
    var v := SlotsOf(d.table, c.state);
    CohortShape(v);
    var r := Cohort(v);
    assert d.ready[0] == d.table[r.lo];
    forall i | 0 <= i < |d.table| && c.state[d.table[i]] != Suspended
      ensures d.ready[0].priority <= d.table[i].priority
    {
      assert !v[i].suspended;
      SortedAt(d.table, r.lo, i);
    }
  }

  /**
   * The cohort is decided by priorities and suspension alone: two state maps
   * that agree on which tasks are Suspended give the same scan view.
   */
  lemma SameSlots(ts: seq<Task>, s1: map<Task, TaskState>, s2: map<Task, TaskState>)
    requires forall i :: 0 <= i < |ts| ==> ts[i] in s1 && ts[i] in s2
    requires forall i :: 0 <= i < |ts| ==> (s1[ts[i]] == Suspended <==> s2[ts[i]] == Suspended)
    ensures SlotsOf(ts, s1) == SlotsOf(ts, s2)
  {
  }

  /**
   * A refresh of a sorted table whose queue and states already are those the
   * refresh would produce changes nothing; in particular a second refresh
   * undoes nothing the first did.
   */
  lemma RefreshedIdempotent(c: Control)
    requires Wf(c) && |c.table| >= 1
    ensures Refreshed(Refreshed(c)) == Refreshed(c)
  {
    var d := Refreshed(c);
    BubbleSortKeepsSorted(d.table);
    SameSlots(d.table, c.state, d.state);
    var e := Refreshed(d);
    assert e.table == d.table;
    assert e.ready == d.ready;
    assert e.state == d.state;
  }

  /** A refresh of a table already in order keeps the table as it is. */
  lemma RefreshedKeepsOrder(c: Control)
    requires Wf(c) && |c.table| >= 1 && PrioritySorted(c.table)
    ensures Refreshed(c).table == c.table
  {
    BubbleSortKeepsSorted(c.table);
  }

  /**
   * The snapshot of a kernel: well formed, and every task with a state is in
   * the table, so the map of states holds exactly the created tasks.
   */
  predicate Coherent(c: Control)
  {
    && Wf(c)
    && forall t :: t in c.state ==> t in c.table
  }

  /** A coherent snapshot is well formed. */
  lemma CoherentWf(c: Control)
    requires Coherent(c)
    ensures Wf(c)
  {
  }

  /** A refresh keeps every task of the table in the table. */
  lemma RefreshedKeepsTasks(c: Control)
    requires Wf(c) && |c.table| >= 1
    ensures forall t :: t in c.table ==> t in Refreshed(c).table
  {
    BubbleSortKeepsTasks(c.table);
    forall t | t in c.table ensures t in Refreshed(c).table {
      var j :| 0 <= j < |c.table| && c.table[j] == t;
    }
  }

  /**
   * A refresh of a table that holds one task that is not Suspended enqueues
   * that task alone and sets it Ready.
   */
  lemma RefreshedAlone(c: Control)
    requires Wf(c) && |c.table| == 1 && c.ready == [] && c.state[c.table[0]] != Suspended
    ensures Refreshed(c).table == c.table && Refreshed(c).ready == c.table
    ensures Refreshed(c).state == c.state[c.table[0] := Ready]
  {
    RefreshedKeepsOrder(c);
    CohortStep(SlotsOf(c.table, c.state), 0);
    var d := Refreshed(c);
    assert d.state.Keys == c.state[c.table[0] := Ready].Keys;
  }

  /**
   * On a sorted table, two snapshots that agree on which tasks are Suspended
   * refresh to the same queue.
   */
  lemma RefreshSameSuspension(a: Control, b: Control)
    requires Wf(a) && Wf(b) && |a.table| >= 1 && PrioritySorted(a.table) && b.table == a.table
    requires forall i :: 0 <= i < |a.table| ==> (a.state[a.table[i]] == Suspended <==> b.state[a.table[i]] == Suspended)
    ensures Refreshed(b).table == a.table && Refreshed(b).ready == Refreshed(a).ready
  {
    BubbleSortKeepsSorted(a.table);
    SameSlots(a.table, a.state, b.state);
  }

  /**
   * The round-robin test of the dispatch: the outgoing task `cur` is
   * re-enqueued when it has the incoming task's priority and is not
   * Suspended.  Its state is read after the incoming task was set Running, so
   * an outgoing task that is also the incoming one always passes.
   */
  predicate KeepsTurn(cur: Task, nxt: Task, curState: TaskState)
  {
    cur.priority == nxt.priority && (cur == nxt || curState != Suspended)
  }

  /**
   * The dispatch step shared by both handlers, once `nxt` was taken for
   * `NextTask` and `q` is left in the queue: `nxt` is set Running, the current
   * task is re-enqueued as Ready when it keeps its turn, and a switch is
   * pended.
   */
  function HandedTo(c: Control, nxt: Task, q: seq<Task>): (d: Control)
    requires Wf(c) && c.started && nxt in c.state
    requires |q| < |c.table| && forall i :: 0 <= i < |q| ==> q[i] in c.state
    ensures Wf(d)
    ensures d.next == nxt && d.pendSV
    ensures d.table == c.table && d.current == c.current && d.started && d.tick == c.tick
    ensures d.state.Keys == c.state.Keys
    ensures KeepsTurn(c.current, nxt, c.state[c.current]) ==>
              d.ready == q + [c.current] && d.state == c.state[nxt := Running][c.current := Ready]
    ensures !KeepsTurn(c.current, nxt, c.state[c.current]) ==>
              d.ready == q && d.state == c.state[nxt := Running]
  {
    var cur := c.current;
    var st := c.state[nxt := Running];
    if cur.priority == nxt.priority && st[cur] != Suspended then
      c.(state := st[cur := Ready], ready := Enqueued(q, cur), next := nxt, pendSV := true)
    else
      c.(state := st, ready := q, next := nxt, pendSV := true)
  }

  /**
   * The dispatch of codes 0 and 1 of `SVC_Handler`, on a queue that is not
   * empty: the head is dequeued into `NextTask`.
   */
  function Dispatched(c: Control): (d: Control)
    requires Wf(c) && c.started && c.ready != []
  {
    HandedTo(c, c.ready[0], c.ready[1..])
  }

  /**
   * The dispatch moves no task into or out of Suspended when the head is not
   * Suspended.
   */
  lemma DispatchedKeepsSuspension(c: Control)
    requires Wf(c) && c.started && c.ready != [] && c.state[c.ready[0]] != Suspended
    ensures Dispatched(c).state.Keys == c.state.Keys
    ensures forall t :: t in c.state ==> (Dispatched(c).state[t] == Suspended <==> c.state[t] == Suspended)
  {
  }

  /** Codes 0 and 1 dispatch once the kernel runs, unless the idle task is current. */
  predicate Dispatching(c: Control)
  {
    c.started && c.current != null && !c.current.isIdle
  }

  /**
   * `SVC_Handler` with the decoded number `code`.  Codes 0 and 1 refresh,
   * dispatch when `Dispatching`, and fall through into the refresh of code
   * 2.  Other codes do nothing.  A dispatch on an empty queue writes through
   * a null `NextTask`: the snapshot is then the one at the fault.
   */
  function SvcSpec(c: Control, code: Word): (d: Control)
    requires Wf(c) && |c.table| >= 1 && !c.pendSV
    ensures Wf(d) && d.state.Keys == c.state.Keys
    ensures d.current == c.current && d.started == c.started && d.tick == c.tick
    ensures code <= 2 ==> PrioritySorted(d.table)
    ensures code > 2 ==> d == c
  {
    if code <= 1 then
      var a := Refreshed(c);
      if !Dispatching(a) then Refreshed(a)
      else if a.ready == [] then a
      else Refreshed(Dispatched(a))
    else if code == 2 then Refreshed(c)
    else c
  }

  /** The dispatch of `SVC_Handler` found the queue empty. */
  predicate SvcFault(c: Control, code: Word)
    requires Wf(c) && |c.table| >= 1
  {
    code <= 1 && Dispatching(c) && Refreshed(c).ready == []
  }

  /**
   * Codes 0 and 1 fault exactly when a dispatch is due and every task is
   * Suspended; no other code faults.
   */
  lemma SvcFaultWhen(c: Control, code: Word)
    requires Wf(c) && |c.table| >= 1 && !c.pendSV
    ensures SvcFault(c, code) <==>
              code <= 1 && Dispatching(c) && forall i :: 0 <= i < |c.table| ==> c.state[c.table[i]] == Suspended
  {
    RefreshedEmpty(c);
  }

  /**
   * A call that sets a task of the table Waiting and traps with code 0
   * (`OS_ActivateTask`, `SemaphoreGive`) never faults.
   */
  lemma ActivationNeverFaults(c: Control, t: Task)
    requires Wf(c) && |c.table| >= 1 && !c.pendSV && t in c.table
    ensures !SvcFault(c.(state := c.state[t := Waiting]), 0)
  {
    var d := c.(state := c.state[t := Waiting]);
    SvcFaultWhen(d, 0);
    var j :| 0 <= j < |c.table| && c.table[j] == t;
    assert d.state[d.table[j]] != Suspended;
  }

  /** An `SVC_Handler` call keeps every task of the table in the table. */
  lemma SvcKeepsTasks(c: Control, code: Word)
    requires Wf(c) && |c.table| >= 1 && !c.pendSV
    ensures forall t :: t in c.table ==> t in SvcSpec(c, code).table
  {
    if code <= 2 {
      var a := Refreshed(c);
      RefreshedKeepsTasks(c);
      RefreshedKeepsTasks(a);
      if code <= 1 && Dispatching(a) && a.ready != [] {
        RefreshedKeepsTasks(Dispatched(a));
      }
    }
  }

  /**
   * `SVC_Handler` keeps a snapshot coherent with the created tasks, and
   * leaves the table sorted by priority for codes 0 to 2.
   */
  lemma SvcCoherent(c: Control, code: Word)
    requires Coherent(c) && |c.table| >= 1 && !c.pendSV
    ensures Coherent(SvcSpec(c, code))
    ensures code <= 2 ==> PrioritySorted(SvcSpec(c, code).table)
  {
    SvcKeepsTasks(c, code);
  }

  /**
   * Codes 0 and 1 without a dispatch (before `OS_Start`, or with the idle
   * task current), and code 2, come to one refresh: `CurrentTask` and
   * `NextTask` stay as they are and no switch is pended.  Other codes change
   * nothing.
   */
  lemma SvcWithoutDispatch(c: Control, code: Word)
    requires Wf(c) && |c.table| >= 1 && !c.pendSV
    requires code == 2 || (code <= 1 && !Dispatching(c))
    ensures SvcSpec(c, code) == Refreshed(c)
    ensures SvcSpec(c, code).current == c.current && SvcSpec(c, code).next == c.next
    ensures !SvcSpec(c, code).pendSV
  {
    if code <= 1 {
      RefreshedIdempotent(c);
    }
  }

  /**
   * Codes 0 and 1 with a dispatch: `NextTask` becomes the head of the queue
   * the first refresh built, a switch is pended, and the refresh of code 2
   * rebuilds that same queue.  Every task of the queue ends Ready, the
   * incoming one included; the current task also ends Ready when it kept its
   * turn; every other task keeps its state.
   */
  lemma SvcDispatch(c: Control, code: Word)
    requires Wf(c) && |c.table| >= 1 && !c.pendSV
    requires code <= 1 && Dispatching(c) && Refreshed(c).ready != []
    ensures var a := Refreshed(c);
            var d := SvcSpec(c, code);
            && d.next == a.ready[0] && d.pendSV
            && d.current == c.current && d.started && d.tick == c.tick
            && d.table == a.table && d.ready == a.ready
    ensures !SvcFault(c, code)
  {
    var a := Refreshed(c);
    RefreshedIdempotent(c);
    SvcDispatchUnfolds(c, code);
    DispatchOnRefreshed(a);
  }

  /** Codes 0 and 1 with a dispatch are a refresh, the dispatch and a second refresh. */
  lemma SvcDispatchUnfolds(c: Control, code: Word)
    requires Wf(c) && |c.table| >= 1 && !c.pendSV
    requires code <= 1 && Dispatching(c) && Refreshed(c).ready != []
    ensures Refreshed(c).started && SvcSpec(c, code) == Refreshed(Dispatched(Refreshed(c)))
  {
  }

  /**
   * On a snapshot a refresh leaves as it is, the dispatch followed by a
   * refresh hands the head to `NextTask` and rebuilds the same queue.
   */
  lemma DispatchOnRefreshed(a: Control)
    requires Wf(a) && |a.table| >= 1 && a.started && a.ready != [] && Refreshed(a) == a
    ensures var e := Refreshed(Dispatched(a));
            && e.next == a.ready[0] && e.pendSV
            && e.current == a.current && e.started && e.tick == a.tick
            && e.table == a.table && e.ready == a.ready
  {
    assert a.state[a.ready[0]] == Ready;
    DispatchedKeepsSuspension(a);
    RefreshSameSuspension(a, Dispatched(a));
  }

  /**
   * The states codes 0 and 1 leave after a dispatch: each task of the queue
   * is Ready; the current task, when outside the queue, is Ready if it kept
   * its turn; every other task keeps its state.
   */
  lemma SvcDispatchStates(c: Control, code: Word)
    requires Wf(c) && |c.table| >= 1 && !c.pendSV
    requires code <= 1 && Dispatching(c) && Refreshed(c).ready != []
    ensures var a := Refreshed(c);
            var d := SvcSpec(c, code);
            && d.state.Keys == c.state.Keys
            && (forall t :: t in a.ready ==> d.state[t] == Ready)
            && forall t :: t in c.state && t !in a.ready ==>
                 d.state[t] == if t == c.current && KeepsTurn(c.current, a.ready[0], c.state[t]) then Ready
                               else c.state[t]
  {
    var a := Refreshed(c);
    RefreshedIdempotent(c);
    SvcDispatchUnfolds(c, code);
    DispatchStatesOnRefreshed(a);
  }

  /**
   * On a snapshot a refresh leaves as it is, the dispatch followed by a
   * refresh leaves each task of the queue Ready, the current task outside the
   * queue Ready if it kept its turn, and every other task as it was.
   */
  lemma DispatchStatesOnRefreshed(a: Control)
    requires Wf(a) && |a.table| >= 1 && a.started && a.ready != [] && Refreshed(a) == a
    ensures var e := Refreshed(Dispatched(a));
            && e.state.Keys == a.state.Keys
            && (forall t :: t in a.ready ==> e.state[t] == Ready)
            && forall t :: t in a.state && t !in a.ready ==>
                 e.state[t] == if t == a.current && KeepsTurn(a.current, a.ready[0], a.state[t]) then Ready
                               else a.state[t]
  {
    var b := Dispatched(a);
    DispatchOnRefreshed(a);
    DispatchedStates(a);
    var e := Refreshed(b);
    var cur, nx := a.current, a.ready[0];
    forall t | t in a.state && t !in a.ready
      ensures e.state[t] == if t == cur && KeepsTurn(cur, nx, a.state[t]) then Ready else a.state[t]
    {
      assert e.state[t] == b.state[t];
      assert t != nx;
    }
  }

  /**
   * The dispatch sets the head Running and, when the current task keeps its
   * turn, that task Ready; it leaves every other task as it was.
   */
  lemma DispatchedStates(a: Control)
    requires Wf(a) && a.started && a.ready != []
    ensures var b := Dispatched(a);
            var cur, nx := a.current, a.ready[0];
            forall t :: t in a.state && t != nx ==>
              b.state[t] == if t == cur && KeepsTurn(cur, nx, a.state[cur]) then Ready else a.state[t]
  {
  }

  /** The due test of `SysTick_Handler` for a Suspended task with a period. */
  predicate Due(tick: Word, t: Task)
  {
    t.blocking == BlockingEnabled && t.ticksCount > 0 && WakeDue(tick, t.ticksCount)
  }

  /** The snapshot with task `t` set Waiting, by the wake loop or `OS_ActivateTask`. */
  function Parked(c: Control, t: Task): (w: Control)
    requires Wf(c) && t in c.state
    ensures Wf(w) && w.state.Keys == c.state.Keys
    ensures w.table == c.table && w.ready == c.ready && w.tick == c.tick
    ensures w == c.(state := c.state[t := Waiting])
  {
    c.(state := c.state[t := Waiting])
  }

  /** The snapshot with task `t` set Suspended, by `OS_TerminateTask` or `OS_HoldTask`. */
  function Held(c: Control, t: Task): (w: Control)
    requires Wf(c) && t in c.state
    ensures Wf(w) && w.state.Keys == c.state.Keys
    ensures Coherent(c) ==> Coherent(w)
  {
    c.(state := c.state[t := Suspended])
  }

  /** The snapshot with a new task `t` entered in the next table slot, Suspended. */
  function Created(c: Control, t: Task): (w: Control)
    requires Wf(c) && t !in c.state && |c.table| < TasksNo
    ensures Wf(w) && |w.table| >= 1 && w.state.Keys == c.state.Keys + {t}
    ensures Coherent(c) ==> Coherent(w)
  {
    SnocDistinct(c.table, t);
    c.(table := c.table + [t], state := c.state[t := Suspended])
  }

  /** The snapshot of `OS_Start`: the kernel runs with `t` current, and `t` is set Waiting. */
  function Launched(c: Control, t: Task): (w: Control)
    requires Wf(c) && !c.started && t in c.state
    ensures Wf(w) && w.state.Keys == c.state.Keys && !w.pendSV
    ensures Coherent(c) ==> Coherent(w)
  {
    c.(started := true, current := t, state := c.state[t := Waiting])
  }

  /**
   * `OS_Start` is `OS_ActivateTask` of `t` once the kernel runs with `t`
   * current: that snapshot stays coherent, the activation sets `t` Waiting
   * as `Launched` does, and it pends no switch since `t` is the idle task.
   */
  lemma LaunchActivates(c: Control, t: Task)
    requires Coherent(c) && !c.started && !c.pendSV && t in c.state && t.isIdle
    ensures var r := c.(started := true, current := t);
            && Coherent(r) && Parked(r, t) == Launched(c, t)
            && !SvcSpec(Launched(c, t), 0).pendSV
  {
    SvcWithoutDispatch(Launched(c, t), 0);
  }

  /** The snapshot `OS_Init` starts from: no task, an empty queue, the kernel stopped. */
  function Boot(): (c: Control)
    ensures Coherent(c) && PrioritySorted(c.table) && c.table == [] && !c.pendSV && !c.started
  {
    Control([], map[], [], null, null, false, false, 0)
  }

  /**
   * `OS_Init` creates the idle task on the empty kernel: the refresh of its
   * activation leaves it alone in the table and in the queue, Ready, with no
   * switch pended.
   */
  lemma IdleCreated(idle: Task)
    ensures SvcSpec(Parked(Created(Boot(), idle), idle), 0) ==
            Control([idle], map[idle := Ready], [idle], null, null, false, false, 0)
  {
    hide SvcSpec, Refreshed, Sorted, Scanned, Dispatched, HandedTo, Parked, Created, Coherent, PrioritySorted;
    IdleParked(idle);
    IdleAlone(idle);
  }

  /** Creating and activating the idle task on the empty kernel leaves it alone in the table, Waiting. */
  lemma IdleParked(idle: Task)
    ensures Parked(Created(Boot(), idle), idle) ==
            Control([idle], map[idle := Waiting], [], null, null, false, false, 0)
  {
    hide SvcSpec, Refreshed, Sorted, Scanned, Dispatched, HandedTo, Coherent, PrioritySorted;
    var b := Created(Boot(), idle);
    assert b.table == [] + [idle] == [idle];
    var c := Parked(b, idle);
    assert c.state == map[][idle := Suspended][idle := Waiting] == map[idle := Waiting];
  }

  /** Code 0 with the idle task alone in the table and Waiting: it is enqueued and set Ready. */
  lemma IdleAlone(idle: Task)
    ensures var c := Control([idle], map[idle := Waiting], [], null, null, false, false, 0);
            SvcSpec(c, 0) == Control([idle], map[idle := Ready], [idle], null, null, false, false, 0)
  {
    hide Sorted, Scanned, Dispatched, HandedTo, Coherent, PrioritySorted;
    var c := Control([idle], map[idle := Waiting], [], null, null, false, false, 0);
    SvcWithoutDispatch(c, 0);
    RefreshedAlone(c);
    var d := SvcSpec(c, 0);
    assert d.table == [idle] && d.ready == [idle] && d.state == map[idle := Ready];
  }

  /**
   * Round `k` of the wake loop: table entry `k`, as the table then stands,
   * is woken if it is Suspended and due: it becomes Waiting and the ready
   * set is refreshed.
   */
  function WakeRound(d: Control, k: nat): (e: Control)
    requires Wf(d) && k < |d.table|
    ensures Wf(e) && |e.table| == |d.table| && e.state.Keys == d.state.Keys
    ensures e.current == d.current && e.next == d.next && e.started == d.started
    ensures e.pendSV == d.pendSV && e.tick == d.tick
  {
    var t := d.table[k];
    if d.state[t] == Suspended && Due(d.tick, t) then Refreshed(Parked(d, t)) else d
  }

  /** On a sorted table round `i - 1` keeps the table. */
  lemma RoundKeepsTable(d: Control, i: nat)
    requires Wf(d) && 1 <= i <= |d.table| && PrioritySorted(d.table)
    ensures WakeRound(d, i - 1).table == d.table
  {
    var t := d.table[i - 1];
    if d.state[t] == Suspended && Due(d.tick, t) {
      RefreshedKeepsOrder(Parked(d, t));
    }
  }

  /**
   * After rounds `0 .. i - 1` on a sorted table, with `d` the state after
   * rounds `0 .. i - 2`: an entry is Suspended exactly when it was at the
   * start and it is not one of the first `i` entries that are due.
   */
  lemma RoundSuspended(c: Control, d: Control, i: nat)
    requires Wf(c) && Wf(d) && 1 <= i <= |c.table| && PrioritySorted(c.table)
    requires d.table == c.table && d.tick == c.tick && d.state.Keys == c.state.Keys
    requires forall j :: 0 <= j < |c.table| ==>
               (d.state[c.table[j]] == Suspended <==>
                c.state[c.table[j]] == Suspended && !(j < i - 1 && Due(c.tick, c.table[j])))
    ensures forall j :: 0 <= j < |c.table| ==>
              (WakeRound(d, i - 1).state[c.table[j]] == Suspended <==>
               c.state[c.table[j]] == Suspended && !(j < i && Due(c.tick, c.table[j])))
  {
    var t := d.table[i - 1];
    if d.state[t] == Suspended && Due(d.tick, t) {
      ParkedSuspended(d, t, i - 1);
      var e := Refreshed(Parked(d, t));
      forall j | 0 <= j < |c.table|
        ensures e.state[c.table[j]] == Suspended <==>
                c.state[c.table[j]] == Suspended && !(j < i && Due(c.tick, c.table[j]))
      {
      }
    }
  }

  /**
   * Waking entry `k` and refreshing leaves Suspended exactly the entries
   * other than `k` that were.
   */
  lemma ParkedSuspended(d: Control, t: Task, k: nat)
    requires Wf(d) && k < |d.table| && d.table[k] == t
    ensures forall j :: 0 <= j < |d.table| ==>
              (Refreshed(Parked(d, t)).state[d.table[j]] == Suspended <==>
               d.state[d.table[j]] == Suspended && j != k)
  {
    var w := Parked(d, t);
    forall j | 0 <= j < |d.table|
      ensures Refreshed(w).state[d.table[j]] == Suspended <==> d.state[d.table[j]] == Suspended && j != k
    {
      assert Refreshed(w).state[d.table[j]] == Suspended <==> w.state[d.table[j]] == Suspended;
      if j != k {
        DistinctAt(d.table, j, k);
      }
    }
  }

  /**
   * After rounds `0 .. i - 1`, with `d` the state after rounds `0 .. i - 2`:
   * a state differs from the start only by being Ready, or Waiting where it
   * was Suspended.
   */
  lemma RoundChanges(c: Control, d: Control, i: nat)
    requires Wf(c) && Wf(d) && 1 <= i <= |d.table| && d.state.Keys == c.state.Keys
    requires forall t :: t in c.state && d.state[t] != c.state[t] ==>
               d.state[t] == Ready || (c.state[t] == Suspended && d.state[t] == Waiting)
    ensures forall t :: t in c.state && WakeRound(d, i - 1).state[t] != c.state[t] ==>
              WakeRound(d, i - 1).state[t] == Ready ||
              (c.state[t] == Suspended && WakeRound(d, i - 1).state[t] == Waiting)
  {
    var e := WakeRound(d, i - 1);
    forall t | t in c.state && e.state[t] != c.state[t]
      ensures e.state[t] == Ready || (c.state[t] == Suspended && e.state[t] == Waiting)
    {
      if e.state[t] != d.state[t] {
        assert e.state[t] == Ready || (d.state[t] == Suspended && e.state[t] == Waiting);
      }
    }
  }

  /**
   * The first `i` rounds of the wake loop of `SysTick_Handler`.  On a sorted
   * table the table stays as it is, and an entry leaves Suspended exactly
   * when it is one of the first `i` and due.  A state changes only to Ready,
   * or from Suspended to Waiting; when no Suspended task among the first `i`
   * is due, nothing changes.
   */
  function Wake(c: Control, i: nat): (d: Control)
    requires Wf(c) && i <= |c.table|
    ensures Wf(d) && |d.table| == |c.table|
    ensures d.state.Keys == c.state.Keys
    ensures d.current == c.current && d.next == c.next && d.started == c.started
    ensures d.pendSV == c.pendSV && d.tick == c.tick
    ensures PrioritySorted(c.table) ==> d.table == c.table
    ensures PrioritySorted(c.table) ==>
              forall j :: 0 <= j < |c.table| ==>
                (d.state[c.table[j]] == Suspended <==>
                 c.state[c.table[j]] == Suspended && !(j < i && Due(c.tick, c.table[j])))
    ensures forall t :: t in c.state && d.state[t] != c.state[t] ==>
              d.state[t] == Ready || (c.state[t] == Suspended && d.state[t] == Waiting)
    ensures (forall j :: 0 <= j < i ==> c.state[c.table[j]] != Suspended || !Due(c.tick, c.table[j])) ==>
              d == c
    decreases i
  {
    if i == 0 then c
    else
      var d := Wake(c, i - 1);
      WakeStep(c, d, i);
      WakeRound(d, i - 1)
  }

  /** Round `i - 1` carries the facts `Wake` states from the first `i - 1` rounds to the first `i`. */
  lemma WakeStep(c: Control, d: Control, i: nat)
    requires Wf(c) && Wf(d) && 1 <= i <= |c.table| && |d.table| == |c.table|
    requires d.state.Keys == c.state.Keys && d.tick == c.tick
    requires PrioritySorted(c.table) ==> d.table == c.table
    requires PrioritySorted(c.table) ==>
               forall j :: 0 <= j < |c.table| ==>
                 (d.state[c.table[j]] == Suspended <==>
                  c.state[c.table[j]] == Suspended && !(j < i - 1 && Due(c.tick, c.table[j])))
    requires forall t :: t in c.state && d.state[t] != c.state[t] ==>
               d.state[t] == Ready || (c.state[t] == Suspended && d.state[t] == Waiting)
    requires (forall j :: 0 <= j < i - 1 ==> c.state[c.table[j]] != Suspended || !Due(c.tick, c.table[j])) ==>
               d == c
    ensures var e := WakeRound(d, i - 1);
            && (PrioritySorted(c.table) ==> e.table == c.table)
            && (PrioritySorted(c.table) ==>
                  forall j :: 0 <= j < |c.table| ==>
                    (e.state[c.table[j]] == Suspended <==>
                     c.state[c.table[j]] == Suspended && !(j < i && Due(c.tick, c.table[j]))))
            && (forall t :: t in c.state && e.state[t] != c.state[t] ==>
                  e.state[t] == Ready || (c.state[t] == Suspended && e.state[t] == Waiting))
            && ((forall j :: 0 <= j < i ==> c.state[c.table[j]] != Suspended || !Due(c.tick, c.table[j])) ==>
                  e == c)
  {
    RoundChanges(c, d, i);
    if PrioritySorted(c.table) {
      RoundKeepsTable(d, i);
      RoundSuspended(c, d, i);
    }
  }

  /** Entry `j` is Suspended, blocking, and has a zero period. */
  predicate Stalls(c: Control, j: nat)
    requires Wf(c) && j < |c.table|
  {
    c.state[c.table[j]] == Suspended && c.table[j].blocking == BlockingEnabled && c.table[j].ticksCount == 0
  }

  /**
   * Some round of the wake loop divides by a zero period (the due test
   * computes `g_tick % Ticks_Count`); on a sorted table, exactly when one of
   * the entries it reaches stalls.
   */
  predicate WakeFault(c: Control, i: nat): (f: bool)
    requires Wf(c) && i <= |c.table|
    ensures PrioritySorted(c.table) ==> (f <==> exists j :: 0 <= j < i && Stalls(c, j))
    decreases i
  {
    if i == 0 then false
    else
      var d := Wake(c, i - 1);
      var t := d.table[i - 1];
      var f := WakeFault(c, i - 1) ||
               (d.state[t] == Suspended && t.blocking == BlockingEnabled && t.ticksCount == 0);
      if PrioritySorted(c.table) then
        StallsExtend(c, i);
        f
      else f
  }

  /** A stalling entry among the first `i` is one among the first `i - 1`, or entry `i - 1`. */
  lemma StallsExtend(c: Control, i: nat)
    requires Wf(c) && 1 <= i <= |c.table|
    ensures (exists j :: 0 <= j < i && Stalls(c, j)) <==>
            (exists j :: 0 <= j < i - 1 && Stalls(c, j)) || Stalls(c, i - 1)
  {
    if exists j :: 0 <= j < i && Stalls(c, j) {
      var j :| 0 <= j < i && Stalls(c, j);
      if j < i - 1 {
        assert 0 <= j < i - 1 && Stalls(c, j);
      }
    }
    if Stalls(c, i - 1) {
      assert 0 <= i - 1 < i && Stalls(c, i - 1);
    }
  }

  /** No round of the wake loop has run yet. */
  lemma WakeStarts(c: Control)
    requires Wf(c)
    ensures Wake(c, 0) == c && !WakeFault(c, 0)
  {
  }

  /** The first `i + 1` rounds of the wake loop are the first `i` and round `i`. */
  lemma WakeUnfolds(c: Control, i: nat)
    requires Wf(c) && i < |c.table|
    ensures Wake(c, i + 1) == WakeRound(Wake(c, i), i)
    ensures WakeFault(c, i + 1) <==> WakeFault(c, i) || Stalls(Wake(c, i), i)
  {
  }

  /** Once a round of the wake loop divides by zero, the loop has faulted. */
  lemma {:induction false} WakeFaultPersists(c: Control, i: nat, j: nat)
    requires Wf(c) && i <= j <= |c.table| && WakeFault(c, i)
    ensures WakeFault(c, j)
    decreases j
  {
    hide Wake, WakeRound, Refreshed, Scanned, Sorted, Stalls;
    if i < j {
      WakeFaultPersists(c, i, j - 1);
    }
  }

  /**
   * The dispatch of `SysTick_Handler`.  With an empty queue and a current
   * task that is not Suspended, that task is set Running, enqueued and taken
   * as `NextTask`.  Otherwise the head, if any, is dequeued into `NextTask`
   * (an empty queue leaves `NextTask` as it was) and the dispatch step
   * follows.  A switch is always pended.
   */
  function TickDispatched(c: Control): (d: Control)
    requires Wf(c) && c.started && |c.table| >= 1 && !TickDispatchFault(c)
    ensures Wf(d) && d.pendSV && d.table == c.table && d.current == c.current && d.tick == c.tick
    ensures d.started && d.state.Keys == c.state.Keys
  {
    var cur := c.current;
    if c.ready == [] && c.state[cur] != Suspended then
      c.(state := c.state[cur := Running], ready := Enqueued(c.ready, cur), next := cur, pendSV := true)
    else if c.ready == [] then HandedTo(c, c.next, [])
    else HandedTo(c, c.ready[0], c.ready[1..])
  }

  /**
   * The tick dispatch writes through a null `NextTask`: the queue is empty,
   * the current task is Suspended and no switch was pending.
   */
  predicate TickDispatchFault(c: Control)
    requires Wf(c) && c.started
  {
    c.ready == [] && c.state[c.current] == Suspended && c.next == null
  }

  /**
   * The tick dispatch on an empty queue with the current task not Suspended
   * keeps that task running, alone in the queue; otherwise the head is
   * `NextTask`, set Running, and the current task is re-enqueued as Ready
   * exactly when it keeps its turn.
   */
  lemma TickDispatch(c: Control)
    requires Wf(c) && c.started && |c.table| >= 1 && !TickDispatchFault(c)
    ensures var d := TickDispatched(c);
            var cur := c.current;
            if c.ready == [] && c.state[cur] != Suspended then
              d.next == cur && d.ready == [cur] && d.state == c.state[cur := Running]
            else
              var nxt := if c.ready == [] then c.next else c.ready[0];
              var q := if c.ready == [] then [] else c.ready[1..];
              && d.next == nxt
              && (d.ready == if KeepsTurn(cur, nxt, c.state[cur]) then q + [cur] else q)
              && (d.state == if KeepsTurn(cur, nxt, c.state[cur]) then c.state[nxt := Running][cur := Ready]
                             else c.state[nxt := Running])
  {
  }

  /** `g_tick++` on a `uint32`. */
  function Incremented(tick: Word): (r: Word)
    ensures r == (tick + 1) % TickModulus
  {
    if tick == TickModulus - 1 then 0 else tick + 1
  }

  /** The wake loop of a tick, after the increment; on a sorted table it keeps the table. */
  function Woken(c: Control): (d: Control)
    requires Wf(c)
    ensures Wf(d) && |d.table| == |c.table| && d.tick == Incremented(c.tick)
    ensures d.current == c.current && d.started == c.started && d.state.Keys == c.state.Keys
    ensures PrioritySorted(c.table) ==> d.table == c.table
  {
    Wake(c.(tick := Incremented(c.tick)), |c.table|)
  }

  /**
   * `SysTick_Handler` faults when the wake loop reads an empty table slot
   * (it runs over all `TasksNo` slots), divides by a zero period, or the
   * dispatch writes through a null `NextTask`.
   */
  predicate TickFault(c: Control)
    requires Wf(c) && c.started
  {
    || |c.table| < TasksNo
    || WakeFault(c.(tick := Incremented(c.tick)), |c.table|)
    || TickDispatchFault(Woken(c))
  }

  /**
   * `SysTick_Handler`: the increment, the wake loop and the dispatch.  A
   * tick advances `g_tick` by one modulo 2^32, keeps the current task and
   * pends a switch; on a sorted table it keeps the table.
   */
  function Ticked(c: Control): (d: Control)
    requires Wf(c) && c.started && !TickFault(c)
    ensures Wf(d) && d.pendSV && d.tick == Incremented(c.tick) && d.current == c.current
    ensures d.started && d.state.Keys == c.state.Keys
    ensures PrioritySorted(c.table) ==> d.table == c.table
  {
    TickDispatched(Woken(c))
  }

  /**
   * A tick that does not fault keeps a coherent snapshot over a sorted table
   * coherent, and keeps the table.
   */
  lemma TickCoherent(c: Control)
    requires Coherent(c) && PrioritySorted(c.table) && c.started && !TickFault(c)
    ensures Coherent(Ticked(c)) && Ticked(c).table == c.table
  {
  }

  /**
   * `PendSV_Handler`'s bookkeeping: the pending task becomes current and the
   * pending switch is cleared.
   */
  function Switched(c: Control): (d: Control)
    requires Wf(c) && c.pendSV
    ensures Wf(d) && d.current == c.next && d.next == null && !d.pendSV
    ensures c.current != null && c.next != null
    ensures Coherent(c) ==> Coherent(d)
  {
    c.(current := c.next, next := null, pendSV := false)
  }
}
