/**
 * Task descriptors of the kernel (the `Task_ref` record of Includes/OS.h).
 *
 * A descriptor is a mutable record shared by reference: the task table, the
 * ready queue, the kernel's current/next slots and the semaphores all hold
 * pointers to the same descriptor, so it is a class here.  The descriptor's
 * `TaskState` is kept by the kernel, in a map from descriptors to states
 * (`Kernel.states`, Os module).  Stack pointers
 * (`uint32*`) are word addresses: address `w` stands for byte address `4 * w`.
 */
module Tasks {

  /** A 32-bit machine word (`uint32`). */
  type Word = x: int | 0 <= x < 0x1_0000_0000

  /** `TaskState`, a C enum: Suspended = 0, Waiting = 1, Ready = 2, Running = 3. */
  newtype TaskState = s: int | 0 <= s < 4
  const Suspended: TaskState := 0
  const Waiting: TaskState := 1
  const Ready: TaskState := 2
  const Running: TaskState := 3

  /** `TimingWaiting.Blocking`: BlockingEnabled = 0, BlockingDisabled = 1. */
  datatype Blocking = BlockingEnabled | BlockingDisabled

  class Task {
    /** Requested stack size in bytes. */
    const stackSize: Word
    /** Lower value = higher precedence (`uint8`). */
    const priority: nat
    /** Address of the task's entry function (`p_TaskEntry`). */
    const entry: Word
    const blocking: Blocking
    /** Wake period in ticks (`TimingWaiting.Ticks_Count`). */
    const ticksCount: Word
    /** Stands for `strcmp(TaskName, "IDLETASK") == 0`. */
    const isIdle: bool

    /** `_S_PSP_Task`: one past the highest word of the task's stack region. */
    var stackStartW: int
    /** `_E_PSP_Task`: lowest word of the task's stack region. */
    var stackEndW: int
    /** `Current_PSP`: the saved process stack pointer. */
    var currentPsp: int
    /** The words of the stack region; word address `a` is `stack[a - stackEndW]`. */
    var stack: array<Word>

    /**
     * A statically initialised descriptor: the configuration fields are set,
     * everything else is zero, so no stack is carved yet.
     */
    constructor (stackSize: Word, priority: nat, entry: Word, blocking: Blocking,
                 ticksCount: Word, isIdle: bool)
      requires priority < 256
      ensures this.stackSize == stackSize && this.priority == priority
      ensures this.entry == entry && this.blocking == blocking
      ensures this.ticksCount == ticksCount && this.isIdle == isIdle
      ensures stackStartW == 0 && stackEndW == 0 && currentPsp == 0
      ensures fresh(stack) && stack.Length == 0
    {
      this.stackSize := stackSize;
      this.priority := priority;
      this.entry := entry;
      this.blocking := blocking;
      this.ticksCount := ticksCount;
      this.isIdle := isIdle;
      stackStartW, stackEndW, currentPsp := 0, 0, 0;
      stack := new Word[0];
    }

    /** Index into `stack` of the word at address `a`. */
    function Index(a: int): int
      reads this`stackEndW
    {
      a - stackEndW
    }
  }
}
