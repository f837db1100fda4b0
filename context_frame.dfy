/**
 * Layout of a task's saved context on its stack, as `OS_CreateTask` builds it
 * and `PendSV_Handler` saves and restores it (Source/OS.c).  Lists of words are
 * given lowest address first.
 */
module ContextFrame {
  import opened Tasks

  /** xPSR with only the Thumb bit (EPSR.T, bit 24) set. */
  const InitialXpsr: Word := 0x0100_0000
  /**
   * EXC_RETURN "return to Thread mode, use the process stack", section B1.5.8
   * of the ARMv7-M Architecture Reference Manual; the source stores it in the
   * frame's LR slot.
   */
  const ExcReturnThreadPsp: Word := 0xFFFF_FFFD
  /** Words of a task's initial frame: 8 hardware-stacked plus r4..r11. */
  const FrameWords: nat := 16
  /** Callee-saved registers r4..r11 that the context switch moves. */
  const SavedWords: nat := 8

  /**
   * The 16 words a new task's stack holds below its start: 13 zero words for
   * R0-R12, then LR = 0xFFFFFFFD, PC = the entry point and xPSR.
   */
  function InitialFrame(entry: Word): (f: seq<Word>)
    ensures |f| == FrameWords
  {
    seq(13, _ => 0) + [ExcReturnThreadPsp, entry, InitialXpsr]
  }

  /** The registers an exception return pops. */
  datatype ExceptionFrame = ExceptionFrame(r0: Word, r1: Word, r2: Word, r3: Word,
                                           r12: Word, lr: Word, pc: Word, xpsr: Word)

  /**
   * The hardware-stacked frame of section B1.5.6 of the ARMv7-M Architecture
   * Reference Manual: R0, R1, R2, R3, R12, LR, return address, xPSR at
   * ascending addresses.
   */
  function Unstack(w: seq<Word>): ExceptionFrame
    requires |w| == 8
  {
    ExceptionFrame(w[0], w[1], w[2], w[3], w[4], w[5], w[6], w[7])
  }

  /**
   * The words the save leaves on the stack for registers `regs` = r4..r11:
   * each push lowers the stack pointer first, so r4 lands highest and r11
   * lowest.
   */
  function SavedImage(regs: seq<Word>): (img: seq<Word>)
    requires |regs| == SavedWords
    ensures |img| == SavedWords
  {
    seq(SavedWords, j requires 0 <= j < SavedWords => regs[SavedWords - 1 - j])
  }

  /** The registers r4..r11 the restore reads from 8 words, popping r11 first. */
  function RestoredRegisters(img: seq<Word>): (regs: seq<Word>)
    requires |img| == SavedWords
    ensures |regs| == SavedWords
  {
    seq(SavedWords, i requires 0 <= i < SavedWords => img[SavedWords - 1 - i])
  }

  /** Restoring what a save wrote gives back the saved registers, and conversely. */
  lemma RestoreAfterSave(regs: seq<Word>, img: seq<Word>)
    requires |regs| == SavedWords && |img| == SavedWords
    ensures RestoredRegisters(SavedImage(regs)) == regs
    ensures SavedImage(RestoredRegisters(img)) == img
  {
    assert forall i :: 0 <= i < SavedWords ==> RestoredRegisters(SavedImage(regs))[i] == regs[i];
    assert forall i :: 0 <= i < SavedWords ==> SavedImage(RestoredRegisters(img))[i] == img[i];
  }

  /**
   * The first switch into a new task pops zeros into r4..r11, leaving the
   * stack pointer at an exception frame that resumes at the entry point in
   * Thumb state with zeroed R0-R3 and R12 and LR = 0xFFFFFFFD.
   */
  lemma FirstSwitchInto(entry: Word)
    ensures RestoredRegisters(InitialFrame(entry)[..SavedWords]) == seq(SavedWords, _ => 0)
    ensures Unstack(InitialFrame(entry)[SavedWords..]) ==
            ExceptionFrame(0, 0, 0, 0, 0, ExcReturnThreadPsp, entry, InitialXpsr)
  {
    var f := InitialFrame(entry);
    assert f[..SavedWords] == seq(SavedWords, _ => 0);
  }
}
