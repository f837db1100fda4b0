/**
 * Address arithmetic of the stack arena (`OS_Init` and `OS_CreateTask`,
 * Source/OS.c).  Addresses are word addresses (byte address / 4); the
 * rounding is done on byte addresses, as the source casts the pointers to
 * `uint32` before dividing.
 */
module StackArena {

  /** Bytes reserved for the main stack below `__INITIAL_SP`. */
  const MainStackBytes: nat := 1000
  /** Gap left below each task's region before the next one (words). */
  const GuardWords: nat := 30

  datatype Region = Region(startW: int, endW: int)

  /**
   * `(x / 8) * 8` on a byte address `x` (the largest multiple of 8 not above
   * it), as a word address: `x / 8` double words are `2 * (x / 8)` words.
   */
  function Floor8(x: int): (w: int)
    ensures w % 2 == 0 && 4 * w <= x < 4 * w + 8
  {
    2 * (x / 8)
  }

  /** A word address at a multiple of 8 bytes. */
  predicate Aligned8(w: int)
  {
    w % 2 == 0
  }

  /** `_E_MSP_Task`: the main stack ends at least 1000 bytes below `__INITIAL_SP`. */
  function MainStackEnd(initialSpW: int): (w: int)
    ensures Aligned8(w)
    ensures 4 * initialSpW - MainStackBytes - 8 < 4 * w <= 4 * initialSpW - MainStackBytes
  {
    Floor8(4 * initialSpW - MainStackBytes)
  }

  /** The first `_PSP_TaskLocator`: 8 bytes below the main stack. */
  function FirstLocator(mainStackEndW: int): (w: int)
    requires Aligned8(mainStackEndW)
    ensures Aligned8(w) && w == mainStackEndW - 2
  {
    Floor8(4 * mainStackEndW - 8)
  }

  /**
   * The region of a new task: from the locator down to the locator minus the
   * stack size, rounded down to 8 bytes.  It holds at least `stackSize` bytes
   * and less than `stackSize + 8`.
   */
  function Carve(locatorW: int, stackSize: nat): (r: Region)
    requires Aligned8(locatorW)
    ensures r.startW == locatorW
    ensures Aligned8(r.startW) && Aligned8(r.endW)
    ensures stackSize <= 4 * (r.startW - r.endW) < stackSize + 8
  {
    Region(locatorW, Floor8(4 * locatorW - stackSize))
  }

  /** The locator after carving `r`: 30 words (120 bytes) below its end. */
  function NextLocator(r: Region): (w: int)
    requires Aligned8(r.endW)
    ensures Aligned8(w) && w + GuardWords == r.endW
  {
    r.endW - GuardWords
  }

  /** The regions handed out by successive creations from `locatorW`. */
  function Layout(locatorW: int, sizes: seq<nat>): (rs: seq<Region>)
    requires Aligned8(locatorW)
    ensures |rs| == |sizes|
    decreases |sizes|
  {
    if sizes == [] then []
    else
      var r := Carve(locatorW, sizes[0]);
      [r] + Layout(NextLocator(r), sizes[1..])
  }

  /** Where the locator stands after successive creations. */
  function LocatorAfter(locatorW: int, sizes: seq<nat>): (w: int)
    requires Aligned8(locatorW)
    ensures Aligned8(w)
    decreases |sizes|
  {
    if sizes == [] then locatorW
    else LocatorAfter(NextLocator(Carve(locatorW, sizes[0])), sizes[1..])
  }

  /** Every region of a layout, and the final locator, lies at or below its first locator. */
  lemma {:induction false} LayoutBelow(locatorW: int, sizes: seq<nat>)
    requires Aligned8(locatorW)
    ensures forall i :: 0 <= i < |sizes| ==>
              Layout(locatorW, sizes)[i].endW <= Layout(locatorW, sizes)[i].startW <= locatorW
    ensures |sizes| > 0 ==> LocatorAfter(locatorW, sizes) + GuardWords <= Layout(locatorW, sizes)[|sizes| - 1].endW
    ensures LocatorAfter(locatorW, sizes) <= locatorW
    decreases |sizes|
  {
    if sizes != [] {
      var r := Carve(locatorW, sizes[0]);
      LayoutBelow(NextLocator(r), sizes[1..]);
      var rs := Layout(locatorW, sizes);
      assert rs == [r] + Layout(NextLocator(r), sizes[1..]);
      assert forall i :: 1 <= i < |sizes| ==> rs[i] == Layout(NextLocator(r), sizes[1..])[i - 1];
    }
  }

  /**
   * Successive regions are 8-byte aligned, strictly descending and disjoint:
   * a later region starts at least the guard gap below an earlier one's end.
   * Each region holds its stack size, rounded up by less than 8 bytes.
   */
  lemma {:induction false} LayoutDisjoint(locatorW: int, sizes: seq<nat>)
    requires Aligned8(locatorW)
    ensures forall i :: 0 <= i < |sizes| ==>
              var r := Layout(locatorW, sizes)[i];
              Aligned8(r.startW) && Aligned8(r.endW) &&
              sizes[i] <= 4 * (r.startW - r.endW) < sizes[i] + 8
    ensures forall i, j :: 0 <= i < j < |sizes| ==>
              Layout(locatorW, sizes)[j].startW + GuardWords <= Layout(locatorW, sizes)[i].endW
    decreases |sizes|
  {
    if sizes != [] {
      var r := Carve(locatorW, sizes[0]);
      var rest := Layout(NextLocator(r), sizes[1..]);
      LayoutDisjoint(NextLocator(r), sizes[1..]);
      LayoutBelow(NextLocator(r), sizes[1..]);
      var rs := Layout(locatorW, sizes);
      assert rs == [r] + rest;
      assert forall i :: 1 <= i < |sizes| ==> rs[i] == rest[i - 1];
    }
  }
}
