/**
 * What the ready-set refresh (`Update_SchedularTable`, Source/OS.c) computes,
 * stated on values: the ordering the bubble sort establishes and the cohort of
 * tasks the scan admits to the ready queue.
 */
module Scheduling {
  import opened Tasks

  /** What the scan looks at in one table entry. */
  datatype Slot = Slot(priority: nat, suspended: bool)

  /** A half-open index range `[lo, hi)` of the sorted task table. */
  datatype Range = Range(lo: nat, hi: nat)

  /** Entries `i` and `j` of `ts` hold different tasks. */
  predicate Apart(ts: seq<Task>, i: nat, j: nat)
    requires i < |ts| && j < |ts|
  {
    ts[i] != ts[j]
  }

  /**
   * No task appears twice in `ts`.  It is written over `Apart`, so that a
   * proof draws on it only for the pairs of entries it names (`DistinctAt`).
   */
  predicate Distinct(ts: seq<Task>)
  {
    forall i, j :: 0 <= i < j < |ts| ==> Apart(ts, i, j)
  }

  /** Two different entries of a table of distinct tasks hold different tasks. */
  lemma DistinctAt(ts: seq<Task>, i: nat, j: nat)
    requires Distinct(ts) && i < |ts| && j < |ts| && i != j
    ensures ts[i] != ts[j]
  {
    if i < j {
      assert Apart(ts, i, j);
    } else {
      assert Apart(ts, j, i);
    }
  }

  /** A slice of a table of distinct tasks holds distinct tasks. */
  lemma SliceDistinct(ts: seq<Task>, lo: nat, hi: nat)
    requires Distinct(ts) && lo <= hi <= |ts|
    ensures Distinct(ts[lo..hi])
  {
    var q := ts[lo..hi];
    forall i, j | 0 <= i < j < |q| ensures Apart(q, i, j) {
      DistinctAt(ts, lo + i, lo + j);
    }
  }

  /** A task not yet in a table of distinct tasks can be appended to it. */
  lemma SnocDistinct(ts: seq<Task>, t: Task)
    requires Distinct(ts) && t !in ts
    ensures Distinct(ts + [t])
  {
    var q := ts + [t];
    forall i, j | 0 <= i < j < |q| ensures Apart(q, i, j) {
      if j < |ts| {
        DistinctAt(ts, i, j);
      }
    }
  }

  /** Entry `i` of `ts` has a priority no greater than entry `j`. */
  predicate InOrder(ts: seq<Task>, i: nat, j: nat)
    requires i < |ts| && j < |ts|
  {
    ts[i].priority <= ts[j].priority
  }

  /**
   * Non-decreasing `Priority`, the order the bubble sort establishes.  It is
   * written over `InOrder`, so that a proof draws on it only for the pairs of
   * entries it names (`SortedAt`).
   */
  predicate PrioritySorted(ts: seq<Task>)
  {
    forall i, j :: 0 <= i < j < |ts| ==> InOrder(ts, i, j)
  }

  /** In a sorted table an entry has a priority no greater than any later entry. */
  lemma SortedAt(ts: seq<Task>, i: nat, j: nat)
    requires PrioritySorted(ts) && i <= j < |ts|
    ensures ts[i].priority <= ts[j].priority
  {
    if i < j {
      assert InOrder(ts, i, j);
    }
  }

  /**
   * Entries `i` and `j` of `after`, `i` before `j`, come from different
   * entries of `before`, and in their order there when their priorities tie.
   */
  predicate KeptApart(after: seq<Task>, perm: seq<nat>, i: nat, j: nat)
    requires i < |after| && j < |after| && |perm| == |after|
  {
    perm[i] != perm[j] && (after[i].priority == after[j].priority ==> perm[i] < perm[j])
  }

  /**
   * `after[i] == before[perm[i]]` for a bijection `perm`, and two entries of
   * equal priority appear in `after` in the order they had in `before`.
   */
  predicate StablePermutation(before: seq<Task>, after: seq<Task>, perm: seq<nat>)
  {
    && |perm| == |after| == |before|
    && (forall i :: 0 <= i < |perm| ==> perm[i] < |before| && after[i] == before[perm[i]])
    && (forall i, j :: 0 <= i < j < |perm| ==> KeptApart(after, perm, i, j))
  }

  /** The first entry at or after `k` that is not Suspended (`|v|` if none). */
  function FirstEligible(v: seq<Slot>, k: nat): (lo: nat)
    requires k <= |v|
    ensures k <= lo <= |v|
    ensures forall i :: k <= i < lo ==> v[i].suspended
    ensures lo < |v| ==> !v[lo].suspended
    decreases |v| - k
  {
    if k == |v| || !v[k].suspended then k else FirstEligible(v, k + 1)
  }

  /**
   * Where the run of not-Suspended entries sharing `v[lo]`'s priority, known
   * to reach at least `k`, ends.
   */
  function RunEnd(v: seq<Slot>, lo: nat, k: nat): (hi: nat)
    requires lo < k <= |v|
    requires forall i :: lo <= i < k ==> !v[i].suspended && v[i].priority == v[lo].priority
    ensures k <= hi <= |v|
    ensures forall i :: lo <= i < hi ==> !v[i].suspended && v[i].priority == v[lo].priority
    ensures hi < |v| ==> v[hi].suspended || v[hi].priority != v[lo].priority
    decreases |v| - k
  {
    if k == |v| || v[k].suspended || v[k].priority != v[lo].priority then k
    else RunEnd(v, lo, k + 1)
  }

  /**
   * The entries a refresh enqueues: starting at the first not-Suspended entry,
   * the maximal contiguous run of not-Suspended entries of that entry's
   * priority.  `CohortShape` states what it is.
   */
  function Cohort(v: seq<Slot>): (r: Range)
    ensures r.lo <= r.hi <= |v|
  {
    var lo := FirstEligible(v, 0);
    if lo == |v| then Range(lo, lo) else Range(lo, RunEnd(v, lo, lo + 1))
  }

  /**
   * The cohort starts at the first not-Suspended entry, is empty exactly when
   * every entry is Suspended, and otherwise is the maximal run of entries of
   * its first entry's priority that are not Suspended.
   */
  lemma CohortShape(v: seq<Slot>)
    ensures forall i :: 0 <= i < Cohort(v).lo ==> v[i].suspended
    ensures Cohort(v).lo == Cohort(v).hi <==> forall i :: 0 <= i < |v| ==> v[i].suspended
    ensures Cohort(v).lo < Cohort(v).hi ==> forall i :: Cohort(v).lo <= i < Cohort(v).hi ==>
              !v[i].suspended && v[i].priority == v[Cohort(v).lo].priority
    ensures Cohort(v).lo < Cohort(v).hi < |v| ==>
              v[Cohort(v).hi].suspended || v[Cohort(v).hi].priority != v[Cohort(v).lo].priority
  {
  }

  /** Entry `k` of the cohort is not Suspended and has the cohort's priority. */
  lemma CohortEntry(v: seq<Slot>, k: nat)
    requires Cohort(v).lo <= k < Cohort(v).hi
    ensures !v[k].suspended && v[k].priority == v[Cohort(v).lo].priority
  {
    CohortShape(v);
  }

  /** The characterisation of `Cohort` determines it. */
  lemma CohortUnique(v: seq<Slot>, lo: nat, hi: nat)
    requires lo <= hi <= |v|
    requires forall i :: 0 <= i < lo ==> v[i].suspended
    requires lo < |v| ==> !v[lo].suspended && lo < hi
    requires forall i :: lo <= i < hi ==> !v[i].suspended && v[i].priority == v[lo].priority
    requires hi < |v| ==> v[hi].suspended || v[hi].priority != v[lo].priority
    ensures Cohort(v) == Range(lo, hi)
  {
  }

  /**
   * What the scan of the refresh finds at entry `k`: before the cohort a
   * Suspended entry; inside it an entry that is not Suspended, and that is
   * the cohort's last exactly when it is the table's last entry or the
   * look-ahead at entry `k + 1` finds that one Suspended or of another
   * priority.  An empty cohort starts past the end of the table.
   */
  lemma CohortStep(v: seq<Slot>, k: nat)
    requires k < |v|
    ensures Cohort(v).lo == Cohort(v).hi ==> Cohort(v).lo == |v|
    ensures k < Cohort(v).lo ==> v[k].suspended
    ensures Cohort(v).lo <= k < Cohort(v).hi ==>
              && !v[k].suspended
              && ((k == |v| - 1 || v[k + 1].suspended || v[k].priority != v[k + 1].priority) <==>
                  k + 1 == Cohort(v).hi)
  {
    CohortShape(v);
  }

  /** Every entry before `m` has a priority no greater than any entry from `m` on. */
  predicate PartitionedAt(ts: seq<Task>, m: nat)
  {
    forall a, b :: 0 <= a < m <= b < |ts| ==> ts[a].priority <= ts[b].priority
  }

  /** The entries from `m` on are in order. */
  predicate SortedFrom(ts: seq<Task>, m: nat)
  {
    forall a, b :: m <= a < b < |ts| ==> ts[a].priority <= ts[b].priority
  }

  /** One step of the inner loop: entries `j` and `j + 1` swap when the first has the greater priority. */
  function SwapIfGreater(ts: seq<Task>, j: nat): (r: seq<Task>)
    requires j + 1 < |ts|
    ensures |r| == |ts|
  {
    if ts[j].priority > ts[j + 1].priority then ts[j := ts[j + 1]][j + 1 := ts[j]] else ts
  }

  /** The table after the first `j` steps of one pass of the inner loop. */
  function PassPrefix(ts: seq<Task>, j: nat): (r: seq<Task>)
    requires j < |ts|
    ensures |r| == |ts|
    decreases j
  {
    if j == 0 then ts else SwapIfGreater(PassPrefix(ts, j - 1), j - 1)
  }

  /** The table after `i` iterations of the outer loop; pass `i` runs `|ts| - i - 1` steps. */
  function Passes(ts: seq<Task>, i: nat): (r: seq<Task>)
    requires 1 <= |ts| && i <= |ts| - 1
    ensures |r| == |ts|
    decreases i
  {
    if i == 0 then ts else PassPrefix(Passes(ts, i - 1), |ts| - i)
  }

  /** What the bubble sort of the refresh leaves in the table. */
  function BubbleSort(ts: seq<Task>): (r: seq<Task>)
    requires 1 <= |ts|
    ensures |r| == |ts|
  {
    Passes(ts, |ts| - 1)
  }

  /**
   * A pass over `[0, j]` leaves a greatest priority of that range at `j`,
   * leaves the entries above `j` alone, and keeps a partition above `j`.
   */
  lemma {:induction false} PassPrefixMoves(ts: seq<Task>, j: nat, m: nat)
    requires j < |ts| && j < m <= |ts| && PartitionedAt(ts, m)
    ensures forall a :: 0 <= a <= j ==> PassPrefix(ts, j)[a].priority <= PassPrefix(ts, j)[j].priority
    ensures forall a :: j < a < |ts| ==> PassPrefix(ts, j)[a] == ts[a]
    ensures PartitionedAt(PassPrefix(ts, j), m)
    decreases j
  {
    if j > 0 {
      PassPrefixMoves(ts, j - 1, m);
    }
  }

  /** One swap step keeps a stable permutation. */
  lemma SwapStable(t0: seq<Task>, ts: seq<Task>, perm: seq<nat>, j: nat) returns (perm': seq<nat>)
    requires j + 1 < |ts| && StablePermutation(t0, ts, perm)
    ensures StablePermutation(t0, SwapIfGreater(ts, j), perm')
  {
    if ts[j].priority > ts[j + 1].priority {
      perm' := perm[j := perm[j + 1]][j + 1 := perm[j]];
      var us := ts[j := ts[j + 1]][j + 1 := ts[j]];
      assert SwapIfGreater(ts, j) == us;
      forall a, b | 0 <= a < b < |us| ensures KeptApart(us, perm', a, b) {
        // where entries `a` and `b` of `us` stood in `ts`
        var a0 := if a == j then j + 1 else if a == j + 1 then j else a;
        var b0 := if b == j then j + 1 else if b == j + 1 then j else b;
        if a0 < b0 {
          assert KeptApart(ts, perm, a0, b0);
        } else {
          assert KeptApart(ts, perm, b0, a0);
        }
      }
    } else {
      perm' := perm;
    }
  }

  lemma {:induction false} PassPrefixStable(t0: seq<Task>, ts: seq<Task>, perm: seq<nat>, j: nat)
    returns (perm': seq<nat>)
    requires j < |ts| && StablePermutation(t0, ts, perm)
    ensures StablePermutation(t0, PassPrefix(ts, j), perm')
    decreases j
  {
    if j == 0 {
      perm' := perm;
    } else {
      var prev := PassPrefix(ts, j - 1);
      assert PassPrefix(ts, j) == SwapIfGreater(prev, j - 1);
      var mid := PassPrefixStable(t0, ts, perm, j - 1);
      perm' := SwapStable(t0, prev, mid, j - 1);
    }
  }

  /** A pass over a sorted table swaps nothing. */
  lemma {:induction false} PassPrefixSorted(ts: seq<Task>, j: nat)
    requires j < |ts| && PrioritySorted(ts)
    ensures PassPrefix(ts, j) == ts
    decreases j
  {
    if j > 0 {
      PassPrefixSorted(ts, j - 1);
      SortedAt(ts, j - 1, j);
    }
  }

  /** After `i` passes the last `i` entries are in place: sorted, and no smaller than any before them. */
  lemma {:induction false} PassesPlace(ts: seq<Task>, i: nat)
    requires 1 <= |ts| && i <= |ts| - 1
    ensures SortedFrom(Passes(ts, i), |ts| - i) && PartitionedAt(Passes(ts, i), |ts| - i)
    decreases i
  {
    if i > 0 {
      PassesPlace(ts, i - 1);
      var prev := Passes(ts, i - 1);
      PassPrefixMoves(prev, |ts| - i, |ts| - i + 1);
    }
  }

  lemma {:induction false} PassesStable(ts: seq<Task>, i: nat) returns (perm: seq<nat>)
    requires 1 <= |ts| && i <= |ts| - 1
    ensures StablePermutation(ts, Passes(ts, i), perm)
    decreases i
  {
    if i == 0 {
      perm := seq(|ts|, k => k);
    } else {
      var prev := Passes(ts, i - 1);
      var mid := PassesStable(ts, i - 1);
      assert Passes(ts, i) == PassPrefix(prev, |ts| - i);
      perm := PassPrefixStable(ts, prev, mid, |ts| - i);
    }
  }

  /** Passes over a sorted table swap nothing. */
  lemma {:induction false} PassesSorted(ts: seq<Task>, i: nat)
    requires 1 <= |ts| && i <= |ts| - 1 && PrioritySorted(ts)
    ensures Passes(ts, i) == ts
    decreases i
  {
    if i > 0 {
      PassesSorted(ts, i - 1);
      PassPrefixSorted(ts, |ts| - i);
    }
  }

  /** The bubble sort orders the table by priority. */
  lemma BubbleSortOrders(ts: seq<Task>)
    requires 1 <= |ts|
    ensures PrioritySorted(BubbleSort(ts))
  {
    var r := BubbleSort(ts);
    PassesPlace(ts, |ts| - 1);
    forall a, b | 0 <= a < b < |r| ensures InOrder(r, a, b) {
      if a == 0 {
        assert PartitionedAt(r, 1);
      } else {
        assert SortedFrom(r, 1);
      }
    }
  }

  /** The bubble sort is a stable permutation of the table. */
  lemma BubbleSortStable(ts: seq<Task>) returns (perm: seq<nat>)
    requires 1 <= |ts|
    ensures StablePermutation(ts, BubbleSort(ts), perm)
  {
    perm := PassesStable(ts, |ts| - 1);
  }

  /** The bubble sort leaves an already sorted table as it is. */
  lemma BubbleSortKeepsSorted(ts: seq<Task>)
    requires 1 <= |ts| && PrioritySorted(ts)
    ensures BubbleSort(ts) == ts
  {
    PassesSorted(ts, |ts| - 1);
  }

  /** An injection of `[0, n)` into itself reaches every index. */
  lemma {:induction false} InjectionCovers(perm: seq<nat>)
    requires forall i :: 0 <= i < |perm| ==> perm[i] < |perm|
    requires forall i, j :: 0 <= i < j < |perm| ==> perm[i] != perm[j]
    ensures forall m :: 0 <= m < |perm| ==> m in perm
    decreases |perm|
  {
    var n := |perm|;
    if n > 0 {
      // drop the last entry, putting its value where `n - 1` was
      var x := perm[n - 1];
      var rest := seq(n - 1, i requires 0 <= i < n - 1 => if perm[i] == n - 1 then x else perm[i]);
      InjectionCovers(rest);
      forall m | 0 <= m < n ensures m in perm {
        if m == x {
          assert perm[n - 1] == m;
        } else if m < n - 1 {
          assert m in rest;
          var i :| 0 <= i < n - 1 && rest[i] == m;
          assert perm[i] == m;
        } else {
          assert x in rest;
          var i :| 0 <= i < n - 1 && rest[i] == x;
          assert perm[i] == m;
        }
      }
    }
  }

  /** The index map of a stable permutation reaches every index. */
  lemma PermutationCovers(before: seq<Task>, after: seq<Task>, perm: seq<nat>)
    requires StablePermutation(before, after, perm)
    ensures forall m :: 0 <= m < |perm| ==> m in perm
  {
    forall i, j | 0 <= i < j < |perm| ensures perm[i] != perm[j] {
      assert KeptApart(after, perm, i, j);
    }
    InjectionCovers(perm);
  }

  /** A permutation of a table of distinct tasks holds the same tasks, still distinct. */
  lemma PermutationKeepsTasks(t0: seq<Task>, t1: seq<Task>, perm: seq<nat>)
    requires StablePermutation(t0, t1, perm) && Distinct(t0)
    ensures Distinct(t1)
    ensures (set t | t in t1) == (set t | t in t0)
  {
    PermutationCovers(t0, t1, perm);
    forall i, j | 0 <= i < j < |t1| ensures Apart(t1, i, j) {
      assert KeptApart(t1, perm, i, j);
      DistinctAt(t0, perm[i], perm[j]);
    }
    forall t | t in t0 ensures t in t1 {
      var m :| 0 <= m < |t0| && t0[m] == t;
      assert m in perm;
      var i :| 0 <= i < |perm| && perm[i] == m;
      assert t1[i] == t;
    }
  }

  /** The bubble sort keeps the tasks of a table, and keeps them distinct. */
  lemma BubbleSortKeepsTasks(ts: seq<Task>)
    requires 1 <= |ts| && Distinct(ts)
    ensures Distinct(BubbleSort(ts))
    ensures forall i :: 0 <= i < |ts| ==> BubbleSort(ts)[i] in ts
    ensures forall j :: 0 <= j < |ts| ==> ts[j] in BubbleSort(ts)
  {
    var us := BubbleSort(ts);
    var perm := BubbleSortStable(ts);
    PermutationKeepsTasks(ts, us, perm);
    PermutationCovers(ts, us, perm);
    forall i | 0 <= i < |ts| ensures us[i] in ts {
      assert us[i] == ts[perm[i]];
    }
    forall j | 0 <= j < |ts| ensures ts[j] in us {
      assert j in perm;
      var i :| 0 <= i < |perm| && perm[i] == j;
      assert us[i] == ts[j];
    }
  }
}
