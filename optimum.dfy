/**
 * The weighted-interval-scheduling recurrence over prefixes of the jobs, the
 * schedule it picks, and the proof that its value is the best payoff of any
 * schedule of pairwise non-overlapping jobs.
 */
module Optimum {
  import opened Jobs
  import opened CompatibilityIndexer

  function Max(a: int, b: int): int {
    if a >= b then a else b
  }

  /**
   * Best payoff using only the first k jobs: skip job k-1, or take it together
   * with the best payoff of the jobs up to its compatible predecessor.
   */
  function Best(jobs: seq<Job>, c: seq<int>, k: nat): int
    requires ValidLinks(jobs, c) && k <= |jobs|
    decreases k
  {
    if k == 0 then 0
    else Max(Best(jobs, c, k - 1), jobs[k - 1].payoff + Best(jobs, c, c[k - 1] + 1))
  }

  /** Taking job j strictly beats skipping it; a tie goes to skipping. */
  predicate Takes(jobs: seq<Job>, c: seq<int>, j: nat)
    requires ValidLinks(jobs, c) && j < |jobs|
  {
    jobs[j].payoff + Best(jobs, c, c[j] + 1) > Best(jobs, c, j)
  }

  /** The schedule of the first k jobs that the recurrence selects, as job indices. */
  function Plan(jobs: seq<Job>, c: seq<int>, k: nat): (r: seq<int>)
    requires ValidLinks(jobs, c) && k <= |jobs|
    ensures InRange(r, k) && Increasing(r)
    decreases k
  {
    if k == 0 then []
    else if Takes(jobs, c, k - 1) then Plan(jobs, c, c[k - 1] + 1) + [k - 1]
    else Plan(jobs, c, k - 1)
  }

  /** Best payoffs never decrease as the prefix grows. */
  lemma {:induction false} BestMonotone(jobs: seq<Job>, c: seq<int>, i: nat, k: nat)
    requires ValidLinks(jobs, c) && i <= k <= |jobs|
    ensures Best(jobs, c, i) <= Best(jobs, c, k)
    decreases k
  {
    if i < k {
      BestMonotone(jobs, c, i, k - 1);
    }
  }

  /** The selected schedule is a schedule of the first k jobs, and its payoff is Best. */
  lemma {:induction false} PlanIsSchedule(jobs: seq<Job>, c: seq<int>, k: nat)
    requires CompatExact(jobs, c) && k <= |jobs|
    ensures IsSchedule(jobs, Plan(jobs, c, k), k)
    ensures Value(jobs, Plan(jobs, c, k)) == Best(jobs, c, k)
    decreases k
  {
    if k == 0 {
      assert JobsAt(jobs, []) == [];
    } else if Takes(jobs, c, k - 1) {
      PlanIsSchedule(jobs, c, c[k - 1] + 1);
      PlanTakeStep(jobs, c, k);
    } else {
      PlanIsSchedule(jobs, c, k - 1);
      PlanSkipStep(jobs, c, k);
    }
  }

  /** Skipping job k-1 leaves the selected schedule and its payoff as they were. */
  lemma PlanSkipStep(jobs: seq<Job>, c: seq<int>, k: nat)
    requires CompatExact(jobs, c) && 0 < k <= |jobs| && !Takes(jobs, c, k - 1)
    requires IsSchedule(jobs, Plan(jobs, c, k - 1), k - 1)
    requires Value(jobs, Plan(jobs, c, k - 1)) == Best(jobs, c, k - 1)
    ensures IsSchedule(jobs, Plan(jobs, c, k), k)
    ensures Value(jobs, Plan(jobs, c, k)) == Best(jobs, c, k)
  {
    assert Plan(jobs, c, k) == Plan(jobs, c, k - 1);
  }

  /** Taking job k-1 keeps the selected schedule valid and adds its payoff. */
  lemma PlanTakeStep(jobs: seq<Job>, c: seq<int>, k: nat)
    requires CompatExact(jobs, c) && 0 < k <= |jobs| && Takes(jobs, c, k - 1)
    requires IsSchedule(jobs, Plan(jobs, c, c[k - 1] + 1), c[k - 1] + 1)
    requires Value(jobs, Plan(jobs, c, c[k - 1] + 1)) == Best(jobs, c, c[k - 1] + 1)
    ensures IsSchedule(jobs, Plan(jobs, c, k), k)
    ensures Value(jobs, Plan(jobs, c, k)) == Best(jobs, c, k)
  {
    var j := k - 1;
    var p := Plan(jobs, c, c[j] + 1);
    forall a | 0 <= a < |p|
      ensures jobs[p[a]].finish <= jobs[j].start
    {
      assert p[a] <= c[j];
    }
    ScheduleSnoc(jobs, p, c[j] + 1, j);
    assert Plan(jobs, c, k) == p + [j];
  }

  /** A schedule extended by a later job that starts after all of its jobs finish. */
  lemma ScheduleSnoc(jobs: seq<Job>, p: seq<int>, kp: nat, j: nat)
    requires IsSchedule(jobs, p, kp) && kp <= j < |jobs|
    requires forall a :: 0 <= a < |p| ==> jobs[p[a]].finish <= jobs[j].start
    ensures IsSchedule(jobs, p + [j], j + 1)
    ensures Value(jobs, p + [j]) == Value(jobs, p) + jobs[j].payoff
  {
    JobsAtSnoc(jobs, p, j);
    TotalPayoffSnoc(JobsAt(jobs, p), jobs[j]);
    var js := JobsAt(jobs, p + [j]);
    assert JobsAt(jobs, p) == js[..|p|];
    forall a, b | 0 <= a < b < |js|
      ensures Disjoint(js[a], js[b])
    {
      if b < |p| {
        assert js[a] == JobsAt(jobs, p)[a] && js[b] == JobsAt(jobs, p)[b];
      }
    }
  }

  /** No schedule of the first k jobs pays more than Best. */
  lemma {:induction false} BestIsUpperBound(jobs: seq<Job>, c: seq<int>, k: nat, idx: seq<int>)
    requires CompatExact(jobs, c) && k <= |jobs|
    requires IsSchedule(jobs, idx, k)
    ensures Value(jobs, idx) <= Best(jobs, c, k)
    decreases k
  {
    if k == 0 {
      assert idx == [];
      assert JobsAt(jobs, idx) == [];
    } else if |idx| == 0 || idx[|idx| - 1] < k - 1 {
      ScheduleWithoutLast(jobs, idx, k);
      BestIsUpperBound(jobs, c, k - 1, idx);
    } else {
      var p := idx[..|idx| - 1];
      ScheduleEndingAtLast(jobs, c, idx, k);
      BestIsUpperBound(jobs, c, c[k - 1] + 1, p);
    }
  }

  /** A schedule of the first k jobs that does not use job k-1 is a schedule of the first k-1. */
  lemma ScheduleWithoutLast(jobs: seq<Job>, idx: seq<int>, k: nat)
    requires 0 < k <= |jobs| && IsSchedule(jobs, idx, k)
    requires |idx| == 0 || idx[|idx| - 1] < k - 1
    ensures IsSchedule(jobs, idx, k - 1)
  {
    forall i | 0 <= i < |idx|
      ensures idx[i] < k - 1
    {
      assert idx[i] <= idx[|idx| - 1];
    }
  }

  /**
   * A schedule of the first k jobs that ends with job k-1 is job k-1 after a
   * schedule of the jobs up to its compatible predecessor.
   */
  lemma ScheduleEndingAtLast(jobs: seq<Job>, c: seq<int>, idx: seq<int>, k: nat)
    requires CompatExact(jobs, c) && 0 < k <= |jobs| && IsSchedule(jobs, idx, k)
    requires |idx| > 0 && idx[|idx| - 1] == k - 1
    ensures IsSchedule(jobs, idx[..|idx| - 1], c[k - 1] + 1)
    ensures Value(jobs, idx) == Value(jobs, idx[..|idx| - 1]) + jobs[k - 1].payoff
  {
    var j := k - 1;
    var p := idx[..|idx| - 1];
    assert idx == p + [j];
    var js := JobsAt(jobs, idx);
    JobsAtSnoc(jobs, p, j);
    TotalPayoffSnoc(JobsAt(jobs, p), jobs[j]);
    assert JobsAt(jobs, p) == js[..|p|];
    forall a | 0 <= a < |p|
      ensures 0 <= p[a] <= c[j]
    {
      var m := p[a];
      assert Disjoint(js[a], js[|p|]);
      assert m < j && c[m] < m;
      assert !(jobs[j].finish <= jobs[m].start);
      assert jobs[m].finish <= jobs[j].start;
    }
  }

  /** Best over all the jobs is the maximum payoff of any schedule. */
  lemma BestIsMaxPayoff(jobs: seq<Job>, c: seq<int>)
    requires CompatExact(jobs, c)
    ensures IsMaxPayoff(jobs, Best(jobs, c, |jobs|))
  {
    PlanIsSchedule(jobs, c, |jobs|);
    forall idx | IsSchedule(jobs, idx, |jobs|)
      ensures Value(jobs, idx) <= Best(jobs, c, |jobs|)
    {
      BestIsUpperBound(jobs, c, |jobs|, idx);
    }
  }
}
