/**
 * The optimal selector: the forward pass that fills the table of
 * sub-solutions left to right, the backward walk that collects the chosen
 * jobs, and the whole dynamic-programming solution built from them.
 */
module OptimalSelector {
  import opened Jobs
  import opened CompatibilityIndexer
  import opened Optimum

  /**
   * One sub-solution: the best payoff of a prefix, the index of the last job
   * taken in it (-1 if none) and that job's compatible index.
   */
  datatype Entry = Entry(cost: int, last: int, compat: int)

  /** Entry k of the table as the forward pass fills it: take on a strict gain, else copy the previous entry. */
  function TableAt(jobs: seq<Job>, c: seq<int>, k: nat): (e: Entry)
    requires ValidLinks(jobs, c) && k <= |jobs|
    ensures -1 <= e.last < k
    ensures e.last == -1 ==> e.compat == -1
    ensures e.last >= 0 ==> e.compat == c[e.last]
    decreases k
  {
    if k == 0 then Entry(0, -1, -1)
    else
      var index := k - 1;
      var lastCost := TableAt(jobs, c, c[index] + 1).cost;
      if jobs[index].payoff + lastCost > TableAt(jobs, c, index).cost
      then Entry(jobs[index].payoff + lastCost, index, c[index])
      else TableAt(jobs, c, index)
  }

  /**
   * How the entries link: an entry whose last job is j was first written at
   * slot j+1 and copied unchanged since, and its payoff is j's payoff plus
   * the payoff stored before j's compatible predecessor.
   */
  lemma {:induction false} TableLinks(jobs: seq<Job>, c: seq<int>, k: nat, j: nat)
    requires ValidLinks(jobs, c) && k <= |jobs| && TableAt(jobs, c, k).last == j
    ensures TableAt(jobs, c, j + 1) == TableAt(jobs, c, k)
    ensures TableAt(jobs, c, k).cost == jobs[j].payoff + TableAt(jobs, c, c[j] + 1).cost
    decreases k
  {
    var lastCost := TableAt(jobs, c, c[k - 1] + 1).cost;
    if jobs[k - 1].payoff + lastCost <= TableAt(jobs, c, k - 1).cost {
      assert TableAt(jobs, c, k) == TableAt(jobs, c, k - 1);
      TableLinks(jobs, c, k - 1, j);
    }
  }

  /** An entry with no last job is the initial one: payoff 0 and no compatible index. */
  lemma {:induction false} TableEmptyEntry(jobs: seq<Job>, c: seq<int>, k: nat)
    requires ValidLinks(jobs, c) && k <= |jobs| && TableAt(jobs, c, k).last == -1
    ensures TableAt(jobs, c, k) == Entry(0, -1, -1)
    decreases k
  {
    if k > 0 {
      TableEmptyEntry(jobs, c, k - 1);
    }
  }

  /**
   * The table agrees with the recurrence: each payoff is Best of its prefix,
   * and a job is recorded exactly when the recurrence takes it (a tie
   * copies the previous entry, i.e. skips).
   */
  lemma {:induction false} TableCostIsBest(jobs: seq<Job>, c: seq<int>, k: nat)
    requires ValidLinks(jobs, c) && k <= |jobs|
    ensures TableAt(jobs, c, k).cost == Best(jobs, c, k)
    ensures k > 0 ==> (TableAt(jobs, c, k).last == k - 1 <==> Takes(jobs, c, k - 1))
    decreases k
  {
    if k > 0 {
      TableCostIsBest(jobs, c, k - 1);
      TableCostIsBest(jobs, c, c[k - 1] + 1);
    }
  }

  /** Following an entry's last job j gives the recurrence's schedule of that prefix: it takes j. */
  lemma {:induction false} TableFollowsPlan(jobs: seq<Job>, c: seq<int>, k: nat, j: nat)
    requires ValidLinks(jobs, c) && k <= |jobs| && TableAt(jobs, c, k).last == j
    ensures Takes(jobs, c, j) && Plan(jobs, c, k) == Plan(jobs, c, c[j] + 1) + [j]
    decreases k
  {
    TableCostIsBest(jobs, c, k);
    if Takes(jobs, c, k - 1) {
      assert j == k - 1;
      assert Plan(jobs, c, k) == Plan(jobs, c, c[k - 1] + 1) + [k - 1];
    } else {
      assert TableAt(jobs, c, k) == TableAt(jobs, c, k - 1);
      assert Plan(jobs, c, k) == Plan(jobs, c, k - 1);
      TableFollowsPlan(jobs, c, k - 1, j);
    }
  }

  /** An entry with no last job stands for the empty schedule. */
  lemma {:induction false} TableEmptyPlan(jobs: seq<Job>, c: seq<int>, k: nat)
    requires ValidLinks(jobs, c) && k <= |jobs| && TableAt(jobs, c, k).last == -1
    ensures Plan(jobs, c, k) == []
    decreases k
  {
    if k > 0 {
      TableCostIsBest(jobs, c, k);
      assert TableAt(jobs, c, k) == TableAt(jobs, c, k - 1);
      TableEmptyPlan(jobs, c, k - 1);
    }
  }

  /** With positive payoffs every non-empty prefix has a last job. */
  lemma {:induction false} TableTakesSomeJob(jobs: seq<Job>, c: seq<int>, k: nat)
    requires ValidLinks(jobs, c) && PositivePayoffs(jobs) && 1 <= k <= |jobs|
    ensures TableAt(jobs, c, k).last >= 0
    decreases k
  {
    if k > 1 {
      TableTakesSomeJob(jobs, c, k - 1);
    }
  }

  /** The forward pass: sub_solutions[0..n], filled left to right. */
  method ForwardPass(jobs: seq<Job>, lastCompat: seq<int>) returns (subSolutions: seq<Entry>)
    requires ValidLinks(jobs, lastCompat)
    ensures |subSolutions| == |jobs| + 1
    ensures subSolutions == Table(jobs, lastCompat)
    ensures forall k :: 0 <= k <= |jobs| ==> subSolutions[k].cost == Best(jobs, lastCompat, k)
  {
    var sub := new Entry[|jobs| + 1];
    sub[0] := Entry(0, -1, -1);
    for index := 0 to |jobs|
      invariant forall k {:trigger sub[k]} :: 0 <= k <= index ==> sub[k] == TableAt(jobs, lastCompat, k)
    {
      var cost := jobs[index].payoff;
      var lastCompatIndex := lastCompat[index];
      var lastCost := sub[lastCompatIndex + 1].cost;
      if cost + lastCost > sub[index].cost {
        sub[index + 1] := Entry(cost + lastCost, index, lastCompatIndex);
      } else {
        sub[index + 1] := sub[index];
      }
    }
    subSolutions := sub[..];
    assert subSolutions == Table(jobs, lastCompat);
    forall k | 0 <= k <= |jobs|
      ensures subSolutions[k].cost == Best(jobs, lastCompat, k)
    {
      TableCostIsBest(jobs, lastCompat, k);
    }
  }

  /** `t` holds entry k of the forward pass at every slot k. */
  predicate IsTable(jobs: seq<Job>, c: seq<int>, t: seq<Entry>)
    requires ValidLinks(jobs, c)
  {
    |t| == |jobs| + 1 && forall k {:trigger t[k]} :: 0 <= k < |t| ==> t[k] == TableAt(jobs, c, k)
  }

  /** The whole table as the forward pass leaves it. */
  function Table(jobs: seq<Job>, c: seq<int>): (t: seq<Entry>)
    requires ValidLinks(jobs, c)
    ensures IsTable(jobs, c, t) && LinksBackward(t)
  {
    seq(|jobs| + 1, k requires 0 <= k <= |jobs| => TableAt(jobs, c, k))
  }

  /**
   * What the backward walk relies on: an entry's last job lies before its
   * slot, an entry with no last job has no compatible index, and an entry's
   * compatible index lies before its last job.
   */
  predicate LinksBackward(t: seq<Entry>) {
    forall k :: 0 <= k < |t| ==>
      && -1 <= t[k].last < k
      && (t[k].last == -1 ==> t[k].compat == -1)
      && (t[k].last >= 0 ==> -1 <= t[k].compat < t[k].last)
  }

  /** Python's list indexing: a negative index counts from the end. */
  function PyIndex(n: nat, i: int): int {
    if i < 0 then n + i else i
  }

  /**
   * The jobs the backward walk appends, in append order, starting from job
   * index `curr`. As written, the walk goes on while the job just appended
   * has a compatible predecessor, and reads the job at `curr` even when
   * `curr` is -1, which Python resolves to the last job of the list.
   */
  function WalkOrder(jobs: seq<Job>, t: seq<Entry>, curr: int): seq<Job>
    requires |jobs| >= 1 && |t| == |jobs| + 1 && LinksBackward(t) && -1 <= curr < |jobs|
    decreases curr + 1
  {
    var job := jobs[PyIndex(|jobs|, curr)];
    var nex := t[curr + 1].compat;
    if nex == -1 then [job]
    else [job] + WalkOrder(jobs, t, t[nex + 1].last)
  }

  /**
   * The walk always appends at least one job, at most one per slot it can
   * still reach, and starts with job `curr`, or with the last job when
   * `curr` is -1 (Python's `intervals[-1]`). Every job it appends is an
   * input job.
   */
  lemma {:induction false} WalkOrderShape(jobs: seq<Job>, t: seq<Entry>, curr: int)
    requires |jobs| >= 1 && |t| == |jobs| + 1 && LinksBackward(t) && -1 <= curr < |jobs|
    ensures 1 <= |WalkOrder(jobs, t, curr)| <= curr + 2
    ensures WalkOrder(jobs, t, curr)[0] == (if curr == -1 then jobs[|jobs| - 1] else jobs[curr])
    ensures forall x :: x in WalkOrder(jobs, t, curr) ==> x in jobs
    decreases curr + 1
  {
    var nex := t[curr + 1].compat;
    if nex != -1 {
      WalkOrderShape(jobs, t, t[nex + 1].last);
    }
  }

  /**
   * The chain of last jobs from `curr` back to the start of the table, in
   * the order the walk visits them: the walk as evidently intended, stopping
   * as soon as a prefix has no last job.
   */
  function ChainOrder(jobs: seq<Job>, t: seq<Entry>, curr: int): seq<Job>
    requires |t| == |jobs| + 1 && LinksBackward(t) && -1 <= curr < |jobs|
    decreases curr + 1
  {
    if curr == -1 then []
    else [jobs[curr]] + ChainOrder(jobs, t, t[t[curr + 1].compat + 1].last)
  }

  /** When every non-empty prefix has a last job, the walk as written is the chain. */
  lemma {:induction false} WalkIsChain(jobs: seq<Job>, t: seq<Entry>, curr: int)
    requires |jobs| >= 1 && |t| == |jobs| + 1 && LinksBackward(t)
    requires forall k :: 1 <= k < |t| ==> t[k].last >= 0
    requires 0 <= curr < |jobs|
    ensures WalkOrder(jobs, t, curr) == ChainOrder(jobs, t, curr)
    decreases curr
  {
    var i := t[curr + 1].compat + 1;
    ChainStep(jobs, t, curr, i);
    if i == 0 {
      assert ChainOrder(jobs, t, t[i].last) == [];
    } else {
      WalkStep(jobs, t, curr, i);
      WalkIsChain(jobs, t, t[i].last);
    }
  }

  /** One step of the walk that goes on: job curr, then the walk from the last job of slot i. */
  lemma WalkStep(jobs: seq<Job>, t: seq<Entry>, curr: int, i: int)
    requires |jobs| >= 1 && |t| == |jobs| + 1 && LinksBackward(t)
    requires 0 <= curr < |jobs| && t[curr + 1].compat + 1 == i && i > 0
    ensures WalkOrder(jobs, t, curr) == [jobs[curr]] + WalkOrder(jobs, t, t[i].last)
  {
  }

  /** One step of the chain: job curr, then the chain from the last job of slot i. */
  lemma ChainStep(jobs: seq<Job>, t: seq<Entry>, curr: int, i: int)
    requires |t| == |jobs| + 1 && LinksBackward(t)
    requires 0 <= curr < |jobs| && t[curr + 1].compat + 1 == i
    ensures ChainOrder(jobs, t, curr) == [jobs[curr]] + ChainOrder(jobs, t, t[i].last)
  {
  }

  /** The job indices of the chain from `curr`, in chronological order. */
  function ChainIndices(t: seq<Entry>, curr: int): (r: seq<int>)
    requires LinksBackward(t) && -1 <= curr < |t| - 1
    ensures InRange(r, curr + 1)
    decreases curr + 1
  {
    if curr == -1 then []
    else ChainIndices(t, t[t[curr + 1].compat + 1].last) + [curr]
  }

  /** The chain of jobs, reversed, is the jobs at the chain's indices. */
  lemma {:induction false} ChainOrderIsIndices(jobs: seq<Job>, t: seq<Entry>, curr: int)
    requires |t| == |jobs| + 1 && LinksBackward(t) && -1 <= curr < |jobs|
    ensures Reverse(ChainOrder(jobs, t, curr)) == JobsAt(jobs, ChainIndices(t, curr))
    decreases curr + 1
  {
    if curr >= 0 {
      var next := t[t[curr + 1].compat + 1].last;
      ChainOrderIsIndices(jobs, t, next);
      var rest := ChainOrder(jobs, t, next);
      assert ChainOrder(jobs, t, curr) == [jobs[curr]] + rest;
      ReverseCons(jobs[curr], rest);
      JobsAtSnoc(jobs, ChainIndices(t, next), curr);
    } else {
      assert JobsAt(jobs, []) == [];
    }
  }

  /** One link of the chain: job j, preceded by the chain of the entry at slot i. */
  lemma ChainIndicesStep(t: seq<Entry>, j: int, i: int)
    requires LinksBackward(t) && 0 <= j < |t| - 1 && t[j + 1].compat + 1 == i
    ensures ChainIndices(t, j) == ChainIndices(t, t[i].last) + [j]
  {
  }

  /** The chain through the forward pass's table visits exactly the recurrence's schedule. */
  lemma {:induction false} TableChainIsPlan(jobs: seq<Job>, c: seq<int>, t: seq<Entry>, k: nat)
    requires ValidLinks(jobs, c) && k <= |jobs| && IsTable(jobs, c, t) && LinksBackward(t)
    ensures ChainIndices(t, t[k].last) == Plan(jobs, c, k)
    decreases k
  {
    var j := t[k].last;
    if j >= 0 {
      TableChainIsPlan(jobs, c, t, c[j] + 1);
      TableChainStep(jobs, c, t, k, j);
    } else {
      assert t[k] == TableAt(jobs, c, k);
      TableEmptyPlan(jobs, c, k);
    }
  }

  /** A link of the chain through the table is a job the recurrence takes. */
  lemma TableChainStep(jobs: seq<Job>, c: seq<int>, t: seq<Entry>, k: nat, j: nat)
    requires ValidLinks(jobs, c) && k <= |jobs| && IsTable(jobs, c, t) && LinksBackward(t) && t[k].last == j
    requires ChainIndices(t, t[c[j] + 1].last) == Plan(jobs, c, c[j] + 1)
    ensures ChainIndices(t, j) == Plan(jobs, c, k)
  {
    assert t[k] == TableAt(jobs, c, k);
    assert t[j + 1].compat + 1 == c[j] + 1 by {
      TableLinks(jobs, c, k, j);
    }
    ChainIndicesStep(t, j, c[j] + 1);
    TableFollowsPlan(jobs, c, k, j);
  }

  /** Following the chain of the forward pass's table gives the recurrence's schedule, reversed. */
  lemma ChainFollowsPlan(jobs: seq<Job>, c: seq<int>, k: nat)
    requires ValidLinks(jobs, c) && k <= |jobs|
    ensures Reverse(ChainOrder(jobs, Table(jobs, c), TableAt(jobs, c, k).last)) == JobsAt(jobs, Plan(jobs, c, k))
  {
    var t := Table(jobs, c);
    assert t[k] == TableAt(jobs, c, k);
    ChainOrderIsIndices(jobs, t, t[k].last);
    TableChainIsPlan(jobs, c, t, k);
  }

  /** With positive payoffs the walk as written, reversed, is the recurrence's schedule of all the jobs. */
  lemma WalkFollowsPlan(jobs: seq<Job>, c: seq<int>)
    requires ValidLinks(jobs, c) && PositivePayoffs(jobs) && |jobs| >= 1
    ensures Reverse(WalkOrder(jobs, Table(jobs, c), TableAt(jobs, c, |jobs|).last)) == JobsAt(jobs, Plan(jobs, c, |jobs|))
  {
    var t := Table(jobs, c);
    forall k | 1 <= k < |t|
      ensures t[k].last >= 0
    {
      TableTakesSomeJob(jobs, c, k);
    }
    WalkIsChain(jobs, t, t[|jobs|].last);
    ChainFollowsPlan(jobs, c, |jobs|);
  }

  /** The backward walk and the final reversal, as written. */
  method BackwardWalk(jobs: seq<Job>, subSolutions: seq<Entry>) returns (bestIntervals: seq<Job>)
    requires |jobs| >= 1 && |subSolutions| == |jobs| + 1 && LinksBackward(subSolutions)
    ensures bestIntervals == Reverse(WalkOrder(jobs, subSolutions, subSolutions[|jobs|].last))
  {
    var curr := subSolutions[|subSolutions| - 1].last;
    var nex := 0;
    ghost var walk := WalkOrder(jobs, subSolutions, curr);
    var best: seq<Job> := [];
    while nex != -1
      invariant -1 <= curr < |jobs|
      invariant nex == -1 ==> walk == best
      invariant nex != -1 ==> walk == best + WalkOrder(jobs, subSolutions, curr)
      decreases if nex == -1 then 0 else curr + 2
    {
      best := best + [jobs[PyIndex(|jobs|, curr)]];
      nex := subSolutions[curr + 1].compat;
      curr := subSolutions[nex + 1].last;
    }
    bestIntervals := Reverse(best);
  }

  /** The recurrence's schedule of all jobs, as a list of jobs, is valid, chronological and sums to Best. */
  lemma ChosenIsOptimalSchedule(jobs: seq<Job>, c: seq<int>)
    requires CompatExact(jobs, c) && SortedByFinish(jobs)
    ensures var chosen := JobsAt(jobs, Plan(jobs, c, |jobs|));
      && IsSelection(jobs, chosen)
      && NonOverlapping(chosen)
      && SortedByFinish(chosen)
      && TotalPayoff(chosen) == Best(jobs, c, |jobs|)
  {
    var p := Plan(jobs, c, |jobs|);
    PlanIsSchedule(jobs, c, |jobs|);
    var chosen := JobsAt(jobs, p);
    assert forall i, j :: 0 <= i < j < |chosen| ==> chosen[i].finish <= chosen[j].finish by {
      forall i, j | 0 <= i < j < |chosen|
        ensures chosen[i].finish <= chosen[j].finish
      {
        assert p[i] < p[j];
      }
    }
  }

  /**
   * The dynamic-programming solution on jobs sorted by finish time, each of
   * positive length. The payoff is always the optimum; the returned jobs are
   * the walk as written, which for positive payoffs is a valid schedule in
   * chronological order whose payoffs sum to the optimum.
   */
  method DynamicSolution(jobs: seq<Job>) returns (payoff: int, chosen: seq<Job>)
    requires |jobs| >= 1
    requires SortedByFinish(jobs) && PositiveLengths(jobs)
    ensures payoff == Best(jobs, CompatTable(jobs), |jobs|)
    ensures IsMaxPayoff(jobs, payoff)
    ensures var c := CompatTable(jobs);
      ValidLinks(jobs, c) && chosen == Reverse(WalkOrder(jobs, Table(jobs, c), TableAt(jobs, c, |jobs|).last))
    ensures PositivePayoffs(jobs) ==>
      && IsSelection(jobs, chosen)
      && NonOverlapping(chosen)
      && SortedByFinish(chosen)
      && TotalPayoff(chosen) == payoff
  {
    var lastCompat := LastCompatibleJobs(jobs);
    assert lastCompat == CompatTable(jobs);
    var subSolutions := ForwardPass(jobs, lastCompat);
    chosen := BackwardWalk(jobs, subSolutions);
    payoff := subSolutions[|subSolutions| - 1].cost;
    SolutionValuesMeetPromise(jobs, lastCompat, payoff, chosen);
  }

  /** What the solution returns, as values, meets the solution's promises. */
  lemma SolutionValuesMeetPromise(jobs: seq<Job>, c: seq<int>, payoff: int, chosen: seq<Job>)
    requires |jobs| >= 1 && SortedByFinish(jobs) && PositiveLengths(jobs) && c == CompatTable(jobs)
    requires payoff == Table(jobs, c)[|jobs|].cost
    requires chosen == Reverse(WalkOrder(jobs, Table(jobs, c), Table(jobs, c)[|jobs|].last))
    ensures payoff == Best(jobs, c, |jobs|)
    ensures IsMaxPayoff(jobs, payoff)
    ensures ValidLinks(jobs, c) && chosen == Reverse(WalkOrder(jobs, Table(jobs, c), TableAt(jobs, c, |jobs|).last))
    ensures PositivePayoffs(jobs) ==>
      && IsSelection(jobs, chosen)
      && NonOverlapping(chosen)
      && SortedByFinish(chosen)
      && TotalPayoff(chosen) == payoff
  {
    CompatTableExact(jobs);
    assert Table(jobs, c)[|jobs|] == TableAt(jobs, c, |jobs|);
    TableCostIsBest(jobs, c, |jobs|);
    BestIsMaxPayoff(jobs, c);
    if PositivePayoffs(jobs) {
      WalkFollowsPlan(jobs, c);
      ChosenIsOptimalSchedule(jobs, c);
    }
  }

  /** The backward walk with the loop stopping when a prefix has no last job. */
  method BackwardWalkCorrected(jobs: seq<Job>, subSolutions: seq<Entry>) returns (bestIntervals: seq<Job>)
    requires |subSolutions| == |jobs| + 1 && LinksBackward(subSolutions)
    ensures bestIntervals == Reverse(ChainOrder(jobs, subSolutions, subSolutions[|jobs|].last))
  {
    var curr := subSolutions[|jobs|].last;
    ghost var chain := ChainOrder(jobs, subSolutions, curr);
    var best: seq<Job> := [];
    while curr != -1
      invariant -1 <= curr < |jobs|
      invariant chain == best + ChainOrder(jobs, subSolutions, curr)
      decreases curr + 1
    {
      best := best + [jobs[curr]];
      var nex := subSolutions[curr + 1].compat;
      curr := subSolutions[nex + 1].last;
    }
    assert best + ChainOrder(jobs, subSolutions, curr) == best;
    bestIntervals := Reverse(best);
  }

  /**
   * The solution with the corrected walk: for every sign of payoff, and for
   * no jobs at all, the returned jobs form an optimal schedule in
   * chronological order whose payoffs sum to the returned payoff.
   */
  method SolveCorrected(jobs: seq<Job>) returns (payoff: int, chosen: seq<Job>)
    requires SortedByFinish(jobs) && PositiveLengths(jobs)
    ensures IsMaxPayoff(jobs, payoff)
    // NonOverlapping follows from IsSelection; it is stated for callers' convenience.
    ensures IsSelection(jobs, chosen) && NonOverlapping(chosen) && SortedByFinish(chosen)
    ensures TotalPayoff(chosen) == payoff
    ensures |jobs| == 0 ==> payoff == 0 && chosen == []
  {
    var lastCompat := LastCompatibleJobs(jobs);
    CompatTableExact(jobs);
    assert lastCompat == CompatTable(jobs);
    var subSolutions := ForwardPass(jobs, lastCompat);
    chosen := BackwardWalkCorrected(jobs, subSolutions);
    payoff := subSolutions[|jobs|].cost;
    BestIsMaxPayoff(jobs, lastCompat);
    ChainFollowsPlan(jobs, lastCompat, |jobs|);
    ChosenIsOptimalSchedule(jobs, lastCompat);
  }

  /**
   * A zero-payoff first job followed by a job that fits after it: the table
   * ends in (5, 1, 0), the walk appends job (1, 2, 5), moves to the prefix
   * before it, which has no last job (curr == -1), and appends the last job
   * of the list again. The returned list pays 10 while the returned payoff is 5.
   */
  lemma ZeroPayoffJobRepeated()
    ensures var jobs := [Job(0, 1, 0), Job(1, 2, 5)];
      var c := CompatTable(jobs);
      && ValidLinks(jobs, c)
      && TableAt(jobs, c, 2) == Entry(5, 1, 0)
      && Reverse(WalkOrder(jobs, Table(jobs, c), 1)) == [Job(1, 2, 5), Job(1, 2, 5)]
      && TotalPayoff([Job(1, 2, 5), Job(1, 2, 5)]) == 10
  {
    var jobs := [Job(0, 1, 0), Job(1, 2, 5)];
    assert FinishTimes(jobs) == [1, 2];
    assert LastAtMost([1, 2], 0) == -1 by {
      assert [1, 2][..1] == [1];
    }
    assert LastAtMost([1, 2], 1) == 0 by {
      assert [1, 2][..1] == [1];
    }
    var c := CompatTable(jobs);
    assert c == [-1, 0];
    var t := Table(jobs, c);
    assert t[0] == Entry(0, -1, -1);
    assert t[1] == Entry(0, -1, -1);
    assert t[2] == Entry(5, 1, 0);
    assert WalkOrder(jobs, t, -1) == [Job(1, 2, 5)];
    assert WalkOrder(jobs, t, 1) == [Job(1, 2, 5), Job(1, 2, 5)];
    assert Reverse([Job(1, 2, 5), Job(1, 2, 5)]) == [Job(1, 2, 5), Job(1, 2, 5)] by {
      ReverseCons(Job(1, 2, 5), [Job(1, 2, 5)]);
      ReverseCons(Job(1, 2, 5), []);
    }
    assert TotalPayoff([Job(1, 2, 5)]) == 5 by {
      assert [Job(1, 2, 5)][..0] == [];
    }
    assert [Job(1, 2, 5), Job(1, 2, 5)][..1] == [Job(1, 2, 5)];
  }

  /**
   * A single job with a negative payoff: no job is worth taking, so the
   * table ends in (0, -1, -1) and the returned payoff is 0, yet the walk
   * starts at curr == -1 and appends the last job of the list, whose payoff
   * is -3.
   */
  lemma NoGainfulJobStillReturnsLast()
    ensures var jobs := [Job(0, 1, -3)];
      var c := CompatTable(jobs);
      && ValidLinks(jobs, c)
      && TableAt(jobs, c, 1) == Entry(0, -1, -1)
      && Reverse(WalkOrder(jobs, Table(jobs, c), -1)) == [Job(0, 1, -3)]
      && TotalPayoff([Job(0, 1, -3)]) == -3
  {
    var jobs := [Job(0, 1, -3)];
    assert FinishTimes(jobs) == [1];
    assert LastAtMost([1], 0) == -1;
    var c := CompatTable(jobs);
    assert c == [-1];
    var t := Table(jobs, c);
    assert t[0] == Entry(0, -1, -1);
    assert t[1] == Entry(0, -1, -1);
    assert WalkOrder(jobs, t, -1) == [Job(0, 1, -3)];
    assert Reverse([Job(0, 1, -3)]) == [Job(0, 1, -3)] by {
      ReverseCons(Job(0, 1, -3), []);
    }
    assert [Job(0, 1, -3)][..0] == [];
  }
}
