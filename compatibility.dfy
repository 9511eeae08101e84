/**
 * The compatibility indexer: for each job, the index of the rightmost job
 * whose finish time is at most the job's start time, or -1 when there is none.
 */
module CompatibilityIndexer {
  import opened Jobs

  predicate Sorted(s: seq<int>) {
    forall i, j :: 0 <= i < j < |s| ==> s[i] <= s[j]
  }

  /** Rightmost index k with s[k] <= x, or -1 when no element is <= x. */
  function LastAtMost(s: seq<int>, x: int): (r: int)
    ensures -1 <= r < |s|
    ensures r >= 0 ==> s[r] <= x
    ensures forall k :: r < k < |s| ==> s[k] > x
    ensures r == -1 <==> forall k :: 0 <= k < |s| ==> s[k] > x
    decreases |s|
  {
    if |s| == 0 then -1
    else if s[|s| - 1] <= x then |s| - 1
    else LastAtMost(s[..|s| - 1], x)
  }

  /**
   * Upper-bound binary search: the insertion point of x after every element
   * equal to it, i.e. the number of elements <= x of a sorted sequence.
   */
  method BisectRight(a: seq<int>, x: int) returns (lo: int)
    requires Sorted(a)
    ensures 0 <= lo <= |a|
    ensures forall k :: 0 <= k < lo ==> a[k] <= x
    ensures forall k :: lo <= k < |a| ==> a[k] > x
  {
    lo := 0;
    var hi := |a|;
    while lo < hi
      invariant 0 <= lo <= hi <= |a|
      invariant forall k :: 0 <= k < lo ==> a[k] <= x
      invariant forall k :: hi <= k < |a| ==> a[k] > x
    {
      var mid := (lo + hi) / 2;
      if x < a[mid] {
        hi := mid;
      } else {
        lo := mid + 1;
      }
    }
  }

  method FindLastCompatible(finishTimes: seq<int>, start: int) returns (r: int)
    requires Sorted(finishTimes)
    ensures r == LastAtMost(finishTimes, start)
  {
    var i := BisectRight(finishTimes, start);
    if i != 0 {
      r := i - 1;
    } else {
      r := -1;
    }
    LastAtMostUnique(finishTimes, start, r);
  }

  /** Any index with the rightmost-at-most property is the one LastAtMost computes. */
  lemma LastAtMostUnique(s: seq<int>, x: int, r: int)
    requires -1 <= r < |s|
    requires r >= 0 ==> s[r] <= x
    requires forall k :: r < k < |s| ==> s[k] > x
    ensures r == LastAtMost(s, x)
  {
  }

  function FinishTimes(jobs: seq<Job>): seq<int> {
    seq(|jobs|, i requires 0 <= i < |jobs| => jobs[i].finish)
  }

  lemma FinishTimesSorted(jobs: seq<Job>)
    requires SortedByFinish(jobs)
    ensures Sorted(FinishTimes(jobs))
  {
  }

  /**
   * The compatibility table as a value: one search per job against the
   * shared finish times. On sorted jobs of positive length every entry
   * points strictly before its own job.
   */
  function CompatTable(jobs: seq<Job>): (c: seq<int>)
    ensures |c| == |jobs|
    ensures SortedByFinish(jobs) && PositiveLengths(jobs) ==> ValidLinks(jobs, c)
  {
    seq(|jobs|, i requires 0 <= i < |jobs| => LastAtMost(FinishTimes(jobs), jobs[i].start))
  }

  method LastCompatibleJobs(jobs: seq<Job>) returns (lastCompat: seq<int>)
    requires SortedByFinish(jobs)
    ensures |lastCompat| == |jobs|
    ensures forall i {:trigger lastCompat[i]} :: 0 <= i < |jobs| ==> lastCompat[i] == LastAtMost(FinishTimes(jobs), jobs[i].start)
  {
    var table := new int[|jobs|];
    var finishTimes := FinishTimes(jobs);
    FinishTimesSorted(jobs);
    for i := 0 to |jobs|
      invariant forall k {:trigger table[k]} :: 0 <= k < i ==> table[k] == LastAtMost(finishTimes, jobs[k].start)
    {
      table[i] := FindLastCompatible(finishTimes, jobs[i].start);
    }
    lastCompat := table[..];
  }

  /** Entries a table may hold so that the forward pass only reads filled slots: c[j] in [-1, j). */
  predicate ValidLinks(jobs: seq<Job>, c: seq<int>) {
    |c| == |jobs| && forall j :: 0 <= j < |c| ==> -1 <= c[j] < j
  }

  /**
   * The table is exact: every entry points strictly before its job, and the
   * jobs at or before entry j are exactly those that finish by job j's start.
   */
  ghost predicate CompatExact(jobs: seq<Job>, c: seq<int>) {
    && ValidLinks(jobs, c)
    && forall j, m :: 0 <= j < |c| && 0 <= m < |jobs| ==>
         (m <= c[j] <==> jobs[m].finish <= jobs[j].start)
  }

  lemma CompatTableExact(jobs: seq<Job>)
    requires SortedByFinish(jobs) && PositiveLengths(jobs)
    ensures CompatExact(jobs, CompatTable(jobs))
  {
    var f := FinishTimes(jobs);
    var c := CompatTable(jobs);
    forall j | 0 <= j < |c|
      ensures -1 <= c[j] < j
      ensures forall m :: 0 <= m < |jobs| ==> (m <= c[j] <==> jobs[m].finish <= jobs[j].start)
    {
      var r := LastAtMost(f, jobs[j].start);
      assert c[j] == r;
      assert forall k :: j <= k < |f| ==> f[k] > jobs[j].start;
      forall m | 0 <= m < |jobs|
        ensures m <= r <==> jobs[m].finish <= jobs[j].start
      {
        assert f[m] == jobs[m].finish;
        if m < r {
          assert f[m] <= f[r];
        } else if r < m {
          assert f[m] > jobs[j].start;
        }
      }
    }
  }

  /**
   * A job that does not end after it starts links to itself or to a later
   * job (one that finishes by its start, so, the jobs being sorted, one with
   * a finish time between its finish and its start).
   */
  lemma NonPositiveLengthLinksForward(jobs: seq<Job>, j: int)
    requires SortedByFinish(jobs) && 0 <= j < |jobs|
    requires jobs[j].finish <= jobs[j].start
    ensures CompatTable(jobs)[j] >= j
  {
    assert FinishTimes(jobs)[j] == jobs[j].finish;
  }

  /**
   * On sorted jobs the table links every job strictly backwards exactly when
   * every job has positive length: the inputs the forward pass can handle.
   */
  lemma ValidLinksExactlyPositiveLengths(jobs: seq<Job>)
    requires SortedByFinish(jobs)
    ensures ValidLinks(jobs, CompatTable(jobs)) <==> PositiveLengths(jobs)
  {
    if !PositiveLengths(jobs) {
      var j :| 0 <= j < |jobs| && jobs[j].finish <= jobs[j].start;
      NonPositiveLengthLinksForward(jobs, j);
    }
  }

  /**
   * A job whose start equals its finish is its own compatible predecessor:
   * its entry is not below its own index, so the forward pass would read an
   * unfilled slot of the solution table.
   */
  lemma ZeroLengthJobLinksToItself()
    ensures CompatTable([Job(1, 1, 5)]) == [0]
    ensures !ValidLinks([Job(1, 1, 5)], CompatTable([Job(1, 1, 5)]))
  {
    var jobs := [Job(1, 1, 5)];
    assert FinishTimes(jobs) == [1];
    assert LastAtMost([1], 1) == 0;
    var c := CompatTable(jobs);
    assert c[0] == 0;
  }
}
