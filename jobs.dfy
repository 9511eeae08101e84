/** Jobs and schedules: the values the scheduler reads and the subsets it may choose. */
module Jobs {

  /** One job as a (start, finish, payoff) triple. */
  datatype Job = Job(start: int, finish: int, payoff: int)

  /** Two jobs do not overlap when one finishes no later than the other starts. */
  predicate Disjoint(a: Job, b: Job) {
    a.finish <= b.start || b.finish <= a.start
  }

  /** The order the caller establishes before the core runs: ascending finish times. */
  predicate SortedByFinish(jobs: seq<Job>) {
    forall i, j :: 0 <= i < j < |jobs| ==> jobs[i].finish <= jobs[j].finish
  }

  /** Every job occupies a non-empty time window. */
  predicate PositiveLengths(jobs: seq<Job>) {
    forall i :: 0 <= i < |jobs| ==> jobs[i].start < jobs[i].finish
  }

  predicate PositivePayoffs(jobs: seq<Job>) {
    forall i :: 0 <= i < |jobs| ==> jobs[i].payoff > 0
  }

  /** No two jobs of the list overlap. */
  predicate NonOverlapping(js: seq<Job>) {
    forall i, j :: 0 <= i < j < |js| ==> Disjoint(js[i], js[j])
  }

  /** Sum of the payoffs of a list of jobs. */
  function TotalPayoff(js: seq<Job>): int {
    if |js| == 0 then 0 else TotalPayoff(js[..|js| - 1]) + js[|js| - 1].payoff
  }

  lemma TotalPayoffSnoc(js: seq<Job>, x: Job)
    ensures TotalPayoff(js + [x]) == TotalPayoff(js) + x.payoff
  {
    assert (js + [x])[..|js|] == js;
  }

  function Reverse<T>(s: seq<T>): seq<T> {
    if |s| == 0 then [] else Reverse(s[1..]) + [s[0]]
  }

  lemma ReverseCons<T>(x: T, s: seq<T>)
    ensures Reverse([x] + s) == Reverse(s) + [x]
  {
    assert ([x] + s)[1..] == s;
  }

  /** Every index of `idx` lies in [0, k). */
  predicate InRange(idx: seq<int>, k: int) {
    forall i :: 0 <= i < |idx| ==> 0 <= idx[i] < k
  }

  predicate Increasing(idx: seq<int>) {
    forall i, j :: 0 <= i < j < |idx| ==> idx[i] < idx[j]
  }

  /** The jobs at the given indices, in the order of the indices. */
  function JobsAt(jobs: seq<Job>, idx: seq<int>): seq<Job>
    requires InRange(idx, |jobs|)
  {
    seq(|idx|, i requires 0 <= i < |idx| => jobs[idx[i]])
  }

  lemma JobsAtSnoc(jobs: seq<Job>, idx: seq<int>, j: int)
    requires InRange(idx, |jobs|) && 0 <= j < |jobs|
    ensures InRange(idx + [j], |jobs|)
    ensures JobsAt(jobs, idx + [j]) == JobsAt(jobs, idx) + [jobs[j]]
  {
  }

  /**
   * A schedule drawn from the first k jobs: strictly increasing job indices
   * below k (so each job is used at most once, duplicates in the input being
   * distinct jobs) whose jobs pairwise do not overlap.
   */
  ghost predicate IsSchedule(jobs: seq<Job>, idx: seq<int>, k: int) {
    && 0 <= k <= |jobs|
    && InRange(idx, k)
    && Increasing(idx)
    && NonOverlapping(JobsAt(jobs, idx))
  }

  ghost function Value(jobs: seq<Job>, idx: seq<int>): int
    requires InRange(idx, |jobs|)
  {
    TotalPayoff(JobsAt(jobs, idx))
  }

  /** `v` is the largest total payoff of any schedule of all the jobs, and some schedule reaches it. */
  ghost predicate IsMaxPayoff(jobs: seq<Job>, v: int) {
    && (exists idx :: IsSchedule(jobs, idx, |jobs|) && Value(jobs, idx) == v)
    && (forall idx :: IsSchedule(jobs, idx, |jobs|) ==> Value(jobs, idx) <= v)
  }

  /** `chosen` is the list of jobs of some schedule, in input order. */
  ghost predicate IsSelection(jobs: seq<Job>, chosen: seq<Job>) {
    exists idx :: IsSchedule(jobs, idx, |jobs|) && JobsAt(jobs, idx) == chosen
  }
}
