# Weighted job scheduling, modelled in Dafny

`payoff_sched.py` reads jobs `(start, finish, payoff)`, sorts them by finish
time, and returns the largest total payoff of a set of pairwise
non-overlapping jobs, together with the jobs that reach it. The core has
three parts:

- the **compatibility indexer** (`find_last_compatible`,
  `last_compatible_jobs`): for each job, the index of the rightmost job whose
  finish time is at most the job's start, or -1. It uses an upper-bound
  binary search.
- the **forward pass** of `dynamic_solution`: it fills `sub_solutions[0..n]`
  with triples `(cost, last job, compatible index of that job)`. It takes a
  job only when that strictly beats skipping it.
- the **backward walk** of `dynamic_solution`: it follows the triples from
  the last entry, collects the chosen jobs and reverses them.

The project has four modules:

- `Jobs` (`jobs.dfy`): the job value, schedules as strictly increasing index
  sequences whose jobs pairwise do not overlap, and the ghost predicate
  `IsMaxPayoff`. That predicate defines the optimum directly, as the best
  value over all such schedules.
- `CompatibilityIndexer` (`compatibility.dfy`): the binary search, the
  per-job search, the table, and the proof that the table is exact.
  Exact means that job `m` is at or before entry `j` if and only if `m`
  finishes by the time `j` starts.
- `Optimum` (`optimum.dfy`): the recurrence `Best` over prefixes, the
  schedule `Plan` it selects, and the proof that `Best` over all jobs is
  the maximum payoff.
- `OptimalSelector` (`selector.dfy`):
  - the forward pass, over an array, and the function `TableAt` that
    specifies it;
  - the backward walk as written (`WalkOrder`) and as evidently intended
    (`ChainOrder`);
  - `DynamicSolution`, a corrected `SolveCorrected`, and two concrete
    counterexamples.

## Model

| member | source | states |
|---|---|---|
| CompatibilityIndexer.LastAtMost | payoff_sched.py:6-12 | the result r lies in [-1, n); if r >= 0 then s[r] <= x; every later element is > x; r = -1 exactly when every element is > x, including on an empty list |
| CompatibilityIndexer.BisectRight | payoff_sched.py:8 | on a sorted list, returns lo in [0, n] with every element before lo <= x and every element from lo on > x (insertion point after equal elements) |
| CompatibilityIndexer.FindLastCompatible | payoff_sched.py:7-12 | bisect position minus one, or -1 for position 0, is exactly the rightmost index whose finish time is <= start |
| CompatibilityIndexer.FinishTimesSorted | payoff_sched.py:17 | the finish-time list searched by `bisect_right` is sorted whenever the jobs are sorted by finish time, which the search needs |
| CompatibilityIndexer.LastCompatibleJobs | payoff_sched.py:15-21 | the table has one entry per job; entry i is the rightmost job finishing by job i's start, searched in the shared finish-time list |
| CompatibilityIndexer.CompatTable | payoff_sched.py:15-21 | one entry per job; on jobs sorted by finish with start < finish, every entry lies in [-1, j), so the forward pass only reads slots it has filled |
| CompatibilityIndexer.CompatTableExact | payoff_sched.py:15-21 | on jobs sorted by finish with start < finish, each entry c[j] is in [-1, j), and job m <= c[j] exactly when m finishes no later than j starts |
| CompatibilityIndexer.NonPositiveLengthLinksForward | payoff_sched.py:15-21 | on jobs sorted by finish, a job with start >= finish gets itself or a later job (one finishing by its start) as its compatible job |
| CompatibilityIndexer.ValidLinksExactlyPositiveLengths | payoff_sched.py:53-54 | on jobs sorted by finish, every entry points strictly before its own job if and only if every job has start < finish, i.e. exactly then does line 54 read only filled slots |
| CompatibilityIndexer.ZeroLengthJobLinksToItself | payoff_sched.py:53-54 | on the single job (1,1,5) the table is [0]: the job is its own compatible job, so the forward pass would read a slot it has not filled yet |
| Optimum.BestMonotone | payoff_sched.py:55-58 | the best payoff of a prefix never decreases as the prefix grows |
| Optimum.PlanIsSchedule | payoff_sched.py:51-58 | the jobs the recurrence selects from the first k form a schedule: strictly increasing indices below k with no two overlapping, and their payoffs sum to Best(k) |
| Optimum.BestIsUpperBound | payoff_sched.py:51-58 | no schedule of the first k jobs pays more than Best(k) |
| Optimum.BestIsMaxPayoff | payoff_sched.py:72 | given an exact table, Best over all jobs is reached by some schedule and bounds every schedule, i.e. it is the maximum payoff |
| OptimalSelector.TableAt | payoff_sched.py:46-58 | entry k names a last job before k, or -1; no last job means compatible index -1; otherwise the entry carries that job's compatible index |
| OptimalSelector.TableLinks | payoff_sched.py:53-58 | an entry whose last job is j was written at slot j+1 and copied unchanged since; its cost is j's payoff plus the cost stored before j's compatible job |
| OptimalSelector.TableEmptyEntry | payoff_sched.py:46-58 | an entry with no last job is the initial (0, -1, -1) |
| OptimalSelector.TableCostIsBest | payoff_sched.py:51-58 | every cost is the recurrence's Best of its prefix, and slot k records job k-1 exactly when taking it strictly beats skipping it (ties skip) |
| OptimalSelector.TableFollowsPlan | payoff_sched.py:55-58 | when an entry's last job is j, the recurrence takes j and its schedule of the prefix is its schedule before j's compatible job followed by j |
| OptimalSelector.TableEmptyPlan | payoff_sched.py:46-58 | an entry with no last job stands for the empty schedule |
| OptimalSelector.TableTakesSomeJob | payoff_sched.py:55-56 | with positive payoffs, every non-empty prefix has a last job |
| OptimalSelector.ForwardPass | payoff_sched.py:42-58 | the array the loop fills is the table, entry by entry, and each stored cost is the best payoff of its prefix |
| OptimalSelector.WalkOrderShape | payoff_sched.py:60-66 | the jobs the walk as written appends, in append order: at least one and at most curr + 2 of them, all input jobs, the first being job curr, or the last job when curr is -1 (Python's `intervals[-1]`) |
| OptimalSelector.WalkIsChain | payoff_sched.py:63-66 | when every non-empty prefix has a last job, the walk as written visits exactly the chain of last jobs |
| OptimalSelector.ChainOrderIsIndices | payoff_sched.py:63-69 | the chain of jobs, reversed, is the jobs at the chain's indices in increasing order |
| OptimalSelector.TableChainIsPlan | payoff_sched.py:60-66 | the chain of last jobs through the table is exactly the recurrence's schedule |
| OptimalSelector.ChainFollowsPlan | payoff_sched.py:60-69 | the reversed chain from entry k is the list of jobs of the recurrence's schedule of the first k jobs |
| OptimalSelector.WalkFollowsPlan | payoff_sched.py:60-69 | with at least one job and positive payoffs, the reversed walk as written is the list of jobs of the recurrence's schedule |
| OptimalSelector.BackwardWalk | payoff_sched.py:60-69 | the loop stops and returns the reversed walk as written, including the read of the last job when curr is -1 |
| OptimalSelector.ChosenIsOptimalSchedule | payoff_sched.py:60-72 | the selected jobs are a subset of the input in input order, pairwise non-overlapping, sorted by finish time, and their payoffs sum to Best |
| OptimalSelector.DynamicSolution | payoff_sched.py:40-72 | for sorted jobs of positive length (at least one), the payoff is the recurrence's Best over all jobs and the maximum over all non-overlapping subsets; the list is the walk as written, and with positive payoffs it is a non-overlapping, chronological selection that sums to the payoff |
| OptimalSelector.SolutionValuesMeetPromise | payoff_sched.py:40-72 | the table's last cost is Best over all jobs, and it and the reversed walk over the table meet the promises of the solution above |
| OptimalSelector.BackwardWalkCorrected | payoff_sched.py:60-69 | the walk stopping when curr is -1 returns the reversed chain of last jobs |
| OptimalSelector.SolveCorrected | payoff_sched.py:40-72 | for every sign of payoff, and for an empty list, the returned jobs are a non-overlapping, chronological selection whose payoffs sum to the returned payoff, which is the maximum |
| OptimalSelector.ZeroPayoffJobRepeated | payoff_sched.py:60-66 | on (0,1,0),(1,2,5) the table ends in (5, 1, 0), but the walk returns job (1,2,5) twice, which pays 10 |
| OptimalSelector.NoGainfulJobStillReturnsLast | payoff_sched.py:60-64 | on (0,1,-3) the table ends in (0, -1, -1), so the payoff is 0, yet the walk returns the job, which pays -3 |

## Left out

- Reading jobs from standard input, skipping malformed lines, sorting by finish time, the `brute` command-line switch and printing (`main`, lines 76-103). These are I/O. The model instead requires jobs already sorted by finish time.
- `compute_optimal` and `brute_force` (lines 25-36) are not modelled. The optimum is defined directly as the maximum over all schedules of non-overlapping jobs (`Jobs.IsMaxPayoff`).
- `bisect_right` is a library call. It is modelled by the hand-written binary search `BisectRight`, which states the library's contract.
- `list.reverse()` (line 69) is modelled as the value-level `Jobs.Reverse`. The model does not capture that the list is reversed in place.
- DynamicSolution: requires at least one job. On an empty list, line 64 indexes `intervals[-1]` and Python raises `IndexError`. `SolveCorrected` covers the empty list.
- DynamicSolution: requires every job to have start < finish. A job with start >= finish links to itself or to a later job (one finishing by its start), so line 54 reads a `None` slot and Python raises `TypeError` (see `NonPositiveLengthLinksForward`, `ValidLinksExactlyPositiveLengths` and `ZeroLengthJobLinksToItself`).
- DynamicSolution: promises a valid selection only for positive payoffs. Without them, the walk as written can repeat a job or return an unprofitable one (see Findings).
- Integer width needs no modelling: Python integers are unbounded, like Dafny's `int`.

## Findings

| source | as written | input that shows it | evidently intended | confidence | as-written member | corrected member |
|---|---|---|---|---|---|---|
| payoff_sched.py:60-66 | the walk goes on while the appended job has a compatible job, then reads `intervals[curr]` even when `curr` is -1 | jobs (0,1,0),(1,2,5): payoff 5, returned jobs (1,2,5),(1,2,5) paying 10 | stop as soon as `curr` is -1, so the list is the optimal schedule | high, not executed | OptimalSelector.ZeroPayoffJobRepeated | OptimalSelector.SolveCorrected |
| payoff_sched.py:60-64 | the first iteration runs even when the last entry has no job (`curr` is -1) | the single job (0,1,-3): payoff 0, returned list [(0,1,-3)] paying -3 | return an empty list when no job is worth taking | high, not executed | OptimalSelector.NoGainfulJobStillReturnsLast | OptimalSelector.SolveCorrected |
