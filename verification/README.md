# Identical parallel machines with setups: evaluator, greedy construction, local search and lower bound

This project models, in Dafny, the scheduling core of `ls_pmsp.py`. The
problem is scheduling `n` jobs on `m` identical parallel machines, where:

- job `j` has a processing time `p_j` and a release date `r_j`;
- running job `j` right after job `i` on a machine first costs a setup `s_ij`;
- the goal is a small makespan, the latest completion time over all machines.

It models four parts of the program:

- **The sequence evaluator** (`calculate_sequence_time`). A machine runs its
  list of jobs left to right. Each job starts at the later of the machine's
  completion time and the job's release date. It then pays the setup from
  the previous job (none for the first job) and its processing time.
- **The greedy construction** (`solve_with_ffd`). Jobs are taken longest
  first, ties by ascending id. Each job is appended to the machine whose
  resulting completion time is smallest, ties to the lowest machine id.
- **The restricted local search** (`local_search`). Each round anchors on the
  first most loaded machine (m_max) and the first least loaded machine
  (m_min). It scans three neighbourhoods in a fixed order: transfers from
  m_max to the end of m_min, swaps between m_max and m_min, and swaps inside
  m_max. It commits the first candidate with the lowest estimated makespan
  strictly below the current one, and stops when there is none.
- **The data-dependent lower bound** (`calcular_ddlb`). For each job,
  `delta_i` is the cheapest setup out of job `i`. The bound is the larger of
  two terms. The workload term is (total processing + total delta − the `m`
  largest deltas) / `m`. The critical-path term is the largest
  `r_i + p_i + delta_i`.

Jobs are numbered `1..n`, and machine `k + 1` is index `k` of a solution.
All times are natural numbers. The division in the bound is an exact real
quotient. The exceptions the program raises on degenerate inputs are
`Failure` values:

- the minimum of an empty collection, with zero machines in the
  construction or a single job in the bound;
- a division by zero machines.

Modules:

| module | file | contents |
|---|---|---|
| `Wrappers` | wrappers.dfy | `Option`, `Result` |
| `Extremes` | extremes.dfy | max/argmax/argmin with the program's tie-breaking, sums |
| `Instances` | instances.dfy | the instance, solutions, removing a position, the multiset of placed jobs |
| `Evaluator` | evaluator.dfy | completion time of a sequence, makespan |
| `Construction` | construction.dfy | the greedy construction |
| `Neighbourhoods` | neighbourhoods.dfy | the three move kinds, their scan order, the estimated makespan |
| `LocalSearchEngine` | local_search.dfy | one round, the search loop, and a corrected variant |
| `LowerBound` | lower_bound.dfy | deltas, the bound as written and corrected |
| `JobSums` | job_sums.dfy | per-job tables summed over a schedule |
| `BoundValidity` | bound_validity.dfy | the corrected bound never exceeds a makespan; the bound as written can |
| `Scenarios` | scenarios.dfy | three small instances run through the model |

The docstring of `local_search` (lines 92-96) describes transfers and swaps
between m_max and m_min. When those are the same machine (one machine, or all
machines equally loaded), the code still runs the transfers and the swaps
between them, and the write for m_min (lines 163 and 190) replaces the one for
m_max. Two examples, with every release date 0:

- One machine, two jobs of length 10 and 4, no setups. The first round
  commits `[1, 2, 1]` and reports a makespan of 4, whose true completion time
  is 24 (`Scenarios.OneMachineFirstRound`). The corrected variant stops at 14
  (`Scenarios.OneMachineCorrectedStops`).
- Two machines, jobs of length 1, 1 and 10, a setup of 8 from job 1 to job 2
  and no other setups. `[[1, 2], [3]]` has both machines at 10. The first
  round commits the inter-machine swap of positions 0 and 1, estimated at 2,
  and returns `[[1, 1], [3]]`: job 2 is lost, job 1 runs twice, and the true
  makespan is still 10 (`Scenarios.EqualLoadsFirstRound`). The corrected
  variant stops at 10 (`Scenarios.EqualLoadsCorrectedStops`).

The model follows the code.

The docstring of `local_search` (lines 98-100) speaks of an initial setup
from the virtual job "0". The evaluator charges no setup before the first
job of a machine (lines 57-59), and the model follows the evaluator.

## Model

| member | source | states |
|---|---|---|
| `Evaluator.CalculateSequenceTime` | ls_pmsp.py:45-68 | the left-to-right loop computes the backwards-defined completion time `SeqTime`, with 0 for the empty sequence |
| `Evaluator.AppendMonotone` | ls_pmsp.py:54-65 | appending a job never lowers the completion time, and the result is at least that job's release plus processing |
| `Evaluator.PrefixMonotone` | ls_pmsp.py:54-65 | a prefix never finishes later than the whole sequence |
| `Evaluator.CompletionAfterEveryJob` | ls_pmsp.py:54-65 | a machine finishes no earlier than release + processing of any job it runs |
| `Extremes.MaxOf` | ls_pmsp.py:112 | the maximum is one of the values and bounds all of them |
| `Extremes.ArgMax` | ls_pmsp.py:121 | m_max holds the largest time, and every lower machine id has a strictly smaller one |
| `Extremes.ArgMin` | ls_pmsp.py:122 | m_min holds the smallest time, and every lower machine id has a strictly larger one |
| `Extremes.ArgMaxIsArgMinIffFlat` | ls_pmsp.py:121-122 | m_max and m_min coincide exactly when every machine has the same time |
| `Extremes.MaxOthers` | ls_pmsp.py:127-132 | max_outros bounds every machine other than the two anchors and is attained by one of them, or is 0 |
| `Extremes.FirstBest` | ls_pmsp.py:158-164 | the strict-improvement scan returns nothing exactly when no value beats the bound; otherwise the first position of the minimum, which beats the bound |
| `Construction.SortByProcessing` | ls_pmsp.py:74 | the order is a permutation of the job ids, longest first, ties by ascending id |
| `Construction.ChooseMachine` | ls_pmsp.py:84 | the chosen machine gives the smallest appended time, and every lower id gives a strictly larger one |
| `Construction.Place` | ls_pmsp.py:84-85 | the job goes to the end of one machine and every other machine is unchanged; that machine gives the smallest appended time, and every lower machine id a strictly larger one; the job multiset gains exactly that job |
| `Construction.AssignAll` | ls_pmsp.py:78-85 | assigning a list adds exactly its jobs |
| `Construction.Ffd` | ls_pmsp.py:71-87 | fails exactly with zero machines and at least one job; otherwise one sequence per machine, every job placed exactly once |
| `Neighbourhoods.TransferMoves` | ls_pmsp.py:138 | exactly the transfers of an existing position, in increasing position |
| `Neighbourhoods.InterSwapRows` | ls_pmsp.py:169-170 | exactly the pairs of positions of m_max and m_min, first position outer |
| `Neighbourhoods.IntraSwapRows` | ls_pmsp.py:197-199 | exactly the pairs i < j of m_max, i outer |
| `Neighbourhoods.Moves` | ls_pmsp.py:138-217 | the candidates of a round are exactly the moves whose positions exist, each once, in the scan order transfers, inter swaps, intra swaps |
| `Instances.Remove` | ls_pmsp.py:140-141 | popping position i leaves a sequence one shorter in which the jobs before i stay in place and the jobs after i move down one place in order; exactly that job leaves the multiset |
| `Neighbourhoods.Apply` | ls_pmsp.py:161-163 | a neighbour differs from the solution only at m_max and m_min |
| `Neighbourhoods.ApplyValid` | ls_pmsp.py:161-163 | a neighbour holds only jobs of the instance |
| `Neighbourhoods.TransferKeepsJobs` | ls_pmsp.py:140-144 | with distinct anchors, a transfer keeps the multiset of all jobs |
| `Neighbourhoods.InterSwapKeepsJobs` | ls_pmsp.py:171-175 | with distinct anchors, an inter-machine swap keeps the multiset of all jobs |
| `Neighbourhoods.IntraSwapKeepsJobs` | ls_pmsp.py:200-201 | an intra-machine swap keeps the multiset of all jobs |
| `Neighbourhoods.ApplyPreservesJobs` | ls_pmsp.py:138-217 | every neighbour between distinct anchors, and every intra swap, keeps the multiset of all jobs |
| `Neighbourhoods.DegenerateTransferDuplicates` | ls_pmsp.py:161-163 | with m_max == m_min, the later write wins: the transfer keeps the sequence and appends a second copy of the job |
| `Neighbourhoods.EstimateIsMakespan` | ls_pmsp.py:146-211 | with distinct anchors, the estimate (including the two-machine form) equals the neighbour's true makespan |
| `LocalSearchEngine.RoundMoves` | ls_pmsp.py:138-217 | a round's candidates are exactly the moves that exist for this round's anchors, in scan order |
| `LocalSearchEngine.CandidateCoversRewritten` | ls_pmsp.py:146-211 | for any machine count, an estimate is at least the new time of m_max, and for an inter swap also of m_min |
| `LocalSearchEngine.Choice` | ls_pmsp.py:117-217 | the scan finds nothing exactly when no candidate beats the current makespan; otherwise the first candidate with the lowest estimate |
| `LocalSearchEngine.PickStopsIffNoImprovement` | ls_pmsp.py:222-224 | a scan stops exactly when no listed move beats the current makespan |
| `LocalSearchEngine.PickBest` | ls_pmsp.py:158-159 | the accepted estimate is the lowest of the list |
| `LocalSearchEngine.PickFirst` | ls_pmsp.py:158 | every move scanned before the accepted one has a strictly higher estimate |
| `LocalSearchEngine.Step` | ls_pmsp.py:115-228 | an accepted round reports a strictly lower makespan, the estimate of a move of this round, applied between this round's anchors |
| `LocalSearchEngine.StepStopsIffNoImprovement` | ls_pmsp.py:222-224 | a round finds a local optimum exactly when no candidate beats the current makespan |
| `LocalSearchEngine.StepPicksBest` | ls_pmsp.py:158-217 | the accepted move has the lowest estimate of the round |
| `LocalSearchEngine.StepPicksFirst` | ls_pmsp.py:158-217 | ties go to the scan order: moves scanned earlier have strictly higher estimates |
| `LocalSearchEngine.StepSound` | ls_pmsp.py:222-235 | an accepted round with distinct anchors keeps every job and reports the neighbour's true makespan |
| `LocalSearchEngine.Round` | ls_pmsp.py:115-228 | an accepted round yields a solution of the instance at a strictly lower makespan |
| `LocalSearchEngine.SearchProperties` | ls_pmsp.py:115-240 | the run of successive rounds, each played on the previous neighbour at its reported makespan, ends on a solution of the instance at a makespan no higher than the start; its accepted makespans strictly descend, the last one is the final makespan, and the final round finds no improvement |
| `LocalSearchEngine.SearchKeepsJobs` | ls_pmsp.py:222-235 | started at a solution's true makespan, a corrected run, or one with no round where m_max == m_min, keeps the jobs and reports the true makespan of its result |
| `LocalSearchEngine.SearchOneRound` | ls_pmsp.py:115-240 | a run whose first round is accepted and whose next round finds nothing is exactly that one round, ending on its neighbour at its reported makespan |
| `LocalSearchEngine.LocalSearch` | ls_pmsp.py:90-240 | terminates; returns exactly the run of successive rounds from the initial solution at its makespan, with one more iteration than accepted rounds; the makespans strictly descend below the initial one and the last is the one reported; the result is a local optimum; if no round had m_max == m_min, the jobs are kept and the reported makespan is the true one |
| `LocalSearchEngine.AllowedMoves` | ls_pmsp.py:138-217 | corrected candidates: all moves when the anchors differ, only swaps inside m_max when they coincide |
| `LocalSearchEngine.CorrectedStepStopsIffNoImprovement` | ls_pmsp.py:222-224 | a corrected round stops exactly when no allowed move beats the current makespan |
| `LocalSearchEngine.SelfSwapIsMakespan` | ls_pmsp.py:206-207 | on one machine, a swap's estimate is the neighbour's makespan |
| `LocalSearchEngine.SelfSwapNoGain` | ls_pmsp.py:208-211 | with two or more equally loaded machines, a swap inside m_max is never estimated below the makespan |
| `LocalSearchEngine.CorrectedStepSound` | ls_pmsp.py:161-163 | an accepted corrected round keeps every job and reports the true makespan, whether or not the anchors coincide |
| `LocalSearchEngine.CorrectedLocalSearch` | ls_pmsp.py:90-240 | returns exactly the run of successive corrected rounds from the initial solution; it always keeps the initial jobs and reports the true makespan of its result, which is a local optimum for the allowed moves |
| `LowerBound.MinExcept` | ls_pmsp.py:266-270 | the minimum of a setup row outside the diagonal, absent exactly when the row has no other entry |
| `LowerBound.Delta` | ls_pmsp.py:263-271 | delta_i is at most every setup out of job i to another job and equal to one of them |
| `LowerBound.SortDescending` | ls_pmsp.py:278 | the same values, largest first |
| `LowerBound.TopSumIsLargest` | ls_pmsp.py:278-279 | the sum of the m largest deltas is at least the sum of any m of them and at most the total |
| `LowerBound.CriticalPath` | ls_pmsp.py:284-290 | the critical-path term bounds every job's path and is one of them, or 0 |
| `LowerBound.DdlbCoversEveryJob` | ls_pmsp.py:284-291 | the bound is at least r_i + p_i + delta_i of every job |
| `LowerBound.TotalWorkCoversProcessing` | ls_pmsp.py:274-280 | processing plus the minimum total setup is at least the total processing |
| `LowerBound.DdlbCoversWorkload` | ls_pmsp.py:280-291 | the bound is at least the workload term |
| `LowerBound.DdlbCoversProcessing` | ls_pmsp.py:274-291 | the bound is at least the total processing shared over the machines |
| `LowerBound.DdlbFailsOnlyOnDegenerateInstances` | ls_pmsp.py:266-282 | the bound fails exactly on a single job (empty minimum) or zero machines (division by zero) |
| `BoundValidity.MachineCovers` | ls_pmsp.py:54-65 | a machine's completion time plus its last job's delta covers the processing and deltas of all its jobs |
| `BoundValidity.WorkloadBelowMakespan` | ls_pmsp.py:274-282 | the workload total is at most m times the makespan of any schedule placing every job once |
| `BoundValidity.CriticalPathBelowMakespan` | ls_pmsp.py:285-290 | without deltas, the critical path is at most such a makespan |
| `BoundValidity.CorrectedDdlbIsLowerBound` | ls_pmsp.py:246-292 | the corrected bound never exceeds the makespan of a schedule on the machines that places every job once |
| `BoundValidity.FfdMeetsCorrectedBound` | ls_pmsp.py:71-87 | the construction's makespan is at least the corrected bound |
| `BoundValidity.RearrangementMeetsCorrectedBound` | ls_pmsp.py:222-235 | a schedule with the jobs of the construction's, as every run without degenerate rounds returns, meets the corrected bound |
| `BoundValidity.AsWrittenDdlbExceedsMakespan` | ls_pmsp.py:285-291 | the bound as written is 15 on an instance with a schedule of makespan 10; the corrected bound is 10 |
| `Scenarios.ThreeJobsOrder` | ls_pmsp.py:74 | lengths 10, 4, 6 are handled in the order 1, 3, 2 |
| `Scenarios.ThreeJobsConstruction` | ls_pmsp.py:78-87 | on two machines the construction builds [[1], [3, 2]] with makespan 10 |
| `Scenarios.OneMachineConstruction` | ls_pmsp.py:78-87 | on one machine the construction builds [[1, 2]] with makespan 14 |
| `Scenarios.OneMachineFirstRound` | ls_pmsp.py:138-164 | on one machine the first round commits [[1, 2, 1]] with a reported makespan of 4 and a true one of 24 |
| `Scenarios.OneMachineSecondRound` | ls_pmsp.py:222-224 | the next round finds a local optimum |
| `Scenarios.OneMachineRun` | ls_pmsp.py:115-240 | the whole search from [[1, 2]] at 14 accepts one transfer and returns [[1, 2, 1]] at a reported 4 |
| `Scenarios.OneMachineCorrectedRun` | ls_pmsp.py:115-240 | the corrected search from [[1, 2]] accepts nothing and returns [[1, 2]] at 14 |
| `Scenarios.OneMachineCorrectedStops` | ls_pmsp.py:196-217 | with the allowed moves only, the first round finds nothing below 14 |
| `Scenarios.EqualLoadsFirstRound` | ls_pmsp.py:168-191 | on two equally loaded machines the first round commits the inter-machine swap [[1, 2], [3]] to [[1, 1], [3]], reported as 2; job 2 is lost and the true makespan is 10 |
| `Scenarios.EqualLoadsCorrectedStops` | ls_pmsp.py:196-217 | with the allowed moves only, that round finds nothing below 10 |

## Left out

- Loading an instance from JSON (lines 8-42) is not modelled: the instance is a value. That includes the `None`-to-0 setup rule and the virtual setup row "0" (lines 33-40), which no modelled function reads.
- The command-line driver, scenario runner, printing and timing are not modelled.
- `copy.deepcopy` is not modelled: solutions are immutable values.
- Times and setups are natural numbers, so negative data is not modelled.
- The bound's division is an exact real quotient rather than a floating-point one.
- `LocalSearchEngine.LocalSearch` requires one sequence per configured machine and at least one machine. With no machines the code raises at line 121. The search is only ever given the construction's output, which has that shape.
- `LocalSearchEngine.LocalSearch` promises job preservation and an exact reported makespan only for runs where no round had m_max == m_min. The code does not keep either promise in the other runs (see Findings).
- Sequences naming a job id outside `1..n` raise a key error in the code. The model requires every id to be a job.

## Findings

| source | as written | input that shows it | evidently intended | confidence | as-written member | corrected member |
|---|---|---|---|---|---|---|
| ls_pmsp.py:285-290 | the critical-path term adds each job's delta_i to r_i + p_i | 2 jobs and 2 machines, p = [10, 10], r = [0, 0], setup 5 both ways: the bound is 15, but [[1], [2]] has makespan 10 | a lower bound; the last job of a machine pays no outgoing setup, so the path is r_i + p_i | not executed | `BoundValidity.AsWrittenDdlbExceedsMakespan` | `BoundValidity.CorrectedDdlbIsLowerBound` |
| ls_pmsp.py:161-163 | with m_max == m_min, a transfer writes the shortened sequence and then overwrites it with the lengthened one; the estimate at lines 151-152 uses the shortened one | 1 machine, p = [10, 4], no setups, r = [0, 0]: the first round turns [[1, 2]] (14) into [[1, 2, 1]], reported as 4 but taking 24 | offer only swaps inside m_max when it is also m_min; the run keeps [[1, 2]] at 14 | not executed | `Scenarios.OneMachineFirstRound` | `LocalSearchEngine.CorrectedLocalSearch` |
| ls_pmsp.py:188-190 | with m_max == m_min, an inter-machine swap writes m_max's new sequence and then overwrites it with m_min's; the estimate at lines 178-184 counts both sequences | 2 machines, p = [1, 1, 10], r = [0, 0, 0], setup from job 1 to job 2 of 8 and 0 otherwise: the first round turns [[1, 2], [3]] (10) into [[1, 1], [3]], reported as 2 but taking 10, with job 2 lost | offer only swaps inside m_max when it is also m_min; the run keeps [[1, 2], [3]] at 10 | not executed | `Scenarios.EqualLoadsFirstRound` | `LocalSearchEngine.CorrectedLocalSearch` |
