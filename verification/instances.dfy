/** The problem instance (jobs, processing times, release dates, the
    sequence-dependent setup matrix and the machine count) and the shape of
    a solution: one ordered job list per machine. */
module Instances {

  /** The exceptions the scheduler can raise on a degenerate instance. */
  datatype Fault =
    | EmptyMinimum   // `min` applied to an empty collection (a ValueError)
    | ZeroDivision   // division by a machine count of zero

  /** Jobs are numbered 1..|proc|; the data of job `j` sits at index `j - 1`.
      `setup[i-1][j-1]` is the changeover cost from job `i` to job `j`. */
  datatype Instance = Instance(
    nMachines: nat,
    proc: seq<nat>,
    release: seq<nat>,
    setup: seq<seq<nat>>)
  {
    function NJobs(): nat { |proc| }

    /** Every per-job table has one entry per job and the setup matrix is square. */
    predicate Valid() {
      && |release| == |proc|
      && |setup| == |proc|
      && forall i | 0 <= i < |setup| :: |setup[i]| == |proc|
    }

    predicate IsJob(j: nat) { 1 <= j <= |proc| }

    function P(j: nat): nat
      requires IsJob(j)
    {
      proc[j - 1]
    }

    function R(j: nat): nat
      requires Valid() && IsJob(j)
    {
      release[j - 1]
    }

    function S(i: nat, j: nat): nat
      requires Valid() && IsJob(i) && IsJob(j)
    {
      setup[i - 1][j - 1]
    }

    /** Every entry of the sequence names a job of the instance. */
    predicate ValidSeq(s: seq<nat>) {
      forall x | x in s :: IsJob(x)
    }

    predicate ValidSolution(sol: seq<seq<nat>>) {
      forall k | 0 <= k < |sol| :: ValidSeq(sol[k])
    }

    /** Every job of the instance is placed exactly once, and nothing else is. */
    ghost predicate PlacesEveryJobOnce(sol: seq<seq<nat>>) {
      forall j :: Jobs(sol)[j] == if IsJob(j) then 1 else 0
    }
  }

  /** Machine `k + 1` runs `sol[k]`, in order. */
  type Solution = seq<seq<nat>>

  /** The job ids 1..n in increasing order. */
  function JobIds(n: nat): (ids: seq<nat>)
    ensures |ids| == n
    ensures forall k | 0 <= k < n :: ids[k] == k + 1
  {
    seq(n, k => k + 1)
  }

  /** Every job id 1..n occurs exactly once in `JobIds(n)`, and nothing else does. */
  lemma {:induction false} JobIdsCount(n: nat, j: nat)
    ensures multiset(JobIds(n))[j] == if 1 <= j <= n then 1 else 0
  {
    if n > 0 {
      assert JobIds(n) == JobIds(n - 1) + [n];
      JobIdsCount(n - 1, j);
    }
  }

  /** `s` with its entry at `i` taken out (`pop(i)`): the remaining entries
      keep their order. */
  function Remove(s: seq<nat>, i: nat): (r: seq<nat>)
    requires i < |s|
    ensures |r| == |s| - 1
    ensures forall k | 0 <= k < |r| :: r[k] == if k < i then s[k] else s[k + 1]
    ensures multiset(r) + multiset{s[i]} == multiset(s)
  {
    assert s == s[..i] + ([s[i]] + s[i + 1..]);
    s[..i] + s[i + 1..]
  }

  /** The multiset of all jobs placed on any machine. */
  function Jobs(sol: Solution): multiset<nat>
  {
    if |sol| == 0 then multiset{} else Jobs(sol[..|sol| - 1]) + multiset(sol[|sol| - 1])
  }

  /** A machine's jobs are among the solution's jobs. */
  lemma {:induction false} MachineJobsIncluded(sol: Solution, k: nat)
    requires k < |sol|
    ensures multiset(sol[k]) <= Jobs(sol)
  {
    if k < |sol| - 1 {
      MachineJobsIncluded(sol[..|sol| - 1], k);
    }
  }

  /** Replacing one machine's sequence swaps its jobs in the job multiset. */
  lemma {:induction false} JobsUpdate(sol: Solution, k: nat, s: seq<nat>)
    requires k < |sol|
    ensures Jobs(sol[k := s]) + multiset(sol[k]) == Jobs(sol) + multiset(s)
  {
    var n := |sol|;
    var sol' := sol[k := s];
    if k == n - 1 {
      assert sol'[..n - 1] == sol[..n - 1];
    } else {
      var front := sol[..n - 1];
      assert sol'[..n - 1] == front[k := s];
      assert sol'[n - 1] == sol[n - 1];
      assert front[k] == sol[k];
      JobsUpdate(front, k, s);
      calc {
        Jobs(sol') + multiset(sol[k]);
        Jobs(front[k := s]) + multiset(sol[n - 1]) + multiset(front[k]);
        Jobs(front) + multiset(s) + multiset(sol[n - 1]);
        Jobs(sol) + multiset(s);
      }
    }
  }

  /** The jobs after replacing machine `k`'s sequence by `s`. */
  lemma JobsReplace(sol: Solution, k: nat, s: seq<nat>)
    requires k < |sol|
    ensures Jobs(sol[k := s]) == Jobs(sol) - multiset(sol[k]) + multiset(s)
  {
    JobsUpdate(sol, k, s);
    MachineJobsIncluded(sol, k);
    var r := sol[k := s];
    assert Jobs(r) == (Jobs(r) + multiset(sol[k])) - multiset(sol[k]);
  }

  /** Appending a job to one machine adds just that job. */
  lemma AppendJobs(machines: Solution, k: nat, t: nat)
    requires k < |machines|
    ensures Jobs(machines[k := machines[k] + [t]]) == Jobs(machines) + multiset{t}
  {
    var grown := machines[k] + [t];
    JobsUpdate(machines, k, grown);
    assert multiset(grown) == multiset(machines[k]) + multiset{t};
    var r := machines[k := grown];
    assert Jobs(r) == (Jobs(r) + multiset(machines[k])) - multiset(machines[k]);
    assert Jobs(machines) + multiset{t} == (Jobs(machines) + multiset{t} + multiset(machines[k])) - multiset(machines[k]);
  }

  /** Replacing one machine's sequence by a valid one keeps the solution valid. */
  lemma UpdateValid(inst: Instance, sol: Solution, k: nat, s: seq<nat>)
    requires inst.ValidSolution(sol) && inst.ValidSeq(s) && k < |sol|
    ensures inst.ValidSolution(sol[k := s])
  {
  }

  /** A solution with `m` empty machines. */
  function EmptySolution(m: nat): (sol: Solution)
    ensures |sol| == m
    ensures forall k | 0 <= k < m :: sol[k] == []
    ensures Jobs(sol) == multiset{}
  {
    if m == 0 then [] else
      var sol := EmptySolution(m - 1) + [[]];
      assert sol[..m - 1] == EmptySolution(m - 1);
      sol
  }
}
