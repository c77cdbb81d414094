/** Whether the data-dependent lower bound really bounds the makespan of
    every schedule that places each job exactly once.

    Workload term: a machine running `s` spends at least the processing of
    its jobs plus one setup out of every job but its last, and such a setup
    is at least that job's delta. So all machines together spend at least
    total processing + total delta - the deltas of the (at most `m`) last
    jobs, which is at least the workload total. The makespan, times `m`,
    covers what all machines spend.

    Critical-path term: every job finishes no earlier than its release plus
    its processing time. The term as written also adds the job's delta,
    which the last job of a machine never pays, and so can exceed the
    makespan of a real schedule. */
module BoundValidity {
  import opened Wrappers
  import opened Instances
  import opened Extremes
  import opened Evaluator
  import opened LowerBound
  import opened JobSums
  import opened Construction

  /** No job occurs twice in `s`. */
  ghost predicate Distinct(s: seq<nat>) {
    forall x :: multiset(s)[x] <= 1
  }

  /** `ds` gives every job a value no larger than any setup out of it to
      another job, as the deltas do. */
  ghost predicate UnderSetups(inst: Instance, ds: seq<nat>)
    requires inst.Valid()
  {
    forall i, j | inst.IsJob(i) && inst.IsJob(j) && i != j :: Entry(ds, i) <= inst.S(i, j)
  }

  lemma DeltasUnderSetups(inst: Instance)
    requires inst.Valid() && inst.NJobs() != 1
    ensures UnderSetups(inst, Deltas(inst))
  {
  }

  /** The value of the last job of `s`, whose outgoing setup `s` never pays. */
  function LastEntry(ds: seq<nat>, s: seq<nat>): nat
  {
    if |s| == 0 then 0 else Entry(ds, s[|s| - 1])
  }

  /** Summing a lookup one job at a time. */
  lemma LookupSumSnoc(v: seq<nat>, s: seq<nat>, t: nat)
    ensures Sum(Lookup(v, s + [t])) == Sum(Lookup(v, s)) + Entry(v, t)
  {
    LookupAppend(v, s, [t]);
    SumAppend(Lookup(v, s), Lookup(v, [t]));
  }

  /** Running one more job costs at least its processing time plus the setup
      from the job before it. */
  lemma {:induction false} SeqTimeSnoc(inst: Instance, s: seq<nat>, t: nat)
    requires inst.Valid() && inst.ValidSeq(s) && inst.IsJob(t)
    ensures inst.ValidSeq(s + [t])
    ensures SeqTime(inst, s + [t])
      >= SeqTime(inst, s) + inst.P(t) + if |s| == 0 then 0 else inst.S(s[|s| - 1], t)
  {
    assert (s + [t])[..|s|] == s;
  }

  /** Dropping the last job keeps a list free of repeats, and the dropped
      job is not the one before it. */
  lemma DistinctFront(s: seq<nat>)
    requires Distinct(s) && |s| > 0
    ensures Distinct(s[..|s| - 1])
    ensures |s| > 1 ==> s[|s| - 2] != s[|s| - 1]
  {
    var n := |s| - 1;
    assert s == s[..n] + [s[n]];
    assert multiset(s) == multiset(s[..n]) + multiset{s[n]};
    forall x ensures multiset(s[..n])[x] <= 1 {
      assert multiset(s)[x] >= multiset(s[..n])[x];
    }
    assert multiset(s)[s[n]] == multiset(s[..n])[s[n]] + 1;
    assert multiset(s)[s[n]] <= 1;
    assert s[n] !in s[..n];
    if n > 0 {
      assert s[..n][n - 1] in s[..n];
    }
  }

  /** A machine's completion time plus the value of its last job covers the
      processing and the value of every job it runs. */
  lemma {:induction false} MachineCovers(inst: Instance, ds: seq<nat>, s: seq<nat>)
    requires inst.Valid() && UnderSetups(inst, ds) && inst.ValidSeq(s) && Distinct(s)
    ensures SeqTime(inst, s) + LastEntry(ds, s) >= Sum(Lookup(inst.proc, s)) + Sum(Lookup(ds, s))
  {
    if |s| > 0 {
      var n := |s| - 1;
      var front, t := s[..n], s[n];
      assert s == front + [t];
      DistinctFront(s);
      MachineCovers(inst, ds, front);
      SeqTimeSnoc(inst, front, t);
      LookupSumSnoc(inst.proc, front, t);
      LookupSumSnoc(ds, front, t);
      FrontLastUnderSetup(inst, ds, s);
    }
  }

  /** Once `s` runs another job after its front, the front's last job pays
      the setup into it, which covers that job's value. */
  lemma FrontLastUnderSetup(inst: Instance, ds: seq<nat>, s: seq<nat>)
    requires inst.Valid() && UnderSetups(inst, ds) && inst.ValidSeq(s) && |s| > 0
    requires |s| > 1 ==> s[|s| - 2] != s[|s| - 1]
    ensures LastEntry(ds, s[..|s| - 1]) <= if |s| == 1 then 0 else inst.S(s[|s| - 2], s[|s| - 1])
  {
    if |s| > 1 {
      var a, b := s[|s| - 2], s[|s| - 1];
      assert inst.IsJob(a) && inst.IsJob(b);
      assert Entry(ds, a) <= inst.S(a, b);
    }
  }

  /** Completion times of a solution with one more machine. */
  lemma TimesSnoc(inst: Instance, sol: Solution)
    requires inst.Valid() && inst.ValidSolution(sol) && |sol| > 0
    ensures inst.ValidSolution(sol[..|sol| - 1])
    ensures Sum(Times(inst, sol)) == Sum(Times(inst, sol[..|sol| - 1])) + SeqTime(inst, sol[|sol| - 1])
  {
    var n := |sol| - 1;
    assert Times(inst, sol) == Times(inst, sol[..n]) + [SeqTime(inst, sol[n])];
    SumAppend(Times(inst, sol[..n]), [SeqTime(inst, sol[n])]);
  }

  /** Sums of a lookup over a flattened solution with one more machine. */
  lemma FlattenSnoc(v: seq<nat>, sol: Solution)
    requires |sol| > 0
    ensures Sum(Lookup(v, Flatten(sol))) == Sum(Lookup(v, Flatten(sol[..|sol| - 1]))) + Sum(Lookup(v, sol[|sol| - 1]))
    ensures Sum(Lookup(v, Lasts(sol))) == Sum(Lookup(v, Lasts(sol[..|sol| - 1]))) + LastEntry(v, sol[|sol| - 1])
  {
    var n := |sol| - 1;
    var s := sol[n];
    LookupAppend(v, Flatten(sol[..n]), s);
    SumAppend(Lookup(v, Flatten(sol[..n])), Lookup(v, s));
    var last := if |s| == 0 then [] else [s[|s| - 1]];
    LookupAppend(v, Lasts(sol[..n]), last);
    SumAppend(Lookup(v, Lasts(sol[..n])), Lookup(v, last));
    assert Sum(Lookup(v, last)) == LastEntry(v, s);
  }

  /** Summed over the machines: all completion times plus the values of the
      last jobs cover the processing and the value of every placed job. */
  lemma {:induction false} SolutionCovers(inst: Instance, ds: seq<nat>, sol: Solution)
    requires inst.Valid() && UnderSetups(inst, ds) && inst.ValidSolution(sol)
    requires forall k | 0 <= k < |sol| :: Distinct(sol[k])
    ensures Sum(Times(inst, sol)) + Sum(Lookup(ds, Lasts(sol)))
      >= Sum(Lookup(inst.proc, Flatten(sol))) + Sum(Lookup(ds, Flatten(sol)))
  {
    if |sol| > 0 {
      var n := |sol| - 1;
      TimesSnoc(inst, sol);
      SolutionCovers(inst, ds, sol[..n]);
      MachineCovers(inst, ds, sol[n]);
      FlattenSnoc(inst.proc, sol);
      FlattenSnoc(ds, sol);
    }
  }

  /** A schedule that places every job once runs no machine's job twice. */
  lemma MachinesDistinct(inst: Instance, sol: Solution)
    requires inst.PlacesEveryJobOnce(sol)
    ensures forall k | 0 <= k < |sol| :: Distinct(sol[k])
  {
    forall k | 0 <= k < |sol| ensures Distinct(sol[k]) {
      MachineJobsIncluded(sol, k);
      forall x ensures multiset(sol[k])[x] <= 1 {
        assert multiset(sol[k])[x] <= Jobs(sol)[x];
      }
    }
  }

  /** The flattened schedule is a permutation of the job ids. */
  lemma FlattenIsPermutation(inst: Instance, sol: Solution)
    requires inst.PlacesEveryJobOnce(sol)
    ensures multiset(Flatten(sol)) == multiset(JobIds(inst.NJobs()))
  {
    FlattenJobs(sol);
    forall j ensures Jobs(sol)[j] == multiset(JobIds(inst.NJobs()))[j] {
      JobIdsCount(inst.NJobs(), j);
    }
  }

  /** Over a schedule that places every job once, a per-job table sums to
      its total. */
  lemma FlattenSum(inst: Instance, sol: Solution, v: seq<nat>)
    requires inst.PlacesEveryJobOnce(sol) && |v| == inst.NJobs()
    ensures Sum(Lookup(v, Flatten(sol))) == Sum(v)
  {
    FlattenIsPermutation(inst, sol);
    LookupSumPermutation(v, Flatten(sol), JobIds(inst.NJobs()));
    LookupIds(v);
  }

  /** The values of the last jobs (at most one per machine, all distinct
      jobs) sum to at most the `|sol|` largest values. */
  lemma LastsWithinTopSum(inst: Instance, sol: Solution, ds: seq<nat>)
    requires inst.PlacesEveryJobOnce(sol) && |ds| == inst.NJobs()
    ensures Sum(Lookup(ds, Lasts(sol))) <= TopSum(ds, |sol|)
  {
    var ids := JobIds(inst.NJobs());
    FlattenIsPermutation(inst, sol);
    LastsWithinFlatten(sol);
    LookupSubBag(ds, Lasts(sol), ids);
    LookupIds(ds);
    TopSumIsLargest(ds, |sol|, Lookup(ds, Lasts(sol)));
  }

  /** The machines together spend at most `m` times the makespan. */
  lemma TimesWithinMakespan(inst: Instance, sol: Solution)
    requires inst.Valid() && inst.ValidSolution(sol) && |sol| > 0
    ensures Sum(Times(inst, sol)) <= |sol| * Makespan(inst, sol)
  {
    SumAtMostBound(Times(inst, sol), Makespan(inst, sol));
  }

  /** The workload total is at most the machine count times the makespan. */
  lemma WorkloadBelowMakespan(inst: Instance, sol: Solution)
    requires inst.Valid() && inst.NJobs() != 1 && inst.ValidSolution(sol)
    requires |sol| == inst.nMachines >= 1 && inst.PlacesEveryJobOnce(sol)
    ensures TotalWork(inst) <= inst.nMachines * Makespan(inst, sol)
  {
    var ds := Deltas(inst);
    MachinesDistinct(inst, sol);
    DeltasUnderSetups(inst);
    SolutionCovers(inst, ds, sol);
    FlattenSum(inst, sol, inst.proc);
    FlattenSum(inst, sol, ds);
    LastsWithinTopSum(inst, sol, ds);
    TimesWithinMakespan(inst, sol);
  }

  /** Every job that some machine runs is in the flattened schedule's machines. */
  lemma {:induction false} FlattenMember(sol: Solution, x: nat)
    requires x in Flatten(sol)
    ensures exists k | 0 <= k < |sol| :: x in sol[k]
  {
    var n := |sol| - 1;
    if x !in sol[n] {
      FlattenMember(sol[..n], x);
      var k :| 0 <= k < n && x in sol[..n][k];
    }
  }

  /** No job finishes before its release plus its processing time, so the
      critical path without deltas never exceeds the makespan. */
  lemma CriticalPathBelowMakespan(inst: Instance, sol: Solution)
    requires inst.Valid() && inst.NJobs() != 1 && inst.ValidSolution(sol)
    requires |sol| >= 1 && inst.PlacesEveryJobOnce(sol)
    ensures CriticalPath(inst, false, inst.NJobs()) <= Makespan(inst, sol)
  {
    var c := CriticalPath(inst, false, inst.NJobs());
    if c > 0 {
      var i :| 1 <= i <= inst.NJobs() && c == PathLength(inst, false, i);
      assert Jobs(sol)[i] == 1;
      FlattenJobs(sol);
      FlattenMember(sol, i);
      var k :| 0 <= k < |sol| && i in sol[k];
      var p :| 0 <= p < |sol[k]| && sol[k][p] == i;
      CompletionAfterEveryJob(inst, sol[k], p);
      assert Times(inst, sol)[k] <= Makespan(inst, sol);
    }
  }

  /** A total at most `m` times `bound` has a share at most `bound`. */
  lemma ShareBelow(total: int, m: nat, bound: nat)
    requires m >= 1 && total <= m * bound
    ensures Share(total, m) <= bound as real
  {
    assert (m * bound) as real == bound as real * m as real;
    ShareAtMost(bound as real, total, m);
  }

  /** The corrected bound is a lower bound: it never exceeds the makespan of
      a schedule on the instance's machines that places every job once. */
  lemma CorrectedDdlbIsLowerBound(inst: Instance, sol: Solution)
    requires inst.Valid() && inst.NJobs() != 1 && inst.ValidSolution(sol)
    requires |sol| == inst.nMachines >= 1 && inst.PlacesEveryJobOnce(sol)
    ensures CorrectedDdlb(inst).Success?
    ensures CorrectedDdlb(inst).value <= Makespan(inst, sol) as real
  {
    WorkloadBelowMakespan(inst, sol);
    ShareBelow(TotalWork(inst), inst.nMachines, Makespan(inst, sol));
    CriticalPathBelowMakespan(inst, sol);
  }

  /** The construction's schedule meets the corrected bound. */
  lemma FfdMeetsCorrectedBound(inst: Instance)
    requires inst.Valid() && inst.NJobs() != 1 && inst.nMachines >= 1
    ensures Ffd(inst).Success? && CorrectedDdlb(inst).Success?
    ensures CorrectedDdlb(inst).value <= Makespan(inst, Ffd(inst).value) as real
  {
    CorrectedDdlbIsLowerBound(inst, Ffd(inst).value);
  }

  /** A rearrangement that keeps the jobs of a schedule placing every job
      once (as every non-degenerate local-search run does) still meets the
      corrected bound. */
  lemma RearrangementMeetsCorrectedBound(inst: Instance, initial: Solution, sol: Solution)
    requires inst.Valid() && inst.NJobs() != 1 && inst.ValidSolution(sol)
    requires |sol| == inst.nMachines >= 1
    requires inst.PlacesEveryJobOnce(initial) && Jobs(sol) == Jobs(initial)
    ensures CorrectedDdlb(inst).Success?
    ensures CorrectedDdlb(inst).value <= Makespan(inst, sol) as real
  {
    CorrectedDdlbIsLowerBound(inst, sol);
  }

  /** Two jobs of length 10, released at 0, with a setup of 5 either way,
      on two machines. */
  function Example(): Instance {
    Instance(2, [10, 10], [0, 0], [[0, 5], [5, 0]])
  }

  lemma ExampleDeltas()
    ensures Example().Valid() && Deltas(Example()) == [5, 5]
  {
    var inst := Example();
    assert Delta(inst, 1) == 5;
    assert Delta(inst, 2) == 5;
  }

  lemma ExampleTopSum()
    ensures Sum([5, 5]) == 10
    ensures TopSum([5, 5], 2) == 10
  {
    var one: seq<nat> := [5];
    var two: seq<nat> := [5, 5];
    assert two[1..] == one && one[1..] == [];
    assert SortDescending(one) == one;
    assert SortDescending(two) == two;
    assert two[..1] == one && one[..0] == [];
    assert two[..2] == two;
  }

  lemma ExampleWorkload()
    ensures Example().Valid() && Workload(Example()) == 10.0
  {
    ExampleDeltas();
    ExampleTopSum();
    var proc: seq<nat> := [10, 10];
    assert proc[..1] == [10] && [10][..0] == [];
    assert Sum(proc) == 20;
    assert TotalWork(Example()) == 20;
  }

  /** Each job on its own machine: both machines finish at 10. */
  lemma ExampleSchedule()
    ensures Example().ValidSolution([[1], [2]])
    ensures Example().PlacesEveryJobOnce([[1], [2]])
    ensures Makespan(Example(), [[1], [2]]) == 10
  {
    var sol: Solution := [[1], [2]];
    assert sol[..1] == [[1]];
    assert sol[..1][..0] == [];
    assert Jobs(sol) == multiset{1, 2};
  }

  /** The bound as written exceeds the makespan of a real schedule: each
      job's delta of 5 is added to its critical path although neither job
      is followed by another. The corrected bound is 10, which the schedule
      meets. */
  lemma AsWrittenDdlbExceedsMakespan()
    ensures Example().Valid()
    ensures Ddlb(Example()) == Success(15.0)
    ensures CorrectedDdlb(Example()) == Success(10.0)
    ensures Ddlb(Example()).value > Makespan(Example(), [[1], [2]]) as real
  {
    ExampleDeltas();
    ExampleWorkload();
    ExampleSchedule();
    var inst := Example();
    assert CriticalPath(inst, true, 2) == 15;
    assert CriticalPath(inst, false, 2) == 10;
  }
}
