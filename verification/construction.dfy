/** The greedy construction ("FFD"): jobs in descending processing time, ties
    by ascending id, each appended to the machine whose resulting completion
    time is smallest, ties to the lowest machine id. */
module Construction {
  import opened Wrappers
  import opened Instances
  import opened Extremes
  import opened Evaluator

  /** `a` comes before `b` in the construction order: larger processing time
      first, equal processing times by ascending id (a stable descending sort). */
  predicate Precedes(inst: Instance, a: nat, b: nat)
    requires inst.IsJob(a) && inst.IsJob(b)
  {
    inst.P(a) > inst.P(b) || (inst.P(a) == inst.P(b) && a < b)
  }

  predicate Ordered(inst: Instance, s: seq<nat>)
    requires inst.ValidSeq(s)
  {
    forall p, q | 0 <= p < q < |s| :: Precedes(inst, s[p], s[q])
  }

  /** Insert job `j` after all jobs of `s` whose processing time is at least its own. */
  function Insert(inst: Instance, s: seq<nat>, j: nat): (r: seq<nat>)
    requires inst.ValidSeq(s) && inst.IsJob(j)
    ensures multiset(r) == multiset(s) + multiset{j}
    ensures inst.ValidSeq(r)
  {
    if |s| == 0 then [j]
    else if inst.P(s[0]) >= inst.P(j) then
      assert s == [s[0]] + s[1..];
      [s[0]] + Insert(inst, s[1..], j)
    else
      [j] + s
  }

  /** The head of an ordered list precedes every later job. */
  lemma OrderedHead(inst: Instance, s: seq<nat>)
    requires inst.ValidSeq(s) && Ordered(inst, s) && |s| > 0
    ensures forall y | y in s[1..] :: Precedes(inst, s[0], y)
  {
    forall y | y in s[1..] ensures Precedes(inst, s[0], y) {
      var p :| 0 <= p < |s[1..]| && s[1..][p] == y;
      assert s[p + 1] == y;
    }
  }

  /** A job preceding every job of an ordered list may be put in front of it. */
  lemma ConsOrdered(inst: Instance, x: nat, s: seq<nat>)
    requires inst.ValidSeq(s) && inst.IsJob(x) && Ordered(inst, s)
    requires forall y | y in s :: Precedes(inst, x, y)
    ensures inst.ValidSeq([x] + s)
    ensures Ordered(inst, [x] + s)
  {
    var r := [x] + s;
    forall p, q | 0 <= p < q < |r| ensures Precedes(inst, r[p], r[q]) {
      assert r[q] == s[q - 1];
      if p > 0 {
        assert r[p] == s[p - 1];
      } else {
        assert s[q - 1] in s;
      }
    }
  }

  /** Inserting a job whose id exceeds every id already present keeps the
      construction order. */
  lemma {:induction false} InsertOrdered(inst: Instance, s: seq<nat>, j: nat)
    requires inst.ValidSeq(s) && inst.IsJob(j)
    requires Ordered(inst, s)
    requires forall x | x in s :: x < j
    ensures Ordered(inst, Insert(inst, s, j))
  {
    if |s| > 0 {
      assert s == [s[0]] + s[1..];
      assert s[0] in s;
      OrderedHead(inst, s);
      if inst.P(s[0]) >= inst.P(j) {
        var tail := Insert(inst, s[1..], j);
        assert forall x | x in s[1..] :: x in s;
        InsertOrdered(inst, s[1..], j);
        forall y | y in tail ensures Precedes(inst, s[0], y) {
          assert y in multiset(s[1..]) + multiset{j};
        }
        ConsOrdered(inst, s[0], tail);
      } else {
        ConsOrdered(inst, j, s);
      }
    }
  }

  /** Jobs 1..k in construction order. */
  function SortByProcessing(inst: Instance, k: nat): (r: seq<nat>)
    requires k <= inst.NJobs()
    ensures multiset(r) == multiset(JobIds(k))
    ensures inst.ValidSeq(r)
    ensures Ordered(inst, r)
  {
    if k == 0 then []
    else
      var s := SortByProcessing(inst, k - 1);
      assert JobIds(k) == JobIds(k - 1) + [k];
      assert forall x | x in s :: x < k by {
        forall x | x in s ensures x < k {
          assert x in multiset(JobIds(k - 1));
        }
      }
      InsertOrdered(inst, s, k);
      Insert(inst, s, k)
  }

  /** The completion time of every machine if job `t` were appended to it. */
  function PotentialTimes(inst: Instance, machines: Solution, t: nat): (ts: seq<nat>)
    requires inst.Valid() && inst.ValidSolution(machines) && inst.IsJob(t)
    ensures |ts| == |machines|
    ensures forall k | 0 <= k < |machines| :: ts[k] == SeqTime(inst, machines[k] + [t])
  {
    seq(|machines|, k requires 0 <= k < |machines| => SeqTime(inst, machines[k] + [t]))
  }

  /** The machine that receives job `t`: appending there gives the smallest
      completion time, and every lower-numbered machine would be strictly worse. */
  function ChooseMachine(inst: Instance, machines: Solution, t: nat): (k: nat)
    requires inst.Valid() && inst.ValidSolution(machines) && inst.IsJob(t)
    requires |machines| > 0
    ensures k < |machines|
    ensures forall q | 0 <= q < |machines| ::
      SeqTime(inst, machines[k] + [t]) <= SeqTime(inst, machines[q] + [t])
    ensures forall q | 0 <= q < k ::
      SeqTime(inst, machines[k] + [t]) < SeqTime(inst, machines[q] + [t])
  {
    ArgMin(PotentialTimes(inst, machines, t))
  }

  /** Append job `t` to its chosen machine: `t` goes to the end of one
      machine, every other machine is unchanged, and that machine gives the
      smallest appended time, with every lower-numbered machine strictly worse. */
  function Place(inst: Instance, machines: Solution, t: nat): (r: Solution)
    requires inst.Valid() && inst.ValidSolution(machines) && inst.IsJob(t)
    requires |machines| > 0
    ensures |r| == |machines|
    ensures inst.ValidSolution(r)
    ensures Jobs(r) == Jobs(machines) + multiset{t}
    ensures exists k | 0 <= k < |machines| ::
      && r == machines[k := machines[k] + [t]]
      && (forall q | 0 <= q < |machines| ::
            SeqTime(inst, machines[k] + [t]) <= SeqTime(inst, machines[q] + [t]))
      && (forall q | 0 <= q < k ::
            SeqTime(inst, machines[k] + [t]) < SeqTime(inst, machines[q] + [t]))
  {
    var k := ChooseMachine(inst, machines, t);
    var grown := machines[k] + [t];
    AppendJobs(machines, k, t);
    UpdateValid(inst, machines, k, grown);
    machines[k := grown]
  }

  /** Append each job of `order`, in turn, to its chosen machine. */
  function AssignAll(inst: Instance, machines: Solution, order: seq<nat>): (r: Solution)
    requires inst.Valid() && inst.ValidSolution(machines) && inst.ValidSeq(order)
    requires |machines| > 0
    ensures |r| == |machines|
    ensures inst.ValidSolution(r)
    ensures Jobs(r) == Jobs(machines) + multiset(order)
    decreases |order|
  {
    if |order| == 0 then machines
    else
      var t := order[0];
      assert multiset(order) == multiset{t} + multiset(order[1..]) by {
        assert order == [t] + order[1..];
      }
      AssignAll(inst, Place(inst, machines, t), order[1..])
  }

  /** `solve_with_ffd`. With no machines and at least one job, picking the
      best machine takes the minimum of an empty collection, which raises. */
  function Ffd(inst: Instance): (r: Result<Solution, Fault>)
    requires inst.Valid()
    ensures r.Failure? <==> inst.nMachines == 0 && inst.NJobs() > 0
    ensures r.Failure? ==> r.error == EmptyMinimum
    ensures r.Success? ==> |r.value| == inst.nMachines
    ensures r.Success? ==> inst.ValidSolution(r.value)
    ensures r.Success? ==> forall j :: Jobs(r.value)[j] == if inst.IsJob(j) then 1 else 0
  {
    if inst.nMachines == 0 then
      if inst.NJobs() == 0 then Success([]) else Failure(EmptyMinimum)
    else
      var sol := AssignAll(inst, EmptySolution(inst.nMachines), SortByProcessing(inst, inst.NJobs()));
      assert forall j :: Jobs(sol)[j] == if inst.IsJob(j) then 1 else 0 by {
        forall j ensures Jobs(sol)[j] == if inst.IsJob(j) then 1 else 0 {
          JobIdsCount(inst.NJobs(), j);
        }
      }
      Success(sol)
  }
}
