/** The sequence evaluator: the completion time of one machine that runs an
    ordered list of jobs. The first job pays no setup; every later job starts
    at the later of the running completion time and its release date, then
    pays the setup from its predecessor and its own processing time. */
module Evaluator {
  import opened Wrappers
  import opened Instances
  import opened Extremes

  /** One step of the fold: the completion time after running job `t` when
      the machine was free at `completion` and last ran `last` (if any). */
  function Finish(inst: Instance, completion: nat, last: Option<nat>, t: nat): nat
    requires inst.Valid() && inst.IsJob(t)
    requires last.Some? ==> inst.IsJob(last.value)
  {
    var setupTime := if last.None? then 0 else inst.S(last.value, t);
    Max(completion, inst.R(t)) + setupTime + inst.P(t)
  }

  /** The completion time of `s`, defined from its last job backwards. */
  function SeqTime(inst: Instance, s: seq<nat>): nat
    requires inst.Valid() && inst.ValidSeq(s)
  {
    if |s| == 0 then 0
    else
      var n := |s| - 1;
      Finish(inst, SeqTime(inst, s[..n]), if n == 0 then None else Some(s[n - 1]), s[n])
  }

  /** The evaluator as the source runs it: a left-to-right loop carrying the
      completion time and the previous job. */
  method CalculateSequenceTime(inst: Instance, s: seq<nat>) returns (completion: nat)
    requires inst.Valid() && inst.ValidSeq(s)
    ensures completion == SeqTime(inst, s)
    ensures |s| == 0 ==> completion == 0
    ensures |s| == 1 ==> completion == inst.R(s[0]) + inst.P(s[0])
  {
    completion := 0;
    if |s| == 0 {
      return 0;
    }
    var last: Option<nat> := None;
    var k := 0;
    while k < |s|
      invariant 0 <= k <= |s|
      invariant completion == SeqTime(inst, s[..k])
      invariant last == if k == 0 then None else Some(s[k - 1])
    {
      assert s[..k + 1][..k] == s[..k];
      completion := Finish(inst, completion, last, s[k]);
      last := Some(s[k]);
      k := k + 1;
    }
    assert s[..k] == s;
  }

  /** Appending a job never lowers the completion time, and the appended job
      finishes no earlier than its release date plus its processing time. */
  lemma AppendMonotone(inst: Instance, s: seq<nat>, t: nat)
    requires inst.Valid() && inst.ValidSeq(s) && inst.IsJob(t)
    ensures SeqTime(inst, s + [t]) >= SeqTime(inst, s)
    ensures SeqTime(inst, s + [t]) >= inst.R(t) + inst.P(t)
  {
    assert (s + [t])[..|s|] == s;
  }

  /** A prefix finishes no later than the whole sequence. */
  lemma {:induction false} PrefixMonotone(inst: Instance, s: seq<nat>, k: nat)
    requires inst.Valid() && inst.ValidSeq(s) && k <= |s|
    ensures SeqTime(inst, s[..k]) <= SeqTime(inst, s)
    decreases |s| - k
  {
    if k < |s| {
      PrefixMonotone(inst, s, k + 1);
      AppendMonotone(inst, s[..k], s[k]);
      assert s[..k + 1] == s[..k] + [s[k]];
    } else {
      assert s[..k] == s;
    }
  }

  /** Every job of the sequence completes no earlier than its release date
      plus its processing time, so neither does the machine. */
  lemma {:induction false} CompletionAfterEveryJob(inst: Instance, s: seq<nat>, i: nat)
    requires inst.Valid() && inst.ValidSeq(s) && i < |s|
    ensures SeqTime(inst, s) >= inst.R(s[i]) + inst.P(s[i])
  {
    PrefixMonotone(inst, s, i + 1);
    AppendMonotone(inst, s[..i], s[i]);
    assert s[..i + 1] == s[..i] + [s[i]];
  }

  /** The completion time of every machine of a solution. */
  function Times(inst: Instance, sol: Solution): (ts: seq<nat>)
    requires inst.Valid() && inst.ValidSolution(sol)
    ensures |ts| == |sol|
    ensures forall k | 0 <= k < |sol| :: ts[k] == SeqTime(inst, sol[k])
  {
    seq(|sol|, k requires 0 <= k < |sol| => SeqTime(inst, sol[k]))
  }

  /** The makespan: the latest completion time over all machines. */
  function Makespan(inst: Instance, sol: Solution): nat
    requires inst.Valid() && inst.ValidSolution(sol) && |sol| > 0
  {
    MaxOf(Times(inst, sol))
  }
}
