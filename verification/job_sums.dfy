/** Per-job quantities summed over the jobs of a solution: looking up a
    per-job table along a job list, flattening a solution into one list, and
    the last job of every machine. These serve the lower-bound proofs. */
module JobSums {
  import opened Instances
  import opened Extremes

  /** The table entry of job `x` (jobs are 1-based); 0 for a non-job. */
  function Entry(v: seq<nat>, x: nat): nat {
    if 1 <= x <= |v| then v[x - 1] else 0
  }

  /** The table entry of every job of `s`, in the order of `s`. */
  function Lookup(v: seq<nat>, s: seq<nat>): (r: seq<nat>)
    ensures |r| == |s|
    ensures forall k | 0 <= k < |s| :: r[k] == Entry(v, s[k])
  {
    seq(|s|, k requires 0 <= k < |s| => Entry(v, s[k]))
  }

  lemma LookupAppend(v: seq<nat>, a: seq<nat>, b: seq<nat>)
    ensures Lookup(v, a + b) == Lookup(v, a) + Lookup(v, b)
  {
  }

  /** Looking up every id 1..|v| in order gives back the table. */
  lemma LookupIds(v: seq<nat>)
    ensures Lookup(v, JobIds(|v|)) == v
  {
  }

  /** Looking up along a shortened list is shortening the lookup. */
  lemma LookupRemoveCommutes(v: seq<nat>, s: seq<nat>, i: nat)
    requires i < |s|
    ensures Lookup(v, Remove(s, i)) == Remove(Lookup(v, s), i)
  {
  }

  /** Taking the job at `i` out of a list takes its value out of the lookup. */
  lemma LookupRemove(v: seq<nat>, s: seq<nat>, i: nat)
    requires i < |s|
    ensures multiset(s) == multiset(Remove(s, i)) + multiset{s[i]}
    ensures multiset(Lookup(v, s)) == multiset(Lookup(v, Remove(s, i))) + multiset{Entry(v, s[i])}
  {
    LookupRemoveCommutes(v, s, i);
  }

  /** Looking up a sub-multiset of jobs gives a sub-multiset of values. */
  lemma {:induction false} LookupSubBag(v: seq<nat>, a: seq<nat>, b: seq<nat>)
    requires multiset(a) <= multiset(b)
    ensures multiset(Lookup(v, a)) <= multiset(Lookup(v, b))
    decreases |a|
  {
    if |a| > 0 {
      var x := a[0];
      assert x in multiset(b);
      var i :| 0 <= i < |b| && b[i] == x;
      LookupRemove(v, a, 0);
      LookupRemove(v, b, i);
      var a', b' := Remove(a, 0), Remove(b, i);
      assert multiset(a') <= multiset(b') by {
        forall y ensures multiset(a')[y] <= multiset(b')[y] {
          assert multiset(a)[y] <= multiset(b)[y];
        }
      }
      LookupSubBag(v, a', b');
    }
  }

  /** The sum of looked-up values depends only on the multiset of jobs. */
  lemma LookupSumPermutation(v: seq<nat>, a: seq<nat>, b: seq<nat>)
    requires multiset(a) == multiset(b)
    ensures Sum(Lookup(v, a)) == Sum(Lookup(v, b))
  {
    LookupSubBag(v, a, b);
    LookupSubBag(v, b, a);
    assert multiset(Lookup(v, a)) == multiset(Lookup(v, b));
    SumPermutation(Lookup(v, a), Lookup(v, b));
  }

  /** All machines' sequences, one after the other. */
  function Flatten(sol: Solution): seq<nat>
  {
    if |sol| == 0 then [] else Flatten(sol[..|sol| - 1]) + sol[|sol| - 1]
  }

  /** The flattened list holds exactly the solution's jobs. */
  lemma {:induction false} FlattenJobs(sol: Solution)
    ensures multiset(Flatten(sol)) == Jobs(sol)
  {
    if |sol| > 0 {
      FlattenJobs(sol[..|sol| - 1]);
    }
  }

  /** The last job of every non-empty machine, in machine order. */
  function Lasts(sol: Solution): (r: seq<nat>)
    ensures |r| <= |sol|
  {
    if |sol| == 0 then []
    else
      var s := sol[|sol| - 1];
      Lasts(sol[..|sol| - 1]) + if |s| == 0 then [] else [s[|s| - 1]]
  }

  /** The last jobs are among the solution's jobs. */
  lemma {:induction false} LastsWithinFlatten(sol: Solution)
    ensures multiset(Lasts(sol)) <= multiset(Flatten(sol))
  {
    if |sol| > 0 {
      var s := sol[|sol| - 1];
      LastsWithinFlatten(sol[..|sol| - 1]);
      if |s| > 0 {
        assert s[|s| - 1] in multiset(s);
      }
    }
  }

  /** A list whose entries are all at most `bound` sums to at most
      its length times `bound`. */
  lemma {:induction false} SumAtMostBound(ts: seq<nat>, bound: nat)
    requires forall k | 0 <= k < |ts| :: ts[k] <= bound
    ensures Sum(ts) <= |ts| * bound
  {
    if |ts| > 0 {
      var n := |ts| - 1;
      SumAtMostBound(ts[..n], bound);
      assert n * bound + bound == |ts| * bound;
    }
  }
}
