/** The data-dependent lower bound (`calcular_ddlb`). For each job `i`,
    `Delta(i)` is the cheapest setup from `i` to any other job. The bound is
    the larger of a workload term, (total processing + total delta - the
    `m` largest deltas) / m, and a critical-path term, the largest
    release + processing + delta of any job. */
module LowerBound {
  import opened Wrappers
  import opened Instances
  import opened Extremes

  /** The smallest entry of `row` at an index other than `skip`, if any. */
  function MinExcept(row: seq<nat>, skip: nat): (r: Option<nat>)
    ensures r.None? <==> |row| == 0 || (|row| == 1 && skip == 0)
    ensures r.Some? ==> forall k | 0 <= k < |row| && k != skip :: r.value <= row[k]
    ensures r.Some? ==> exists k | 0 <= k < |row| && k != skip :: r.value == row[k]
  {
    if |row| == 0 then None
    else
      var n := |row| - 1;
      var r := MinExcept(row[..n], skip);
      assert forall k | 0 <= k < n :: row[..n][k] == row[k];
      if n == skip then r
      else if r.None? || row[n] < r.value then Some(row[n])
      else r
  }

  /** The cheapest setup out of job `i` to any other job. */
  function Delta(inst: Instance, i: nat): (d: nat)
    requires inst.Valid() && inst.IsJob(i) && inst.NJobs() >= 2
    ensures forall j | inst.IsJob(j) && j != i :: d <= inst.S(i, j)
    ensures exists j | inst.IsJob(j) && j != i :: d == inst.S(i, j)
  {
    var row := inst.setup[i - 1];
    var other := if i - 1 == 0 then 1 else 0;
    assert other < |row| && other != i - 1;
    var r := MinExcept(row, i - 1);
    assert r.Some?;
    assert forall j | inst.IsJob(j) && j != i :: row[j - 1] == inst.S(i, j);
    var k :| 0 <= k < |row| && k != i - 1 && r.value == row[k];
    assert inst.IsJob(k + 1) && inst.S(i, k + 1) == row[k];
    r.value
  }

  /** The deltas of jobs 1..n, in job order. */
  function Deltas(inst: Instance): (ds: seq<nat>)
    requires inst.Valid() && inst.NJobs() != 1
    ensures |ds| == inst.NJobs()
    ensures forall k | 0 <= k < |ds| :: ds[k] == Delta(inst, k + 1)
  {
    seq(inst.NJobs(), k requires 0 <= k < inst.NJobs() => Delta(inst, k + 1))
  }

  predicate Descending(xs: seq<nat>) {
    forall p, q | 0 <= p < q < |xs| :: xs[p] >= xs[q]
  }

  /** A value at least every entry of a descending list may go in front. */
  lemma ConsDescending(y: nat, s: seq<nat>)
    requires Descending(s)
    requires forall z | z in s :: y >= z
    ensures Descending([y] + s)
  {
    var r := [y] + s;
    forall p, q | 0 <= p < q < |r| ensures r[p] >= r[q] {
      assert r[q] == s[q - 1];
      if p > 0 {
        assert r[p] == s[p - 1];
      } else {
        assert s[q - 1] in s;
      }
    }
  }

  function InsertDescending(x: nat, s: seq<nat>): (r: seq<nat>)
    requires Descending(s)
    ensures |r| == |s| + 1
    ensures multiset(r) == multiset(s) + multiset{x}
    ensures Descending(r)
  {
    if |s| == 0 || x >= s[0] then
      ConsDescending(x, s);
      [x] + s
    else
      var tail := InsertDescending(x, s[1..]);
      assert s == [s[0]] + s[1..];
      assert forall z | z in tail :: s[0] >= z by {
        forall z | z in tail ensures s[0] >= z {
          assert z in multiset(s[1..]) + multiset{x};
          if z != x {
            var q :| 0 <= q < |s[1..]| && s[1..][q] == z;
            assert s[q + 1] == z;
          }
        }
      }
      ConsDescending(s[0], tail);
      [s[0]] + tail
  }

  /** `sorted(values, reverse=True)`: the same values, largest first. */
  function SortDescending(xs: seq<nat>): (r: seq<nat>)
    ensures |r| == |xs|
    ensures multiset(r) == multiset(xs)
    ensures Descending(r)
  {
    if |xs| == 0 then []
    else
      assert xs == [xs[0]] + xs[1..];
      InsertDescending(xs[0], SortDescending(xs[1..]))
  }

  function MinNat(a: nat, b: nat): nat { if a <= b then a else b }

  /** `sum(sorted(ds, reverse=True)[:m])`: the sum of the `m` largest values
      (all of them when there are fewer than `m`). */
  function TopSum(ds: seq<nat>, m: nat): nat
  {
    Sum(SortDescending(ds)[..MinNat(m, |ds|)])
  }

  /** The largest release + processing (+ delta) over jobs 1..k, starting
      from 0 and replacing the running value only on a strict increase. */
  function CriticalPath(inst: Instance, withDelta: bool, k: nat): (c: nat)
    requires inst.Valid() && inst.NJobs() != 1 && k <= inst.NJobs()
    ensures forall i | 1 <= i <= k :: PathLength(inst, withDelta, i) <= c
    ensures c == 0 || exists i | 1 <= i <= k :: c == PathLength(inst, withDelta, i)
  {
    if k == 0 then 0
    else
      var c := CriticalPath(inst, withDelta, k - 1);
      var path := PathLength(inst, withDelta, k);
      if path > c then path else c
  }

  function PathLength(inst: Instance, withDelta: bool, i: nat): nat
    requires inst.Valid() && inst.NJobs() != 1 && inst.IsJob(i)
  {
    inst.R(i) + inst.P(i) + if withDelta then Delta(inst, i) else 0
  }

  function RealMax(a: real, b: real): real { if a >= b then a else b }

  /** The workload term: total processing plus the minimum total setup,
      shared over `m` machines. */
  function Workload(inst: Instance): real
    requires inst.Valid() && inst.NJobs() != 1 && inst.nMachines >= 1
  {
    Share(TotalWork(inst), inst.nMachines)
  }

  /** Total processing plus the minimum total setup. */
  function TotalWork(inst: Instance): int
    requires inst.Valid() && inst.NJobs() != 1
  {
    Sum(inst.proc) + SetupTotal(Deltas(inst), inst.nMachines)
  }

  /** The total delta less the `m` largest deltas. */
  function SetupTotal(ds: seq<nat>, m: nat): int
  {
    Sum(ds) - TopSum(ds, m)
  }

  /** `total / m` in floating point, modelled as an exact real quotient. */
  function Share(total: int, m: nat): real
    requires m >= 1
  {
    total as real / m as real
  }

  /** `calcular_ddlb`, with the critical-path term as written (it adds each
      job's delta). A single job makes the delta minimum range over nothing;
      zero machines divide by zero. */
  function Ddlb(inst: Instance): Result<real, Fault>
    requires inst.Valid()
  {
    if inst.NJobs() == 1 then Failure(EmptyMinimum)
    else if inst.nMachines == 0 then Failure(ZeroDivision)
    else Success(RealMax(Workload(inst), CriticalPath(inst, true, inst.NJobs()) as real))
  }

  /** The bound with the critical-path term taken as release + processing
      alone: the last job on a machine pays no outgoing setup, so its delta
      cannot be charged. Same failures as `Ddlb`. */
  function CorrectedDdlb(inst: Instance): Result<real, Fault>
    requires inst.Valid()
  {
    if inst.NJobs() == 1 then Failure(EmptyMinimum)
    else if inst.nMachines == 0 then Failure(ZeroDivision)
    else Success(RealMax(Workload(inst), CriticalPath(inst, false, inst.NJobs()) as real))
  }

  /** Removing the entry at `i` takes exactly that entry off the sum. */
  lemma {:induction false} SumRemove(xs: seq<nat>, i: nat)
    requires i < |xs|
    ensures Sum(xs) == Sum(xs[..i] + xs[i + 1..]) + xs[i]
  {
    var pre, x, post := xs[..i], xs[i], xs[i + 1..];
    assert xs == (pre + [x]) + post;
    SumAppend(pre + [x], post);
    SumAppend(pre, post);
  }

  lemma DescendingTail(t: seq<nat>)
    requires Descending(t) && |t| > 0
    ensures Descending(t[1..])
    ensures forall z | z in t :: z <= t[0]
  {
    forall p, q | 0 <= p < q < |t[1..]| ensures t[1..][p] >= t[1..][q] {
      assert t[1..][p] == t[p + 1] && t[1..][q] == t[q + 1];
    }
  }

  /** The first `m` entries are the head plus the first `m - 1` of the tail. */
  lemma PrefixSumSplit(t: seq<nat>, m: nat)
    requires |t| > 0 && m > 0
    ensures Sum(t[..MinNat(m, |t|)]) == t[0] + Sum(t[1..][..MinNat(m - 1, |t| - 1)])
  {
    var k := MinNat(m, |t|);
    var tail := t[1..][..MinNat(m - 1, |t| - 1)];
    assert t[..k] == [t[0]] + tail;
    SumAppend([t[0]], tail);
    assert Sum([t[0]]) == t[0];
  }

  /** Taking one entry `e` out of a sub-multiset of `t` leaves a sub-multiset
      of `t`'s tail, provided `e` is `t`'s head or the head is not taken at all. */
  lemma RestWithinTail(xs: seq<nat>, t: seq<nat>, i: nat)
    requires |t| > 0 && i < |xs|
    requires multiset(xs) <= multiset(t)
    requires xs[i] == t[0] || t[0] !in multiset(xs)
    ensures multiset(xs[..i] + xs[i + 1..]) <= multiset(t[1..])
  {
    var e := xs[i];
    var rest := xs[..i] + xs[i + 1..];
    assert xs == xs[..i] + [e] + xs[i + 1..];
    assert multiset(xs) == multiset(rest) + multiset{e};
    assert t == [t[0]] + t[1..];
    assert multiset(t) == multiset{t[0]} + multiset(t[1..]);
    forall y ensures multiset(rest)[y] <= multiset(t[1..])[y] {
      if y == t[0] {
        if e == t[0] {
          assert multiset(rest)[y] + 1 == multiset(xs)[y];
        } else {
          assert multiset(rest)[y] <= multiset(xs)[y];
        }
      } else {
        assert multiset(rest)[y] <= multiset(xs)[y];
      }
    }
  }

  /** In a descending list, the first `m` entries sum to at least any `m`
      entries taken from it (as a multiset). */
  lemma {:induction false} SubBagAtMostPrefix(xs: seq<nat>, t: seq<nat>, m: nat)
    requires Descending(t)
    requires multiset(xs) <= multiset(t)
    requires |xs| <= m
    ensures Sum(xs) <= Sum(t[..MinNat(m, |t|)])
    decreases |t|
  {
    if |xs| > 0 {
      assert xs[0] in multiset(t);
      assert xs[0] in t;
      var i: nat := 0;
      if t[0] in multiset(xs) {
        i :| i < |xs| && xs[i] == t[0];
      }
      DescendingTail(t);
      assert xs[i] in multiset(t);
      RestWithinTail(xs, t, i);
      SubBagAtMostPrefix(xs[..i] + xs[i + 1..], t[1..], m - 1);
      SumRemove(xs, i);
      PrefixSumSplit(t, m);
    }
  }

  lemma PrefixSumAtMostSum(xs: seq<nat>, k: nat)
    requires k <= |xs|
    ensures Sum(xs[..k]) <= Sum(xs)
  {
    assert xs == xs[..k] + xs[k..];
    SumAppend(xs[..k], xs[k..]);
  }

  /** The sum of the `m` largest values is at least the sum of any `m` of
      the values, and at most the sum of all of them. */
  lemma TopSumIsLargest(ds: seq<nat>, m: nat, xs: seq<nat>)
    requires multiset(xs) <= multiset(ds) && |xs| <= m
    ensures Sum(xs) <= TopSum(ds, m) <= Sum(ds)
  {
    var sorted := SortDescending(ds);
    SubBagAtMostPrefix(xs, sorted, m);
    PrefixSumAtMostSum(sorted, MinNat(m, |ds|));
    SumPermutation(sorted, ds);
  }

  /** A value that, times `m`, covers `total` covers `total`'s share. */
  lemma ShareAtMost(x: real, total: int, m: nat)
    requires m >= 1 && x * m as real >= total as real
    ensures x >= Share(total, m)
  {
    var s := Share(total, m);
    assert s * m as real == total as real;
    if x < s {
      assert x * m as real < s * m as real;
    }
  }

  /** The bound is at least release + processing + delta of every job. */
  lemma DdlbCoversEveryJob(inst: Instance, i: nat)
    requires inst.Valid() && inst.IsJob(i) && Ddlb(inst).Success?
    ensures Ddlb(inst).value >= (inst.R(i) + inst.P(i) + Delta(inst, i)) as real
  {
    assert PathLength(inst, true, i) <= CriticalPath(inst, true, inst.NJobs());
  }

  /** The total work is at least the total processing: the `m` largest
      deltas never exceed all of them. */
  lemma TotalWorkCoversProcessing(inst: Instance)
    requires inst.Valid() && inst.NJobs() != 1
    ensures TotalWork(inst) >= Sum(inst.proc)
  {
    TopSumIsLargest(Deltas(inst), inst.nMachines, []);
  }

  /** Sharing a larger total over the same machines gives a larger share. */
  lemma ShareMonotone(a: int, b: int, m: nat)
    requires m >= 1 && a >= b
    ensures Share(a, m) >= Share(b, m)
  {
  }

  /** The bound is at least the total processing plus the total delta less
      the `m` largest deltas, shared over the `m` machines. */
  lemma DdlbCoversWorkload(inst: Instance)
    requires inst.Valid() && Ddlb(inst).Success?
    ensures Ddlb(inst).value >= Share(TotalWork(inst), inst.nMachines)
  {
  }

  /** The bound is at least the total processing shared over the machines. */
  lemma DdlbCoversProcessing(inst: Instance)
    requires inst.Valid() && Ddlb(inst).Success?
    ensures Ddlb(inst).value >= Share(Sum(inst.proc), inst.nMachines)
  {
    DdlbCoversWorkload(inst);
    TotalWorkCoversProcessing(inst);
    ShareMonotone(TotalWork(inst), Sum(inst.proc), inst.nMachines);
  }

  /** The bound fails exactly on a single job (the delta minimum ranges over
      nothing) or on zero machines (the workload divides by zero). */
  lemma DdlbFailsOnlyOnDegenerateInstances(inst: Instance)
    requires inst.Valid()
    ensures Ddlb(inst).Failure? <==> inst.NJobs() == 1 || inst.nMachines == 0
    ensures inst.NJobs() == 1 ==> Ddlb(inst) == Failure(EmptyMinimum)
    ensures inst.NJobs() != 1 && inst.nMachines == 0 ==> Ddlb(inst) == Failure(ZeroDivision)
  {
  }
}
