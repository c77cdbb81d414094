/** Extremes over a list of machine times, with Python's tie-breaking:
    `max`/`min` over a dict return the FIRST key, in insertion order, that
    attains the extreme value. Index `k` stands for machine `k + 1`. */
module Extremes {
  import opened Wrappers

  function Max(a: nat, b: nat): (r: nat)
    ensures r >= a && r >= b
    ensures r == a || r == b
  {
    if a >= b then a else b
  }

  /** `max(values)`: the largest entry of a non-empty list. */
  function MaxOf(ts: seq<nat>): (r: nat)
    requires |ts| > 0
    ensures r in ts
    ensures forall k | 0 <= k < |ts| :: ts[k] <= r
  {
    if |ts| == 1 then ts[0] else Max(MaxOf(ts[..|ts| - 1]), ts[|ts| - 1])
  }

  /** A value that bounds every entry and is one of them is the maximum. */
  lemma MaxOfUnique(ts: seq<nat>, v: nat)
    requires |ts| > 0
    requires forall k | 0 <= k < |ts| :: ts[k] <= v
    requires exists k | 0 <= k < |ts| :: ts[k] == v
    ensures MaxOf(ts) == v
  {
    var k :| 0 <= k < |ts| && ts[k] == v;
    assert ts[k] <= MaxOf(ts);
  }

  /** The maximum of a list is the larger of the maximum over two chosen
      entries and a bound `others` that is attained by, or 0 and above, the
      remaining entries. With only the two chosen entries, `others` drops out. */
  lemma MaxOfSplit(ts: seq<nat>, a: nat, b: nat, others: nat)
    requires a < |ts| && b < |ts| && a != b
    requires forall k | 0 <= k < |ts| && k != a && k != b :: ts[k] <= others
    requires others == 0 || exists k | 0 <= k < |ts| && k != a && k != b :: ts[k] == others
    ensures MaxOf(ts) == Max(Max(ts[a], ts[b]), others)
    ensures |ts| == 2 ==> MaxOf(ts) == Max(ts[a], ts[b])
  {
    var v := Max(Max(ts[a], ts[b]), others);
    if v == others && others > 0 {
      var k :| 0 <= k < |ts| && k != a && k != b && ts[k] == others;
    }
    MaxOfUnique(ts, v);
    if |ts| == 2 {
      MaxOfUnique(ts, Max(ts[a], ts[b]));
    }
  }

  /** `max(d, key=d.get)`: the first index holding the largest entry. */
  function ArgMax(ts: seq<nat>): (r: nat)
    requires |ts| > 0
    ensures r < |ts|
    ensures forall k | 0 <= k < |ts| :: ts[k] <= ts[r]
    ensures forall k | 0 <= k < r :: ts[k] < ts[r]
  {
    if |ts| == 1 then 0
    else
      var k := ArgMax(ts[..|ts| - 1]);
      if ts[|ts| - 1] > ts[k] then |ts| - 1 else k
  }

  /** `min(d, key=d.get)`: the first index holding the smallest entry. */
  function ArgMin(ts: seq<nat>): (r: nat)
    requires |ts| > 0
    ensures r < |ts|
    ensures forall k | 0 <= k < |ts| :: ts[r] <= ts[k]
    ensures forall k | 0 <= k < r :: ts[r] < ts[k]
  {
    if |ts| == 1 then 0
    else
      var k := ArgMin(ts[..|ts| - 1]);
      if ts[|ts| - 1] < ts[k] then |ts| - 1 else k
  }

  /** The first maximal and the first minimal index coincide exactly when
      every machine has the same time. */
  lemma ArgMaxIsArgMinIffFlat(ts: seq<nat>)
    requires |ts| > 0
    ensures ArgMax(ts) == ArgMin(ts) <==> forall k | 0 <= k < |ts| :: ts[k] == ts[0]
  {
    var a, b := ArgMax(ts), ArgMin(ts);
    if a == b {
      forall k | 0 <= k < |ts| ensures ts[k] == ts[0] {
        assert ts[b] <= ts[k] <= ts[a];
        assert ts[b] <= ts[0] <= ts[a];
      }
    }
  }

  /** The largest time among machines other than `a` and `b`, or 0 when there
      are none (times are never negative, so 0 is also the neutral value). */
  function MaxOthers(ts: seq<nat>, a: nat, b: nat): (r: nat)
    ensures forall k | 0 <= k < |ts| && k != a && k != b :: ts[k] <= r
    ensures r == 0 || exists k | 0 <= k < |ts| && k != a && k != b :: ts[k] == r
  {
    if |ts| == 0 then 0
    else
      var n := |ts| - 1;
      var m := MaxOthers(ts[..n], a, b);
      if n == a || n == b then m else Max(m, ts[n])
  }

  /** Scan `ms` in order keeping the first strictly lowest value below
      `bound`: the index of the winner, or None when nothing beats `bound`. */
  function FirstBest(ms: seq<nat>, bound: nat): (r: Option<nat>)
    ensures r.None? <==> forall k | 0 <= k < |ms| :: bound <= ms[k]
    ensures r.Some? ==> r.value < |ms| && ms[r.value] < bound
    ensures r.Some? ==> forall k | 0 <= k < |ms| :: ms[r.value] <= ms[k]
    ensures r.Some? ==> forall k | 0 <= k < r.value :: ms[r.value] < ms[k]
  {
    if |ms| == 0 then None
    else
      var n := |ms| - 1;
      var r := FirstBest(ms[..n], bound);
      var best := if r.None? then bound else ms[r.value];
      if ms[n] < best then Some(n) else r
  }

  function Sum(xs: seq<nat>): nat
  {
    if |xs| == 0 then 0 else Sum(xs[..|xs| - 1]) + xs[|xs| - 1]
  }

  lemma {:induction false} SumAppend(xs: seq<nat>, ys: seq<nat>)
    ensures Sum(xs + ys) == Sum(xs) + Sum(ys)
  {
    if |ys| > 0 {
      var zs := xs + ys;
      assert zs[..|zs| - 1] == xs + ys[..|ys| - 1];
      SumAppend(xs, ys[..|ys| - 1]);
    } else {
      assert xs + ys == xs;
    }
  }

  /** The sum of a list does not depend on the order of its entries. */
  lemma {:induction false} SumPermutation(xs: seq<nat>, ys: seq<nat>)
    requires multiset(xs) == multiset(ys)
    ensures Sum(xs) == Sum(ys)
    decreases |xs|
  {
    if |xs| > 0 {
      var n := |xs| - 1;
      var x := xs[n];
      assert x in multiset(ys);
      var i :| 0 <= i < |ys| && ys[i] == x;
      var rest := ys[..i] + ys[i + 1..];
      assert ys == ys[..i] + [x] + ys[i + 1..];
      assert xs == xs[..n] + [x];
      calc {
        multiset(xs[..n]) + multiset{x};
        multiset(xs);
        multiset(ys);
        multiset(ys[..i]) + multiset{x} + multiset(ys[i + 1..]);
        multiset(rest) + multiset{x};
      }
      assert multiset(xs[..n]) == (multiset(xs[..n]) + multiset{x}) - multiset{x};
      assert multiset(rest) == (multiset(rest) + multiset{x}) - multiset{x};
      SumPermutation(xs[..n], rest);
      SumAppend(ys[..i] + [x], ys[i + 1..]);
      SumAppend(ys[..i], [x]);
      SumAppend(ys[..i], ys[i + 1..]);
      assert Sum([x]) == x;
    } else {
      assert ys == [];
    }
  }
}
