/** The three neighbourhoods of the local search, anchored on the most loaded
    machine `a` (m_max) and the least loaded machine `b` (m_min):
    transfer a job from `a` to the end of `b`, swap a job of `a` with a job of
    `b`, or swap two jobs within `a`. */
module Neighbourhoods {
  import opened Instances
  import opened Extremes
  import opened Evaluator

  /** A candidate move, by positions in the sequences of `a` and `b`. */
  datatype Move =
    | Transfer(i: nat)            // job at position i of `a` to the end of `b`
    | InterSwap(i: nat, j: nat)   // position i of `a` with position j of `b`
    | IntraSwap(i: nat, j: nat)   // positions i < j of `a`

  /** The positions of a move exist in sequences of lengths `n` (for `a`)
      and `m` (for `b`). */
  predicate Fits(mv: Move, n: nat, m: nat) {
    match mv
    case Transfer(i) => i < n
    case InterSwap(i, j) => i < n && j < m
    case IntraSwap(i, j) => i < j < n
  }

  function Kind(mv: Move): nat {
    match mv
    case Transfer(_) => 0
    case InterSwap(_, _) => 1
    case IntraSwap(_, _) => 2
  }

  function Second(mv: Move): nat {
    if mv.Transfer? then 0 else mv.j
  }

  /** The scan order: transfers, then inter-machine swaps, then intra-machine
      swaps; within a neighbourhood by the first position, then the second. */
  predicate Before(x: Move, y: Move) {
    || Kind(x) < Kind(y)
    || (Kind(x) == Kind(y) && x.i < y.i)
    || (Kind(x) == Kind(y) && x.i == y.i && Second(x) < Second(y))
  }

  predicate Increasing(ms: seq<Move>) {
    forall p, q | 0 <= p < q < |ms| :: Before(ms[p], ms[q])
  }

  lemma ConcatIncreasing(xs: seq<Move>, ys: seq<Move>)
    requires Increasing(xs) && Increasing(ys)
    requires forall x, y | x in xs && y in ys :: Before(x, y)
    ensures Increasing(xs + ys)
  {
    var zs := xs + ys;
    forall p, q | 0 <= p < q < |zs| ensures Before(zs[p], zs[q]) {
      if q >= |xs| && p < |xs| {
        assert zs[p] in xs && zs[q] in ys;
      } else if p >= |xs| {
        assert zs[p] == ys[p - |xs|] && zs[q] == ys[q - |xs|];
      }
    }
  }

  /** In an increasing list, a move that comes before another sits at a lower index. */
  lemma IncreasingIndex(ms: seq<Move>, p: nat, k: nat)
    requires Increasing(ms) && p < |ms| && k < |ms|
    requires Before(ms[p], ms[k])
    ensures p < k
  {
  }

  /** Transfers of positions 0..n-1, in increasing position. */
  function TransferMoves(n: nat): (r: seq<Move>)
    ensures forall mv :: mv in r <==> mv.Transfer? && mv.i < n
    ensures Increasing(r)
  {
    var r := seq(n, i requires 0 <= i < n => Transfer(i));
    assert forall mv: Move | mv.Transfer? && mv.i < n :: r[mv.i] == mv;
    r
  }

  /** Inter-machine swaps with first position in i0..n-1: first position
      outer, second position inner. */
  function InterSwapRows(i0: nat, n: nat, m: nat): (r: seq<Move>)
    ensures forall mv :: mv in r <==> mv.InterSwap? && i0 <= mv.i < n && mv.j < m
    ensures Increasing(r)
    decreases n - i0
  {
    if i0 >= n then []
    else
      var row := seq(m, j requires 0 <= j < m => InterSwap(i0, j));
      var rest := InterSwapRows(i0 + 1, n, m);
      assert forall mv | mv in row :: mv.i == i0 && mv.InterSwap?;
      assert forall mv: Move | mv.InterSwap? && mv.i == i0 && mv.j < m :: row[mv.j] == mv;
      ConcatIncreasing(row, rest);
      row + rest
  }

  /** Intra-machine swaps (i, j), i < j < n, with i in i0..n-1: i outer, j inner. */
  function IntraSwapRows(i0: nat, n: nat): (r: seq<Move>)
    ensures forall mv :: mv in r <==> mv.IntraSwap? && i0 <= mv.i < mv.j < n
    ensures Increasing(r)
    decreases n - i0
  {
    if i0 >= n then []
    else
      var row := seq(n - i0 - 1, k requires 0 <= k < n - i0 - 1 => IntraSwap(i0, i0 + 1 + k));
      var rest := IntraSwapRows(i0 + 1, n);
      assert forall mv | mv in row :: mv.i == i0 && mv.IntraSwap?;
      assert forall mv: Move | mv.IntraSwap? && mv.i == i0 && i0 < mv.j < n :: mv in row by {
        forall mv: Move | mv.IntraSwap? && mv.i == i0 && i0 < mv.j < n ensures mv in row {
          assert row[mv.j - i0 - 1] == mv;
        }
      }
      ConcatIncreasing(row, rest);
      row + rest
  }

  /** Every candidate of one round, in scan order, for `a` holding `n` jobs
      and `b` holding `m` jobs: exactly the moves that fit, each once, in
      strictly increasing scan order. */
  function Moves(n: nat, m: nat): (r: seq<Move>)
    ensures forall mv :: mv in r <==> Fits(mv, n, m)
    ensures Increasing(r)
  {
    var transfers := TransferMoves(n);
    var inter := InterSwapRows(0, n, m);
    var intra := if n >= 2 then IntraSwapRows(0, n) else [];
    ConcatIncreasing(transfers, inter);
    ConcatIncreasing(transfers + inter, intra);
    transfers + inter + intra
  }

  /** The new sequence of `a` under a move (`new_seq_max`). */
  function NewMax(sol: Solution, a: nat, b: nat, mv: Move): seq<nat>
    requires a < |sol| && b < |sol| && Fits(mv, |sol[a]|, |sol[b]|)
  {
    match mv
    case Transfer(i) => Remove(sol[a], i)
    case InterSwap(i, j) => sol[a][i := sol[b][j]]
    case IntraSwap(i, j) => sol[a][i := sol[a][j]][j := sol[a][i]]
  }

  /** The new sequence of `b` under a transfer or an inter-machine swap
      (`new_seq_min`). */
  function NewMin(sol: Solution, a: nat, b: nat, mv: Move): seq<nat>
    requires a < |sol| && b < |sol| && Fits(mv, |sol[a]|, |sol[b]|)
    requires !mv.IntraSwap?
  {
    match mv
    case Transfer(i) => sol[b] + [sol[a][i]]
    case InterSwap(i, j) => sol[b][j := sol[a][i]]
  }

  /** The neighbour solution: `a` is written first and `b` second, so when
      `a == b` the write to `b` is the one that remains. */
  function Apply(sol: Solution, a: nat, b: nat, mv: Move): (r: Solution)
    requires a < |sol| && b < |sol| && Fits(mv, |sol[a]|, |sol[b]|)
    ensures |r| == |sol|
    ensures forall k | 0 <= k < |sol| && k != a && k != b :: r[k] == sol[k]
  {
    if mv.IntraSwap? then sol[a := NewMax(sol, a, b, mv)]
    else sol[a := NewMax(sol, a, b, mv)][b := NewMin(sol, a, b, mv)]
  }

  /** Every job of a neighbour comes from `a` or `b`. */
  lemma ApplyValid(inst: Instance, sol: Solution, a: nat, b: nat, mv: Move)
    requires inst.ValidSolution(sol)
    requires a < |sol| && b < |sol| && Fits(mv, |sol[a]|, |sol[b]|)
    ensures inst.ValidSolution(Apply(sol, a, b, mv))
  {
    var x := NewMax(sol, a, b, mv);
    assert inst.ValidSeq(sol[a]) && inst.ValidSeq(sol[b]);
    assert inst.ValidSeq(x) by {
      forall y | y in x ensures inst.IsJob(y) {
        assert y in multiset(x);
        if mv.Transfer? {
          assert y in multiset(sol[a]);
        }
      }
    }
    UpdateValid(inst, sol, a, x);
    if !mv.IntraSwap? {
      var y := NewMin(sol, a, b, mv);
      assert inst.ValidSeq(y);
      UpdateValid(inst, sol[a := x], b, y);
    }
  }

  /** The jobs after rewriting two distinct machines. */
  lemma JobsReplaceTwo(sol: Solution, a: nat, b: nat, x: seq<nat>, y: seq<nat>)
    requires a < |sol| && b < |sol| && a != b
    ensures Jobs(sol[a := x][b := y]) + multiset(sol[a]) + multiset(sol[b])
         == Jobs(sol) + multiset(x) + multiset(y)
  {
    JobsUpdate(sol, a, x);
    JobsUpdate(sol[a := x], b, y);
    assert sol[a := x][b] == sol[b];
    var r := sol[a := x][b := y];
    calc {
      Jobs(r) + multiset(sol[a]) + multiset(sol[b]);
      (Jobs(r) + multiset(sol[b])) + multiset(sol[a]);
      (Jobs(sol[a := x]) + multiset(y)) + multiset(sol[a]);
      (Jobs(sol[a := x]) + multiset(sol[a])) + multiset(y);
      Jobs(sol) + multiset(x) + multiset(y);
    }
  }

  /** A move between two distinct machines that trades jobs so that the two
      sequences together keep their jobs preserves the solution's jobs. */
  lemma TradePreservesJobs(sol: Solution, a: nat, b: nat, x: seq<nat>, y: seq<nat>)
    requires a < |sol| && b < |sol| && a != b
    requires multiset(x) + multiset(y) == multiset(sol[a]) + multiset(sol[b])
    ensures Jobs(sol[a := x][b := y]) == Jobs(sol)
  {
    JobsReplaceTwo(sol, a, b, x, y);
    var r := sol[a := x][b := y];
    var both := multiset(sol[a]) + multiset(sol[b]);
    assert Jobs(r) + multiset(sol[a]) + multiset(sol[b]) == Jobs(r) + both;
    assert Jobs(r) == (Jobs(r) + both) - both;
    assert Jobs(sol) == (Jobs(sol) + both) - both;
  }

  lemma IntraSwapKeepsJobs(sol: Solution, a: nat, i: nat, j: nat)
    requires a < |sol| && i < j < |sol[a]|
    ensures Jobs(sol[a := sol[a][i := sol[a][j]][j := sol[a][i]]]) == Jobs(sol)
  {
    var x := sol[a][i := sol[a][j]][j := sol[a][i]];
    JobsReplace(sol, a, x);
    assert multiset(x) == multiset(sol[a]);
    MachineJobsIncluded(sol, a);
  }

  lemma TransferKeepsJobs(sol: Solution, a: nat, b: nat, i: nat)
    requires a < |sol| && b < |sol| && a != b && i < |sol[a]|
    ensures Jobs(sol[a := Remove(sol[a], i)][b := sol[b] + [sol[a][i]]]) == Jobs(sol)
  {
    var y := sol[b] + [sol[a][i]];
    assert multiset(y) == multiset(sol[b]) + multiset{sol[a][i]};
    TradePreservesJobs(sol, a, b, Remove(sol[a], i), y);
  }

  lemma InterSwapKeepsJobs(sol: Solution, a: nat, b: nat, i: nat, j: nat)
    requires a < |sol| && b < |sol| && a != b && i < |sol[a]| && j < |sol[b]|
    ensures Jobs(sol[a := sol[a][i := sol[b][j]]][b := sol[b][j := sol[a][i]]]) == Jobs(sol)
  {
    var x := sol[a][i := sol[b][j]];
    var y := sol[b][j := sol[a][i]];
    assert multiset(x) == multiset(sol[a]) - multiset{sol[a][i]} + multiset{sol[b][j]};
    assert multiset(y) == multiset(sol[b]) - multiset{sol[b][j]} + multiset{sol[a][i]};
    assert sol[a][i] in multiset(sol[a]) && sol[b][j] in multiset(sol[b]);
    TradePreservesJobs(sol, a, b, x, y);
  }

  /** With distinct machines, every neighbour holds exactly the jobs of the
      current solution (an intra-machine swap does so even when `a == b`). */
  lemma ApplyPreservesJobs(sol: Solution, a: nat, b: nat, mv: Move)
    requires a < |sol| && b < |sol| && Fits(mv, |sol[a]|, |sol[b]|)
    requires a != b || mv.IntraSwap?
    ensures Jobs(Apply(sol, a, b, mv)) == Jobs(sol)
  {
    match mv
    case IntraSwap(i, j) => IntraSwapKeepsJobs(sol, a, i, j);
    case Transfer(i) => TransferKeepsJobs(sol, a, b, i);
    case InterSwap(i, j) => InterSwapKeepsJobs(sol, a, b, i, j);
  }

  /** When `a == b` a transfer does not move the job: it keeps the whole
      sequence and appends a second copy of the job at its end. */
  lemma DegenerateTransferDuplicates(sol: Solution, a: nat, i: nat)
    requires a < |sol| && i < |sol[a]|
    ensures Apply(sol, a, a, Transfer(i)) == sol[a := sol[a] + [sol[a][i]]]
    ensures Jobs(Apply(sol, a, a, Transfer(i))) == Jobs(sol) + multiset{sol[a][i]}
  {
    var s := sol[a] + [sol[a][i]];
    assert Apply(sol, a, a, Transfer(i)) == sol[a := Remove(sol[a], i)][a := s];
    AppendJobs(sol, a, sol[a][i]);
  }

  /** The neighbour's makespan as the search estimates it: the recomputed
      times of the sequences the move rewrites, the unchanged time of `b` for
      an intra-machine swap, and `others`, the largest time of every other
      machine, with the special forms for one and two machines. */
  function Estimate(inst: Instance, sol: Solution, ts: seq<nat>, a: nat, b: nat, others: nat, mv: Move): nat
    requires inst.Valid() && inst.ValidSolution(sol) && |ts| == |sol|
    requires a < |sol| && b < |sol| && Fits(mv, |sol[a]|, |sol[b]|)
  {
    ApplyValid(inst, sol, a, b, mv);
    var x := NewMax(sol, a, b, mv);
    assert inst.ValidSeq(x) by {
      if !mv.IntraSwap? && a == b {
        assert forall y | y in x :: y in multiset(sol[a]);
      } else {
        assert Apply(sol, a, b, mv)[a] == x;
      }
    }
    var tMax := SeqTime(inst, x);
    match mv
    case Transfer(_) =>
      var tMin := SeqTime(inst, NewMin(sol, a, b, mv));
      if inst.nMachines == 1 then tMax
      else if inst.nMachines == 2 then Max(tMax, tMin)
      else Max(Max(tMax, tMin), others)
    case InterSwap(_, _) =>
      var tMin := SeqTime(inst, NewMin(sol, a, b, mv));
      if inst.nMachines == 2 then Max(tMax, tMin)
      else Max(Max(tMax, tMin), others)
    case IntraSwap(_, _) =>
      if inst.nMachines == 1 then tMax
      else if inst.nMachines == 2 then Max(tMax, ts[b])
      else Max(Max(tMax, ts[b]), others)
  }

  /** With distinct machines `a` (the most loaded) and `b`, the estimate is
      the true makespan of the neighbour: the machines the move does not touch
      keep their times, and `others` is their maximum. */
  lemma EstimateIsMakespan(inst: Instance, sol: Solution, a: nat, b: nat, mv: Move)
    requires inst.Valid() && inst.ValidSolution(sol) && |sol| == inst.nMachines
    requires a < |sol| && b < |sol| && a != b && Fits(mv, |sol[a]|, |sol[b]|)
    ensures inst.ValidSolution(Apply(sol, a, b, mv))
    ensures
      var ts := Times(inst, sol);
      Estimate(inst, sol, ts, a, b, MaxOthers(ts, a, b), mv) == Makespan(inst, Apply(sol, a, b, mv))
  {
    ApplyValid(inst, sol, a, b, mv);
    var ts := Times(inst, sol);
    var others := MaxOthers(ts, a, b);
    var r := Apply(sol, a, b, mv);
    var ts' := Times(inst, r);
    forall k | 0 <= k < |ts'| && k != a && k != b ensures ts'[k] == ts[k] {
      assert r[k] == sol[k];
    }
    assert forall k | 0 <= k < |ts'| && k != a && k != b :: ts'[k] <= others;
    if others > 0 {
      var k :| 0 <= k < |ts| && k != a && k != b && ts[k] == others;
      assert ts'[k] == others;
    }
    assert r[a] == NewMax(sol, a, b, mv);
    if mv.IntraSwap? {
      assert r[b] == sol[b];
    } else {
      assert r[b] == NewMin(sol, a, b, mv);
    }
    MaxOfSplit(ts', a, b, others);
  }
}
