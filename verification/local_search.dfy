/** The restricted steepest-descent local search. Each round anchors on the
    first most loaded machine (m_max) and the first least loaded machine
    (m_min), scans every transfer, inter-machine swap and intra-machine swap
    in a fixed order, and commits the first candidate with the strictly
    lowest estimated makespan; it stops when no candidate beats the current
    makespan. `CorrectedLocalSearch` is the same search offering only swaps
    within m_max in a round where m_max and m_min are the same machine. */
module LocalSearchEngine {
  import opened Wrappers
  import opened Instances
  import opened Extremes
  import opened Evaluator
  import opened Neighbourhoods

  /** The shape the search runs on: one sequence per configured machine, at
      least one machine, every entry a job of the instance. */
  predicate Ready(inst: Instance, sol: Solution) {
    && inst.Valid()
    && inst.nMachines >= 1
    && |sol| == inst.nMachines
    && inst.ValidSolution(sol)
  }

  function MMax(inst: Instance, sol: Solution): nat
    requires Ready(inst, sol)
  {
    ArgMax(Times(inst, sol))
  }

  function MMin(inst: Instance, sol: Solution): nat
    requires Ready(inst, sol)
  {
    ArgMin(Times(inst, sol))
  }

  /** The moves that exist this round. */
  predicate Available(inst: Instance, sol: Solution, mv: Move)
    requires Ready(inst, sol)
  {
    Fits(mv, |sol[MMax(inst, sol)]|, |sol[MMin(inst, sol)]|)
  }

  /** The estimated makespan of the neighbour a move reaches this round. */
  function Candidate(inst: Instance, sol: Solution, mv: Move): nat
    requires Ready(inst, sol) && Available(inst, sol, mv)
  {
    var ts := Times(inst, sol);
    var a, b := MMax(inst, sol), MMin(inst, sol);
    Estimate(inst, sol, ts, a, b, MaxOthers(ts, a, b), mv)
  }

  /** This round's candidates in scan order. */
  function RoundMoves(inst: Instance, sol: Solution): (moves: seq<Move>)
    requires Ready(inst, sol)
    ensures forall mv :: mv in moves <==> Available(inst, sol, mv)
    ensures Increasing(moves)
  {
    Moves(|sol[MMax(inst, sol)]|, |sol[MMin(inst, sol)]|)
  }

  /** The estimate of every listed move, in list order. */
  function Estimates(inst: Instance, sol: Solution, moves: seq<Move>): (ests: seq<nat>)
    requires Ready(inst, sol)
    requires forall p | 0 <= p < |moves| :: Available(inst, sol, moves[p])
    ensures |ests| == |moves|
    ensures forall p | 0 <= p < |ests| :: ests[p] == Candidate(inst, sol, moves[p])
  {
    seq(|moves|, p requires 0 <= p < |moves| => Candidate(inst, sol, moves[p]))
  }

  /** Whatever the machine count, a candidate's estimate is at least the
      recomputed time of m_max's new sequence and, for an inter-machine
      swap, of m_min's new sequence. */
  lemma CandidateCoversRewritten(inst: Instance, sol: Solution, mv: Move)
    requires Ready(inst, sol) && Available(inst, sol, mv)
    ensures inst.ValidSeq(NewMax(sol, MMax(inst, sol), MMin(inst, sol), mv))
    ensures Candidate(inst, sol, mv) >= SeqTime(inst, NewMax(sol, MMax(inst, sol), MMin(inst, sol), mv))
    ensures mv.InterSwap? ==>
      && inst.ValidSeq(NewMin(sol, MMax(inst, sol), MMin(inst, sol), mv))
      && Candidate(inst, sol, mv) >= SeqTime(inst, NewMin(sol, MMax(inst, sol), MMin(inst, sol), mv))
  {
    var a, b := MMax(inst, sol), MMin(inst, sol);
    NewSequencesValid(inst, sol, a, b, mv);
  }

  /** The sequences a move writes hold only jobs of the instance. */
  lemma NewSequencesValid(inst: Instance, sol: Solution, a: nat, b: nat, mv: Move)
    requires inst.ValidSolution(sol) && a < |sol| && b < |sol| && Fits(mv, |sol[a]|, |sol[b]|)
    ensures inst.ValidSeq(NewMax(sol, a, b, mv))
    ensures !mv.IntraSwap? ==> inst.ValidSeq(NewMin(sol, a, b, mv))
  {
    assert inst.ValidSeq(sol[a]) && inst.ValidSeq(sol[b]);
    if mv.Transfer? {
      forall y | y in NewMax(sol, a, b, mv) ensures inst.IsJob(y) {
        assert y in multiset(sol[a]);
      }
    }
  }

  datatype Outcome =
    | LocalOptimum
    | Improved(next: Solution, makespan: nat, move: Move, mMax: nat, mMin: nat)

  /** Scan `moves` against the current makespan `current`: the position of
      the first move, in list order, with the lowest estimate below
      `current`, or None when no estimate beats `current`. The estimates are
      `Estimates(inst, sol, moves)`, whose entry `p` is the estimate of
      `moves[p]`. */
  function Choice(inst: Instance, sol: Solution, moves: seq<Move>, current: nat): (r: Option<nat>)
    requires Ready(inst, sol)
    requires forall p | 0 <= p < |moves| :: Available(inst, sol, moves[p])
    ensures var ests := Estimates(inst, sol, moves);
      && (r.None? <==> forall p | 0 <= p < |moves| :: current <= ests[p])
      && (r.Some? ==> r.value < |moves| && ests[r.value] < current)
      && (r.Some? ==> forall p | 0 <= p < |moves| :: ests[r.value] <= ests[p])
      && (r.Some? ==> forall p | 0 <= p < r.value :: ests[r.value] < ests[p])
  {
    FirstBest(Estimates(inst, sol, moves), current)
  }

  /** The scan's outcome: the chosen move applied between m_max and m_min. */
  function Pick(inst: Instance, sol: Solution, moves: seq<Move>, current: nat): (o: Outcome)
    requires Ready(inst, sol)
    requires forall p | 0 <= p < |moves| :: Available(inst, sol, moves[p])
    ensures o.LocalOptimum? <==> Choice(inst, sol, moves, current).None?
    ensures o.Improved? ==>
      && o.move == moves[Choice(inst, sol, moves, current).value]
      && Available(inst, sol, o.move)
      && o.mMax == MMax(inst, sol) && o.mMin == MMin(inst, sol)
      && o.next == Apply(sol, o.mMax, o.mMin, o.move)
      && o.makespan == Candidate(inst, sol, o.move)
  {
    match Choice(inst, sol, moves, current)
    case None => LocalOptimum
    case Some(k) =>
      var mv := moves[k];
      Improved(Apply(sol, MMax(inst, sol), MMin(inst, sol), mv), Candidate(inst, sol, mv), mv, MMax(inst, sol), MMin(inst, sol))
  }

  /** A scan stops exactly when no listed move's estimate beats `current`. */
  lemma PickStopsIffNoImprovement(inst: Instance, sol: Solution, moves: seq<Move>, current: nat)
    requires Ready(inst, sol)
    requires forall p | 0 <= p < |moves| :: Available(inst, sol, moves[p])
    ensures Pick(inst, sol, moves, current).LocalOptimum? <==>
      forall mv | mv in moves :: current <= Candidate(inst, sol, mv)
  {
    if Pick(inst, sol, moves, current).LocalOptimum? {
      forall mv | mv in moves ensures current <= Candidate(inst, sol, mv) {
        var p :| 0 <= p < |moves| && moves[p] == mv;
      }
    }
  }

  /** A scan accepts a move with the lowest estimate of the list. */
  lemma PickBest(inst: Instance, sol: Solution, moves: seq<Move>, current: nat)
    requires Ready(inst, sol)
    requires forall p | 0 <= p < |moves| :: Available(inst, sol, moves[p])
    ensures
      var o := Pick(inst, sol, moves, current);
      o.Improved? ==> forall mv | mv in moves :: o.makespan <= Candidate(inst, sol, mv)
  {
    var o := Pick(inst, sol, moves, current);
    if o.Improved? {
      var k := Choice(inst, sol, moves, current).value;
      var ests := Estimates(inst, sol, moves);
      forall mv | mv in moves ensures o.makespan <= Candidate(inst, sol, mv) {
        var p :| 0 <= p < |moves| && moves[p] == mv;
        assert ests[k] <= ests[p];
      }
    }
  }

  /** In a list in scan order, every move listed before the chosen one has a
      strictly higher estimate. */
  lemma PickFirst(inst: Instance, sol: Solution, moves: seq<Move>, current: nat)
    requires Ready(inst, sol)
    requires forall p | 0 <= p < |moves| :: Available(inst, sol, moves[p])
    requires Increasing(moves)
    ensures
      var o := Pick(inst, sol, moves, current);
      o.Improved? ==> forall mv | mv in moves && Before(mv, o.move) ::
        o.makespan < Candidate(inst, sol, mv)
  {
    var o := Pick(inst, sol, moves, current);
    if o.Improved? {
      var k := Choice(inst, sol, moves, current).value;
      forall mv | mv in moves && Before(mv, moves[k])
        ensures Candidate(inst, sol, moves[k]) < Candidate(inst, sol, mv)
      {
        var p :| 0 <= p < |moves| && moves[p] == mv;
        IncreasingIndex(moves, p, k);
      }
    }
  }

  /** One round of the search against the current makespan `current`: the
      first candidate, in scan order, with the lowest estimate below `current`. */
  function Step(inst: Instance, sol: Solution, current: nat): (o: Outcome)
    requires Ready(inst, sol)
    ensures o.Improved? ==>
      && o.mMax == MMax(inst, sol) && o.mMin == MMin(inst, sol)
      && Available(inst, sol, o.move)
      && o.next == Apply(sol, o.mMax, o.mMin, o.move)
      && o.makespan == Candidate(inst, sol, o.move)
      && o.makespan < current
  {
    Pick(inst, sol, RoundMoves(inst, sol), current)
  }

  /** A round stops exactly when no candidate's estimate beats `current`. */
  lemma StepStopsIffNoImprovement(inst: Instance, sol: Solution, current: nat)
    requires Ready(inst, sol)
    ensures Step(inst, sol, current).LocalOptimum? <==>
      forall mv | Available(inst, sol, mv) :: current <= Candidate(inst, sol, mv)
  {
    PickStopsIffNoImprovement(inst, sol, RoundMoves(inst, sol), current);
  }

  /** An accepted move has the lowest estimate of the round. */
  lemma StepPicksBest(inst: Instance, sol: Solution, current: nat)
    requires Ready(inst, sol)
    ensures
      var o := Step(inst, sol, current);
      o.Improved? ==> forall mv | Available(inst, sol, mv) :: o.makespan <= Candidate(inst, sol, mv)
  {
    PickBest(inst, sol, RoundMoves(inst, sol), current);
  }

  /** Ties go to the scan order: every move scanned before the accepted one
      has a strictly higher estimate. */
  lemma StepPicksFirst(inst: Instance, sol: Solution, current: nat)
    requires Ready(inst, sol)
    ensures
      var o := Step(inst, sol, current);
      o.Improved? ==> forall mv | Available(inst, sol, mv) && Before(mv, o.move) ::
        o.makespan < Candidate(inst, sol, mv)
  {
    PickFirst(inst, sol, RoundMoves(inst, sol), current);
  }

  /** An accepted round between distinct machines keeps every job exactly
      where the solution had it (in multiset terms) and its makespan is the
      neighbour's true makespan. */
  lemma StepSound(inst: Instance, sol: Solution, current: nat)
    requires Ready(inst, sol)
    ensures
      var o := Step(inst, sol, current);
      o.Improved? ==> Ready(inst, o.next)
    ensures
      var o := Step(inst, sol, current);
      o.Improved? && o.mMax != o.mMin ==>
        Jobs(o.next) == Jobs(sol) && o.makespan == Makespan(inst, o.next)
  {
    var o := Step(inst, sol, current);
    if o.Improved? {
      ApplyValid(inst, sol, o.mMax, o.mMin, o.move);
      if o.mMax != o.mMin {
        ApplyPreservesJobs(sol, o.mMax, o.mMin, o.move);
        EstimateIsMakespan(inst, sol, o.mMax, o.mMin, o.move);
      }
    }
  }

  /** One accepted round, as reported: the move, its anchors, the new makespan. */
  datatype Improvement = Improvement(move: Move, mMax: nat, mMin: nat, makespan: nat)

  /** Every accepted round beats the initial makespan and every round
      accepted before it. */
  predicate StrictlyDescending(initial: nat, trace: seq<Improvement>) {
    && (forall k | 0 <= k < |trace| :: trace[k].makespan < initial)
    && (forall p, q | 0 <= p < q < |trace| :: trace[q].makespan < trace[p].makespan)
  }

  /** The makespan after the rounds of `trace`, starting from `start`: the
      last round's, or `start` when no round was accepted. */
  function Latest(start: nat, trace: seq<Improvement>): nat {
    if |trace| == 0 then start else trace[|trace| - 1].makespan
  }

  lemma LatestPrepend(start: nat, entry: Improvement, trace: seq<Improvement>)
    ensures Latest(start, [entry] + trace) == Latest(entry.makespan, trace)
  {
    assert ([entry] + trace)[|trace|] == if |trace| == 0 then entry else trace[|trace| - 1];
  }

  /** No accepted round had m_max == m_min. */
  predicate NonDegenerate(trace: seq<Improvement>) {
    forall k | 0 <= k < |trace| :: trace[k].mMax != trace[k].mMin
  }

  lemma ConcatEmpty(a: seq<Improvement>)
    ensures [] + a == a && a + [] == a
  {
  }

  lemma ConcatAssociative(a: seq<Improvement>, b: seq<Improvement>, c: seq<Improvement>)
    ensures a + (b + c) == (a + b) + c
  {
  }

  /** A descending trace stays descending behind a round that beats `start`
      and is beaten by every round of the trace. */
  lemma DescendingPrepend(start: nat, entry: Improvement, trace: seq<Improvement>)
    requires entry.makespan < start
    requires StrictlyDescending(entry.makespan, trace)
    ensures StrictlyDescending(start, [entry] + trace)
  {
    var trace' := [entry] + trace;
    assert trace'[0] == entry;
    assert forall k | 1 <= k < |trace'| :: trace'[k] == trace[k - 1];
  }

  /** One round of the search: as the code plays it (`corrected` false), or
      with the allowed moves only (`corrected` true). */
  function Round(inst: Instance, corrected: bool, sol: Solution, current: nat): (o: Outcome)
    requires Ready(inst, sol)
    ensures o.Improved? ==> Ready(inst, o.next) && o.makespan < current
  {
    var o := if corrected then CorrectedStep(inst, sol, current) else Step(inst, sol, current);
    if o.Improved? then
      ApplyValid(inst, sol, o.mMax, o.mMin, o.move);
      o
    else o
  }

  /** What a run of the search returns: the final solution, its reported
      makespan and the accepted rounds in order. */
  datatype Run = Run(sol: Solution, makespan: nat, trace: seq<Improvement>)

  /** The run of the search from `sol` at makespan `current`: each round is
      played on the previous round's neighbour at its reported makespan, and
      the run ends with the first round that finds no improvement. */
  function Search(inst: Instance, corrected: bool, sol: Solution, current: nat): Run
    requires Ready(inst, sol)
    decreases current
  {
    var o := Round(inst, corrected, sol, current);
    if o.LocalOptimum? then Run(sol, current, [])
    else
      var rest := Search(inst, corrected, o.next, o.makespan);
      Run(rest.sol, rest.makespan, [Improvement(o.move, o.mMax, o.mMin, o.makespan)] + rest.trace)
  }

  /** A run ends on a solution of the instance, at a makespan no higher than
      where it started, after strictly descending rounds, and its last round
      finds no improvement. */
  lemma {:induction false} SearchProperties(inst: Instance, corrected: bool, sol: Solution, current: nat)
    requires Ready(inst, sol)
    ensures
      var r := Search(inst, corrected, sol, current);
      && Ready(inst, r.sol)
      && r.makespan <= current
      && StrictlyDescending(current, r.trace)
      && r.makespan == Latest(current, r.trace)
      && Round(inst, corrected, r.sol, r.makespan).LocalOptimum?
    decreases current
  {
    var o := Round(inst, corrected, sol, current);
    SearchUnfold(inst, corrected, sol, current);
    if o.Improved? {
      var rest := Search(inst, corrected, o.next, o.makespan);
      var entry := Improvement(o.move, o.mMax, o.mMin, o.makespan);
      SearchProperties(inst, corrected, o.next, o.makespan);
      DescendingPrepend(current, entry, rest.trace);
      LatestPrepend(current, entry, rest.trace);
    }
  }

  /** A run that starts with an accepted round continues as the run from
      that round's neighbour. */
  lemma SearchUnfold(inst: Instance, corrected: bool, sol: Solution, current: nat)
    requires Ready(inst, sol)
    ensures
      var o := Round(inst, corrected, sol, current);
      o.Improved? ==>
        var rest := Search(inst, corrected, o.next, o.makespan);
        Search(inst, corrected, sol, current)
          == Run(rest.sol, rest.makespan, [Improvement(o.move, o.mMax, o.mMin, o.makespan)] + rest.trace)
    ensures Round(inst, corrected, sol, current).LocalOptimum? ==>
      Search(inst, corrected, sol, current) == Run(sol, current, [])
  {
  }

  /** A run whose first round is accepted and whose second finds nothing
      consists of that one round. */
  lemma SearchOneRound(inst: Instance, corrected: bool, sol: Solution, current: nat,
                       next: Solution, makespan: nat, mv: Move, a: nat, b: nat)
    requires Ready(inst, sol) && Ready(inst, next)
    requires Round(inst, corrected, sol, current) == Improved(next, makespan, mv, a, b)
    requires Round(inst, corrected, next, makespan).LocalOptimum?
    ensures Search(inst, corrected, sol, current) == Run(next, makespan, [Improvement(mv, a, b, makespan)])
  {
    SearchUnfold(inst, corrected, sol, current);
    SearchUnfold(inst, corrected, next, makespan);
    ConcatEmpty([Improvement(mv, a, b, makespan)]);
  }

  /** The search from `initial` so far has accepted `trace` and stands at
      `sol` with makespan `makespan`: the whole run is this prefix followed
      by the run from here. */
  predicate OnRun(inst: Instance, corrected: bool, initial: Solution,
                  sol: Solution, makespan: nat, trace: seq<Improvement>)
    requires Ready(inst, initial) && Ready(inst, sol)
  {
    var rest := Search(inst, corrected, sol, makespan);
    Search(inst, corrected, initial, Makespan(inst, initial)) == Run(rest.sol, rest.makespan, trace + rest.trace)
  }

  /** The search starts on its run, with nothing accepted yet. */
  lemma OnRunStart(inst: Instance, corrected: bool, initial: Solution)
    requires Ready(inst, initial)
    ensures OnRun(inst, corrected, initial, initial, Makespan(inst, initial), [])
  {
    ConcatEmpty(Search(inst, corrected, initial, Makespan(inst, initial)).trace);
  }

  /** Committing an accepted round keeps the state on the run. */
  lemma OnRunStep(inst: Instance, corrected: bool, initial: Solution,
                  sol: Solution, makespan: nat, trace: seq<Improvement>)
    requires Ready(inst, initial) && Ready(inst, sol)
    requires OnRun(inst, corrected, initial, sol, makespan, trace)
    requires Round(inst, corrected, sol, makespan).Improved?
    ensures
      var o := Round(inst, corrected, sol, makespan);
      OnRun(inst, corrected, initial, o.next, o.makespan,
            trace + [Improvement(o.move, o.mMax, o.mMin, o.makespan)])
  {
    var o := Round(inst, corrected, sol, makespan);
    var entry := Improvement(o.move, o.mMax, o.mMin, o.makespan);
    var here := Search(inst, corrected, sol, makespan);
    var rest := Search(inst, corrected, o.next, o.makespan);
    SearchUnfold(inst, corrected, sol, makespan);
    assert here.trace == [entry] + rest.trace;
    ConcatAssociative(trace, [entry], rest.trace);
  }

  /** A state where the round finds nothing is the end of the run. */
  lemma OnRunStop(inst: Instance, corrected: bool, initial: Solution,
                  sol: Solution, makespan: nat, trace: seq<Improvement>)
    requires Ready(inst, initial) && Ready(inst, sol)
    requires OnRun(inst, corrected, initial, sol, makespan, trace)
    requires Round(inst, corrected, sol, makespan).LocalOptimum?
    ensures Search(inst, corrected, initial, Makespan(inst, initial)) == Run(sol, makespan, trace)
  {
    SearchUnfold(inst, corrected, sol, makespan);
    ConcatEmpty(trace);
  }

  lemma NonDegenerateTail(entry: Improvement, trace: seq<Improvement>)
    requires NonDegenerate([entry] + trace)
    ensures entry.mMax != entry.mMin && NonDegenerate(trace)
  {
    var whole := [entry] + trace;
    assert whole[0] == entry;
    assert forall k | 0 <= k < |trace| :: trace[k] == whole[k + 1];
  }

  /** A run from a solution whose makespan is `current` keeps its jobs and
      reports the true makespan of its result when it is corrected, or when
      no accepted round had m_max == m_min. */
  lemma {:induction false} SearchKeepsJobs(inst: Instance, corrected: bool, sol: Solution, current: nat)
    requires Ready(inst, sol) && current == Makespan(inst, sol)
    ensures
      var r := Search(inst, corrected, sol, current);
      corrected || NonDegenerate(r.trace) ==>
        Jobs(r.sol) == Jobs(sol) && Ready(inst, r.sol) && r.makespan == Makespan(inst, r.sol)
    decreases current
  {
    var o := Round(inst, corrected, sol, current);
    SearchUnfold(inst, corrected, sol, current);
    if o.Improved? {
      var r := Search(inst, corrected, sol, current);
      var rest := Search(inst, corrected, o.next, o.makespan);
      var entry := Improvement(o.move, o.mMax, o.mMin, o.makespan);
      assert r.trace == [entry] + rest.trace;
      if corrected {
        CorrectedStepSound(inst, sol, current);
        SearchKeepsJobs(inst, corrected, o.next, o.makespan);
      } else if NonDegenerate(r.trace) {
        NonDegenerateTail(entry, rest.trace);
        StepSound(inst, sol, current);
        SearchKeepsJobs(inst, corrected, o.next, o.makespan);
      }
    }
  }

  /** `local_search`: returns the final solution, its reported makespan, the
      number of rounds run (the last one finds no improvement) and the trace
      of accepted rounds. */
  method LocalSearch(inst: Instance, initial: Solution)
    returns (sol: Solution, makespan: nat, iterations: nat, trace: seq<Improvement>)
    requires Ready(inst, initial)
    ensures Ready(inst, sol)
    ensures iterations == |trace| + 1
    ensures makespan <= Makespan(inst, initial)
    ensures StrictlyDescending(Makespan(inst, initial), trace)
    ensures makespan == Latest(Makespan(inst, initial), trace)
    ensures Step(inst, sol, makespan).LocalOptimum?
    ensures NonDegenerate(trace) ==> Jobs(sol) == Jobs(initial) && makespan == Makespan(inst, sol)
    ensures Run(sol, makespan, trace) == Search(inst, false, initial, Makespan(inst, initial))
  {
    var start := Makespan(inst, initial);
    sol := initial;
    makespan := start;
    iterations := 0;
    trace := [];
    OnRunStart(inst, false, initial);
    while true
      invariant Ready(inst, sol)
      invariant OnRun(inst, false, initial, sol, makespan, trace)
      invariant iterations == |trace|
      decreases makespan
    {
      iterations := iterations + 1;
      var o := Round(inst, false, sol, makespan);
      if o.LocalOptimum? {
        OnRunStop(inst, false, initial, sol, makespan, trace);
        break;
      }
      OnRunStep(inst, false, initial, sol, makespan, trace);
      trace := trace + [Improvement(o.move, o.mMax, o.mMin, o.makespan)];
      sol := o.next;
      makespan := o.makespan;
    }
    SearchProperties(inst, false, initial, start);
    SearchKeepsJobs(inst, false, initial, start);
  }

  /** The moves a round should offer: every available move when m_max and
      m_min differ; when they are the same machine, only the swaps within
      it, since a transfer or an inter-machine swap of a machine with itself
      loses or duplicates a job. */
  predicate Allowed(inst: Instance, sol: Solution, mv: Move)
    requires Ready(inst, sol)
  {
    Available(inst, sol, mv) && (MMax(inst, sol) != MMin(inst, sol) || mv.IntraSwap?)
  }

  /** The allowed moves in scan order. */
  function AllowedMoves(inst: Instance, sol: Solution): (moves: seq<Move>)
    requires Ready(inst, sol)
    ensures forall mv :: mv in moves <==> Allowed(inst, sol, mv)
    ensures Increasing(moves)
  {
    var a := MMax(inst, sol);
    if a != MMin(inst, sol) then RoundMoves(inst, sol)
    else if |sol[a]| >= 2 then IntraSwapRows(0, |sol[a]|)
    else []
  }

  /** A round of the search with the allowed moves only. */
  function CorrectedStep(inst: Instance, sol: Solution, current: nat): (o: Outcome)
    requires Ready(inst, sol)
    ensures o.Improved? ==>
      && o.mMax == MMax(inst, sol) && o.mMin == MMin(inst, sol)
      && Allowed(inst, sol, o.move)
      && o.next == Apply(sol, o.mMax, o.mMin, o.move)
      && o.makespan == Candidate(inst, sol, o.move)
      && o.makespan < current
  {
    Pick(inst, sol, AllowedMoves(inst, sol), current)
  }

  /** A corrected round stops exactly when no allowed move's estimate beats
      `current`. */
  lemma CorrectedStepStopsIffNoImprovement(inst: Instance, sol: Solution, current: nat)
    requires Ready(inst, sol)
    ensures CorrectedStep(inst, sol, current).LocalOptimum? <==>
      forall mv | Allowed(inst, sol, mv) :: current <= Candidate(inst, sol, mv)
  {
    PickStopsIffNoImprovement(inst, sol, AllowedMoves(inst, sol), current);
  }

  /** On one machine, a swap within it is estimated by the machine's new
      time, which is the neighbour's makespan. */
  lemma SelfSwapIsMakespan(inst: Instance, sol: Solution, mv: Move)
    requires Ready(inst, sol) && inst.nMachines == 1 && Allowed(inst, sol, mv) && mv.IntraSwap?
    ensures Ready(inst, Apply(sol, 0, 0, mv))
    ensures Candidate(inst, sol, mv) == Makespan(inst, Apply(sol, 0, 0, mv))
  {
    ApplyValid(inst, sol, 0, 0, mv);
    NewSequencesValid(inst, sol, 0, 0, mv);
    var next := Apply(sol, 0, 0, mv);
    assert next[0] == NewMax(sol, 0, 0, mv);
    assert Times(inst, next) == [SeqTime(inst, next[0])];
  }

  /** With two or more machines all equally loaded (m_max == m_min), a swap
      within m_max is estimated at no less than the current makespan, since
      the estimate keeps m_min's unchanged time. */
  lemma SelfSwapNoGain(inst: Instance, sol: Solution, mv: Move)
    requires Ready(inst, sol) && inst.nMachines >= 2 && MMax(inst, sol) == MMin(inst, sol)
    requires Allowed(inst, sol, mv)
    ensures Candidate(inst, sol, mv) >= Makespan(inst, sol)
  {
    var ts := Times(inst, sol);
    var a := MMax(inst, sol);
    MaxOfUnique(ts, ts[a]);
  }

  /** On a solution whose makespan is `current`, an accepted corrected round
      keeps every job and reports the neighbour's true makespan, whether or
      not m_max and m_min coincide. */
  lemma CorrectedStepSound(inst: Instance, sol: Solution, current: nat)
    requires Ready(inst, sol) && current == Makespan(inst, sol)
    ensures
      var o := CorrectedStep(inst, sol, current);
      o.Improved? ==> Ready(inst, o.next) && Jobs(o.next) == Jobs(sol) && o.makespan == Makespan(inst, o.next)
  {
    var o := CorrectedStep(inst, sol, current);
    if o.Improved? {
      var a, b := o.mMax, o.mMin;
      if a != b {
        ApplyValid(inst, sol, a, b, o.move);
        ApplyPreservesJobs(sol, a, b, o.move);
        EstimateIsMakespan(inst, sol, a, b, o.move);
      } else if inst.nMachines == 1 {
        ApplyPreservesJobs(sol, a, b, o.move);
        SelfSwapIsMakespan(inst, sol, o.move);
      } else {
        SelfSwapNoGain(inst, sol, o.move);
      }
    }
  }

  /** The search with the allowed moves only: every run keeps exactly the
      initial jobs and reports the true makespan of what it returns. */
  method CorrectedLocalSearch(inst: Instance, initial: Solution)
    returns (sol: Solution, makespan: nat, iterations: nat, trace: seq<Improvement>)
    requires Ready(inst, initial)
    ensures Ready(inst, sol)
    ensures iterations == |trace| + 1
    ensures makespan <= Makespan(inst, initial)
    ensures StrictlyDescending(Makespan(inst, initial), trace)
    ensures Jobs(sol) == Jobs(initial) && makespan == Makespan(inst, sol)
    ensures CorrectedStep(inst, sol, makespan).LocalOptimum?
    ensures Run(sol, makespan, trace) == Search(inst, true, initial, Makespan(inst, initial))
  {
    var start := Makespan(inst, initial);
    sol := initial;
    makespan := start;
    iterations := 0;
    trace := [];
    OnRunStart(inst, true, initial);
    while true
      invariant Ready(inst, sol)
      invariant OnRun(inst, true, initial, sol, makespan, trace)
      invariant iterations == |trace|
      decreases makespan
    {
      iterations := iterations + 1;
      var o := Round(inst, true, sol, makespan);
      if o.LocalOptimum? {
        OnRunStop(inst, true, initial, sol, makespan, trace);
        break;
      }
      OnRunStep(inst, true, initial, sol, makespan, trace);
      trace := trace + [Improvement(o.move, o.mMax, o.mMin, o.makespan)];
      sol := o.next;
      makespan := o.makespan;
    }
    SearchProperties(inst, true, initial, start);
    SearchKeepsJobs(inst, true, initial, start);
  }
}
