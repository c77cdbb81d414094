/** Small worked instances. Every release date is zero, and every setup is
    zero except the one from job 1 to job 2 in `EqualLoads`. */
module Scenarios {
  import opened Wrappers
  import opened Instances
  import opened Extremes
  import opened Evaluator
  import opened Construction
  import opened Neighbourhoods
  import opened LocalSearchEngine

  /** Three jobs of length 10, 4 and 6 on two machines. */
  function ThreeJobs(): Instance {
    Instance(2, [10, 4, 6], [0, 0, 0], [[0, 0, 0], [0, 0, 0], [0, 0, 0]])
  }

  /** The construction order is 1, 3, 2: longest first. */
  lemma ThreeJobsOrder()
    ensures SortByProcessing(ThreeJobs(), 3) == [1, 3, 2]
  {
    var inst := ThreeJobs();
    assert SortByProcessing(inst, 1) == [1];
    assert SortByProcessing(inst, 2) == [1, 2];
    assert Insert(inst, [2], 3) == [3, 2];
  }

  lemma ThreeJobsSingles()
    ensures SeqTime(ThreeJobs(), [1]) == 10
    ensures SeqTime(ThreeJobs(), [3]) == 6
  {
  }

  lemma ThreeJobsPairs()
    ensures SeqTime(ThreeJobs(), [1, 3]) == 16
    ensures SeqTime(ThreeJobs(), [1, 2]) == 14
    ensures SeqTime(ThreeJobs(), [3, 2]) == 10
  {
    assert [1, 3][..1] == [1] && [1, 2][..1] == [1] && [3, 2][..1] == [3];
  }

  /** Job 1 opens machine 1: both machines would finish at 10, and ties go
      to the lower id. */
  lemma ThreeJobsFirstPlacement()
    ensures ThreeJobs().ValidSolution([[], []])
    ensures Place(ThreeJobs(), [[], []], 1) == [[1], []]
  {
    ThreeJobsSingles();
    var m: Solution := [[], []];
    assert m[0] + [1] == [1] && m[1] + [1] == [1];
    assert ChooseMachine(ThreeJobs(), m, 1) == 0;
  }

  /** Job 3 goes to the idle machine 2 (6 < 16). */
  lemma ThreeJobsSecondChoice()
    ensures ThreeJobs().ValidSolution([[1], []])
    ensures ChooseMachine(ThreeJobs(), [[1], []], 3) == 1
  {
    ThreeJobsSingles();
    ThreeJobsPairs();
    var m: Solution := [[1], []];
    assert m[0] + [3] == [1, 3] && m[1] + [3] == [3];
  }

  lemma ThreeJobsSecondPlacement()
    ensures ThreeJobs().ValidSolution([[1], []])
    ensures Place(ThreeJobs(), [[1], []], 3) == [[1], [3]]
  {
    ThreeJobsSecondChoice();
    var m: Solution := [[1], []];
    assert m[1] + [3] == [3];
  }

  /** Job 2 follows job 3 on machine 2 (10 < 14). */
  lemma ThreeJobsThirdChoice()
    ensures ThreeJobs().ValidSolution([[1], [3]])
    ensures ChooseMachine(ThreeJobs(), [[1], [3]], 2) == 1
  {
    ThreeJobsPairs();
    var m: Solution := [[1], [3]];
    assert m[0] + [2] == [1, 2] && m[1] + [2] == [3, 2];
  }

  lemma ThreeJobsThirdPlacement()
    ensures ThreeJobs().ValidSolution([[1], [3]])
    ensures Place(ThreeJobs(), [[1], [3]], 2) == [[1], [3, 2]]
  {
    ThreeJobsThirdChoice();
    var m: Solution := [[1], [3]];
    assert m[1] + [2] == [3, 2];
  }

  /** The construction places the first job of the order, then the rest. */
  lemma AssignAllCons(inst: Instance, machines: Solution, order: seq<nat>)
    requires inst.Valid() && inst.ValidSolution(machines) && inst.ValidSeq(order)
    requires |machines| > 0 && |order| > 0
    ensures inst.ValidSolution(Place(inst, machines, order[0]))
    ensures AssignAll(inst, machines, order) == AssignAll(inst, Place(inst, machines, order[0]), order[1..])
  {
  }

  lemma AssignAllNil(inst: Instance, machines: Solution)
    requires inst.Valid() && inst.ValidSolution(machines) && |machines| > 0
    ensures AssignAll(inst, machines, []) == machines
  {
  }

  lemma ThreeJobsAssignFirst()
    ensures ThreeJobs().ValidSolution([[], []]) && ThreeJobs().ValidSolution([[1], []])
    ensures AssignAll(ThreeJobs(), [[], []], [1, 3, 2]) == AssignAll(ThreeJobs(), [[1], []], [3, 2])
  {
    ThreeJobsFirstPlacement();
    var order: seq<nat> := [1, 3, 2];
    assert order[1..] == [3, 2];
    AssignAllCons(ThreeJobs(), [[], []], order);
  }

  lemma ThreeJobsAssignSecond()
    ensures ThreeJobs().ValidSolution([[1], []]) && ThreeJobs().ValidSolution([[1], [3]])
    ensures AssignAll(ThreeJobs(), [[1], []], [3, 2]) == AssignAll(ThreeJobs(), [[1], [3]], [2])
  {
    ThreeJobsSecondPlacement();
    var order: seq<nat> := [3, 2];
    assert order[1..] == [2];
    AssignAllCons(ThreeJobs(), [[1], []], order);
  }

  lemma ThreeJobsAssignThird()
    ensures ThreeJobs().ValidSolution([[1], [3]])
    ensures AssignAll(ThreeJobs(), [[1], [3]], [2]) == [[1], [3, 2]]
  {
    ThreeJobsThirdPlacement();
    var order: seq<nat> := [2];
    assert order[1..] == [];
    AssignAllCons(ThreeJobs(), [[1], [3]], order);
    AssignAllNil(ThreeJobs(), [[1], [3, 2]]);
  }

  lemma ThreeJobsAssignment()
    ensures ThreeJobs().ValidSolution([[], []])
    ensures AssignAll(ThreeJobs(), [[], []], [1, 3, 2]) == [[1], [3, 2]]
  {
    ThreeJobsAssignFirst();
    ThreeJobsAssignSecond();
    ThreeJobsAssignThird();
  }

  /** The construction puts job 1 alone on machine 1 and jobs 3, 2 on
      machine 2; both finish at 10. */
  lemma ThreeJobsConstruction()
    ensures Ffd(ThreeJobs()) == Success([[1], [3, 2]])
    ensures Makespan(ThreeJobs(), [[1], [3, 2]]) == 10
  {
    ThreeJobsOrder();
    ThreeJobsAssignment();
    ThreeJobsEmpty();
    ThreeJobsMakespan();
  }

  lemma ThreeJobsEmpty()
    ensures EmptySolution(2) == [[], []]
  {
    assert EmptySolution(2)[0] == [] && EmptySolution(2)[1] == [];
  }

  lemma ThreeJobsMakespan()
    ensures ThreeJobs().ValidSolution([[1], [3, 2]])
    ensures Makespan(ThreeJobs(), [[1], [3, 2]]) == 10
  {
    var inst := ThreeJobs();
    var first: seq<nat> := [1];
    var second: seq<nat> := [3, 2];
    var m3: Solution := [first, second];
    assert inst.ValidSeq(first) && inst.ValidSeq(second);
    ThreeJobsSingles();
    ThreeJobsPairs();
    var ts := Times(inst, m3);
    assert ts[0] == 10 && ts[1] == 10;
    MaxOfUnique(ts, 10);
  }

  /** Two jobs of length 10 and 4 on a single machine. */
  function OneMachine(): Instance {
    Instance(1, [10, 4], [0, 0], [[0, 0], [0, 0]])
  }

  lemma OneMachineTimes()
    ensures SeqTime(OneMachine(), [1]) == 10
    ensures SeqTime(OneMachine(), [2]) == 4
    ensures SeqTime(OneMachine(), [1, 2]) == 14
    ensures Times(OneMachine(), [[1, 2]]) == [14]
  {
    assert [1, 2][..1] == [1];
  }

  lemma OneMachinePlacements()
    ensures OneMachine().ValidSolution([[]]) && OneMachine().ValidSolution([[1]])
    ensures Place(OneMachine(), [[]], 1) == [[1]]
    ensures Place(OneMachine(), [[1]], 2) == [[1, 2]]
  {
    var m0: Solution := [[]];
    var m1: Solution := [[1]];
    assert m0[0] + [1] == [1] && m1[0] + [2] == [1, 2];
    assert ChooseMachine(OneMachine(), m0, 1) == 0;
    assert ChooseMachine(OneMachine(), m1, 2) == 0;
  }

  lemma OneMachineAssignment()
    ensures AssignAll(OneMachine(), [[]], [1, 2]) == [[1, 2]]
  {
    var inst := OneMachine();
    var m0: Solution := [[]];
    var m1: Solution := [[1]];
    var m2: Solution := [[1, 2]];
    OneMachinePlacements();
    var order: seq<nat> := [1, 2];
    var last: seq<nat> := [2];
    assert order[1..] == last && last[1..] == [];
    AssignAllCons(inst, m0, order);
    AssignAllCons(inst, m1, last);
    AssignAllNil(inst, m2);
  }

  /** The construction runs both jobs on the one machine, longest first. */
  lemma OneMachineConstruction()
    ensures Ffd(OneMachine()) == Success([[1, 2]])
    ensures Makespan(OneMachine(), [[1, 2]]) == 14
  {
    var inst := OneMachine();
    assert SortByProcessing(inst, 1) == [1];
    assert SortByProcessing(inst, 2) == [1, 2];
    var m0: Solution := [[]];
    assert EmptySolution(1) == m0;
    OneMachineAssignment();
    OneMachineTimes();
  }

  /** The single machine is both m_max and m_min. */
  lemma OneMachineAnchors(sol: Solution)
    requires |sol| == 1 && OneMachine().ValidSolution(sol)
    ensures Ready(OneMachine(), sol)
    ensures MMax(OneMachine(), sol) == 0 && MMin(OneMachine(), sol) == 0
  {
  }

  /** Moving job 1 to the end is estimated by the shortened sequence alone. */
  lemma OneMachineMoveFirstJob()
    ensures Ready(OneMachine(), [[1, 2]])
    ensures Available(OneMachine(), [[1, 2]], Transfer(0))
    ensures Candidate(OneMachine(), [[1, 2]], Transfer(0)) == 4
  {
    var inst := OneMachine();
    var sol: Solution := [[1, 2]];
    OneMachineAnchors(sol);
    var shorter: seq<nat> := [2];
    assert NewMax(sol, 0, 0, Transfer(0)) == shorter;
    assert SeqTime(inst, shorter) == 4;
  }

  /** Moving job 2 instead leaves job 1 alone on the machine. */
  lemma OneMachineOtherTransfer(i: nat)
    requires Ready(OneMachine(), [[1, 2]])
    requires Available(OneMachine(), [[1, 2]], Transfer(i)) && i != 0
    ensures Candidate(OneMachine(), [[1, 2]], Transfer(i)) >= 10
  {
    var inst := OneMachine();
    var sol: Solution := [[1, 2]];
    OneMachineAnchors(sol);
    CandidateCoversRewritten(inst, sol, Transfer(i));
    var x := NewMax(sol, 0, 0, Transfer(i));
    assert x == [1];
    CompletionAfterEveryJob(inst, x, 0);
  }

  /** An inter-machine swap keeps job 1 in the first sequence unless it
      moves it into the second one. */
  lemma OneMachineInterSwap(i: nat, j: nat)
    requires Ready(OneMachine(), [[1, 2]])
    requires Available(OneMachine(), [[1, 2]], InterSwap(i, j))
    ensures Candidate(OneMachine(), [[1, 2]], InterSwap(i, j)) >= 10
  {
    var inst := OneMachine();
    var sol: Solution := [[1, 2]];
    var mv := InterSwap(i, j);
    OneMachineAnchors(sol);
    CandidateCoversRewritten(inst, sol, mv);
    if i == 1 || j == 0 {
      var x := NewMax(sol, 0, 0, mv);
      assert x[0] == 1;
      CompletionAfterEveryJob(inst, x, 0);
    } else {
      var y := NewMin(sol, 0, 0, mv);
      assert y[1] == 1;
      CompletionAfterEveryJob(inst, y, 1);
    }
  }

  /** The only intra-machine swap puts job 1 last. */
  lemma OneMachineIntraSwap(i: nat, j: nat)
    requires Ready(OneMachine(), [[1, 2]])
    requires Available(OneMachine(), [[1, 2]], IntraSwap(i, j))
    ensures Candidate(OneMachine(), [[1, 2]], IntraSwap(i, j)) >= 10
  {
    var inst := OneMachine();
    var sol: Solution := [[1, 2]];
    OneMachineAnchors(sol);
    CandidateCoversRewritten(inst, sol, IntraSwap(i, j));
    var x := NewMax(sol, 0, 0, IntraSwap(i, j));
    assert x[1] == 1;
    CompletionAfterEveryJob(inst, x, 1);
  }

  /** Every other move keeps job 1 in a sequence the estimate counts. */
  lemma OneMachineOtherMove(mv: Move)
    requires Ready(OneMachine(), [[1, 2]])
    requires Available(OneMachine(), [[1, 2]], mv) && mv != Transfer(0)
    ensures Candidate(OneMachine(), [[1, 2]], mv) >= 10
  {
    match mv
    case Transfer(i) => OneMachineOtherTransfer(i);
    case InterSwap(i, j) => OneMachineInterSwap(i, j);
    case IntraSwap(i, j) => OneMachineIntraSwap(i, j);
  }

  /** The first round commits the transfer of job 1 with estimate 4. */
  lemma OneMachineFirstChoice()
    ensures Ready(OneMachine(), [[1, 2]])
    ensures
      var o := Step(OneMachine(), [[1, 2]], 14);
      o.Improved? && o.move == Transfer(0) && o.makespan == 4 && o.mMax == 0 && o.mMin == 0
  {
    var inst := OneMachine();
    var sol: Solution := [[1, 2]];
    OneMachineAnchors(sol);
    OneMachineMoveFirstJob();
    StepStopsIffNoImprovement(inst, sol, 14);
    StepPicksBest(inst, sol, 14);
    var o := Step(inst, sol, 14);
    assert o.Improved?;
    if o.move != Transfer(0) {
      OneMachineOtherMove(o.move);
    }
  }

  /** On one machine, m_max and m_min are the same machine. The estimate of
      moving job 1 to the end is the time of the shortened sequence alone,
      4, and every other move is estimated at 10 or more. So the round
      commits it; the write for m_min overwrites the one for m_max, leaving
      job 1 on the machine twice, whose true completion time is 24. */
  lemma OneMachineFirstRound()
    ensures Ready(OneMachine(), [[1, 2]])
    ensures Step(OneMachine(), [[1, 2]], 14) == Improved([[1, 2, 1]], 4, Transfer(0), 0, 0)
    ensures Makespan(OneMachine(), [[1, 2, 1]]) == 24
  {
    OneMachineFirstChoice();
    OneMachineOverwrite();
    OneMachineRepeatedJob();
  }

  /** With m_max == m_min, the appended sequence is the one written last. */
  lemma OneMachineOverwrite()
    ensures Apply([[1, 2]], 0, 0, Transfer(0)) == [[1, 2, 1]]
  {
    var sol: Solution := [[1, 2]];
    var grown: seq<nat> := [1, 2, 1];
    assert NewMin(sol, 0, 0, Transfer(0)) == grown;
  }

  /** Job 1 twice and job 2 once on the one machine take 24. */
  lemma OneMachineRepeatedJob()
    ensures OneMachine().ValidSolution([[1, 2, 1]])
    ensures Makespan(OneMachine(), [[1, 2, 1]]) == 24
  {
    var inst := OneMachine();
    var grown: seq<nat> := [1, 2, 1];
    var next: Solution := [grown];
    assert grown[..2] == [1, 2] && [1, 2][..1] == [1];
    assert SeqTime(inst, grown) == 24;
    var ts := Times(inst, next);
    assert ts[0] == 24;
    MaxOfUnique(ts, 24);
  }

  /** After that round the search stops: every candidate keeps at least one
      job on the machine, and each job alone takes at least 4. */
  lemma OneMachineSecondRound()
    ensures Ready(OneMachine(), [[1, 2, 1]])
    ensures Step(OneMachine(), [[1, 2, 1]], 4).LocalOptimum?
  {
    var inst := OneMachine();
    var sol: Solution := [[1, 2, 1]];
    OneMachineAnchors(sol);
    forall mv | Available(inst, sol, mv) ensures 4 <= Candidate(inst, sol, mv) {
      CandidateCoversRewritten(inst, sol, mv);
      var x := NewMax(sol, 0, 0, mv);
      assert |x| >= 2;
      CompletionAfterEveryJob(inst, x, 0);
    }
    StepStopsIffNoImprovement(inst, sol, 4);
  }

  /** [[1, 2]] starts at makespan 14. */
  lemma OneMachineStart()
    ensures Ready(OneMachine(), [[1, 2]])
    ensures Makespan(OneMachine(), [[1, 2]]) == 14
  {
    OneMachineAnchors([[1, 2]]);
    OneMachineTimes();
    MaxOfUnique(Times(OneMachine(), [[1, 2]]), 14);
  }

  /** The search's first round is the round of the code. */
  lemma OneMachineRoundOne()
    ensures Ready(OneMachine(), [[1, 2]]) && Ready(OneMachine(), [[1, 2, 1]])
    ensures Round(OneMachine(), false, [[1, 2]], 14) == Improved([[1, 2, 1]], 4, Transfer(0), 0, 0)
  {
    OneMachineFirstRound();
    OneMachineAnchors([[1, 2, 1]]);
  }

  /** The search's second round finds nothing. */
  lemma OneMachineRoundTwo()
    ensures Ready(OneMachine(), [[1, 2, 1]])
    ensures Round(OneMachine(), false, [[1, 2, 1]], 4).LocalOptimum?
  {
    OneMachineSecondRound();
  }

  /** The whole run from [[1, 2]]: one accepted round, then a local optimum.
      So `LocalSearch` on [[1, 2]] returns [[1, 2, 1]] with a reported
      makespan of 4, after two iterations. */
  lemma OneMachineRun()
    ensures Ready(OneMachine(), [[1, 2]])
    ensures Makespan(OneMachine(), [[1, 2]]) == 14
    ensures Search(OneMachine(), false, [[1, 2]], Makespan(OneMachine(), [[1, 2]]))
      == Run([[1, 2, 1]], 4, [Improvement(Transfer(0), 0, 0, 4)])
  {
    OneMachineStart();
    OneMachineRoundOne();
    OneMachineRoundTwo();
    SearchOneRound(OneMachine(), false, [[1, 2]], 14, [[1, 2, 1]], 4, Transfer(0), 0, 0);
  }

  /** With the allowed moves only, the one-machine round offers just the
      swap of its two jobs, which takes 4 + 10 = 14: no improvement, so the
      corrected search keeps [1, 2] with its makespan of 14. */
  lemma OneMachineCorrectedStops()
    ensures Ready(OneMachine(), [[1, 2]])
    ensures CorrectedStep(OneMachine(), [[1, 2]], 14).LocalOptimum?
  {
    var inst := OneMachine();
    var sol: Solution := [[1, 2]];
    OneMachineAnchors(sol);
    var swapped: seq<nat> := [2, 1];
    assert swapped[..1] == [2];
    assert SeqTime(inst, swapped) == 14;
    forall mv | Allowed(inst, sol, mv) ensures 14 <= Candidate(inst, sol, mv) {
      CandidateCoversRewritten(inst, sol, mv);
      assert NewMax(sol, 0, 0, mv) == swapped;
    }
    CorrectedStepStopsIffNoImprovement(inst, sol, 14);
  }

  /** Jobs of length 1, 1 and 10 on two machines, a setup of 8 from job 1 to
      job 2 and every other setup zero. */
  function EqualLoads(): Instance {
    Instance(2, [1, 1, 10], [0, 0, 0], [[0, 8, 0], [0, 0, 0], [0, 0, 0]])
  }

  lemma EqualLoadsTimes()
    ensures SeqTime(EqualLoads(), [1, 2]) == 10
    ensures SeqTime(EqualLoads(), [3]) == 10
    ensures SeqTime(EqualLoads(), [2, 2]) == 2
    ensures SeqTime(EqualLoads(), [1, 1]) == 2
  {
    assert [1, 2][..1] == [1] && [2, 2][..1] == [2] && [1, 1][..1] == [1];
  }

  /** Both machines finish at 10, so machine 1 is both m_max and m_min. */
  lemma EqualLoadsAnchors()
    ensures Ready(EqualLoads(), [[1, 2], [3]])
    ensures Times(EqualLoads(), [[1, 2], [3]]) == [10, 10]
    ensures MMax(EqualLoads(), [[1, 2], [3]]) == 0 && MMin(EqualLoads(), [[1, 2], [3]]) == 0
    ensures Makespan(EqualLoads(), [[1, 2], [3]]) == 10
  {
    EqualLoadsTimes();
    var ts := Times(EqualLoads(), [[1, 2], [3]]);
    assert ts[0] == 10 && ts[1] == 10;
    MaxOfUnique(ts, 10);
  }

  /** A transfer appends a job to [1, 2] itself: at least 10. */
  lemma EqualLoadsTransfer(i: nat)
    requires Ready(EqualLoads(), [[1, 2], [3]])
    requires Available(EqualLoads(), [[1, 2], [3]], Transfer(i))
    ensures Candidate(EqualLoads(), [[1, 2], [3]], Transfer(i)) >= 10
  {
    var inst := EqualLoads();
    var sol: Solution := [[1, 2], [3]];
    EqualLoadsAnchors();
    EqualLoadsTimes();
    var x := sol[0][i];
    assert NewMin(sol, 0, 0, Transfer(i)) == [1, 2] + [x];
    AppendMonotone(inst, [1, 2], x);
  }

  /** Swapping a position with the same job leaves [1, 2] in place: 10. */
  lemma EqualLoadsIdleSwap(i: nat)
    requires Ready(EqualLoads(), [[1, 2], [3]])
    requires Available(EqualLoads(), [[1, 2], [3]], InterSwap(i, i))
    ensures Candidate(EqualLoads(), [[1, 2], [3]], InterSwap(i, i)) >= 10
  {
    var sol: Solution := [[1, 2], [3]];
    EqualLoadsAnchors();
    EqualLoadsTimes();
    CandidateCoversRewritten(EqualLoads(), sol, InterSwap(i, i));
    assert NewMax(sol, 0, 0, InterSwap(i, i)) == [1, 2];
  }

  /** The intra-machine swap is estimated against the unchanged time of
      m_min, which is the same machine: 10. */
  lemma EqualLoadsIntraSwap(i: nat, j: nat)
    requires Ready(EqualLoads(), [[1, 2], [3]])
    requires Available(EqualLoads(), [[1, 2], [3]], IntraSwap(i, j))
    ensures Candidate(EqualLoads(), [[1, 2], [3]], IntraSwap(i, j)) >= 10
  {
    EqualLoadsAnchors();
  }

  /** Swapping position 0 with position 1 writes [2, 2] for m_max and
      [1, 1] for m_min: each is estimated at 2. */
  lemma EqualLoadsCrossSwap()
    ensures Ready(EqualLoads(), [[1, 2], [3]])
    ensures Available(EqualLoads(), [[1, 2], [3]], InterSwap(0, 1))
    ensures Candidate(EqualLoads(), [[1, 2], [3]], InterSwap(0, 1)) == 2
    ensures Available(EqualLoads(), [[1, 2], [3]], InterSwap(1, 0))
    ensures Candidate(EqualLoads(), [[1, 2], [3]], InterSwap(1, 0)) == 2
  {
    var sol: Solution := [[1, 2], [3]];
    EqualLoadsAnchors();
    EqualLoadsTimes();
    assert NewMax(sol, 0, 0, InterSwap(0, 1)) == [2, 2];
    assert NewMin(sol, 0, 0, InterSwap(0, 1)) == [1, 1];
    assert NewMax(sol, 0, 0, InterSwap(1, 0)) == [1, 1];
    assert NewMin(sol, 0, 0, InterSwap(1, 0)) == [2, 2];
  }

  /** Every move other than the two cross swaps is estimated at 10 or more. */
  lemma EqualLoadsOtherMove(mv: Move)
    requires Ready(EqualLoads(), [[1, 2], [3]])
    requires Available(EqualLoads(), [[1, 2], [3]], mv)
    requires mv != InterSwap(0, 1) && mv != InterSwap(1, 0)
    ensures Candidate(EqualLoads(), [[1, 2], [3]], mv) >= 10
  {
    EqualLoadsAnchors();
    match mv
    case Transfer(i) => EqualLoadsTransfer(i);
    case InterSwap(i, j) => assert i == j; EqualLoadsIdleSwap(i);
    case IntraSwap(i, j) => EqualLoadsIntraSwap(i, j);
  }

  /** The round commits the swap of positions 0 and 1, estimated at 2: the
      other cross swap ties at 2 but is scanned later. */
  lemma EqualLoadsFirstChoice()
    ensures Ready(EqualLoads(), [[1, 2], [3]])
    ensures
      var o := Step(EqualLoads(), [[1, 2], [3]], 10);
      o.Improved? && o.move == InterSwap(0, 1) && o.makespan == 2 && o.mMax == 0 && o.mMin == 0
  {
    var inst := EqualLoads();
    var sol: Solution := [[1, 2], [3]];
    EqualLoadsAnchors();
    EqualLoadsCrossSwap();
    StepStopsIffNoImprovement(inst, sol, 10);
    StepPicksBest(inst, sol, 10);
    StepPicksFirst(inst, sol, 10);
    var o := Step(inst, sol, 10);
    assert o.Improved?;
    if o.move != InterSwap(0, 1) && o.move != InterSwap(1, 0) {
      EqualLoadsOtherMove(o.move);
    }
    assert Before(InterSwap(0, 1), InterSwap(1, 0));
  }

  /** With m_max == m_min, the write of [1, 1] for m_min replaces the write
      of [2, 2] for m_max. */
  lemma EqualLoadsOverwrite()
    ensures Apply([[1, 2], [3]], 0, 0, InterSwap(0, 1)) == [[1, 1], [3]]
  {
    var sol: Solution := [[1, 2], [3]];
    var written: seq<nat> := [1, 1];
    assert NewMin(sol, 0, 0, InterSwap(0, 1)) == written;
  }

  /** The jobs of a two-machine solution: both sequences together. */
  lemma JobsOfTwo(first: seq<nat>, second: seq<nat>)
    ensures Jobs([first, second]) == multiset(first) + multiset(second)
  {
    var sol: Solution := [first, second];
    assert sol[..1] == [first] && sol[..1][..0] == [];
    assert Jobs(sol[..1]) == multiset(first);
  }

  /** Job 2 is gone and job 1 is placed twice. */
  lemma EqualLoadsLostJob()
    ensures Jobs([[1, 1], [3]]) == multiset{1, 1, 3}
    ensures Jobs([[1, 1], [3]]) != Jobs([[1, 2], [3]])
  {
    JobsOfTwo([1, 1], [3]);
    JobsOfTwo([1, 2], [3]);
    assert multiset([1, 1]) == multiset{1, 1};
    assert multiset([1, 2])[2] == 1;
  }

  /** Machine 2 still takes 10, so the true makespan stays 10. */
  lemma EqualLoadsTrueMakespan()
    ensures EqualLoads().ValidSolution([[1, 1], [3]])
    ensures Makespan(EqualLoads(), [[1, 1], [3]]) == 10
  {
    var next: Solution := [[1, 1], [3]];
    EqualLoadsTimes();
    var ts := Times(EqualLoads(), next);
    assert ts[0] == 2 && ts[1] == 10;
    MaxOfUnique(ts, 10);
  }

  /** On two equally loaded machines, m_max and m_min are the same machine.
      The round commits the inter-machine swap of its two positions with
      estimate 2; the second write overwrites the first, so job 2 is lost,
      job 1 runs twice, and the true makespan stays 10. */
  lemma EqualLoadsFirstRound()
    ensures Ready(EqualLoads(), [[1, 2], [3]])
    ensures Step(EqualLoads(), [[1, 2], [3]], 10) == Improved([[1, 1], [3]], 2, InterSwap(0, 1), 0, 0)
    ensures Jobs([[1, 1], [3]]) != Jobs([[1, 2], [3]])
    ensures Makespan(EqualLoads(), [[1, 1], [3]]) == 10
  {
    EqualLoadsFirstChoice();
    EqualLoadsOverwrite();
    EqualLoadsLostJob();
    EqualLoadsTrueMakespan();
  }

  /** With the allowed moves only, the one swap inside machine 1 is
      estimated against machine 1's own time of 10: no improvement, so the
      corrected search keeps [[1, 2], [3]] at 10. */
  lemma EqualLoadsCorrectedStops()
    ensures Ready(EqualLoads(), [[1, 2], [3]])
    ensures CorrectedStep(EqualLoads(), [[1, 2], [3]], 10).LocalOptimum?
  {
    var inst := EqualLoads();
    var sol: Solution := [[1, 2], [3]];
    EqualLoadsAnchors();
    forall mv | Allowed(inst, sol, mv) ensures 10 <= Candidate(inst, sol, mv) {
      EqualLoadsIntraSwap(mv.i, mv.j);
    }
    CorrectedStepStopsIffNoImprovement(inst, sol, 10);
  }

  /** The corrected run from [[1, 2]] accepts nothing: `CorrectedLocalSearch`
      returns [[1, 2]] at 14 after one iteration. */
  lemma OneMachineCorrectedRun()
    ensures Ready(OneMachine(), [[1, 2]])
    ensures Search(OneMachine(), true, [[1, 2]], Makespan(OneMachine(), [[1, 2]])) == Run([[1, 2]], 14, [])
  {
    OneMachineStart();
    OneMachineCorrectedStops();
    assert Round(OneMachine(), true, [[1, 2]], 14).LocalOptimum?;
    SearchUnfold(OneMachine(), true, [[1, 2]], 14);
  }
}
