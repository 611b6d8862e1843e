/** Simulated annealing that collects distinct solutions
    (Nqueens_SA_all_solutions.py).

    As in AnnealOne, the shuffle and the draws of each round are inputs and the
    cooling schedule is the number of rounds |moves|. The set of solutions found in
    earlier attempts is passed in; a neighbour in that set gets infinite energy and
    is never accepted. */
module AnnealAll {
  import opened NQueens
  import opened QueenEnergy
  import opened Annealing

  /** The random input of one attempt: the initial shuffle and the draws of its
      rounds. */
  datatype Run = Run(shuffled: seq<int>, moves: seq<Move>)

  predicate ValidRun(n: nat, run: Run)
  {
    IsPermutation(n, run.shuffled) && (n >= 2 ==> ValidMoves(n, run.moves))
  }

  predicate ValidRuns(n: nat, runs: seq<Run>)
  {
    forall k :: 0 <= k < |runs| ==> ValidRun(n, runs[k])
  }

  /** The solutions collected by the first k attempts: an attempt keeps its final
      state when that state has energy 0. */
  function Harvest(n: nat, runs: seq<Run>, k: int): set<seq<int>>
    requires 0 <= k <= |runs| && ValidRuns(n, runs)
    decreases k, 0
  {
    if k == 0 then {}
    else if Energy(Outcome(n, runs, k - 1)) == 0 then Harvest(n, runs, k - 1) + {Outcome(n, runs, k - 1)}
    else Harvest(n, runs, k - 1)
  }

  /** The final state of attempt i, which anneals with the solutions of the attempts
      before it as its visited set. */
  function Outcome(n: nat, runs: seq<Run>, i: int): seq<int>
    requires 0 <= i < |runs| && ValidRuns(n, runs)
    decreases i, 1
  {
    Anneal(runs[i].shuffled, runs[i].moves, Harvest(n, runs, i))
  }

  /** Attempts only add solutions. */
  lemma {:induction false} HarvestGrows(n: nat, runs: seq<Run>, i: int, k: int)
    requires 0 <= i <= k <= |runs| && ValidRuns(n, runs)
    ensures Harvest(n, runs, i) <= Harvest(n, runs, k)
    decreases k
  {
    if i < k {
      HarvestGrows(n, runs, i, k - 1);
    }
  }

  /** After k attempts only solutions are collected, at most one per attempt. */
  lemma {:induction false} HarvestSound(n: nat, runs: seq<Run>, k: int)
    requires 0 <= k <= |runs| && ValidRuns(n, runs)
    ensures forall s :: s in Harvest(n, runs, k) ==> IsSolution(n, s)
    ensures |Harvest(n, runs, k)| <= k
    decreases k
  {
    if k > 0 {
      HarvestSound(n, runs, k - 1);
      var run := runs[k - 1];
      AnnealInvariants(n, run.shuffled, run.moves, Harvest(n, runs, k - 1));
      ZeroEnergyIffSolution(n, Outcome(n, runs, k - 1));
    }
  }

  /** Every attempt among the first k that ends at energy 0 has its final state
      collected, whether it was new or found before. */
  lemma HarvestKeepsSolved(n: nat, runs: seq<Run>, k: int)
    requires 0 <= k <= |runs| && ValidRuns(n, runs)
    ensures forall i :: 0 <= i < k && Energy(Outcome(n, runs, i)) == 0 ==> Outcome(n, runs, i) in Harvest(n, runs, k)
  {
    forall i | 0 <= i < k && Energy(Outcome(n, runs, i)) == 0
      ensures Outcome(n, runs, i) in Harvest(n, runs, k)
    {
      HarvestGrows(n, runs, i + 1, k);
    }
  }

  /** In particular an attempt whose shuffle is already a solution contributes it. */
  lemma HarvestKeepsSolvedStarts(n: nat, runs: seq<Run>, k: int)
    requires 0 <= k <= |runs| && ValidRuns(n, runs)
    ensures forall i :: 0 <= i < k && IsSolution(n, runs[i].shuffled) ==> runs[i].shuffled in Harvest(n, runs, k)
  {
    HarvestKeepsSolved(n, runs, k);
    forall i | 0 <= i < k && IsSolution(n, runs[i].shuffled)
      ensures runs[i].shuffled in Harvest(n, runs, k)
    {
      assert Energy(Outcome(n, runs, i)) == 0 ==> Outcome(n, runs, i) in Harvest(n, runs, k);
      ZeroEnergyIffSolution(n, runs[i].shuffled);
      AnnealInvariants(n, runs[i].shuffled, runs[i].moves, Harvest(n, runs, i));
    }
  }

  /** Anneals from `shuffled`, never moving onto a state in `visited`, until the
      energy reaches zero or the rounds run out. Only the initial state itself may
      be a visited one: it is not checked. */
  method SimulatedAnnealing(n: nat, shuffled: seq<int>, moves: seq<Move>, visited: set<seq<int>>)
    returns (state: seq<int>, energy: nat)
    requires IsPermutation(n, shuffled)
    requires n >= 2 ==> ValidMoves(n, moves)
    ensures state == Anneal(shuffled, moves, visited) && energy == Energy(state)
    ensures IsPermutation(n, state)
    ensures energy == 0 <==> IsSolution(n, state)
    ensures Energy(shuffled) == 0 ==> state == shuffled
    ensures state == shuffled || state !in visited
    ensures NoLuck(moves) ==> energy <= Energy(shuffled)
  {
    state := shuffled;
    energy := ComputeEnergy(state);
    var k := 0;
    while k < |moves| && energy > 0
      invariant 0 <= k <= |moves|
      invariant IsPermutation(n, state) && energy == Energy(state)
      invariant Anneal(state, moves[k..], visited) == Anneal(shuffled, moves, visited)
    {
      var move := moves[k];
      EnergyPositiveNeedsTwo(state);
      var neighbour := Neighbour(state, move.i, move.j);
      SwapKeepsPermutation(n, state, move.i, move.j);
      // A visited neighbour has infinite energy: delta is infinite, exp(-delta / T)
      // is 0 and random() < 0 never holds, so the move is rejected.
      if neighbour !in visited {
        var newEnergy := ComputeEnergy(neighbour);
        var delta := newEnergy - energy;
        // The draw random() < exp(-delta / T): exp(0) is 1, above every draw.
        var drawBelow := delta == 0 || move.lucky;
        if delta < 0 || drawBelow {
          state, energy := neighbour, newEnergy;
        }
      }
      assert moves[k..][1..] == moves[k + 1..];
      k := k + 1;
    }
    AnnealInvariants(n, shuffled, moves, visited);
    ZeroEnergyIffSolution(n, state);
  }

  /** Runs maxAttempts annealing attempts (attempt t uses runs[t - 1]) and returns
      the distinct solutions they found, in no particular order. */
  method FindUniqueSolutions(n: nat, maxAttempts: int, runs: seq<Run>) returns (result: seq<seq<int>>)
    requires maxAttempts <= |runs|
    requires ValidRuns(n, runs)
    ensures forall s :: s in result <==> s in Harvest(n, runs, if maxAttempts < 0 then 0 else maxAttempts)
    ensures forall k :: 0 <= k < |result| ==> IsSolution(n, result[k])
    ensures Distinct(result)
    ensures |result| <= (if maxAttempts < 0 then 0 else maxAttempts)
    ensures |result| <= |Solutions(n)|
    ensures forall k :: 0 <= k < maxAttempts && IsSolution(n, runs[k].shuffled) ==> runs[k].shuffled in result
  {
    var attempts := if maxAttempts < 0 then 0 else maxAttempts;
    var solutions := CollectSolutions(n, maxAttempts, runs);
    HarvestSound(n, runs, attempts);
    HarvestKeepsSolvedStarts(n, runs, attempts);
    result := ListSolutions(solutions);
    DistinctSolutionsBound(n, result);
  }

  /** The attempt loop: the solutions and visited sets grow together. */
  method CollectSolutions(n: nat, maxAttempts: int, runs: seq<Run>) returns (solutions: set<seq<int>>)
    requires maxAttempts <= |runs|
    requires ValidRuns(n, runs)
    ensures solutions == Harvest(n, runs, if maxAttempts < 0 then 0 else maxAttempts)
  {
    solutions := {};
    var visited: set<seq<int>> := {};
    var attempt := 1;
    while attempt <= maxAttempts
      invariant 1 <= attempt <= (if maxAttempts < 0 then 0 else maxAttempts) + 1
      invariant visited == solutions == Harvest(n, runs, attempt - 1)
    {
      var run := runs[attempt - 1];
      var solution, energy := SimulatedAnnealing(n, run.shuffled, run.moves, visited);
      if energy == 0 {
        if solution !in solutions {
          solutions := solutions + {solution};
          visited := visited + {solution};
        }
      }
      attempt := attempt + 1;
    }
  }

  /** The set of solutions turned into a list, in an unspecified order. */
  method ListSolutions(solutions: set<seq<int>>) returns (result: seq<seq<int>>)
    ensures forall s :: s in result <==> s in solutions
    ensures Distinct(result) && |result| == |solutions|
  {
    result := [];
    var rest := solutions;
    while rest != {}
      invariant rest <= solutions
      invariant forall k :: 0 <= k < |result| ==> result[k] in solutions && result[k] !in rest
      invariant forall s :: s in solutions ==> s in rest || s in result
      invariant Distinct(result)
      invariant |result| + |rest| == |solutions|
      decreases |rest|
    {
      var s :| s in rest;
      result := result + [s];
      rest := rest - {s};
    }
  }
}
