/** Simulated annealing for one solution (Nqueens_SA_one_solution.py).

    The random shuffle and the random draws of each round are inputs: `shuffled` is
    the permutation random.shuffle produced and `moves[k]` the choices of round k.
    The cooling schedule (start temperature, rate, minimum) only decides how many
    rounds may run; that number is |moves|. */
module AnnealOne {
  import opened NQueens
  import opened QueenEnergy
  import opened Annealing

  /** Anneals from `shuffled` until the energy reaches zero or the rounds run out,
      returning the last state and its energy. */
  method SimulatedAnnealing(n: nat, shuffled: seq<int>, moves: seq<Move>) returns (state: seq<int>, energy: nat)
    requires IsPermutation(n, shuffled)
    requires n >= 2 ==> ValidMoves(n, moves)
    ensures state == Anneal(shuffled, moves, {}) && energy == Energy(state)
    ensures IsPermutation(n, state)
    ensures energy == 0 <==> IsSolution(n, state)
    ensures Energy(shuffled) == 0 ==> state == shuffled
    ensures NoLuck(moves) ==> energy <= Energy(shuffled)
  {
    state := shuffled;
    energy := ComputeEnergy(state);
    var k := 0;
    while k < |moves| && energy > 0
      invariant 0 <= k <= |moves|
      invariant IsPermutation(n, state) && energy == Energy(state)
      invariant Anneal(state, moves[k..], {}) == Anneal(shuffled, moves, {})
    {
      var move := moves[k];
      EnergyPositiveNeedsTwo(state);
      var neighbour := Neighbour(state, move.i, move.j);
      SwapKeepsPermutation(n, state, move.i, move.j);
      var newEnergy := ComputeEnergy(neighbour);
      var delta := newEnergy - energy;
      if delta < 0 {
        state, energy := neighbour, newEnergy;
      } else {
        // The draw random() < exp(-delta / T): exp(0) is 1, above every draw.
        var drawBelow := delta == 0 || move.lucky;
        if drawBelow {
          state, energy := neighbour, newEnergy;
        }
      }
      assert moves[k..][1..] == moves[k + 1..];
      k := k + 1;
    }
    AnnealInvariants(n, shuffled, moves, {});
    ZeroEnergyIffSolution(n, state);
  }
}
