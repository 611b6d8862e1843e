/** What the two simulated-annealing programs share: the permutation states, the
    random choices each round makes, and the neighbour move that swaps two rows. */
module Annealing {
  import opened NQueens
  import opened QueenEnergy

  /** A state with one queen per row and per column: a permutation of [0, n). */
  predicate IsPermutation(n: nat, s: seq<int>)
  {
    |s| == n && InRange(n, s) && Distinct(s)
  }

  /** The random choices of one round of the annealing loop: the two distinct rows
      drawn by random.sample(range(N), 2), and whether the uniform draw random()
      falls below the Metropolis probability exp(-delta / T) of that round. */
  datatype Move = Move(i: int, j: int, lucky: bool)

  predicate ValidMoves(n: nat, moves: seq<Move>)
  {
    forall k :: 0 <= k < |moves| ==> 0 <= moves[k].i < n && 0 <= moves[k].j < n && moves[k].i != moves[k].j
  }

  /** No round draws a value below its acceptance probability: only moves that do
      not raise the energy are taken. */
  predicate NoLuck(moves: seq<Move>)
  {
    forall k :: 0 <= k < |moves| ==> !moves[k].lucky
  }

  /** s with the queens of rows i and j exchanged. */
  function Swapped(s: seq<int>, i: int, j: int): (t: seq<int>)
    requires 0 <= i < |s| && 0 <= j < |s|
    ensures |t| == |s| && t[i] == s[j] && t[j] == s[i]
    ensures forall k :: 0 <= k < |s| && k != i && k != j ==> t[k] == s[k]
  {
    s[i := s[j]][j := s[i]]
  }

  /** Swapping keeps the same columns, so a permutation stays a permutation. */
  lemma SwapKeepsPermutation(n: nat, s: seq<int>, i: int, j: int)
    requires IsPermutation(n, s) && 0 <= i < n && 0 <= j < n
    ensures IsPermutation(n, Swapped(s, i, j))
  {
    var t := Swapped(s, i, j);
    forall a, b | 0 <= a < b < n
      ensures t[a] != t[b]
    {
      var a' := if a == i then j else if a == j then i else a;
      var b' := if b == i then j else if b == j then i else b;
      assert t[a] == s[a'] && t[b] == s[b'] && a' != b';
    }
  }

  /** Swapping the same two rows again undoes the move. */
  lemma SwapTwice(s: seq<int>, i: int, j: int)
    requires 0 <= i < |s| && 0 <= j < |s|
    ensures Swapped(Swapped(s, i, j), i, j) == s
  {
    var t := Swapped(Swapped(s, i, j), i, j);
    assert forall k :: 0 <= k < |s| ==> t[k] == s[k];
  }

  /** The neighbour of a state: a copy of it with two rows exchanged. */
  method Neighbour(state: seq<int>, i: int, j: int) returns (neighbour: seq<int>)
    requires 0 <= i < |state| && 0 <= j < |state|
    ensures neighbour == Swapped(state, i, j)
  {
    var copy := new int[|state|](k requires 0 <= k < |state| => state[k]);
    copy[i], copy[j] := copy[j], copy[i];
    neighbour := copy[..];
  }

  /** One round of the annealing loop. The neighbour swaps the two drawn rows. A
      neighbour in `visited` has infinite energy and is rejected; otherwise it is
      taken when its energy is lower (delta < 0), equal (exp(0) is 1, above every
      draw of random()) or when the draw is lucky. */
  function Step(state: seq<int>, move: Move, visited: set<seq<int>>): (next: seq<int>)
    requires 0 <= move.i < |state| && 0 <= move.j < |state|
    ensures next == state || next == Swapped(state, move.i, move.j)
    ensures next != state ==> next !in visited
    ensures Swapped(state, move.i, move.j) !in visited && Energy(Swapped(state, move.i, move.j)) < Energy(state) ==>
      next == Swapped(state, move.i, move.j)
  {
    var neighbour := Swapped(state, move.i, move.j);
    if neighbour in visited then state
    else if Energy(neighbour) <= Energy(state) || move.lucky then neighbour
    else state
  }

  /** The state the annealing loop ends in: rounds run while rounds remain and the
      energy is positive. The one-solution program is the case of an empty
      `visited`. */
  function Anneal(state: seq<int>, moves: seq<Move>, visited: set<seq<int>>): (last: seq<int>)
    requires |state| >= 2 ==> ValidMoves(|state|, moves)
    ensures |last| == |state|
    decreases |moves|
  {
    if moves == [] || Energy(state) == 0 then state
    else
      EnergyPositiveNeedsTwo(state);
      Anneal(Step(state, moves[0], visited), moves[1..], visited)
  }

  /** What every run of the loop keeps, whatever the draws: the state stays a
      permutation; a solved start is returned as it is; the result is the start or a
      state outside `visited`; without lucky draws the energy never rises. */
  lemma {:induction false} AnnealInvariants(n: nat, state: seq<int>, moves: seq<Move>, visited: set<seq<int>>)
    requires IsPermutation(n, state) && (n >= 2 ==> ValidMoves(n, moves))
    ensures IsPermutation(n, Anneal(state, moves, visited))
    ensures Energy(state) == 0 ==> Anneal(state, moves, visited) == state
    ensures Anneal(state, moves, visited) == state || Anneal(state, moves, visited) !in visited
    ensures NoLuck(moves) ==> Energy(Anneal(state, moves, visited)) <= Energy(state)
    decreases |moves|
  {
    if moves != [] && Energy(state) != 0 {
      EnergyPositiveNeedsTwo(state);
      var move := moves[0];
      var next := Step(state, move, visited);
      SwapKeepsPermutation(n, state, move.i, move.j);
      assert ValidMoves(n, moves[1..]) by {
        forall k | 0 <= k < |moves[1..]|
          ensures 0 <= moves[1..][k].i < n && 0 <= moves[1..][k].j < n && moves[1..][k].i != moves[1..][k].j
        {
          assert moves[1..][k] == moves[k + 1];
        }
      }
      AnnealInvariants(n, next, moves[1..], visited);
      if NoLuck(moves) {
        assert !move.lucky;
        assert NoLuck(moves[1..]) by {
          forall k | 0 <= k < |moves[1..]|
            ensures !moves[1..][k].lucky
          {
            assert moves[1..][k] == moves[k + 1];
          }
        }
      }
    }
  }
}
