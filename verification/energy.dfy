/** The energy of an annealing state: the number of pairs of queens that share a
    diagonal (calcular_energia in both simulated-annealing programs).

    A state s puts the queen of row i in column s[i]. */
module QueenEnergy {
  import opened NQueens

  function Abs(x: int): nat
  {
    if x < 0 then -x else x
  }

  /** The queens of rows i and j stand on a common diagonal: as far apart in
      columns as in rows. */
  predicate Conflict(s: seq<int>, i: int, j: int)
    requires 0 <= i < |s| && 0 <= j < |s|
  {
    Abs(i - j) == Abs(s[i] - s[j])
  }

  /** The conflicts of row i with the rows j in [i + 1, hi). */
  function RowConflicts(s: seq<int>, i: int, hi: int): nat
    requires 0 <= i < |s| && hi <= |s|
    decreases hi
  {
    if hi <= i + 1 then 0
    else RowConflicts(s, i, hi - 1) + (if Conflict(s, i, hi - 1) then 1 else 0)
  }

  /** The conflicts of the rows below k with every later row. */
  function EnergyBelow(s: seq<int>, k: int): nat
    requires k <= |s|
    decreases k
  {
    if k <= 0 then 0 else EnergyBelow(s, k - 1) + RowConflicts(s, k - 1, |s|)
  }

  /** The number of pairs of rows i < j whose queens conflict. */
  function Energy(s: seq<int>): nat
  {
    EnergyBelow(s, |s|)
  }

  /** No two queens share a diagonal. */
  predicate DiagonalFree(s: seq<int>)
  {
    forall i, j :: 0 <= i < j < |s| ==> !Conflict(s, i, j)
  }

  /** Counts the diagonal conflicts pair by pair, rows i < j in increasing order. */
  method ComputeEnergy(s: seq<int>) returns (conflicts: nat)
    ensures conflicts == Energy(s)
  {
    conflicts := 0;
    var n := |s|;
    for i := 0 to n
      invariant conflicts == EnergyBelow(s, i)
    {
      for j := i + 1 to n
        invariant conflicts == EnergyBelow(s, i) + RowConflicts(s, i, j)
      {
        if Abs(i - j) == Abs(s[i] - s[j]) {
          conflicts := conflicts + 1;
        }
      }
    }
  }

  lemma {:induction false} RowConflictsZeroIff(s: seq<int>, i: int, hi: int)
    requires 0 <= i < |s| && hi <= |s|
    ensures RowConflicts(s, i, hi) == 0 <==> forall j :: i < j < hi ==> !Conflict(s, i, j)
    decreases hi
  {
    if hi > i + 1 {
      RowConflictsZeroIff(s, i, hi - 1);
    }
  }

  lemma {:induction false} EnergyBelowZeroIff(s: seq<int>, k: int)
    requires 0 <= k <= |s|
    ensures EnergyBelow(s, k) == 0 <==> forall i, j :: 0 <= i < k && i < j < |s| ==> !Conflict(s, i, j)
    decreases k
  {
    if k > 0 {
      EnergyBelowZeroIff(s, k - 1);
      RowConflictsZeroIff(s, k - 1, |s|);
    }
  }

  /** Energy zero means exactly that no two queens share a diagonal. */
  lemma EnergyZeroIff(s: seq<int>)
    ensures Energy(s) == 0 <==> DiagonalFree(s)
  {
    EnergyBelowZeroIff(s, |s|);
  }

  /** For a permutation (one queen per row and per column) energy zero is exactly
      a solution of the n-queens problem. */
  lemma ZeroEnergyIffSolution(n: nat, s: seq<int>)
    requires |s| == n && InRange(n, s) && Distinct(s)
    ensures Energy(s) == 0 <==> IsSolution(n, s)
  {
    EnergyZeroIff(s);
    if DiagonalFree(s) {
      forall i, j | 0 <= i < j < |s|
        ensures !Attacks(i, s[i], j, s[j])
      {
        assert !Conflict(s, i, j);
      }
    }
    if IsSolution(n, s) {
      forall i, j | 0 <= i < j < |s|
        ensures !Conflict(s, i, j)
      {
        assert !Attacks(i, s[i], j, s[j]);
      }
    }
  }

  lemma {:induction false} RowConflictsBound(s: seq<int>, i: int, hi: int)
    requires 0 <= i < |s| && i + 1 <= hi <= |s|
    ensures RowConflicts(s, i, hi) <= hi - i - 1
    decreases hi
  {
    if hi > i + 1 {
      RowConflictsBound(s, i, hi - 1);
    }
  }

  lemma {:induction false} EnergyBelowBound(s: seq<int>, k: int)
    requires 0 <= k <= |s|
    ensures 2 * EnergyBelow(s, k) <= k * (2 * |s| - 1 - k)
    decreases k
  {
    if k > 0 {
      var n := |s|;
      EnergyBelowBound(s, k - 1);
      RowConflictsBound(s, k - 1, n);
      assert (k - 1) * (2 * n - k) + 2 * (n - k) == k * (2 * n - 1 - k);
    }
  }

  /** At most one conflict per pair of rows. */
  lemma EnergyBound(s: seq<int>)
    ensures 2 * Energy(s) <= |s| * (|s| - 1)
  {
    EnergyBelowBound(s, |s|);
  }

  /** A conflict needs two queens, so the annealing loop only ever runs (and draws
      two distinct rows) on boards of size at least 2. */
  lemma EnergyPositiveNeedsTwo(s: seq<int>)
    ensures Energy(s) > 0 ==> |s| >= 2
  {
    EnergyBound(s);
  }

  /** The four-queens solution has no conflict; the main diagonal has all six. */
  lemma EnergyExamples()
    ensures Energy([1, 3, 0, 2]) == 0
    ensures Energy([0, 1, 2, 3]) == 6
  {
    var a := [1, 3, 0, 2];
    assert RowConflicts(a, 0, 4) == 0 && RowConflicts(a, 1, 4) == 0;
    assert RowConflicts(a, 2, 4) == 0 && RowConflicts(a, 3, 4) == 0;
    var b := [0, 1, 2, 3];
    assert RowConflicts(b, 0, 4) == 3 && RowConflicts(b, 1, 4) == 2;
    assert RowConflicts(b, 2, 4) == 1 && RowConflicts(b, 3, 4) == 0;
  }
}
