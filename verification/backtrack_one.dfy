/** Backtracking search that stops at the first solution (Nqueens_BK_one_solution.py).

    The search state (occupancy sets, board grid, result list) is the same as in the
    all-solutions search, so the Solver object of that module is reused; what changes
    is the recursion, which reports whether it found a solution and, when it did,
    unwinds at once without taking any queen back. */
module BacktrackOne {
  import opened NQueens
  import BacktrackAll

  /** Searches the completions of the current placement, columns in increasing
      order. On success the first completion in search order is left on the board
      and appended to the result; on failure everything is as it was. */
  method Backtrack(s: BacktrackAll.Solver, r: nat) returns (found: bool)
    requires s.Valid() && |s.placed| == r
    modifies s, s.board
    ensures s.Valid()
    ensures found <==> Completions(s.n, old(s.placed)) != []
    ensures found ==> s.placed == Completions(s.n, old(s.placed))[0] && s.res == old(s.res) + [Render(s.n, s.placed)]
    ensures !found ==> s.placed == old(s.placed) && s.res == old(s.res)
    decreases s.n - r, 2
  {
    if r == s.n {
      s.Capture();
      return true;
    }
    ghost var before := s.placed;
    for c := 0 to s.n
      invariant s.Valid() && s.placed == before && s.res == old(s.res)
      invariant CompletionsBelow(s.n, before, c) == []
    {
      found := TryColumn(s, r, c);
      if found {
        return;
      }
    }
    found := false;
  }

  /** One pass of the column loop, entered when no column below c led to a
      solution: skip column c when it is attacked, otherwise explore it. */
  method TryColumn(s: BacktrackAll.Solver, r: nat, c: int) returns (found: bool)
    requires s.Valid() && |s.placed| == r < s.n && 0 <= c < s.n
    requires CompletionsBelow(s.n, s.placed, c) == []
    modifies s, s.board
    ensures s.Valid()
    ensures found ==> Completions(s.n, old(s.placed)) != [] && s.placed == Completions(s.n, old(s.placed))[0]
    ensures found ==> s.res == old(s.res) + [Render(s.n, s.placed)]
    ensures !found ==> s.placed == old(s.placed) && s.res == old(s.res) && CompletionsBelow(s.n, s.placed, c + 1) == []
    decreases s.n - r, 1
  {
    ghost var before := s.placed;
    PruneTestExact(before, c);
    if c in s.col || (r + c) in s.posDiag || (r - c) in s.negDiag {
      return false;
    }
    found := Explore(s, r, c);
    if found {
      FirstThroughColumn(s.n, before, c, s.n);
    }
  }

  /** Places a queen at (r, c) and searches on; the queen is taken back only when
      that search fails. The source clears the board cell before the sets, Remove
      does the opposite; the two updates touch different fields, so the order does
      not change the resulting state. */
  method Explore(s: BacktrackAll.Solver, r: nat, c: int) returns (found: bool)
    requires s.Valid() && |s.placed| == r < s.n && 0 <= c < s.n && Safe(s.placed, c)
    modifies s, s.board
    ensures s.Valid()
    ensures found <==> Completions(s.n, old(s.placed) + [c]) != []
    ensures found ==> s.placed == Completions(s.n, old(s.placed) + [c])[0] && s.res == old(s.res) + [Render(s.n, s.placed)]
    ensures !found ==> s.placed == old(s.placed) && s.res == old(s.res)
    decreases s.n - r, 0
  {
    s.Place(r, c);
    found := Backtrack(s, r + 1);
    if !found {
      s.Remove(r, c);
    }
  }

  /** The first board of the all-solutions order, or none when the size has no
      solution. */
  method SolveNQueens(n: int) returns (res: seq<seq<string>>)
    ensures res == AllBoards(n)[..if AllBoards(n) == [] then 0 else 1]
    ensures res == [] <==> forall p :: !IsSolution(n, p)
    ensures forall b :: b in res ==> ValidBoard(n, b)
  {
    AllBoardsCorrect(n);
    if n < 0 {
      // range(n) is empty: the search tries no column and finds nothing.
      return [];
    }
    SolutionsEmptyIff(n);
    var solver := new BacktrackAll.Solver(n);
    var found := Backtrack(solver, 0);
    res := solver.res;
    if found {
      assert res == [AllBoards(n)[0]];
    }
  }
}
