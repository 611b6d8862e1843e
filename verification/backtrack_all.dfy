/** Backtracking search that lists every solution (Nqueens_BK_all_solutions.py).

    The search state lives in a Solver object: the three occupancy sets, the board
    grid and the result list are fields updated in place, and the ghost field
    `placed` is the abstract state they stand for (the queens on rows [0, r)). */
module BacktrackAll {
  import opened NQueens

  class Solver {
    const n: nat
    var col: set<int>
    var posDiag: set<int>
    var negDiag: set<int>
    const board: array2<char>
    var res: seq<seq<string>>
    ghost var placed: seq<int>

    /** The sets hold exactly the columns and diagonals of the queens placed so far,
        and the board shows exactly those queens. */
    ghost predicate Valid()
      reads this, board
    {
      && board.Length0 == n && board.Length1 == n
      && Partial(n, placed)
      && col == Columns(placed)
      && posDiag == RisingDiagonals(placed)
      && negDiag == FallingDiagonals(placed)
      && forall i, j :: 0 <= i < n && 0 <= j < n ==> board[i, j] == Cell(placed, i, j)
    }

    constructor (n: nat)
      ensures Valid() && this.n == n && placed == [] && res == [] && fresh(board)
    {
      this.n := n;
      col, posDiag, negDiag := {}, {}, {};
      board := new char[n, n]((i, j) => '.');
      res := [];
      placed := [];
    }

    /** The rows of the board joined into strings. */
    function Snapshot(): (rows: seq<string>)
      reads this, board
      requires Valid()
      ensures rows == Render(n, placed)
    {
      var rows := seq(n, i reads board requires 0 <= i < n => seq(n, j reads board requires 0 <= j < n => board[i, j]));
      assert forall i :: 0 <= i < n ==> rows[i] == Render(n, placed)[i];
      rows
    }

    /** Tries every column of row r in increasing order, recursing on each safe one
        and undoing the placement afterwards. It appends the boards of all completions
        of the current placement and leaves the sets and the board as it found them. */
    method Backtrack(r: nat)
      requires Valid() && |placed| == r
      modifies this, board
      ensures Valid() && placed == old(placed)
      ensures res == old(res) + RenderAll(n, Completions(n, placed))
      decreases n - r, 2
    {
      if r == n {
        Capture();
        return;
      }
      ghost var before := placed;
      for c := 0 to n
        invariant Valid() && placed == before
        invariant res == old(res) + RenderAll(n, CompletionsBelow(n, before, c))
      {
        ghost var done := res;
        TryColumn(r, c);
        RenderBelowStep(n, before, c);
        AppendAssoc(old(res), RenderAll(n, CompletionsBelow(n, before, c)), res[|done|..]);
      }
    }

    /** Appends the board as it stands. */
    method Capture()
      requires Valid()
      modifies this`res
      ensures res == old(res) + [Render(n, placed)]
    {
      var copy := Snapshot();
      res := res + [copy];
    }

    /** One pass of the column loop: skip column c when it is attacked, otherwise
        explore it. */
    method TryColumn(r: nat, c: int)
      requires Valid() && |placed| == r < n && 0 <= c < n
      modifies this, board
      ensures Valid() && placed == old(placed)
      ensures res == old(res) + RenderAll(n, if Safe(placed, c) then Completions(n, placed + [c]) else [])
      decreases n - r, 1
    {
      PruneTestExact(placed, c);
      if c in col || (r + c) in posDiag || (r - c) in negDiag {
        return;
      }
      Explore(r, c);
    }

    /** The body of the column loop for a column that passed the test: place the
        queen, search the next row, take the queen back. */
    method Explore(r: nat, c: int)
      requires Valid() && |placed| == r < n && 0 <= c < n && Safe(placed, c)
      modifies this, board
      ensures Valid() && placed == old(placed)
      ensures col == old(col) && posDiag == old(posDiag) && negDiag == old(negDiag)
      ensures forall i, j :: 0 <= i < n && 0 <= j < n ==> board[i, j] == old(board[i, j])
      ensures res == old(res) + RenderAll(n, Completions(n, placed + [c]))
      decreases n - r, 0
    {
      Place(r, c);
      Backtrack(r + 1);
      Remove(r, c);
    }

    /** Puts a queen at (r, c): its column and diagonals join the sets and the cell
        shows 'Q'. */
    method Place(r: nat, c: int)
      requires Valid() && |placed| == r < n && 0 <= c < n && Safe(placed, c)
      modifies this, board
      ensures Valid() && placed == old(placed) + [c] && res == old(res)
      ensures col == old(col) + {c} && posDiag == old(posDiag) + {r + c} && negDiag == old(negDiag) + {r - c}
    {
      col := col + {c};
      posDiag := posDiag + {r + c};
      negDiag := negDiag + {r - c};
      board[r, c] := 'Q';
      OccupancyAppend(placed, c);
      ExtendPartial(n, placed, c);
      placed := placed + [c];
    }

    /** Takes back the queen at (r, c), the last one placed: the sets and the board
        return exactly to their state before that queen was placed. */
    method Remove(r: nat, c: int)
      requires Valid() && |placed| == r + 1 && placed[r] == c
      modifies this, board
      ensures Valid() && placed == old(placed)[..r] && res == old(res)
      ensures col == old(col) - {c} && posDiag == old(posDiag) - {r + c} && negDiag == old(negDiag) - {r - c}
    {
      ghost var before := placed[..r];
      assert placed == before + [c];
      OccupancyAppend(before, c);
      PartialPrefix(n, before, c);
      PruneTestExact(before, c);
      col := col - {c};
      posDiag := posDiag - {r + c};
      negDiag := negDiag - {r - c};
      board[r, c] := '.';
      placed := before;
    }
  }

  /** All boards of the n-queens problem, in the order the search finds them. */
  method SolveNQueens(n: int) returns (res: seq<seq<string>>)
    ensures res == AllBoards(n)
    ensures forall b :: b in res ==> ValidBoard(n, b)
    ensures Distinct(res)
    ensures forall p :: IsSolution(n, p) ==> Render(n, p) in res
  {
    AllBoardsCorrect(n);
    if n < 0 {
      // range(n) is empty: the search tries no column and appends nothing.
      return [];
    }
    var solver := new Solver(n);
    solver.Backtrack(0);
    res := solver.res;
  }
}
