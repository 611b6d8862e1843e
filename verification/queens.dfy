/** The N-Queens problem, stated once for both engines.

    A placement is a sequence of columns indexed by row: p[r] is the column of the
    queen on row r. Rows are distinct by construction, so only columns and the two
    diagonal directions can clash. */
module NQueens {

  /** The queens at (r1, c1) and (r2, c2) share a column, a rising diagonal (r + c)
      or a falling diagonal (r - c). */
  predicate Attacks(r1: int, c1: int, r2: int, c2: int)
  {
    c1 == c2 || r1 + c1 == r2 + c2 || r1 - c1 == r2 - c2
  }

  predicate InRange(n: int, p: seq<int>)
  {
    forall i :: 0 <= i < |p| ==> 0 <= p[i] < n
  }

  predicate Distinct<T(==)>(xs: seq<T>)
  {
    forall i, j :: 0 <= i < j < |xs| ==> xs[i] != xs[j]
  }

  predicate NonAttacking(p: seq<int>)
  {
    forall i, j :: 0 <= i < j < |p| ==> !Attacks(i, p[i], j, p[j])
  }

  /** Queens on rows [0, |p|) of an n x n board, no two attacking each other. */
  predicate Partial(n: int, p: seq<int>)
  {
    |p| <= n && InRange(n, p) && NonAttacking(p)
  }

  /** One queen on every row of an n x n board, no two attacking each other. */
  predicate IsSolution(n: int, p: seq<int>)
  {
    |p| == n && InRange(n, p) && NonAttacking(p)
  }

  /** No queen already placed attacks the cell (|p|, c) of the next row. */
  predicate Safe(p: seq<int>, c: int)
  {
    forall i :: 0 <= i < |p| ==> !Attacks(i, p[i], |p|, c)
  }

  // The three occupancy sets of the backtracking engine, as functions of the placement.

  function Columns(p: seq<int>): set<int>
  {
    set i | 0 <= i < |p| :: p[i]
  }

  function RisingDiagonals(p: seq<int>): set<int>
  {
    set i | 0 <= i < |p| :: i + p[i]
  }

  function FallingDiagonals(p: seq<int>): set<int>
  {
    set i | 0 <= i < |p| :: i - p[i]
  }

  /** The O(1) membership test of the search rejects column c exactly when a queen
      already placed attacks (|p|, c). */
  lemma PruneTestExact(p: seq<int>, c: int)
    ensures (c in Columns(p) || |p| + c in RisingDiagonals(p) || |p| - c in FallingDiagonals(p))
            <==> !Safe(p, c)
  {
    if !Safe(p, c) {
      var i :| 0 <= i < |p| && Attacks(i, p[i], |p|, c);
      if p[i] == c {
        assert c in Columns(p);
      } else if i + p[i] == |p| + c {
        assert |p| + c in RisingDiagonals(p);
      } else {
        assert |p| - c in FallingDiagonals(p);
      }
    }
  }

  /** Placing a queen at (|p|, c) adds exactly its column and its two diagonals. */
  lemma OccupancyAppend(p: seq<int>, c: int)
    ensures Columns(p + [c]) == Columns(p) + {c}
    ensures RisingDiagonals(p + [c]) == RisingDiagonals(p) + {|p| + c}
    ensures FallingDiagonals(p + [c]) == FallingDiagonals(p) + {|p| - c}
  {
    var q := p + [c];
    assert q[|p|] == c;
    assert forall i :: 0 <= i < |p| ==> q[i] == p[i];
  }

  /** A safe queen in range extends a partial placement. */
  lemma ExtendPartial(n: int, p: seq<int>, c: int)
    requires Partial(n, p) && |p| < n && 0 <= c < n && Safe(p, c)
    ensures Partial(n, p + [c])
  {
    var q := p + [c];
    forall i, j | 0 <= i < j < |q|
      ensures !Attacks(i, q[i], j, q[j])
    {
      if j < |p| {
        assert q[i] == p[i] && q[j] == p[j];
      }
    }
  }

  /** The last queen of a partial placement was safe for the rest, which is itself
      a partial placement. */
  lemma PartialPrefix(n: int, p: seq<int>, c: int)
    requires Partial(n, p + [c])
    ensures Partial(n, p) && Safe(p, c)
  {
    var q := p + [c];
    forall i | 0 <= i < |p|
      ensures 0 <= p[i] < n && !Attacks(i, p[i], |p|, c)
    {
      assert q[i] == p[i] && q[|p|] == c;
    }
    forall i, j | 0 <= i < j < |p|
      ensures !Attacks(i, p[i], j, p[j])
    {
      assert q[i] == p[i] && q[j] == p[j];
    }
  }

  // ---------------------------------------------------------------------------
  // The enumeration the backtracking search performs, as a function.

  /** Every solution extending the partial placement p, in the order the search
      finds them: columns of row |p| are tried in increasing order. */
  function Completions(n: nat, p: seq<int>): (r: seq<seq<int>>)
    requires |p| <= n
    ensures forall k :: 0 <= k < |r| ==> |r[k]| == n && r[k][..|p|] == p
    decreases n - |p|, n + 1
  {
    if |p| == n then [p] else CompletionsBelow(n, p, n)
  }

  /** The completions of p whose queen on row |p| stands in a column below c. */
  function CompletionsBelow(n: nat, p: seq<int>, c: nat): (r: seq<seq<int>>)
    requires |p| < n && c <= n
    ensures forall k :: 0 <= k < |r| ==> |r[k]| == n && r[k][..|p|] == p && 0 <= r[k][|p|] < c
    decreases n - |p|, c
  {
    if c == 0 then []
    else
      var branch := if Safe(p, c - 1) then Completions(n, p + [c - 1]) else [];
      assert forall k :: 0 <= k < |branch| ==> branch[k][..|p| + 1] == p + [c - 1] && branch[k][..|p|] == branch[k][..|p| + 1][..|p|];
      CompletionsBelow(n, p, c - 1) + branch
  }

  /** All solutions for an n x n board, in search order. */
  function Solutions(n: nat): seq<seq<int>>
  {
    Completions(n, [])
  }

  /** Every completion of a partial placement is a solution. */
  lemma {:induction false} CompletionsSound(n: nat, p: seq<int>)
    requires Partial(n, p)
    ensures forall s :: s in Completions(n, p) ==> IsSolution(n, s)
    decreases n - |p|, n + 1
  {
    if |p| < n {
      CompletionsBelowSound(n, p, n);
    }
  }

  lemma {:induction false} CompletionsBelowSound(n: nat, p: seq<int>, c: nat)
    requires Partial(n, p) && |p| < n && c <= n
    ensures forall s :: s in CompletionsBelow(n, p, c) ==> IsSolution(n, s)
    decreases n - |p|, c
  {
    if c > 0 {
      CompletionsBelowSound(n, p, c - 1);
      if Safe(p, c - 1) {
        ExtendPartial(n, p, c - 1);
        CompletionsSound(n, p + [c - 1]);
      }
    }
  }

  /** Every solution that extends p is among the completions of p. */
  lemma {:induction false} CompletionsComplete(n: nat, p: seq<int>, s: seq<int>)
    requires |p| <= n && IsSolution(n, s) && s[..|p|] == p
    ensures s in Completions(n, p)
    decreases n - |p|
  {
    if |p| < n {
      var c := s[|p|];
      assert s[..|p| + 1] == p + [c];
      forall i | 0 <= i < |p|
        ensures !Attacks(i, p[i], |p|, c)
      {
        assert p[i] == s[i];
      }
      CompletionsComplete(n, p + [c], s);
      BelowContains(n, p, c, n, s);
    } else {
      assert s == s[..|p|];
    }
  }

  lemma {:induction false} BelowContains(n: nat, p: seq<int>, c: int, hi: nat, s: seq<int>)
    requires |p| < n && 0 <= c < hi <= n && Safe(p, c)
    requires s in Completions(n, p + [c])
    ensures s in CompletionsBelow(n, p, hi)
    decreases hi
  {
    if c < hi - 1 {
      BelowContains(n, p, c, hi - 1, s);
    }
  }

  /** The search finds a solution exactly when one exists. */
  lemma SolutionsEmptyIff(n: nat)
    ensures Solutions(n) == [] <==> forall s :: !IsSolution(n, s)
  {
    if s :| IsSolution(n, s) {
      assert s[..0] == [];
      CompletionsComplete(n, [], s);
    }
    if Solutions(n) != [] {
      CompletionsSound(n, []);
      assert IsSolution(n, Solutions(n)[0]);
    }
  }

  // ---------------------------------------------------------------------------
  // Order and uniqueness of the enumeration.

  /** a comes strictly before b in lexicographic order of column sequences. */
  predicate LexLess(a: seq<int>, b: seq<int>)
  {
    exists k :: 0 <= k < |a| && k < |b| && a[..k] == b[..k] && a[k] < b[k]
  }

  predicate StrictlyIncreasing(ss: seq<seq<int>>)
  {
    forall i, j :: 0 <= i < j < |ss| ==> LexLess(ss[i], ss[j])
  }

  lemma IncreasingIsDistinct(ss: seq<seq<int>>)
    requires StrictlyIncreasing(ss)
    ensures Distinct(ss)
  {
    forall i, j | 0 <= i < j < |ss|
      ensures ss[i] != ss[j]
    {
      assert LexLess(ss[i], ss[j]);
      var k :| 0 <= k < |ss[i]| && k < |ss[j]| && ss[i][..k] == ss[j][..k] && ss[i][k] < ss[j][k];
    }
  }

  /** Completions appear in strictly increasing lexicographic order, hence without
      duplicates. */
  lemma {:induction false} CompletionsIncreasing(n: nat, p: seq<int>)
    requires |p| <= n
    ensures StrictlyIncreasing(Completions(n, p))
    decreases n - |p|, n + 1
  {
    if |p| < n {
      CompletionsBelowIncreasing(n, p, n);
    }
  }

  lemma {:induction false} CompletionsBelowIncreasing(n: nat, p: seq<int>, c: nat)
    requires |p| < n && c <= n
    ensures StrictlyIncreasing(CompletionsBelow(n, p, c))
    decreases n - |p|, c
  {
    if c > 0 {
      var lower := CompletionsBelow(n, p, c - 1);
      var branch := if Safe(p, c - 1) then Completions(n, p + [c - 1]) else [];
      CompletionsBelowIncreasing(n, p, c - 1);
      if Safe(p, c - 1) {
        CompletionsIncreasing(n, p + [c - 1]);
      }
      forall x, y | x in lower && y in branch
        ensures LexLess(x, y)
      {
        assert y[..|p| + 1] == p + [c - 1];
        assert y[..|p|] == y[..|p| + 1][..|p|];
        assert x[..|p|] == y[..|p|] && x[|p|] < y[|p|];
      }
      AppendIncreasing(lower, branch);
    }
  }

  lemma AppendIncreasing(xs: seq<seq<int>>, ys: seq<seq<int>>)
    requires StrictlyIncreasing(xs) && StrictlyIncreasing(ys)
    requires forall x, y :: x in xs && y in ys ==> LexLess(x, y)
    ensures StrictlyIncreasing(xs + ys)
  {
    var zs := xs + ys;
    forall i, j | 0 <= i < j < |zs|
      ensures LexLess(zs[i], zs[j])
    {
      if j < |xs| {
        assert zs[i] == xs[i] && zs[j] == xs[j];
      } else if i >= |xs| {
        assert zs[i] == ys[i - |xs|] && zs[j] == ys[j - |xs|];
      } else {
        assert zs[i] in xs && zs[j] in ys;
      }
    }
  }

  /** When no completion uses a column below c and column c leads to one, the first
      completion found is the first one through column c. */
  lemma {:induction false} FirstThroughColumn(n: nat, p: seq<int>, c: nat, hi: nat)
    requires |p| < n && c < hi <= n
    requires CompletionsBelow(n, p, c) == [] && Safe(p, c) && Completions(n, p + [c]) != []
    ensures CompletionsBelow(n, p, hi) != []
    ensures CompletionsBelow(n, p, hi)[0] == Completions(n, p + [c])[0]
    decreases hi
  {
    if hi > c + 1 {
      FirstThroughColumn(n, p, c, hi - 1);
      var prev := CompletionsBelow(n, p, hi - 1);
      var branch := if Safe(p, hi - 1) then Completions(n, p + [hi - 1]) else [];
      assert CompletionsBelow(n, p, hi) == prev + branch;
      assert (prev + branch)[0] == prev[0];
    } else {
      assert CompletionsBelow(n, p, hi) == [] + Completions(n, p + [c]);
    }
  }

  // ---------------------------------------------------------------------------
  // Boards: n strings of n characters, 'Q' for a queen and '.' for an empty cell.

  /** The character the board holds at row i, column j while the queens of p stand
      on rows [0, |p|). */
  function Cell(p: seq<int>, i: int, j: int): char
  {
    if 0 <= i < |p| && p[i] == j then 'Q' else '.'
  }

  function Render(n: nat, p: seq<int>): (b: seq<string>)
    ensures |b| == n && forall i :: 0 <= i < n ==> |b[i]| == n
  {
    seq(n, i => seq(n, j => Cell(p, i, j)))
  }

  function RenderAll(n: nat, ps: seq<seq<int>>): (bs: seq<seq<string>>)
    ensures |bs| == |ps|
  {
    seq(|ps|, k requires 0 <= k < |ps| => Render(n, ps[k]))
  }

  /** The boards the all-solutions search returns for a size n; a negative size
      gives no rows to try and so no board. */
  function AllBoards(n: int): seq<seq<string>>
  {
    if n < 0 then [] else RenderAll(n, Solutions(n))
  }

  lemma RenderAllAppend(n: nat, xs: seq<seq<int>>, ys: seq<seq<int>>)
    ensures RenderAll(n, xs + ys) == RenderAll(n, xs) + RenderAll(n, ys)
  {
    var l, r := RenderAll(n, xs + ys), RenderAll(n, xs) + RenderAll(n, ys);
    assert |l| == |r|;
    forall k | 0 <= k < |l|
      ensures l[k] == r[k]
    {
      if k < |xs| {
        assert (xs + ys)[k] == xs[k];
      } else {
        assert (xs + ys)[k] == ys[k - |xs|];
      }
    }
  }

  /** The boards found below column c + 1 are those found below c, then those
      through column c when it is safe. */
  lemma RenderBelowStep(n: nat, p: seq<int>, c: nat)
    requires |p| < n && c < n
    ensures RenderAll(n, CompletionsBelow(n, p, c + 1)) ==
            RenderAll(n, CompletionsBelow(n, p, c)) + RenderAll(n, if Safe(p, c) then Completions(n, p + [c]) else [])
  {
    RenderAllAppend(n, CompletionsBelow(n, p, c), if Safe(p, c) then Completions(n, p + [c]) else []);
  }

  lemma AppendAssoc<T>(a: seq<T>, b: seq<T>, c: seq<T>)
    ensures a + (b + c) == (a + b) + c
  {
  }

  /** n strings of length n over {'.', 'Q'}. */
  predicate IsBoard(n: nat, b: seq<string>)
  {
    |b| == n && forall i :: 0 <= i < n ==> |b[i]| == n && forall j :: 0 <= j < n ==> b[i][j] == '.' || b[i][j] == 'Q'
  }

  predicate RowHasQueen(b: seq<string>, i: int)
    requires 0 <= i < |b|
  {
    exists j :: 0 <= j < |b[i]| && b[i][j] == 'Q'
  }

  predicate ColumnHasQueen(b: seq<string>, j: int)
  {
    exists i :: 0 <= i < |b| && 0 <= j < |b[i]| && b[i][j] == 'Q'
  }

  /** A board holding a valid placement: exactly one queen on every row and every
      column, and no two queens on a shared diagonal. */
  ghost predicate ValidBoard(n: nat, b: seq<string>)
  {
    && IsBoard(n, b)
    && (forall i :: 0 <= i < n ==> RowHasQueen(b, i))
    && (forall j :: 0 <= j < n ==> ColumnHasQueen(b, j))
    && (forall i1, j1, i2, j2 ::
          0 <= i1 < n && 0 <= j1 < n && 0 <= i2 < n && 0 <= j2 < n &&
          b[i1][j1] == 'Q' && b[i2][j2] == 'Q' && (i1 != i2 || j1 != j2) ==>
            i1 != i2 && j1 != j2 && i1 + j1 != i2 + j2 && i1 - j1 != i2 - j2)
  }

  /** Queens on distinct columns have as many columns as queens. */
  lemma {:induction false} ColumnsCount(p: seq<int>)
    requires Distinct(p)
    ensures |Columns(p)| == |p|
  {
    if p != [] {
      var q := p[..|p| - 1];
      var last := p[|p| - 1];
      assert p == q + [last];
      OccupancyAppend(q, last);
      ColumnsCount(q);
    }
  }

  lemma SubsetOfSameSize(a: set<int>, b: set<int>)
    requires a <= b && |a| == |b|
    ensures a == b
  {
    assert b * a == a;
    assert |b - a| == 0;
  }

  /** Pigeonhole: n queens on distinct columns of [0, n) occupy every column. */
  lemma ColumnsCovered(n: nat, p: seq<int>)
    requires |p| == n && InRange(n, p) && Distinct(p)
    ensures forall j :: 0 <= j < n ==> j in Columns(p)
  {
    var ids := seq(n, k => k);
    var range := Columns(ids);
    ColumnsCount(p);
    ColumnsCount(ids);
    forall x | x in Columns(p)
      ensures x in range
    {
      var i :| 0 <= i < |p| && p[i] == x;
      assert ids[x] == x;
    }
    SubsetOfSameSize(Columns(p), range);
    forall j | 0 <= j < n
      ensures j in Columns(p)
    {
      assert ids[j] == j && ids[j] in range;
    }
  }

  /** The board of a solution is a valid board. */
  lemma RenderSolutionIsValid(n: nat, p: seq<int>)
    requires IsSolution(n, p)
    ensures ValidBoard(n, Render(n, p))
  {
    var b := Render(n, p);
    assert Distinct(p) by {
      forall i, j | 0 <= i < j < |p| ensures p[i] != p[j] {
        assert !Attacks(i, p[i], j, p[j]);
      }
    }
    ColumnsCovered(n, p);
    forall i | 0 <= i < n
      ensures RowHasQueen(b, i)
    {
      assert b[i][p[i]] == 'Q';
    }
    forall j | 0 <= j < n
      ensures ColumnHasQueen(b, j)
    {
      assert j in Columns(p);
      var i :| 0 <= i < |p| && p[i] == j;
      assert b[i][j] == 'Q';
    }
    forall i1, j1, i2, j2 |
      0 <= i1 < n && 0 <= j1 < n && 0 <= i2 < n && 0 <= j2 < n &&
      b[i1][j1] == 'Q' && b[i2][j2] == 'Q' && (i1 != i2 || j1 != j2)
      ensures i1 != i2 && j1 != j2 && i1 + j1 != i2 + j2 && i1 - j1 != i2 - j2
    {
      assert p[i1] == j1 && p[i2] == j2;
      if i1 < i2 {
        assert !Attacks(i1, p[i1], i2, p[i2]);
      } else if i2 < i1 {
        assert !Attacks(i2, p[i2], i1, p[i1]);
      }
    }
  }

  /** Different placements in range give different boards. */
  lemma RenderInjective(n: nat, p: seq<int>, q: seq<int>)
    requires |p| == n && |q| == n && InRange(n, p) && InRange(n, q) && p != q
    ensures Render(n, p) != Render(n, q)
  {
    var i :| 0 <= i < n && p[i] != q[i];
    assert Render(n, p)[i][p[i]] == 'Q';
    assert Render(n, q)[i][p[i]] == '.';
  }

  /** What the all-solutions search promises about its boards for any size n: each is
      a valid board, none repeats, and every valid placement appears. */
  lemma AllBoardsCorrect(n: int)
    ensures forall b :: b in AllBoards(n) ==> ValidBoard(n, b)
    ensures Distinct(AllBoards(n))
    ensures forall p :: IsSolution(n, p) ==> Render(n, p) in AllBoards(n)
  {
    if n >= 0 {
      var sols := Solutions(n);
      var boards := AllBoards(n);
      CompletionsSound(n, []);
      CompletionsIncreasing(n, []);
      IncreasingIsDistinct(sols);
      forall b | b in boards
        ensures ValidBoard(n, b)
      {
        var k :| 0 <= k < |boards| && boards[k] == b;
        RenderSolutionIsValid(n, sols[k]);
      }
      forall i, j | 0 <= i < j < |boards|
        ensures boards[i] != boards[j]
      {
        assert IsSolution(n, sols[i]) && IsSolution(n, sols[j]);
        RenderInjective(n, sols[i], sols[j]);
      }
      forall p | IsSolution(n, p)
        ensures Render(n, p) in boards
      {
        assert p[..0] == [];
        CompletionsComplete(n, [], p);
        var k :| 0 <= k < |sols| && sols[k] == p;
        assert boards[k] == Render(n, p);
      }
    }
  }

  // ---------------------------------------------------------------------------
  // Small boards.

  /** The 0 x 0 board has one solution, the empty board. */
  lemma SolutionsOfZero()
    ensures Solutions(0) == [[]]
    ensures AllBoards(0) == [[]]
  {
  }

  /** The 1 x 1 board has one solution, a queen in its only cell. */
  lemma SolutionsOfOne()
    ensures Solutions(1) == [[0]]
    ensures AllBoards(1) == [["Q"]]
  {
    assert CompletionsBelow(1, [], 1) == [] + Completions(1, [0]);
    assert Cell([0], 0, 0) == 'Q';
    assert Render(1, [0])[0] == "Q";
    assert Render(1, [0]) == ["Q"];
    assert RenderAll(1, [[0]]) == [Render(1, [0])];
  }

  /** Some pair of queens attacks on any board of size 2 or 3. */
  lemma SmallBoardsClash(s: seq<int>)
    requires (|s| == 2 || |s| == 3) && InRange(|s|, s)
    ensures Attacks(0, s[0], 1, s[1]) || (|s| == 3 && (Attacks(0, s[0], 2, s[2]) || Attacks(1, s[1], 2, s[2])))
  {
  }

  /** Boards of size 2 and 3 have no solution, and the search returns none. */
  lemma NoSolutionsForTwoOrThree()
    ensures Solutions(2) == [] && Solutions(3) == []
  {
    forall s | (|s| == 2 || |s| == 3) && InRange(|s|, s)
      ensures !NonAttacking(s)
    {
      SmallBoardsClash(s);
    }
    SolutionsEmptyIff(2);
    SolutionsEmptyIff(3);
  }

  /** A placement of four queens, pair by pair. */
  lemma FourPairs(s: seq<int>)
    requires |s| == 4
    ensures NonAttacking(s) <==>
      !Attacks(0, s[0], 1, s[1]) && !Attacks(0, s[0], 2, s[2]) && !Attacks(0, s[0], 3, s[3]) &&
      !Attacks(1, s[1], 2, s[2]) && !Attacks(1, s[1], 3, s[3]) && !Attacks(2, s[2], 3, s[3])
  {
    if !Attacks(0, s[0], 1, s[1]) && !Attacks(0, s[0], 2, s[2]) && !Attacks(0, s[0], 3, s[3]) &&
       !Attacks(1, s[1], 2, s[2]) && !Attacks(1, s[1], 3, s[3]) && !Attacks(2, s[2], 3, s[3])
    {
      forall i, j | 0 <= i < j < 4
        ensures !Attacks(i, s[i], j, s[j])
      {
        if i == 0 {
          assert j == 1 || j == 2 || j == 3;
        } else if i == 1 {
          assert j == 2 || j == 3;
        }
      }
    }
  }

  /** The only two placements of four queens. */
  lemma {:induction false} FourQueens(s: seq<int>)
    requires IsSolution(4, s)
    ensures s == [1, 3, 0, 2] || s == [2, 0, 3, 1]
  {
    FourPairs(s);
    assert s == [s[0], s[1], s[2], s[3]];
  }

  lemma FourQueensOrder()
    ensures IsSolution(4, [1, 3, 0, 2]) && IsSolution(4, [2, 0, 3, 1])
    ensures !LexLess([2, 0, 3, 1], [1, 3, 0, 2])
  {
    var a, b := [1, 3, 0, 2], [2, 0, 3, 1];
    FourPairs(a);
    FourPairs(b);
    forall k | 0 < k <= 4
      ensures b[..k] != a[..k]
    {
      assert b[..k][0] != a[..k][0];
    }
  }

  /** Three entries drawn from two values cannot be pairwise different. */
  lemma TwoValues(x: seq<int>, y: seq<int>, z: seq<int>, a: seq<int>, b: seq<int>)
    ensures (x == a || x == b) && (y == a || y == b) && (z == a || z == b) ==> x == y || x == z || y == z
  {
  }

  /** A strictly increasing sequence drawn from {a, b} that holds both, with a
      before b, is exactly [a, b]. */
  lemma IncreasingPair(ss: seq<seq<int>>, a: seq<int>, b: seq<int>)
    requires StrictlyIncreasing(ss) && a in ss && b in ss && a != b && !LexLess(b, a)
    requires forall k :: 0 <= k < |ss| ==> ss[k] == a || ss[k] == b
    ensures ss == [a, b]
  {
    IncreasingIsDistinct(ss);
    if |ss| > 2 {
      TwoValues(ss[0], ss[1], ss[2], a, b);
    }
    assert |ss| == 2;
    assert LexLess(ss[0], ss[1]);
  }

  /** The 4 x 4 board has exactly two solutions, found in this order. */
  lemma SolutionsOfFour()
    ensures Solutions(4) == [[1, 3, 0, 2], [2, 0, 3, 1]]
  {
    var a, b := [1, 3, 0, 2], [2, 0, 3, 1];
    var sols := Solutions(4);
    FourQueensOrder();
    assert a[..0] == [] && b[..0] == [];
    CompletionsComplete(4, [], a);
    CompletionsComplete(4, [], b);
    CompletionsSound(4, []);
    CompletionsIncreasing(4, []);
    forall k | 0 <= k < |sols|
      ensures sols[k] == a || sols[k] == b
    {
      FourQueens(sols[k]);
    }
    IncreasingPair(sols, a, b);
  }

  /** The search renders the two 4 x 4 solutions as these boards. */
  lemma BoardOfFourA()
    ensures Render(4, [1, 3, 0, 2]) == [".Q..", "...Q", "Q...", "..Q."]
  {
    var a := Render(4, [1, 3, 0, 2]);
    assert a[0] == ".Q.." && a[1] == "...Q";
    assert a[2] == "Q..." && a[3] == "..Q.";
  }

  lemma BoardOfFourB()
    ensures Render(4, [2, 0, 3, 1]) == ["..Q.", "Q...", "...Q", ".Q.."]
  {
    var b := Render(4, [2, 0, 3, 1]);
    assert b[0] == "..Q." && b[1] == "Q...";
    assert b[2] == "...Q" && b[3] == ".Q..";
  }

  lemma BoardsOfFour()
    ensures AllBoards(4) == [[".Q..", "...Q", "Q...", "..Q."], ["..Q.", "Q...", "...Q", ".Q.."]]
  {
    SolutionsOfFour();
    BoardOfFourA();
    BoardOfFourB();
    assert RenderAll(4, [[1, 3, 0, 2], [2, 0, 3, 1]]) == [Render(4, [1, 3, 0, 2]), Render(4, [2, 0, 3, 1])];
  }


  // ---------------------------------------------------------------------------
  // Counting distinct solutions.

  lemma {:induction false} DistinctElementsCount(xs: seq<seq<int>>)
    requires Distinct(xs)
    ensures |set x | x in xs| == |xs|
  {
    if xs != [] {
      var init, last := xs[..|xs| - 1], xs[|xs| - 1];
      assert xs == init + [last];
      DistinctElementsCount(init);
      assert (set x | x in xs) == (set x | x in init) + {last};
      assert last !in (set x | x in init);
    }
  }

  lemma {:induction false} ElementsCountAtMost(xs: seq<seq<int>>)
    ensures |set x | x in xs| <= |xs|
  {
    if xs != [] {
      var init, last := xs[..|xs| - 1], xs[|xs| - 1];
      assert xs == init + [last];
      ElementsCountAtMost(init);
      assert (set x | x in xs) == (set x | x in init) + {last};
    }
  }

  lemma SubsetCount(a: set<seq<int>>, b: set<seq<int>>)
    requires a <= b
    ensures |a| <= |b|
  {
    assert b == a + (b - a);
  }

  /** A list of distinct solutions, in any order, is never longer than the list of
      all solutions. */
  lemma DistinctSolutionsBound(n: nat, xs: seq<seq<int>>)
    requires Distinct(xs) && forall k :: 0 <= k < |xs| ==> IsSolution(n, xs[k])
    ensures |xs| <= |Solutions(n)|
  {
    forall x | x in xs
      ensures x in Solutions(n)
    {
      CompletionsComplete(n, [], x);
    }
    DistinctElementsCount(xs);
    ElementsCountAtMost(Solutions(n));
    SubsetCount(set x | x in xs, set x | x in Solutions(n));
  }
}
