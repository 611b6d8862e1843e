# N-Queens: backtracking and simulated annealing, modelled in Dafny

This project models the four N-Queens programs of the repository.

- **`Nqueens_BK_all_solutions.py`** is a row-by-row depth-first search. It lists every solution as a board of strings.
- **`Nqueens_BK_one_solution.py`** is the same search. It stops at the first solution.
- **`Nqueens_SA_one_solution.py`** is a simulated-annealing search over permutations. It uses a swap neighbour and a diagonal-conflict energy.
- **`Nqueens_SA_all_solutions.py`** is the same annealing loop with an extra rule: it never moves onto a solution found in an earlier attempt. A harvest loop (`encontrar_solucoes_unicas`) collects the distinct solutions of many attempts.

## Files

- **`queens.dfy`** (`NQueens`) states the problem once:
  - placements (p[r] is the column of the queen on row r), attacks, partial placements and solutions;
  - the three occupancy sets as functions of a placement;
  - `Completions`, the list of solutions in the order the search finds them, and the proofs that it is sound, complete and strictly increasing in lexicographic order;
  - rendering to boards of `'Q'` and `'.'`, and the board-level validity proof;
  - the small sizes 0 to 4.
- **`backtrack_all.dfy`** (`BacktrackAll`) holds the search state in a `Solver` class:
  - the fields are the three sets, the `array2<char>` board and the result list;
  - ghost `placed` is the abstract state of those fields;
  - `Backtrack` is the nested `backtrack`, proved to append exactly the boards of `Completions` of the current placement and to leave the sets and the board as it found them.
- **`backtrack_one.dfy`** (`BacktrackOne`) is the early-exit recursion on the same `Solver`. On success it leaves the first solution on the board and does not undo; on failure everything is restored.
- **`energy.dfy`** (`QueenEnergy`) has `calcular_energia` as a nested-loop method, proved equal to a recursive count of conflicting pairs.
- **`annealing.dfy`** (`Annealing`) has what both annealing programs share: permutations, the oracle `Move` of a round, the swap neighbour, and `Anneal`, the final state of the loop as a function of its inputs (one `Step` per round).
- **`anneal_one.dfy`** (`AnnealOne`) and **`anneal_all.dfy`** (`AnnealAll`) have the annealing loops and the harvest.

**Randomness and temperature are inputs.**
- The permutation produced by `random.shuffle` is a parameter.
- Round k of a loop reads `moves[k]`. It holds the two distinct rows drawn by `random.sample` and a boolean `lucky`, the outcome of `random() < exp(-delta / T)` for a positive delta.
- A delta of 0 is always accepted, because `exp(0)` is 1 and `random()` is below 1.
- The cooling schedule only decides how many rounds run, and that number is `|moves|`.

All properties hold for every value of these inputs.

## Model

| member | source | states |
|---|---|---|
| NQueens.PruneTestExact | Nqueens_BK_all_solutions.py:18-20 | the membership test on the three occupancy sets holds exactly when a queen already placed attacks (r, c) |
| NQueens.OccupancyAppend | Nqueens_BK_all_solutions.py:22-24 | placing a queen adds exactly its column, rising and falling diagonal to the sets of the placement |
| NQueens.ExtendPartial | Nqueens_BK_all_solutions.py:22-27 | a queen that passes the test extends a non-attacking placement to a longer one |
| NQueens.PartialPrefix | Nqueens_BK_all_solutions.py:29-32 | dropping the last queen of a non-attacking placement leaves one, and that queen was safe for it |
| NQueens.Completions | Nqueens_BK_all_solutions.py:12-32 | every completion found has n queens and begins with the current placement |
| NQueens.CompletionsBelow | Nqueens_BK_all_solutions.py:18-32 | completions through the columns below c extend the placement with a queen in a column below c |
| NQueens.CompletionsSound | Nqueens_BK_all_solutions.py:13-16 | every completion the search reaches is a full non-attacking placement |
| NQueens.CompletionsBelowSound | Nqueens_BK_all_solutions.py:18-27 | every completion through the columns tried so far is a solution |
| NQueens.CompletionsComplete | Nqueens_BK_all_solutions.py:18-20 | pruning loses nothing: every solution extending the placement is among its completions |
| NQueens.SolutionsEmptyIff | Nqueens_BK_one_solution.py:39-42 | the search finds nothing exactly when the size has no solution |
| NQueens.IncreasingIsDistinct | Nqueens_BK_all_solutions.py:12-32 | a strictly increasing list of placements has no duplicates |
| NQueens.CompletionsIncreasing | Nqueens_BK_all_solutions.py:18 | columns tried in increasing order give the solutions in strictly increasing lexicographic order |
| NQueens.CompletionsBelowIncreasing | Nqueens_BK_all_solutions.py:18-27 | the completions through the columns tried so far are strictly increasing |
| NQueens.AppendIncreasing | Nqueens_BK_all_solutions.py:18 | the completions through a later column all follow those through earlier columns |
| NQueens.FirstThroughColumn | Nqueens_BK_one_solution.py:19-31 | if no column below c leads to a solution and c does, the first completion overall is the first one through c |
| NQueens.Render | Nqueens_BK_all_solutions.py:14 | a board is n strings of n characters |
| NQueens.RenderSolutionIsValid | Nqueens_BK_all_solutions.py:13-25 | the board of a solution has one 'Q' in every row and every column and no two queens on a line or diagonal |
| NQueens.RenderInjective | Nqueens_BK_all_solutions.py:14-15 | different placements give different boards |
| NQueens.AllBoardsCorrect | Nqueens_BK_all_solutions.py:5-35 | the boards returned are valid, pairwise distinct, and include the board of every solution |
| NQueens.SolutionsOfZero | Nqueens_BK_all_solutions.py:10-16 | size 0 has one solution, the empty placement, and the search returns one empty board |
| NQueens.SolutionsOfOne | Nqueens_SA_all_solutions.py:87 | size 1 has the single board "Q" |
| NQueens.NoSolutionsForTwoOrThree | Nqueens_SA_all_solutions.py:88-89 | sizes 2 and 3 have no solution |
| NQueens.FourQueens | Nqueens_SA_all_solutions.py:90 | the only solutions of size 4 are [1,3,0,2] and [2,0,3,1] |
| NQueens.SolutionsOfFour | Nqueens_BK_all_solutions.py:12-32 | the search lists the size-4 solutions as [1,3,0,2] then [2,0,3,1] |
| NQueens.BoardsOfFour | Nqueens_BK_all_solutions.py:10-16 | size 4 gives exactly ".Q..","...Q","Q...","..Q." and "..Q.","Q...","...Q",".Q.." |
| NQueens.DistinctSolutionsBound | Nqueens_SA_all_solutions.py:74-79 | a list of distinct solutions is no longer than the list of all solutions |
| BacktrackAll.Solver.constructor | Nqueens_BK_all_solutions.py:6-10 | empty sets, an all-'.' n x n board and an empty result satisfy the state invariant |
| BacktrackAll.Solver.Snapshot | Nqueens_BK_all_solutions.py:14 | joining the board rows gives the rendering of the placed queens |
| BacktrackAll.Solver.Capture | Nqueens_BK_all_solutions.py:13-16 | the current board is appended to the result and nothing else changes |
| BacktrackAll.Solver.Backtrack | Nqueens_BK_all_solutions.py:12-32 | appends the boards of all completions of the current placement in search order, and leaves the placement, sets and board as on entry |
| BacktrackAll.Solver.TryColumn | Nqueens_BK_all_solutions.py:18-32 | one column: appends nothing if it is attacked, the boards of its completions otherwise |
| BacktrackAll.Solver.Explore | Nqueens_BK_all_solutions.py:22-32 | place, recurse, undo: appends the completions through column c and restores the sets and every board cell |
| BacktrackAll.Solver.Place | Nqueens_BK_all_solutions.py:22-25 | each set gains exactly the new queen's entry, the board shows it, and the state invariant holds for the longer placement |
| BacktrackAll.Solver.Remove | Nqueens_BK_all_solutions.py:29-32 | each set loses exactly that queen's entry and the board and invariant return to the shorter placement |
| BacktrackAll.SolveNQueens | Nqueens_BK_all_solutions.py:5-35 | returns the boards of all solutions in search order, each valid, no duplicates, none missing; a negative size gives none |
| BacktrackOne.Backtrack | Nqueens_BK_one_solution.py:13-39 | returns true exactly when a completion exists; then the first completion is on the board and its board is appended once; otherwise nothing changed |
| BacktrackOne.TryColumn | Nqueens_BK_one_solution.py:19-37 | a column that succeeds yields the first completion overall; one that fails leaves nothing through columns up to c |
| BacktrackOne.Explore | Nqueens_BK_one_solution.py:23-37 | success skips the undo and leaves the first completion through c placed; failure restores the state |
| BacktrackOne.SolveNQueens | Nqueens_BK_one_solution.py:5-42 | returns the first board of the all-solutions search, or nothing exactly when no solution exists; at most one board, always valid |
| QueenEnergy.ComputeEnergy | Nqueens_SA_one_solution.py:70-92 | the nested loop over pairs i < j returns the number of pairs on a common diagonal |
| QueenEnergy.RowConflictsZeroIff | Nqueens_SA_one_solution.py:86-90 | a row contributes no conflict exactly when no later row shares a diagonal with it |
| QueenEnergy.EnergyBelowZeroIff | Nqueens_SA_one_solution.py:85-90 | the rows so far contribute nothing exactly when none of them shares a diagonal with a later row |
| QueenEnergy.EnergyZeroIff | Nqueens_SA_all_solutions.py:50-60 | energy 0 exactly when no two queens share a diagonal |
| QueenEnergy.ZeroEnergyIffSolution | Nqueens_SA_one_solution.py:22-28 | for a permutation, energy 0 exactly when it is an n-queens solution |
| QueenEnergy.RowConflictsBound | Nqueens_SA_one_solution.py:86-90 | row i has at most one conflict per later row |
| QueenEnergy.EnergyBelowBound | Nqueens_SA_one_solution.py:85-90 | the rows below k contribute at most one conflict per pair |
| QueenEnergy.EnergyBound | Nqueens_SA_one_solution.py:85-90 | the energy is at most N(N-1)/2 |
| QueenEnergy.EnergyPositiveNeedsTwo | Nqueens_SA_one_solution.py:40-44 | a positive energy needs N >= 2, so the draw of two distinct rows can always be made |
| QueenEnergy.EnergyExamples | Nqueens_SA_one_solution.py:24-28 | [1,3,0,2] has energy 0 and [0,1,2,3] has energy 6 |
| Annealing.Swapped | Nqueens_SA_one_solution.py:43-45 | the neighbour exchanges positions i and j and agrees with the state everywhere else |
| Annealing.SwapKeepsPermutation | Nqueens_SA_all_solutions.py:25-27 | swapping two rows of a permutation gives a permutation |
| Annealing.SwapTwice | Nqueens_SA_one_solution.py:43-45 | swapping the same two rows again restores the state |
| Annealing.Neighbour | Nqueens_SA_all_solutions.py:25-27 | copying the state and swapping two entries in place gives the swapped state |
| Annealing.Step | Nqueens_SA_all_solutions.py:25-39 | one round: the next state is the current one or its swap; a state it moves to is never a visited one; an unvisited neighbour of lower energy is always taken |
| Annealing.Anneal | Nqueens_SA_one_solution.py:40-66 | rounds run while rounds remain and the energy is positive; the final state has the length of the start |
| Annealing.AnnealInvariants | Nqueens_SA_all_solutions.py:23-44 | for all draws the final state is a permutation, a solved start is returned unchanged, the result is the start or outside the visited set, and without lucky draws the energy never rises |
| AnnealOne.SimulatedAnnealing | Nqueens_SA_one_solution.py:8-68 | the loop returns exactly Anneal of its inputs with no visited set, and its energy; so the state is a permutation, energy 0 exactly when it is a solution, and a solved start is returned unchanged; without lucky draws the energy never rises |
| AnnealAll.SimulatedAnnealing | Nqueens_SA_all_solutions.py:9-44 | the loop returns exactly Anneal of its inputs and its energy; as above, and the result is never a visited state unless it is the unchecked starting permutation |
| AnnealAll.HarvestGrows | Nqueens_SA_all_solutions.py:67-78 | the set of collected solutions only grows from attempt to attempt |
| AnnealAll.HarvestSound | Nqueens_SA_all_solutions.py:70-78 | after k attempts only solutions are collected, at most k of them |
| AnnealAll.HarvestKeepsSolved | Nqueens_SA_all_solutions.py:71-78 | every attempt that ends at energy 0 has its state collected |
| AnnealAll.HarvestKeepsSolvedStarts | Nqueens_SA_all_solutions.py:71-78 | an attempt whose shuffle is already a solution contributes it |
| AnnealAll.CollectSolutions | Nqueens_SA_all_solutions.py:67-78 | the attempt loop, with the solutions set as the visited set, collects exactly Harvest of the first max_tentativas attempts |
| AnnealAll.ListSolutions | Nqueens_SA_all_solutions.py:79 | the list holds exactly the elements of the set, each once |
| AnnealAll.FindUniqueSolutions | Nqueens_SA_all_solutions.py:66-79 | returns exactly the solutions collected by the attempts, each once: only solutions, at most max_tentativas of them and no more than exist; every attempt ending at energy 0 contributes through Harvest |

## Left out

- Temperature, the cooling rate and `math.exp` are not modelled. They are replaced by the per-round `lucky` input and the round count `|moves|`. The bound on the number of rounds they imply is not modelled.
- `random.shuffle`, `random.sample` and `random.random` are replaced by inputs. The starting state must be a permutation and the drawn rows distinct and in range.
- The `float('inf')` energy of a visited neighbour is modelled as "rejected". That is its only effect, because the move is then never accepted.
- `visitados=None` in the all-solutions annealing, and the one-solution annealing, are modelled as an empty visited set. With no visited state, the rule "a visited neighbour is rejected" never applies.
- The annealing programs take the size as a natural number. A negative N gives an empty range, which behaves like N = 0.
- The annealing result is the pair (state, energy). The iteration counter `iteracao` of the one-solution program is never read, so it is not modelled.
- `encontrar_solucoes_unicas` returns the set as a list in Python's iteration order. The model returns the set's elements in an unspecified order.
- The `main()` drivers are not modelled: the timing, file output and printing in all four files, and the doubling `max_tent` loop. `imprimir_tabuleiro` only prints and is not modelled either.
- The `solucoes_conhecidas` table is checked only for N from 1 to 4. Larger counts are not proved.
