# A verified model of a SAT-based Sudoku solver

`solver.py` solves Sudoku puzzles by reduction to Boolean satisfiability. It has three parts:

1. A small DPLL-style search over formulas in conjunctive normal form (CNF). These are `update_exp`, `set_literal` and `satisfying_assignment`.
   - A literal is a pair `(atom, polarity)`.
   - A clause is a list of literals.
   - A formula is a list of clauses.
   - An assignment maps atoms to booleans.
2. An encoder, `sudoku_board_to_sat_formula`, with `gen_cell_coords`, `rule7` and `initial_looping`. It turns an n x n board into a formula whose atoms are `(value, (row, col))`.
3. `assignments_to_sudoku_board`, which reads a satisfying assignment back into a board, and a few board helpers (`values_in_row`, `values_in_column`, `values_in_subgrid`, `valid_moves`).

`clean_formula` is also modelled, although nothing on the solving path calls it.

The model is in Dafny. The source loops that build lists by appending are methods with loop invariants. Each method is proved equal to a specification function, and the properties are proved about those functions.

- `Cnf` holds the formula types and their meaning (`Satisfies`, `Satisfiable`). It also holds the reduction `Reduce`, which specifies `update_exp`, and the `UpdateExp` method.
- `Solver` holds `SetLiteral` and `SatisfyingAssignment`. They are mutually recursive methods, as in the source. They are proved sound, meaning every assignment they return satisfies the formula, and complete, meaning they return None only for an unsatisfiable formula. Termination is by the number of distinct atoms.
- `Pairs` holds the pairwise "not both" loop shared by `rule7` and the per-cell loop. Its marks set ensures that each unordered pair is emitted once.
- `Encoder` holds the encoder loops and the specification functions they are proved equal to.
- `EncoderProofs` proves the shape of the encoding: membership, clause counts, clause kinds, and that every atom names a cell and a value of the board.
- `EncodingSound` proves that a valid completion of the puzzle satisfies the encoding through the assignment it induces.
- `EncodingComplete` proves the converse: a board decoded from any satisfying assignment is a valid completion of the puzzle.
- `Board` holds what a board and a solved board are, the board helpers and the decoder.
- `Pipeline` chains encoder, search and decoder, and proves that a puzzle gets None exactly when it has no solution.
- `Clean` holds `clean_formula`.

`valid_moves` takes the block index from the square root of the board size. `values_in_subgrid` hardcodes blocks of 3. The two agree only on 9 x 9 boards, so both are modelled for that size. The encoder is modelled for any n = s * s.

The search returns an assignment whose keys are atoms of the formula. `assignments_to_sudoku_board` indexes the board with every true key. For a formula produced by the encoder, `EncodingComplete.SearchResultOnBoard` shows that such indexing never leaves the board.

## Model

| member | source | states |
|---|---|---|
| Cnf.Dedup | solver.py:24 | `list(set(clause))`: the same elements, each once |
| Cnf.RemoveFirst | solver.py:25 | `list.remove` of a present element: one element fewer, every other element kept, and a list without duplicates loses that element entirely |
| Cnf.Strip | solver.py:23-25 | the clause update_exp keeps: exactly the distinct literals of the clause other than the complement, without duplicates |
| Cnf.Kept | solver.py:18-20 | the clauses update_exp does not drop: exactly those of f without the asserted literal |
| Cnf.ReduceNoneIff | solver.py:18-32 | update_exp returns None if and only if some clause consists of the complement of the literal alone |
| Cnf.ReduceShape | solver.py:18-31 | a reduced formula has no more clauses than its input, mentions no atom outside the original atoms minus the asserted one, and keeps "no empty clause" |
| Cnf.ReduceClauses | solver.py:18-31 | clause by clause in order, the reduced formula is the kept clauses with the complement stripped where present |
| Cnf.ReduceSound | solver.py:16-32 | an assignment satisfying the reduced formula satisfies the original once the literal is bound true |
| Cnf.ReduceComplete | solver.py:16-32 | an assignment satisfying the formula and the literal satisfies the reduced formula, and the reduction is not None |
| Cnf.ReduceNoneUnsat | solver.py:26-27 | when update_exp returns None, no assignment making the literal true satisfies the formula |
| Cnf.SatisfiesIgnoresAtom | solver.py:39-48 | rebinding an atom the formula does not mention does not change whether it is satisfied |
| Cnf.ReduceIff | solver.py:16-32 | m[a := b] satisfies f if and only if the reduction by (a, b) exists and m satisfies it |
| Cnf.AtomsConcat | solver.py:28-31 | the atoms of a concatenation are the union of the atoms of its parts |
| Cnf.ReducePrefixNone | solver.py:26-27 | the early return: a contradiction found in a prefix is a contradiction of the whole formula |
| Cnf.UpdateExp | solver.py:11-32 | the loop computes exactly the reduction Reduce(formula, literal), including the None case |
| Solver.UnitForces | solver.py:93-97 | a unit clause forces its literal in every satisfying assignment |
| Solver.SatisfiableSplit | solver.py:99-107 | a satisfiable formula is satisfiable with any atom bound one way or the other |
| Solver.LiteralAtom | solver.py:89 | the first literal of the first clause is over an atom of the formula |
| Solver.ExtendSolution | solver.py:46-50 | adding the chosen binding to a solution of the reduced formula gives a solution of the formula over its atoms |
| Solver.NoSolutionWith | solver.py:41-46 | when the reduction is None or unsatisfiable, no solution binds the atom to that polarity |
| Solver.ReduceDecreases | solver.py:41-46 | reducing by a literal over an atom of the formula strictly lowers the number of distinct atoms, so the recursion ends |
| Solver.SetLiteral | solver.py:34-50 | a result binds the atom to the polarity, satisfies the formula and binds only its atoms and the chosen one; None means no solution has that binding |
| Solver.SatisfyingAssignment | solver.py:73-109 | [] gives {}; a result satisfies the formula over its atoms; None only when the formula is unsatisfiable |
| Solver.SolveDirectContradiction | solver.py:83 | [[(a, True)], [(a, False)]] gives None |
| Solver.SolveSingleClause | solver.py:80-82 | a single three-literal clause gets an assignment making one of its literals true |
| Pairs.PairsWithAt | solver.py:160-167 | for a fixed x, the pairs emitted with the later literals: their number and each clause's two negated literals |
| Pairs.PairsBelowShape | solver.py:160-167 | every emitted clause negates two literals at positions x < y |
| Pairs.PairsBelowCover | solver.py:160-167 | after the outer loop has visited the first p literals, every pair of positions x < y with x < p has its clause |
| Pairs.PairsBelowCount | solver.py:160-167 | the number of clauses emitted for the first p literals |
| Pairs.PairsBelowDistinct | solver.py:160-167 | over a list without duplicates no clause is emitted twice |
| Pairs.PairClausesShape | solver.py:160-167 | every pair clause is the negation of two distinct positions, in order |
| Pairs.PairClausesCover | solver.py:160-167 | every unordered pair of positions has its clause |
| Pairs.PairClausesCount | solver.py:160-167 | n literals give n * (n - 1) / 2 pair clauses |
| Pairs.PairClausesOnce | solver.py:160-167 | each unordered pair is emitted once, never also in the reverse order |
| Pairs.PairClausesHold | solver.py:160-167 | the pair clauses hold exactly when no two of the literals hold together (given the atoms are bound) |
| Pairs.AppendExclusionPairs | solver.py:160-167 | the double loop appends exactly the pair clauses, and only adds marks over its own literals |
| Pairs.AppendPairsOf | solver.py:161-167 | one round of the outer loop appends the pairs of x with every later literal and marks them |
| Encoder.Rule7 | solver.py:154-180 | rule7 appends the row's pair clauses, the column's pair clauses, then the row and the column clause |
| Encoder.RowLitsDistinct | solver.py:189-196 | the literals of a row clause and of a column clause are distinct |
| Encoder.InitialLooping | solver.py:182-213 | initial_looping appends exactly the per-number coverage clauses for 1 .. n |
| Encoder.AppendNumber | solver.py:187-212 | one number's rows and columns, then its blocks |
| Encoder.AppendLines | solver.py:189-199 | the row loop calls rule7 for each row and the matching column |
| Encoder.AppendBlocks | solver.py:202-212 | one block clause per s x s block, bands in order |
| Encoder.AppendBand | solver.py:203-212 | one band of blocks left to right |
| Encoder.BlockClause | solver.py:204-211 | a block clause lists the block's cells in the order of the coordinate list |
| Encoder.SudokuBoardToSatFormula | solver.py:215-259 | on a board whose filled cells lie in the n x n grid (so that no `coords_lst.remove` fails), the method computes exactly the specified encoding: filled units, coverage, per-cell clauses |
| Encoder.FilledUnits | solver.py:223-234 | one unit clause per non-zero cell, row-major; each `coords_lst.remove((i, j))` finds its coordinate, since every filled cell is listed and visited once |
| Encoder.AppendCells | solver.py:240-257 | per cell, the pairwise "not two numbers" clauses then the "some number" clause |
| Encoder.CellClause | solver.py:254-256 | the "some number" clause over values 1 .. n |
| Encoder.CellLitsFacts | solver.py:242-252 | the literals of a cell are distinct and all over that cell |
| Encoder.FreshCell | solver.py:240-252 | the marks left by earlier cells never block a pair of a later cell |
| Encoder.CoordsDistinct | solver.py:148-152 | gen_cell_coords lists no coordinate twice |
| Encoder.CoordsHas | solver.py:148-152 | gen_cell_coords lists every coordinate of the n x n grid |
| EncoderProofs.CoordsBelowSpec | solver.py:148-152 | the first k rows of coordinates: k * n of them, exactly those rows, in row-major order |
| EncoderProofs.GenCellCoordsSpec | solver.py:148-152 | gen_cell_coords(n) yields all n * n coordinates, only those, in row-major order |
| EncoderProofs.FilledCellsListed | solver.py:222-231 | every filled cell is among the coordinates `coords_lst` starts with exactly when the filled cells lie in the n x n grid, so the requirement of `SudokuBoardToSatFormula` is what the source's `remove` needs |
| EncoderProofs.EncodingParts | solver.py:226-259 | a clause of the encoding is a filled unit, a coverage clause or a per-cell clause, and each of those is in it |
| EncoderProofs.FilledClausesSpec | solver.py:228-234 | the filled units are exactly [((v, (i, j)), True)] for each non-zero cell |
| EncoderProofs.LinesMember | solver.py:189-199 | the row loop's clauses are exactly the rule7 clauses of each row |
| EncoderProofs.BlocksMember | solver.py:202-212 | the block loop's clauses are exactly the clauses of each block |
| EncoderProofs.CoverageHas | solver.py:187-212 | every clause of a number in 1 .. k is among the coverage clauses |
| EncoderProofs.CoverageWhich | solver.py:187-212 | every coverage clause belongs to some number in 1 .. k |
| EncoderProofs.CellsMember | solver.py:241-257 | the per-cell clauses are exactly those of each listed cell |
| EncoderProofs.BlockLitsMember | solver.py:204-211 | a block clause holds exactly the positive literals of the number at the block's cells |
| EncoderProofs.BlockSize | solver.py:202-212 | each block clause has n literals |
| EncoderProofs.LinesCount | solver.py:189-199 | each row index contributes n * (n - 1) + 2 clauses |
| EncoderProofs.BlocksCount | solver.py:202-212 | each number contributes n block clauses |
| EncoderProofs.CoverageCount | solver.py:187-212 | the coverage clauses number k * (n * (n * (n - 1) + 2) + n) |
| EncoderProofs.CellsCount | solver.py:241-257 | each cell contributes n * (n - 1) / 2 + 1 clauses |
| EncoderProofs.EncodingCount | solver.py:215-259 | the total clause count: filled units + n coverage rounds + n * n cell rounds |
| EncoderProofs.LinePairs | solver.py:160-176 | the pair clauses of a row (column) negate the same number at two distinct cells of that row (column) |
| EncoderProofs.CellPairs | solver.py:242-252 | the pair clauses of a cell negate two distinct numbers at that cell |
| EncoderProofs.LineKinds | solver.py:154-180 | every rule7 clause is an all-positive clause or an exclusion pair |
| EncoderProofs.BlockKinds | solver.py:204-212 | a block clause is all-positive |
| EncoderProofs.CoverageKinds | solver.py:187-212 | every coverage clause is all-positive or an exclusion pair |
| EncoderProofs.CellKinds | solver.py:240-257 | every per-cell clause is all-positive or an exclusion pair |
| EncoderProofs.EncodingKinds | solver.py:215-259 | every clause of the encoding is all-positive or an exclusion pair |
| EncoderProofs.TwoLiteralClauses | solver.py:215-259 | every two-literal clause has two negative literals over two cells of a row, two of a column, or two numbers of a cell |
| EncoderProofs.LineAtoms | solver.py:189-199 | row and column clauses mention only on-board cells and values 1 .. n |
| EncoderProofs.CellAtoms | solver.py:240-257 | per-cell clauses mention only that cell and values 1 .. n |
| EncoderProofs.EncodingAtoms | solver.py:215-259 | every atom of the encoding names an on-board cell and a value 1 .. n, given filled values in range |
| EncoderProofs.EncodingNoEmptyClause | solver.py:215-259 | the encoding has no empty clause, as the search requires |
| EncodingSound.InducedLit | solver.py:261-279 | under the assignment a board induces, (v, (i, j)) holds exactly when cell (i, j) holds v |
| EncodingSound.FilledHold | solver.py:228-234 | a solution agreeing with the puzzle satisfies every filled unit |
| EncodingSound.RowHold | solver.py:189-199 | a solution satisfies a row's pair clauses and its "has every number" clause |
| EncodingSound.ColumnHold | solver.py:189-199 | the same for a column |
| EncodingSound.LineHold | solver.py:154-180 | a solution satisfies every rule7 clause |
| EncodingSound.BlockHold | solver.py:202-212 | a solution satisfies every block clause |
| EncodingSound.CoverageHold | solver.py:182-213 | a solution satisfies all of initial_looping's clauses |
| EncodingSound.CellHold | solver.py:240-257 | a solution satisfies a cell's "one number" clauses |
| EncodingSound.CellsHold | solver.py:240-257 | a solution satisfies all per-cell clauses |
| EncodingSound.SolutionSatisfiesEncoding | solver.py:215-259 | the assignment any valid completion of the puzzle induces satisfies every emitted clause |
| EncodingSound.SolvableEncodingSatisfiable | solver.py:215-259 | a solvable puzzle has a satisfiable encoding |
| EncodingComplete.LineInEncoding | solver.py:187-199 | every rule7 clause of a number and row is in the encoding |
| EncodingComplete.BlockInEncoding | solver.py:201-212 | every block clause is in the encoding |
| EncodingComplete.CellInEncoding | solver.py:240-257 | every per-cell clause is in the encoding |
| EncodingComplete.EncodingMeetsParts | solver.py:215-259 | an assignment satisfying the encoding satisfies the cell, row/column, block and filled-cell parts |
| EncodingComplete.CellValue | solver.py:240-257 | with the cell clauses satisfied, a cell has exactly one true number, in 1 .. n |
| EncodingComplete.ReadCells | solver.py:275-277 | the decoded board holds at each cell the one number its atoms make true |
| EncodingComplete.ReadLinesCover | solver.py:187-199 | the decoded board has every number in every row and column |
| EncodingComplete.ReadLinesDistinct | solver.py:160-176 | the decoded board repeats no number in a row or column |
| EncodingComplete.ReadBlocksCover | solver.py:201-212 | the decoded board has every number in every block |
| EncodingComplete.BlocksCoverDistinct | solver.py:201-212 | a block with all n numbers over n cells repeats none |
| EncodingComplete.ReadAgrees | solver.py:228-234 | the decoded board keeps every filled cell of the puzzle |
| EncodingComplete.SatisfyingAssignmentSolves | solver.py:215-279 | decoding any assignment satisfying the encoding gives a valid completion of the puzzle |
| EncodingComplete.SearchResultOnBoard | solver.py:275-277 | an assignment over the encoding's atoms only names on-board cells, so the decoder's writes stay in range |
| EncodingComplete.DecodeInduced | solver.py:261-279 | decoding the assignment induced by a solution gives that solution back |
| Board.NumberRange | solver.py:142 | set(range(1, n + 1)) is exactly 1 .. n |
| Board.RowValues | solver.py:111-115 | values_in_row is exactly the non-zero numbers of the row, for a board of any size |
| Board.ColumnValues | solver.py:117-121 | values_in_column is exactly the non-zero numbers of the column, for a board of any size |
| Board.SubgridValues | solver.py:123-131 | values_in_subgrid is exactly the non-zero numbers of the 3 x 3 subgrid (sr, sc) |
| Board.ValidMovesSpec | solver.py:133-146 | v is a valid move exactly when 1 <= v <= 9 and no cell of the row, the column or the block holds v |
| Board.SolutionIsValidMove | solver.py:133-146 | the value a solution puts in an empty cell is always among its valid moves |
| Board.AssignmentsToSudokuBoard | solver.py:261-279 | None gives None; otherwise an n x n board whose cells hold a number some true atom names there, 0 elsewhere |
| Board.ZeroBoard | solver.py:271-273 | n rows of n zeros |
| Board.WriteTrueKeys | solver.py:275-277 | the key loop leaves each cell holding the value of a true atom for it, or 0 when there is none |
| Board.DecodeStep | solver.py:275-277 | one key of the loop keeps the loop's invariant |
| Pipeline.SolveSudoku | solver.py:261-268 | encoding, search and decoding give a valid completion of the puzzle, and None exactly when none exists |
| Pipeline.RowClashUnsatisfiable | solver.py:228-252 | a puzzle with one number twice in a row has an unsatisfiable encoding |
| Pipeline.FilledTrue | solver.py:228-234 | a satisfying assignment makes each filled cell's atom true |
| Pipeline.RowExclusive | solver.py:160-167 | a satisfying assignment puts no number twice in a row |
| Clean.Cleaned | solver.py:58-67 | each state of the inner loop has both polarity keys in lit_dict, so its lookups are defined |
| Clean.StepInv | solver.py:61-67 | one literal keeps the loop invariant: lit_dict records the literals seen, to_add holds one literal per atom seen |
| Clean.CleanedInv | solver.py:58-67 | the invariant holds after every prefix of the clause |
| Clean.CleanedClauseSpec | solver.py:58-69 | a cleaned clause is a subset of its clause, holds at most one literal per atom, and keeps every atom |
| Clean.CleanedNoClash | solver.py:61-67 | a clause with no atom in both polarities only loses its repeats |
| Clean.CleanedTautology | solver.py:58-69 | the tautology a or not a comes out as not a, so the satisfiable formula [a or not a, a] cleans to an unsatisfiable one |
| Clean.CleanClause | solver.py:59-67 | the inner loop computes the cleaned clause; the `remove` never misses |
| Clean.ListOf | solver.py:69 | `list(to_add)`: the same elements, each once |
| Clean.CleanFormula | solver.py:52-71 | one output clause per input clause, each without duplicates and with exactly the cleaned clause's literals |

## Left out

- `sys.setrecursionlimit` (solver.py:3) configures the runtime stack and has no logical content.
- The `Contradiction` class (solver.py:5-8) is never raised.
- The `clean` parameter of `satisfying_assignment` (solver.py:73) is never read, so it is not modelled.
- Square roots: the source takes the block side as `int(n ** 0.5)` (solver.py:138-139, 202-208). The model takes an integer `s` with `s * s == n` instead. Boards whose size is not a square are not modelled.
- The global `board_dim` (solver.py:187, 220-221) is an explicit parameter.
- `filled_lst` (solver.py:224, 232) is written but never read, so it is left out. `coords_lst` (solver.py:223, 231) is modelled in `Encoder.FilledUnits` only for its `remove`, which raises ValueError when a filled cell lies outside the n x n grid. `Encoder.SudokuBoardToSatFormula` requires `FilledCellsOnGrid`, and `EncoderProofs.FilledCellsListed` shows that this is exactly the condition under which no `remove` fails. The error path itself is not modelled.
- Cnf.Dedup: keeps one occurrence of each literal in a fixed order. `list(set(...))` (solver.py:24) orders them by hash instead. The lemmas use only the set of literals and the absence of duplicates, so the assignment found is not pinned down.
- Solver.SatisfyingAssignment: states soundness and completeness, not which assignment is returned, which depends on hash order.
- Rule7: the `been_added` sets are parameters that the caller passes in fresh. They are required to hold no mark over the clause's literals. The updated sets are not returned, because no caller reads them.
- Encoder.AppendCells: the per-cell double loop over `num1` and `num2` (solver.py:242-252) is modelled by building the cell's literal list and running the shared pair loop over it. This emits the same clauses in the same order.
- Dictionaries and sets iterated by the source (solver.py:275, 69) are walked in an arbitrary order, chosen with `:|`.
- `lit_dict.clear()` (solver.py:68) is dropped, because the next clause starts from a fresh `lit_dict`.
- Input validation: the source performs none. The encoder requires only `FilledCellsOnGrid`. The end-to-end `Pipeline.SolveSudoku` also requires filled values in 0 .. n and an n x n board (`CellValuesInRange`, `IsGrid`). Python's negative indices and IndexError are outside the model.
- ValidMovesSpec: modelled for 9 x 9 boards only. `values_in_subgrid` hardcodes blocks of 3, but `valid_moves` uses the square root of the size.
- `set_literal`'s in-place `out_dict.update` (solver.py:48) is a map update on a value. Aliasing of the returned dictionary is not modelled.
- The claims that the redundant clauses help performance (solver.py:156-158) and that `clean_formula` reduces the computation (solver.py:54) are about running time and are not modelled.
- The empty `__main__` block (solver.py:282-283) is left out.
