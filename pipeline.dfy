/** The three pieces in the order a caller chains them: encode the puzzle with
    sudoku_board_to_sat_formula, search with satisfying_assignment, and read
    the result back with assignments_to_sudoku_board. */
module Pipeline {
  import opened Cnf
  import opened Pairs
  import opened Encoder
  import opened EncoderProofs
  import opened EncodingSound
  import opened Board
  import opened Solver
  import opened EncodingComplete

  /** Solving a puzzle: either a valid completion that keeps every filled
      cell, or None exactly when the puzzle has no such completion. */
  method SolveSudoku(board: Grid, s: nat) returns (r: Option<Grid>)
    requires |board| == s * s && IsGrid(board, |board|) && CellValuesInRange(board, |board|)
    ensures r.Some? ==> ValidSolution(r.value, s) && Agrees(board, r.value)
    ensures r.None? <==> forall sol :: !(ValidSolution(sol, s) && Agrees(board, sol))
  {
    var n := |board|;
    var formula := SudokuBoardToSatFormula(board, s);
    EncodingNoEmptyClause(board, s);
    var assignments := SatisfyingAssignment(formula);
    if assignments.Some? {
      SearchResultOnBoard(board, s, assignments.value);
    }
    r := AssignmentsToSudokuBoard(assignments, n);
    if r.Some? {
      SatisfyingAssignmentSolves(board, s, assignments.value, r.value);
    } else {
      forall sol ensures !(ValidSolution(sol, s) && Agrees(board, sol)) {
        if ValidSolution(sol, s) && Agrees(board, sol) {
          SolvableEncodingSatisfiable(board, sol, s);
        }
      }
    }
  }

  /** A puzzle with the same number filled in twice in one row has an
      unsatisfiable encoding, so the search reports None for it. */
  lemma RowClashUnsatisfiable(board: Grid, s: nat, i: int, j1: int, j2: int)
    requires |board| == s * s && IsGrid(board, |board|)
    requires 0 <= i < |board| && 0 <= j1 < j2 < |board|
    requires board[i][j1] == board[i][j2] && 1 <= board[i][j1] <= |board|
    ensures !Satisfiable(Encoding(board, s))
  {
    forall m: Assignment<Atom> ensures !Satisfies(m, Encoding(board, s)) {
      FilledTrue(board, s, m, i, j1);
      FilledTrue(board, s, m, i, j2);
      RowExclusive(board, s, m, board[i][j1], i, j1, j2);
    }
  }

  /** A satisfying assignment makes the atom of every filled cell true. */
  lemma FilledTrue(board: Grid, s: nat, m: Assignment<Atom>, i: int, j: int)
    requires |board| == s * s && 0 <= i < |board| && 0 <= j < |board[i]| && board[i][j] != 0
    ensures Satisfies(m, Encoding(board, s)) ==> TrueAt(m, board[i][j], (i, j))
  {
    var c := [Pos(board[i][j], i, j)];
    FilledClausesSpec(board, c);
    EncodingParts(board, s, c);
    assert c in Encoding(board, s);
  }

  /** A satisfying assignment puts no number twice in a row. */
  lemma RowExclusive(board: Grid, s: nat, m: Assignment<Atom>, v: int, i: int, j1: int, j2: int)
    requires |board| == s * s && 1 <= v <= |board| && 0 <= i < |board| && 0 <= j1 < j2 < |board|
    ensures Satisfies(m, Encoding(board, s)) ==> !(TrueAt(m, v, (i, j1)) && TrueAt(m, v, (i, j2)))
  {
    var n := |board|;
    var row := RowLits(v, i, n);
    PairClausesHold(m, row);
    forall c | c in LineClauses(v, i, n) ensures c in Encoding(board, s) {
      LineInEncoding(board, s, v, i, c);
    }
    assert row[j1] == Pos(v, i, j1) && row[j2] == Pos(v, i, j2);
  }
}
