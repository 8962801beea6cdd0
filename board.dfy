/** Boards, solved boards, and the board helpers of solver.py: the values
    already placed in a row, a column or a 3 x 3 subgrid, the candidate numbers
    of a cell, and `assignments_to_sudoku_board`, which turns an assignment
    back into a board. */
module Board {
  import opened Cnf
  import opened Encoder

  // ---------------------------------------------------------------------------
  // Boards and solved boards

  /** n rows of n cells. */
  predicate IsGrid(g: Grid, n: nat)
  {
    |g| == n && forall i :: 0 <= i < n ==> |g[i]| == n
  }

  /** Every cell of the n x n grid sol holds one of 1 .. n. */
  ghost predicate InRange(sol: Grid, n: nat)
    requires IsGrid(sol, n)
  {
    forall i, j :: 0 <= i < n && 0 <= j < n ==> 1 <= sol[i][j] <= n
  }

  /** No number twice in a row, and none twice in a column. */
  ghost predicate LinesDistinct(sol: Grid, n: nat)
    requires IsGrid(sol, n)
  {
    (forall i, j1, j2 :: 0 <= i < n && 0 <= j1 < j2 < n ==> sol[i][j1] != sol[i][j2])
    && (forall i1, i2, j :: 0 <= i1 < i2 < n && 0 <= j < n ==> sol[i1][j] != sol[i2][j])
  }

  /** No number twice in an s x s block. */
  ghost predicate BlocksDistinct(sol: Grid, s: nat)
    requires IsGrid(sol, s * s)
  {
    forall i1, j1, i2, j2 ::
      (0 <= i1 < s * s && 0 <= j1 < s * s && 0 <= i2 < s * s && 0 <= j2 < s * s
       && (i1, j1) != (i2, j2) && i1 / s == i2 / s && j1 / s == j2 / s) ==> sol[i1][j1] != sol[i2][j2]
  }

  /** Row i of g holds v. */
  ghost predicate RowHas(g: Grid, i: int, v: int)
  {
    exists j :: Has(g, v, (i, j))
  }

  /** Column j of g holds v. */
  ghost predicate ColumnHas(g: Grid, j: int, v: int)
  {
    exists i :: Has(g, v, (i, j))
  }

  /** The block (bi, bj) of side s of g holds v. */
  ghost predicate BlockHas(g: Grid, s: nat, bi: int, bj: int, v: int)
  {
    exists i, j :: bi * s <= i < bi * s + s && bj * s <= j < bj * s + s && Has(g, v, (i, j))
  }

  /** Every number 1 .. n in every row and in every column. */
  ghost predicate LinesCover(sol: Grid, n: nat)
  {
    (forall v, i :: 1 <= v <= n && 0 <= i < n ==> RowHas(sol, i, v))
    && (forall v, j :: 1 <= v <= n && 0 <= j < n ==> ColumnHas(sol, j, v))
  }

  /** Every number 1 .. n in every s x s block. */
  ghost predicate BlocksCover(sol: Grid, s: nat)
  {
    forall v, bi, bj :: 1 <= v <= s * s && 0 <= bi < s && 0 <= bj < s ==> BlockHas(sol, s, bi, bj, v)
  }

  /** A solved (s*s) x (s*s) Sudoku: each row, column and block holds each of
      1 .. s*s exactly once. */
  ghost predicate ValidSolution(sol: Grid, s: nat)
  {
    var n := s * s;
    IsGrid(sol, n) && InRange(sol, n) && LinesDistinct(sol, n) && BlocksDistinct(sol, s)
    && LinesCover(sol, n) && BlocksCover(sol, s)
  }

  /** sol keeps every filled cell of board. */
  predicate Agrees(board: Grid, sol: Grid)
  {
    |sol| == |board| &&
    forall i, j :: 0 <= i < |board| && 0 <= j < |board[i]| && board[i][j] != 0 ==>
      j < |sol[i]| && sol[i][j] == board[i][j]
  }

  /** The board g has v at cell c. */
  predicate Has(g: Grid, v: int, c: (int, int))
  {
    0 <= c.0 < |g| && 0 <= c.1 < |g[c.0]| && g[c.0][c.1] == v
  }

  // ---------------------------------------------------------------------------
  // The board helpers

  /** values_in_row: the non-zero numbers of row r. */
  function ValuesInRow(board: Grid, r: int): (vals: set<int>)
    requires 0 <= r < |board|
  {
    set x | x in board[r] && x != 0
  }

  /** values_in_column: the non-zero numbers of column c. */
  function ValuesInColumn(board: Grid, c: int): (vals: set<int>)
    requires 0 <= c && forall r :: 0 <= r < |board| ==> c < |board[r]|
  {
    (set r | 0 <= r < |board| :: board[r][c]) - {0}
  }

  /** values_in_subgrid: the non-zero numbers of the 3 x 3 subgrid (sr, sc). */
  function ValuesInSubgrid(board: Grid, sr: int, sc: int): (vals: set<int>)
    requires 0 <= sr && sr * 3 + 3 <= |board|
    requires 0 <= sc && forall r :: sr * 3 <= r < sr * 3 + 3 ==> sc * 3 + 3 <= |board[r]|
  {
    (set r, c | sr * 3 <= r < (sr + 1) * 3 && sc * 3 <= c < (sc + 1) * 3 :: board[r][c]) - {0}
  }

  /** The numbers 1 .. n, as set(range(1, n + 1)). */
  function NumberRange(n: nat): (r: set<int>)
    ensures forall v :: v in r <==> 1 <= v <= n
  {
    if n == 0 then {} else NumberRange(n - 1) + {n}
  }

  /** valid_moves: the numbers 1 .. 9 that are in neither the row, the column
      nor the subgrid of (row, col). */
  function ValidMoves(board: Grid, row: int, col: int): (moves: set<int>)
    requires IsGrid(board, 9) && 0 <= row < 9 && 0 <= col < 9
  {
    var sr, sc := row / 3, col / 3;
    NumberRange(|board|) - ValuesInRow(board, row) - ValuesInColumn(board, col) - ValuesInSubgrid(board, sr, sc)
  }

  /** values_in_row collects exactly the non-zero numbers of row r. */
  lemma RowValues(board: Grid, r: int, v: int)
    requires 0 <= r < |board|
    ensures v in ValuesInRow(board, r) <==> v != 0 && exists j :: 0 <= j < |board[r]| && board[r][j] == v
  {
    if v != 0 && exists j :: 0 <= j < |board[r]| && board[r][j] == v {
      var j :| 0 <= j < |board[r]| && board[r][j] == v;
      assert board[r][j] in board[r];
    }
  }

  /** values_in_column collects exactly the non-zero numbers of column c. */
  lemma ColumnValues(board: Grid, c: int, v: int)
    requires 0 <= c && forall r :: 0 <= r < |board| ==> c < |board[r]|
    ensures v in ValuesInColumn(board, c) <==> v != 0 && exists i :: 0 <= i < |board| && board[i][c] == v
  {
  }

  /** values_in_subgrid collects exactly the non-zero numbers of the 3 x 3
      subgrid (sr, sc). */
  lemma SubgridValues(board: Grid, sr: int, sc: int, v: int)
    requires 0 <= sr && sr * 3 + 3 <= |board|
    requires 0 <= sc && forall r :: sr * 3 <= r < sr * 3 + 3 ==> sc * 3 + 3 <= |board[r]|
    ensures v in ValuesInSubgrid(board, sr, sc) <==>
      v != 0 && exists i, j :: sr * 3 <= i < sr * 3 + 3 && sc * 3 <= j < sc * 3 + 3 && board[i][j] == v
  {
  }

  /** A candidate of valid_moves is a number 1 .. 9 that no cell of the row,
      the column or the subgrid of (row, col) holds, and every such number is one. */
  lemma ValidMovesSpec(board: Grid, row: int, col: int, v: int)
    requires IsGrid(board, 9) && 0 <= row < 9 && 0 <= col < 9
    ensures v in ValidMoves(board, row, col) <==>
      1 <= v <= 9
      && (forall j :: 0 <= j < 9 ==> board[row][j] != v)
      && (forall i :: 0 <= i < 9 ==> board[i][col] != v)
      && (forall i, j :: row / 3 * 3 <= i < row / 3 * 3 + 3 && col / 3 * 3 <= j < col / 3 * 3 + 3 ==> board[i][j] != v)
  {
    RowValues(board, row, v);
    ColumnValues(board, col, v);
    SubgridValues(board, row / 3, col / 3, v);
  }

  /** The number a solution puts in an empty cell is always among the
      candidates valid_moves offers for it. */
  lemma SolutionIsValidMove(board: Grid, sol: Grid, row: int, col: int)
    requires IsGrid(board, 9) && 0 <= row < 9 && 0 <= col < 9 && board[row][col] == 0
    requires ValidSolution(sol, 3) && Agrees(board, sol)
    ensures sol[row][col] in ValidMoves(board, row, col)
  {
    var v := sol[row][col];
    ValidMovesSpec(board, row, col, v);
    forall j | 0 <= j < 9 ensures board[row][j] != v {
      if j < col {
        assert sol[row][j] != sol[row][col];
      } else if j > col {
        assert sol[row][col] != sol[row][j];
      }
    }
    forall i | 0 <= i < 9 ensures board[i][col] != v {
      if i < row {
        assert sol[i][col] != sol[row][col];
      } else if i > row {
        assert sol[row][col] != sol[i][col];
      }
    }
    forall i, j | row / 3 * 3 <= i < row / 3 * 3 + 3 && col / 3 * 3 <= j < col / 3 * 3 + 3
      ensures board[i][j] != v
    {
      if (i, j) != (row, col) {
        assert i / 3 == row / 3 && j / 3 == col / 3;
        assert sol[i][j] != sol[row][col];
      }
    }
  }

  // ---------------------------------------------------------------------------
  // assignments_to_sudoku_board

  /** The assignment makes the literal "cell c holds v" true. */
  predicate TrueAt(m: Assignment<Atom>, v: int, c: (int, int))
  {
    LitHolds(m, Pos(v, c.0, c.1))
  }

  /** g is an n x n board in which each cell that some true atom names holds
      the number of one such atom, and every other cell is 0. */
  ghost predicate DecodedFrom(m: Assignment<Atom>, g: Grid, n: nat)
  {
    IsGrid(g, n) &&
    forall i, j :: 0 <= i < n && 0 <= j < n ==>
      if exists v :: TrueAt(m, v, (i, j)) then TrueAt(m, g[i][j], (i, j)) else g[i][j] == 0
  }

  /** Every atom the assignment sets to true names a cell of the n x n board. */
  predicate TrueAtomsOnBoard(m: Assignment<Atom>, n: nat)
  {
    forall a :: a in m && m[a] ==> 0 <= a.1.0 < n && 0 <= a.1.1 < n
  }

  /** The state of the key loop: cells named by a true atom seen so far hold
      the number of one of them, the others are still 0. */
  ghost predicate DecodedSoFar(m: Assignment<Atom>, seen: set<Atom>, g: Grid, n: nat)
  {
    IsGrid(g, n) &&
    forall i, j :: 0 <= i < n && 0 <= j < n ==>
      if exists v :: (v, (i, j)) in seen && TrueAt(m, v, (i, j))
      then (g[i][j], (i, j)) in seen && TrueAt(m, g[i][j], (i, j))
      else g[i][j] == 0
  }

  /** assignments_to_sudoku_board: None stays None; otherwise start from an
      n x n board of zeros and write v into cell c for each key (v, c) mapped
      to true, in the map's own iteration order. */
  method AssignmentsToSudokuBoard(assignments: Option<Assignment<Atom>>, n: nat) returns (r: Option<Grid>)
    requires assignments.Some? ==> TrueAtomsOnBoard(assignments.value, n)
    ensures r.None? <==> assignments.None?
    ensures r.Some? ==> DecodedFrom(assignments.value, r.value, n)
  {
    if assignments.None? {
      return None;
    }
    var board := ZeroBoard(n);
    board := WriteTrueKeys(assignments.value, n, board);
    return Some(board);
  }

  /** n rows of n zeros. */
  method ZeroBoard(n: nat) returns (board: Grid)
    ensures IsGrid(board, n) && forall i, j :: 0 <= i < n && 0 <= j < n ==> board[i][j] == 0
  {
    board := [];
    for k := 0 to n
      invariant |board| == k && forall i :: 0 <= i < k ==> board[i] == seq(n, _ => 0)
    {
      board := board + [seq(n, _ => 0)];
    }
  }

  /** The key loop: cell c of the zero board gets v for each key (v, c) that
      m maps to true. */
  method WriteTrueKeys(m: Assignment<Atom>, n: nat, zeros: Grid) returns (board: Grid)
    requires TrueAtomsOnBoard(m, n)
    requires IsGrid(zeros, n) && forall i, j :: 0 <= i < n && 0 <= j < n ==> zeros[i][j] == 0
    ensures DecodedFrom(m, board, n)
  {
    board := zeros;
    var keys := m.Keys;
    while keys != {}
      invariant keys <= m.Keys
      invariant DecodedSoFar(m, m.Keys - keys, board, n)
      decreases |keys|
    {
      var key :| key in keys;
      ghost var seen, before := m.Keys - keys, board;
      if m[key] {
        board := board[key.1.0 := board[key.1.0][key.1.1 := key.0]];
      }
      keys := keys - {key};
      assert m.Keys - keys == seen + {key};
      DecodeStep(m, seen, key, before, board, n);
    }
    DecodeDone(m, board, n);
  }

  lemma DecodeStep(m: Assignment<Atom>, seen: set<Atom>, key: Atom, before: Grid, after: Grid, n: nat)
    requires TrueAtomsOnBoard(m, n) && key in m && key !in seen
    requires DecodedSoFar(m, seen, before, n)
    requires after == if m[key] then before[key.1.0 := before[key.1.0][key.1.1 := key.0]] else before
    ensures DecodedSoFar(m, seen + {key}, after, n)
  {
    forall i, j | 0 <= i < n && 0 <= j < n
      ensures if exists v :: (v, (i, j)) in seen + {key} && TrueAt(m, v, (i, j))
        then (after[i][j], (i, j)) in seen + {key} && TrueAt(m, after[i][j], (i, j))
        else after[i][j] == 0
    {
      if m[key] && key.1 == (i, j) {
        assert key == (after[i][j], (i, j));
      } else if exists v :: (v, (i, j)) in seen + {key} && TrueAt(m, v, (i, j)) {
        var v :| (v, (i, j)) in seen + {key} && TrueAt(m, v, (i, j));
        assert (v, (i, j)) in seen;
      }
    }
  }

  lemma DecodeDone(m: Assignment<Atom>, g: Grid, n: nat)
    requires DecodedSoFar(m, m.Keys, g, n)
    ensures DecodedFrom(m, g, n)
  {
  }
}
