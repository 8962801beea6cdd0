/** The Sudoku-to-CNF encoder of solver.py: `gen_cell_coords`, `rule7`,
    `initial_looping` and `sudoku_board_to_sat_formula`. Each loop of the
    source appends to the clause list; each method here is proved to produce
    exactly the clause list described by the specification functions below,
    whose properties are proved in module EncoderProofs. */
module Encoder {
  import opened Cnf
  import opened Pairs

  /** (number, (row, column)): "this cell holds this number". */
  type Atom = (int, (int, int))
  /** n rows of n numbers, 0 for an empty cell. */
  type Grid = seq<seq<int>>

  function Pos(v: int, i: int, j: int): Literal<Atom>
  {
    ((v, (i, j)), true)
  }

  // ---------------------------------------------------------------------------
  // gen_cell_coords

  function RowCoords(i: int, n: nat): seq<(int, int)>
  {
    seq(n, j => (i, j))
  }

  /** The coordinates of rows 0 .. k - 1, row by row. */
  function CoordsBelow(k: nat, n: nat): seq<(int, int)>
  {
    if k == 0 then [] else CoordsBelow(k - 1, n) + RowCoords(k - 1, n)
  }

  /** gen_cell_coords: every coordinate of a dim x dim grid in row-major order. */
  function GenCellCoords(dim: nat): seq<(int, int)>
  {
    CoordsBelow(dim, dim)
  }

  // ---------------------------------------------------------------------------
  // The clauses, as specification functions

  /** The literals "number num is at (i, j)" for j < len: add_clause_row. */
  function RowLits(num: int, i: int, len: nat): Clause<Atom>
  {
    seq(len, j => Pos(num, i, j))
  }

  /** The literals "number num is at (j, i)" for j < len: add_clause_col. */
  function ColLits(num: int, i: int, len: nat): Clause<Atom>
  {
    seq(len, j => Pos(num, j, i))
  }

  /** The literals "cell c holds v" for v = 1 .. len. */
  function CellLits(c: (int, int), len: nat): Clause<Atom>
  {
    seq(len, k => Pos(k + 1, c.0, c.1))
  }

  /** The literals for num at the coordinates of coords that lie in the s x s
      block whose top-left corner is (r0, c0), in the order of coords: add_clause_sub. */
  function BlockLits(num: int, coords: seq<(int, int)>, r0: int, c0: int, s: nat): Clause<Atom>
    decreases |coords|
  {
    if coords == [] then []
    else
      var c := coords[|coords| - 1];
      BlockLits(num, coords[..|coords| - 1], r0, c0, s)
        + (if r0 <= c.0 < s + r0 && c0 <= c.1 < s + c0 then [Pos(num, c.0, c.1)] else [])
  }

  /** What rule7 appends for row i and column i. */
  function LineClauses(num: int, i: int, n: nat): Formula<Atom>
  {
    PairClauses(RowLits(num, i, n)) + PairClauses(ColLits(num, i, n)) + [RowLits(num, i, n), ColLits(num, i, n)]
  }

  function LinesUpTo(num: int, k: nat, n: nat): Formula<Atom>
  {
    if k == 0 then [] else LinesUpTo(num, k - 1, n) + LineClauses(num, k - 1, n)
  }

  /** The block coverage clauses of block row bi, for block columns below bj. */
  function BandBlocks(num: int, coords: seq<(int, int)>, bi: nat, bj: nat, s: nat): Formula<Atom>
  {
    if bj == 0 then [] else BandBlocks(num, coords, bi, bj - 1, s) + [BlockLits(num, coords, bi * s, (bj - 1) * s, s)]
  }

  /** The block coverage clauses of block rows below bi. */
  function BlocksUpTo(num: int, coords: seq<(int, int)>, bi: nat, s: nat): Formula<Atom>
  {
    if bi == 0 then [] else BlocksUpTo(num, coords, bi - 1, s) + BandBlocks(num, coords, bi - 1, s, s)
  }

  /** What initial_looping appends for one number. */
  function NumberClauses(num: int, n: nat, s: nat, coords: seq<(int, int)>): Formula<Atom>
  {
    LinesUpTo(num, n, n) + BlocksUpTo(num, coords, s, s)
  }

  function CoverageUpTo(k: nat, n: nat, s: nat, coords: seq<(int, int)>): Formula<Atom>
  {
    if k == 0 then [] else CoverageUpTo(k - 1, n, s, coords) + NumberClauses(k, n, s, coords)
  }

  /** Everything initial_looping appends, numbers 1 .. n in turn. */
  function Coverage(n: nat, s: nat, coords: seq<(int, int)>): Formula<Atom>
  {
    CoverageUpTo(n, n, s, coords)
  }

  /** Unit clauses for the filled cells row[..j] of row i. */
  function FilledInRow(row: seq<int>, i: int, j: nat): Formula<Atom>
    requires j <= |row|
  {
    if j == 0 then []
    else FilledInRow(row, i, j - 1) + (if row[j - 1] != 0 then [[Pos(row[j - 1], i, j - 1)]] else [])
  }

  /** Unit clauses for the filled cells of rows 0 .. k - 1. */
  function FilledUpTo(board: Grid, k: nat): Formula<Atom>
    requires k <= |board|
  {
    if k == 0 then [] else FilledUpTo(board, k - 1) + FilledInRow(board[k - 1], k - 1, |board[k - 1]|)
  }

  function FilledClauses(board: Grid): Formula<Atom>
  {
    FilledUpTo(board, |board|)
  }

  /** The per-cell clauses: at most one number, then at least one. */
  function CellClauses(c: (int, int), n: nat): Formula<Atom>
  {
    PairClauses(CellLits(c, n)) + [CellLits(c, n)]
  }

  function CellsUpTo(coords: seq<(int, int)>, k: nat, n: nat): Formula<Atom>
    requires k <= |coords|
  {
    if k == 0 then [] else CellsUpTo(coords, k - 1, n) + CellClauses(coords[k - 1], n)
  }

  /** The whole formula sudoku_board_to_sat_formula emits, in order. */
  function Encoding(board: Grid, s: nat): Formula<Atom>
  {
    var n := |board|;
    var coords := GenCellCoords(n);
    FilledClauses(board) + Coverage(n, s, coords) + CellsUpTo(coords, |coords|, n)
  }

  // ---------------------------------------------------------------------------
  // The loops

  /** rule7: the row's and the column's pair clauses, then the row and column
      coverage clauses themselves. */
  method Rule7(addClauseRow: Clause<Atom>, beenAddedRow: set<Mark<Atom>>,
               addClauseCol: Clause<Atom>, beenAddedCol: set<Mark<Atom>>,
               validNumCoord: Formula<Atom>) returns (r: Formula<Atom>)
    requires NoDuplicates(addClauseRow) && Unmarked(addClauseRow, beenAddedRow)
    requires NoDuplicates(addClauseCol) && Unmarked(addClauseCol, beenAddedCol)
    ensures r == validNumCoord + PairClauses(addClauseRow) + PairClauses(addClauseCol) + [addClauseRow, addClauseCol]
  {
    var rowMarks, colMarks;
    r, rowMarks := AppendExclusionPairs(addClauseRow, beenAddedRow, validNumCoord);
    r, colMarks := AppendExclusionPairs(addClauseCol, beenAddedCol, r);
    r := r + [addClauseRow];
    r := r + [addClauseCol];
  }

  lemma RowLitsDistinct(num: int, i: int, n: nat)
    ensures NoDuplicates(RowLits(num, i, n)) && NoDuplicates(ColLits(num, i, n))
  {
  }

  /** initial_looping: for each number, rule7 on every row and column, then one
      coverage clause per block. */
  method InitialLooping(validNumCoord: Formula<Atom>, fullList: seq<(int, int)>, boardDim: nat, s: nat)
    returns (r: Formula<Atom>)
    requires s * s == boardDim
    ensures r == validNumCoord + Coverage(boardDim, s, fullList)
  {
    r := validNumCoord;
    for num := 1 to boardDim + 1
      invariant r == validNumCoord + CoverageUpTo(num - 1, boardDim, s, fullList)
    {
      ghost var before := CoverageUpTo(num - 1, boardDim, s, fullList);
      r := AppendNumber(r, fullList, num, boardDim, s);
      AppendAssoc(validNumCoord, before, NumberClauses(num, boardDim, s, fullList));
    }
  }

  /** One round of the number loop of initial_looping. */
  method AppendNumber(validNumCoord: Formula<Atom>, fullList: seq<(int, int)>, num: int, boardDim: nat, s: nat)
    returns (r: Formula<Atom>)
    requires s * s == boardDim
    ensures r == validNumCoord + NumberClauses(num, boardDim, s, fullList)
  {
    r := AppendLines(validNumCoord, num, boardDim);
    r := AppendBlocks(r, fullList, num, boardDim, s);
    AppendAssoc(validNumCoord, LinesUpTo(num, boardDim, boardDim), BlocksUpTo(num, fullList, s, s));
  }

  /** The row loop of initial_looping for one number. */
  method AppendLines(validNumCoord: Formula<Atom>, num: int, boardDim: nat) returns (r: Formula<Atom>)
    ensures r == validNumCoord + LinesUpTo(num, boardDim, boardDim)
  {
    r := validNumCoord;
    for i := 0 to boardDim
      invariant r == validNumCoord + LinesUpTo(num, i, boardDim)
    {
      var addClauseRow: Clause<Atom> := [];
      var addClauseCol: Clause<Atom> := [];
      for j := 0 to boardDim
        invariant addClauseRow == RowLits(num, i, j) && addClauseCol == ColLits(num, i, j)
      {
        addClauseRow := addClauseRow + [Pos(num, i, j)];
        addClauseCol := addClauseCol + [Pos(num, j, i)];
      }
      RowLitsDistinct(num, i, boardDim);
      r := Rule7(addClauseRow, {}, addClauseCol, {}, r);
    }
  }

  /** The two subgrid loops of initial_looping for one number, stepping by s. */
  method AppendBlocks(validNumCoord: Formula<Atom>, fullList: seq<(int, int)>, num: int, boardDim: nat, s: nat)
    returns (r: Formula<Atom>)
    requires s * s == boardDim
    ensures r == validNumCoord + BlocksUpTo(num, fullList, s, s)
  {
    r := validNumCoord;
    var sub := 0;
    ghost var bi := 0;
    while sub < boardDim
      invariant bi <= s && sub == bi * s
      invariant r == validNumCoord + BlocksUpTo(num, fullList, bi, s)
      decreases boardDim - sub
    {
      BelowSquare(bi, s);
      r := AppendBand(r, fullList, num, boardDim, s, sub, bi);
      sub := sub + s;
      bi := bi + 1;
    }
    AtSquare(bi, s);
  }

  /** The inner subgrid loop: the blocks of block row bi, whose top row is sub. */
  method AppendBand(validNumCoord: Formula<Atom>, fullList: seq<(int, int)>, num: int, boardDim: nat, s: nat,
                    sub: int, ghost bi: nat)
    returns (r: Formula<Atom>)
    requires s * s == boardDim && sub == bi * s
    ensures r == validNumCoord + BandBlocks(num, fullList, bi, s, s)
  {
    r := validNumCoord;
    var sub2 := 0;
    ghost var bj := 0;
    while sub2 < boardDim
      invariant bj <= s && sub2 == bj * s
      invariant r == validNumCoord + BandBlocks(num, fullList, bi, bj, s)
      decreases boardDim - sub2
    {
      BelowSquare(bj, s);
      var addClauseSub := BlockClause(fullList, num, sub, sub2, s);
      r := r + [addClauseSub];
      sub2 := sub2 + s;
      bj := bj + 1;
    }
    AtSquare(bj, s);
  }

  /** The coordinate loop that collects one subgrid's literals. */
  method BlockClause(fullList: seq<(int, int)>, num: int, sub: int, sub2: int, s: nat) returns (addClauseSub: Clause<Atom>)
    ensures addClauseSub == BlockLits(num, fullList, sub, sub2, s)
  {
    addClauseSub := [];
    for k := 0 to |fullList|
      invariant addClauseSub == BlockLits(num, fullList[..k], sub, sub2, s)
    {
      assert fullList[..k + 1][..k] == fullList[..k];
      var (i, j) := fullList[k];
      if sub <= i < s + sub && sub2 <= j < s + sub2 {
        addClauseSub := addClauseSub + [Pos(num, i, j)];
      }
    }
    assert fullList[..|fullList|] == fullList;
  }

  lemma MulMono(a: nat, b: nat, s: nat)
    requires a <= b
    ensures a * s <= b * s
  {
  }

  /** A step count whose multiple of s is below s * s is below s. */
  lemma BelowSquare(b: nat, s: nat)
    requires b * s < s * s
    ensures b < s
  {
    if b >= s {
      MulMono(s, b, s);
      assert false;
    }
  }

  /** At most s steps whose multiple of s reaches s * s are exactly s steps. */
  lemma AtSquare(b: nat, s: nat)
    requires b <= s && b * s >= s * s
    ensures b == s
  {
    if b < s {
      MulMono(b + 1, s, s);
      assert false;
    }
  }

  /** sudoku_board_to_sat_formula: unit clauses for the filled cells, then
      initial_looping, then the per-cell clauses. */
  method SudokuBoardToSatFormula(sudokuBoard: Grid, s: nat) returns (validNumCoord: Formula<Atom>)
    requires s * s == |sudokuBoard| && FilledCellsOnGrid(sudokuBoard)
    ensures validNumCoord == Encoding(sudokuBoard, s)
  {
    var boardDim := |sudokuBoard|;
    var fullList := GenCellCoords(boardDim);
    CoordsDistinct(boardDim);
    CoordsHas(boardDim);
    validNumCoord := FilledUnits(sudokuBoard, fullList);
    validNumCoord := InitialLooping(validNumCoord, fullList, boardDim, s);
    validNumCoord := AppendCells(validNumCoord, fullList, boardDim);
  }

  /** Cell c of the board is non-zero. */
  predicate Filled(board: Grid, c: (int, int))
  {
    0 <= c.0 < |board| && 0 <= c.1 < |board[c.0]| && board[c.0][c.1] != 0
  }

  /** Every non-zero cell lies in the n x n grid, n = |board|: the condition
      under which coords_lst.remove never raises ValueError. */
  ghost predicate FilledCellsOnGrid(board: Grid)
  {
    forall c :: Filled(board, c) ==> c.1 < |board|
  }

  /** Cell c comes before (i, j) in the row-major walk of the board. */
  predicate VisitedBefore(c: (int, int), i: int, j: int)
  {
    c.0 < i || (c.0 == i && c.1 < j)
  }

  /** The first loop of sudoku_board_to_sat_formula: a unit clause per filled
      cell, and coords_lst loses the coordinates of the filled cells. Each
      remove finds its coordinate because every filled cell is listed in
      fullList and visited once. */
  method FilledUnits(sudokuBoard: Grid, fullList: seq<(int, int)>) returns (validNumCoord: Formula<Atom>)
    requires NoDuplicates(fullList) && forall c :: Filled(sudokuBoard, c) ==> c in fullList
    ensures validNumCoord == FilledClauses(sudokuBoard)
  {
    var coordsLst := fullList;
    validNumCoord := [];
    for i := 0 to |sudokuBoard|
      invariant validNumCoord == FilledUpTo(sudokuBoard, i)
      invariant NoDuplicates(coordsLst)
      invariant forall c :: c in coordsLst <==> c in fullList && !(Filled(sudokuBoard, c) && c.0 < i)
    {
      var row := sudokuBoard[i];
      for j := 0 to |row|
        invariant validNumCoord == FilledUpTo(sudokuBoard, i) + FilledInRow(row, i, j)
        invariant NoDuplicates(coordsLst)
        invariant forall c :: c in coordsLst <==> c in fullList && !(Filled(sudokuBoard, c) && VisitedBefore(c, i, j))
      {
        var val := row[j];
        if val != 0 {
          assert Filled(sudokuBoard, (i, j));
          coordsLst := RemoveFirst(coordsLst, (i, j));
          validNumCoord := validNumCoord + [[Pos(val, i, j)]];
        }
      }
    }
  }

  /** The last loop of sudoku_board_to_sat_formula: for each cell, the pairwise
      "not two numbers" clauses and the "some number" clause. */
  method AppendCells(validNumCoord: Formula<Atom>, fullList: seq<(int, int)>, boardDim: nat) returns (r: Formula<Atom>)
    requires NoDuplicates(fullList)
    ensures r == validNumCoord + CellsUpTo(fullList, |fullList|, boardDim)
  {
    r := validNumCoord;
    var curAdded: set<Mark<Atom>> := {};
    for k := 0 to |fullList|
      invariant r == validNumCoord + CellsUpTo(fullList, k, boardDim)
      invariant forall e :: e in curAdded ==> Opposite(e.0).0.1 in fullList[..k]
    {
      var (i, j) := fullList[k];
      var addClause := CellClause(i, j, boardDim);
      CellLitsFacts((i, j), boardDim);
      FreshCell(fullList, k, curAdded, addClause);
      ghost var previous := curAdded;
      r, curAdded := AppendExclusionPairs(addClause, curAdded, r);
      r := r + [addClause];
      forall e | e in curAdded ensures Opposite(e.0).0.1 in fullList[..k + 1] {
        assert fullList[..k + 1] == fullList[..k] + [(i, j)];
        if e !in previous {
          var t :| 0 <= t < |addClause| && addClause[t] == Opposite(e.0);
        }
      }
    }
  }

  /** The loop that lists the candidate numbers of cell (i, j). */
  method CellClause(i: int, j: int, boardDim: nat) returns (addClause: Clause<Atom>)
    ensures addClause == CellLits((i, j), boardDim)
  {
    addClause := [];
    for posVal := 1 to boardDim + 1
      invariant addClause == CellLits((i, j), posVal - 1)
    {
      addClause := addClause + [Pos(posVal, i, j)];
    }
  }

  lemma CellLitsFacts(c: (int, int), n: nat)
    ensures NoDuplicates(CellLits(c, n))
    ensures forall t :: 0 <= t < n ==> CellLits(c, n)[t].0.1 == c
  {
    var lits := CellLits(c, n);
    assert c == (c.0, c.1);
    forall x, y | 0 <= x < y < n ensures lits[x] != lits[y] {
      assert lits[x] == Pos(x + 1, c.0, c.1) && lits[y] == Pos(y + 1, c.0, c.1);
    }
    forall t | 0 <= t < n ensures lits[t].0.1 == c {
      assert lits[t] == Pos(t + 1, c.0, c.1);
    }
  }

  /** The marks recorded for earlier cells never concern the literals of a later cell. */
  lemma FreshCell(fullList: seq<(int, int)>, k: nat, curAdded: set<Mark<Atom>>, lits: Clause<Atom>)
    requires k < |fullList| && NoDuplicates(fullList)
    requires forall e :: e in curAdded ==> Opposite(e.0).0.1 in fullList[..k]
    requires NoDuplicates(lits) && forall t :: 0 <= t < |lits| ==> lits[t].0.1 == fullList[k]
    ensures Unmarked(lits, curAdded)
  {
    forall p, q | 0 <= p < |lits| && 0 <= q < |lits|
      ensures (Opposite(lits[p]), Opposite(lits[q])) !in curAdded
    {
      assert Opposite(Opposite(lits[p])).0.1 == fullList[k];
    }
  }

  /** gen_cell_coords lists no coordinate twice. */
  lemma {:induction false} CoordsDistinct(n: nat)
    ensures NoDuplicates(GenCellCoords(n))
  {
    CoordsBelowDistinct(n, n);
  }

  /** gen_cell_coords lists every coordinate of the n x n grid. */
  lemma CoordsHas(n: nat)
    ensures forall c: (int, int) :: 0 <= c.0 < n && 0 <= c.1 < n ==> c in GenCellCoords(n)
  {
    forall c: (int, int) | 0 <= c.0 < n && 0 <= c.1 < n ensures c in GenCellCoords(n) {
      CoordsBelowHas(n, n, c);
    }
  }

  lemma {:induction false} CoordsBelowHas(k: nat, n: nat, c: (int, int))
    requires 0 <= c.0 < k && 0 <= c.1 < n
    ensures c in CoordsBelow(k, n)
  {
    if c.0 == k - 1 {
      assert RowCoords(k - 1, n)[c.1] == c;
    } else {
      CoordsBelowHas(k - 1, n, c);
    }
  }

  lemma {:induction false} CoordsBelowDistinct(k: nat, n: nat)
    ensures NoDuplicates(CoordsBelow(k, n))
    ensures forall c :: c in CoordsBelow(k, n) ==> 0 <= c.0 < k
  {
    if k > 0 {
      CoordsBelowDistinct(k - 1, n);
      var b, w := CoordsBelow(k - 1, n), RowCoords(k - 1, n);
      assert CoordsBelow(k, n) == b + w;
      forall i, j | 0 <= i < j < |b + w| ensures (b + w)[i] != (b + w)[j] {
        if i < |b| && j >= |b| {
          assert b[i] in b;
        }
      }
    }
  }
}
