/** The converse of EncodingSound: reading a board off any satisfying
    assignment of the encoding, as assignments_to_sudoku_board does, gives a
    valid completed board that keeps the puzzle's filled cells. Together with
    the search's soundness and completeness this means the whole pipeline
    solves exactly the solvable puzzles. */
module EncodingComplete {
  import opened Cnf
  import opened Pairs
  import opened Encoder
  import opened EncoderProofs
  import opened EncodingSound
  import opened Board
  import opened Solver

  // ---------------------------------------------------------------------------
  // Where the clauses sit in the encoding

  lemma LineInEncoding(board: Grid, s: nat, num: int, i: int, c: Clause<Atom>)
    requires |board| == s * s && 1 <= num <= |board| && 0 <= i < |board| && c in LineClauses(num, i, |board|)
    ensures c in Encoding(board, s)
  {
    var n := |board|;
    var coords := GenCellCoords(n);
    LinesMember(num, n, n, c);
    assert c in NumberClauses(num, n, s, coords);
    CoverageHas(n, n, s, coords, num, c);
    EncodingParts(board, s, c);
  }

  lemma BlockInEncoding(board: Grid, s: nat, num: int, bi: nat, bj: nat)
    requires |board| == s * s && 1 <= num <= |board| && bi < s && bj < s
    ensures BlockLits(num, GenCellCoords(|board|), bi * s, bj * s, s) in Encoding(board, s)
  {
    var n := |board|;
    var c := BlockLits(num, GenCellCoords(n), bi * s, bj * s, s);
    BlocksMember(num, GenCellCoords(n), s, s, c);
    assert 0 <= bi < s && 0 <= bj < s && c == BlockLits(num, GenCellCoords(n), bi * s, bj * s, s);
    assert c in NumberClauses(num, n, s, GenCellCoords(n));
    CoverageHas(n, n, s, GenCellCoords(n), num, c);
    EncodingParts(board, s, c);
  }

  lemma CellInEncoding(board: Grid, s: nat, i: int, j: int, c: Clause<Atom>)
    requires |board| == s * s && 0 <= i < |board| && 0 <= j < |board| && c in CellClauses((i, j), |board|)
    ensures c in Encoding(board, s)
  {
    var n := |board|;
    var coords := GenCellCoords(n);
    GenCellCoordsSpec(n);
    var t :| 0 <= t < |coords| && coords[t] == (i, j);
    CellsMember(coords, |coords|, n, c);
    EncodingParts(board, s, c);
  }

  // ---------------------------------------------------------------------------
  // What a satisfying assignment says about each cell

  /** The cell clauses of the n x n board hold under m. */
  ghost predicate CellsMet(m: Assignment<Atom>, n: nat)
  {
    forall i, j :: 0 <= i < n && 0 <= j < n ==> Satisfies(m, CellClauses((i, j), n))
  }

  /** The row and column clauses of every number hold under m. */
  ghost predicate LinesMet(m: Assignment<Atom>, n: nat)
  {
    forall num, i :: 1 <= num <= n && 0 <= i < n ==> Satisfies(m, LineClauses(num, i, n))
  }

  /** The block clause of every number and block holds under m. */
  ghost predicate BlocksMet(m: Assignment<Atom>, s: nat)
  {
    forall num, bi: nat, bj: nat :: 1 <= num <= s * s && bi < s && bj < s ==>
      ClauseHolds(m, BlockLits(num, GenCellCoords(s * s), bi * s, bj * s, s))
  }

  /** The unit clause of every filled cell holds under m. */
  ghost predicate FilledMet(m: Assignment<Atom>, board: Grid)
  {
    forall i, j :: 0 <= i < |board| && 0 <= j < |board[i]| && board[i][j] != 0 ==>
      ClauseHolds(m, [Pos(board[i][j], i, j)])
  }

  /** A satisfying assignment of the encoding meets each kind of clause. */
  lemma EncodingMeetsParts(board: Grid, s: nat, m: Assignment<Atom>)
    requires |board| == s * s && Satisfies(m, Encoding(board, s))
    ensures CellsMet(m, |board|) && LinesMet(m, |board|) && BlocksMet(m, s) && FilledMet(m, board)
  {
    var n := |board|;
    forall i, j | 0 <= i < n && 0 <= j < n ensures Satisfies(m, CellClauses((i, j), n)) {
      forall c | c in CellClauses((i, j), n) ensures ClauseHolds(m, c) {
        CellInEncoding(board, s, i, j, c);
      }
    }
    forall num, i | 1 <= num <= n && 0 <= i < n ensures Satisfies(m, LineClauses(num, i, n)) {
      forall c | c in LineClauses(num, i, n) ensures ClauseHolds(m, c) {
        LineInEncoding(board, s, num, i, c);
      }
    }
    forall num, bi: nat, bj: nat | 1 <= num <= n && bi < s && bj < s
      ensures ClauseHolds(m, BlockLits(num, GenCellCoords(n), bi * s, bj * s, s))
    {
      BlockInEncoding(board, s, num, bi, bj);
    }
    forall i, j | 0 <= i < n && 0 <= j < |board[i]| && board[i][j] != 0
      ensures ClauseHolds(m, [Pos(board[i][j], i, j)])
    {
      FilledClausesSpec(board, [Pos(board[i][j], i, j)]);
      EncodingParts(board, s, [Pos(board[i][j], i, j)]);
    }
  }

  /** Every cell of g holds a number 1 .. n, the only number whose atom m sets
      to true at that cell. */
  ghost predicate CellsRead(m: Assignment<Atom>, g: Grid, n: nat)
  {
    IsGrid(g, n) &&
    forall i, j :: 0 <= i < n && 0 <= j < n ==>
      1 <= g[i][j] <= n && TrueAt(m, g[i][j], (i, j)) && forall v :: TrueAt(m, v, (i, j)) ==> v == g[i][j]
  }

  /** The cell clauses of (i, j) make exactly one of its atoms true, and the
      decoder writes that number into the cell. */
  lemma CellValue(m: Assignment<Atom>, g: Grid, n: nat, i: int, j: int)
    requires 0 <= i < |g| && 0 <= j < |g[i]|
    requires Satisfies(m, CellClauses((i, j), n))
    requires forall v :: TrueAt(m, v, (i, j)) ==> 1 <= v <= n
    requires (exists v :: TrueAt(m, v, (i, j))) ==> TrueAt(m, g[i][j], (i, j))
    ensures 1 <= g[i][j] <= n && TrueAt(m, g[i][j], (i, j))
    ensures forall v :: TrueAt(m, v, (i, j)) ==> v == g[i][j]
  {
    var lits := CellLits((i, j), n);
    assert lits in CellClauses((i, j), n);
    var l :| l in lits && LitHolds(m, l);
    var k :| 0 <= k < n && lits[k] == l;
    assert l == Pos(k + 1, i, j);
    assert TrueAt(m, k + 1, (i, j));
    PairClausesHold(m, lits);
    forall v | TrueAt(m, v, (i, j)) ensures v == g[i][j] {
      var w := g[i][j];
      assert lits[v - 1] == Pos(v, i, j) && lits[w - 1] == Pos(w, i, j);
    }
  }

  lemma ReadCells(m: Assignment<Atom>, g: Grid, n: nat)
    requires CellsMet(m, n) && (forall a :: a in m ==> OnBoard(a, n)) && DecodedFrom(m, g, n)
    ensures CellsRead(m, g, n)
  {
    forall i, j | 0 <= i < n && 0 <= j < n
      ensures 1 <= g[i][j] <= n && TrueAt(m, g[i][j], (i, j)) && forall v :: TrueAt(m, v, (i, j)) ==> v == g[i][j]
    {
      forall v | TrueAt(m, v, (i, j)) ensures 1 <= v <= n {
        assert OnBoard((v, (i, j)), n);
      }
      CellValue(m, g, n, i, j);
    }
  }

  lemma ReadLineCovers(m: Assignment<Atom>, g: Grid, n: nat, v: int, i: int)
    requires CellsRead(m, g, n) && LinesMet(m, n) && 1 <= v <= n && 0 <= i < n
    ensures RowHas(g, i, v) && ColumnHas(g, i, v)
  {
    var row, col := RowLits(v, i, n), ColLits(v, i, n);
    assert Satisfies(m, LineClauses(v, i, n));
    assert row in LineClauses(v, i, n) && col in LineClauses(v, i, n);
    var l :| l in row && LitHolds(m, l);
    var j :| 0 <= j < n && row[j] == l;
    assert TrueAt(m, v, (i, j));
    assert Has(g, v, (i, j));
    var l' :| l' in col && LitHolds(m, l');
    var k :| 0 <= k < n && col[k] == l';
    assert TrueAt(m, v, (k, i));
    assert Has(g, v, (k, i));
  }

  lemma ReadLinesCover(m: Assignment<Atom>, g: Grid, n: nat)
    requires CellsRead(m, g, n) && LinesMet(m, n)
    ensures LinesCover(g, n)
  {
    forall v, i | 1 <= v <= n && 0 <= i < n ensures RowHas(g, i, v) && ColumnHas(g, i, v) {
      ReadLineCovers(m, g, n, v, i);
    }
  }

  lemma ReadRowDistinct(m: Assignment<Atom>, g: Grid, n: nat, i: int, j1: int, j2: int)
    requires CellsRead(m, g, n) && LinesMet(m, n) && 0 <= i < n && 0 <= j1 < j2 < n
    ensures g[i][j1] != g[i][j2] && g[j1][i] != g[j2][i]
  {
    var row := RowLits(g[i][j1], i, n);
    assert Satisfies(m, LineClauses(g[i][j1], i, n));
    PairClausesHold(m, row);
    assert !(LitHolds(m, row[j1]) && LitHolds(m, row[j2]));
    var col := ColLits(g[j1][i], i, n);
    assert Satisfies(m, LineClauses(g[j1][i], i, n));
    PairClausesHold(m, col);
    assert !(LitHolds(m, col[j1]) && LitHolds(m, col[j2]));
  }

  lemma ReadLinesDistinct(m: Assignment<Atom>, g: Grid, n: nat)
    requires CellsRead(m, g, n) && LinesMet(m, n)
    ensures LinesDistinct(g, n)
  {
    forall i, j1, j2 | 0 <= i < n && 0 <= j1 < j2 < n ensures g[i][j1] != g[i][j2] {
      ReadRowDistinct(m, g, n, i, j1, j2);
    }
    forall i1, i2, j | 0 <= i1 < i2 < n && 0 <= j < n ensures g[i1][j] != g[i2][j] {
      ReadRowDistinct(m, g, n, j, i1, i2);
    }
  }

  lemma ReadBlockCovers(m: Assignment<Atom>, g: Grid, s: nat, v: int, bi: nat, bj: nat)
    requires CellsRead(m, g, s * s) && BlocksMet(m, s) && 1 <= v <= s * s && bi < s && bj < s
    ensures BlockHas(g, s, bi, bj, v)
  {
    var n := s * s;
    var coords := GenCellCoords(n);
    var c := BlockLits(v, coords, bi * s, bj * s, s);
    assert ClauseHolds(m, c);
    var l :| l in c && LitHolds(m, l);
    BlockLitsMember(v, coords, bi * s, bj * s, s, l);
    var d :| d in coords && bi * s <= d.0 < s + bi * s && bj * s <= d.1 < s + bj * s && l == Pos(v, d.0, d.1);
    GenCellCoordsSpec(n);
    assert TrueAt(m, v, (d.0, d.1));
    assert Has(g, v, (d.0, d.1));
  }

  lemma ReadBlocksCover(m: Assignment<Atom>, g: Grid, s: nat)
    requires CellsRead(m, g, s * s) && BlocksMet(m, s)
    ensures BlocksCover(g, s)
  {
    forall v, bi, bj | 1 <= v <= s * s && 0 <= bi < s && 0 <= bj < s ensures BlockHas(g, s, bi, bj, v) {
      ReadBlockCovers(m, g, s, v, bi, bj);
    }
  }

  lemma ReadAgrees(board: Grid, m: Assignment<Atom>, g: Grid)
    requires IsGrid(board, |board|) && CellsRead(m, g, |board|) && FilledMet(m, board)
    ensures Agrees(board, g)
  {
    forall i, j | 0 <= i < |board| && 0 <= j < |board[i]| && board[i][j] != 0
      ensures j < |g[i]| && g[i][j] == board[i][j]
    {
      var c := [Pos(board[i][j], i, j)];
      assert ClauseHolds(m, c);
      var l :| l in c && LitHolds(m, l);
      assert TrueAt(m, board[i][j], (i, j));
    }
  }

  // ---------------------------------------------------------------------------
  // Blocks: a block of n cells showing all n numbers shows each once

  /** The value of cell c of g, 0 off the board. */
  function Val(g: Grid, c: (int, int)): int
  {
    if 0 <= c.0 < |g| && 0 <= c.1 < |g[c.0]| then g[c.0][c.1] else 0
  }

  function Image(g: Grid, cells: set<(int, int)>): set<int>
  {
    set c | c in cells :: Val(g, c)
  }

  lemma ImageCard(g: Grid, cells: set<(int, int)>)
    ensures |Image(g, cells)| <= |cells|
  {
    if cells != {} {
      var e :| e in cells;
      ImageCard(g, cells - {e});
      assert Image(g, cells) == Image(g, cells - {e}) + {Val(g, e)};
    }
  }

  lemma NumberRangeCard(n: nat)
    ensures |NumberRange(n)| == n
  {
    if n > 0 {
      NumberRangeCard(n - 1);
      assert n !in NumberRange(n - 1);
    }
  }

  /** If n cells show all of 1 .. n, no two of them show the same number. */
  lemma Pigeonhole(g: Grid, cells: set<(int, int)>, n: nat, c1: (int, int), c2: (int, int))
    requires |cells| == n && NumberRange(n) <= Image(g, cells)
    requires c1 in cells && c2 in cells && c1 != c2
    ensures Val(g, c1) != Val(g, c2)
  {
    if Val(g, c1) == Val(g, c2) {
      assert Image(g, cells) <= Image(g, cells - {c2}) by {
        forall x | x in Image(g, cells) ensures x in Image(g, cells - {c2}) {
          var c :| c in cells && Val(g, c) == x;
          if c == c2 {
            assert c1 in cells - {c2};
          }
        }
      }
      ImageCard(g, cells - {c2});
      NumberRangeCard(n);
      SubsetCard(NumberRange(n), Image(g, cells - {c2}));
      assert false;
    }
  }

  /** The cells (i, c0) .. (i, c0 + w - 1). */
  function RowCells(i: int, c0: int, w: nat): set<(int, int)>
  {
    if w == 0 then {} else RowCells(i, c0, w - 1) + {(i, c0 + w - 1)}
  }

  /** The cells of the h x w rectangle whose top-left corner is (r0, c0). */
  function Rect(r0: int, c0: int, h: nat, w: nat): set<(int, int)>
  {
    if h == 0 then {} else Rect(r0, c0, h - 1, w) + RowCells(r0 + h - 1, c0, w)
  }

  lemma {:induction false} RowCellsMember(i: int, c0: int, w: nat)
    ensures forall c :: c in RowCells(i, c0, w) <==> c.0 == i && c0 <= c.1 < c0 + w
  {
    if w > 0 {
      RowCellsMember(i, c0, w - 1);
    }
  }

  lemma {:induction false} RowCellsCard(i: int, c0: int, w: nat)
    ensures |RowCells(i, c0, w)| == w
  {
    if w > 0 {
      RowCellsCard(i, c0, w - 1);
      assert (i, c0 + w - 1) !in RowCells(i, c0, w - 1) by {
        RowCellsMember(i, c0, w - 1);
      }
    }
  }

  lemma {:induction false} RectMember(r0: int, c0: int, h: nat, w: nat)
    ensures forall c :: c in Rect(r0, c0, h, w) <==> r0 <= c.0 < r0 + h && c0 <= c.1 < c0 + w
  {
    if h > 0 {
      RectMember(r0, c0, h - 1, w);
      RowCellsMember(r0 + h - 1, c0, w);
    }
  }

  lemma {:induction false} RectCard(r0: int, c0: int, h: nat, w: nat)
    ensures |Rect(r0, c0, h, w)| == h * w
  {
    if h > 0 {
      RectCard(r0, c0, h - 1, w);
      RowCellsCard(r0 + h - 1, c0, w);
      var top := Rect(r0, c0, h - 1, w);
      LastRowApart(r0, c0, h - 1, w);
      assert Rect(r0, c0, h, w) == top + RowCells(r0 + (h - 1), c0, w);
      assert |Rect(r0, c0, h, w)| == |top| + w;
      assert h * w == (h - 1) * w + w;
    }
  }

  /** The row below a rectangle shares no cell with it. */
  lemma LastRowApart(r0: int, c0: int, h: nat, w: nat)
    ensures |Rect(r0, c0, h, w) + RowCells(r0 + h, c0, w)| == |Rect(r0, c0, h, w)| + w
  {
    var top, row := Rect(r0, c0, h, w), RowCells(r0 + h, c0, w);
    RowCellsCard(r0 + h, c0, w);
    assert top !! row by {
      RectMember(r0, c0, h, w);
      RowCellsMember(r0 + h, c0, w);
      forall c | c in row ensures c !in top {
        assert c.0 == r0 + h;
      }
    }
  }

  /** Cell coordinate i of the (s*s) x (s*s) board lies in band i / s. */
  lemma InBlock(i: int, s: nat)
    requires s > 0 && 0 <= i < s * s
    ensures 0 <= i / s < s && i / s * s <= i < i / s * s + s
  {
    BelowSquare(i / s, s);
  }

  /** The cells of a block that holds every number show all of 1 .. s*s. */
  lemma BlockImage(g: Grid, s: nat, bi: nat, bj: nat)
    requires BlocksCover(g, s) && bi < s && bj < s
    ensures NumberRange(s * s) <= Image(g, Rect(bi * s, bj * s, s, s))
  {
    var cells := Rect(bi * s, bj * s, s, s);
    RectMember(bi * s, bj * s, s, s);
    forall v | v in NumberRange(s * s) ensures v in Image(g, cells) {
      assert BlockHas(g, s, bi, bj, v);
      var i, j :| bi * s <= i < bi * s + s && bj * s <= j < bj * s + s && Has(g, v, (i, j));
      assert (i, j) in cells && Val(g, (i, j)) == v;
    }
  }

  lemma BlockDistinct(g: Grid, s: nat, i1: int, j1: int, i2: int, j2: int)
    requires IsGrid(g, s * s) && BlocksCover(g, s)
    requires 0 <= i1 < s * s && 0 <= j1 < s * s && 0 <= i2 < s * s && 0 <= j2 < s * s
    requires (i1, j1) != (i2, j2) && i1 / s == i2 / s && j1 / s == j2 / s
    ensures g[i1][j1] != g[i2][j2]
  {
    var n := s * s;
    assert s > 0;
    var bi, bj := i1 / s, j1 / s;
    InBlock(i1, s);
    InBlock(i2, s);
    InBlock(j1, s);
    InBlock(j2, s);
    var r0, c0 := bi * s, bj * s;
    var cells := Rect(r0, c0, s, s);
    RectMember(r0, c0, s, s);
    RectCard(r0, c0, s, s);
    BlockImage(g, s, bi, bj);
    assert (i1, j1) in cells && (i2, j2) in cells;
    Pigeonhole(g, cells, n, (i1, j1), (i2, j2));
  }

  /** A board whose every block holds every number holds each number once per
      block. */
  lemma BlocksCoverDistinct(g: Grid, s: nat)
    requires IsGrid(g, s * s) && BlocksCover(g, s)
    ensures BlocksDistinct(g, s)
  {
    var n := s * s;
    forall i1, j1, i2, j2 |
      0 <= i1 < n && 0 <= j1 < n && 0 <= i2 < n && 0 <= j2 < n
      && (i1, j1) != (i2, j2) && i1 / s == i2 / s && j1 / s == j2 / s
      ensures g[i1][j1] != g[i2][j2]
    {
      BlockDistinct(g, s, i1, j1, i2, j2);
    }
  }

  /** Any board read off a satisfying assignment of the encoding is a valid
      completed board that keeps every filled cell of the puzzle. */
  lemma SatisfyingAssignmentSolves(board: Grid, s: nat, m: Assignment<Atom>, g: Grid)
    requires |board| == s * s && IsGrid(board, |board|)
    requires Satisfies(m, Encoding(board, s)) && (forall a :: a in m ==> OnBoard(a, |board|))
    requires DecodedFrom(m, g, |board|)
    ensures ValidSolution(g, s) && Agrees(board, g)
  {
    var n := |board|;
    EncodingMeetsParts(board, s, m);
    ReadCells(m, g, n);
    ReadLinesDistinct(m, g, n);
    ReadLinesCover(m, g, n);
    ReadBlocksCover(m, g, s);
    BlocksCoverDistinct(g, s);
    ReadAgrees(board, m, g);
  }

  /** An assignment over the atoms of the encoding binds atoms of the board
      only, whenever the puzzle's cells hold 0 .. n. */
  lemma SearchResultOnBoard(board: Grid, s: nat, m: Assignment<Atom>)
    requires |board| == s * s && IsGrid(board, |board|) && CellValuesInRange(board, |board|)
    requires m.Keys <= Atoms(Encoding(board, s))
    ensures forall a :: a in m ==> OnBoard(a, |board|)
    ensures TrueAtomsOnBoard(m, |board|)
  {
    EncodingAtoms(board, s);
    forall a | a in m ensures OnBoard(a, |board|) {
      var c, l :| c in Encoding(board, s) && l in c && l.0 == a;
    }
  }

  // ---------------------------------------------------------------------------
  // Round trip of the induced assignment

  /** A valid board's own atoms are on the board. */
  lemma InducedOnBoard(sol: Grid, n: nat)
    ensures forall a :: a in Induced(sol, n) ==> OnBoard(a, n)
    ensures TrueAtomsOnBoard(Induced(sol, n), n)
  {
    GenCellCoordsSpec(n);
  }

  /** Reading a board off the assignment a completed board induces gives that
      board back. */
  lemma DecodeInduced(sol: Grid, n: nat, g: Grid)
    requires IsGrid(sol, n) && InRange(sol, n) && DecodedFrom(Induced(sol, n), g, n)
    ensures g == sol
  {
    var m := Induced(sol, n);
    GenCellCoordsSpec(n);
    forall i, j | 0 <= i < n && 0 <= j < n ensures g[i][j] == sol[i][j] {
      assert (sol[i][j], (i, j)) in AtomsOf(n);
      assert TrueAt(m, sol[i][j], (i, j));
      assert TrueAt(m, g[i][j], (i, j));
    }
    forall i | 0 <= i < n ensures g[i] == sol[i] {
      assert forall j :: 0 <= j < n ==> g[i][j] == sol[i][j];
    }
  }
}
