/** The meaning of the encoding: the assignment read off a valid completed
    board that agrees with the puzzle's filled cells satisfies every clause
    sudoku_board_to_sat_formula emits, so the formula of a solvable puzzle is
    satisfiable. */
module EncodingSound {
  import opened Cnf
  import opened Pairs
  import opened Encoder
  import opened EncoderProofs
  import opened Board

  /** Every atom of an n x n board. */
  function AtomsOf(n: nat): set<Atom>
  {
    set v, c | 1 <= v <= n && c in GenCellCoords(n) :: (v, c)
  }

  /** The assignment a board induces: (v, c) is true exactly when c holds v. */
  function Induced(g: Grid, n: nat): Assignment<Atom>
  {
    map a | a in AtomsOf(n) :: Has(g, a.0, a.1)
  }

  lemma InducedLit(g: Grid, n: nat, v: int, i: int, j: int)
    requires IsGrid(g, n) && 1 <= v <= n && 0 <= i < n && 0 <= j < n
    ensures LitHolds(Induced(g, n), Pos(v, i, j)) <==> g[i][j] == v
    ensures LitHolds(Induced(g, n), Opposite(Pos(v, i, j))) <==> g[i][j] != v
  {
    GenCellCoordsSpec(n);
    assert (v, (i, j)) in AtomsOf(n);
  }

  lemma FilledHold(board: Grid, sol: Grid, s: nat)
    requires ValidSolution(sol, s) && Agrees(board, sol)
    ensures forall c :: c in FilledClauses(board) ==> ClauseHolds(Induced(sol, s * s), c)
  {
    forall c | c in FilledClauses(board) ensures ClauseHolds(Induced(sol, s * s), c) {
      FilledClausesSpec(board, c);
      var i, j :| 0 <= i < |board| && 0 <= j < |board[i]| && board[i][j] != 0 && c == [Pos(board[i][j], i, j)];
      InducedLit(sol, s * s, sol[i][j], i, j);
      assert c[0] in c;
    }
  }

  lemma RowHold(sol: Grid, s: nat, num: int, i: int)
    requires ValidSolution(sol, s) && 1 <= num <= s * s && 0 <= i < s * s
    ensures Satisfies(Induced(sol, s * s), PairClauses(RowLits(num, i, s * s)))
    ensures ClauseHolds(Induced(sol, s * s), RowLits(num, i, s * s))
  {
    var n := s * s;
    var m := Induced(sol, n);
    var row := RowLits(num, i, n);
    forall p | 0 <= p < n ensures row[p].0 in m {
      InducedLit(sol, n, num, i, p);
    }
    forall p, q | 0 <= p < q < n ensures !(LitHolds(m, row[p]) && LitHolds(m, row[q])) {
      InducedLit(sol, n, num, i, p);
      InducedLit(sol, n, num, i, q);
    }
    PairClausesHold(m, row);
    assert RowHas(sol, i, num);
    var j :| Has(sol, num, (i, j));
    InducedLit(sol, n, num, i, j);
    assert row[j] in row;
  }

  lemma ColumnHold(sol: Grid, s: nat, num: int, i: int)
    requires ValidSolution(sol, s) && 1 <= num <= s * s && 0 <= i < s * s
    ensures Satisfies(Induced(sol, s * s), PairClauses(ColLits(num, i, s * s)))
    ensures ClauseHolds(Induced(sol, s * s), ColLits(num, i, s * s))
  {
    var n := s * s;
    var m := Induced(sol, n);
    var col := ColLits(num, i, n);
    forall p | 0 <= p < n ensures col[p].0 in m {
      InducedLit(sol, n, num, p, i);
    }
    forall p, q | 0 <= p < q < n ensures !(LitHolds(m, col[p]) && LitHolds(m, col[q])) {
      InducedLit(sol, n, num, p, i);
      InducedLit(sol, n, num, q, i);
    }
    PairClausesHold(m, col);
    assert ColumnHas(sol, i, num);
    var k :| Has(sol, num, (k, i));
    InducedLit(sol, n, num, k, i);
    assert col[k] in col;
  }

  lemma LineHold(sol: Grid, s: nat, num: int, i: int)
    requires ValidSolution(sol, s) && 1 <= num <= s * s && 0 <= i < s * s
    ensures forall c :: c in LineClauses(num, i, s * s) ==> ClauseHolds(Induced(sol, s * s), c)
  {
    RowHold(sol, s, num, i);
    ColumnHold(sol, s, num, i);
  }

  lemma BlockHold(sol: Grid, s: nat, num: int, bi: nat, bj: nat)
    requires ValidSolution(sol, s) && 1 <= num <= s * s && bi < s && bj < s
    ensures ClauseHolds(Induced(sol, s * s), BlockLits(num, GenCellCoords(s * s), bi * s, bj * s, s))
  {
    var n := s * s;
    assert BlockHas(sol, s, bi, bj, num);
    var i, j :| bi * s <= i < bi * s + s && bj * s <= j < bj * s + s && Has(sol, num, (i, j));
    MulMono(bi + 1, s, s);
    MulMono(bj + 1, s, s);
    GenCellCoordsSpec(n);
    BlockLitsMember(num, GenCellCoords(n), bi * s, bj * s, s, Pos(num, i, j));
    InducedLit(sol, n, num, i, j);
  }

  lemma CoverageHold(sol: Grid, s: nat)
    requires ValidSolution(sol, s)
    ensures forall c :: c in Coverage(s * s, s, GenCellCoords(s * s)) ==> ClauseHolds(Induced(sol, s * s), c)
  {
    var n := s * s;
    var coords := GenCellCoords(n);
    forall c | c in Coverage(n, s, coords) ensures ClauseHolds(Induced(sol, n), c) {
      var num := CoverageWhich(n, n, s, coords, c);
      LinesMember(num, n, n, c);
      BlocksMember(num, coords, s, s, c);
      if c in LinesUpTo(num, n, n) {
        var i :| 0 <= i < n && c in LineClauses(num, i, n);
        LineHold(sol, s, num, i);
      } else {
        var bi, bj :| 0 <= bi < s && 0 <= bj < s && c == BlockLits(num, coords, bi * s, bj * s, s);
        BlockHold(sol, s, num, bi, bj);
      }
    }
  }

  lemma CellHold(sol: Grid, s: nat, i: int, j: int)
    requires ValidSolution(sol, s) && 0 <= i < s * s && 0 <= j < s * s
    ensures forall c :: c in CellClauses((i, j), s * s) ==> ClauseHolds(Induced(sol, s * s), c)
  {
    var n := s * s;
    var m := Induced(sol, n);
    var lits := CellLits((i, j), n);
    forall p | 0 <= p < n ensures lits[p].0 in m {
      InducedLit(sol, n, p + 1, i, j);
    }
    forall p, q | 0 <= p < q < n ensures !(LitHolds(m, lits[p]) && LitHolds(m, lits[q])) {
      InducedLit(sol, n, p + 1, i, j);
      InducedLit(sol, n, q + 1, i, j);
    }
    PairClausesHold(m, lits);
    var v := sol[i][j];
    InducedLit(sol, n, v, i, j);
    assert lits[v - 1] == Pos(v, i, j);
  }

  lemma CellsHold(sol: Grid, s: nat)
    requires ValidSolution(sol, s)
    ensures var coords := GenCellCoords(s * s);
      forall c :: c in CellsUpTo(coords, |coords|, s * s) ==> ClauseHolds(Induced(sol, s * s), c)
  {
    var n := s * s;
    var coords := GenCellCoords(n);
    GenCellCoordsSpec(n);
    forall c | c in CellsUpTo(coords, |coords|, n) ensures ClauseHolds(Induced(sol, n), c) {
      CellsMember(coords, |coords|, n, c);
      var t :| 0 <= t < |coords| && c in CellClauses(coords[t], n);
      assert coords[t] in coords;
      CellHold(sol, s, coords[t].0, coords[t].1);
    }
  }

  /** The assignment induced by any valid completed board that agrees with the
      filled cells satisfies every clause of the encoding. */
  lemma SolutionSatisfiesEncoding(board: Grid, sol: Grid, s: nat)
    requires |board| == s * s && ValidSolution(sol, s) && Agrees(board, sol)
    ensures Satisfies(Induced(sol, s * s), Encoding(board, s))
  {
    FilledHold(board, sol, s);
    CoverageHold(sol, s);
    CellsHold(sol, s);
  }

  /** So the encoding of a puzzle that has a solution is satisfiable. */
  lemma SolvableEncodingSatisfiable(board: Grid, sol: Grid, s: nat)
    requires |board| == s * s && ValidSolution(sol, s) && Agrees(board, sol)
    ensures Satisfiable(Encoding(board, s))
  {
    SolutionSatisfiesEncoding(board, sol, s);
  }
}
