/** What the clauses of sudoku_board_to_sat_formula mean: the coordinate list,
    the kinds of clause emitted and their counts, and the theorem that the
    assignment read off any valid completed board agreeing with the filled
    cells satisfies every clause. */
module EncoderProofs {
  import opened Cnf
  import opened Pairs
  import opened Encoder

  // ---------------------------------------------------------------------------
  // gen_cell_coords

  /** Row-major order on coordinates. */
  predicate RowMajorBefore(a: (int, int), b: (int, int))
  {
    a.0 < b.0 || (a.0 == b.0 && a.1 < b.1)
  }

  lemma {:induction false} CoordsBelowSpec(k: nat, n: nat)
    ensures |CoordsBelow(k, n)| == k * n
    ensures forall c :: c in CoordsBelow(k, n) <==> 0 <= c.0 < k && 0 <= c.1 < n
    ensures forall x, y :: 0 <= x < y < |CoordsBelow(k, n)| ==> RowMajorBefore(CoordsBelow(k, n)[x], CoordsBelow(k, n)[y])
  {
    if k > 0 {
      CoordsBelowSpec(k - 1, n);
      var b, w := CoordsBelow(k - 1, n), RowCoords(k - 1, n);
      assert CoordsBelow(k, n) == b + w;
      forall c ensures c in w <==> c.0 == k - 1 && 0 <= c.1 < n {
        if c.0 == k - 1 && 0 <= c.1 < n {
          assert w[c.1] == c;
        }
      }
      forall x, y | 0 <= x < y < |b + w| ensures RowMajorBefore((b + w)[x], (b + w)[y]) {
        if x < |b| && y >= |b| {
          assert b[x] in b;
        }
      }
    }
  }

  /** gen_cell_coords(n) lists every coordinate of the n x n grid once, in
      row-major order. */
  lemma GenCellCoordsSpec(n: nat)
    ensures |GenCellCoords(n)| == n * n
    ensures forall c :: c in GenCellCoords(n) <==> 0 <= c.0 < n && 0 <= c.1 < n
    ensures forall x, y :: 0 <= x < y < |GenCellCoords(n)| ==> RowMajorBefore(GenCellCoords(n)[x], GenCellCoords(n)[y])
  {
    CoordsBelowSpec(n, n);
  }

  /** coords_lst.remove((i, j)) at a filled cell finds its coordinate for
      every filled cell exactly when the filled cells lie in the n x n grid;
      otherwise the source raises ValueError at the first one outside it. */
  lemma FilledCellsListed(board: Grid)
    ensures FilledCellsOnGrid(board) <==> forall c :: Filled(board, c) ==> c in GenCellCoords(|board|)
  {
    GenCellCoordsSpec(|board|);
  }

  // ---------------------------------------------------------------------------
  // Where each clause comes from

  /** The encoding is the filled-cell clauses, then the coverage clauses of
      initial_looping, then the per-cell clauses. */
  lemma EncodingParts(board: Grid, s: nat, c: Clause<Atom>)
    ensures var n := |board|; var coords := GenCellCoords(n);
      c in Encoding(board, s) <==>
        c in FilledClauses(board) || c in Coverage(n, s, coords) || c in CellsUpTo(coords, |coords|, n)
  {
  }

  lemma {:induction false} LinesMember(num: int, k: nat, n: nat, c: Clause<Atom>)
    ensures c in LinesUpTo(num, k, n) <==> exists i :: 0 <= i < k && c in LineClauses(num, i, n)
  {
    if k > 0 {
      LinesMember(num, k - 1, n, c);
      if c in LineClauses(num, k - 1, n) {
        assert c in LinesUpTo(num, k, n);
      }
    }
  }

  lemma {:induction false} BandMember(num: int, coords: seq<(int, int)>, bi: nat, k: nat, s: nat, c: Clause<Atom>)
    ensures c in BandBlocks(num, coords, bi, k, s) <==> exists bj :: 0 <= bj < k && c == BlockLits(num, coords, bi * s, bj * s, s)
  {
    if k > 0 {
      BandMember(num, coords, bi, k - 1, s, c);
      var last := BlockLits(num, coords, bi * s, (k - 1) * s, s);
      assert BandBlocks(num, coords, bi, k, s) == BandBlocks(num, coords, bi, k - 1, s) + [last];
      if c == last {
        assert 0 <= k - 1 < k && c == BlockLits(num, coords, bi * s, (k - 1) * s, s);
      }
    }
  }

  lemma {:induction false} BlocksMember(num: int, coords: seq<(int, int)>, k: nat, s: nat, c: Clause<Atom>)
    ensures c in BlocksUpTo(num, coords, k, s) <==>
      exists bi, bj :: 0 <= bi < k && 0 <= bj < s && c == BlockLits(num, coords, bi * s, bj * s, s)
  {
    if k > 0 {
      BlocksMember(num, coords, k - 1, s, c);
      BandMember(num, coords, k - 1, s, s, c);
      if c in BandBlocks(num, coords, k - 1, s, s) {
        var bj :| 0 <= bj < s && c == BlockLits(num, coords, (k - 1) * s, bj * s, s);
        assert 0 <= k - 1 < k && c == BlockLits(num, coords, (k - 1) * s, bj * s, s);
      }
    }
  }

  /** parts(1) + ... + parts(k). */
  function Flatten(parts: int -> Formula<Atom>, k: nat): Formula<Atom>
  {
    if k == 0 then [] else Flatten(parts, k - 1) + parts(k)
  }

  lemma {:induction false} FlattenHas(parts: int -> Formula<Atom>, k: nat, num: int, c: Clause<Atom>)
    requires 1 <= num <= k && c in parts(num)
    ensures c in Flatten(parts, k)
  {
    if num < k {
      FlattenHas(parts, k - 1, num, c);
    }
  }

  lemma {:induction false} FlattenWhich(parts: int -> Formula<Atom>, k: nat, c: Clause<Atom>) returns (num: int)
    requires c in Flatten(parts, k)
    ensures 1 <= num <= k && c in parts(num)
  {
    if c in parts(k) {
      num := k;
    } else {
      num := FlattenWhich(parts, k - 1, c);
    }
  }

  /** The clauses of every number, as a function of the number. */
  function NumberParts(n: nat, s: nat, coords: seq<(int, int)>): int -> Formula<Atom>
  {
    num => NumberClauses(num, n, s, coords)
  }

  lemma {:induction false} CoverageFlatten(k: nat, n: nat, s: nat, coords: seq<(int, int)>)
    ensures CoverageUpTo(k, n, s, coords) == Flatten(NumberParts(n, s, coords), k)
  {
    if k > 0 {
      CoverageFlatten(k - 1, n, s, coords);
    }
  }

  /** The clauses of number num are among those of numbers 1 .. k. */
  lemma CoverageHas(k: nat, n: nat, s: nat, coords: seq<(int, int)>, num: int, c: Clause<Atom>)
    requires 1 <= num <= k && c in NumberClauses(num, n, s, coords)
    ensures c in CoverageUpTo(k, n, s, coords)
  {
    CoverageFlatten(k, n, s, coords);
    FlattenHas(NumberParts(n, s, coords), k, num, c);
  }

  /** Every clause of numbers 1 .. k belongs to one of these numbers. */
  lemma CoverageWhich(k: nat, n: nat, s: nat, coords: seq<(int, int)>, c: Clause<Atom>)
    returns (num: int)
    requires c in CoverageUpTo(k, n, s, coords)
    ensures 1 <= num <= k && c in NumberClauses(num, n, s, coords)
  {
    CoverageFlatten(k, n, s, coords);
    num := FlattenWhich(NumberParts(n, s, coords), k, c);
  }

  lemma {:induction false} CellsMember(coords: seq<(int, int)>, k: nat, n: nat, c: Clause<Atom>)
    requires k <= |coords|
    ensures c in CellsUpTo(coords, k, n) <==> exists t :: 0 <= t < k && c in CellClauses(coords[t], n)
  {
    if k > 0 {
      CellsMember(coords, k - 1, n, c);
    }
  }

  lemma {:induction false} FilledInRowMember(row: seq<int>, i: int, j: nat, c: Clause<Atom>)
    requires j <= |row|
    ensures c in FilledInRow(row, i, j) <==> exists x :: 0 <= x < j && row[x] != 0 && c == [Pos(row[x], i, x)]
  {
    if j > 0 {
      FilledInRowMember(row, i, j - 1, c);
    }
  }

  lemma {:induction false} FilledMember(board: Grid, k: nat, c: Clause<Atom>)
    requires k <= |board|
    ensures c in FilledUpTo(board, k) <==>
      exists i, j :: 0 <= i < k && 0 <= j < |board[i]| && board[i][j] != 0 && c == [Pos(board[i][j], i, j)]
  {
    if k > 0 {
      FilledMember(board, k - 1, c);
      FilledInRowMember(board[k - 1], k - 1, |board[k - 1]|, c);
      if c in FilledInRow(board[k - 1], k - 1, |board[k - 1]|) {
        var x :| 0 <= x < |board[k - 1]| && board[k - 1][x] != 0 && c == [Pos(board[k - 1][x], k - 1, x)];
        assert 0 <= k - 1 < k && 0 <= x < |board[k - 1]|;
      }
    }
  }

  /** The filled-cell clauses: exactly one positive unit clause per filled cell. */
  lemma FilledClausesSpec(board: Grid, c: Clause<Atom>)
    ensures c in FilledClauses(board) <==>
      exists i, j :: 0 <= i < |board| && 0 <= j < |board[i]| && board[i][j] != 0 && c == [Pos(board[i][j], i, j)]
  {
    FilledMember(board, |board|, c);
  }

  // ---------------------------------------------------------------------------
  // Subgrid clauses

  /** A subgrid clause holds the literal for num at exactly the listed
      coordinates inside the block. */
  lemma {:induction false} BlockLitsMember(num: int, coords: seq<(int, int)>, r0: int, c0: int, s: nat, l: Literal<Atom>)
    ensures l in BlockLits(num, coords, r0, c0, s) <==>
      exists c :: c in coords && r0 <= c.0 < s + r0 && c0 <= c.1 < s + c0 && l == Pos(num, c.0, c.1)
    decreases |coords|
  {
    if coords != [] {
      var p, c := coords[..|coords| - 1], coords[|coords| - 1];
      assert coords == p + [c];
      BlockLitsMember(num, p, r0, c0, s, l);
      forall d | d in p ensures d in coords {}
      if l == Pos(num, c.0, c.1) && r0 <= c.0 < s + r0 && c0 <= c.1 < s + c0 {
        assert l in BlockLits(num, coords, r0, c0, s);
      }
    }
  }

  lemma {:induction false} BlockLitsConcat(num: int, a: seq<(int, int)>, b: seq<(int, int)>, r0: int, c0: int, s: nat)
    ensures BlockLits(num, a + b, r0, c0, s) == BlockLits(num, a, r0, c0, s) + BlockLits(num, b, r0, c0, s)
    decreases |b|
  {
    if b == [] {
      assert a + b == a;
    } else {
      var p, c := b[..|b| - 1], b[|b| - 1];
      assert (a + b)[..|a + b| - 1] == a + p && (a + b)[|a + b| - 1] == c;
      BlockLitsConcat(num, a, p, r0, c0, s);
      var x := if r0 <= c.0 < s + r0 && c0 <= c.1 < s + c0 then [Pos(num, c.0, c.1)] else [];
      assert BlockLits(num, a + b, r0, c0, s) == BlockLits(num, a + p, r0, c0, s) + x;
      assert BlockLits(num, b, r0, c0, s) == BlockLits(num, p, r0, c0, s) + x;
    }
  }

  /** How many of 0 .. j - 1 fall in [c0, c0 + s). */
  function Overlap(j: int, c0: int, s: nat): nat
  {
    if j <= c0 then 0 else if j >= c0 + s then s else j - c0
  }

  lemma {:induction false} BlockLitsRow(num: int, r: int, j: nat, r0: int, c0: int, s: nat)
    requires 0 <= c0
    ensures |BlockLits(num, RowCoords(r, j), r0, c0, s)| == if r0 <= r < r0 + s then Overlap(j, c0, s) else 0
  {
    if j > 0 {
      assert RowCoords(r, j)[..j - 1] == RowCoords(r, j - 1);
      BlockLitsRow(num, r, j - 1, r0, c0, s);
    }
  }

  lemma {:induction false} BlockLitsRows(num: int, k: nat, n: nat, r0: int, c0: int, s: nat)
    requires 0 <= r0 && 0 <= c0 && c0 + s <= n
    ensures |BlockLits(num, CoordsBelow(k, n), r0, c0, s)| == s * Overlap(k, r0, s)
  {
    if k > 0 {
      BlockLitsRows(num, k - 1, n, r0, c0, s);
      BlockLitsConcat(num, CoordsBelow(k - 1, n), RowCoords(k - 1, n), r0, c0, s);
      BlockLitsRow(num, k - 1, n, r0, c0, s);
      assert Overlap(n, c0, s) == s;
      assert |BlockLits(num, CoordsBelow(k, n), r0, c0, s)| ==
        |BlockLits(num, CoordsBelow(k - 1, n), r0, c0, s)| + |BlockLits(num, RowCoords(k - 1, n), r0, c0, s)|;
      if r0 <= k - 1 < r0 + s {
        var o := Overlap(k - 1, r0, s);
        assert Overlap(k, r0, s) == o + 1;
        MulSucc(s, o);
      } else {
        assert Overlap(k, r0, s) == Overlap(k - 1, r0, s);
      }
    }
  }

  lemma MulSucc(s: int, o: int)
    ensures s * (o + 1) == s * o + s
  {
  }

  /** Each subgrid clause initial_looping emits has n literals. */
  lemma BlockSize(num: int, bi: nat, bj: nat, s: nat)
    requires bi < s && bj < s
    ensures |BlockLits(num, GenCellCoords(s * s), bi * s, bj * s, s)| == s * s
  {
    var n, r0, c0 := s * s, bi * s, bj * s;
    MulMono(bi + 1, s, s);
    MulMono(bj + 1, s, s);
    assert r0 + s <= n && c0 + s <= n;
    BlockLitsRows(num, n, n, r0, c0, s);
    assert Overlap(n, r0, s) == s;
  }

  // ---------------------------------------------------------------------------
  // Counts

  lemma {:induction false} LinesCount(num: int, k: nat, n: nat)
    ensures |LinesUpTo(num, k, n)| == k * (n * (n - 1) + 2)
  {
    if k > 0 {
      LinesCount(num, k - 1, n);
      PairClausesCount(RowLits(num, k - 1, n));
      PairClausesCount(ColLits(num, k - 1, n));
    }
  }

  lemma {:induction false} BlocksCount(num: int, coords: seq<(int, int)>, k: nat, s: nat)
    ensures |BlocksUpTo(num, coords, k, s)| == k * s
  {
    if k > 0 {
      BlocksCount(num, coords, k - 1, s);
      BandCount(num, coords, k - 1, s, s);
    }
  }

  lemma {:induction false} BandCount(num: int, coords: seq<(int, int)>, bi: nat, k: nat, s: nat)
    ensures |BandBlocks(num, coords, bi, k, s)| == k
  {
    if k > 0 {
      BandCount(num, coords, bi, k - 1, s);
    }
  }

  lemma {:induction false} CoverageCount(k: nat, n: nat, s: nat, coords: seq<(int, int)>)
    requires s * s == n
    ensures |CoverageUpTo(k, n, s, coords)| == k * (n * (n * (n - 1) + 2) + n)
  {
    if k > 0 {
      var per := n * (n * (n - 1) + 2) + n;
      CoverageCount(k - 1, n, s, coords);
      LinesCount(k, n, n);
      BlocksCount(k, coords, s, s);
      assert |NumberClauses(k, n, s, coords)| == per;
      assert (k - 1) * per + per == k * per;
    }
  }

  lemma {:induction false} CellsCount(coords: seq<(int, int)>, k: nat, n: nat)
    requires k <= |coords|
    ensures 2 * |CellsUpTo(coords, k, n)| == k * (n * (n - 1) + 2)
  {
    if k > 0 {
      CellsCount(coords, k - 1, n);
      PairClausesCount(CellLits(coords[k - 1], n));
    }
  }

  /** The encoding of an n x n board has one clause per filled cell, then for
      each of the n numbers n row and n column coverage clauses with n(n-1)
      pair clauses each and n subgrid clauses, then for each of the n * n cells
      one coverage clause and n(n-1)/2 pair clauses. */
  lemma EncodingCount(board: Grid, s: nat)
    requires s * s == |board|
    ensures var n := |board|;
      var perNumber := n * (n * (n - 1) + 2) + n;
      var perCell := n * (n - 1) + 2;
      2 * |Encoding(board, s)| == 2 * |FilledClauses(board)| + 2 * (n * perNumber) + (n * n) * perCell
  {
    var n := |board|;
    var coords := GenCellCoords(n);
    GenCellCoordsSpec(n);
    CoverageCount(n, n, s, coords);
    CellsCount(coords, |coords|, n);
    var filled, cov, cells := FilledClauses(board), Coverage(n, s, coords), CellsUpTo(coords, |coords|, n);
    assert Encoding(board, s) == filled + cov + cells;
    assert |Encoding(board, s)| == |filled| + |cov| + |cells|;
  }

  // ---------------------------------------------------------------------------
  // Kinds of clause

  /** A clause [¬(v, (i, j1)), ¬(v, (i, j2))]: number v not twice in row i. */
  ghost predicate RowPair(c: Clause<Atom>)
  {
    exists v, i, j1, j2 :: j1 < j2 && c == [Opposite(Pos(v, i, j1)), Opposite(Pos(v, i, j2))]
  }

  /** A clause [¬(v, (i1, j)), ¬(v, (i2, j))]: number v not twice in column j. */
  ghost predicate ColumnPair(c: Clause<Atom>)
  {
    exists v, i1, i2, j :: i1 < i2 && c == [Opposite(Pos(v, i1, j)), Opposite(Pos(v, i2, j))]
  }

  /** A clause [¬(v1, (i, j)), ¬(v2, (i, j))]: not two numbers in cell (i, j). */
  ghost predicate CellPair(c: Clause<Atom>)
  {
    exists v1, v2, i, j :: v1 < v2 && c == [Opposite(Pos(v1, i, j)), Opposite(Pos(v2, i, j))]
  }

  ghost predicate ExclusionPair(c: Clause<Atom>)
  {
    RowPair(c) || ColumnPair(c) || CellPair(c)
  }

  predicate AllPositive(c: Clause<Atom>)
  {
    forall l :: l in c ==> l.1
  }

  lemma LinePairs(num: int, i: int, n: nat)
    ensures forall c :: c in PairClauses(RowLits(num, i, n)) ==> RowPair(c)
    ensures forall c :: c in PairClauses(ColLits(num, i, n)) ==> ColumnPair(c)
  {
    var row, col := RowLits(num, i, n), ColLits(num, i, n);
    PairClausesShape(row);
    PairClausesShape(col);
    forall c | c in PairClauses(row) ensures RowPair(c) {
      var p, q :| 0 <= p < q < |row| && c == [Opposite(row[p]), Opposite(row[q])];
      assert c == [Opposite(Pos(num, i, p)), Opposite(Pos(num, i, q))];
    }
    forall c | c in PairClauses(col) ensures ColumnPair(c) {
      var p, q :| 0 <= p < q < |col| && c == [Opposite(col[p]), Opposite(col[q])];
      assert c == [Opposite(Pos(num, p, i)), Opposite(Pos(num, q, i))];
    }
  }

  lemma CellPairs(cell: (int, int), n: nat)
    ensures forall c :: c in PairClauses(CellLits(cell, n)) ==> CellPair(c)
  {
    var lits := CellLits(cell, n);
    PairClausesShape(lits);
    forall c | c in PairClauses(lits) ensures CellPair(c) {
      var p, q :| 0 <= p < q < |lits| && c == [Opposite(lits[p]), Opposite(lits[q])];
      assert c == [Opposite(Pos(p + 1, cell.0, cell.1)), Opposite(Pos(q + 1, cell.0, cell.1))];
    }
  }

  /** What a clause of the encoding looks like. */
  ghost predicate EncodedKind(c: Clause<Atom>, n: nat)
  {
    (AllPositive(c) && (|c| == 1 || |c| == n)) || ExclusionPair(c)
  }

  lemma LineKinds(num: int, i: int, n: nat, c: Clause<Atom>)
    requires c in LineClauses(num, i, n)
    ensures EncodedKind(c, n)
  {
    LinePairs(num, i, n);
    var row, col := RowLits(num, i, n), ColLits(num, i, n);
    if c == row || c == col {
      forall l | l in c ensures l.1 {
        var k :| 0 <= k < |c| && c[k] == l;
      }
    }
  }

  lemma BlockKinds(num: int, s: nat, bi: nat, bj: nat)
    requires bi < s && bj < s
    ensures EncodedKind(BlockLits(num, GenCellCoords(s * s), bi * s, bj * s, s), s * s)
  {
    var c := BlockLits(num, GenCellCoords(s * s), bi * s, bj * s, s);
    BlockSize(num, bi, bj, s);
    forall l | l in c ensures l.1 {
      BlockLitsMember(num, GenCellCoords(s * s), bi * s, bj * s, s, l);
    }
  }

  lemma CoverageKinds(n: nat, s: nat, c: Clause<Atom>)
    requires s * s == n && c in Coverage(n, s, GenCellCoords(n))
    ensures EncodedKind(c, n)
  {
    var coords := GenCellCoords(n);
    var num := CoverageWhich(n, n, s, coords, c);
    LinesMember(num, n, n, c);
    BlocksMember(num, coords, s, s, c);
    if c in LinesUpTo(num, n, n) {
      var i :| 0 <= i < n && c in LineClauses(num, i, n);
      LineKinds(num, i, n, c);
    } else {
      var bi, bj :| 0 <= bi < s && 0 <= bj < s && c == BlockLits(num, coords, bi * s, bj * s, s);
      BlockKinds(num, s, bi, bj);
    }
  }

  lemma CellKinds(n: nat, c: Clause<Atom>)
    requires c in CellsUpTo(GenCellCoords(n), |GenCellCoords(n)|, n)
    ensures EncodedKind(c, n)
  {
    var coords := GenCellCoords(n);
    CellsMember(coords, |coords|, n, c);
    var t :| 0 <= t < |coords| && c in CellClauses(coords[t], n);
    CellPairs(coords[t], n);
    if c == CellLits(coords[t], n) {
      forall l | l in c ensures l.1 {
        var k :| 0 <= k < |c| && c[k] == l;
        assert l == Pos(k + 1, coords[t].0, coords[t].1);
      }
    }
  }

  /** Every clause of the encoding is a positive clause of one or n literals,
      or a negative pair excluding a number twice in a row or a column, or two
      numbers in one cell. */
  lemma EncodingKinds(board: Grid, s: nat)
    requires s * s == |board|
    ensures forall c :: c in Encoding(board, s) ==> EncodedKind(c, |board|)
  {
    var n := |board|;
    forall c | c in Encoding(board, s) ensures EncodedKind(c, n) {
      FilledClausesSpec(board, c);
      if c in Coverage(n, s, GenCellCoords(n)) {
        CoverageKinds(n, s, c);
      } else if c !in FilledClauses(board) {
        CellKinds(n, c);
      }
    }
  }

  /** Hence every two-literal clause is such a negative pair: no board side is
      2, as 2 is not a square. */
  lemma TwoLiteralClauses(board: Grid, s: nat)
    requires s * s == |board|
    ensures forall c :: c in Encoding(board, s) && |c| == 2 ==> ExclusionPair(c)
  {
    EncodingKinds(board, s);
    NotTwo(s);
  }

  lemma NotTwo(s: nat)
    ensures s * s != 2
  {
    if s >= 2 {
      MulMono(2, s, s);
    }
  }

  // ---------------------------------------------------------------------------
  // Atoms

  /** (v, (i, j)) is an atom of an n x n board: v in 1 .. n, (i, j) a cell. */
  predicate OnBoard(a: Atom, n: nat)
  {
    1 <= a.0 <= n && 0 <= a.1.0 < n && 0 <= a.1.1 < n
  }

  /** Every cell of board holds 0 or one of 1 .. n. */
  predicate CellValuesInRange(board: Grid, n: nat)
  {
    forall i, j :: 0 <= i < |board| && 0 <= j < |board[i]| ==> 0 <= board[i][j] <= n
  }

  /** Every literal of a pair clause negates a literal of s. */
  lemma PairLiterals<A>(s: seq<Literal<A>>, c: Clause<A>, l: Literal<A>)
    requires c in PairClauses(s) && l in c
    ensures exists p :: 0 <= p < |s| && l == Opposite(s[p])
  {
    PairClausesShape(s);
    var p, q :| 0 <= p < q < |s| && c == [Opposite(s[p]), Opposite(s[q])];
  }

  /** A clause whose literals are over atoms of the board. */
  ghost predicate OverBoard(c: Clause<Atom>, n: nat)
  {
    forall l :: l in c ==> OnBoard(l.0, n)
  }

  lemma LineAtoms(num: int, i: int, n: nat, c: Clause<Atom>)
    requires 1 <= num <= n && 0 <= i < n && c in LineClauses(num, i, n)
    ensures OverBoard(c, n)
  {
    var row, col := RowLits(num, i, n), ColLits(num, i, n);
    forall l | l in c ensures OnBoard(l.0, n) {
      if c in PairClauses(row) {
        PairLiterals(row, c, l);
      } else if c in PairClauses(col) {
        PairLiterals(col, c, l);
      } else {
        var k :| 0 <= k < |c| && c[k] == l;
      }
    }
  }

  lemma CellAtoms(cell: (int, int), n: nat, c: Clause<Atom>)
    requires 0 <= cell.0 < n && 0 <= cell.1 < n && c in CellClauses(cell, n)
    ensures OverBoard(c, n)
  {
    var lits := CellLits(cell, n);
    forall k | 0 <= k < n ensures OnBoard(lits[k].0, n) {
      assert lits[k] == Pos(k + 1, cell.0, cell.1);
    }
    forall l | l in c ensures OnBoard(l.0, n) {
      if c in PairClauses(lits) {
        PairLiterals(lits, c, l);
      } else {
        var k :| 0 <= k < |c| && c[k] == l;
      }
    }
  }

  /** When the board's cells hold 0 .. n, every literal of its encoding is
      over an atom of the board. */
  lemma EncodingAtoms(board: Grid, s: nat)
    requires s * s == |board| && CellValuesInRange(board, |board|)
    requires forall i :: 0 <= i < |board| ==> |board[i]| == |board|
    ensures forall c :: c in Encoding(board, s) ==> OverBoard(c, |board|)
  {
    var n := |board|;
    var coords := GenCellCoords(n);
    GenCellCoordsSpec(n);
    forall c | c in Encoding(board, s) ensures OverBoard(c, n) {
      FilledClausesSpec(board, c);
      if c in Coverage(n, s, coords) {
        var num := CoverageWhich(n, n, s, coords, c);
        LinesMember(num, n, n, c);
        BlocksMember(num, coords, s, s, c);
        if c in LinesUpTo(num, n, n) {
          var i :| 0 <= i < n && c in LineClauses(num, i, n);
          LineAtoms(num, i, n, c);
        } else {
          var bi, bj :| 0 <= bi < s && 0 <= bj < s && c == BlockLits(num, coords, bi * s, bj * s, s);
          forall l | l in c ensures OnBoard(l.0, n) {
            BlockLitsMember(num, coords, bi * s, bj * s, s, l);
          }
        }
      } else if c in CellsUpTo(coords, |coords|, n) {
        CellsMember(coords, |coords|, n, c);
        var t :| 0 <= t < |coords| && c in CellClauses(coords[t], n);
        assert coords[t] in coords;
        CellAtoms(coords[t], n, c);
      } else {
        var i, j :| 0 <= i < n && 0 <= j < |board[i]| && board[i][j] != 0 && c == [Pos(board[i][j], i, j)];
      }
    }
  }

  /** The encoding never holds an empty clause, so it is a valid input of
      satisfying_assignment. */
  lemma EncodingNoEmptyClause(board: Grid, s: nat)
    requires s * s == |board|
    ensures NoEmptyClause(Encoding(board, s))
  {
    EncodingKinds(board, s);
    if |board| == 0 {
      assert Encoding(board, s) == [];
    }
  }
}
