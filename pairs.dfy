/** The pairwise "at most one" clauses of solver.py. The same double loop
    appears three times in the source: over a row's and over a column's
    literals in `rule7`, and over a cell's candidate numbers in
    `sudoku_board_to_sat_formula`. Each pass visits every ordered pair of
    distinct literals and emits the clause of their negations unless the
    mirrored clause was recorded before, so each unordered pair yields one clause. */
module Pairs {
  import opened Cnf

  /** A recorded clause, kept in the source's `been_added_*` and `cur_added` sets. */
  type Mark<A> = (Literal<A>, Literal<A>)

  /** [¬s[p], ¬s[q]] for p < q < hi, in order of q. */
  function PairsWith<A>(s: seq<Literal<A>>, p: nat, hi: nat): Formula<A>
    requires p < |s| && hi <= |s|
    decreases hi
  {
    if hi <= p + 1 then [] else PairsWith(s, p, hi - 1) + [[Opposite(s[p]), Opposite(s[hi - 1])]]
  }

  /** The pair clauses whose first literal comes from s[..p]. */
  function PairsBelow<A>(s: seq<Literal<A>>, p: nat): Formula<A>
    requires p <= |s|
  {
    if p == 0 then [] else PairsBelow(s, p - 1) + PairsWith(s, p - 1, |s|)
  }

  /** Every pair clause over s, first literal by first literal. */
  function PairClauses<A>(s: seq<Literal<A>>): Formula<A>
  {
    PairsBelow(s, |s|)
  }

  /** c is the clause [¬s[p], ¬s[q]] of two positions p < q. */
  ghost predicate IsPairOf<A>(s: seq<Literal<A>>, c: Clause<A>)
  {
    exists p, q :: 0 <= p < q < |s| && c == [Opposite(s[p]), Opposite(s[q])]
  }

  /** PairsWith(s, p, hi) lists the clauses [¬s[p], ¬s[q]] for q from p + 1 up to hi. */
  lemma {:induction false} PairsWithAt<A>(s: seq<Literal<A>>, p: nat, hi: nat)
    requires p < |s| && hi <= |s|
    ensures |PairsWith(s, p, hi)| == if hi > p + 1 then hi - p - 1 else 0
    ensures forall k :: 0 <= k < |PairsWith(s, p, hi)| ==>
      PairsWith(s, p, hi)[k] == [Opposite(s[p]), Opposite(s[p + 1 + k])]
    decreases hi
  {
    if hi > p + 1 {
      PairsWithAt(s, p, hi - 1);
    }
  }

  lemma {:induction false} PairsBelowShape<A>(s: seq<Literal<A>>, p: nat)
    requires p <= |s|
    ensures forall c :: c in PairsBelow(s, p) ==>
      exists x, y :: 0 <= x < p && x < y < |s| && c == [Opposite(s[x]), Opposite(s[y])]
  {
    if p > 0 {
      PairsBelowShape(s, p - 1);
      PairsWithAt(s, p - 1, |s|);
      var w := PairsWith(s, p - 1, |s|);
      forall c | c in w
        ensures exists x, y :: 0 <= x < p && x < y < |s| && c == [Opposite(s[x]), Opposite(s[y])]
      {
        var k :| 0 <= k < |w| && w[k] == c;
        assert c == [Opposite(s[p - 1]), Opposite(s[p + k])];
      }
    }
  }

  lemma {:induction false} PairsBelowCover<A>(s: seq<Literal<A>>, p: nat)
    requires p <= |s|
    ensures forall x, y :: 0 <= x < p && x < y < |s| ==> [Opposite(s[x]), Opposite(s[y])] in PairsBelow(s, p)
  {
    if p > 0 {
      PairsBelowCover(s, p - 1);
      PairsWithAt(s, p - 1, |s|);
      forall y | p - 1 < y < |s| ensures [Opposite(s[p - 1]), Opposite(s[y])] in PairsBelow(s, p) {
        assert PairsWith(s, p - 1, |s|)[y - p] == [Opposite(s[p - 1]), Opposite(s[y])];
      }
    }
  }

  lemma {:induction false} PairsBelowCount<A>(s: seq<Literal<A>>, p: nat)
    requires p <= |s|
    ensures 2 * |PairsBelow(s, p)| == p * (2 * |s| - p - 1)
  {
    if p > 0 {
      PairsBelowCount(s, p - 1);
      PairsWithAt(s, p - 1, |s|);
      calc {
        2 * |PairsBelow(s, p)|;
        2 * |PairsBelow(s, p - 1)| + 2 * (|s| - p);
        (p - 1) * (2 * |s| - p) + 2 * (|s| - p);
        p * (2 * |s| - p - 1);
      }
    }
  }

  lemma {:induction false} PairsBelowDistinct<A(!new)>(s: seq<Literal<A>>, p: nat)
    requires p <= |s| && NoDuplicates(s)
    ensures NoDuplicates(PairsBelow(s, p))
  {
    if p > 0 {
      PairsBelowDistinct(s, p - 1);
      PairsWithDistinct(s, p - 1);
      PairsApart(s, p - 1);
      ConcatDistinct(PairsBelow(s, p - 1), PairsWith(s, p - 1, |s|));
    }
  }

  lemma ConcatDistinct<T(!new)>(a: seq<T>, b: seq<T>)
    requires NoDuplicates(a) && NoDuplicates(b) && forall x :: x in a ==> x !in b
    ensures NoDuplicates(a + b)
  {
    forall i, j | 0 <= i < j < |a + b| ensures (a + b)[i] != (a + b)[j] {
      if j < |a| {
        assert (a + b)[i] == a[i] && (a + b)[j] == a[j];
      } else if i >= |a| {
        assert (a + b)[i] == b[i - |a|] && (a + b)[j] == b[j - |a|];
      } else {
        assert (a + b)[i] == a[i] && (a + b)[j] == b[j - |a|];
        assert a[i] in a;
      }
    }
  }

  /** The clauses pairing s[p] with later literals are distinct. */
  lemma PairsWithDistinct<A(!new)>(s: seq<Literal<A>>, p: nat)
    requires p < |s| && NoDuplicates(s)
    ensures NoDuplicates(PairsWith(s, p, |s|))
  {
    PairsWithAt(s, p, |s|);
    var w := PairsWith(s, p, |s|);
    forall i, j | 0 <= i < j < |w| ensures w[i] != w[j] {
      assert w[i][1] == Opposite(s[p + 1 + i]) && w[j][1] == Opposite(s[p + 1 + j]);
      if w[i] == w[j] {
        OppositeInjective(s[p + 1 + i], s[p + 1 + j]);
      }
    }
  }

  /** The clauses of the first p literals never pair s[p] first. */
  lemma PairsApart<A(!new)>(s: seq<Literal<A>>, p: nat)
    requires p < |s| && NoDuplicates(s)
    ensures forall c :: c in PairsBelow(s, p) ==> c !in PairsWith(s, p, |s|)
  {
    PairsBelowShape(s, p);
    PairsWithAt(s, p, |s|);
    var w := PairsWith(s, p, |s|);
    forall c | c in PairsBelow(s, p) ensures c !in w {
      var x, y :| 0 <= x < p && x < y < |s| && c == [Opposite(s[x]), Opposite(s[y])];
      if c in w {
        var k :| 0 <= k < |w| && w[k] == c;
        assert w[k][0] == Opposite(s[p]);
        OppositeInjective(s[x], s[p]);
      }
    }
  }

  /** Every pair clause negates two literals of s at positions p < q. */
  lemma PairClausesShape<A>(s: seq<Literal<A>>)
    ensures forall c :: c in PairClauses(s) ==> IsPairOf(s, c)
  {
    PairsBelowShape(s, |s|);
  }

  /** Every unordered pair of positions of s yields a pair clause. */
  lemma PairClausesCover<A>(s: seq<Literal<A>>)
    ensures forall p, q :: 0 <= p < q < |s| ==> [Opposite(s[p]), Opposite(s[q])] in PairClauses(s)
  {
    PairsBelowCover(s, |s|);
  }

  /** There are |s| choose 2 pair clauses. */
  lemma PairClausesCount<A>(s: seq<Literal<A>>)
    ensures 2 * |PairClauses(s)| == |s| * (|s| - 1)
  {
    PairsBelowCount(s, |s|);
  }

  /** Over distinct literals each unordered pair is emitted once: no clause
      repeats, and no clause appears with its two literals swapped. */
  lemma PairClausesOnce<A(!new)>(s: seq<Literal<A>>)
    requires NoDuplicates(s)
    ensures NoDuplicates(PairClauses(s))
    ensures forall p, q :: 0 <= p < q < |s| ==> [Opposite(s[q]), Opposite(s[p])] !in PairClauses(s)
  {
    PairsBelowDistinct(s, |s|);
    PairsBelowShape(s, |s|);
    forall p, q | 0 <= p < q < |s| ensures [Opposite(s[q]), Opposite(s[p])] !in PairClauses(s) {
      if [Opposite(s[q]), Opposite(s[p])] in PairClauses(s) {
        var x, y :| 0 <= x < |s| && x < y < |s| && [Opposite(s[q]), Opposite(s[p])] == [Opposite(s[x]), Opposite(s[y])];
        OppositeInjective(s[q], s[x]);
        OppositeInjective(s[p], s[y]);
      }
    }
  }

  /** The pair clauses of s all hold only if no two literals of s hold
      together, and, once every atom of s is bound, exactly then. */
  lemma PairClausesHold<A(!new)>(m: Assignment<A>, s: seq<Literal<A>>)
    ensures (forall c :: c in PairClauses(s) ==> ClauseHolds(m, c)) ==>
      (forall p, q :: 0 <= p < q < |s| ==> !(LitHolds(m, s[p]) && LitHolds(m, s[q])))
    ensures ((forall p :: 0 <= p < |s| ==> s[p].0 in m) &&
             (forall p, q :: 0 <= p < q < |s| ==> !(LitHolds(m, s[p]) && LitHolds(m, s[q]))))
      ==> (forall c :: c in PairClauses(s) ==> ClauseHolds(m, c))
  {
    if forall c :: c in PairClauses(s) ==> ClauseHolds(m, c) {
      PairClausesCover(s);
      forall p, q | 0 <= p < q < |s| ensures !(LitHolds(m, s[p]) && LitHolds(m, s[q])) {
        var c := [Opposite(s[p]), Opposite(s[q])];
        assert ClauseHolds(m, c);
        var l :| l in c && LitHolds(m, l);
      }
    }
    if (forall p :: 0 <= p < |s| ==> s[p].0 in m) &&
       (forall p, q :: 0 <= p < q < |s| ==> !(LitHolds(m, s[p]) && LitHolds(m, s[q]))) {
      PairClausesShape(s);
      forall c | c in PairClauses(s) ensures ClauseHolds(m, c) {
        var p, q :| 0 <= p < q < |s| && c == [Opposite(s[p]), Opposite(s[q])];
        if LitHolds(m, s[p]) {
          assert c[1] in c && LitHolds(m, c[1]);
        } else {
          assert c[0] in c && LitHolds(m, c[0]);
        }
      }
    }
  }

  lemma OppositeInjective<A>(x: Literal<A>, y: Literal<A>)
    requires Opposite(x) == Opposite(y)
    ensures x == y
  {
    assert x == (x.0, x.1) && y == (y.0, y.1);
  }

  /** No clause over the negations of two literals of lits is recorded yet. */
  predicate Unmarked<A(==)>(lits: seq<Literal<A>>, been: set<Mark<A>>)
  {
    forall p, q :: 0 <= p < |lits| && 0 <= q < |lits| ==> (Opposite(lits[p]), Opposite(lits[q])) !in been
  }

  /** been records exactly the mirrors of the clauses emitted for the first p
      literals, as far as pairs of lits are concerned. */
  ghost predicate MarkedBelow<A>(lits: seq<Literal<A>>, been: set<Mark<A>>, p: nat)
  {
    forall x, y :: 0 <= x < |lits| && 0 <= y < |lits| ==>
      ((Opposite(lits[x]), Opposite(lits[y])) in been <==> y < x && y < p)
  }

  /** The same, midway through the pass for lits[p]: its pairs with lits[..q] are done. */
  ghost predicate MarkedUpTo<A>(lits: seq<Literal<A>>, been: set<Mark<A>>, p: nat, q: nat)
  {
    forall x, y :: 0 <= x < |lits| && 0 <= y < |lits| ==>
      ((Opposite(lits[x]), Opposite(lits[y])) in been <==> y < x && (y < p || (y == p && x < q)))
  }

  /** The double loop of rule7 (and of the per-cell clauses): appends the pair
      clauses of lits to clauses, using been to skip mirrored pairs. */
  method AppendExclusionPairs<A(==,!new)>(lits: seq<Literal<A>>, beenAdded: set<Mark<A>>, clauses: Formula<A>)
    returns (out: Formula<A>, been: set<Mark<A>>)
    requires NoDuplicates(lits) && Unmarked(lits, beenAdded)
    ensures out == clauses + PairClauses(lits)
    ensures beenAdded <= been
    ensures forall e :: e in been && e !in beenAdded ==> Opposite(e.0) in lits
  {
    out, been := clauses, beenAdded;
    for p := 0 to |lits|
      invariant out == clauses + PairsBelow(lits, p)
      invariant beenAdded <= been
      invariant forall e :: e in been && e !in beenAdded ==> Opposite(e.0) in lits
      invariant MarkedBelow(lits, been, p)
    {
      ghost var marks := been;
      out, been := AppendPairsOf(lits, p, been, out);
      MarksGrow(lits, beenAdded, marks, been);
    }
  }

  /** Marks added in two steps, each naming literals of lits, name literals of lits. */
  lemma MarksGrow<A>(lits: seq<Literal<A>>, b0: set<Mark<A>>, b1: set<Mark<A>>, b2: set<Mark<A>>)
    requires b0 <= b1 && forall e :: e in b1 && e !in b0 ==> Opposite(e.0) in lits
    requires b1 <= b2 && forall e :: e in b2 && e !in b1 ==> Opposite(e.0) in lits
    ensures b0 <= b2 && forall e :: e in b2 && e !in b0 ==> Opposite(e.0) in lits
  {
  }

  /** One pass of the outer loop: the inner loop over the second literal, for
      the first literal lits[p]. */
  method AppendPairsOf<A(==,!new)>(lits: seq<Literal<A>>, p: nat, beenAdded: set<Mark<A>>, clauses: Formula<A>)
    returns (out: Formula<A>, been: set<Mark<A>>)
    requires p < |lits| && NoDuplicates(lits)
    requires MarkedBelow(lits, beenAdded, p)
    ensures out == clauses + PairsWith(lits, p, |lits|)
    ensures beenAdded <= been
    ensures forall e :: e in been && e !in beenAdded ==> Opposite(e.0) in lits
    ensures MarkedBelow(lits, been, p + 1)
  {
    out, been := clauses, beenAdded;
    for q := 0 to |lits|
      invariant out == clauses + PairsWith(lits, p, q)
      invariant beenAdded <= been
      invariant forall e :: e in been && e !in beenAdded ==> Opposite(e.0) in lits
      invariant MarkedUpTo(lits, been, p, q)
    {
      var x, y := lits[p], lits[q];
      ghost var before := been;
      if x != y && (Opposite(x), Opposite(y)) !in been {
        assert p < q;
        assert PairsWith(lits, p, q + 1) == PairsWith(lits, p, q) + [[Opposite(x), Opposite(y)]];
        assert Opposite(Opposite(y)) == y && y in lits;
        out := out + [[Opposite(x), Opposite(y)]];
        been := been + {(Opposite(y), Opposite(x))};
        forall i, j | 0 <= i < |lits| && 0 <= j < |lits|
          ensures (Opposite(lits[i]), Opposite(lits[j])) in been <==>
            (Opposite(lits[i]), Opposite(lits[j])) in before || (i == q && j == p)
        {
          if (Opposite(lits[i]), Opposite(lits[j])) == (Opposite(y), Opposite(x)) {
            OppositeInjective(lits[i], y);
            OppositeInjective(lits[j], x);
          }
        }
      } else {
        assert q <= p && PairsWith(lits, p, q + 1) == [] == PairsWith(lits, p, q);
      }
    }
  }
}
