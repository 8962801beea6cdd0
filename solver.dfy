/** The backtracking search of solver.py: `set_literal` and
    `satisfying_assignment`, mutually recursive, proved sound and complete. */
module Solver {
  import opened Cnf

  /** A unit clause forces its literal in every satisfying assignment, which is
      why the search never flips a forced literal. */
  lemma UnitForces<A(!new)>(f: Formula<A>, l: Literal<A>, m: Assignment<A>)
    requires [l] in f && Satisfies(m, f)
    ensures LitHolds(m, l)
  {
    var x :| x in [l] && LitHolds(m, x);
  }

  /** Every satisfiable formula is satisfiable with the atom a bound one way or
      the other: a satisfying assignment that leaves a unbound may bind it freely. */
  lemma SatisfiableSplit<A(!new)>(f: Formula<A>, a: A)
    requires Satisfiable(f)
    ensures SatisfiableWith(f, a, true) || SatisfiableWith(f, a, false)
  {
    var m :| Satisfies(m, f);
    if a !in m {
      forall c | c in f ensures ClauseHolds(m[a := true], c) {
        var x :| x in c && LitHolds(m, x);
        assert LitHolds(m[a := true], x);
      }
      assert m[a := true][a] == true;
    } else {
      assert a in m && m[a] == m[a] && Satisfies(m, f);
    }
  }

  lemma SubsetCard<T>(x: set<T>, y: set<T>)
    requires x <= y
    ensures |x| <= |y|
  {
    if x != {} {
      var e :| e in x;
      SubsetCard(x - {e}, y - {e});
    }
  }

  /** A literal of a clause of f is over an atom of f. */
  lemma LiteralAtom<A(!new)>(f: Formula<A>, i: nat, j: nat)
    requires i < |f| && j < |f[i]|
    ensures f[i][j].0 in Atoms(f)
  {
    assert f[i] in f && f[i][j] in f[i];
  }

  /** What set_literal builds from a solution of the reduced formula. */
  lemma ExtendSolution<A(!new)>(f: Formula<A>, a: A, b: bool, m: Assignment<A>)
    requires Reduce(f, (a, b)).Some?
    requires Satisfies(m, Reduce(f, (a, b)).value) && m.Keys <= Atoms(Reduce(f, (a, b)).value)
    ensures Satisfies(m[a := b], f) && m[a := b].Keys <= Atoms(f) + {a}
  {
    ReduceIff(f, a, b, m);
    ReduceShape(f, (a, b));
  }

  /** A reduced formula without solutions rules out every solution binding a to b. */
  lemma NoSolutionWith<A(!new)>(f: Formula<A>, a: A, b: bool)
    requires Reduce(f, (a, b)).None? || !Satisfiable(Reduce(f, (a, b)).value)
    ensures !SatisfiableWith(f, a, b)
  {
    forall m: Assignment<A> | a in m && m[a] == b ensures !Satisfies(m, f) {
      assert m[a := b] == m;
      ReduceIff(f, a, b, m);
    }
  }

  /** The reduced formula mentions fewer atoms when a occurs in f, and never more. */
  lemma ReduceDecreases<A(!new)>(f: Formula<A>, a: A, b: bool)
    requires Reduce(f, (a, b)).Some?
    ensures |Atoms(Reduce(f, (a, b)).value)| + (if a in Atoms(f) then 1 else 0) <= |Atoms(f)|
  {
    ReduceShape(f, (a, b));
    SubsetCard(Atoms(Reduce(f, (a, b)).value), Atoms(f) - {a});
  }

  /** `dict.update` with a one-entry dictionary is a single map update. */
  lemma MergeSingleton<K, V>(m: map<K, V>, k: K, v: V)
    ensures m + map[k := v] == m[k := v]
  {
  }

  /** set_literal: assert (a, b), search the reduced formula, and bind a to b in
      the assignment found. */
  method SetLiteral<A(==,!new)>(formula: Formula<A>, a: A, b: bool) returns (r: Option<Assignment<A>>)
    requires NoEmptyClause(formula)
    ensures r.Some? ==> a in r.value && r.value[a] == b && Satisfies(r.value, formula)
    ensures r.Some? ==> r.value.Keys <= Atoms(formula) + {a}
    ensures r.None? ==> !SatisfiableWith(formula, a, b)
    decreases |Atoms(formula)| + (if a in Atoms(formula) then 0 else 1), 0
  {
    var toAdd := map[a := b];
    var reducedForm := UpdateExp(formula, (a, b));
    if reducedForm.None? {
      NoSolutionWith(formula, a, b);
      return None;
    }
    ReduceShape(formula, (a, b));
    ReduceDecreases(formula, a, b);
    var outDict := SatisfyingAssignment(reducedForm.value);
    if outDict.Some? {
      var m := outDict.value;
      ExtendSolution(formula, a, b, m);
      MergeSingleton(m, a, b);
      outDict := Some(m + toAdd);
    } else {
      NoSolutionWith(formula, a, b);
    }
    return outDict;
  }

  /** satisfying_assignment: None only when nothing satisfies the formula, and
      otherwise an assignment over the formula's atoms that satisfies it. */
  method SatisfyingAssignment<A(==,!new)>(formula: Formula<A>) returns (r: Option<Assignment<A>>)
    requires NoEmptyClause(formula)
    ensures formula == [] ==> r == Some(map[])
    ensures r.Some? ==> Satisfies(r.value, formula) && r.value.Keys <= Atoms(formula)
    ensures r.None? ==> !Satisfiable(formula)
    decreases |Atoms(formula)|, 1
  {
    if formula == [] {
      return Some(map[]);
    }
    assert formula[0] in formula;
    var firstLiteral := formula[0][0];
    var second := true;
    for k := 0 to |formula|
      invariant second ==> firstLiteral == formula[0][0]
      invariant !second ==> [firstLiteral] in formula
    {
      if |formula[k]| == 1 {
        firstLiteral := formula[k][0];
        second := false;
        assert formula[k] == [firstLiteral];
        break;
      }
    }
    var a, b := firstLiteral.0, firstLiteral.1;
    assert a in Atoms(formula) by {
      if second { LiteralAtom(formula, 0, 0); }
      else { assert [firstLiteral] in formula && firstLiteral in [firstLiteral]; }
    }
    var firstAttempt := SetLiteral(formula, a, b);
    if firstAttempt.Some? {
      return firstAttempt;
    } else if second {
      var secondAttempt := SetLiteral(formula, a, !b);
      if secondAttempt.None? && Satisfiable(formula) {
        SatisfiableSplit(formula, a);
        assert false;
      }
      return secondAttempt;
    } else {
      if Satisfiable(formula) {
        var m :| Satisfies(m, formula);
        UnitForces(formula, firstLiteral, m);
        assert false;
      }
      return None;
    }
  }

  /** The source's own example: a literal and its negation as unit clauses
      leave nothing to find. */
  method SolveDirectContradiction<A(==,!new)>(a: A) returns (r: Option<Assignment<A>>)
    ensures r == None
  {
    var f: Formula<A> := [[(a, true)], [(a, false)]];
    r := SatisfyingAssignment(f);
    if r.Some? {
      UnitForces(f, (a, true), r.value);
      UnitForces(f, (a, false), r.value);
    }
  }

  /** The source's second example: a single clause is satisfied through one of
      its literals. */
  method SolveSingleClause<A(==,!new)>(x: A, y: A, z: A) returns (r: Option<Assignment<A>>)
    ensures r.Some?
    ensures LitHolds(r.value, (x, true)) || LitHolds(r.value, (y, false)) || LitHolds(r.value, (z, true))
  {
    var f: Formula<A> := [[(x, true), (y, false), (z, true)]];
    r := SatisfyingAssignment(f);
    var m := map[x := true];
    assert LitHolds(m, (x, true)) && (x, true) in f[0];
    assert Satisfies(m, f);
    assert f[0] in f;
  }
}
