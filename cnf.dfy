/** Formulas in conjunctive normal form over an arbitrary atom type, their meaning
    under a partial assignment, and the one-literal reduction performed by
    `update_exp` in solver.py. */
module Cnf {

  datatype Option<+T> = None | Some(value: T)

  /** (a, true) asserts atom a, (a, false) asserts its negation. */
  type Literal<A> = (A, bool)
  /** A disjunction of literals. */
  type Clause<A> = seq<Literal<A>>
  /** A conjunction of clauses. */
  type Formula<A> = seq<Clause<A>>
  /** A partial assignment of truth values to atoms. */
  type Assignment<A> = map<A, bool>

  function Opposite<A>(l: Literal<A>): Literal<A>
  {
    (l.0, !l.1)
  }

  predicate LitHolds<A>(m: Assignment<A>, l: Literal<A>)
  {
    l.0 in m && m[l.0] == l.1
  }

  predicate ClauseHolds<A(==,!new)>(m: Assignment<A>, c: Clause<A>)
  {
    exists l :: l in c && LitHolds(m, l)
  }

  predicate Satisfies<A(==,!new)>(m: Assignment<A>, f: Formula<A>)
  {
    forall c :: c in f ==> ClauseHolds(m, c)
  }

  ghost predicate Satisfiable<A(!new)>(f: Formula<A>)
  {
    exists m: Assignment<A> :: Satisfies(m, f)
  }

  /** Some assignment binding a to b satisfies f. */
  ghost predicate SatisfiableWith<A(!new)>(f: Formula<A>, a: A, b: bool)
  {
    exists m: Assignment<A> :: a in m && m[a] == b && Satisfies(m, f)
  }

  /** Every atom mentioned by some literal of f. */
  function Atoms<A(==,!new)>(f: Formula<A>): set<A>
  {
    set c, l | c in f && l in c :: l.0
  }

  predicate NoEmptyClause<A(==)>(f: Formula<A>)
  {
    forall c :: c in f ==> c != []
  }

  /** Concatenation regroups. */
  lemma AppendAssoc<T>(a: seq<T>, b: seq<T>, c: seq<T>)
    ensures (a + b) + c == a + (b + c)
  {
  }

  predicate NoDuplicates<T(==,!new)>(s: seq<T>)
  {
    forall i, j :: 0 <= i < j < |s| ==> s[i] != s[j]
  }

  /** c holds x and nothing else (possibly several times). */
  predicate Sole<T(==,!new)>(c: seq<T>, x: T)
  {
    x in c && forall y :: y in c ==> y == x
  }

  /** `list(set(s))`: every element of s, once. The source's order is that of a
      hash set; this one keeps last occurrences, and no property below depends on it. */
  function Dedup<T(==,!new)>(s: seq<T>): (r: seq<T>)
    ensures forall x :: x in r <==> x in s
    ensures NoDuplicates(r)
  {
    if s == [] then []
    else if s[0] in s[1..] then Dedup(s[1..])
    else [s[0]] + Dedup(s[1..])
  }

  /** `list.remove(x)`: drops the first occurrence of x. */
  function RemoveFirst<T(==,!new)>(s: seq<T>, x: T): (r: seq<T>)
    requires x in s
    ensures |r| == |s| - 1
    ensures forall y :: y in r ==> y in s
    ensures forall y :: y in s && y != x ==> y in r
    ensures NoDuplicates(s) ==> NoDuplicates(r) && x !in r
  {
    if s[0] == x then s[1..]
    else
      var r := RemoveFirst(s[1..], x);
      assert NoDuplicates(s) ==> NoDuplicates(s[1..]) && s[0] !in r by {
        if NoDuplicates(s) {
          forall y | y in r ensures y != s[0] {
            var k :| 0 <= k < |s[1..]| && s[1..][k] == y;
            assert s[k + 1] == y;
          }
        }
      }
      [s[0]] + r
  }

  /** What update_exp keeps of a clause that holds the opposite of the asserted
      literal l: its distinct literals other than that opposite. */
  function Strip<A(==,!new)>(c: Clause<A>, l: Literal<A>): (r: Clause<A>)
    requires Opposite(l) in c
    ensures forall x :: x in r <==> x in c && x != Opposite(l)
    ensures NoDuplicates(r)
  {
    RemoveFirst(Dedup(c), Opposite(l))
  }

  /** The reduction of f under the literal l asserted true, clause by clause in
      order; None is the contradiction signal. */
  function Reduce<A(==,!new)>(f: Formula<A>, l: Literal<A>): Option<Formula<A>>
    decreases |f|
  {
    if f == [] then Some([])
    else
      var c := f[|f| - 1];
      match Reduce(f[..|f| - 1], l)
      case None => None
      case Some(g) =>
        if l in c then Some(g)
        else if Opposite(l) in c then
          var c' := Strip(c, l);
          if c' == [] then None else Some(g + [c'])
        else Some(g + [c])
  }

  /** update_exp signals a contradiction exactly when some clause consists of
      the opposite of the asserted literal alone. */
  lemma {:induction false} ReduceNoneIff<A(!new)>(f: Formula<A>, l: Literal<A>)
    ensures Reduce(f, l).None? <==> exists i :: 0 <= i < |f| && Sole(f[i], Opposite(l))
    decreases |f|
  {
    if f != [] {
      var p, c := f[..|f| - 1], f[|f| - 1];
      ReduceNoneIff(p, l);
      assert forall i :: 0 <= i < |p| ==> p[i] == f[i];
      if Reduce(p, l).Some? && !(l in c) && Opposite(l) in c {
        var c' := Strip(c, l);
        if c' == [] {
          assert Sole(c, Opposite(l));
        } else {
          assert !Sole(c, Opposite(l)) by { assert c'[0] in c; }
        }
      }
      if l in c {
        assert !Sole(c, Opposite(l));
      }
    }
  }

  /** A successful reduction never adds clauses, never mentions the asserted
      atom again, and creates no empty clause. */
  lemma {:induction false} ReduceShape<A(!new)>(f: Formula<A>, l: Literal<A>)
    requires Reduce(f, l).Some?
    ensures |Reduce(f, l).value| <= |f|
    ensures Atoms(Reduce(f, l).value) <= Atoms(f) - {l.0}
    ensures NoEmptyClause(f) ==> NoEmptyClause(Reduce(f, l).value)
    decreases |f|
  {
    if f != [] {
      var p, c := f[..|f| - 1], f[|f| - 1];
      assert f == p + [c];
      assert c in f && forall d :: d in p ==> d in f;
      AtomsConcat(p, [c]);
      ReduceShape(p, l);
      var g := Reduce(p, l).value;
      if l !in c {
        var c' := if Opposite(l) in c then Strip(c, l) else c;
        assert Reduce(f, l).value == g + [c'];
        assert c' != [] || c == [];
        AtomsConcat(g, [c']);
        forall x | x in Atoms([c']) ensures x in Atoms([c]) - {l.0} {
          var d: Clause<A>, y: Literal<A> :| d in [c'] && y in d && y.0 == x;
          assert y in c && y != l && y != Opposite(l);
          if y.0 == l.0 { SameAtom(y, l); }
        }
      }
    }
  }

  /** The clauses of f that do not contain l, in their order. */
  function Kept<A(==,!new)>(f: Formula<A>, l: Literal<A>): (r: Formula<A>)
    ensures forall c :: c in r <==> c in f && l !in c
    decreases |f|
  {
    if f == [] then []
    else
      var p, c := f[..|f| - 1], f[|f| - 1];
      assert f == p + [c];
      Kept(p, l) + (if l in c then [] else [c])
  }

  /** d is what update_exp emits for the clause c when l is asserted. */
  ghost predicate StrippedFrom<A(!new)>(c: Clause<A>, l: Literal<A>, d: Clause<A>)
  {
    if Opposite(l) in c
    then d != [] && NoDuplicates(d) && forall x :: x in d <==> x in c && x != Opposite(l)
    else d == c
  }

  /** Clause by clause: a clause holding l is dropped, one holding its opposite
      keeps its other literals once each, any other clause is copied. */
  lemma {:induction false} ReduceClauses<A(!new)>(f: Formula<A>, l: Literal<A>)
    requires Reduce(f, l).Some?
    ensures |Reduce(f, l).value| == |Kept(f, l)|
    ensures forall j :: 0 <= j < |Kept(f, l)| ==> StrippedFrom(Kept(f, l)[j], l, Reduce(f, l).value[j])
    decreases |f|
  {
    if f != [] {
      var p, c := f[..|f| - 1], f[|f| - 1];
      ReduceClauses(p, l);
    }
  }

  /** Soundness of the reduction: an assignment satisfying the reduced formula,
      extended (or overridden) with the asserted literal, satisfies the original. */
  lemma {:induction false} ReduceSound<A(!new)>(f: Formula<A>, l: Literal<A>, m: Assignment<A>)
    requires Reduce(f, l).Some? && Satisfies(m, Reduce(f, l).value)
    ensures Satisfies(m[l.0 := l.1], f)
    decreases |f|
  {
    if f != [] {
      var p, c := f[..|f| - 1], f[|f| - 1];
      var m' := m[l.0 := l.1];
      var g := Reduce(p, l).value;
      assert forall d :: d in g ==> d in Reduce(f, l).value;
      ReduceSound(p, l, m);
      assert ClauseHolds(m', c) by {
        if l in c {
          assert LitHolds(m', l);
        } else {
          var d := if Opposite(l) in c then Strip(c, l) else c;
          assert d in Reduce(f, l).value;
          var x :| x in d && LitHolds(m, x);
          assert x in c && x != l && x != Opposite(l);
          if x.0 == l.0 { SameAtom(x, l); }
          assert LitHolds(m', x);
        }
      }
      assert f == p + [c];
    }
  }

  /** Completeness of the reduction: an assignment that makes l true and
      satisfies f survives the reduction and satisfies its result. */
  lemma {:induction false} ReduceComplete<A(!new)>(f: Formula<A>, l: Literal<A>, m: Assignment<A>)
    requires LitHolds(m, l) && Satisfies(m, f)
    ensures Reduce(f, l).Some? && Satisfies(m, Reduce(f, l).value)
    decreases |f|
  {
    if f != [] {
      var p, c := f[..|f| - 1], f[|f| - 1];
      assert f == p + [c];
      assert c in f && forall d :: d in p ==> d in f;
      ReduceComplete(p, l, m);
      if l !in c && Opposite(l) in c {
        var x :| x in c && LitHolds(m, x);
        assert x != Opposite(l);
        assert x in Strip(c, l);
      }
    }
  }

  /** Satisfaction of f does not depend on atoms f does not mention. */
  lemma SatisfiesIgnoresAtom<A(!new)>(f: Formula<A>, m: Assignment<A>, a: A, b: bool)
    requires a !in Atoms(f)
    ensures Satisfies(m[a := b], f) <==> Satisfies(m, f)
  {
    forall c, x | c in f && x in c ensures LitHolds(m[a := b], x) <==> LitHolds(m, x) {
      assert x.0 in Atoms(f);
    }
  }

  /** The central fact behind the search: asserting (a, b) and then satisfying
      the reduced formula is the same as satisfying f with a bound to b. */
  lemma ReduceIff<A(!new)>(f: Formula<A>, a: A, b: bool, m: Assignment<A>)
    ensures Satisfies(m[a := b], f) <==> Reduce(f, (a, b)).Some? && Satisfies(m, Reduce(f, (a, b)).value)
  {
    if Satisfies(m[a := b], f) {
      ReduceComplete(f, (a, b), m[a := b]);
      var g := Reduce(f, (a, b)).value;
      ReduceShape(f, (a, b));
      SatisfiesIgnoresAtom(g, m, a, b);
    }
    if Reduce(f, (a, b)).Some? && Satisfies(m, Reduce(f, (a, b)).value) {
      ReduceSound(f, (a, b), m);
    }
  }

  /** A contradiction from update_exp rules out every assignment making l true. */
  lemma ReduceNoneUnsat<A(!new)>(f: Formula<A>, l: Literal<A>, m: Assignment<A>)
    requires Reduce(f, l).None? && LitHolds(m, l)
    ensures !Satisfies(m, f)
  {
    if Satisfies(m, f) { ReduceComplete(f, l, m); }
  }

  lemma AtomsConcat<A(!new)>(f: Formula<A>, g: Formula<A>)
    ensures Atoms(f + g) == Atoms(f) + Atoms(g)
  {
    forall x | x in Atoms(f + g) ensures x in Atoms(f) + Atoms(g) {
      var c, l :| c in f + g && l in c && l.0 == x;
      if c in f { assert x in Atoms(f); } else { assert x in Atoms(g); }
    }
    forall x | x in Atoms(f) + Atoms(g) ensures x in Atoms(f + g) {
      if x in Atoms(f) {
        var c, l :| c in f && l in c && l.0 == x;
        assert c in f + g;
      } else {
        var c, l :| c in g && l in c && l.0 == x;
        assert c in f + g;
      }
    }
  }

  /** A literal over the same atom as l is l or its opposite. */
  lemma SameAtom<A>(x: Literal<A>, l: Literal<A>)
    requires x.0 == l.0
    ensures x == l || x == Opposite(l)
  {
    if x.1 == l.1 { assert x == (l.0, l.1); } else { assert x == (l.0, !l.1); }
  }

  /** update_exp: the loop that builds the reduced copy of the formula. */
  method UpdateExp<A(==,!new)>(formula: Formula<A>, inpLit: Literal<A>) returns (r: Option<Formula<A>>)
    ensures r == Reduce(formula, inpLit)
  {
    var oppInpLit := Opposite(inpLit);
    var formulaCopy: Formula<A> := [];
    for k := 0 to |formula|
      invariant Reduce(formula[..k], inpLit) == Some(formulaCopy)
    {
      var clause := formula[k];
      assert formula[..k + 1][..k] == formula[..k];
      if inpLit in clause {
      } else if oppInpLit in clause {
        var clauseAdd := Dedup(clause);
        clauseAdd := RemoveFirst(clauseAdd, oppInpLit);
        if clauseAdd == [] {
          ReducePrefixNone(formula, inpLit, k + 1);
          return None;
        }
        formulaCopy := formulaCopy + [clauseAdd];
      } else {
        formulaCopy := formulaCopy + [clause];
      }
    }
    assert formula[..|formula|] == formula;
    r := Some(formulaCopy);
  }

  /** A contradiction found in a prefix is a contradiction of the whole formula. */
  lemma {:induction false} ReducePrefixNone<A(!new)>(f: Formula<A>, l: Literal<A>, k: nat)
    requires k <= |f| && Reduce(f[..k], l).None?
    ensures Reduce(f, l).None?
    decreases |f|
  {
    if k < |f| {
      assert f[..|f| - 1][..k] == f[..k];
      ReducePrefixNone(f[..|f| - 1], l, k);
    } else {
      assert f[..k] == f;
    }
  }
}
