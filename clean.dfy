/** `clean_formula` of solver.py: clause by clause, keep one literal per atom.
    A repeated literal is skipped; when the complement of an atom's kept
    literal turns up, the kept literal is swapped for it. Nothing on the
    solving path calls it. */
module Clean {
  import opened Cnf

  /** The inner loop's state: the set to_add and lit_dict, which maps each
      polarity to the atoms already met with that polarity. */
  datatype CleanState<A> = CleanState(toAdd: set<Literal<A>>, litDict: map<bool, set<A>>)

  function Start<A>(): CleanState<A>
  {
    CleanState({}, map[false := {}, true := {}])
  }

  predicate HasBothKeys<A>(st: CleanState<A>)
  {
    true in st.litDict && false in st.litDict
  }

  /** One iteration of the inner loop, for the literal (i, j). */
  function Step<A(==)>(st: CleanState<A>, l: Literal<A>): CleanState<A>
    requires HasBothKeys(st)
  {
    var i, j := l.0, l.1;
    if i in st.litDict[j] then st
    else
      var kept := if i in st.litDict[!j] then st.toAdd - {(i, !j)} else st.toAdd;
      CleanState(kept + {(i, j)}, st.litDict[j := st.litDict[j] + {i}])
  }

  /** The state after the first k literals of c. */
  function Cleaned<A(==)>(c: Clause<A>, k: nat): (st: CleanState<A>)
    requires k <= |c|
    ensures HasBothKeys(st)
  {
    if k == 0 then Start() else Step(Cleaned(c, k - 1), c[k - 1])
  }

  /** The literals clean_formula keeps of clause c. */
  function CleanedClause<A(==)>(c: Clause<A>): set<Literal<A>>
  {
    Cleaned(c, |c|).toAdd
  }

  /** What the state says about the literals p seen so far: lit_dict records
      exactly the literals of p, every kept literal is one of them, each atom
      of p is kept in exactly one polarity, and an atom met in one polarity
      only is kept in that polarity. */
  ghost predicate Inv<A(!new)>(p: seq<Literal<A>>, st: CleanState<A>)
  {
    HasBothKeys(st)
    && (forall a, b :: a in st.litDict[b] <==> (a, b) in p)
    && (forall l :: l in st.toAdd ==> l in p)
    && (forall a :: !((a, true) in st.toAdd && (a, false) in st.toAdd))
    && (forall l :: l in p ==> (l.0, true) in st.toAdd || (l.0, false) in st.toAdd)
    && (forall a, b :: a in st.litDict[b] && a !in st.litDict[!b] ==> (a, b) in st.toAdd)
  }

  lemma StepInv<A(!new)>(p: seq<Literal<A>>, st: CleanState<A>, l: Literal<A>, q: seq<Literal<A>>)
    requires Inv(p, st) && q == p + [l]
    ensures Inv(q, Step(st, l))
  {
    var i, j := l.0, l.1;
    var next := Step(st, l);
    if i in st.litDict[j] {
      assert l in p;
      forall x | x in q ensures (x.0, true) in next.toAdd || (x.0, false) in next.toAdd {
        assert x in p;
      }
    } else {
      var kept := if i in st.litDict[!j] then st.toAdd - {(i, !j)} else st.toAdd;
      assert next.toAdd == kept + {(i, j)};
      assert (i, !j) in st.toAdd ==> i in st.litDict[!j];
      assert (i, !j) !in kept;
      forall a ensures !((a, true) in next.toAdd && (a, false) in next.toAdd) {
        if a == i {
          assert (i, !j) !in next.toAdd;
        }
      }
      forall a, b ensures a in next.litDict[b] <==> (a, b) in q {
        assert (a, b) in q <==> (a, b) in p || (a, b) == l;
      }
      forall x | x in next.toAdd ensures x in q {
        if x != l {
          assert x in st.toAdd;
        }
      }
      forall x | x in q ensures (x.0, true) in next.toAdd || (x.0, false) in next.toAdd {
        if x.0 != i {
          assert x in p;
        }
      }
      forall a, b | a in next.litDict[b] && a !in next.litDict[!b] ensures (a, b) in next.toAdd {
        if a != i {
          assert a in st.litDict[b] && a !in st.litDict[!b];
        }
      }
    }
  }

  lemma {:induction false} CleanedInv<A(!new)>(c: Clause<A>, k: nat)
    requires k <= |c|
    ensures Inv(c[..k], Cleaned(c, k))
  {
    if k > 0 {
      CleanedInv(c, k - 1);
      assert c[..k] == c[..k - 1] + [c[k - 1]];
      StepInv(c[..k - 1], Cleaned(c, k - 1), c[k - 1], c[..k]);
    }
  }

  /** The cleaned clause keeps only literals of c, at most one per atom, and
      every atom of c in one polarity. */
  lemma CleanedClauseSpec<A(!new)>(c: Clause<A>)
    ensures forall l :: l in CleanedClause(c) ==> l in c
    ensures forall l, l' :: l in CleanedClause(c) && l' in CleanedClause(c) && l.0 == l'.0 ==> l == l'
    ensures forall l :: l in c ==> (l.0, true) in CleanedClause(c) || (l.0, false) in CleanedClause(c)
  {
    CleanedInv(c, |c|);
    assert c[..|c|] == c;
    var r := CleanedClause(c);
    forall l, l' | l in r && l' in r && l.0 == l'.0 ensures l == l' {
      var a, b, b' := l.0, l.1, l'.1;
      assert l == (a, b) && l' == (a, b');
      assert !((a, true) in r && (a, false) in r);
      assert (a, b) in r && (a, b') in r;
    }
  }

  /** A clause with no atom in both polarities only loses repeats. */
  lemma CleanedNoClash<A(!new)>(c: Clause<A>)
    requires forall l :: l in c ==> Opposite(l) !in c
    ensures forall l :: l in CleanedClause(c) <==> l in c
  {
    CleanedInv(c, |c|);
    assert c[..|c|] == c;
    var st := Cleaned(c, |c|);
    forall l | l in c ensures l in st.toAdd {
      var a, b := l.0, l.1;
      assert l == (a, b);
      assert Opposite(l) == (a, !b) && (a, !b) !in c;
      assert a in st.litDict[b] && a !in st.litDict[!b];
    }
  }

  /** Cleaning can change a formula's meaning: the tautology a or not a comes
      out as not a alone, so the satisfiable formula [a or not a, a] cleans to
      one whose clauses hold the literals not a and a, and every such formula
      is unsatisfiable. */
  lemma CleanedTautology()
    ensures CleanedClause([(0, true), (0, false)]) == {(0, false)}
    ensures CleanedClause([(0, true)]) == {(0, true)}
    ensures Satisfiable([[(0, true), (0, false)], [(0, true)]])
    ensures forall g: Formula<int> ::
      |g| == 2 && (forall l :: l in g[0] <==> l == (0, false)) && (forall l :: l in g[1] <==> l == (0, true))
      ==> !Satisfiable(g)
  {
    var c := [(0, true), (0, false)];
    var first := Cleaned(c, 1);
    assert first == Step(Start(), (0, true));
    assert first.toAdd == {(0, true)} && first.litDict[true] == {0} && first.litDict[false] == {};
    var second := Cleaned(c, 2);
    assert second == Step(first, (0, false));
    assert second.toAdd == {(0, false)};
    assert Cleaned([(0, true)], 1) == Step(Start(), (0, true));
    var f := [c, [(0, true)]];
    var m := map[0 := true];
    assert c[0] in c && f[1][0] in f[1];
    assert Satisfies(m, f);
    forall g: Formula<int> | |g| == 2 && (forall l :: l in g[0] <==> l == (0, false)) && (forall l :: l in g[1] <==> l == (0, true))
      ensures !Satisfiable(g)
    {
      forall m': Assignment<int> ensures !Satisfies(m', g) {
        assert g[0] in g && g[1] in g;
        assert ClauseHolds(m', g[0]) ==> LitHolds(m', (0, false));
        assert ClauseHolds(m', g[1]) ==> LitHolds(m', (0, true));
      }
    }
  }

  /** The inner loop of clean_formula over one clause. */
  method CleanClause<A(==,!new)>(clause: Clause<A>) returns (toAdd: set<Literal<A>>)
    ensures toAdd == CleanedClause(clause)
  {
    toAdd := {};
    var litDict: map<bool, set<A>> := map[false := {}, true := {}];
    for k := 0 to |clause|
      invariant CleanState(toAdd, litDict) == Cleaned(clause, k)
    {
      CleanedInv(clause, k);
      var i, j := clause[k].0, clause[k].1;
      if i in litDict[j] {
        continue;
      } else if i in litDict[!j] {
        // to_add.remove never fails: the atom's first literal is still kept
        assert (i, !j) in toAdd;
        toAdd := toAdd - {(i, !j)};
      }
      toAdd := toAdd + {(i, j)};
      litDict := litDict[j := litDict[j] + {i}];
    }
  }

  /** `list(to_add)`: the elements of a set, once each, in the order the
      iteration picks them. */
  method ListOf<T(==,!new)>(s: set<T>) returns (r: seq<T>)
    ensures forall x :: x in r <==> x in s
    ensures NoDuplicates(r)
  {
    r := [];
    var rest := s;
    while rest != {}
      invariant rest <= s
      invariant forall x :: x in r <==> x in s && x !in rest
      invariant NoDuplicates(r)
      decreases |rest|
    {
      var x :| x in rest;
      r := r + [x];
      rest := rest - {x};
    }
  }

  /** clean_formula: one cleaned clause per input clause, in the same order. */
  method CleanFormula<A(==,!new)>(formula: Formula<A>) returns (newFormula: Formula<A>)
    ensures |newFormula| == |formula|
    ensures forall k :: 0 <= k < |formula| ==>
      NoDuplicates(newFormula[k]) && forall l :: l in newFormula[k] <==> l in CleanedClause(formula[k])
  {
    newFormula := [];
    for k := 0 to |formula|
      invariant |newFormula| == k
      invariant forall t :: 0 <= t < k ==>
        NoDuplicates(newFormula[t]) && forall l :: l in newFormula[t] <==> l in CleanedClause(formula[t])
    {
      var toAdd := CleanClause(formula[k]);
      var lst := ListOf(toAdd);
      newFormula := newFormula + [lst];
    }
  }
}
