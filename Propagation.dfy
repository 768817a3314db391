/**
 * Boolean constraint propagation (`propagate_unit` / `bcp`): simplify a
 * formula under one literal set true.  The same loop appears in every
 * solver file; this module is the one model of it.
 */
module Propagation {
  import opened Cnf

  /** `-1` of the source is `Conflict`; a list of clauses is `Simplified`. */
  datatype BcpResult = Conflict | Simplified(cnf: Formula)

  /** The comprehension `[literal for literal in clause if literal != x]`. */
  function Strip(c: Clause, x: int): (r: Clause)
    ensures forall l :: l in r <==> l in c && l != x
    ensures |r| <= |c|
    ensures x !in c ==> r == c
    ensures Distinct(c) ==> Distinct(r)
  {
    if c == [] then []
    else if c[0] == x then Strip(c[1..], x)
    else
      assert c[0] !in c[1..] || !Distinct(c);
      [c[0]] + Strip(c[1..], x)
  }

  /** The kept literals keep their order: stripping a concatenation is the
      concatenation of the stripped parts. */
  lemma {:induction false} StripAppend(c1: Clause, c2: Clause, x: int)
    ensures Strip(c1 + c2, x) == Strip(c1, x) + Strip(c2, x)
  {
    if c1 == [] {
      assert c1 + c2 == c2;
    } else {
      assert (c1 + c2)[1..] == c1[1..] + c2;
      StripAppend(c1[1..], c2, x);
    }
  }

  /** One literal is removed when it is `x` and kept otherwise. */
  lemma StripSingle(l: int, x: int)
    ensures Strip([l], x) == if l == x then [] else [l]
  {
  }

  /** A clause that propagating `u` empties: it lacks `u`, holds `-u`, and
      holds nothing else. */
  predicate Falsified(c: Clause, u: int) {
    u !in c && -u in c && Strip(c, -u) == []
  }

  /** The list the loop builds when no clause is emptied: clauses holding
      `u` are dropped, `-u` is removed from those holding it, the rest are
      appended unchanged, in input order. */
  function Reduce(f: Formula, u: int): (r: Formula)
    ensures |r| <= |f|
    ensures (exists c :: c in f && u in c) ==> |r| < |f|
  {
    if f == [] then []
    else
      var c := f[|f| - 1];
      var g := Reduce(f[..|f| - 1], u);
      assert f == f[..|f| - 1] + [c];
      if u in c then g
      else if -u in c then g + [Strip(c, -u)]
      else g + [c]
  }

  /** Every clause of the reduction is some clause of the input without `u`,
      stripped of `-u`; every such stripped clause is in the reduction; and
      neither `u` nor `-u` is left anywhere. */
  lemma {:induction false} ReduceShape(f: Formula, u: int)
    ensures forall d :: d in Reduce(f, u) ==> u !in d && -u !in d
    ensures forall d :: d in Reduce(f, u) ==> exists c :: c in f && u !in c && d == Strip(c, -u)
    ensures forall c :: c in f && u !in c ==> Strip(c, -u) in Reduce(f, u)
  {
    if f != [] {
      var n := |f| - 1;
      ReduceShape(f[..n], u);
      assert f == f[..n] + [f[n]];
      forall c | c in f && u !in c ensures Strip(c, -u) in Reduce(f, u) {
        if c != f[n] { assert c in f[..n]; }
      }
    }
  }

  /** What `propagate_unit(cnf, unit)` returns, clause by clause as the loop
      goes: `Conflict` as soon as a clause loses its last literal, otherwise
      the clauses kept so far. */
  function Propagate(f: Formula, u: int): BcpResult
    decreases |f|
  {
    if f == [] then Simplified([])
    else
      match Propagate(f[..|f| - 1], u)
      case Conflict => Conflict
      case Simplified(g) =>
        var c := f[|f| - 1];
        if u in c then Simplified(g)
        else if -u in c then
          if Strip(c, -u) == [] then Conflict else Simplified(g + [Strip(c, -u)])
        else Simplified(g + [c])
  }

  /** The loop's result in closed form: `Conflict` exactly when some clause
      is emptied, and otherwise the reduction. */
  lemma {:induction false} PropagateSpec(f: Formula, u: int)
    ensures Propagate(f, u) ==
      if exists i :: 0 <= i < |f| && Falsified(f[i], u) then Conflict
      else Simplified(Reduce(f, u))
    decreases |f|
  {
    if f != [] {
      var n := |f| - 1;
      var p, c := f[..n], f[n];
      assert f == p + [c];
      PropagateSpec(p, u);
      if exists i :: 0 <= i < |p| && Falsified(p[i], u) {
        var i :| 0 <= i < |p| && Falsified(p[i], u);
        assert f[i] == p[i];
      } else if Falsified(c, u) {
        assert Falsified(f[n], u);
      } else {
        forall i | 0 <= i < |f| ensures !Falsified(f[i], u) {
          if i < n { assert f[i] == p[i]; }
        }
      }
    }
  }

  /** The source's loop: build a fresh list, returning `Conflict` at the first
      clause that becomes empty.  The input sequence is a value and is never
      changed. */
  method Bcp(f: Formula, u: int) returns (r: BcpResult)
    ensures r == Propagate(f, u)
  {
    var acc: Formula := [];
    var i := 0;
    while i < |f|
      invariant 0 <= i <= |f|
      invariant Propagate(f[..i], u) == Simplified(acc)
    {
      var c := f[i];
      assert f[..i + 1][..i] == f[..i];
      if u in c {
      } else if -u in c {
        var s := Strip(c, -u);
        if s == [] {
          assert f[..i + 1] == f[..i] + [c];
          assert Propagate(f[..i + 1], u) == Conflict;
          assert f[..i + 1] + f[i + 1..] == f;
          PropagateConflictPersists(f[..i + 1], f[i + 1..], u);
          return Conflict;
        }
        acc := acc + [s];
      } else {
        acc := acc + [c];
      }
      i := i + 1;
    }
    assert f[..i] == f;
    r := Simplified(acc);
  }

  /** Propagation never adds a clause, and leaves strictly fewer clauses
      when some clause holds the literal. */
  lemma PropagateLength(f: Formula, u: int)
    ensures Propagate(f, u).Simplified? ==> |Propagate(f, u).cnf| <= |f|
    ensures Propagate(f, u).Simplified? && (exists c :: c in f && u in c) ==> |Propagate(f, u).cnf| < |f|
  {
    PropagateSpec(f, u);
  }

  /** Once a prefix conflicts, the whole formula does. */
  lemma {:induction false} PropagateConflictPersists(f1: Formula, f2: Formula, u: int)
    requires Propagate(f1, u) == Conflict
    ensures Propagate(f1 + f2, u) == Conflict
    decreases |f2|
  {
    if f2 == [] {
      assert f1 + f2 == f1;
    } else {
      var n := |f2| - 1;
      assert (f1 + f2)[..|f1 + f2| - 1] == f1 + f2[..n];
      PropagateConflictPersists(f1, f2[..n], u);
    }
  }

  /** Clause order is kept: the reduction of a concatenation is the
      concatenation of the reductions. */
  lemma {:induction false} ReduceAppend(f1: Formula, f2: Formula, u: int)
    ensures Reduce(f1 + f2, u) == Reduce(f1, u) + Reduce(f2, u)
    decreases |f2|
  {
    if f2 == [] {
      assert f1 + f2 == f1;
    } else {
      var n := |f2| - 1;
      assert (f1 + f2)[..|f1 + f2| - 1] == f1 + f2[..n];
      assert (f1 + f2)[|f1 + f2| - 1] == f2[n];
      ReduceAppend(f1, f2[..n], u);
    }
  }

  /** One clause reduces to nothing when it holds `u`, to itself without
      `-u` when it holds `-u` only, and to itself otherwise. */
  lemma ReduceSingle(c: Clause, u: int)
    ensures Reduce([c], u) ==
      if u in c then [] else if -u in c then [Strip(c, -u)] else [c]
  {
    assert [c][..0] == [];
  }

  /** `Conflict` exactly when some clause lacks `u` and consists only of
      `-u`. */
  lemma PropagateConflict(f: Formula, u: int)
    ensures Propagate(f, u).Conflict? <==>
      exists c :: c in f && u !in c && -u in c && forall l :: l in c ==> l == -u
  {
    PropagateSpec(f, u);
    if Propagate(f, u).Conflict? {
      var i :| 0 <= i < |f| && Falsified(f[i], u);
      var c := f[i];
      forall l | l in c ensures l == -u {
        assert l != -u ==> l in Strip(c, -u);
      }
    } else {
      forall c | c in f && u !in c && -u in c ensures exists l :: l in c && l != -u {
        var i :| 0 <= i < |f| && f[i] == c;
        assert !Falsified(f[i], u);
        var s := Strip(c, -u);
        assert s[0] in s;
      }
    }
  }

  /** No clause of the result mentions the propagated variable, and no new
      variable appears. */
  lemma PropagateVars(f: Formula, u: int)
    requires Propagate(f, u).Simplified?
    ensures Vars(Propagate(f, u).cnf) <= Vars(f) - {Abs(u)}
  {
    PropagateSpec(f, u);
    var g := Propagate(f, u).cnf;
    ReduceShape(f, u);
    forall v | v in Vars(g) ensures v in Vars(f) && v != Abs(u) {
      var d, l :| d in g && l in d && v == Abs(l);
      var c :| c in f && u !in c && d == Strip(c, -u);
      assert l in c;
      assert l != u && l != -u;
    }
  }

  /** Propagating a literal of a well-formed formula that does not empty a
      clause leaves a well-formed formula. */
  lemma PropagateWellFormed(f: Formula, u: int)
    requires WellFormed(f) && Propagate(f, u).Simplified?
    ensures WellFormed(Propagate(f, u).cnf)
  {
    PropagateSpec(f, u);
    var g := Propagate(f, u).cnf;
    ReduceShape(f, u);
    forall d | d in g ensures WellFormedClause(d) {
      var c :| c in f && u !in c && d == Strip(c, -u);
      var i :| 0 <= i < |f| && f[i] == c;
      assert !Falsified(f[i], u);
      if -u !in c { assert d == c; }
    }
  }

  /** The decision step never empties a clause: when every clause has at
      least two distinct literals, propagating any literal keeps one of them. */
  lemma NoConflictOnLongClauses(f: Formula, u: int)
    requires WellFormed(f)
    requires forall c :: c in f ==> |c| >= 2
    ensures Propagate(f, u).Simplified?
  {
    PropagateSpec(f, u);
    forall i | 0 <= i < |f| ensures !Falsified(f[i], u) {
      var c := f[i];
      assert c in f && WellFormedClause(c);
      assert c[0] != c[1];
      if c[0] != -u { assert c[0] in Strip(c, -u); } else { assert c[1] in Strip(c, -u); }
    }
  }

  /** Soundness of one propagation: an assignment that makes `u` true and
      satisfies the simplified formula satisfies the original one. */
  lemma PropagateSound(f: Formula, u: int, a: seq<int>)
    requires Propagate(f, u).Simplified?
    requires u in a && Satisfies(a, Propagate(f, u).cnf)
    ensures Satisfies(a, f)
  {
    PropagateSpec(f, u);
    var g := Propagate(f, u).cnf;
    ReduceShape(f, u);
    forall c | c in f ensures SatisfiesClause(a, c) {
      if u !in c {
        assert Strip(c, -u) in g;
        var l :| l in Strip(c, -u) && l in a;
      }
    }
  }

  /** Completeness of one propagation: an assignment without complementary
      literals that satisfies the formula and does not make `u` false keeps
      satisfying it after `u` is propagated, and no clause is emptied. */
  lemma PropagateComplete(f: Formula, u: int, a: seq<int>)
    requires Satisfies(a, f) && -u !in a
    ensures Propagate(f, u).Simplified?
    ensures Satisfies(a, Propagate(f, u).cnf)
  {
    PropagateSpec(f, u);
    forall i | 0 <= i < |f| ensures !Falsified(f[i], u) {
      assert f[i] in f && SatisfiesClause(a, f[i]);
      var l :| l in f[i] && l in a;
      assert l != -u;
      assert l in Strip(f[i], -u);
    }
    var g := Reduce(f, u);
    ReduceShape(f, u);
    forall d | d in g ensures SatisfiesClause(a, d) {
      var c :| c in f && u !in c && d == Strip(c, -u);
      var l :| l in c && l in a;
      assert l in d;
    }
  }
}
