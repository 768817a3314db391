/**
 * The unit-clause cascade (`get_unit_clauses` / `assign_unit`): while the
 * formula has a clause of length one, propagate the literal of the first
 * such clause and record it as forced.
 */
module UnitCascade {
  import opened Cnf
  import opened Propagation

  /** `(-1, [])` of the source is `CascadeConflict`: the forced literals are
      discarded.  Otherwise the simplified formula and the forced literals. */
  datatype CascadeResult = CascadeConflict | Cascaded(cnf: Formula, forced: seq<int>)

  /** The comprehension `[clause for clause in cnf if len(clause) == 1]`. */
  function UnitClauses(f: Formula): (r: Formula)
    ensures forall c :: c in r <==> c in f && |c| == 1
    ensures r != [] ==> exists i :: 0 <= i < |f| && f[i] == r[0] && forall j :: 0 <= j < i ==> |f[j]| != 1
  {
    if f == [] then []
    else if |f[0]| == 1 then [f[0]] + UnitClauses(f[1..])
    else
      var r := UnitClauses(f[1..]);
      assert r != [] ==> exists i :: 1 <= i < |f| && f[i] == r[0] && forall j :: 1 <= j < i ==> |f[j]| != 1 by {
        if r != [] {
          var i :| 0 <= i < |f[1..]| && f[1..][i] == r[0] && forall j :: 0 <= j < i ==> |f[1..][j]| != 1;
          assert f[i + 1] == r[0];
          forall j | 1 <= j < i + 1 ensures |f[j]| != 1 {
            assert f[j] == f[1..][j - 1];
          }
        }
      }
      r
  }

  /** Prefix `prefix` to the forced literals of a cascade that did not conflict. */
  function Extend(prefix: seq<int>, r: CascadeResult): CascadeResult {
    match r
    case CascadeConflict => CascadeConflict
    case Cascaded(g, a) => Cascaded(g, prefix + a)
  }

  /** What the cascade returns.  Each round drops the chosen unit clause, so
      the number of clauses decreases. */
  function Cascade(f: Formula): CascadeResult
    decreases |f|
  {
    var units := UnitClauses(f);
    if units == [] then Cascaded(f, [])
    else
      var u := units[0][0];
      assert u in units[0] && units[0] in f;
      PropagateLength(f, u);
      match Propagate(f, u)
      case Conflict => CascadeConflict
      case Simplified(g) =>
        if g == [] then Cascaded([], [u]) else Extend([u], Cascade(g))
  }

  /** How many propagations the cascade performs, the conflicting one
      included. */
  function CascadeRounds(f: Formula): nat
    decreases |f|
  {
    var units := UnitClauses(f);
    if units == [] then 0
    else
      var u := units[0][0];
      assert u in units[0] && units[0] in f;
      PropagateLength(f, u);
      match Propagate(f, u)
      case Conflict => 1
      case Simplified(g) => if g == [] then 1 else 1 + CascadeRounds(g)
  }

  /** One round of the cascade from a formula with a unit clause whose first
      literal is `u`: what the rest of the cascade and its round count are
      for each outcome of propagating `u`. */
  lemma CascadeStep(f: Formula, u: int)
    requires UnitClauses(f) != [] && u == UnitClauses(f)[0][0]
    ensures Propagate(f, u).Conflict? ==>
      Cascade(f) == CascadeConflict && CascadeRounds(f) == 1
    ensures Propagate(f, u).Simplified? && Propagate(f, u).cnf == [] ==>
      Cascade(f) == Cascaded([], [u]) && CascadeRounds(f) == 1
    ensures Propagate(f, u).Simplified? && Propagate(f, u).cnf != [] ==>
      && |Propagate(f, u).cnf| < |f|
      && Cascade(f) == Extend([u], Cascade(Propagate(f, u).cnf))
      && CascadeRounds(f) == 1 + CascadeRounds(Propagate(f, u).cnf)
  {
    assert u in UnitClauses(f)[0] && UnitClauses(f)[0] in f;
    PropagateLength(f, u);
  }

  lemma ExtendExtend(a: seq<int>, b: seq<int>, r: CascadeResult)
    ensures Extend(a, Extend(b, r)) == Extend(a + b, r)
  {
    match r
    case CascadeConflict =>
    case Cascaded(g, c) => assert a + (b + c) == (a + b) + c;
  }

  /** The source's while loop. */
  method AssignUnit(f: Formula) returns (r: CascadeResult)
    ensures r == Cascade(f)
  {
    var cnf := f;
    var forced: seq<int> := [];
    var units := UnitClauses(cnf);
    while units != []
      invariant units == UnitClauses(cnf)
      invariant Cascade(f) == Extend(forced, Cascade(cnf))
      decreases |cnf|
    {
      var u := units[0][0];
      assert u in units[0] && units[0] in cnf;
      var p := Bcp(cnf, u);
      PropagateLength(cnf, u);
      ghost var before := forced;
      forced := forced + [u];
      if p.Conflict? {
        assert Cascade(cnf) == CascadeConflict;
        return CascadeConflict;
      }
      var g := p.cnf;
      if g == [] {
        assert Cascade(cnf) == Cascaded([], [u]);
        return Cascaded(g, forced);
      }
      assert Cascade(cnf) == Extend([u], Cascade(g));
      ExtendExtend(before, [u], Cascade(g));
      cnf := g;
      units := UnitClauses(cnf);
    }
    assert Cascade(cnf) == Cascaded(cnf, []);
    assert forced + [] == forced;
    return Cascaded(cnf, forced);
  }

  /** The three exits: a conflict (after at least one round), or a formula
      without unit clauses, no longer than the input, reached after one round
      per forced literal; with nothing forced the formula is unchanged. */
  lemma {:induction false} CascadeOutcome(f: Formula)
    ensures Cascade(f).CascadeConflict? ==> CascadeRounds(f) >= 1
    ensures Cascade(f).Cascaded? ==>
      && (forall c :: c in Cascade(f).cnf ==> |c| != 1)
      && |Cascade(f).cnf| <= |f|
      && CascadeRounds(f) == |Cascade(f).forced|
      && (Cascade(f).forced == [] ==> Cascade(f).cnf == f)
    decreases |f|
  {
    var units := UnitClauses(f);
    if units != [] {
      var u := units[0][0];
      assert u in units[0] && units[0] in f;
      PropagateLength(f, u);
      match Propagate(f, u)
      case Conflict =>
      case Simplified(g) =>
        if g != [] {
          CascadeOutcome(g);
        }
    }
  }

  lemma VarsOfAppend(a: seq<int>, b: seq<int>)
    ensures VarsOf(a + b) == VarsOf(a) + VarsOf(b)
  {
    forall v | v in VarsOf(a + b) ensures v in VarsOf(a) + VarsOf(b) {
      var l :| l in a + b && v == Abs(l);
      if l in a { assert v in VarsOf(a); } else { assert v in VarsOf(b); }
    }
    forall v | v in VarsOf(a) + VarsOf(b) ensures v in VarsOf(a + b) {
      if v in VarsOf(a) {
        var l :| l in a && v == Abs(l);
        assert l in a + b;
      } else {
        var l :| l in b && v == Abs(l);
        assert l in a + b;
      }
    }
  }

  /** What a cascade that does not conflict leaves on a well-formed
      formula: well-formed clauses of two literals or more over variables of
      the input, and forced literals on distinct variables, none of which is
      left in the formula. */
  lemma CascadeWellFormed(f: Formula, g: Formula, forced: seq<int>)
    requires WellFormed(f) && Cascade(f) == Cascaded(g, forced)
    ensures WellFormed(g) && (forall c :: c in g ==> |c| >= 2) && Vars(g) <= Vars(f)
    ensures Consistent(forced) && VarsOf(forced) <= Vars(f) && VarsOf(forced) !! Vars(g)
  {
    CascadeShape(f);
    CascadeForced(f);
  }

  /** The formula part: well-formed, no clause shorter than two, no new
      variable. */
  lemma {:induction false} CascadeShape(f: Formula)
    requires WellFormed(f)
    ensures Cascade(f).Cascaded? ==>
      && WellFormed(Cascade(f).cnf)
      && (forall c :: c in Cascade(f).cnf ==> |c| >= 2)
      && Vars(Cascade(f).cnf) <= Vars(f)
    decreases |f|
  {
    var units := UnitClauses(f);
    if units == [] {
      assert Cascade(f) == Cascaded(f, []);
      forall c | c in f ensures |c| >= 2 {
        assert WellFormedClause(c);
      }
    } else {
      var u := units[0][0];
      CascadeStep(f, u);
      match Propagate(f, u)
      case Conflict =>
      case Simplified(g1) =>
        if g1 != [] {
          PropagateWellFormed(f, u);
          PropagateVars(f, u);
          CascadeShape(g1);
        }
    }
  }

  /** The forced part: each variable forced at most once, every one taken
      from the input, and none left in the formula. */
  lemma {:induction false} CascadeForced(f: Formula)
    requires WellFormed(f)
    ensures Cascade(f).Cascaded? ==>
      && Consistent(Cascade(f).forced)
      && VarsOf(Cascade(f).forced) <= Vars(f)
      && VarsOf(Cascade(f).forced) !! Vars(Cascade(f).cnf)
    decreases |f|
  {
    var units := UnitClauses(f);
    if units == [] {
      assert Cascade(f) == Cascaded(f, []);
    } else {
      var u := units[0][0];
      CascadeStep(f, u);
      assert u in units[0] && units[0] in f;
      assert u != 0 by { assert WellFormedClause(units[0]); }
      assert Abs(u) in Vars(f);
      match Propagate(f, u)
      case Conflict =>
      case Simplified(g1) =>
        if g1 == [] {
          assert VarsOf([u]) == {Abs(u)};
        } else {
          PropagateWellFormed(f, u);
          PropagateVars(f, u);
          CascadeForced(g1);
          CascadeShape(g1);
          match Cascade(g1)
          case CascadeConflict =>
          case Cascaded(g, rest) =>
            ForcedPrepend(f, u, g1, g, rest);
        }
    }
  }

  /** One forced literal in front of the rest of the cascade's: still at
      most once per variable, all from the input, none left in the formula. */
  lemma ForcedPrepend(f: Formula, u: int, g1: Formula, g: Formula, rest: seq<int>)
    requires u != 0 && Abs(u) in Vars(f)
    requires Vars(g1) <= Vars(f) - {Abs(u)} && Vars(g) <= Vars(g1)
    requires Consistent(rest) && VarsOf(rest) <= Vars(g1) && VarsOf(rest) !! Vars(g)
    ensures Consistent([u] + rest)
    ensures VarsOf([u] + rest) <= Vars(f) && VarsOf([u] + rest) !! Vars(g)
  {
    assert VarsOf([u]) == {Abs(u)};
    ConsistentAppend([u], rest);
    VarsOfAppend([u], rest);
  }


  /** Soundness: an assignment that makes every forced literal true and
      satisfies the simplified formula satisfies the input. */
  lemma {:induction false} CascadeSound(f: Formula, a: seq<int>)
    requires Cascade(f).Cascaded?
    requires forall l :: l in Cascade(f).forced ==> l in a
    requires Satisfies(a, Cascade(f).cnf)
    ensures Satisfies(a, f)
    decreases |f|
  {
    var units := UnitClauses(f);
    if units != [] {
      var u := units[0][0];
      assert u in units[0] && units[0] in f;
      PropagateLength(f, u);
      match Propagate(f, u)
      case Conflict =>
      case Simplified(g1) =>
        if g1 != [] {
          CascadeSound(g1, a);
        }
        PropagateSound(f, u, a);
    }
  }

  /** Completeness: an assignment without complementary literals that
      satisfies the input makes every unit literal true, so the cascade does
      not conflict and the assignment still satisfies what is left. */
  lemma {:induction false} CascadeComplete(f: Formula, a: seq<int>)
    requires NoComplement(a) && Satisfies(a, f)
    ensures Cascade(f).Cascaded?
    ensures Satisfies(a, Cascade(f).cnf)
    decreases |f|
  {
    var units := UnitClauses(f);
    if units != [] {
      var u := units[0][0];
      assert units[0] in f && units[0] == [u];
      assert SatisfiesClause(a, units[0]);
      assert u in a && u in units[0];
      PropagateLength(f, u);
      PropagateComplete(f, u, a);
      match Propagate(f, u)
      case Conflict =>
      case Simplified(g1) =>
        if g1 != [] {
          CascadeComplete(g1, a);
        }
    }
  }

  lemma PropagateExampleSat()
    ensures Propagate([[1], [-1, 2]], 1) == Simplified([[2]])
  {
    var f1: Formula := [[1], [-1, 2]];
    assert Strip([-1, 2], -1) == [2] by {
      assert [-1, 2][1..] == [2];
      assert Strip([2], -1) == [2];
    }
    ReduceAppend([[1]], [[-1, 2]], 1);
    ReduceSingle([1], 1);
    ReduceSingle([-1, 2], 1);
    assert f1 == [[1]] + [[-1, 2]];
    assert !Falsified(f1[0], 1) && !Falsified(f1[1], 1);
  }

  lemma CascadeExampleUnit()
    ensures Cascade([[2]]) == Cascaded([], [2])
    ensures CascadeRounds([[2]]) == 1
  {
    var f2: Formula := [[2]];
    assert UnitClauses(f2)[0] == [2];
    ReduceSingle([2], 2);
    assert Propagate(f2, 2) == Simplified([]);
  }

  /** `[[1], [-1, 2]]` forces 1 then 2 and empties the formula, in two
      rounds. */
  lemma CascadeExampleSat()
    ensures Cascade([[1], [-1, 2]]) == Cascaded([], [1, 2])
    ensures CascadeRounds([[1], [-1, 2]]) == 2
  {
    var f1: Formula := [[1], [-1, 2]];
    assert UnitClauses(f1)[0] == [1];
    PropagateExampleSat();
    CascadeExampleUnit();
  }

  /** `[[1], [-1]]` conflicts in the first round. */
  lemma CascadeExampleConflict()
    ensures Cascade([[1], [-1]]) == CascadeConflict
    ensures CascadeRounds([[1], [-1]]) == 1
  {
    var f3: Formula := [[1], [-1]];
    assert UnitClauses(f3)[0] == [1];
    assert Strip([-1], -1) == [];
    assert Falsified(f3[1], 1);
    assert Propagate(f3, 1) == Conflict;
  }
}
