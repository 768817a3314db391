/**
 * The function-style solver of `solver_typed.py`: `backtrack` always selects
 * with the two-sided Jeroslow-Wang method, so every decision is a positive
 * variable id decided true first.
 */
module SolverTyped {
  import opened Cnf
  import opened Propagation
  import opened UnitCascade
  import opened Heuristics
  import opened Dpll

  /** `backtrack(cnf, assignments)`: the unit cascade, then `[]` on a
      conflict, the assignments on an empty formula, and otherwise the
      branching.  A non-empty answer extends the incoming assignments and
      satisfies the formula. */
  method Backtrack(f: Formula, acc: seq<int>) returns (r: seq<int>)
    requires WellFormed(f)
    ensures r == Search(TwoSidedJw, f, acc)
    ensures r != [] ==> acc <= r && Satisfies(r, f)
    decreases |Vars(f)|, 2
  {
    var c := AssignUnit(f);
    if c.CascadeConflict? {
      return [];
    }
    var g, forced := c.cnf, c.forced;
    CascadeWellFormed(f, g, forced);
    SubsetCardinality(Vars(g), Vars(f));
    var a := acc + forced;
    if g == [] {
      r := a;
    } else {
      WellFormedHasLiteral(g);
      var v := JeroslowWangTwoSided(g);
      r := Split(g, a, v);
    }
    SearchSound(TwoSidedJw, f, acc);
  }

  /** The branching of `backtrack` on the selected variable: its positive
      literal first, its negation only when that finds nothing. */
  method Split(g: Formula, a: seq<int>, v: int) returns (r: seq<int>)
    requires WellFormed(g) && (forall c :: c in g ==> |c| >= 2)
    requires Abs(v) in Vars(g)
    ensures r == Branch(TwoSidedJw, g, a, v)
    decreases |Vars(g)|, 1
  {
    r := Decision(g, a, v);
    if |r| > 0 {
      return;
    }
    assert Abs(-v) == Abs(v);
    r := Decision(g, a, -v);
  }

  /** One recursive call of `backtrack`: the search on `bcp(cnf, x)` from
      the assignments extended with `x`. */
  method Decision(g: Formula, a: seq<int>, x: int) returns (r: seq<int>)
    requires WellFormed(g) && forall c :: c in g ==> |c| >= 2
    requires Abs(x) in Vars(g)
    ensures r == Try(TwoSidedJw, g, a, x)
    decreases |Vars(g)|, 0
  {
    Shrinks(g, x);
    DecideFacts(g, x);
    var p := Bcp(g, x);
    r := Backtrack(p.cnf, a + [x]);
  }

  /** Every decision of `backtrack` is a positive variable id of the formula,
      so the branch that sets it true comes first. */
  lemma DecisionPositive(g: Formula)
    requires WellFormed(g) && g != []
    ensures Choose(TwoSidedJw, g) > 0 && Choose(TwoSidedJw, g) in Vars(g)
  {
    WellFormedHasLiteral(g);
    TwoSidedChoicePositive(g);
  }
}
