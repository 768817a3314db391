/**
 * The class-based solver (`SatSolver` of `solver_class.py` and of
 * `solver/solver_class.py`): a strategy fixed at construction selects the
 * branching literal of the shared DPLL search.
 */
module SolverClass {
  import opened Cnf
  import opened Propagation
  import opened UnitCascade
  import opened Heuristics
  import opened Dpll

  class SatSolver {
    /** 1: first literal of the first clause, 2: one-sided Jeroslow-Wang,
        3: two-sided Jeroslow-Wang. */
    const strategy: int

    /** The constructor's assertion is a demand on the caller. */
    constructor (strategy: int)
      requires 1 <= strategy <= 3
      ensures this.strategy == strategy
    {
      this.strategy := strategy;
    }

    /** Construction as a caller sees it: a strategy outside 1..3 fails the
        assertion (`null` here) instead of giving a solver. */
    static method Create(strategy: int) returns (s: SatSolver?)
      ensures s == null <==> !(1 <= strategy <= 3)
      ensures s != null ==> fresh(s) && s.strategy == strategy
    {
      if 1 <= strategy <= 3 {
        s := new SatSolver(strategy);
      } else {
        s := null;
      }
    }
    /** `solve`: the unit cascade, then `[]` on a conflict, the
        assignments on an empty formula, and otherwise the branching on the
        selected literal. */
    method Solve(f: Formula, acc: seq<int>) returns (r: seq<int>)
      requires 1 <= strategy <= 3
      requires WellFormed(f)
      ensures r == Search(StrategyHeuristic(strategy), f, acc)
      ensures r != [] ==> acc <= r && Satisfies(r, f)
      decreases |Vars(f)|, 2
    {
      var c := AssignUnit(f);
      if c.CascadeConflict? {
        return [];
      }
      var g, forced := c.cnf, c.forced;
      CascadeWellFormed(f, g, forced);
      SubsetCardinality(Vars(g), Vars(f));
      var a := acc + forced;
      if g == [] {
        r := a;
      } else {
        var l := SelectLiteral(strategy, g);
        r := BranchOn(g, a, l);
      }
      SearchSound(StrategyHeuristic(strategy), f, acc);
    }

    /** The branching of `solve`: the literal `l` first, and its negation
        only when the first decision finds nothing. */
    method BranchOn(g: Formula, a: seq<int>, l: int) returns (r: seq<int>)
      requires 1 <= strategy <= 3
      requires WellFormed(g) && (forall c :: c in g ==> |c| >= 2)
      requires Abs(l) in Vars(g)
      ensures r == Branch(StrategyHeuristic(strategy), g, a, l)
      decreases |Vars(g)|, 1
    {
      r := TryLiteral(g, a, l);
      if |r| > 0 {
        return;
      }
      assert Abs(-l) == Abs(l);
      r := TryLiteral(g, a, -l);
    }

    /** One decision of `solve`: the recursive call on the formula with `x`
        propagated, from the assignments extended with `x`. */
    method TryLiteral(g: Formula, a: seq<int>, x: int) returns (r: seq<int>)
      requires 1 <= strategy <= 3
      requires WellFormed(g) && forall c :: c in g ==> |c| >= 2
      requires Abs(x) in Vars(g)
      ensures r == Try(StrategyHeuristic(strategy), g, a, x)
      decreases |Vars(g)|, 0
    {
      Shrinks(g, x);
      DecideFacts(g, x);
      var p := Bcp(g, x);
      r := Solve(p.cnf, a + [x]);
    }
  }
}
