/**
 * The metered solver of `solver/og_solver.py`: the same DPLL search as
 * `SolverClass`, with five counters kept on the instance and only ever
 * incremented.  `propagations` and `unit_clauses_resolved` count the
 * cascade's propagations (the conflicting one included), `conflicts` the
 * cascades that conflict, `decisions` the branchings and `backtracks` the
 * second decisions.
 */
module OgSolver {
  import opened Cnf
  import opened Propagation
  import opened UnitCascade
  import opened Heuristics
  import opened Dpll

  class MeteredSolver {
    /** 1-3 as in `SolverClass`; 4 (MOM's) and 5 (DLIS) are accepted by the
        constructor but name selectors that exist nowhere. */
    const strategy: int
    var decisions: nat
    var backtracks: nat
    var conflicts: nat
    var propagations: nat
    var unitClausesResolved: nat

    /** What every public operation keeps: the two propagation counters move
        together, a backtrack always follows a decision of the same call, and
        a conflict always ends a cascade that propagated. */
    ghost predicate Valid()
      reads this
    {
      && unitClausesResolved == propagations
      && backtracks <= decisions
      && conflicts <= propagations
    }

    /** `__init__`: the strategy must be 1 to 5, and every counter starts at
        zero. */
    constructor (strategy: int)
      requires 1 <= strategy <= 5
      ensures this.strategy == strategy
      ensures decisions == 0 && backtracks == 0 && conflicts == 0
      ensures propagations == 0 && unitClausesResolved == 0
    {
      this.strategy := strategy;
      decisions, backtracks, conflicts := 0, 0, 0;
      propagations, unitClausesResolved := 0, 0;
    }

    /** Construction as a caller sees it: a strategy outside 1..5 fails the
        assertion (`null` here) instead of giving a solver. */
    static method Create(strategy: int) returns (s: MeteredSolver?)
      ensures s == null <==> !(1 <= strategy <= 5)
      ensures s != null ==> fresh(s) && s.strategy == strategy
      ensures s != null ==> s.decisions == s.backtracks == s.conflicts == 0
      ensures s != null ==> s.propagations == s.unitClausesResolved == 0
    {
      if 1 <= strategy <= 5 {
        s := new MeteredSolver(strategy);
      } else {
        s := null;
      }
    }

    /** `get_unit_clauses`: the cascade, counting each propagation in both
        `propagations` and `unit_clauses_resolved`, the conflicting one
        included. */
    method GetUnitClauses(f: Formula) returns (r: CascadeResult)
      modifies this`propagations, this`unitClausesResolved
      ensures r == Cascade(f)
      ensures propagations == old(propagations) + CascadeRounds(f)
      ensures unitClausesResolved == old(unitClausesResolved) + CascadeRounds(f)
    {
      var cnf := f;
      var forced: seq<int> := [];
      ghost var p0, u0 := propagations, unitClausesResolved;
      ghost var rounds := 0;
      var units := UnitClauses(cnf);
      while units != []
        invariant units == UnitClauses(cnf)
        invariant Cascade(f) == Extend(forced, Cascade(cnf))
        invariant CascadeRounds(f) == rounds + CascadeRounds(cnf)
        invariant propagations == p0 + rounds && unitClausesResolved == u0 + rounds
        decreases |cnf|
      {
        var u := units[0][0];
        var p := Bcp(cnf, u);
        CascadeStep(cnf, u);
        unitClausesResolved := unitClausesResolved + 1;
        propagations := propagations + 1;
        rounds := rounds + 1;
        ghost var before := forced;
        forced := forced + [u];
        if p.Conflict? {
          return CascadeConflict;
        }
        var g := p.cnf;
        if g == [] {
          return Cascaded(g, forced);
        }
        ExtendExtend(before, [u], Cascade(g));
        cnf := g;
        units := UnitClauses(cnf);
      }
      assert Cascade(cnf) == Cascaded(cnf, []) && CascadeRounds(cnf) == 0;
      assert forced + [] == forced;
      return Cascaded(cnf, forced);
    }
    /** `solve`: the answer of the shared search, with each counter advanced
        by what that search counts. */
    method Solve(f: Formula, acc: seq<int>) returns (r: seq<int>)
      requires 1 <= strategy <= 3
      requires WellFormed(f)
      modifies this
      ensures r == Search(StrategyHeuristic(strategy), f, acc)
      ensures decisions == old(decisions) + SearchCounts(StrategyHeuristic(strategy), f, acc).decisions
      ensures backtracks == old(backtracks) + SearchCounts(StrategyHeuristic(strategy), f, acc).backtracks
      ensures conflicts == old(conflicts) + SearchCounts(StrategyHeuristic(strategy), f, acc).conflicts
      ensures propagations == old(propagations) + SearchCounts(StrategyHeuristic(strategy), f, acc).propagations
      ensures unitClausesResolved ==
              old(unitClausesResolved) + SearchCounts(StrategyHeuristic(strategy), f, acc).propagations
      ensures old(Valid()) ==> Valid()
      ensures r != [] ==> acc <= r && Satisfies(r, f)
      decreases |Vars(f)|, 2
    {
      CountsOrdered(StrategyHeuristic(strategy), f, acc);
      SearchSound(StrategyHeuristic(strategy), f, acc);
      var c := GetUnitClauses(f);
      if c.CascadeConflict? {
        conflicts := conflicts + 1;
        return [];
      }
      var g, forced := c.cnf, c.forced;
      CascadeWellFormed(f, g, forced);
      SubsetCardinality(Vars(g), Vars(f));
      var a := acc + forced;
      if g == [] {
        return a;
      }
      var l := SelectLiteral(strategy, g);
      r := BranchOn(g, a, l);
    }

    /** The branching of `solve`: a decision counted, the literal first, and
        only when that finds nothing a backtrack counted and its negation. */
    method BranchOn(g: Formula, a: seq<int>, l: int) returns (r: seq<int>)
      requires 1 <= strategy <= 3
      requires WellFormed(g) && (forall c :: c in g ==> |c| >= 2)
      requires Abs(l) in Vars(g)
      modifies this
      ensures r == Branch(StrategyHeuristic(strategy), g, a, l)
      ensures decisions == old(decisions) + BranchCounts(StrategyHeuristic(strategy), g, a, l).decisions
      ensures backtracks == old(backtracks) + BranchCounts(StrategyHeuristic(strategy), g, a, l).backtracks
      ensures conflicts == old(conflicts) + BranchCounts(StrategyHeuristic(strategy), g, a, l).conflicts
      ensures propagations == old(propagations) + BranchCounts(StrategyHeuristic(strategy), g, a, l).propagations
      ensures unitClausesResolved ==
              old(unitClausesResolved) + BranchCounts(StrategyHeuristic(strategy), g, a, l).propagations
      decreases |Vars(g)|, 1
    {
      decisions := decisions + 1;
      r := TryLiteral(g, a, l);
      if |r| > 0 {
        return;
      }
      backtracks := backtracks + 1;
      assert Abs(-l) == Abs(l);
      r := TryLiteral(g, a, -l);
    }

    /** One decision of `solve`: the recursive call on the formula with `x`
        propagated, which counts nothing itself. */
    method TryLiteral(g: Formula, a: seq<int>, x: int) returns (r: seq<int>)
      requires 1 <= strategy <= 3
      requires WellFormed(g) && forall c :: c in g ==> |c| >= 2
      requires Abs(x) in Vars(g)
      modifies this
      ensures r == Try(StrategyHeuristic(strategy), g, a, x)
      ensures decisions == old(decisions) + TryCounts(StrategyHeuristic(strategy), g, a, x).decisions
      ensures backtracks == old(backtracks) + TryCounts(StrategyHeuristic(strategy), g, a, x).backtracks
      ensures conflicts == old(conflicts) + TryCounts(StrategyHeuristic(strategy), g, a, x).conflicts
      ensures propagations == old(propagations) + TryCounts(StrategyHeuristic(strategy), g, a, x).propagations
      ensures unitClausesResolved ==
              old(unitClausesResolved) + TryCounts(StrategyHeuristic(strategy), g, a, x).propagations
      decreases |Vars(g)|, 0
    {
      Shrinks(g, x);
      DecideFacts(g, x);
      var p := Bcp(g, x);
      r := Solve(p.cnf, a + [x]);
    }
  }
}
