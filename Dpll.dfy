/**
 * The recursive DPLL search shared by every solver (`solve` / `backtrack`):
 * run the unit cascade; on a conflict answer `[]`; on an empty formula answer
 * the assignments gathered so far; otherwise choose a literal, search the
 * formula with it propagated, and only when that finds nothing search the
 * formula with its negation propagated.
 */
module Dpll {
  import opened Cnf
  import opened Propagation
  import opened UnitCascade
  import opened Heuristics

  /** The literal-selection strategies 1, 2 and 3. */
  datatype Heuristic = FirstLiteral | OneSidedJw | TwoSidedJw

  function StrategyHeuristic(strategy: int): (h: Heuristic)
    requires 1 <= strategy <= 3
    ensures strategy == 1 <==> h == FirstLiteral
    ensures strategy == 2 <==> h == OneSidedJw
  {
    if strategy == 1 then FirstLiteral
    else if strategy == 2 then OneSidedJw
    else TwoSidedJw
  }

  lemma WellFormedHasLiteral(f: Formula)
    requires WellFormed(f) && f != []
    ensures HasLiteral(f)
  {
    assert f[0] in f && WellFormedClause(f[0]);
  }

  /** `select_literal`: the first literal of the first clause, or the
      Jeroslow-Wang choice.  The result is a literal whose variable occurs in
      the formula. */
  function Choose(h: Heuristic, f: Formula): (l: int)
    requires WellFormed(f) && f != []
    ensures l != 0 && Abs(l) in Vars(f)
  {
    assert f[0] in f && WellFormedClause(f[0]);
    WellFormedHasLiteral(f);
    match h
    case FirstLiteral =>
      assert f[0][0] in f[0];
      f[0][0]
    case OneSidedJw =>
      var l := JwChoice(f, false);
      var i, j :| 0 <= i < |f| && 0 <= j < |f[i]| && Key(f[i][j], false) == l;
      assert f[i] in f && WellFormedClause(f[i]) && f[i][j] in f[i];
      l
    case TwoSidedJw =>
      var v := JwChoice(f, true);
      var i, j :| 0 <= i < |f| && 0 <= j < |f[i]| && Key(f[i][j], true) == v;
      assert f[i] in f && WellFormedClause(f[i]) && f[i][j] in f[i];
      v
  }

  /** `select_literal` of the solver classes: the first literal of the first
      clause for strategy 1, otherwise the Jeroslow-Wang method the strategy
      names. */
  method SelectLiteral(strategy: int, f: Formula) returns (l: int)
    requires 1 <= strategy <= 3
    requires WellFormed(f) && f != []
    ensures l == Choose(StrategyHeuristic(strategy), f)
    ensures l != 0 && Abs(l) in Vars(f)
  {
    WellFormedHasLiteral(f);
    if strategy == 1 {
      assert f[0] in f && WellFormedClause(f[0]);
      l := f[0][0];
    } else if strategy == 2 {
      l := JeroslowWang(f);
    } else {
      l := JeroslowWangTwoSided(f);
    }
  }

  /** Removing the propagated variable shrinks the variable set. */
  lemma VarsShrink(g: Formula, g1: Formula, f: Formula, x: nat)
    requires x in Vars(g) && Vars(g) <= Vars(f) && Vars(g1) <= Vars(g) - {x}
    ensures |Vars(g1)| < |Vars(f)|
  {
    SubsetCardinality(Vars(g1), Vars(g) - {x});
    SubsetCardinality(Vars(g), Vars(f));
  }

  /** `bcp(cnf, L)` on a decision literal, which never conflicts when every
      clause has two distinct literals or more (`DecideFacts`). */
  function Decide(g: Formula, x: int): Formula
    requires WellFormed(g) && forall c :: c in g ==> |c| >= 2
  {
    NoConflictOnLongClauses(g, x);
    Propagate(g, x).cnf
  }

  /** The decision propagation leaves a well-formed formula without the
      decided variable. */
  lemma DecideFacts(g: Formula, x: int)
    requires WellFormed(g) && forall c :: c in g ==> |c| >= 2
    ensures Propagate(g, x) == Simplified(Decide(g, x))
    ensures WellFormed(Decide(g, x))
    ensures Vars(Decide(g, x)) <= Vars(g) - {Abs(x)}
  {
    NoConflictOnLongClauses(g, x);
    PropagateWellFormed(g, x);
    PropagateVars(g, x);
  }

  /** A decision on a variable of the settled formula shrinks its variable
      set. */
  lemma Shrinks(g: Formula, x: int)
    requires WellFormed(g) && (forall c :: c in g ==> |c| >= 2)
    requires Abs(x) in Vars(g)
    ensures WellFormed(Decide(g, x)) && |Vars(Decide(g, x))| < |Vars(g)|
  {
    DecideFacts(g, x);
    VarsShrink(g, Decide(g, x), g, Abs(x));
  }

  /** What the search returns from assignments `acc`: `[]` when it finds
      nothing, otherwise `acc` extended with a satisfying assignment.  The
      unit cascade runs first; a conflict answers `[]`, an empty formula the
      assignments, and otherwise the chosen literal is branched on. */
  function Search(h: Heuristic, f: Formula, acc: seq<int>): seq<int>
    requires WellFormed(f)
    decreases |Vars(f)|, 2
  {
    match Cascade(f)
    case CascadeConflict => []
    case Cascaded(g, forced) =>
      CascadeWellFormed(f, g, forced);
      SubsetCardinality(Vars(g), Vars(f));
      if g == [] then acc + forced
      else Branch(h, g, acc + forced, Choose(h, g))
  }

  /** The branching on `l` after a cascade that left `g` and assignments
      `a`: `l` is decided true and, only when that finds nothing, false. */
  function Branch(h: Heuristic, g: Formula, a: seq<int>, l: int): seq<int>
    requires WellFormed(g) && forall c :: c in g ==> |c| >= 2
    requires Abs(l) in Vars(g)
    decreases |Vars(g)|, 1
  {
    var pos := Try(h, g, a, l);
    if |pos| > 0 then pos else Try(h, g, a, -l)
  }

  /** One decision: the search on the formula with `x` propagated, from the
      assignments extended with `x`.  The propagation never conflicts
      (`Decide`) and removes a variable, so the search terminates. */
  function Try(h: Heuristic, g: Formula, a: seq<int>, x: int): seq<int>
    requires WellFormed(g) && forall c :: c in g ==> |c| >= 2
    requires Abs(x) in Vars(g)
    decreases |Vars(g)|, 0
  {
    Shrinks(g, x);
    Search(h, Decide(g, x), a + [x])
  }

  /** Soundness: a non-empty answer extends the incoming assignments and
      satisfies every clause of the formula. */
  lemma {:induction false} SearchSound(h: Heuristic, f: Formula, acc: seq<int>)
    requires WellFormed(f)
    ensures Search(h, f, acc) != [] ==> acc <= Search(h, f, acc) && Satisfies(Search(h, f, acc), f)
    decreases |Vars(f)|, 2
  {
    match Cascade(f)
    case CascadeConflict =>
    case Cascaded(g, forced) =>
      CascadeWellFormed(f, g, forced);
      SubsetCardinality(Vars(g), Vars(f));
      var r := Search(h, f, acc);
      if g != [] {
        BranchSound(h, g, acc + forced, Choose(h, g));
      }
      if r != [] {
        assert forall y :: y in forced ==> y in acc + forced;
        CascadeSound(f, r);
      }
  }

  lemma {:induction false} BranchSound(h: Heuristic, g: Formula, a: seq<int>, l: int)
    requires WellFormed(g) && forall c :: c in g ==> |c| >= 2
    requires Abs(l) in Vars(g)
    ensures Branch(h, g, a, l) != [] ==> a <= Branch(h, g, a, l) && Satisfies(Branch(h, g, a, l), g)
    decreases |Vars(g)|, 1
  {
    TrySound(h, g, a, l);
    TrySound(h, g, a, -l);
  }

  /** An answer that extends a decision and satisfies the formula the
      decision left satisfies the formula before it. */
  lemma {:induction false} TrySound(h: Heuristic, g: Formula, a: seq<int>, x: int)
    requires WellFormed(g) && forall c :: c in g ==> |c| >= 2
    requires Abs(x) in Vars(g)
    ensures Try(h, g, a, x) != [] ==> a <= Try(h, g, a, x) && Satisfies(Try(h, g, a, x), g)
    decreases |Vars(g)|, 0
  {
    Shrinks(g, x);
    DecideFacts(g, x);
    var r := Search(h, Decide(g, x), a + [x]);
    SearchSound(h, Decide(g, x), a + [x]);
    if r != [] {
      assert x in a + [x];
      PropagateSound(g, x, r);
    }
  }

  /** The answer assigns every variable at most once, given incoming
      assignments that do so and that mention no variable of the formula. */
  lemma {:induction false} SearchConsistent(h: Heuristic, f: Formula, acc: seq<int>)
    requires WellFormed(f)
    requires Consistent(acc) && VarsOf(acc) !! Vars(f)
    ensures Consistent(Search(h, f, acc))
    decreases |Vars(f)|, 2
  {
    match Cascade(f)
    case CascadeConflict =>
    case Cascaded(g, forced) =>
      CascadeWellFormed(f, g, forced);
      SubsetCardinality(Vars(g), Vars(f));
      ConsistentAppend(acc, forced);
      VarsOfAppend(acc, forced);
      if g != [] {
        BranchConsistent(h, g, acc + forced, Choose(h, g));
      }
  }

  lemma {:induction false} BranchConsistent(h: Heuristic, g: Formula, a: seq<int>, l: int)
    requires WellFormed(g) && forall c :: c in g ==> |c| >= 2
    requires Abs(l) in Vars(g)
    requires Consistent(a) && VarsOf(a) !! Vars(g)
    ensures Consistent(Branch(h, g, a, l))
    decreases |Vars(g)|, 1
  {
    TryConsistent(h, g, a, l);
    TryConsistent(h, g, a, -l);
  }

  /** Appending a decision on a variable of the formula that the
      assignments do not mention keeps them consistent and apart from the
      formula left. */
  lemma {:induction false} TryConsistent(h: Heuristic, g: Formula, a: seq<int>, x: int)
    requires WellFormed(g) && forall c :: c in g ==> |c| >= 2
    requires Abs(x) in Vars(g)
    requires Consistent(a) && VarsOf(a) !! Vars(g)
    ensures Consistent(Try(h, g, a, x))
    decreases |Vars(g)|, 0
  {
    Shrinks(g, x);
    DecideFacts(g, x);
    assert VarsOf([x]) == {Abs(x)};
    ConsistentAppend(a, [x]);
    VarsOfAppend(a, [x]);
    SearchConsistent(h, Decide(g, x), a + [x]);
  }

  /** Completeness: when some assignment without complementary literals
      satisfies the formula, the search answers something other than `[]`
      (unless there is nothing to answer: no formula and no assignments). */
  lemma {:induction false} SearchComplete(h: Heuristic, f: Formula, acc: seq<int>, a: seq<int>)
    requires WellFormed(f)
    requires NoComplement(a) && Satisfies(a, f)
    requires acc != [] || f != []
    ensures Search(h, f, acc) != []
    decreases |Vars(f)|, 2
  {
    CascadeComplete(f, a);
    CascadeOutcome(f);
    match Cascade(f)
    case Cascaded(g, forced) =>
      CascadeWellFormed(f, g, forced);
      SubsetCardinality(Vars(g), Vars(f));
      if g != [] {
        BranchComplete(h, g, acc + forced, Choose(h, g), a);
      }
  }

  lemma {:induction false} BranchComplete(h: Heuristic, g: Formula, b: seq<int>, l: int, a: seq<int>)
    requires WellFormed(g) && forall c :: c in g ==> |c| >= 2
    requires Abs(l) in Vars(g)
    requires NoComplement(a) && Satisfies(a, g)
    ensures Branch(h, g, b, l) != []
    decreases |Vars(g)|, 1
  {
    var x := Agreeing(a, l);
    TryComplete(h, g, b, x, a);
  }

  /** Of a literal and its negation, one whose complement an assignment
      without complementary literals does not hold. */
  lemma Agreeing(a: seq<int>, l: int) returns (x: int)
    requires NoComplement(a)
    ensures (x == l || x == -l) && -x !in a
  {
    if l in a {
      x := l;
    } else {
      x := -l;
    }
  }

  /** A decision that agrees with a satisfying assignment finds an answer. */
  lemma {:induction false} TryComplete(h: Heuristic, g: Formula, b: seq<int>, x: int, a: seq<int>)
    requires WellFormed(g) && forall c :: c in g ==> |c| >= 2
    requires Abs(x) in Vars(g)
    requires NoComplement(a) && Satisfies(a, g) && -x !in a
    ensures Try(h, g, b, x) != []
    decreases |Vars(g)|, 0
  {
    Shrinks(g, x);
    DecideFacts(g, x);
    PropagateComplete(g, x, a);
    SearchComplete(h, Decide(g, x), b + [x], a);
  }

  /** From no assignments, a non-empty formula gets a non-empty answer
      exactly when it is satisfiable. */
  lemma SolveDecides(h: Heuristic, f: Formula)
    requires WellFormed(f) && f != []
    ensures Search(h, f, []) != [] <==> Satisfiable(f)
  {
    var r := Search(h, f, []);
    if r != [] {
      SearchSound(h, f, []);
      SearchConsistent(h, f, []);
      ConsistentHasNoComplement(r);
    } else if Satisfiable(f) {
      var a :| NoComplement(a) && Satisfies(a, f);
      SearchComplete(h, f, [], a);
    }
  }

  /** The search counters of the metered solver: decisions, backtracks,
      conflicts, and propagations (equal to unit clauses resolved). */
  datatype Counts = Counts(decisions: nat, backtracks: nat, conflicts: nat, propagations: nat)

  /** What one `solve` call adds to the counters: one propagation per
      cascade round and one conflict when the cascade conflicts, plus what
      the branching adds. */
  function SearchCounts(h: Heuristic, f: Formula, acc: seq<int>): Counts
    requires WellFormed(f)
    decreases |Vars(f)|, 2
  {
    var rounds := CascadeRounds(f);
    match Cascade(f)
    case CascadeConflict => Counts(0, 0, 1, rounds)
    case Cascaded(g, forced) =>
      CascadeWellFormed(f, g, forced);
      SubsetCardinality(Vars(g), Vars(f));
      if g == [] then Counts(0, 0, 0, rounds)
      else
        var b := BranchCounts(h, g, acc + forced, Choose(h, g));
        Counts(b.decisions, b.backtracks, b.conflicts, rounds + b.propagations)
  }

  /** One decision per branching, one backtrack when the first branch finds
      nothing, plus what the recursive calls add. */
  function BranchCounts(h: Heuristic, g: Formula, a: seq<int>, l: int): Counts
    requires WellFormed(g) && forall c :: c in g ==> |c| >= 2
    requires Abs(l) in Vars(g)
    decreases |Vars(g)|, 1
  {
    var t := TryCounts(h, g, a, l);
    if |Try(h, g, a, l)| > 0 then
      Counts(1 + t.decisions, t.backtracks, t.conflicts, t.propagations)
    else
      var u := TryCounts(h, g, a, -l);
      Counts(1 + t.decisions + u.decisions, 1 + t.backtracks + u.backtracks,
             t.conflicts + u.conflicts, t.propagations + u.propagations)
  }

  /** What the search after one decision adds. */
  function TryCounts(h: Heuristic, g: Formula, a: seq<int>, x: int): Counts
    requires WellFormed(g) && forall c :: c in g ==> |c| >= 2
    requires Abs(x) in Vars(g)
    decreases |Vars(g)|, 0
  {
    Shrinks(g, x);
    SearchCounts(h, Decide(g, x), a + [x])
  }

  /** An empty formula needs no cascade round and no decision: the answer
      is the incoming assignments, so from a top-level call the empty list,
      the same value as "unsatisfiable". */
  lemma EmptyFormula(h: Heuristic, acc: seq<int>)
    ensures Search(h, [], acc) == acc
    ensures SearchCounts(h, [], acc) == Counts(0, 0, 0, 0)
  {
    assert UnitClauses([]) == [];
  }

  /** A call backtracks at most once and only after deciding, so backtracks
      never outnumber decisions; every conflict ends a cascade of at least
      one propagation, so conflicts never outnumber propagations. */
  lemma {:induction false} CountsOrdered(h: Heuristic, f: Formula, acc: seq<int>)
    requires WellFormed(f)
    ensures SearchCounts(h, f, acc).backtracks <= SearchCounts(h, f, acc).decisions
    ensures SearchCounts(h, f, acc).conflicts <= SearchCounts(h, f, acc).propagations
    decreases |Vars(f)|, 2
  {
    CascadeOutcome(f);
    match Cascade(f)
    case CascadeConflict =>
    case Cascaded(g, forced) =>
      CascadeWellFormed(f, g, forced);
      SubsetCardinality(Vars(g), Vars(f));
      if g != [] {
        BranchCountsOrdered(h, g, acc + forced, Choose(h, g));
      }
  }

  lemma {:induction false} BranchCountsOrdered(h: Heuristic, g: Formula, a: seq<int>, l: int)
    requires WellFormed(g) && forall c :: c in g ==> |c| >= 2
    requires Abs(l) in Vars(g)
    ensures BranchCounts(h, g, a, l).backtracks <= BranchCounts(h, g, a, l).decisions
    ensures BranchCounts(h, g, a, l).conflicts <= BranchCounts(h, g, a, l).propagations
    decreases |Vars(g)|, 1
  {
    TryCountsOrdered(h, g, a, l);
    if |Try(h, g, a, l)| == 0 {
      assert Abs(-l) == Abs(l);
      TryCountsOrdered(h, g, a, -l);
    }
  }

  lemma {:induction false} TryCountsOrdered(h: Heuristic, g: Formula, a: seq<int>, x: int)
    requires WellFormed(g) && forall c :: c in g ==> |c| >= 2
    requires Abs(x) in Vars(g)
    ensures TryCounts(h, g, a, x).backtracks <= TryCounts(h, g, a, x).decisions
    ensures TryCounts(h, g, a, x).conflicts <= TryCounts(h, g, a, x).propagations
    decreases |Vars(g)|, 0
  {
    Shrinks(g, x);
    CountsOrdered(h, Decide(g, x), a + [x]);
  }

  /** A search that answers `[]` from non-empty assignments or a non-empty
      formula has met at least one conflict. */
  lemma {:induction false} UnsatHasConflict(h: Heuristic, f: Formula, acc: seq<int>)
    requires WellFormed(f)
    requires acc != [] || f != []
    requires Search(h, f, acc) == []
    ensures SearchCounts(h, f, acc).conflicts >= 1
    decreases |Vars(f)|, 2
  {
    CascadeOutcome(f);
    match Cascade(f)
    case CascadeConflict =>
    case Cascaded(g, forced) =>
      CascadeWellFormed(f, g, forced);
      SubsetCardinality(Vars(g), Vars(f));
      if g != [] {
        BranchUnsatHasConflict(h, g, acc + forced, Choose(h, g));
      }
  }

  lemma {:induction false} BranchUnsatHasConflict(h: Heuristic, g: Formula, a: seq<int>, l: int)
    requires WellFormed(g) && forall c :: c in g ==> |c| >= 2
    requires Abs(l) in Vars(g)
    requires Branch(h, g, a, l) == []
    ensures BranchCounts(h, g, a, l).conflicts >= 1
    decreases |Vars(g)|, 1
  {
    TryUnsatHasConflict(h, g, a, l);
  }

  lemma {:induction false} TryUnsatHasConflict(h: Heuristic, g: Formula, a: seq<int>, x: int)
    requires WellFormed(g) && forall c :: c in g ==> |c| >= 2
    requires Abs(x) in Vars(g)
    requires Try(h, g, a, x) == []
    ensures TryCounts(h, g, a, x).conflicts >= 1
    decreases |Vars(g)|, 0
  {
    Shrinks(g, x);
    UnsatHasConflict(h, Decide(g, x), a + [x]);
  }
}
