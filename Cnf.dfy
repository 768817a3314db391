/** Option and Result types shared by the solver and the encoder. */
module Wrappers {
  datatype Option<+T> = None | Some(value: T)
  datatype Result<+T, +E> = Success(value: T) | Failure(error: E)
}

/**
 * Formulas in conjunctive normal form as the solver receives them: a formula
 * is a list of clauses, a clause a list of non-zero signed integer literals
 * whose magnitude is the variable id and whose sign is the polarity.
 */
module Cnf {

  type Clause = seq<int>
  type Formula = seq<Clause>

  /** Python's `abs` on a literal: its variable id. */
  function Abs(l: int): nat {
    if l < 0 then -l else l
  }

  predicate Distinct(s: seq<int>) {
    forall i, j :: 0 <= i < j < |s| ==> s[i] != s[j]
  }

  /** A clause as the parser produces it from a well-formed DIMACS line. */
  predicate WellFormedClause(c: Clause) {
    |c| > 0 && (forall l :: l in c ==> l != 0) && Distinct(c)
  }

  predicate WellFormed(f: Formula) {
    forall c :: c in f ==> WellFormedClause(c)
  }

  /** The variable ids that occur in a formula, in either polarity. */
  function Vars(f: Formula): set<nat> {
    set c, l | c in f && l in c :: Abs(l)
  }

  /** The variable ids of an assignment (a list of literals set true). */
  function VarsOf(a: seq<int>): set<nat> {
    set l | l in a :: Abs(l)
  }

  /** An assignment satisfies a clause when it makes one of its literals true. */
  predicate SatisfiesClause(a: seq<int>, c: Clause) {
    exists l :: l in c && l in a
  }

  predicate Satisfies(a: seq<int>, f: Formula) {
    forall c :: c in f ==> SatisfiesClause(a, c)
  }

  /** No literal occurs together with its negation. */
  predicate NoComplement(a: seq<int>) {
    forall l :: l in a ==> l != 0 && -l !in a
  }

  /** Every variable is assigned at most once, and no literal is 0. */
  predicate Consistent(a: seq<int>) {
    (forall i :: 0 <= i < |a| ==> a[i] != 0) &&
    (forall i, j :: 0 <= i < j < |a| ==> Abs(a[i]) != Abs(a[j]))
  }

  /** A formula is satisfiable when some assignment without complementary
      literals satisfies every clause. */
  ghost predicate Satisfiable(f: Formula) {
    exists a :: NoComplement(a) && Satisfies(a, f)
  }

  lemma ConsistentHasNoComplement(a: seq<int>)
    requires Consistent(a)
    ensures NoComplement(a)
  {
    forall l | l in a ensures l != 0 && -l !in a {
      var i :| 0 <= i < |a| && a[i] == l;
      forall j | 0 <= j < |a| ensures a[j] != -l {
        if j < i {
          assert Abs(a[j]) != Abs(a[i]);
        } else if j > i {
          assert Abs(a[i]) != Abs(a[j]);
        }
      }
    }
  }

  lemma ConsistentAppend(a: seq<int>, b: seq<int>)
    requires Consistent(a) && Consistent(b) && VarsOf(a) !! VarsOf(b)
    ensures Consistent(a + b)
  {
    var ab := a + b;
    forall i, j | 0 <= i < j < |ab| ensures Abs(ab[i]) != Abs(ab[j]) {
      if j < |a| {
        assert ab[i] == a[i] && ab[j] == a[j];
      } else if i >= |a| {
        assert ab[i] == b[i - |a|] && ab[j] == b[j - |a|];
      } else {
        assert ab[i] == a[i] && ab[j] == b[j - |a|];
        assert Abs(a[i]) in VarsOf(a);
        assert Abs(b[j - |a|]) in VarsOf(b);
      }
    }
    forall i | 0 <= i < |ab| ensures ab[i] != 0 {
      if i < |a| { assert ab[i] == a[i]; } else { assert ab[i] == b[i - |a|]; }
    }
  }

  lemma SubsetCardinality(a: set<nat>, b: set<nat>)
    requires a <= b
    ensures |a| <= |b|
  {
    if a != {} {
      var x :| x in a;
      SubsetCardinality(a - {x}, b - {x});
    }
  }
}
