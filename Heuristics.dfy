/**
 * Jeroslow-Wang literal selection (`jersolow` / `jersolow_sided` and their
 * copies `jersolow_wang_method` / `jersolow_wang_2_sided_method`).  Every
 * occurrence of a key in a clause of length n adds 2^-n to the key's weight
 * in a dictionary with default 0; the key is the literal itself (one-sided)
 * or its variable id (two-sided).  Python's `max(d, key=d.get)` then returns
 * the first key, in insertion order, whose weight is maximal.  Weights are
 * exact reals here.
 */
module Heuristics {
  import opened Cnf

  function Pow2(n: nat): (r: nat)
    ensures r >= 1
  {
    if n == 0 then 1 else 2 * Pow2(n - 1)
  }

  /** `2 ** -len(clause)`. */
  function Share(c: Clause): (r: real)
    ensures r > 0.0
  {
    1.0 / (Pow2(|c|) as real)
  }

  /** The dictionary key of a literal. */
  function Key(l: int, twoSided: bool): int {
    if twoSided then Abs(l) else l
  }

  /** The weight one clause's literals `lits` give key `k`, each occurrence
      adding `share`. */
  function ClauseWeight(lits: seq<int>, k: int, twoSided: bool, share: real): real {
    if lits == [] then 0.0
    else
      ClauseWeight(lits[..|lits| - 1], k, twoSided, share)
      + (if Key(lits[|lits| - 1], twoSided) == k then share else 0.0)
  }

  /** Σ over clauses c and occurrences of `k` in c of 2^-|c|. */
  function Weight(f: Formula, k: int, twoSided: bool): real {
    if f == [] then 0.0
    else
      var c := f[|f| - 1];
      Weight(f[..|f| - 1], k, twoSided) + ClauseWeight(c, k, twoSided, Share(c))
  }

  /** Some literal of `f` has key `k`. */
  predicate Occurs(f: Formula, k: int, twoSided: bool) {
    exists i, j :: 0 <= i < |f| && 0 <= j < |f[i]| && Key(f[i][j], twoSided) == k
  }

  predicate HasLiteral(f: Formula) {
    exists i :: 0 <= i < |f| && |f[i]| > 0
  }

  /** Insertion order of the dictionary: the keys of `lits`, in order of
      first occurrence, appended to `order`. */
  function AddKeys(order: seq<int>, lits: seq<int>, twoSided: bool): (r: seq<int>)
    ensures order <= r
    ensures Distinct(order) ==> Distinct(r)
  {
    if lits == [] then order
    else
      var n := |lits| - 1;
      var o := AddKeys(order, lits[..n], twoSided);
      var k := Key(lits[n], twoSided);
      if k in o then o
      else
        assert forall i :: 0 <= i < |o| ==> o[i] in o;
        o + [k]
  }

  /** The keys inserted are the ones already there and those of `lits`. */
  lemma {:induction false} AddKeysMembers(order: seq<int>, lits: seq<int>, twoSided: bool)
    ensures forall k :: k in AddKeys(order, lits, twoSided) <==>
      k in order || exists j :: 0 <= j < |lits| && Key(lits[j], twoSided) == k
  {
    if lits != [] {
      var n := |lits| - 1;
      AddKeysMembers(order, lits[..n], twoSided);
      assert forall j :: 0 <= j < n ==> lits[..n][j] == lits[j];
    }
  }

  /** The dictionary's keys in insertion order after scanning `f`. */
  function KeyOrder(f: Formula, twoSided: bool): (r: seq<int>)
    ensures Distinct(r)
    ensures forall k :: k in r <==> Occurs(f, k, twoSided)
  {
    if f == [] then []
    else
      var n := |f| - 1;
      var r := AddKeys(KeyOrder(f[..n], twoSided), f[n], twoSided);
      AddKeysMembers(KeyOrder(f[..n], twoSided), f[n], twoSided);
      assert forall k :: Occurs(f[..n], k, twoSided) ==> Occurs(f, k, twoSided) by {
        forall k | Occurs(f[..n], k, twoSided) ensures Occurs(f, k, twoSided) {
          var i, j :| 0 <= i < n && 0 <= j < |f[..n][i]| && Key(f[..n][i][j], twoSided) == k;
          assert f[i][j] == f[..n][i][j];
        }
      }
      assert forall k :: Occurs(f, k, twoSided) ==> k in r by {
        forall k | Occurs(f, k, twoSided) ensures k in r {
          var i, j :| 0 <= i < |f| && 0 <= j < |f[i]| && Key(f[i][j], twoSided) == k;
          if i < n {
            assert f[..n][i][j] == f[i][j];
            assert Occurs(f[..n], k, twoSided);
          }
        }
      }
      r
  }

  /** `max(keys, key=w.get)`: scanning left to right, a later key replaces
      the current best only when its weight is strictly greater. */
  function FirstMax(keys: seq<int>, w: map<int, real>): (r: int)
    requires |keys| > 0
    requires forall i :: 0 <= i < |keys| ==> keys[i] in w
    ensures r in keys
  {
    if |keys| == 1 then keys[0]
    else
      var n := |keys| - 1;
      var b := FirstMax(keys[..n], w);
      assert b in keys[..n];
      if w[keys[n]] > w[b] then keys[n] else b
  }

  /** The key `max` returns has maximal weight. */
  lemma {:induction false} FirstMaxIsMaximal(keys: seq<int>, w: map<int, real>)
    requires |keys| > 0
    requires forall i :: 0 <= i < |keys| ==> keys[i] in w
    ensures forall i :: 0 <= i < |keys| ==> w[keys[i]] <= w[FirstMax(keys, w)]
  {
    if |keys| > 1 {
      var n := |keys| - 1;
      var prefix := keys[..n];
      FirstMaxIsMaximal(prefix, w);
      var b := FirstMax(prefix, w);
      var r := FirstMax(keys, w);
      assert r == if w[keys[n]] > w[b] then keys[n] else b;
      forall i | 0 <= i < |keys| ensures w[keys[i]] <= w[r] {
        if i < n {
          assert keys[i] == prefix[i];
        }
      }
    }
  }

  /** No key before the one `max` returns has the same weight: ties go to the
      key inserted first. */
  lemma {:induction false} FirstMaxIsFirst(keys: seq<int>, w: map<int, real>)
    requires |keys| > 0
    requires forall i :: 0 <= i < |keys| ==> keys[i] in w
    ensures forall i :: 0 <= i < |keys| && w[keys[i]] == w[FirstMax(keys, w)] ==>
      FirstMax(keys, w) in keys[..i + 1]
  {
    if |keys| > 1 {
      var n := |keys| - 1;
      var prefix := keys[..n];
      FirstMaxIsFirst(prefix, w);
      FirstMaxIsMaximal(prefix, w);
      var b := FirstMax(prefix, w);
      var r := FirstMax(keys, w);
      assert r == if w[keys[n]] > w[b] then keys[n] else b;
      forall i | 0 <= i < |keys| && w[keys[i]] == w[r] ensures r in keys[..i + 1] {
        if i == n {
          assert keys[..i + 1] == keys;
        } else {
          assert keys[i] == prefix[i];
          assert w[prefix[i]] <= w[b];
          assert r == b;
          assert b in prefix[..i + 1];
          var p :| 0 <= p <= i && prefix[p] == b;
          assert keys[..i + 1][p] == b;
        }
      }
    }
  }

  /** The dictionary `literal_weight` once filled: every key that occurs,
      with its weight. */
  function WeightMap(f: Formula, twoSided: bool): (m: map<int, real>)
    ensures forall k :: k in m <==> Occurs(f, k, twoSided)
  {
    map k | k in KeyOrder(f, twoSided) :: Weight(f, k, twoSided)
  }

  /** The key a Jeroslow-Wang method returns. */
  function JwChoice(f: Formula, twoSided: bool): (r: int)
    requires HasLiteral(f)
    ensures Occurs(f, r, twoSided)
  {
    var i :| 0 <= i < |f| && |f[i]| > 0;
    assert Occurs(f, Key(f[i][0], twoSided), twoSided);
    FirstMax(KeyOrder(f, twoSided), WeightMap(f, twoSided))
  }

  /** `defaultdict` lookup: absent keys weigh 0. */
  function Get(m: map<int, real>, k: int): real {
    if k in m then m[k] else 0.0
  }

  /** One more literal of the clause being scanned. */
  lemma ClauseWeightStep(lits: seq<int>, j: nat, k: int, twoSided: bool, share: real)
    requires j < |lits|
    ensures ClauseWeight(lits[..j + 1], k, twoSided, share) ==
      ClauseWeight(lits[..j], k, twoSided, share) + (if Key(lits[j], twoSided) == k then share else 0.0)
  {
    assert lits[..j + 1][..j] == lits[..j];
  }

  /** One more clause of the formula being scanned. */
  lemma WeightStep(f: Formula, i: nat, k: int, twoSided: bool)
    requires i < |f|
    ensures Weight(f[..i + 1], k, twoSided) == Weight(f[..i], k, twoSided) + ClauseWeight(f[i], k, twoSided, Share(f[i]))
  {
    assert f[..i + 1][..i] == f[..i];
  }

  lemma AddKeysStep(order: seq<int>, lits: seq<int>, j: nat, twoSided: bool)
    requires j < |lits|
    ensures AddKeys(order, lits[..j + 1], twoSided) ==
      var o := AddKeys(order, lits[..j], twoSided);
      if Key(lits[j], twoSided) in o then o else o + [Key(lits[j], twoSided)]
  {
    assert lits[..j + 1][..j] == lits[..j];
  }

  lemma KeyOrderStep(f: Formula, i: nat, twoSided: bool)
    requires i < |f|
    ensures KeyOrder(f[..i + 1], twoSided) == AddKeys(KeyOrder(f[..i], twoSided), f[i], twoSided)
  {
    assert f[..i + 1][..i] == f[..i];
  }

  /** Key `k` is met while scanning `f` clause by clause, literal by
      literal, before position `j` of clause `i`. */
  predicate SeenBefore(f: Formula, k: int, i: int, j: int, twoSided: bool) {
    exists i', j' :: 0 <= i' < |f| && 0 <= j' < |f[i']| && (i' < i || (i' == i && j' < j)) &&
      Key(f[i'][j'], twoSided) == k
  }

  /** A key inserted after a distinct prefix `order` is new: it is not in
      `order`. */
  lemma NewKeyNotInOrder(order: seq<int>, o: seq<int>, p: nat)
    requires order <= o && Distinct(o) && |order| <= p < |o|
    ensures o[p] !in order
  {
  }

  /** The keys `lits` adds to `order` come in order of first occurrence:
      wherever a later-added key occurs in `lits`, an earlier-added one
      occurred before. */
  lemma {:induction false} AddKeysFirstSeen(order: seq<int>, lits: seq<int>, twoSided: bool)
    requires Distinct(order)
    ensures forall p, q, j ::
      (0 <= p < q < |AddKeys(order, lits, twoSided)| && |order| <= p && 0 <= j < |lits| &&
       Key(lits[j], twoSided) == AddKeys(order, lits, twoSided)[q]) ==>
        exists i :: 0 <= i < j && Key(lits[i], twoSided) == AddKeys(order, lits, twoSided)[p]
  {
    var r := AddKeys(order, lits, twoSided);
    if lits != [] {
      var n := |lits| - 1;
      var front := lits[..n];
      var o := AddKeys(order, front, twoSided);
      var k := Key(lits[n], twoSided);
      AddKeysFirstSeen(order, front, twoSided);
      AddKeysMembers(order, front, twoSided);
      assert forall j :: 0 <= j < n ==> front[j] == lits[j];
      assert r == if k in o then o else o + [k];
      forall p, q, j | 0 <= p < q < |r| && |order| <= p && 0 <= j < |lits| && Key(lits[j], twoSided) == r[q]
        ensures exists i :: 0 <= i < j && Key(lits[i], twoSided) == r[p]
      {
        NewKeyNotInOrder(order, o, p);
        if q < |o| {
          assert r[p] == o[p] && r[q] == o[q];
          if j < n {
            assert Key(front[j], twoSided) == o[q];
            var i :| 0 <= i < j && Key(front[i], twoSided) == o[p];
            assert Key(lits[i], twoSided) == r[p];
          } else {
            NewKeyNotInOrder(order, o, q);
            var j0 :| 0 <= j0 < n && Key(front[j0], twoSided) == o[q];
            var i :| 0 <= i < j0 && Key(front[i], twoSided) == o[p];
            assert Key(lits[i], twoSided) == r[p];
          }
        } else {
          assert r[q] == k && k !in o;
          if j < n {
            assert false;
          }
          assert o[p] in o;
          var i :| 0 <= i < n && Key(front[i], twoSided) == o[p];
          assert Key(lits[i], twoSided) == r[p];
        }
      }
    }
  }

  /** Scanning a prefix of the clauses meets a key before any position of
      a later clause. */
  lemma SeenInPrefix(f: Formula, n: nat, k: int, i: int, j: int, twoSided: bool)
    requires n <= |f|
    requires SeenBefore(f[..n], k, i, j, twoSided) || (Occurs(f[..n], k, twoSided) && n <= i)
    ensures SeenBefore(f, k, i, j, twoSided)
  {
    var i', j' :| 0 <= i' < n && 0 <= j' < |f[..n][i']| && Key(f[..n][i'][j'], twoSided) == k &&
      (n <= i || i' < i || (i' == i && j' < j));
    assert f[..n][i'] == f[i'];
  }

  /** A key that does not occur in the first `n` clauses occurs at no
      position of them. */
  lemma AbsentFromPrefix(f: Formula, n: nat, k: int, twoSided: bool)
    requires n <= |f| && !Occurs(f[..n], k, twoSided)
    ensures forall i, j :: 0 <= i < n && 0 <= j < |f[i]| ==> Key(f[i][j], twoSided) != k
  {
    forall i, j | 0 <= i < n && 0 <= j < |f[i]| ensures Key(f[i][j], twoSided) != k {
      assert f[..n][i][j] == f[i][j];
    }
  }

  /** The first-occurrence order of a key pair of `r`, at one position. */
  predicate FirstSeenAt(f: Formula, r: seq<int>, p: int, q: int, i: int, j: int, twoSided: bool)
    requires 0 <= p < q < |r| && 0 <= i < |f| && 0 <= j < |f[i]|
  {
    Key(f[i][j], twoSided) == r[q] ==> SeenBefore(f, r[p], i, j, twoSided)
  }

  /** One position of the induction step of `KeyOrderFirstSeen`. */
  lemma KeyOrderFirstSeenStep(f: Formula, f0: Formula, twoSided: bool, p: int, q: int, i: int, j: int)
    requires |f| > 0 && f0 == f[..|f| - 1]
    requires 0 <= p < q < |KeyOrder(f, twoSided)| && 0 <= i < |f| && 0 <= j < |f[i]|
    requires forall p', q', i', j' | 0 <= p' < q' < |KeyOrder(f0, twoSided)| && 0 <= i' < |f0| && 0 <= j' < |f0[i']| ::
      FirstSeenAt(f0, KeyOrder(f0, twoSided), p', q', i', j', twoSided)
    ensures FirstSeenAt(f, KeyOrder(f, twoSided), p, q, i, j, twoSided)
  {
    var r := KeyOrder(f, twoSided);
    var n := |f| - 1;
    var o := KeyOrder(f0, twoSided);
    var c := f[n];
    assert r == AddKeys(o, c, twoSided);
    if Key(f[i][j], twoSided) == r[q] {
      if q < |o| {
        assert r[p] == o[p] && r[q] == o[q];
        if i < n {
          assert f0[i][j] == f[i][j];
          assert FirstSeenAt(f0, o, p, q, i, j, twoSided);
          SeenInPrefix(f, n, r[p], i, j, twoSided);
        } else {
          assert o[q] in o;
          var i0, j0 :| 0 <= i0 < n && 0 <= j0 < |f0[i0]| && Key(f0[i0][j0], twoSided) == o[q];
          assert FirstSeenAt(f0, o, p, q, i0, j0, twoSided);
          var i', j' :| 0 <= i' < n && 0 <= j' < |f0[i']| && (i' < i0 || (i' == i0 && j' < j0)) &&
            Key(f0[i'][j'], twoSided) == o[p];
          assert f0[i'] == f[i'];
        }
      } else {
        NewKeyNotInOrder(o, r, q);
        AbsentFromPrefix(f, n, r[q], twoSided);
        assert i == n;
        if p < |o| {
          assert r[p] == o[p] && o[p] in o;
          SeenInPrefix(f, n, r[p], i, j, twoSided);
        } else {
          AddKeysFirstSeen(o, c, twoSided);
          assert Key(c[j], twoSided) == r[q];
          var i' :| 0 <= i' < j && Key(c[i'], twoSided) == r[p];
          assert Key(f[n][i'], twoSided) == r[p];
        }
      }
    }
  }

  /** The dictionary's insertion order is the order of first occurrence:
      wherever a later key occurs in `f`, every earlier key was met before. */
  lemma {:induction false} KeyOrderFirstSeen(f: Formula, twoSided: bool)
    ensures forall p, q, i, j | 0 <= p < q < |KeyOrder(f, twoSided)| && 0 <= i < |f| && 0 <= j < |f[i]| ::
      FirstSeenAt(f, KeyOrder(f, twoSided), p, q, i, j, twoSided)
  {
    if f != [] {
      var f0 := f[..|f| - 1];
      KeyOrderFirstSeen(f0, twoSided);
      var r := KeyOrder(f, twoSided);
      forall p, q, i, j | 0 <= p < q < |r| && 0 <= i < |f| && 0 <= j < |f[i]|
        ensures FirstSeenAt(f, r, p, q, i, j, twoSided)
      {
        KeyOrderFirstSeenStep(f, f0, twoSided, p, q, i, j);
      }
    }
  }

  /** The inner loop of the weighing: every literal of clause `c` adds
      2^-|c| to its key, keys met for the first time joining the insertion
      order. */
  method WeighClause(weights0: map<int, real>, order0: seq<int>, c: Clause, twoSided: bool)
    returns (weights: map<int, real>, order: seq<int>)
    requires forall k :: k in weights0 <==> k in order0
    ensures order == AddKeys(order0, c, twoSided)
    ensures forall k :: Get(weights, k) == Get(weights0, k) + ClauseWeight(c, k, twoSided, Share(c))
    ensures forall k :: k in weights <==> k in order
  {
    weights, order := weights0, order0;
    var j := 0;
    while j < |c|
      invariant 0 <= j <= |c|
      invariant order == AddKeys(order0, c[..j], twoSided)
      invariant forall k :: Get(weights, k) == Get(weights0, k) + ClauseWeight(c[..j], k, twoSided, Share(c))
      invariant forall k :: k in weights <==> k in order
    {
      var key := Key(c[j], twoSided);
      AddKeysStep(order0, c, j, twoSided);
      if key !in weights {
        order := order + [key];
      }
      weights := weights[key := Get(weights, key) + Share(c)];
      forall k ensures Get(weights, k) == Get(weights0, k) + ClauseWeight(c[..j + 1], k, twoSided, Share(c)) {
        ClauseWeightStep(c, j, k, twoSided, Share(c));
      }
      j := j + 1;
    }
    assert c[..j] == c;
  }

  /** The two nested loops filling `literal_weight`: the dictionary ends up
      holding exactly the keys that occur, each with its weight, inserted in
      first-occurrence order. */
  method Weigh(f: Formula, twoSided: bool) returns (weights: map<int, real>, order: seq<int>)
    ensures order == KeyOrder(f, twoSided)
    ensures weights == WeightMap(f, twoSided)
  {
    weights, order := map[], [];
    var i := 0;
    assert f[..0] == [];
    while i < |f|
      invariant 0 <= i <= |f|
      invariant Scanned(f[..i], weights, order, twoSided)
    {
      ghost var before, orderBefore := weights, order;
      weights, order := WeighClause(weights, order, f[i], twoSided);
      ScanStep(f, i, before, orderBefore, weights, order, twoSided);
      i := i + 1;
    }
    assert f[..i] == f;
    WeightsComplete(f, weights, order, twoSided);
  }

  /** The state of `literal_weight` after scanning the clauses of `g`. */
  ghost predicate Scanned(g: Formula, weights: map<int, real>, order: seq<int>, twoSided: bool) {
    && order == KeyOrder(g, twoSided)
    && Weighs(weights, g, twoSided)
    && (forall k :: k in weights <==> k in order)
  }

  /** Scanning one more clause, as `WeighClause` does, extends the state. */
  lemma ScanStep(f: Formula, i: nat, before: map<int, real>, orderBefore: seq<int>,
                 after: map<int, real>, order: seq<int>, twoSided: bool)
    requires i < |f|
    requires Scanned(f[..i], before, orderBefore, twoSided)
    requires order == AddKeys(orderBefore, f[i], twoSided)
    requires forall k :: Get(after, k) == Get(before, k) + ClauseWeight(f[i], k, twoSided, Share(f[i]))
    requires forall k :: k in after <==> k in order
    ensures Scanned(f[..i + 1], after, order, twoSided)
  {
    KeyOrderStep(f, i, twoSided);
    WeightsStep(f, i, before, after, twoSided);
  }

  /** Every key's entry in `m`, absent keys counting 0, is its weight in `f`. */
  ghost predicate Weighs(m: map<int, real>, f: Formula, twoSided: bool) {
    forall k :: Get(m, k) == Weight(f, k, twoSided)
  }

  /** The weights after one more clause are those of the longer prefix. */
  lemma WeightsStep(f: Formula, i: nat, before: map<int, real>, after: map<int, real>, twoSided: bool)
    requires i < |f|
    requires Weighs(before, f[..i], twoSided)
    requires forall k :: Get(after, k) == Get(before, k) + ClauseWeight(f[i], k, twoSided, Share(f[i]))
    ensures Weighs(after, f[..i + 1], twoSided)
  {
    forall k ensures Get(after, k) == Weight(f[..i + 1], k, twoSided) {
      WeightStep(f, i, k, twoSided);
    }
  }

  /** A dictionary holding the keys of `KeyOrder` with the weights of `f` is
      `WeightMap`. */
  lemma WeightsComplete(f: Formula, weights: map<int, real>, order: seq<int>, twoSided: bool)
    requires Scanned(f, weights, order, twoSided)
    ensures weights == WeightMap(f, twoSided)
  {
    forall k | k in weights ensures weights[k] == WeightMap(f, twoSided)[k] {
      assert Get(weights, k) == weights[k];
    }
  }

  /** Python's `max(literal_weight, key=literal_weight.get)`: the dictionary
      iterates its keys in insertion order. */
  method ArgMax(weights: map<int, real>, order: seq<int>) returns (best: int)
    requires |order| > 0
    requires forall i :: 0 <= i < |order| ==> order[i] in weights
    ensures best == FirstMax(order, weights)
  {
    best := order[0];
    assert order[..1] == [order[0]];
    var i := 1;
    while i < |order|
      invariant 1 <= i <= |order|
      invariant forall j :: 0 <= j < i ==> order[..i][j] in weights
      invariant best == FirstMax(order[..i], weights)
    {
      assert order[..i + 1][..i] == order[..i];
      if weights[order[i]] > weights[best] {
        best := order[i];
      }
      i := i + 1;
    }
    assert order[..i] == order;
  }

  /** Keys that do not occur weigh nothing, keys that occur weigh more than
      nothing. */
  lemma {:induction false} WeightPositive(f: Formula, k: int, twoSided: bool)
    ensures Weight(f, k, twoSided) >= 0.0
    ensures Weight(f, k, twoSided) > 0.0 <==> Occurs(f, k, twoSided)
  {
    if f != [] {
      var n := |f| - 1;
      var c := f[n];
      WeightPositive(f[..n], k, twoSided);
      ClauseWeightPositive(c, k, twoSided, Share(c));
      if Occurs(f, k, twoSided) {
        var i, j :| 0 <= i < |f| && 0 <= j < |f[i]| && Key(f[i][j], twoSided) == k;
        if i < n {
          assert f[..n][i][j] == f[i][j];
          assert Occurs(f[..n], k, twoSided);
        } else {
          assert c[j] == f[i][j];
        }
      }
      if Occurs(f[..n], k, twoSided) {
        var i, j :| 0 <= i < n && 0 <= j < |f[..n][i]| && Key(f[..n][i][j], twoSided) == k;
        assert f[i][j] == f[..n][i][j];
      }
      if exists j :: 0 <= j < |c| && Key(c[j], twoSided) == k {
        var j :| 0 <= j < |c| && Key(c[j], twoSided) == k;
        assert f[n][j] == c[j];
      }
    }
  }

  lemma {:induction false} ClauseWeightPositive(lits: seq<int>, k: int, twoSided: bool, share: real)
    requires share > 0.0
    ensures ClauseWeight(lits, k, twoSided, share) >= 0.0
    ensures ClauseWeight(lits, k, twoSided, share) > 0.0 <==> exists j :: 0 <= j < |lits| && Key(lits[j], twoSided) == k
  {
    if lits != [] {
      var n := |lits| - 1;
      ClauseWeightPositive(lits[..n], k, twoSided, share);
      if exists j :: 0 <= j < n && Key(lits[..n][j], twoSided) == k {
        var j :| 0 <= j < n && Key(lits[..n][j], twoSided) == k;
        assert lits[j] == lits[..n][j];
      }
      if exists j :: 0 <= j < |lits| && Key(lits[j], twoSided) == k {
        var j :| 0 <= j < |lits| && Key(lits[j], twoSided) == k;
        if j < n { assert lits[..n][j] == lits[j]; }
      }
    }
  }

  /** The returned key occurs in the formula, and its weight is at least the
      weight of every key whatsoever (keys that do not occur weigh 0); no key
      inserted before it has the same weight. */
  lemma JwChoiceIsMaximal(f: Formula, twoSided: bool)
    requires HasLiteral(f)
    ensures Occurs(f, JwChoice(f, twoSided), twoSided)
    ensures forall k :: Weight(f, k, twoSided) <= Weight(f, JwChoice(f, twoSided), twoSided)
    ensures forall j :: (0 <= j < |KeyOrder(f, twoSided)| &&
      Weight(f, KeyOrder(f, twoSided)[j], twoSided) == Weight(f, JwChoice(f, twoSided), twoSided)) ==>
      JwChoice(f, twoSided) in KeyOrder(f, twoSided)[..j + 1]
  {
    var r := JwChoice(f, twoSided);
    var order, w := KeyOrder(f, twoSided), WeightMap(f, twoSided);
    assert forall i :: 0 <= i < |order| ==> order[i] in w && w[order[i]] == Weight(f, order[i], twoSided);
    FirstMaxIsMaximal(order, w);
    FirstMaxIsFirst(order, w);
    assert r == FirstMax(order, w);
    forall k ensures Weight(f, k, twoSided) <= Weight(f, r, twoSided) {
      WeightPositive(f, k, twoSided);
      WeightPositive(f, r, twoSided);
      if k in order {
        var i :| 0 <= i < |order| && order[i] == k;
      }
    }
  }

  /** A key listed no later than the key met at position (`i`, `j`) was
      met before that position, unless it is that key. */
  lemma TieBreak(f: Formula, r: int, q: int, i: int, j: int, twoSided: bool)
    requires 0 <= q < |KeyOrder(f, twoSided)| && 0 <= i < |f| && 0 <= j < |f[i]|
    requires Key(f[i][j], twoSided) == KeyOrder(f, twoSided)[q] != r
    requires r in KeyOrder(f, twoSided)[..q + 1]
    ensures SeenBefore(f, r, i, j, twoSided)
  {
    var order := KeyOrder(f, twoSided);
    KeyOrderFirstSeen(f, twoSided);
    var p :| 0 <= p <= q && order[p] == r;
    assert FirstSeenAt(f, order, p, q, i, j, twoSided);
  }

  /** Ties go to the key met first while scanning: wherever another key of
      the same weight occurs, the chosen key was already met. */
  lemma JwChoiceSeenFirst(f: Formula, twoSided: bool)
    requires HasLiteral(f)
    ensures forall i, j ::
      (0 <= i < |f| && 0 <= j < |f[i]| && Key(f[i][j], twoSided) != JwChoice(f, twoSided) &&
       Weight(f, Key(f[i][j], twoSided), twoSided) == Weight(f, JwChoice(f, twoSided), twoSided)) ==>
        SeenBefore(f, JwChoice(f, twoSided), i, j, twoSided)
  {
    var r := JwChoice(f, twoSided);
    var order := KeyOrder(f, twoSided);
    JwChoiceIsMaximal(f, twoSided);
    forall i, j | 0 <= i < |f| && 0 <= j < |f[i]| && Key(f[i][j], twoSided) != r &&
      Weight(f, Key(f[i][j], twoSided), twoSided) == Weight(f, r, twoSided)
      ensures SeenBefore(f, r, i, j, twoSided)
    {
      var k := Key(f[i][j], twoSided);
      assert Occurs(f, k, twoSided);
      var q :| 0 <= q < |order| && order[q] == k;
      TieBreak(f, r, q, i, j, twoSided);
    }
  }

  /** The one-sided method (strategy 2): a literal of `f` of maximal weight,
      the first inserted among ties. */
  method JeroslowWang(f: Formula) returns (l: int)
    requires HasLiteral(f)
    ensures l == JwChoice(f, false)
    ensures exists c :: c in f && l in c
    ensures forall k :: Weight(f, k, false) <= Weight(f, l, false)
  {
    var weights, order := Weigh(f, false);
    JwChoiceIsMaximal(f, false);
    l := ArgMax(weights, order);
    var i, j :| 0 <= i < |f| && 0 <= j < |f[i]| && Key(f[i][j], false) == l;
    assert f[i] in f && l in f[i];
  }

  /** The two-sided method (strategy 3): a variable id of maximal weight,
      returned as the positive literal, the first inserted among ties. */
  method JeroslowWangTwoSided(f: Formula) returns (v: int)
    requires HasLiteral(f)
    ensures v == JwChoice(f, true)
    ensures v >= 0 && exists c :: c in f && (v in c || -v in c)
    ensures forall k :: Weight(f, k, true) <= Weight(f, v, true)
  {
    var weights, order := Weigh(f, true);
    JwChoiceIsMaximal(f, true);
    v := ArgMax(weights, order);
    var i, j :| 0 <= i < |f| && 0 <= j < |f[i]| && Key(f[i][j], true) == v;
    assert f[i] in f && (v == f[i][j] || -v == f[i][j]);
  }

  lemma {:induction false} ClauseWeightSplit(lits: seq<int>, v: int, share: real)
    requires v > 0
    ensures ClauseWeight(lits, v, true, share) ==
      ClauseWeight(lits, v, false, share) + ClauseWeight(lits, -v, false, share)
  {
    if lits != [] {
      ClauseWeightSplit(lits[..|lits| - 1], v, share);
    }
  }

  /** A variable's two-sided weight is the sum of its two literals'
      one-sided weights. */
  lemma {:induction false} TwoSidedWeightSplit(f: Formula, v: int)
    requires v > 0
    ensures Weight(f, v, true) == Weight(f, v, false) + Weight(f, -v, false)
  {
    if f != [] {
      var c := f[|f| - 1];
      TwoSidedWeightSplit(f[..|f| - 1], v);
      ClauseWeightSplit(c, v, Share(c));
    }
  }

  /** On literals that are not 0 the two-sided choice is a positive
      variable id. */
  lemma TwoSidedChoicePositive(f: Formula)
    requires HasLiteral(f) && WellFormed(f)
    ensures JwChoice(f, true) > 0
  {
    var v := JwChoice(f, true);
    var i, j :| 0 <= i < |f| && 0 <= j < |f[i]| && Key(f[i][j], true) == v;
    assert f[i] in f && WellFormedClause(f[i]) && f[i][j] in f[i];
  }

  /** The insertion order of `[[1, 2], [1, 3], [2]]`, clause by clause. */
  lemma ExampleOrderFirst()
    ensures KeyOrder([[1, 2]], true) == [1, 2]
  {
    var f: Formula := [[1, 2]];
    assert f[..0] == [] && f[..1] == f;
    KeyOrderStep(f, 0, true);
    var a: seq<int> := [1, 2];
    assert a[..1] == [1] && [1][..0] == [];
    assert AddKeys([], [1], true) == [1];
  }

  lemma ExampleOrderSecond()
    ensures KeyOrder([[1, 2], [1, 3]], true) == [1, 2, 3]
  {
    var f: Formula := [[1, 2], [1, 3]];
    assert f[..1] == [[1, 2]] && f[..2] == f;
    ExampleOrderFirst();
    KeyOrderStep(f, 1, true);
    var b: seq<int> := [1, 3];
    assert b[..1] == [1] && [1][..0] == [];
    assert AddKeys([1, 2], [1], true) == [1, 2];
  }

  /** `[[1, 2], [1, 3], [2]]` meets variables 1, 2, 3 in that order. */
  lemma TwoSidedExampleOrder()
    ensures KeyOrder([[1, 2], [1, 3], [2]], true) == [1, 2, 3]
  {
    var f: Formula := [[1, 2], [1, 3], [2]];
    assert f[..2] == [[1, 2], [1, 3]] && f[..3] == f;
    ExampleOrderSecond();
    KeyOrderStep(f, 2, true);
    var c: seq<int> := [2];
    assert c[..0] == [];
  }

  /** `[[1, 2], [1, 3], [2]]` weighs variable 1 at 1/2, 2 at 3/4 and 3 at
      1/4. */
  lemma TwoSidedExampleWeights()
    ensures Weight([[1, 2], [1, 3], [2]], 1, true) == 0.5
    ensures Weight([[1, 2], [1, 3], [2]], 2, true) == 0.75
    ensures Weight([[1, 2], [1, 3], [2]], 3, true) == 0.25
  {
    var f: Formula := [[1, 2], [1, 3], [2]];
    assert f[..3] == f && f[..0] == [];
    var a: seq<int>, b: seq<int>, c: seq<int> := [1, 2], [1, 3], [2];
    assert a[..1] == [1] && [1][..0] == [] && b[..1] == [1] && c[..0] == [];
    assert Pow2(1) == 2 && Pow2(2) == 4;
    assert Share(a) == 0.25 && Share(b) == 0.25 && Share(c) == 0.5;
    WeightStep(f, 0, 1, true);
    WeightStep(f, 0, 2, true);
    WeightStep(f, 0, 3, true);
    WeightStep(f, 1, 1, true);
    WeightStep(f, 1, 2, true);
    WeightStep(f, 1, 3, true);
    WeightStep(f, 2, 1, true);
    WeightStep(f, 2, 2, true);
    WeightStep(f, 2, 3, true);
  }

  /** On `[[1, 2], [1, 3], [2]]` the two-sided method picks variable 2. */
  lemma TwoSidedExample()
    ensures HasLiteral([[1, 2], [1, 3], [2]])
    ensures JwChoice([[1, 2], [1, 3], [2]], true) == 2
  {
    var f: Formula := [[1, 2], [1, 3], [2]];
    assert |f[0]| > 0;
    TwoSidedExampleOrder();
    TwoSidedExampleWeights();
    var w := WeightMap(f, true);
    assert w[1] == 0.5 && w[2] == 0.75 && w[3] == 0.25;
    assert [1, 2, 3][..2] == [1, 2] && [1, 2][..1] == [1];
  }
}
