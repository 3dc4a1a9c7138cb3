/**
 * Check evaluation (grader.js, doCheck): every selector of the checks list is
 * queried against the parsed HTML document and the results object records,
 * per selector, whether at least one element matched.
 *
 * The HTML parser and its CSS-selector engine are not modelled: a parsed
 * document is an oracle that answers a selector with its number of matches.
 */
module Checks {

  type Selector = string

  /** A parsed document, queried by selector; the answer is the match count. */
  type Document = Selector -> nat

  /** The results object: selector to "at least one element matched". */
  type Results = map<Selector, bool>

  /** The distinct selectors of a checks list. */
  function Distinct(checks: seq<Selector>): set<Selector>
  {
    set s | s in checks
  }

  predicate NoDuplicates<T(==)>(xs: seq<T>)
  {
    forall i, j :: 0 <= i < j < |xs| ==> xs[i] != xs[j]
  }

  // ---------------------------------------------------------------------------
  // Assignment in order to a dictionary: obj[keys[0]] := vals[0], then
  // obj[keys[1]] := vals[1], and so on, starting from an empty object.
  // ---------------------------------------------------------------------------

  function Assigned<K(==), V>(keys: seq<K>, vals: seq<V>): map<K, V>
    requires |keys| == |vals|
    decreases |keys|
  {
    if |keys| == 0 then map[]
    else
      var n := |keys| - 1;
      Assigned(keys[..n], vals[..n])[keys[n] := vals[n]]
  }

  /** Writing in order leaves exactly the written keys. */
  lemma {:induction false} AssignedKeys<K, V>(keys: seq<K>, vals: seq<V>)
    requires |keys| == |vals|
    ensures Assigned(keys, vals).Keys == set k | k in keys
  {
    if |keys| > 0 {
      var n := |keys| - 1;
      AssignedKeys(keys[..n], vals[..n]);
      assert keys == keys[..n] + [keys[n]];
      assert (set k | k in keys) == (set k | k in keys[..n]) + {keys[n]};
    }
  }

  /** The value stored under a key is the one written by its last occurrence. */
  lemma {:induction false} AssignedLastWriteWins<K, V>(keys: seq<K>, vals: seq<V>, j: nat)
    requires |keys| == |vals| && j < |keys|
    requires forall k :: j < k < |keys| ==> keys[k] != keys[j]
    ensures keys[j] in Assigned(keys, vals)
    ensures Assigned(keys, vals)[keys[j]] == vals[j]
  {
    var n := |keys| - 1;
    if j < n {
      AssignedLastWriteWins(keys[..n], vals[..n], j);
    }
  }

  // ---------------------------------------------------------------------------
  // doCheck
  // ---------------------------------------------------------------------------

  /** What the document answers for each position of the checks list. */
  function Observations(doc: Document, checks: seq<Selector>): seq<bool>
  {
    seq(|checks|, k requires 0 <= k < |checks| => doc(checks[k]) > 0)
  }

  /** The results object doCheck builds: one write per list position, in list order. */
  function Evaluation(doc: Document, checks: seq<Selector>): Results
  {
    Assigned(checks, Observations(doc, checks))
  }

  /** Reference definition: one entry per distinct selector, true exactly when it matches. */
  function Expected(doc: Document, checks: seq<Selector>): Results
  {
    map s | s in checks :: doc(s) > 0
  }

  /**
   * doCheck: walk the checks list by index and store, under each selector,
   * whether the document has at least one element matching it.
   */
  method DoCheck(doc: Document, checks: seq<Selector>) returns (results: Results)
    ensures results.Keys == Distinct(checks)
    ensures forall s :: s in results ==> results[s] == (doc(s) > 0)
    ensures checks == [] ==> results == map[]
    ensures results == Evaluation(doc, checks)
  {
    results := map[];
    var currentCheck := 0;
    while currentCheck < |checks|
      invariant 0 <= currentCheck <= |checks|
      invariant results.Keys == Distinct(checks[..currentCheck])
      invariant forall s :: s in results ==> results[s] == (doc(s) > 0)
    {
      var currentResult := doc(checks[currentCheck]) > 0;
      assert checks[..currentCheck + 1] == checks[..currentCheck] + [checks[currentCheck]];
      assert Distinct(checks[..currentCheck + 1]) == Distinct(checks[..currentCheck]) + {checks[currentCheck]};
      results := results[checks[currentCheck] := currentResult];
      currentCheck := currentCheck + 1;
    }
    assert checks[..|checks|] == checks;
    EvaluationIsExpected(doc, checks);
    assert Expected(doc, checks).Keys == Distinct(checks);
  }

  // ---------------------------------------------------------------------------
  // Properties of the evaluation
  // ---------------------------------------------------------------------------

  /** Evaluating in list order yields the reference mapping. */
  lemma {:induction false} EvaluationIsExpected(doc: Document, checks: seq<Selector>)
    ensures Evaluation(doc, checks) == Expected(doc, checks)
  {
    if |checks| > 0 {
      var n := |checks| - 1;
      var obs := Observations(doc, checks);
      assert obs[..n] == Observations(doc, checks[..n]);
      EvaluationIsExpected(doc, checks[..n]);
      assert checks == checks[..n] + [checks[n]];
      assert Distinct(checks) == Distinct(checks[..n]) + {checks[n]};
      assert Expected(doc, checks).Keys == Distinct(checks);
      assert Expected(doc, checks[..n]).Keys == Distinct(checks[..n]);
    }
  }

  /** The key set is the set of distinct selectors; each value agrees with the document. */
  lemma EvaluationKeysAndValues(doc: Document, checks: seq<Selector>)
    ensures Evaluation(doc, checks).Keys == Distinct(checks)
    ensures forall s :: s in Evaluation(doc, checks) ==> Evaluation(doc, checks)[s] == (doc(s) > 0)
  {
    EvaluationIsExpected(doc, checks);
    assert Expected(doc, checks).Keys == Distinct(checks);
  }

  /**
   * A selector listed more than once is written once per occurrence and the
   * last write is kept; every occurrence observes the same answer, so the
   * stored value is the one any of them would have written.
   */
  lemma DuplicatesCollapse(doc: Document, checks: seq<Selector>, i: nat, j: nat)
    requires i < j < |checks| && checks[i] == checks[j]
    ensures checks[i] in Evaluation(doc, checks)
    ensures Evaluation(doc, checks)[checks[i]] == Observations(doc, checks)[i]
    ensures Evaluation(doc, checks)[checks[j]] == Observations(doc, checks)[j]
    ensures |Evaluation(doc, checks)| < |checks|
  {
    LastWriteWins(doc, checks, i);
    EntriesAtMostChecks(doc, checks);
  }

  /** The stored value of a selector is the observation of its last occurrence. */
  lemma LastWriteWins(doc: Document, checks: seq<Selector>, i: nat)
    requires i < |checks|
    ensures checks[i] in Evaluation(doc, checks)
    ensures exists j ::
              && i <= j < |checks| && checks[j] == checks[i]
              && (forall k :: j < k < |checks| ==> checks[k] != checks[i])
              && Evaluation(doc, checks)[checks[i]] == Observations(doc, checks)[j]
  {
    var j := LastOccurrence(checks, i);
    AssignedLastWriteWins(checks, Observations(doc, checks), j);
  }

  /** The index of the last occurrence, at or after i, of checks[i]. */
  lemma {:induction false} LastOccurrence(checks: seq<Selector>, i: nat) returns (j: nat)
    requires i < |checks|
    ensures i <= j < |checks| && checks[j] == checks[i]
    ensures forall k :: j < k < |checks| ==> checks[k] != checks[i]
    decreases |checks| - i
  {
    if exists k :: i < k < |checks| && checks[k] == checks[i] {
      var k :| i < k < |checks| && checks[k] == checks[i];
      j := LastOccurrence(checks, k);
    } else {
      j := i;
    }
  }

  /** There are never more entries than checks, and as many exactly when no selector repeats. */
  lemma EntriesAtMostChecks(doc: Document, checks: seq<Selector>)
    ensures |Evaluation(doc, checks)| <= |checks|
    ensures |Evaluation(doc, checks)| == |checks| <==> NoDuplicates(checks)
  {
    EvaluationKeysAndValues(doc, checks);
    DistinctCount(checks);
    assert |Evaluation(doc, checks)| == |Evaluation(doc, checks).Keys|;
  }

  lemma {:induction false} DistinctCount(checks: seq<Selector>)
    ensures |Distinct(checks)| <= |checks|
    ensures |Distinct(checks)| == |checks| <==> NoDuplicates(checks)
  {
    if |checks| > 0 {
      var n := |checks| - 1;
      var front := checks[..n];
      DistinctCount(front);
      assert checks == front + [checks[n]];
      assert Distinct(checks) == Distinct(front) + {checks[n]};
      if checks[n] in front {
        var k :| 0 <= k < n && front[k] == checks[n];
        assert checks[k] == checks[n];
        assert !NoDuplicates(checks);
      } else {
        assert |Distinct(checks)| == |Distinct(front)| + 1;
        assert NoDuplicates(checks) <==> NoDuplicates(front) by {
          if NoDuplicates(front) {
            forall i, j | 0 <= i < j < |checks| ensures checks[i] != checks[j] {
              if j == n {
                assert checks[i] == front[i];
              } else {
                assert checks[i] == front[i] && checks[j] == front[j];
              }
            }
          }
          if NoDuplicates(checks) {
            forall i, j | 0 <= i < j < |front| ensures front[i] != front[j] {
              assert front[i] == checks[i] && front[j] == checks[j];
            }
          }
        }
      }
    }
  }

  /** Reordering the checks list does not change the results object. */
  lemma OrderIndependent(doc: Document, xs: seq<Selector>, ys: seq<Selector>)
    requires multiset(xs) == multiset(ys)
    ensures Evaluation(doc, xs) == Evaluation(doc, ys)
  {
    EvaluationIsExpected(doc, xs);
    EvaluationIsExpected(doc, ys);
    assert Distinct(xs) == Distinct(ys) by {
      forall s ensures s in xs <==> s in ys {
        assert s in xs <==> s in multiset(xs);
        assert s in ys <==> s in multiset(ys);
      }
    }
    assert Expected(doc, xs).Keys == Distinct(xs);
    assert Expected(doc, ys).Keys == Distinct(ys);
  }
}
