/** The exactly-one-true encoding of a list of literals: one clause holding
    the whole list (at least one is true), then one clause `[!l_i, !l_j]` for
    every pair i < j, in lexicographic order (no two are true). */
module ExactlyOne {
  import opened Cnf

  /** The clause forbidding literals i and j to be true together. */
  function PairClause(lits: seq<Lit>, i: nat, j: nat): Clause
    requires i < |lits| && j < |lits|
  {
    [Negate(lits[i]), Negate(lits[j])]
  }

  /** The pair clauses (i, i + 1), ..., (i, j - 1): the inner loop run up to j. */
  function PairsWith(lits: seq<Lit>, i: nat, j: nat): Formula
    requires i < |lits| && j <= |lits|
  {
    if j <= i + 1 then [] else PairsWith(lits, i, j - 1) + [PairClause(lits, i, j - 1)]
  }

  /** The pair clauses of the first i rounds of the outer loop. */
  function PairsBefore(lits: seq<Lit>, i: nat): Formula
    requires i <= |lits|
  {
    if i == 0 then [] else PairsBefore(lits, i - 1) + PairsWith(lits, i - 1, |lits|)
  }

  /** The clauses the encoder emits for `lits`, in order. */
  function ExactlyOneClauses(lits: seq<Lit>): Formula {
    [lits] + PairsBefore(lits, |lits|)
  }

  /** Exactly one position of `lits` holds a true literal. */
  predicate ExactlyOneHolds(a: set<nat>, lits: seq<Lit>) {
    exists i :: 0 <= i < |lits| && LitHolds(a, lits[i]) &&
      forall j :: 0 <= j < |lits| && LitHolds(a, lits[j]) ==> j == i
  }

  /** Where the pair clauses of round i start: (n - 1) + ... + (n - i). */
  function RowStart(n: nat, i: nat): nat
    requires i <= n
  {
    if i == 0 then 0 else RowStart(n, i - 1) + (n - i)
  }

  /** The position of pair clause (i, j) among the pair clauses. */
  function PairOffset(n: nat, i: nat, j: nat): nat
    requires i < j <= n
  {
    RowStart(n, i) + (j - i - 1)
  }

  /** Builds the exactly-one-true formula with the two nested loops of `exactly_one_true`. */
  method ExactlyOneTrue(lits: seq<Lit>) returns (formula: Formula)
    ensures formula == ExactlyOneClauses(lits)
  {
    formula := [lits];
    for i := 0 to |lits|
      invariant formula == [lits] + PairsBefore(lits, i)
    {
      for j := i + 1 to |lits|
        invariant formula == [lits] + PairsBefore(lits, i) + PairsWith(lits, i, j)
      {
        formula := formula + [[Negate(lits[i]), Negate(lits[j])]];
      }
    }
  }

  lemma {:induction false} RowStartClosedForm(n: nat, i: nat)
    requires i <= n
    ensures 2 * RowStart(n, i) == i * (2 * n - i - 1)
  {
    if i > 0 {
      RowStartClosedForm(n, i - 1);
      var m := 2 * n - i;
      assert 2 * RowStart(n, i) == (i - 1) * m + 2 * (n - i);
      assert (i - 1) * m == i * m - m;
      assert i * (m - 1) == i * m - i;
    }
  }

  lemma {:induction false} RowStartMonotone(n: nat, i: nat, k: nat)
    requires i <= k <= n
    ensures RowStart(n, i) <= RowStart(n, k)
    ensures i < k ==> RowStart(n, i) + (n - i - 1) <= RowStart(n, k)
  {
    if i < k {
      RowStartMonotone(n, i, k - 1);
    }
  }

  /** Pair clauses come in lexicographic order of (i, j): a pair earlier in
      that order sits at a smaller position. */
  lemma PairOffsetLexicographic(n: nat, i1: nat, j1: nat, i2: nat, j2: nat)
    requires i1 < j1 < n && i2 < j2 < n
    requires i1 < i2 || (i1 == i2 && j1 < j2)
    ensures PairOffset(n, i1, j1) < PairOffset(n, i2, j2)
  {
    if i1 < i2 {
      RowStartMonotone(n, i1, i2);
    }
  }

  lemma PairOffsetBelow(n: nat, m: nat, p: nat, q: nat)
    requires p < m <= n && p < q < n
    ensures PairOffset(n, p, q) < RowStart(n, m)
  {
    RowStartMonotone(n, p, m);
  }

  lemma {:induction false} PairsWithLength(lits: seq<Lit>, i: nat, j: nat)
    requires i < |lits| && j <= |lits|
    ensures |PairsWith(lits, i, j)| == if j <= i + 1 then 0 else j - i - 1
  {
    if j > i + 1 {
      PairsWithLength(lits, i, j - 1);
    }
  }

  lemma {:induction false} PairsWithAt(lits: seq<Lit>, i: nat, j: nat, t: nat)
    requires i < |lits| && j <= |lits| && i + 1 + t < j
    ensures t < |PairsWith(lits, i, j)| && PairsWith(lits, i, j)[t] == PairClause(lits, i, i + 1 + t)
  {
    PairsWithLength(lits, i, j);
    PairsWithLength(lits, i, j - 1);
    if i + 1 + t < j - 1 {
      PairsWithAt(lits, i, j - 1, t);
    }
  }

  lemma {:induction false} PairsBeforeLength(lits: seq<Lit>, m: nat)
    requires m <= |lits|
    ensures |PairsBefore(lits, m)| == RowStart(|lits|, m)
  {
    if m > 0 {
      PairsBeforeLength(lits, m - 1);
      PairsWithLength(lits, m - 1, |lits|);
    }
  }

  /** Pair clause (p, q) sits at position PairOffset(n, p, q) of the pair clauses. */
  lemma {:induction false} PairsBeforeAt(lits: seq<Lit>, m: nat, p: nat, q: nat)
    requires m <= |lits| && p < m && p < q < |lits|
    ensures PairOffset(|lits|, p, q) < |PairsBefore(lits, m)|
    ensures PairsBefore(lits, m)[PairOffset(|lits|, p, q)] == PairClause(lits, p, q)
  {
    var n := |lits|;
    PairsBeforeLength(lits, m);
    PairsBeforeLength(lits, m - 1);
    PairOffsetBelow(n, m, p, q);
    var prev, row := PairsBefore(lits, m - 1), PairsWith(lits, m - 1, n);
    assert PairsBefore(lits, m) == prev + row;
    if p < m - 1 {
      PairsBeforeAt(lits, m - 1, p, q);
    } else {
      PairsWithAt(lits, p, n, q - p - 1);
      assert PairOffset(n, p, q) == |prev| + (q - p - 1);
    }
  }

  /** Every pair clause is the clause of some pair p < q. */
  lemma {:induction false} PairsBeforeCover(lits: seq<Lit>, m: nat, t: nat) returns (p: nat, q: nat)
    requires m <= |lits| && t < |PairsBefore(lits, m)|
    ensures p < m && p < q < |lits| && PairsBefore(lits, m)[t] == PairClause(lits, p, q)
  {
    var n := |lits|;
    var prev, row := PairsBefore(lits, m - 1), PairsWith(lits, m - 1, n);
    assert PairsBefore(lits, m) == prev + row;
    if t < |prev| {
      p, q := PairsBeforeCover(lits, m - 1, t);
    } else {
      var u := t - |prev|;
      PairsWithLength(lits, m - 1, n);
      PairsWithAt(lits, m - 1, n, u);
      p, q := m - 1, m + u;
    }
  }

  /** Encoder size: 1 + n(n-1)/2 clauses for n literals. */
  lemma ExactlyOneCount(lits: seq<Lit>)
    ensures |ExactlyOneClauses(lits)| == 1 + |lits| * (|lits| - 1) / 2
  {
    var n := |lits|;
    PairsBeforeLength(lits, n);
    RowStartClosedForm(n, n);
    assert 2 * RowStart(n, n) == n * (n - 1);
    assert RowStart(n, n) == n * (n - 1) / 2;
  }

  /** Clause 1 + PairOffset(n, i, j) of the encoding is `[!l_i, !l_j]`. */
  lemma ExactlyOnePairAt(lits: seq<Lit>, i: nat, j: nat)
    requires i < j < |lits|
    ensures 1 + PairOffset(|lits|, i, j) < |ExactlyOneClauses(lits)|
    ensures ExactlyOneClauses(lits)[1 + PairOffset(|lits|, i, j)] == PairClause(lits, i, j)
  {
    var pairs := PairsBefore(lits, |lits|);
    assert ExactlyOneClauses(lits) == [lits] + pairs;
    PairsBeforeAt(lits, |lits|, i, j);
  }

  /** Every clause after the first is the clause of some pair i < j. */
  lemma ExactlyOnePairCover(lits: seq<Lit>, k: nat) returns (i: nat, j: nat)
    requires 1 <= k < |ExactlyOneClauses(lits)|
    ensures i < j < |lits| && ExactlyOneClauses(lits)[k] == PairClause(lits, i, j)
  {
    var pairs := PairsBefore(lits, |lits|);
    assert ExactlyOneClauses(lits) == [lits] + pairs;
    i, j := PairsBeforeCover(lits, |lits|, k - 1);
  }

  /** Encoder shape: clause 0 is the whole list, clause 1 + PairOffset(n, i, j)
      is `[!l_i, !l_j]`, and every clause after the first is such a pair. */
  lemma ExactlyOneShape(lits: seq<Lit>)
    ensures ExactlyOneClauses(lits)[0] == lits
    ensures forall i, j :: 0 <= i < j < |lits| ==>
      1 + PairOffset(|lits|, i, j) < |ExactlyOneClauses(lits)| &&
      ExactlyOneClauses(lits)[1 + PairOffset(|lits|, i, j)] == PairClause(lits, i, j)
    ensures forall k :: 1 <= k < |ExactlyOneClauses(lits)| ==>
      exists i, j :: 0 <= i < j < |lits| && ExactlyOneClauses(lits)[k] == PairClause(lits, i, j)
  {
    assert ExactlyOneClauses(lits) == [lits] + PairsBefore(lits, |lits|);
    forall i, j | 0 <= i < j < |lits|
      ensures 1 + PairOffset(|lits|, i, j) < |ExactlyOneClauses(lits)| &&
        ExactlyOneClauses(lits)[1 + PairOffset(|lits|, i, j)] == PairClause(lits, i, j)
    {
      ExactlyOnePairAt(lits, i, j);
    }
    forall k | 1 <= k < |ExactlyOneClauses(lits)|
      ensures exists i, j :: 0 <= i < j < |lits| && ExactlyOneClauses(lits)[k] == PairClause(lits, i, j)
    {
      var i, j := ExactlyOnePairCover(lits, k);
    }
  }

  /** For nine literals the encoder emits 37 clauses. */
  lemma ExactlyOneCountNine(lits: seq<Lit>)
    requires |lits| == 9
    ensures |ExactlyOneClauses(lits)| == 37
  {
    ExactlyOneCount(lits);
  }

  /** If every clause holds, no two positions hold true literals. */
  lemma AtMostOneFromClauses(a: set<nat>, lits: seq<Lit>, i: nat, j: nat)
    requires FormulaHolds(a, ExactlyOneClauses(lits))
    requires i < j < |lits|
    ensures !(LitHolds(a, lits[i]) && LitHolds(a, lits[j]))
  {
    var n := |lits|;
    PairsBeforeAt(lits, n, i, j);
    var f := ExactlyOneClauses(lits);
    var c := f[1 + PairOffset(n, i, j)];
    assert c == PairClause(lits, i, j);
    assert ClauseHolds(a, c);
    NegateHolds(a, lits[i]);
    NegateHolds(a, lits[j]);
    var k :| 0 <= k < |c| && LitHolds(a, c[k]);
    assert k == 0 || k == 1;
  }

  /** If exactly one position holds, clause k of the encoding holds. */
  lemma ClauseFromExactlyOne(a: set<nat>, lits: seq<Lit>, i: nat, k: nat)
    requires i < |lits| && LitHolds(a, lits[i])
    requires forall j :: 0 <= j < |lits| && LitHolds(a, lits[j]) ==> j == i
    requires k < |ExactlyOneClauses(lits)|
    ensures ClauseHolds(a, ExactlyOneClauses(lits)[k])
  {
    var f := ExactlyOneClauses(lits);
    if k == 0 {
      assert f[0][i] == lits[i];
    } else {
      var p, q := PairsBeforeCover(lits, |lits|, k - 1);
      assert f[k] == PairClause(lits, p, q);
      NegateHolds(a, lits[p]);
      NegateHolds(a, lits[q]);
      if p != i {
        assert LitHolds(a, f[k][0]);
      } else {
        assert LitHolds(a, f[k][1]);
      }
    }
  }

  /** Encoder semantics: an assignment satisfies every clause of the encoding
      iff exactly one position of `lits` holds a true literal. No distinctness
      of the variables is needed for this positional reading. */
  lemma ExactlyOneSemantics(a: set<nat>, lits: seq<Lit>)
    ensures FormulaHolds(a, ExactlyOneClauses(lits)) <==> ExactlyOneHolds(a, lits)
  {
    var n := |lits|;
    var f := ExactlyOneClauses(lits);
    if FormulaHolds(a, f) {
      assert ClauseHolds(a, f[0]);
      var i :| 0 <= i < n && LitHolds(a, lits[i]);
      forall j | 0 <= j < n && LitHolds(a, lits[j]) ensures j == i {
        if i < j {
          AtMostOneFromClauses(a, lits, i, j);
        } else if j < i {
          AtMostOneFromClauses(a, lits, j, i);
        }
      }
    }
    if ExactlyOneHolds(a, lits) {
      var i :| 0 <= i < n && LitHolds(a, lits[i]) &&
        forall j :: 0 <= j < n && LitHolds(a, lits[j]) ==> j == i;
      forall k | 0 <= k < |f| ensures ClauseHolds(a, f[k]) {
        ClauseFromExactlyOne(a, lits, i, k);
      }
    }
  }
}
