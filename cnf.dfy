/** Propositional literals, clauses and formulas in conjunctive normal form,
    and what it means for a truth assignment to satisfy them. A truth
    assignment is the set of variables it makes true. */
module Cnf {

  /** A variable, numbered from 0, together with a polarity. */
  datatype Lit = Pos(v: nat) | Neg(v: nat)

  /** A disjunction of literals. */
  type Clause = seq<Lit>

  /** A conjunction of clauses, in the order they were added. */
  type Formula = seq<Clause>

  /** The literal of the same variable with the opposite polarity (`!lit`). */
  function Negate(l: Lit): (r: Lit)
    ensures r.v == l.v && r.Pos? == l.Neg?
  {
    match l
    case Pos(x) => Neg(x)
    case Neg(x) => Pos(x)
  }

  predicate LitHolds(a: set<nat>, l: Lit) {
    match l
    case Pos(x) => x in a
    case Neg(x) => x !in a
  }

  predicate ClauseHolds(a: set<nat>, c: Clause) {
    exists k :: 0 <= k < |c| && LitHolds(a, c[k])
  }

  predicate FormulaHolds(a: set<nat>, f: Formula) {
    forall k :: 0 <= k < |f| ==> ClauseHolds(a, f[k])
  }

  lemma NegateHolds(a: set<nat>, l: Lit)
    ensures Negate(l).v == l.v && Negate(l) != l
    ensures LitHolds(a, Negate(l)) <==> !LitHolds(a, l)
  {
  }

  /** A formula built by appending holds exactly when both parts hold. */
  lemma FormulaHoldsAppend(a: set<nat>, f: Formula, g: Formula)
    ensures FormulaHolds(a, f + g) <==> FormulaHolds(a, f) && FormulaHolds(a, g)
  {
    if FormulaHolds(a, f) && FormulaHolds(a, g) {
      forall k | 0 <= k < |f + g| ensures ClauseHolds(a, (f + g)[k]) {
        if k < |f| {
          assert (f + g)[k] == f[k];
        } else {
          assert (f + g)[k] == g[k - |f|];
        }
      }
    }
    if FormulaHolds(a, f + g) {
      forall k | 0 <= k < |f| ensures ClauseHolds(a, f[k]) {
        assert (f + g)[k] == f[k];
      }
      forall k | 0 <= k < |g| ensures ClauseHolds(a, g[k]) {
        assert (f + g)[|f| + k] == g[k];
      }
    }
  }

  /** The variables that a solver model, a list of literals, makes true. */
  function TrueVars(model: seq<Lit>): (a: set<nat>)
    ensures forall x :: x in a <==> Pos(x) in model
  {
    set l | l in model && l.Pos? :: l.v
  }
}

/** The external SAT solver, reduced to what the encoder uses of it: a
    variable allocator and an append-only store of clauses. Search, the
    satisfiable/unsatisfiable verdict and the model it finds are not part of
    this module; a model is handed to the decoder as a parameter. */
module SatSolver {
  import opened Cnf

  class Solver {
    /** The number of variables allocated so far. */
    var varCount: nat
    /** Every clause added so far, in the order it was added. */
    var clauses: Formula

    constructor ()
      ensures varCount == 0 && clauses == []
    {
      varCount := 0;
      clauses := [];
    }

    /** Allocates `n` fresh variables and returns their positive literals. */
    method NewLits(n: nat) returns (lits: seq<Lit>)
      modifies this
      ensures |lits| == n
      ensures forall k :: 0 <= k < n ==> lits[k] == Pos(old(varCount) + k)
      ensures varCount == old(varCount) + n && clauses == old(clauses)
    {
      var first := varCount;
      lits := seq(n, k requires 0 <= k < n => Pos(first + k));
      varCount := varCount + n;
    }

    /** Adds every clause of `f`, in order, after those already stored. */
    method AddFormula(f: Formula)
      modifies this
      ensures clauses == old(clauses) + f && varCount == old(varCount)
    {
      clauses := clauses + f;
    }
  }
}
