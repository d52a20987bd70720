/** Clue injection: every digit character of the 81-character board fixes the
    variable of its cell and digit with a unit clause. Any other character
    leaves its cell to the structural clauses. */
module Clues {
  import opened Cnf
  import opened Indexer
  import opened SatSolver

  /** `char::is_digit(10)`: the ASCII decimal digits, '0' included. */
  predicate IsDigit(ch: char) {
    '0' <= ch <= '9'
  }

  /** `char::to_digit(10)` on a digit. */
  function DigitValue(ch: char): (d: nat)
    requires IsDigit(ch)
    ensures d < 10 && ('0' as int + d) as char == ch
  {
    (ch as int - '0' as int) as nat
  }

  /** `is_digit(10)` accepts exactly the ten characters "0123456789", and
      `DigitValue` is the position of each among them. */
  lemma IsDigitExactly(ch: char)
    ensures IsDigit(ch) <==> ch in "0123456789"
    ensures IsDigit(ch) ==> "0123456789"[DigitValue(ch)] == ch
  {
  }

  /** On a '0' clue `add_board_entries` computes `0 - 1` on a `usize` and
      panics, so boards handed to the encoder must not contain one. */
  predicate NoZeroClue(board: string) {
    forall i :: 0 <= i < |board| ==> board[i] != '0'
  }

  /** The variable fixed by the clue at position i: value digit - 1, row i / 9,
      column i % 9. */
  function ClueVar(board: string, i: nat): nat
    requires i < |board| && IsDigit(board[i]) && board[i] != '0'
  {
    Index(DigitValue(board[i]) - 1, i / 9, i % 9)
  }

  /** The unit clauses for the clues among the first n positions, in order. */
  function ClueClauses(lits: seq<Lit>, board: string, n: nat): Formula
    requires NumVars <= |lits| && |board| == Cells && NoZeroClue(board) && n <= |board|
  {
    if n == 0 then [] else
      var unit: Formula := if IsDigit(board[n - 1]) then [[lits[ClueVar(board, n - 1)]]] else [];
      ClueClauses(lits, board, n - 1) + unit
  }

  /** The positions below n that hold digits, in increasing order. */
  function CluePositions(board: string, n: nat): (ps: seq<nat>)
    requires n <= |board|
    ensures forall k :: 0 <= k < |ps| ==> ps[k] < n && IsDigit(board[ps[k]])
  {
    if n == 0 then []
    else CluePositions(board, n - 1) + (if IsDigit(board[n - 1]) then [n - 1] else [])
  }

  /** The clue positions are increasing and include every digit position below n. */
  lemma {:induction false} CluePositionsCorrect(board: string, n: nat)
    requires n <= |board|
    ensures forall k, l :: 0 <= k < l < |CluePositions(board, n)| ==>
      CluePositions(board, n)[k] < CluePositions(board, n)[l]
    ensures forall i :: 0 <= i < n && IsDigit(board[i]) ==> i in CluePositions(board, n)
  {
    if n > 0 {
      CluePositionsCorrect(board, n - 1);
      var ps, qs := CluePositions(board, n - 1), CluePositions(board, n);
      if IsDigit(board[n - 1]) {
        assert qs == ps + [n - 1];
        assert n - 1 in qs;
      } else {
        assert qs == ps;
      }
    }
  }

  method AddBoardEntries(solver: Solver, lits: seq<Lit>, board: string)
    requires NumVars <= |lits| && |board| == Cells && NoZeroClue(board)
    modifies solver
    ensures solver.clauses == old(solver.clauses) + ClueClauses(lits, board, |board|)
    ensures solver.varCount == old(solver.varCount)
  {
    var formula: Formula := [];
    for i := 0 to |board|
      invariant formula == ClueClauses(lits, board, i)
    {
      var elem := board[i];
      if IsDigit(elem) {
        var value := DigitValue(elem) - 1;
        formula := formula + [[lits[Index(value, i / 9, i % 9)]]];
      }
    }
    solver.AddFormula(formula);
  }

  /** There is one clue clause per digit position. */
  lemma {:induction false} ClueClausesLength(lits: seq<Lit>, board: string, n: nat)
    requires NumVars <= |lits| && |board| == Cells && NoZeroClue(board) && n <= |board|
    ensures |ClueClauses(lits, board, n)| == |CluePositions(board, n)|
  {
    if n > 0 {
      ClueClausesLength(lits, board, n - 1);
    }
  }

  /** Clue clause k is the unit clause of the k-th digit position. */
  lemma {:induction false} ClueClausesAt(lits: seq<Lit>, board: string, n: nat, k: nat)
    requires NumVars <= |lits| && |board| == Cells && NoZeroClue(board) && n <= |board|
    requires k < |CluePositions(board, n)|
    ensures k < |ClueClauses(lits, board, n)|
    ensures ClueClauses(lits, board, n)[k] == [lits[ClueVar(board, CluePositions(board, n)[k])]]
  {
    ClueClausesLength(lits, board, n);
    var prev, ps := ClueClauses(lits, board, n - 1), CluePositions(board, n - 1);
    ClueClausesLength(lits, board, n - 1);
    if k < |ps| {
      ClueClausesAt(lits, board, n - 1, k);
      assert ClueClauses(lits, board, n)[k] == prev[k];
      assert CluePositions(board, n)[k] == ps[k];
    } else {
      assert IsDigit(board[n - 1]);
      assert ClueClauses(lits, board, n) == prev + [[lits[ClueVar(board, n - 1)]]];
      assert CluePositions(board, n) == ps + [n - 1];
    }
  }

  /** Clue clauses: one unit clause per digit position, in increasing order of
      position, fixing that position's variable; nothing for other characters. */
  lemma ClueClausesShape(lits: seq<Lit>, board: string, n: nat)
    requires NumVars <= |lits| && |board| == Cells && NoZeroClue(board) && n <= |board|
    ensures |ClueClauses(lits, board, n)| == |CluePositions(board, n)|
    ensures forall k :: 0 <= k < |CluePositions(board, n)| ==>
      ClueClauses(lits, board, n)[k] == [lits[ClueVar(board, CluePositions(board, n)[k])]]
  {
    ClueClausesLength(lits, board, n);
    forall k | 0 <= k < |CluePositions(board, n)|
      ensures ClueClauses(lits, board, n)[k] == [lits[ClueVar(board, CluePositions(board, n)[k])]]
    {
      ClueClausesAt(lits, board, n, k);
    }
  }

  /** The clue clauses hold iff every clue's variable literal holds. */
  lemma {:induction false} ClueClausesHold(a: set<nat>, lits: seq<Lit>, board: string, n: nat)
    requires NumVars <= |lits| && |board| == Cells && NoZeroClue(board) && n <= |board|
    ensures FormulaHolds(a, ClueClauses(lits, board, n)) <==>
      forall i :: 0 <= i < n && IsDigit(board[i]) ==> LitHolds(a, lits[ClueVar(board, i)])
  {
    if n > 0 {
      ClueClausesHold(a, lits, board, n - 1);
      var last: Formula := if IsDigit(board[n - 1]) then [[lits[ClueVar(board, n - 1)]]] else [];
      FormulaHoldsAppend(a, ClueClauses(lits, board, n - 1), last);
      if IsDigit(board[n - 1]) {
        assert ClauseHolds(a, last[0]) <==> LitHolds(a, lits[ClueVar(board, n - 1)]) by {
          assert last[0][0] == lits[ClueVar(board, n - 1)];
        }
      }
    }
  }
}
