/** `sudoku_solver`: the complete formula for a board (structural clauses
    first, clue clauses after them), and the theorems that connect it with
    the decoder: a model of the formula decodes to a solved board that keeps
    every clue, and every solved board that keeps the clues is the decoding
    of a model of the formula. */
module Sudoku {
  import opened Cnf
  import opened Indexer
  import opened ExactlyOne
  import opened SatSolver
  import opened Families
  import opened Clues
  import opened Decoder

  /** The formula `sudoku_solver` hands to the solver for `board`. */
  function SudokuFormula(board: string): Formula
    requires |board| == Cells && NoZeroClue(board)
  {
    StructuralClauses(VarLits()) + ClueClauses(VarLits(), board, |board|)
  }

  method SudokuSolver(board: string) returns (lits: seq<Lit>, solver: Solver)
    requires |board| == Cells && NoZeroClue(board)
    ensures fresh(solver)
    ensures lits == VarLits()
    ensures solver.varCount == NumVars && solver.clauses == SudokuFormula(board)
  {
    solver := new Solver();
    lits := solver.NewLits(Rows * Columns * Numbers);
    assert lits == VarLits();
    NoRowContainsDuplicates(solver, lits);
    assert solver.clauses == RowClauses(lits);
    NoColumnContainsDuplicates(solver, lits);
    NoBoxContainsDuplicates(solver, lits);
    EveryFieldContainsOneNumber(solver, lits);
    assert solver.clauses == StructuralClauses(lits);
    AddBoardEntries(solver, lits, board);
  }

  /** Clause count: the first 11988 clauses are the structural ones, the same
      for every board, and the clue clauses follow them. */
  lemma StructuralPrefix(board: string)
    requires |board| == Cells && NoZeroClue(board)
    ensures |SudokuFormula(board)| == 11988 + |CluePositions(board, Cells)|
    ensures SudokuFormula(board)[..11988] == StructuralClauses(VarLits())
    ensures SudokuFormula(board)[11988..] == ClueClauses(VarLits(), board, Cells)
  {
    StructuralClauseCount(VarLits());
    ClueClausesShape(VarLits(), board, Cells);
  }

  // ---------------------------------------------------------------------
  // Solved boards.

  function RowCells(row: nat): seq<nat> {
    seq(9, k requires 0 <= k < 9 => Cell(row, k))
  }

  function ColumnCells(column: nat): seq<nat> {
    seq(9, k requires 0 <= k < 9 => Cell(k, column))
  }

  /** The cells of box b, boxes numbered row-major from the top left. */
  function BoxCells(b: nat): seq<nat> {
    seq(9, k requires 0 <= k < 9 => Cell(3 * (b / 3) + k / 3, 3 * (b % 3) + k % 3))
  }

  /** Character `ch` occurs at exactly one of the cells. */
  predicate OnceIn(s: string, cells: seq<nat>, ch: char) {
    exists k :: 0 <= k < |cells| && cells[k] < |s| && s[cells[k]] == ch &&
      forall l :: 0 <= l < |cells| && cells[l] < |s| && s[cells[l]] == ch ==> l == k
  }

  predicate RowsOk(s: string) {
    forall v, row :: 0 <= v < Numbers && 0 <= row < Rows ==> OnceIn(s, RowCells(row), DigitChar(v))
  }

  predicate ColumnsOk(s: string) {
    forall v, column :: 0 <= v < Numbers && 0 <= column < Columns ==> OnceIn(s, ColumnCells(column), DigitChar(v))
  }

  predicate BoxesOk(s: string) {
    forall v, b :: 0 <= v < Numbers && 0 <= b < 9 ==> OnceIn(s, BoxCells(b), DigitChar(v))
  }

  /** A filled board on which every row, column and box is a permutation of 1-9. */
  predicate IsSolution(s: string) {
    |s| == Cells && (forall i :: 0 <= i < Cells ==> '1' <= s[i] <= '9') &&
    RowsOk(s) && ColumnsOk(s) && BoxesOk(s)
  }

  /** `s` holds every clue of `board` at its position. */
  predicate KeepsClues(s: string, board: string) {
    forall i :: 0 <= i < |board| && IsDigit(board[i]) ==> i < |s| && s[i] == board[i]
  }

  /** The assignment makes "position i holds v + 1" true exactly when `s` does. */
  predicate Encodes(a: set<nat>, s: string) {
    |s| == Cells &&
    forall v, i :: 0 <= v < Numbers && 0 <= i < Cells ==> (CellVar(v, i) in a <==> s[i] == DigitChar(v))
  }

  /** The solver model for a filled board: variable k is true iff the board
      holds value ValueOf(k) + 1 at cell (RowOf(k), ColumnOf(k)). */
  function ModelOf(s: string): seq<Lit>
    requires |s| == Cells
  {
    seq(NumVars, k requires 0 <= k < NumVars =>
      if s[Cell(RowOf(k), ColumnOf(k))] == DigitChar(ValueOf(k)) then Pos(k) else Neg(k))
  }

  // ---------------------------------------------------------------------
  // From groups of literals to groups of cells.

  lemma OnceTransfer(a: set<nat>, g: seq<Lit>, s: string, cells: seq<nat>, ch: char)
    requires |g| == |cells|
    requires forall k :: 0 <= k < |g| ==> cells[k] < |s| && (LitHolds(a, g[k]) <==> s[cells[k]] == ch)
    ensures ExactlyOneHolds(a, g) <==> OnceIn(s, cells, ch)
  {
    if ExactlyOneHolds(a, g) {
      var k :| 0 <= k < |g| && LitHolds(a, g[k]) && forall j :: 0 <= j < |g| && LitHolds(a, g[j]) ==> j == k;
      assert cells[k] < |s| && s[cells[k]] == ch;
    }
    if OnceIn(s, cells, ch) {
      var k :| 0 <= k < |cells| && cells[k] < |s| && s[cells[k]] == ch &&
        forall l :: 0 <= l < |cells| && cells[l] < |s| && s[cells[l]] == ch ==> l == k;
      assert LitHolds(a, g[k]);
    }
  }

  lemma RowGroupIff(a: set<nat>, s: string, v: nat, row: nat)
    requires Encodes(a, s) && v < Numbers && row < Rows
    ensures ExactlyOneHolds(a, RowGroup(VarLits(), v, row)) <==> OnceIn(s, RowCells(row), DigitChar(v))
  {
    var g := RowGroup(VarLits(), v, row);
    forall k | 0 <= k < 9
      ensures RowCells(row)[k] < |s| && (LitHolds(a, g[k]) <==> s[RowCells(row)[k]] == DigitChar(v))
    {
      CellCoordinates(row, k);
      assert g[k] == Pos(CellVar(v, Cell(row, k)));
    }
    OnceTransfer(a, g, s, RowCells(row), DigitChar(v));
  }

  lemma ColumnGroupIff(a: set<nat>, s: string, v: nat, column: nat)
    requires Encodes(a, s) && v < Numbers && column < Columns
    ensures ExactlyOneHolds(a, ColumnGroup(VarLits(), v, column)) <==> OnceIn(s, ColumnCells(column), DigitChar(v))
  {
    var g := ColumnGroup(VarLits(), v, column);
    forall k | 0 <= k < 9
      ensures ColumnCells(column)[k] < |s| && (LitHolds(a, g[k]) <==> s[ColumnCells(column)[k]] == DigitChar(v))
    {
      CellCoordinates(k, column);
      assert g[k] == Pos(CellVar(v, Cell(k, column)));
    }
    OnceTransfer(a, g, s, ColumnCells(column), DigitChar(v));
  }

  lemma BoxGroupIff(a: set<nat>, s: string, v: nat, b: nat)
    requires Encodes(a, s) && v < Numbers && b < 9
    ensures ExactlyOneHolds(a, BoxGroup(VarLits(), v, 3 * (b / 3), 3 * (b % 3))) <==> OnceIn(s, BoxCells(b), DigitChar(v))
  {
    var row, column := 3 * (b / 3), 3 * (b % 3);
    var g := BoxGroup(VarLits(), v, row, column);
    forall k | 0 <= k < 9
      ensures BoxCells(b)[k] < |s| && (LitHolds(a, g[k]) <==> s[BoxCells(b)[k]] == DigitChar(v))
    {
      var r, c := BoxEntry(v, row, column, k);
      CellCoordinates(r, c);
      assert BoxCells(b)[k] == Cell(r, c);
    }
    OnceTransfer(a, g, s, BoxCells(b), DigitChar(v));
  }

  // ---------------------------------------------------------------------
  // The structural families, read on a board.

  lemma RowClausesIff(a: set<nat>, s: string)
    requires Encodes(a, s)
    ensures FormulaHolds(a, RowClauses(VarLits())) <==> RowsOk(s)
  {
    var gs := RowGroups(VarLits());
    EncodeGroupsHolds(a, gs);
    if RowsOk(s) {
      forall k | 0 <= k < |gs| ensures ExactlyOneHolds(a, gs[k]) {
        var v, row := k / 9, k % 9;
        RowGroupsAt(VarLits(), v, row);
        assert 9 * v + row == k;
        RowGroupIff(a, s, v, row);
      }
    }
    if FormulaHolds(a, RowClauses(VarLits())) {
      forall v, row | 0 <= v < Numbers && 0 <= row < Rows
        ensures OnceIn(s, RowCells(row), DigitChar(v))
      {
        RowGroupsAt(VarLits(), v, row);
        RowGroupIff(a, s, v, row);
      }
    }
  }

  lemma ColumnClausesIff(a: set<nat>, s: string)
    requires Encodes(a, s)
    ensures FormulaHolds(a, ColumnClauses(VarLits())) <==> ColumnsOk(s)
  {
    var gs := ColumnGroups(VarLits());
    EncodeGroupsHolds(a, gs);
    if ColumnsOk(s) {
      forall k | 0 <= k < |gs| ensures ExactlyOneHolds(a, gs[k]) {
        var v, column := k / 9, k % 9;
        ColumnGroupsAt(VarLits(), v, column);
        assert 9 * v + column == k;
        ColumnGroupIff(a, s, v, column);
      }
    }
    if FormulaHolds(a, ColumnClauses(VarLits())) {
      forall v, column | 0 <= v < Numbers && 0 <= column < Columns
        ensures OnceIn(s, ColumnCells(column), DigitChar(v))
      {
        ColumnGroupsAt(VarLits(), v, column);
        ColumnGroupIff(a, s, v, column);
      }
    }
  }

  /** Box group k of the encoder is the group of box k % 9 and value k / 9. */
  lemma BoxGroupsIndex(a: set<nat>, s: string, k: nat)
    requires Encodes(a, s) && k < 81
    ensures k / 9 < Numbers && k % 9 < 9
    ensures ExactlyOneHolds(a, BoxGroups(VarLits())[k]) <==> OnceIn(s, BoxCells(k % 9), DigitChar(k / 9))
  {
    var v, b := k / 9, k % 9;
    assert BoxGroups(VarLits())[k] == BoxGroup(VarLits(), v, 3 * (b / 3), 3 * (b % 3)) by {
      assert k % 9 / 3 == b / 3 && k % 3 == b % 3;
    }
    BoxGroupIff(a, s, v, b);
  }

  lemma BoxClausesIff(a: set<nat>, s: string)
    requires Encodes(a, s)
    ensures FormulaHolds(a, BoxClauses(VarLits())) <==> BoxesOk(s)
  {
    var gs := BoxGroups(VarLits());
    EncodeGroupsHolds(a, gs);
    if BoxesOk(s) {
      forall k | 0 <= k < |gs| ensures ExactlyOneHolds(a, gs[k]) {
        BoxGroupsIndex(a, s, k);
      }
    }
    if FormulaHolds(a, BoxClauses(VarLits())) {
      forall v, b | 0 <= v < Numbers && 0 <= b < 9
        ensures OnceIn(s, BoxCells(b), DigitChar(v))
      {
        var k := 9 * v + b;
        assert k / 9 == v && k % 9 == b;
        BoxGroupsIndex(a, s, k);
      }
    }
  }

  /** The cell family holds under a model's truth set iff the model makes
      exactly one value true in every cell. */
  lemma CellClausesIff(model: seq<Lit>)
    ensures FormulaHolds(TrueVars(model), CellClauses(VarLits())) <==> OneValuePerCell(model, VarLits())
  {
    var a, lits := TrueVars(model), VarLits();
    var gs := CellGroups(lits);
    EncodeGroupsHolds(a, gs);
    forall i | 0 <= i < Cells
      ensures ExactlyOneHolds(a, gs[i]) <==> OneValueAt(model, lits, i)
    {
      var g := gs[i];
      assert g == CellGroup(lits, i / 9, i % 9);
      forall v | 0 <= v < Numbers ensures LitHolds(a, g[v]) <==> ValueAt(model, lits, i, v) {
        assert g[v] == Pos(CellVar(v, i));
      }
      if ExactlyOneHolds(a, g) {
        var v :| 0 <= v < |g| && LitHolds(a, g[v]) && forall w :: 0 <= w < |g| && LitHolds(a, g[w]) ==> w == v;
        assert ValueAt(model, lits, i, v);
      }
      if OneValueAt(model, lits, i) {
        var v :| 0 <= v < Numbers && ValueAt(model, lits, i, v) &&
          forall w :: 0 <= w < Numbers && ValueAt(model, lits, i, w) ==> w == v;
        assert LitHolds(a, g[v]);
      }
    }
  }

  // ---------------------------------------------------------------------
  // Clues.

  lemma ClueDigit(board: string, i: nat)
    requires i < |board| && IsDigit(board[i]) && board[i] != '0' && i < Cells
    ensures DigitValue(board[i]) - 1 < Numbers
    ensures ClueVar(board, i) == CellVar(DigitValue(board[i]) - 1, i)
    ensures DigitChar(DigitValue(board[i]) - 1) == board[i]
  {
  }

  /** Under a board reading `s`, the clue clauses hold iff `s` keeps the clues. */
  lemma ClueClausesIff(a: set<nat>, s: string, board: string)
    requires |board| == Cells && NoZeroClue(board) && Encodes(a, s)
    ensures FormulaHolds(a, ClueClauses(VarLits(), board, Cells)) <==> KeepsClues(s, board)
  {
    ClueClausesHold(a, VarLits(), board, Cells);
    forall i | 0 <= i < Cells && IsDigit(board[i])
      ensures LitHolds(a, VarLits()[ClueVar(board, i)]) <==> s[i] == board[i]
    {
      ClueDigit(board, i);
      DigitCharInjective(DigitValue(board[i]) - 1, DigitValue(board[i]) - 1);
    }
  }

  // ---------------------------------------------------------------------
  // Decoding.

  /** A model with one value per cell is read by the decoder as the board it encodes. */
  lemma DecodeEncodes(model: seq<Lit>)
    requires OneValuePerCell(model, VarLits())
    ensures Encodes(TrueVars(model), Decode(model, VarLits()))
  {
    var a, lits, s := TrueVars(model), VarLits(), Decode(model, VarLits());
    DecodeCorrect(model, lits);
    forall v, i | 0 <= v < Numbers && 0 <= i < Cells
      ensures CellVar(v, i) in a <==> s[i] == DigitChar(v)
    {
      CellVarBounded(v, i);
      assert CellVar(v, i) in a <==> ValueAt(model, lits, i, v);
      assert OneValueAt(model, lits, i);
      var w :| 0 <= w < Numbers && ValueAt(model, lits, i, w) &&
        forall u :: 0 <= u < Numbers && ValueAt(model, lits, i, u) ==> u == w;
      DigitCharInjective(v, w);
    }
  }

  /** Clue preservation: a model that satisfies the cell family and the clue
      clauses decodes to a string equal to the board at every clue. */
  lemma CluePreservation(board: string, model: seq<Lit>)
    requires |board| == Cells && NoZeroClue(board)
    requires FormulaHolds(TrueVars(model), CellClauses(VarLits()))
    requires FormulaHolds(TrueVars(model), ClueClauses(VarLits(), board, Cells))
    ensures |Decode(model, VarLits())| == Cells
    ensures KeepsClues(Decode(model, VarLits()), board)
  {
    CellClausesIff(model);
    DecodeCorrect(model, VarLits());
    DecodeEncodes(model);
    ClueClausesIff(TrueVars(model), Decode(model, VarLits()), board);
  }

  /** Soundness of the reduction: a model of the whole formula decodes to a
      solved board that keeps every clue. */
  lemma Soundness(board: string, model: seq<Lit>)
    requires |board| == Cells && NoZeroClue(board)
    requires FormulaHolds(TrueVars(model), SudokuFormula(board))
    ensures IsSolution(Decode(model, VarLits()))
    ensures KeepsClues(Decode(model, VarLits()), board)
  {
    var a, lits := TrueVars(model), VarLits();
    var rows, columns, boxes, cells := RowClauses(lits), ColumnClauses(lits), BoxClauses(lits), CellClauses(lits);
    var clues := ClueClauses(lits, board, Cells);
    FormulaHoldsAppend(a, StructuralClauses(lits), clues);
    FormulaHoldsAppend(a, rows + columns + boxes, cells);
    FormulaHoldsAppend(a, rows + columns, boxes);
    FormulaHoldsAppend(a, rows, columns);
    CluePreservation(board, model);
    CellClausesIff(model);
    DecodeCorrect(model, lits);
    var s := Decode(model, lits);
    DecodeEncodes(model);
    RowClausesIff(a, s);
    ColumnClausesIff(a, s);
    BoxClausesIff(a, s);
  }

  /** The truth set of ModelOf(s) encodes `s`. */
  lemma ModelOfEncodes(s: string)
    requires |s| == Cells
    ensures Encodes(TrueVars(ModelOf(s)), s)
  {
    var m := ModelOf(s);
    forall v, i | 0 <= v < Numbers && 0 <= i < Cells
      ensures CellVar(v, i) in TrueVars(m) <==> s[i] == DigitChar(v)
    {
      var x := CellVar(v, i);
      CellVarBounded(v, i);
      if s[i] == DigitChar(v) {
        assert m[x] == Pos(x);
      }
      if Pos(x) in m {
        var k :| 0 <= k < |m| && m[k] == Pos(x);
        assert k == x;
      }
    }
  }

  lemma ModelOfOneValue(s: string)
    requires IsSolution(s)
    ensures OneValuePerCell(ModelOf(s), VarLits())
  {
    var m, lits := ModelOf(s), VarLits();
    ModelOfEncodes(s);
    forall i | 0 <= i < Cells ensures OneValueAt(m, lits, i) {
      var v: nat := s[i] as int - '1' as int;
      assert s[i] == DigitChar(v);
      forall w | 0 <= w < Numbers ensures ValueAt(m, lits, i, w) <==> s[i] == DigitChar(w) {
        CellVarBounded(w, i);
        assert lits[CellVar(w, i)] == Pos(CellVar(w, i));
      }
      forall w | 0 <= w < Numbers && ValueAt(m, lits, i, w) ensures w == v {
        DigitCharInjective(v, w);
      }
    }
  }

  /** In the model of a solved board, the value true at cell i is the one the board holds. */
  lemma ModelOfValueAt(s: string, i: nat) returns (v: nat)
    requires IsSolution(s) && i < Cells
    ensures v < Numbers && s[i] == DigitChar(v) && ValueAt(ModelOf(s), VarLits(), i, v)
  {
    assert '1' <= s[i] <= '9';
    v := s[i] as int - '1' as int;
    assert s[i] == DigitChar(v);
    var x := CellVar(v, i);
    CellVarBounded(v, i);
    ModelOfEncodes(s);
    assert x in TrueVars(ModelOf(s));
    assert VarLits()[x] == Pos(x);
  }

  /** Round trip: decoding the model of a solved board gives the board back. */
  lemma RoundTrip(s: string)
    requires IsSolution(s)
    ensures Decode(ModelOf(s), VarLits()) == s
  {
    var m, lits := ModelOf(s), VarLits();
    ModelOfOneValue(s);
    DecodeCorrect(m, lits);
    var d := Decode(m, lits);
    forall i | 0 <= i < Cells ensures d[i] == s[i] {
      var v := ModelOfValueAt(s, i);
    }
  }

  /** Completeness of the reduction: every solved board that keeps the clues
      is the decoding of a model of the whole formula. */
  lemma Completeness(board: string, s: string)
    requires |board| == Cells && NoZeroClue(board)
    requires IsSolution(s) && KeepsClues(s, board)
    ensures FormulaHolds(TrueVars(ModelOf(s)), SudokuFormula(board))
    ensures Decode(ModelOf(s), VarLits()) == s
  {
    var m, lits := ModelOf(s), VarLits();
    var a := TrueVars(m);
    var rows, columns, boxes, cells := RowClauses(lits), ColumnClauses(lits), BoxClauses(lits), CellClauses(lits);
    ModelOfEncodes(s);
    ModelOfOneValue(s);
    RowClausesIff(a, s);
    ColumnClausesIff(a, s);
    BoxClausesIff(a, s);
    CellClausesIff(m);
    ClueClausesIff(a, s, board);
    FormulaHoldsAppend(a, rows, columns);
    FormulaHoldsAppend(a, rows + columns, boxes);
    FormulaHoldsAppend(a, rows + columns + boxes, cells);
    FormulaHoldsAppend(a, StructuralClauses(lits), ClueClauses(lits, board, Cells));
    RoundTrip(s);
  }

  /** In a solved board no two cells of one row hold the same character. */
  lemma SolutionRowDistinct(s: string, i: nat, j: nat)
    requires IsSolution(s) && i < j < Cells && i / 9 == j / 9
    ensures s[i] != s[j]
  {
    var row, v: nat := i / 9, s[i] as int - '1' as int;
    assert s[i] == DigitChar(v);
    assert OnceIn(s, RowCells(row), DigitChar(v));
    var k :| 0 <= k < 9 && RowCells(row)[k] < |s| && s[RowCells(row)[k]] == DigitChar(v) &&
      forall l :: 0 <= l < 9 && RowCells(row)[l] < |s| && s[RowCells(row)[l]] == DigitChar(v) ==> l == k;
    assert RowCells(row)[i % 9] == i && RowCells(row)[j % 9] == j;
    assert i % 9 == k && j % 9 != k;
  }

  /** Two equal clues in one row leave the formula without a model. */
  lemma DuplicateRowClueUnsat(board: string, i: nat, j: nat, model: seq<Lit>)
    requires |board| == Cells && NoZeroClue(board)
    requires i < j < Cells && i / 9 == j / 9
    requires IsDigit(board[i]) && board[j] == board[i]
    ensures !FormulaHolds(TrueVars(model), SudokuFormula(board))
  {
    if FormulaHolds(TrueVars(model), SudokuFormula(board)) {
      Soundness(board, model);
      SolutionRowDistinct(Decode(model, VarLits()), i, j);
      assert false;
    }
  }
}
