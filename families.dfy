/** The four structural families of Sudoku clauses. Each family is 81 groups
    of nine literals, and each group is compiled with the exactly-one-true
    encoding: rows (only the column varies), columns (only the row varies),
    3x3 boxes, and cells (only the value varies). */
module Families {
  import opened Cnf
  import opened Indexer
  import opened ExactlyOne
  import opened SatSolver

  /** The literals of value `value` along row `row`, by column. */
  function RowGroup(lits: seq<Lit>, value: nat, row: nat): seq<Lit>
    requires NumVars <= |lits| && value < Numbers && row < Rows
  {
    seq(Columns, column requires 0 <= column < Columns => lits[Index(value, row, column)])
  }

  /** The literals of value `value` down column `column`, by row. */
  function ColumnGroup(lits: seq<Lit>, value: nat, column: nat): seq<Lit>
    requires NumVars <= |lits| && value < Numbers && column < Columns
  {
    seq(Rows, row requires 0 <= row < Rows => lits[Index(value, row, column)])
  }

  /** The literals of value `value` in the box with top-left cell (row, column),
      row by row. */
  function BoxGroup(lits: seq<Lit>, value: nat, row: nat, column: nat): seq<Lit>
    requires NumVars <= |lits| && value < Numbers && row <= 6 && column <= 6
  {
    seq(9, k requires 0 <= k < 9 => lits[Index(value, row + k / 3, column + k % 3)])
  }

  /** The literals of cell (row, column), by value. */
  function CellGroup(lits: seq<Lit>, row: nat, column: nat): seq<Lit>
    requires NumVars <= |lits| && row < Rows && column < Columns
  {
    seq(Numbers, value requires 0 <= value < Numbers => lits[Index(value, row, column)])
  }

  /** The groups of each family in the order the `no_*_contains_duplicates` and
      `every_field_contains_one_number` loops visit them. */
  function RowGroups(lits: seq<Lit>): seq<seq<Lit>>
    requires NumVars <= |lits|
  {
    seq(81, k requires 0 <= k < 81 => RowGroup(lits, k / 9, k % 9))
  }

  function ColumnGroups(lits: seq<Lit>): seq<seq<Lit>>
    requires NumVars <= |lits|
  {
    seq(81, k requires 0 <= k < 81 => ColumnGroup(lits, k / 9, k % 9))
  }

  function BoxGroups(lits: seq<Lit>): seq<seq<Lit>>
    requires NumVars <= |lits|
  {
    seq(81, k requires 0 <= k < 81 => BoxGroup(lits, k / 9, 3 * (k % 9 / 3), 3 * (k % 3)))
  }

  function CellGroups(lits: seq<Lit>): seq<seq<Lit>>
    requires NumVars <= |lits|
  {
    seq(81, k requires 0 <= k < 81 => CellGroup(lits, k / 9, k % 9))
  }

  /** The exactly-one-true clauses of every group, group after group. */
  function EncodeGroups(gs: seq<seq<Lit>>): Formula {
    if gs == [] then [] else EncodeGroups(gs[..|gs| - 1]) + ExactlyOneClauses(gs[|gs| - 1])
  }

  function RowClauses(lits: seq<Lit>): Formula
    requires NumVars <= |lits|
  {
    EncodeGroups(RowGroups(lits))
  }

  function ColumnClauses(lits: seq<Lit>): Formula
    requires NumVars <= |lits|
  {
    EncodeGroups(ColumnGroups(lits))
  }

  function BoxClauses(lits: seq<Lit>): Formula
    requires NumVars <= |lits|
  {
    EncodeGroups(BoxGroups(lits))
  }

  function CellClauses(lits: seq<Lit>): Formula
    requires NumVars <= |lits|
  {
    EncodeGroups(CellGroups(lits))
  }

  /** All structural clauses, in the order `sudoku_solver` adds them. */
  function StructuralClauses(lits: seq<Lit>): Formula
    requires NumVars <= |lits|
  {
    RowClauses(lits) + ColumnClauses(lits) + BoxClauses(lits) + CellClauses(lits)
  }

  /** Adding the clauses of group k to the clauses of the groups before it
      gives the clauses of the groups up to and including k. */
  lemma EncodeGroupsStep(start: Formula, gs: seq<seq<Lit>>, k: nat)
    requires k < |gs|
    ensures start + EncodeGroups(gs[..k]) + ExactlyOneClauses(gs[k]) == start + EncodeGroups(gs[..k + 1])
  {
    assert gs[..k + 1][..k] == gs[..k];
  }

  lemma RowGroupsAt(lits: seq<Lit>, value: nat, row: nat)
    requires NumVars <= |lits| && value < Numbers && row < Rows
    ensures 9 * value + row < 81 && RowGroups(lits)[9 * value + row] == RowGroup(lits, value, row)
  {
    var k := 9 * value + row;
    assert k / 9 == value && k % 9 == row;
  }

  lemma ColumnGroupsAt(lits: seq<Lit>, value: nat, column: nat)
    requires NumVars <= |lits| && value < Numbers && column < Columns
    ensures 9 * value + column < 81 && ColumnGroups(lits)[9 * value + column] == ColumnGroup(lits, value, column)
  {
    var k := 9 * value + column;
    assert k / 9 == value && k % 9 == column;
  }

  lemma CellGroupsAt(lits: seq<Lit>, row: nat, column: nat)
    requires NumVars <= |lits| && row < Rows && column < Columns
    ensures 9 * row + column < 81 && CellGroups(lits)[9 * row + column] == CellGroup(lits, row, column)
  {
    var k := 9 * row + column;
    assert k / 9 == row && k % 9 == column;
  }

  method NoRowContainsDuplicates(solver: Solver, lits: seq<Lit>)
    requires NumVars <= |lits|
    modifies solver
    ensures solver.clauses == old(solver.clauses) + RowClauses(lits)
    ensures solver.varCount == old(solver.varCount)
  {
    ghost var start := solver.clauses;
    ghost var gs := RowGroups(lits);
    for value := 0 to Numbers
      invariant solver.clauses == start + EncodeGroups(gs[..9 * value])
      invariant solver.varCount == old(solver.varCount)
    {
      for row := 0 to Rows
        invariant solver.clauses == start + EncodeGroups(gs[..9 * value + row])
        invariant solver.varCount == old(solver.varCount)
      {
        var formulaLits: seq<Lit> := [];
        for column := 0 to Columns
          invariant formulaLits == RowGroup(lits, value, row)[..column]
        {
          formulaLits := formulaLits + [lits[Index(value, row, column)]];
        }
        var f := ExactlyOneTrue(formulaLits);
        solver.AddFormula(f);
        assert formulaLits == RowGroup(lits, value, row);
        RowGroupsAt(lits, value, row);
        EncodeGroupsStep(start, gs, 9 * value + row);
      }
    }
    assert gs[..81] == gs;
  }

  method NoColumnContainsDuplicates(solver: Solver, lits: seq<Lit>)
    requires NumVars <= |lits|
    modifies solver
    ensures solver.clauses == old(solver.clauses) + ColumnClauses(lits)
    ensures solver.varCount == old(solver.varCount)
  {
    ghost var start := solver.clauses;
    ghost var gs := ColumnGroups(lits);
    for value := 0 to Numbers
      invariant solver.clauses == start + EncodeGroups(gs[..9 * value])
      invariant solver.varCount == old(solver.varCount)
    {
      for column := 0 to Columns
        invariant solver.clauses == start + EncodeGroups(gs[..9 * value + column])
        invariant solver.varCount == old(solver.varCount)
      {
        var formulaLits: seq<Lit> := [];
        for row := 0 to Rows
          invariant formulaLits == ColumnGroup(lits, value, column)[..row]
        {
          formulaLits := formulaLits + [lits[Index(value, row, column)]];
        }
        var f := ExactlyOneTrue(formulaLits);
        solver.AddFormula(f);
        assert formulaLits == ColumnGroup(lits, value, column);
        ColumnGroupsAt(lits, value, column);
        EncodeGroupsStep(start, gs, 9 * value + column);
      }
    }
    assert gs[..81] == gs;
  }

  /** The box with top-left cell (row, column), with row and column in
      {0, 3, 6}, is group 9 * value + row + column / 3 of the box family. */
  lemma BoxGroupsAt(lits: seq<Lit>, value: nat, row: nat, column: nat, k: nat)
    requires NumVars <= |lits| && value < Numbers
    requires row == 0 || row == 3 || row == 6
    requires column == 0 || column == 3 || column == 6
    requires 3 * k == 27 * value + 3 * row + column
    ensures k < 81 && BoxGroups(lits)[k] == BoxGroup(lits, value, row, column)
  {
    assert k == 9 * value + row + column / 3;
    assert k / 9 == value && k % 9 == row + column / 3;
    assert 3 * (k % 9 / 3) == row && 3 * (k % 3) == column;
  }

  /** Entry (boxRow, boxColumn) of a box is element 3 * boxRow + boxColumn of its group. */
  lemma BoxGroupPrefix(lits: seq<Lit>, value: nat, row: nat, column: nat, boxRow: nat, boxColumn: nat)
    requires NumVars <= |lits| && value < Numbers && row <= 6 && column <= 6
    requires boxRow < 3 && boxColumn < 3
    ensures BoxGroup(lits, value, row, column)[..3 * boxRow + boxColumn] + [lits[Index(value, row + boxRow, column + boxColumn)]]
         == BoxGroup(lits, value, row, column)[..3 * boxRow + boxColumn + 1]
  {
    var g := BoxGroup(lits, value, row, column);
    var k := 3 * boxRow + boxColumn;
    assert k / 3 == boxRow && k % 3 == boxColumn;
    assert g[k] == lits[Index(value, row + boxRow, column + boxColumn)];
    assert g[..k + 1] == g[..k] + [g[k]];
  }

  /** The literals of one box, collected row by row. */
  method BoxLits(lits: seq<Lit>, value: nat, row: nat, column: nat) returns (formulaLits: seq<Lit>)
    requires NumVars <= |lits| && value < Numbers && row <= 6 && column <= 6
    ensures formulaLits == BoxGroup(lits, value, row, column)
  {
    formulaLits := [];
    for boxRow := 0 to 3
      invariant formulaLits == BoxGroup(lits, value, row, column)[..3 * boxRow]
    {
      for boxColumn := 0 to 3
        invariant formulaLits == BoxGroup(lits, value, row, column)[..3 * boxRow + boxColumn]
      {
        BoxGroupPrefix(lits, value, row, column, boxRow, boxColumn);
        formulaLits := formulaLits + [lits[Index(value, row + boxRow, column + boxColumn)]];
      }
    }
    assert BoxGroup(lits, value, row, column)[..9] == BoxGroup(lits, value, row, column);
  }

  /** The clauses of box (row, column) extend the box clauses compiled before it. */
  lemma BoxStep(lits: seq<Lit>, start: Formula, value: nat, row: nat, column: nat, done: nat)
    requires NumVars <= |lits| && value < Numbers
    requires row == 0 || row == 3 || row == 6
    requires column == 0 || column == 3 || column == 6
    requires 3 * done == 27 * value + 3 * row + column
    ensures done < 81
    ensures start + EncodeGroups(BoxGroups(lits)[..done]) + ExactlyOneClauses(BoxGroup(lits, value, row, column))
         == start + EncodeGroups(BoxGroups(lits)[..done + 1])
  {
    BoxGroupsAt(lits, value, row, column, done);
    EncodeGroupsStep(start, BoxGroups(lits), done);
  }

  method NoBoxContainsDuplicates(solver: Solver, lits: seq<Lit>)
    requires NumVars <= |lits|
    modifies solver
    ensures solver.clauses == old(solver.clauses) + BoxClauses(lits)
    ensures solver.varCount == old(solver.varCount)
  {
    ghost var start := solver.clauses;
    ghost var gs := BoxGroups(lits);
    ghost var done := 0;  // the number of boxes compiled so far
    for value := 0 to Numbers
      invariant done == 9 * value
      invariant solver.clauses == start + EncodeGroups(gs[..done])
      invariant solver.varCount == old(solver.varCount)
    {
      var row := 0;
      while row <= 6
        invariant row == 0 || row == 3 || row == 6 || row == 9
        invariant done == 9 * value + row
        invariant solver.clauses == start + EncodeGroups(gs[..done])
        invariant solver.varCount == old(solver.varCount)
      {
        var column := 0;
        while column <= 6
          invariant column == 0 || column == 3 || column == 6 || column == 9
          invariant 3 * done == 27 * value + 3 * row + column
          invariant solver.clauses == start + EncodeGroups(gs[..done])
          invariant solver.varCount == old(solver.varCount)
        {
          var formulaLits := BoxLits(lits, value, row, column);
          BoxStep(lits, start, value, row, column, done);
          var f := ExactlyOneTrue(formulaLits);
          solver.AddFormula(f);
          done := done + 1;
          column := column + 3;
        }
        row := row + 3;
      }
    }
    assert gs[..81] == gs;
  }

  method EveryFieldContainsOneNumber(solver: Solver, lits: seq<Lit>)
    requires NumVars <= |lits|
    modifies solver
    ensures solver.clauses == old(solver.clauses) + CellClauses(lits)
    ensures solver.varCount == old(solver.varCount)
  {
    ghost var start := solver.clauses;
    ghost var gs := CellGroups(lits);
    for row := 0 to Rows
      invariant solver.clauses == start + EncodeGroups(gs[..9 * row])
      invariant solver.varCount == old(solver.varCount)
    {
      for column := 0 to Columns
        invariant solver.clauses == start + EncodeGroups(gs[..9 * row + column])
        invariant solver.varCount == old(solver.varCount)
      {
        var formulaLits: seq<Lit> := [];
        for value := 0 to Numbers
          invariant formulaLits == CellGroup(lits, row, column)[..value]
        {
          formulaLits := formulaLits + [lits[Index(value, row, column)]];
        }
        var f := ExactlyOneTrue(formulaLits);
        solver.AddFormula(f);
        assert formulaLits == CellGroup(lits, row, column);
        CellGroupsAt(lits, row, column);
        EncodeGroupsStep(start, gs, 9 * row + column);
      }
    }
    assert gs[..81] == gs;
  }

  /** Every group of nine literals contributes 37 clauses. */
  lemma {:induction false} EncodeGroupsLength(gs: seq<seq<Lit>>)
    requires forall k :: 0 <= k < |gs| ==> |gs[k]| == 9
    ensures |EncodeGroups(gs)| == 37 * |gs|
  {
    if gs != [] {
      EncodeGroupsLength(gs[..|gs| - 1]);
      ExactlyOneCountNine(gs[|gs| - 1]);
    }
  }

  /** The clauses of a family hold iff every one of its groups has exactly one
      true literal. */
  lemma {:induction false} EncodeGroupsHolds(a: set<nat>, gs: seq<seq<Lit>>)
    ensures FormulaHolds(a, EncodeGroups(gs)) <==> forall k :: 0 <= k < |gs| ==> ExactlyOneHolds(a, gs[k])
  {
    if gs != [] {
      var init, last := gs[..|gs| - 1], gs[|gs| - 1];
      EncodeGroupsHolds(a, init);
      ExactlyOneSemantics(a, last);
      FormulaHoldsAppend(a, EncodeGroups(init), ExactlyOneClauses(last));
      assert forall k :: 0 <= k < |init| ==> init[k] == gs[k];
    }
  }

  /** Structural clause count: each family has 81 * 37 = 2997 clauses, and
      all four together 11988, whatever the literals. */
  lemma StructuralClauseCount(lits: seq<Lit>)
    requires NumVars <= |lits|
    ensures |RowClauses(lits)| == 2997 && |ColumnClauses(lits)| == 2997
    ensures |BoxClauses(lits)| == 2997 && |CellClauses(lits)| == 2997
    ensures |StructuralClauses(lits)| == 11988
  {
    EncodeGroupsLength(RowGroups(lits));
    EncodeGroupsLength(ColumnGroups(lits));
    EncodeGroupsLength(BoxGroups(lits));
    EncodeGroupsLength(CellGroups(lits));
  }

  /** The literals of a group are over nine distinct variables. */
  predicate DistinctVars(g: seq<Lit>) {
    forall i, j :: 0 <= i < j < |g| ==> g[i].v != g[j].v
  }

  /** Group contents for the solver's literals: in a row group only the column
      varies, in a column group only the row, in a cell group only the value. */
  lemma RowGroupContents(value: nat, row: nat)
    requires value < Numbers && row < Rows
    ensures |RowGroup(VarLits(), value, row)| == 9 && DistinctVars(RowGroup(VarLits(), value, row))
    ensures forall column :: 0 <= column < Columns ==>
      RowGroup(VarLits(), value, row)[column] == Pos(Index(value, row, column))
  {
    var g := RowGroup(VarLits(), value, row);
    forall column | 0 <= column < Columns ensures g[column] == Pos(Index(value, row, column)) {
      IndexBounded(value, row, column);
    }
    forall i, j | 0 <= i < j < 9 ensures g[i].v != g[j].v {
      IndexInjective(value, row, i, value, row, j);
    }
  }

  lemma ColumnGroupContents(value: nat, column: nat)
    requires value < Numbers && column < Columns
    ensures |ColumnGroup(VarLits(), value, column)| == 9 && DistinctVars(ColumnGroup(VarLits(), value, column))
    ensures forall row :: 0 <= row < Rows ==>
      ColumnGroup(VarLits(), value, column)[row] == Pos(Index(value, row, column))
  {
    var g := ColumnGroup(VarLits(), value, column);
    forall row | 0 <= row < Rows ensures g[row] == Pos(Index(value, row, column)) {
      IndexBounded(value, row, column);
    }
    forall i, j | 0 <= i < j < 9 ensures g[i].v != g[j].v {
      IndexInjective(value, i, column, value, j, column);
    }
  }

  lemma CellGroupContents(row: nat, column: nat)
    requires row < Rows && column < Columns
    ensures |CellGroup(VarLits(), row, column)| == 9 && DistinctVars(CellGroup(VarLits(), row, column))
    ensures forall value :: 0 <= value < Numbers ==>
      CellGroup(VarLits(), row, column)[value] == Pos(Index(value, row, column))
  {
    var g := CellGroup(VarLits(), row, column);
    forall value | 0 <= value < Numbers ensures g[value] == Pos(Index(value, row, column)) {
      IndexBounded(value, row, column);
    }
    forall i, j | 0 <= i < j < 9 ensures g[i].v != g[j].v {
      IndexInjective(i, row, column, j, row, column);
    }
  }

  /** Element k of a box group is the literal of cell (r, c) = (row + k / 3,
      column + k % 3). */
  lemma BoxEntry(value: nat, row: nat, column: nat, k: nat) returns (r: nat, c: nat)
    requires value < Numbers && row <= 6 && column <= 6 && k < 9
    ensures r == row + k / 3 && c == column + k % 3 && k == 3 * (r - row) + (c - column)
    ensures row <= r < row + 3 && column <= c < column + 3 && r < Rows && c < Columns
    ensures Index(value, r, c) < NumVars
    ensures BoxGroup(VarLits(), value, row, column)[k] == Pos(Index(value, r, c))
  {
    r, c := row + k / 3, column + k % 3;
    assert k == 3 * (k / 3) + k % 3 && k / 3 < 3 && k % 3 < 3;
    IndexBounded(value, r, c);
  }

  lemma BoxGroupDistinct(value: nat, row: nat, column: nat)
    requires value < Numbers && row <= 6 && column <= 6
    ensures |BoxGroup(VarLits(), value, row, column)| == 9 && DistinctVars(BoxGroup(VarLits(), value, row, column))
  {
    var g := BoxGroup(VarLits(), value, row, column);
    forall i, j | 0 <= i < j < 9 ensures g[i].v != g[j].v {
      var ri, ci := BoxEntry(value, row, column, i);
      var rj, cj := BoxEntry(value, row, column, j);
      IndexInjective(value, ri, ci, value, rj, cj);
    }
  }

  /** A box group covers exactly the nine cells (row + i, column + j) with
      i, j in [0, 3), each once. */
  lemma BoxGroupContents(value: nat, row: nat, column: nat)
    requires value < Numbers
    requires row == 0 || row == 3 || row == 6
    requires column == 0 || column == 3 || column == 6
    ensures |BoxGroup(VarLits(), value, row, column)| == 9 && DistinctVars(BoxGroup(VarLits(), value, row, column))
    ensures forall r, c :: 0 <= r < Rows && 0 <= c < Columns ==>
      (Pos(Index(value, r, c)) in BoxGroup(VarLits(), value, row, column) <==>
       row <= r < row + 3 && column <= c < column + 3)
  {
    BoxGroupDistinct(value, row, column);
    forall r, c | 0 <= r < Rows && 0 <= c < Columns
      ensures Pos(Index(value, r, c)) in BoxGroup(VarLits(), value, row, column) <==>
              row <= r < row + 3 && column <= c < column + 3
    {
      BoxCellMember(value, row, column, r, c);
    }
  }

  lemma BoxCellMember(value: nat, row: nat, column: nat, r: nat, c: nat)
    requires value < Numbers && row <= 6 && column <= 6 && r < Rows && c < Columns
    ensures Pos(Index(value, r, c)) in BoxGroup(VarLits(), value, row, column) <==>
            row <= r < row + 3 && column <= c < column + 3
  {
    if row <= r < row + 3 && column <= c < column + 3 {
      BoxCellIn(value, row, column, r, c);
    }
    if Pos(Index(value, r, c)) in BoxGroup(VarLits(), value, row, column) {
      BoxCellOnly(value, row, column, r, c);
    }
  }

  lemma BoxCellIn(value: nat, row: nat, column: nat, r: nat, c: nat)
    requires value < Numbers && row <= 6 && column <= 6
    requires row <= r < row + 3 && column <= c < column + 3
    ensures Pos(Index(value, r, c)) in BoxGroup(VarLits(), value, row, column)
  {
    var k := 3 * (r - row) + (c - column);
    var r', c' := BoxEntry(value, row, column, k);
  }

  lemma BoxCellOnly(value: nat, row: nat, column: nat, r: nat, c: nat)
    requires value < Numbers && row <= 6 && column <= 6 && r < Rows && c < Columns
    requires Pos(Index(value, r, c)) in BoxGroup(VarLits(), value, row, column)
    ensures row <= r < row + 3 && column <= c < column + 3
  {
    var g := BoxGroup(VarLits(), value, row, column);
    var k :| 0 <= k < 9 && g[k] == Pos(Index(value, r, c));
    var r', c' := BoxEntry(value, row, column, k);
    IndexInjective(value, r, c, value, r', c');
  }
}
