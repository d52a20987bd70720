/** The variable indexer: the proposition "cell (row, column) holds value + 1"
    is variable 81 * value + 9 * row + column, a bijection from [0,9)^3 onto
    [0,729). Board positions are numbered row-major, 9 * row + column. */
module Indexer {
  import opened Cnf

  const Rows: nat := 9
  const Columns: nat := 9
  const Numbers: nat := 9
  /** The number of variables the encoder allocates. */
  const NumVars: nat := Rows * Columns * Numbers
  /** The number of cells on the board. */
  const Cells: nat := Rows * Columns

  predicate InRange(value: nat, row: nat, column: nat) {
    value < Numbers && row < Rows && column < Columns
  }

  /** The variable of an entry (value, row, column). */
  function Index(value: nat, row: nat, column: nat): (k: nat)
    ensures InRange(value, row, column) ==> k < NumVars
  {
    9 * 9 * value + 9 * row + column
  }

  /** The inverse of `Index`, one coordinate at a time. */
  function ValueOf(k: nat): nat { k / 81 }
  function RowOf(k: nat): nat { k / 9 % 9 }
  function ColumnOf(k: nat): nat { k % 9 }

  /** The board position of cell (row, column). */
  function Cell(row: nat, column: nat): nat { 9 * row + column }

  /** The variable for "board position i holds value + 1". */
  function CellVar(value: nat, i: nat): nat { Index(value, i / 9, i % 9) }

  /** The literals the solver hands out for the variables, `lits[k] == Pos(k)`. */
  function VarLits(): seq<Lit> {
    seq(NumVars, k requires 0 <= k < NumVars => Pos(k))
  }

  lemma IndexBounded(value: nat, row: nat, column: nat)
    requires InRange(value, row, column)
    ensures Index(value, row, column) < NumVars
  {
  }

  /** Two in-range entries have the same index iff they are the same entry. */
  lemma IndexInjective(v1: nat, r1: nat, c1: nat, v2: nat, r2: nat, c2: nat)
    requires InRange(v1, r1, c1) && InRange(v2, r2, c2)
    ensures Index(v1, r1, c1) == Index(v2, r2, c2) <==> v1 == v2 && r1 == r2 && c1 == c2
  {
    IndexInverse(v1, r1, c1);
    IndexInverse(v2, r2, c2);
  }

  lemma IndexInverse(value: nat, row: nat, column: nat)
    requires InRange(value, row, column)
    ensures ValueOf(Index(value, row, column)) == value
    ensures RowOf(Index(value, row, column)) == row
    ensures ColumnOf(Index(value, row, column)) == column
  {
    var k := Index(value, row, column);
    assert k == 9 * (9 * value + row) + column;
    assert k / 9 == 9 * value + row;
    assert k == 81 * value + (9 * row + column) && 9 * row + column < 81;
  }

  /** Every variable below NumVars is the index of an entry in range. */
  lemma IndexOnto(k: nat)
    requires k < NumVars
    ensures InRange(ValueOf(k), RowOf(k), ColumnOf(k))
    ensures Index(ValueOf(k), RowOf(k), ColumnOf(k)) == k
  {
    var q := k / 9;
    assert k == 9 * q + k % 9 && k % 9 < 9;
    assert q == 9 * (q / 9) + q % 9 && q % 9 < 9;
    assert q / 9 == k / 81 && k / 81 < 9;
  }

  lemma CellCoordinates(row: nat, column: nat)
    requires row < Rows && column < Columns
    ensures Cell(row, column) < Cells
    ensures Cell(row, column) / 9 == row && Cell(row, column) % 9 == column
    ensures forall value :: CellVar(value, Cell(row, column)) == Index(value, row, column)
  {
  }

  lemma CellVarBounded(value: nat, i: nat)
    requires value < Numbers && i < Cells
    ensures CellVar(value, i) < NumVars
    ensures ValueOf(CellVar(value, i)) == value
    ensures Cell(RowOf(CellVar(value, i)), ColumnOf(CellVar(value, i))) == i
  {
    var r, c := i / 9, i % 9;
    assert i == 9 * r + c && r < 9 && c < 9;
    IndexInverse(value, r, c);
  }
}
