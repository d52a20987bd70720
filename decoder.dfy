/** The model decoder: walks the cells in row-major order and, for every
    value whose literal is in the model, appends the digit value + 1. */
module Decoder {
  import opened Cnf
  import opened Indexer

  /** `char::from_digit(value + 1, 10)`: the characters '1' to '9'. */
  function DigitChar(value: nat): (ch: char)
    requires value < Numbers
    ensures '1' <= ch <= '9' && ch as int - '1' as int == value
  {
    ('1' as int + value) as char
  }

  /** The characters appended for cell (row, column) by values below n. */
  function CellChars(model: seq<Lit>, lits: seq<Lit>, row: nat, column: nat, n: nat): string
    requires NumVars <= |lits| && row < Rows && column < Columns && n <= Numbers
  {
    if n == 0 then [] else
      var ch: string := if lits[Index(n - 1, row, column)] in model then [DigitChar(n - 1)] else [];
      CellChars(model, lits, row, column, n - 1) + ch
  }

  /** The characters appended for the first k cells in row-major order. */
  function DecodePrefix(model: seq<Lit>, lits: seq<Lit>, k: nat): string
    requires NumVars <= |lits| && k <= Cells
  {
    if k == 0 then [] else DecodePrefix(model, lits, k - 1) + CellChars(model, lits, (k - 1) / 9, (k - 1) % 9, Numbers)
  }

  /** The string `format_solution` returns. */
  function Decode(model: seq<Lit>, lits: seq<Lit>): string
    requires NumVars <= |lits|
  {
    DecodePrefix(model, lits, Cells)
  }

  /** Cell (row, column) is cell k = 9·row + column in row-major order. */
  lemma DecodePrefixCell(model: seq<Lit>, lits: seq<Lit>, row: nat, column: nat, k: nat)
    requires NumVars <= |lits| && row < Rows && column < Columns && k == 9 * row + column
    ensures DecodePrefix(model, lits, k + 1) == DecodePrefix(model, lits, k) + CellChars(model, lits, row, column, Numbers)
  {
    assert k / 9 == row && k % 9 == column;
  }

  /** The innermost loop of `format_solution`: appends, to s, the digit of
      every value of cell (row, column) whose literal is in the model. */
  method AppendCell(s0: string, model: seq<Lit>, lits: seq<Lit>, row: nat, column: nat) returns (s: string)
    requires NumVars <= |lits| && row < Rows && column < Columns
    ensures s == s0 + CellChars(model, lits, row, column, Numbers)
  {
    s := s0;
    for value := 0 to Numbers
      invariant s == s0 + CellChars(model, lits, row, column, value)
    {
      if lits[Index(value, row, column)] in model {
        s := s + [DigitChar(value)];
      }
    }
  }

  method FormatSolution(model: seq<Lit>, lits: seq<Lit>) returns (s: string)
    requires NumVars <= |lits|
    ensures s == Decode(model, lits)
  {
    s := [];
    ghost var k := 0;
    for row := 0 to Rows
      invariant k == 9 * row && s == DecodePrefix(model, lits, k)
    {
      for column := 0 to Columns
        invariant k == 9 * row + column && s == DecodePrefix(model, lits, k)
      {
        s := AppendCell(s, model, lits, row, column);
        DecodePrefixCell(model, lits, row, column, k);
        k := k + 1;
      }
    }
  }

  /** The model makes value v true at board position i. */
  predicate ValueAt(model: seq<Lit>, lits: seq<Lit>, i: nat, v: nat)
    requires NumVars <= |lits| && i < Cells && v < Numbers
  {
    lits[CellVar(v, i)] in model
  }

  /** Board position i has exactly one value the model makes true. */
  predicate OneValueAt(model: seq<Lit>, lits: seq<Lit>, i: nat)
    requires NumVars <= |lits| && i < Cells
  {
    exists v :: 0 <= v < Numbers && ValueAt(model, lits, i, v) &&
      forall w :: 0 <= w < Numbers && ValueAt(model, lits, i, w) ==> w == v
  }

  predicate OneValuePerCell(model: seq<Lit>, lits: seq<Lit>)
    requires NumVars <= |lits|
  {
    forall i :: 0 <= i < Cells ==> OneValueAt(model, lits, i)
  }

  lemma DigitCharInjective(v: nat, w: nat)
    requires v < Numbers && w < Numbers
    ensures '1' <= DigitChar(v) <= '9'
    ensures DigitChar(v) == DigitChar(w) ==> v == w
  {
  }

  /** With exactly one true value v in a cell, the cell decodes to DigitChar(v). */
  lemma {:induction false} CellCharsOne(model: seq<Lit>, lits: seq<Lit>, row: nat, column: nat, n: nat, v: nat)
    requires NumVars <= |lits| && row < Rows && column < Columns && n <= Numbers && v < Numbers
    requires lits[Index(v, row, column)] in model
    requires forall w :: 0 <= w < Numbers && lits[Index(w, row, column)] in model ==> w == v
    ensures CellChars(model, lits, row, column, n) == if v < n then [DigitChar(v)] else []
  {
    if n > 0 {
      CellCharsOne(model, lits, row, column, n - 1, v);
    }
  }

  /** A cell with exactly one true value v decodes to the single character DigitChar(v). */
  lemma CellDecodes(model: seq<Lit>, lits: seq<Lit>, i: nat) returns (v: nat)
    requires NumVars <= |lits| && i < Cells && OneValueAt(model, lits, i)
    ensures v < Numbers && ValueAt(model, lits, i, v)
    ensures forall w :: 0 <= w < Numbers && ValueAt(model, lits, i, w) ==> w == v
    ensures CellChars(model, lits, i / 9, i % 9, Numbers) == [DigitChar(v)]
  {
    v :| 0 <= v < Numbers && ValueAt(model, lits, i, v) &&
      forall w :: 0 <= w < Numbers && ValueAt(model, lits, i, w) ==> w == v;
    forall w | 0 <= w < Numbers && lits[Index(w, i / 9, i % 9)] in model ensures w == v {
      assert ValueAt(model, lits, i, w);
    }
    CellCharsOne(model, lits, i / 9, i % 9, Numbers, v);
  }

  /** Cell i adds the single character of its one true value. */
  lemma DecodePrefixStep(model: seq<Lit>, lits: seq<Lit>, i: nat) returns (v: nat)
    requires NumVars <= |lits| && i < Cells && OneValueAt(model, lits, i)
    ensures v < Numbers && ValueAt(model, lits, i, v)
    ensures forall w :: 0 <= w < Numbers && ValueAt(model, lits, i, w) ==> w == v
    ensures DecodePrefix(model, lits, i + 1) == DecodePrefix(model, lits, i) + [DigitChar(v)]
  {
    v := CellDecodes(model, lits, i);
  }

  lemma {:induction false} DecodePrefixCorrect(model: seq<Lit>, lits: seq<Lit>, k: nat)
    requires NumVars <= |lits| && k <= Cells && OneValuePerCell(model, lits)
    ensures |DecodePrefix(model, lits, k)| == k
    ensures forall i, v :: 0 <= i < k && 0 <= v < Numbers && ValueAt(model, lits, i, v) ==>
      DecodePrefix(model, lits, k)[i] == DigitChar(v)
  {
    if k > 0 {
      DecodePrefixCorrect(model, lits, k - 1);
      var i := k - 1;
      assert OneValueAt(model, lits, i);
      var v := DecodePrefixStep(model, lits, i);
      var prev, cur := DecodePrefix(model, lits, i), DecodePrefix(model, lits, k);
      forall j, u | 0 <= j < k && 0 <= u < Numbers && ValueAt(model, lits, j, u)
        ensures cur[j] == DigitChar(u)
      {
        if j == i {
          assert u == v;
        } else {
          assert cur[j] == prev[j];
        }
      }
    }
  }

  /** Decoder correctness: when the model makes exactly one value true per
      cell, the result has 81 characters and position i holds '1' + v for the
      value v true at that cell. */
  lemma DecodeCorrect(model: seq<Lit>, lits: seq<Lit>)
    requires NumVars <= |lits| && OneValuePerCell(model, lits)
    ensures |Decode(model, lits)| == Cells
    ensures forall i, v :: 0 <= i < Cells && 0 <= v < Numbers && ValueAt(model, lits, i, v) ==>
      Decode(model, lits)[i] == DigitChar(v)
    ensures forall i :: 0 <= i < Cells ==> '1' <= Decode(model, lits)[i] <= '9'
  {
    DecodePrefixCorrect(model, lits, Cells);
    forall i | 0 <= i < Cells ensures '1' <= Decode(model, lits)[i] <= '9' {
      assert OneValueAt(model, lits, i);
      var v :| 0 <= v < Numbers && ValueAt(model, lits, i, v);
      DigitCharInjective(v, v);
    }
  }
}
