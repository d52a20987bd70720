# Sudoku as SAT: a verified model of the clause encoder and decoder

The `sudoku` crate turns a 9×9 Sudoku into a propositional formula in
conjunctive normal form (CNF) and hands it to the varisat SAT solver. It then
turns the model the solver finds back into a solved board.

- **Variables.** There is one variable per entry "cell (row, column) holds
  value + 1", numbered `81·value + 9·row + column`. That gives 729 variables
  in all.
- **Structural clauses.** Four families of constraints are compiled by
  nested loops: rows, columns, 3×3 boxes and cells. Each family has 81 groups
  of nine literals. Each group goes through the *exactly-one-true* encoder,
  which emits the whole list as one clause and then `[¬lᵢ, ¬lⱼ]` for every
  pair i < j.
- **Clue clauses.** Every digit character of the 81-character board adds a
  unit clause for its cell and value.
- **Decoder.** `format_solution` walks the cells in row-major order and
  appends `value + 1` for every value whose literal is in the model.

This project models `src/lib.rs` in Dafny. The pure parts are functions. The
loops are methods with loop invariants, proved against specification
functions. The solver is a class that accumulates clauses. The project then
proves that the reduction is correct:

- **Soundness.** Every model of the formula decodes to a solved board that
  keeps every clue.
- **Completeness.** Every solved board that keeps the clues is the decoding of
  a model of the formula.

Modules, one concept each:

| module | file | what it holds |
|---|---|---|
| `Cnf` | cnf.dfy | literals, clauses, formulas, satisfaction by a set of true variables |
| `SatSolver` | cnf.dfy | the `Solver` class: variable allocation and the clause store |
| `Indexer` | indexer.dfy | the variable numbering `Index` and its inverse |
| `ExactlyOne` | exactly_one.dfy | `exactly_one_true` as a method, its clause list as a function, count, shape and semantics |
| `Families` | families.dfy | the four structural families as methods over the solver, their groups and clause lists |
| `Clues` | clues.dfy | `add_board_entries` and the clue clauses |
| `Decoder` | decoder.dfy | `format_solution` and decoder correctness |
| `Sudoku` | sudoku.dfy | `sudoku_solver`, what a solved board is, and the end-to-end theorems |

How the solver is represented:

- A solver model, the list of literals the solver returns, is a `seq<Lit>`.
- The assignment it denotes is `TrueVars(model)`, the set of variables that
  occur positively in it.
- A clause holds under an assignment when one of its literals holds.
- The exactly-one encoding is read positionally: exactly one *position* of
  the list holds a true literal. For the solver's literals, every group is
  over nine distinct variables (the `*GroupContents` lemmas). So
  "exactly one position" and "exactly one variable" coincide there.

## Model

| member | source | states |
|---|---|---|
| Cnf.Negate | src/lib.rs:87 | `!lit` is the literal of the same variable with the opposite polarity |
| Cnf.NegateHolds | src/lib.rs:87 | `!lit` keeps the variable, flips the polarity, and holds exactly when `lit` does not |
| Cnf.FormulaHoldsAppend | src/lib.rs:30 | a formula extended by `add_formula` holds under an assignment iff both the old clauses and the added ones hold |
| Cnf.TrueVars | src/lib.rs:127 | a variable is true under a solver model iff its positive literal is in the model (`model.contains`) |
| SatSolver.Solver.constructor | src/lib.rs:109 | a new solver has no variables and no clauses |
| SatSolver.Solver.NewLits | src/lib.rs:110 | `new_lit_iter(n)` returns n literals, the k-th being the positive literal of the k-th fresh variable; no clause is added |
| SatSolver.Solver.AddFormula | src/lib.rs:30 | `add_formula` appends the formula's clauses in order after the stored ones and allocates no variable |
| Indexer.Index | src/lib.rs:16-20 | the variable of entry (value, row, column) is 81·value + 9·row + column, below 729 for every in-range entry |
| Indexer.IndexBounded | src/lib.rs:16-20 | every in-range entry's index is below 729, so every subscript of the 729 literals is in bounds |
| Indexer.IndexInjective | src/lib.rs:16-20 | two in-range entries have the same index iff they are the same entry |
| Indexer.IndexInverse | src/lib.rs:16-20 | value, row and column are recovered from the index by `/81`, `/9%9` and `%9` |
| Indexer.IndexOnto | src/lib.rs:16-20 | every number below 729 is the index of an in-range entry, so the map is onto [0, 729) |
| Indexer.CellCoordinates | src/lib.rs:99-100 | board position `9·row + column` is below 81, and `i / 9`, `i % 9` give back row and column |
| Indexer.CellVarBounded | src/lib.rs:97-102 | the variable of value v at board position i is below 729 and decodes back to v and i |
| ExactlyOne.ExactlyOneTrue | src/lib.rs:82-91 | the nested loops build exactly the clause list `ExactlyOneClauses(lits)`: the whole list, then the pair clauses row by row |
| ExactlyOne.RowStartClosedForm | src/lib.rs:85-89 | the pair clauses of the first i outer rounds number i(2n − i − 1)/2 |
| ExactlyOne.RowStartMonotone | src/lib.rs:85-89 | a later outer round starts after every pair clause of an earlier round |
| ExactlyOne.PairOffsetLexicographic | src/lib.rs:85-89 | pair clauses are emitted in lexicographic order of (i, j) |
| ExactlyOne.PairOffsetBelow | src/lib.rs:85-89 | pair (p, q) is emitted before round m starts whenever p < m |
| ExactlyOne.PairsWithLength | src/lib.rs:86-88 | inner round i run up to j emits j − i − 1 clauses |
| ExactlyOne.PairsWithAt | src/lib.rs:86-88 | clause t of inner round i is the pair clause (i, i + 1 + t) |
| ExactlyOne.PairsBeforeLength | src/lib.rs:85-89 | the first m outer rounds emit RowStart(n, m) clauses |
| ExactlyOne.PairsBeforeAt | src/lib.rs:85-89 | pair clause (p, q) sits at position PairOffset(n, p, q) of the pair clauses |
| ExactlyOne.PairsBeforeCover | src/lib.rs:85-89 | every pair clause emitted is the clause of some pair p < q |
| ExactlyOne.ExactlyOneCount | src/lib.rs:82-91 | for n literals the encoder emits 1 + n(n − 1)/2 clauses |
| ExactlyOne.ExactlyOnePairAt | src/lib.rs:84-89 | clause 1 + PairOffset(n, i, j) of the encoding is `[¬lᵢ, ¬lⱼ]` |
| ExactlyOne.ExactlyOnePairCover | src/lib.rs:84-89 | every clause after the first is `[¬lᵢ, ¬lⱼ]` for some i < j |
| ExactlyOne.ExactlyOneShape | src/lib.rs:82-91 | clause 0 is the full list, each pair i < j has its clause at its lexicographic position, and every further clause is such a pair |
| ExactlyOne.ExactlyOneCountNine | src/lib.rs:82-91 | for the nine literals of a group the encoder emits 37 clauses |
| ExactlyOne.AtMostOneFromClauses | src/lib.rs:85-89 | if all clauses hold, no two positions hold true literals |
| ExactlyOne.ClauseFromExactlyOne | src/lib.rs:84-89 | if exactly one position holds, every clause of the encoding holds |
| ExactlyOne.ExactlyOneSemantics | src/lib.rs:82-91 | an assignment satisfies the encoding iff exactly one position of the list holds a true literal |
| Families.RowGroupsAt | src/lib.rs:23-30 | the group compiled for (value, row) is the (9·value + row)-th of the row family |
| Families.ColumnGroupsAt | src/lib.rs:36-43 | the group compiled for (value, column) is the (9·value + column)-th of the column family |
| Families.CellGroupsAt | src/lib.rs:70-77 | the group compiled for (row, column) is the (9·row + column)-th of the cell family |
| Families.BoxGroupsAt | src/lib.rs:49-63 | the group compiled for (value, row, column), with row and column in {0, 3, 6}, is the (9·value + row + column/3)-th of the box family |
| Families.NoRowContainsDuplicates | src/lib.rs:22-33 | appends exactly the row family's clauses to the solver, one exactly-one encoding per (value, row) in loop order |
| Families.NoColumnContainsDuplicates | src/lib.rs:35-46 | appends exactly the column family's clauses, one encoding per (value, column) in loop order |
| Families.BoxLits | src/lib.rs:52-62 | collects the nine literals of a box, row by row within the box |
| Families.NoBoxContainsDuplicates | src/lib.rs:48-67 | appends exactly the box family's clauses, one encoding per (value, box) with box corners stepping by 3 |
| Families.EveryFieldContainsOneNumber | src/lib.rs:69-80 | appends exactly the cell family's clauses, one encoding per (row, column) in loop order |
| Families.EncodeGroupsLength | src/lib.rs:22-80 | a family of g groups of nine literals has 37·g clauses |
| Families.EncodeGroupsHolds | src/lib.rs:22-80 | a family's clauses hold iff every one of its groups has exactly one true position |
| Families.StructuralClauseCount | src/lib.rs:112-115 | each family has 2997 clauses and the four together 11988, for any literals |
| Families.RowGroupContents | src/lib.rs:22-33 | a row group holds `Pos(Index(value, row, column))` at position column: nine distinct variables, only the column varies |
| Families.ColumnGroupContents | src/lib.rs:35-46 | a column group holds `Pos(Index(value, row, column))` at position row: nine distinct variables, only the row varies |
| Families.CellGroupContents | src/lib.rs:69-80 | a cell group holds `Pos(Index(value, row, column))` at position value: nine distinct variables, only the value varies |
| Families.BoxEntry | src/lib.rs:53-60 | element 3·boxRow + boxColumn of a box group is the literal of cell (row + boxRow, column + boxColumn) |
| Families.BoxGroupDistinct | src/lib.rs:48-67 | a box group is over nine distinct variables |
| Families.BoxGroupContents | src/lib.rs:48-67 | for corners in {0, 3, 6}, the box group contains the literal of cell (r, c) iff r, c lie in the 3×3 square at the corner, and its variables are distinct |
| Families.BoxCellMember | src/lib.rs:48-67 | cell (r, c) of value v is in the box group iff it lies in the box's 3×3 square |
| Families.BoxCellIn | src/lib.rs:53-60 | every cell of the 3×3 square is in the box group |
| Families.BoxCellOnly | src/lib.rs:53-60 | no cell outside the 3×3 square is in the box group |
| Clues.DigitValue | src/lib.rs:98 | `to_digit(10)` of a digit character is the number d < 10 with `'0' + d` that character |
| Clues.IsDigitExactly | src/lib.rs:96 | `is_digit(10)` accepts exactly the ASCII digits "0123456789", '0' included, and `DigitValue` is each one's position in that string |
| Clues.CluePositions | src/lib.rs:95-96 | the positions it lists are below n and hold digits |
| Clues.CluePositionsCorrect | src/lib.rs:95-96 | the listed positions are strictly increasing and include every digit position below n |
| Clues.AddBoardEntries | src/lib.rs:93-106 | appends exactly the clue clauses for the board to the solver, in increasing position |
| Clues.ClueClausesLength | src/lib.rs:93-106 | the clue clauses number exactly the digit positions |
| Clues.ClueClausesAt | src/lib.rs:93-106 | the k-th clue clause is the unit clause of the literal of the k-th digit position's value and cell |
| Clues.ClueClausesShape | src/lib.rs:93-106 | there is one clause per digit position, the k-th being the unit clause `[Pos(Index(d − 1, i/9, i%9))]` of the k-th digit position i; non-digits emit nothing |
| Clues.ClueClausesHold | src/lib.rs:93-106 | the clue clauses hold iff, at every digit position, the clue's variable literal holds |
| Decoder.DigitChar | src/lib.rs:128 | `char::from_digit(value + 1, 10)` for value < 9 is the character '1' + value, one of '1' to '9' |
| Decoder.DecodePrefixCell | src/lib.rs:123-131 | cell (row, column) is cell 9·row + column in row-major order, so it contributes the next characters of the decoded string |
| Decoder.AppendCell | src/lib.rs:125-130 | the innermost loop appends exactly the characters of cell (row, column), one per value of that cell that is true in the model, in increasing order of value |
| Decoder.FormatSolution | src/lib.rs:121-134 | the triple loop builds exactly `Decode(model, lits)`, the cells' characters in row-major order |
| Decoder.DigitCharInjective | src/lib.rs:128 | `from_digit(v + 1)` is a character in '1'..'9', different values giving different characters |
| Decoder.CellCharsOne | src/lib.rs:125-130 | a cell with exactly one true value v contributes exactly the one character for v |
| Decoder.CellDecodes | src/lib.rs:125-130 | a cell with exactly one true value decodes to that value's single character |
| Decoder.DecodePrefixCorrect | src/lib.rs:121-134 | with one true value per cell, the first k cells decode to k characters, each the character of its cell's value |
| Decoder.DecodeCorrect | src/lib.rs:121-134 | with one true value per cell, the result has length 81, position 9r + c holds '1' + v for the true value v, and every character is in '1'..'9' |
| Sudoku.SudokuSolver | src/lib.rs:108-119 | allocates 729 variables, returns their literals, and leaves in a fresh solver exactly the rows, columns, boxes and cells families followed by the clue clauses |
| Sudoku.StructuralPrefix | src/lib.rs:112-116 | the formula has 11988 + (number of clues) clauses; the first 11988 are the structural ones for every board, and the clue clauses follow them |
| Sudoku.OnceTransfer | src/lib.rs:22-80 | when literal k of a group holds iff its board cell holds a character, the group's exactly-one holds iff the character occurs at exactly one of the cells |
| Sudoku.RowGroupIff | src/lib.rs:22-33 | under an assignment encoding a board, the (value, row) group has exactly one true literal iff value + 1 occurs exactly once in the row |
| Sudoku.ColumnGroupIff | src/lib.rs:35-46 | the same for a (value, column) group and the column |
| Sudoku.BoxGroupIff | src/lib.rs:48-67 | the same for a (value, box) group and the box's nine cells |
| Sudoku.RowClausesIff | src/lib.rs:22-33 | under an assignment encoding a board, the row family holds iff every row holds every digit exactly once |
| Sudoku.ColumnClausesIff | src/lib.rs:35-46 | the column family holds iff every column holds every digit exactly once |
| Sudoku.BoxClausesIff | src/lib.rs:48-67 | the box family holds iff every box holds every digit exactly once |
| Sudoku.CellClausesIff | src/lib.rs:69-80 | the cell family holds under a model iff the model makes exactly one value true in every cell |
| Sudoku.ClueClausesIff | src/lib.rs:93-106 | under an assignment encoding a board, the clue clauses hold iff that board equals the input at every digit position |
| Sudoku.DecodeEncodes | src/lib.rs:121-134 | a model with one value per cell makes "cell i holds v + 1" true exactly when its decoded board has '1' + v at i |
| Sudoku.CluePreservation | src/lib.rs:93-106 | a model of the cell family and the clue clauses decodes to 81 characters equal to the board at every clue |
| Sudoku.Soundness | src/lib.rs:108-134 | a model of the whole formula decodes to a solved board (a permutation of 1–9 in every row, column and box) that keeps every clue |
| Sudoku.ModelOfEncodes | src/lib.rs:121-134 | the model built from an 81-character board makes "cell i holds v + 1" true exactly when the board has '1' + v at i |
| Sudoku.ModelOfOneValue | src/lib.rs:69-80 | the model built from a solved board has exactly one true value per cell |
| Sudoku.ModelOfValueAt | src/lib.rs:125-127 | in the model of a solved board, the value true at cell i is the board's digit at i minus one |
| Sudoku.RoundTrip | tests/95_hard_sudokus.rs:20-25 | decoding the model built from a solved board returns that board unchanged |
| Sudoku.Completeness | src/lib.rs:108-134 | every solved board that keeps the clues yields a model of the whole formula that decodes back to it |
| Sudoku.SolutionRowDistinct | src/lib.rs:22-33 | in a solved board, no two cells of one row hold the same character |
| Sudoku.DuplicateRowClueUnsat | src/lib.rs:93-116 | a board with the same clue digit twice in one row leaves the formula without a model |

## Left out

- The varisat solver's search is not modelled: `solve`, `model`, and the satisfiable, unsatisfiable and error outcomes. It is a foreign library. The solver is represented only as a variable allocator and an append-only clause store. Its model enters the decoder as a parameter. The soundness and completeness lemmas say what any model it returns must decode to.
- `varisat::CnfFormula` is represented as a local clause list (`Formula`), not as an object. Only clause order and contents are observable through `add_formula`, and no state is shared.
- `print_board` (src/lib.rs:136-140) is left out because it only writes to standard output.
- src/bin/main.rs is not part of this model: argument handling, printing and exit codes.
- benches/95_hard_sudokus.rs is not part of this model, and neither is the file reading in tests/95_hard_sudokus.rs. Their assertions depend on the external solver's output on concrete puzzles. The test decodes the solver's model for a puzzle and compares it with the published solution. That equality follows from `Sudoku.Soundness` only when the puzzle has exactly one solution, and uniqueness of the puzzles' solutions is not modelled. `Sudoku.Completeness` shows that a model exists for a solvable puzzle, so the solve does not report unsatisfiable. `Sudoku.RoundTrip` decodes the model built from the solution itself, not the model the solver returns.
- Clues.AddBoardEntries: the clue character '0' is excluded by a precondition (`NoZeroClue`), and so is every entry point that reads clues. `'0'.is_digit(10)` is true in the source, so `to_digit(10).unwrap() as usize - 1` underflows. Many Sudoku formats write a blank as '0'; this code does not, and a '0' clue panics. The model follows the code: '0' is not a blank.
- Clues.AddBoardEntries: a board length other than 81 is excluded by a precondition (`|board| == Cells`), and `Sudoku.SudokuFormula`, `Sudoku.SudokuSolver`, `Sudoku.StructuralPrefix`, `Sudoku.CluePreservation`, `Sudoku.Soundness`, `Sudoku.Completeness` and `Sudoku.DuplicateRowClueUnsat` inherit it. The code itself does not reject such boards. A board shorter than 81 is accepted and simply yields fewer clue clauses. On a longer board, a digit d at position i ≥ 81 gives the variable `81·(d − 1) + 9·(i / 9) + i % 9`, with `i / 9` ≥ 9. Whenever that number is below 729 it is the variable of a different entry: a '8' at position 81 gives 648, which is `Index(8, 0, 0)`, so the code silently adds the clue "cell (0, 0) holds 9". Only when the number reaches 729, as for a '9' in row 9, does indexing the literals panic. The command-line program only warns about a wrong length.
- `usize` overflow is not modelled: every index is at most 728 and every count is at most 11988 + 81, far inside `usize`.
- The decoder is specified for models with exactly one true value per cell (`Decoder.DecodeCorrect`). On other models, `Decode` still returns what the loops append, one character for every true value, but no property is stated about that string.
