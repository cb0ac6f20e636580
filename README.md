# Sudoku game core, modelled in Dafny

This project models the `SudokuGame` class of a small browser Sudoku game (`src/logic.ts`):

- A game is built from a raw 9x9 puzzle of optional numbers. The constructor stores it as a
  9x9 board of cells, and each cell records its own position.
- The board is read through row, column and block accessors, and `getAllCells` flattens it.
- `validateState` reports the first rule the board breaks, checking in a fixed order:
  1. any number outside 1..9, found in row-major order;
  2. then a digit held twice in a row;
  3. then in a column;
  4. then in a block.

  Groups are scanned in index order and digits from 1 to 9. `isStateValid` is true exactly
  when nothing is reported.

The hard-coded opening puzzle of `src/main.ts` is included as a worked example.

Modules:

- `Types` (`types.dfy`): positions, cells, the raw and the cell board shapes.
- `Grid` (`grid.dfy`): block index arithmetic, the block view of a board, and flattening.
- `Decimal` (`decimal.dfy`): decimal text of integers, as the messages print numbers, with
  its parser and round trip.
- `Validation` (`validation.dfy`): what `validateState` decides, as the function `Validate`
  on the board's value. It comes with lemmas that characterise each outcome, one lemma
  showing `Validate` accepts exactly the boards on which every number lies in 1..9 and no two
  cells sharing a row, column or block hold the same digit, and the message texts.
- `Logic` (`logic.dfy`): the class `SudokuGame`. Its board is the field `state`, filled by
  the constructor's nested loops. `GetBlockCells` and `ValidateState` are loops, each proved
  equal to its specification function.
- `Puzzle` (`puzzle.dfy`): the opening puzzle, proved to validate.

The source's message strings are modelled as a `Violation` value (`OutOfRange`,
`RowDuplicate`, `ColumnDuplicate`, `BlockDuplicate`, with 0-based group indices).
`Validation.Message` renders the text, numbering groups from 1, up to the number-printing
differences listed under "Left out".

The digit loop, j from 1 to 9, appears three times in `validateState`. The model writes it
once, as the static method `SudokuGame.RepeatedDigit`, which each of the three group loops
calls.

## Model

| member | source | states |
|---|---|---|
| Logic.SudokuGame.constructor | src/logic.ts:6-20 | the new board is 9x9, cell (r, c) sits at position (r, c) and holds `initialState[r][c]`; the whole board equals `FromRaw(initialState)` |
| Logic.FromRaw | src/logic.ts:11-19 | the board built from a raw puzzle is well formed: 9x9, and cell (r, c) sits at position (r, c) and holds the puzzle's entry (r, c) |
| Logic.SudokuGame.GetRowCells | src/logic.ts:22-24 | the 9 cells of row `rowIndex`, cell c at position (rowIndex, c) with that cell's number |
| Logic.SudokuGame.GetColumnCells | src/logic.ts:26-30 | the 9 cells of column `colIndex`, top to bottom, cell r at position (r, colIndex) with that cell's number |
| Logic.SudokuGame.GetBlockCells | src/logic.ts:32-45 | the nested loops collect exactly `Block(state, blockIndex)`: 9 cells, the k-th of which lies in block `blockIndex` at slot k |
| Grid.Block | src/logic.ts:32-45 | the cells `getBlockCells` collects: 9 cells, the k-th taken from the position of slot k of the block |
| Grid.BlockContents | src/logic.ts:32-45 | a block holds 9 cells, all from that block, each in its own slot, in row-major order, and every board cell of that block is among them at its slot |
| Grid.BlockPositionRoundTrip | src/logic.ts:33-34 | going from (block, slot) to a board position and back returns the same block and slot, and the position is on the board |
| Grid.PositionBlockRoundTrip | src/logic.ts:33-34 | going from a board position to (block, slot) and back returns the same position: blocks and slots number the 81 cells one-to-one |
| Grid.BlockSlotOrder | src/logic.ts:37-42 | slot order inside a block agrees with the board's row-major order |
| Grid.BlockCellAt | src/logic.ts:37-41 | slot k of block b holds the board cell at `BlockPosition(b, k)`, and that cell records that position |
| Grid.BlockCellFromCorner | src/logic.ts:37-41 | slot `3 * i + j` of a block holds the cell i rows down and j columns right of the block's top-left corner |
| Grid.Flatten | src/logic.ts:52-55 | the rows laid end to end, as the `reduce` at lines 52-55 and `flat()` at line 97 do: its length is the total length of the rows, so nothing is dropped or added |
| Grid.FlattenRows | src/logic.ts:52-55 | flattening rows of 9 entries gives 9 entries per row, entry c of row r at index `9 * r + c` |
| Validation.FlatNumbers | src/logic.ts:52-55 | the flattened number array has 81 entries, the number of cell (r, c) at index `9 * r + c` |
| Validation.Validate | src/logic.ts:50-94 | the first violation in rule order, or nothing: an out-of-range report names a number outside 1..9, and a row, column or block report names a group index below 9 and a digit 1..9 that the group holds more than once. `RangeRule`, `UniquenessRules` and `ValidateIffConsistent` state when each outcome happens |
| Validation.FirstOutOfRange | src/logic.ts:57-59 | the `find` over the flattened numbers: any number it returns lies outside 1..9 (`FirstOutOfRangeSpec` states that it is the first such entry, and that nothing is returned exactly when there is none) |
| Validation.FirstOutOfRangeSpec | src/logic.ts:57-59 | the `find` returns nothing exactly when every entry is empty or in 1..9, and otherwise returns the number of the earliest offending entry |
| Validation.RangeRule | src/logic.ts:51-62 | an out-of-range report happens exactly when some number lies outside 1..9. It names the number of the first such cell in row-major order, whatever duplicates the board also holds |
| Validation.Count | src/logic.ts:68-88 | `filter((num) => num === j).length` as used at lines 68, 77 and 88: never more than the number of entries (`CountPositive` and `CountDuplicate` state what a positive count and a count above 1 mean) |
| Validation.CountPositive | src/logic.ts:68 | a digit's count is positive exactly when some entry holds it |
| Validation.CountDuplicate | src/logic.ts:68 | a digit is counted more than once exactly when two different entries hold it |
| Validation.UniqueIffCounts | src/logic.ts:67-69 | no digit 1..9 is counted twice in a group exactly when no two entries of the group clash |
| Validation.FirstDuplicateDigit | src/logic.ts:67-70 | the `j` loop from a given digit on: a digit it returns is at least that digit, at most 9, and held more than once |
| Validation.FirstDuplicate | src/logic.ts:65-91 | the group loop (row, column or block) from a given group on: a (group, digit) it returns names a later group and a digit 1..9 that the group holds more than once |
| Validation.FirstDuplicateDigitSpec | src/logic.ts:67-69 | the digit scan finds nothing exactly when no digit is held twice; otherwise it returns the smallest digit held twice |
| Validation.FirstDuplicateFrom | src/logic.ts:65-71 | the group scan from a given group on finds nothing exactly when no later group holds a digit twice; otherwise it returns the first such group with its smallest repeated digit |
| Validation.FirstDuplicateSpec | src/logic.ts:65-71 | the group scan returns nothing exactly when no group has a duplicate, and returns (i, d) exactly when d is the first duplicate in (group, digit) order |
| Validation.UniquenessRules | src/logic.ts:64-93 | a row duplicate is reported exactly when all numbers are in range and it is the first row duplicate. A column duplicate additionally needs no row duplicate, and a block duplicate needs no row or column duplicate. Nothing is reported exactly when all four rules hold |
| Validation.NoDuplicatesIffUnique | src/logic.ts:64-93 | no group counts a digit twice exactly when no group has two clashing entries |
| Validation.RowsIff | src/logic.ts:65-71 | no row holds a digit twice exactly when no two cells of a row hold the same digit |
| Validation.ColumnsIff | src/logic.ts:74-81 | no column holds a digit twice exactly when no two cells of a column hold the same digit |
| Validation.BlockNumberAt | src/logic.ts:84-87 | the number of each board cell appears in its block's group, at its slot |
| Validation.BlockEntry | src/logic.ts:84-87 | each entry of a block's group is the number of a board cell of that block at that slot |
| Validation.BlocksUniqueNoClash | src/logic.ts:84-92 | when no block group has a clash, no two different cells of one block hold the same digit |
| Validation.BlocksIff | src/logic.ts:84-92 | no block holds a digit twice exactly when no two different cells of one block hold the same digit |
| Validation.ValidateIffConsistent | src/logic.ts:50-94 | validation reports nothing exactly when every number is in 1..9 and no two cells sharing a row, column or block hold the same digit |
| Validation.EmptyingCellsKeepsValid | src/logic.ts:57-88 | emptying any cells of a board that validates gives a board that validates: an empty cell passes the range `find` (line 58) and equals no digit in the `num === j` filters (lines 68, 77, 88) |
| Validation.Message | src/logic.ts:61-91 | the texts of lines 61, 69, 78 and 89, with groups numbered from 1: every message is non-empty and its first letter names the broken rule (`G` for the range rule, `R`, `C`, `B` for rows, columns and blocks) |
| Validation.MessageInjective | src/logic.ts:61-91 | different violations produce different message texts: each text determines its rule, its 1-based group number and its digit |
| Validation.OutOfRangeMessageInjective | src/logic.ts:61 | two out-of-range messages with the same text name the same number |
| Validation.RowMessageInjective | src/logic.ts:69 | two row messages with the same text name the same row and digit |
| Validation.ColumnMessageInjective | src/logic.ts:78 | two column messages with the same text name the same column and digit |
| Validation.BlockMessageInjective | src/logic.ts:89 | two block messages with the same text name the same block and digit |
| Validation.MessageNumbers | src/logic.ts:61-89 | the numbers a message prints read back as the violation's data: the out-of-range number itself, and for a duplicate the group index plus one (groups numbered from 1) and the digit |
| Decimal.NatToString | src/logic.ts:61 | the decimal text of a natural number is non-empty, all digits, and has no leading zero |
| Decimal.IntToString | src/logic.ts:61 | the decimal text of an integer: a leading minus sign exactly when it is negative, then digits only, with no leading zero and no `-0` |
| Decimal.NatToStringCanonical | src/logic.ts:61 | any digit string without a leading zero that denotes n is the text of n, so the text of a natural number is unique |
| Decimal.IntToStringCanonical | src/logic.ts:61 | any text of the shape `IntToString` promises that denotes n is `IntToString(n)`: the contract pins the number's text down completely |
| Decimal.ParseNatToString | src/logic.ts:61 | reading back the digits of n gives n |
| Decimal.IntToStringRoundTrip | src/logic.ts:61 | reading back the text of any integer gives that integer, so a message names its number exactly |
| Decimal.IntToStringInjective | src/logic.ts:61 | different integers have different texts |
| Logic.SudokuGame.RepeatedDigit | src/logic.ts:67-70 | returns the smallest digit 1..9 held more than once, and nothing exactly when every digit occurs at most once |
| Logic.SudokuGame.ValidateState | src/logic.ts:50-94 | the range check, then the row, column and block loops with early returns, give exactly `Validate(state)`, whose meaning the lemmas above state |
| Logic.SudokuGame.GetAllCells | src/logic.ts:96-98 | 81 cells; the cell at index k is `state[k / 9][k % 9]` and sits at position (k / 9, k % 9) |
| Logic.SudokuGame.IsStateValid | src/logic.ts:100-103 | true exactly when validation reports nothing, that is, exactly when the board is consistent by the rule of the game |
| Puzzle.Square | src/logic.ts:37-41 | the 3x3 square the block loops read from a top-left corner: 9 numbers, the one i rows down and j columns right of the corner at index `3 * i + j` |
| Puzzle.BlockSquare | src/logic.ts:32-45 | block b of a board built from a puzzle holds the numbers of the puzzle's 3x3 square at the block's top-left corner |
| Puzzle.State1InRange | src/main.ts:7-17 | every number of the opening puzzle lies in 1..9 |
| Puzzle.State1RowsUnique | src/main.ts:7-17 | no row of the opening puzzle repeats a digit |
| Puzzle.State1ColumnsUnique | src/main.ts:7-17 | no column of the opening puzzle repeats a digit |
| Puzzle.State1Squares | src/main.ts:7-17 | the nine 3x3 squares of the opening puzzle are the rows of `Blocks1` |
| Puzzle.State1Square | src/main.ts:7-17 | the square of the opening puzzle at block b's top-left corner is row b of `Blocks1` |
| Puzzle.State1Blocks | src/main.ts:7-17 | the block groups of the opening board are `Blocks1` |
| Puzzle.Blocks1Unique | src/main.ts:7-17 | no block of the opening puzzle, as listed in `Blocks1`, repeats a digit |
| Puzzle.State1BlocksUnique | src/main.ts:7-17 | no block group of the opening board repeats a digit |
| Puzzle.State1Validates | src/main.ts:7-20 | the opening puzzle validates and is consistent by the rule of the game |
| Puzzle.CheckState1 | src/main.ts:19-20 | building a game from the opening puzzle and asking `IsStateValid` answers true |

## Left out

- `isGameOver` and `solveNextStep` (src/logic.ts:105-111) have empty bodies in the source. There is no behaviour to model.
- No solver, candidate ranking, cell update or input-error reporting exists in `src/logic.ts`. The model follows the code and includes none of them.
- `src/ui.ts` (drawing the grid into the page) and the page wiring of `src/main.ts` (styles, logo, `#app`) are not part of this model. The opening puzzle of `src/main.ts` is included.
- Numbers are modelled as integers, so JavaScript numbers that are not integers are not representable, and the model does not capture how the source treats them. `NaN` passes every rule: `NaN < 1` and `NaN > 9` are both false (src/logic.ts:58), and `NaN === j` never holds (src/logic.ts:68, 77, 88). A non-integer inside 1..9, such as 2.5, also passes every rule, even when a row holds it twice, because no digit j equals it. `Infinity` and `-Infinity` are reported as out of range, but the message prints them as `Infinity` and `-Infinity`, which `Decimal.IntToString` cannot produce.
- Decimal.IntToString: gives the exact decimal digits of every integer, and JavaScript does not. JavaScript switches to exponent notation for magnitudes of 10^21 and above. Above 2^53 it prints the shortest digits that identify the double, padded with zeros, so the out-of-range message for 2^60 reads `1152921504606847000` where the model prints `1152921504606846976`.
- Numbers above 2^53 in magnitude: the model's integers include values no JavaScript number equals, such as 2^53 + 1. Such an integer stands for the nearest double, and the model does not round it.
- The raw puzzle's 9x9 shape, which the source's `FixedLengthArray` type enforces at compile time, is a precondition of the constructor and of `FromRaw`.
- Logic.SudokuGame.GetRowCells: returns the row as a value. The source returns the board's own row array (an alias), which no caller in the core mutates.
- Logic.SudokuGame.constructor: the `null` entries the board is first filled with are modelled by a placeholder cell. Every placeholder is overwritten before the constructor returns.
- Validation.Message: the source returns strings. The model returns a `Violation` and renders it with `Message`, which reproduces the texts; their being distinct is proved (`MessageInjective`).
