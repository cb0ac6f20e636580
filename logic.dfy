/** The game object: a board built once from a raw puzzle, read through row, column and
    block accessors, and validated rule by rule. */
module Logic {
  import opened Types
  import opened Grid
  import opened Validation

  /** The board a game built from `raw` holds: cell (r, c) sits at (r, c) with `raw[r][c]`. */
  function FromRaw(raw: RawState): (s: State)
    requires Is9x9(raw)
    ensures IsState(s)
    ensures forall r, c :: 0 <= r < 9 && 0 <= c < 9 ==> s[r][c] == Cell(Position(r, c), raw[r][c])
  {
    seq(9, r requires 0 <= r < 9 =>
      seq(9, c requires 0 <= c < 9 => Cell(Position(r, c), raw[r][c])))
  }

  class SudokuGame {
    var state: State

    /** Every cell records the place where it is stored. */
    ghost predicate Valid()
      reads this
    {
      IsState(state)
    }

    /** Lays the raw numbers out as cells, row by row and column by column. */
    constructor (initialState: RawState)
      requires Is9x9(initialState)
      ensures Valid()
      ensures forall r, c :: 0 <= r < 9 && 0 <= c < 9 ==>
        state[r][c].position == Position(r, c) && state[r][c].number == initialState[r][c]
      ensures state == FromRaw(initialState)
    {
      // the placeholder stands for the `null` the rows are first filled with
      var placeholder := Cell(Position(0, 0), None);
      var s: State := seq(9, _ => seq(9, _ => placeholder));
      for row := 0 to 9
        invariant Is9x9(s)
        invariant forall r, c :: 0 <= r < row && 0 <= c < 9 ==>
          s[r][c] == Cell(Position(r, c), initialState[r][c])
      {
        for col := 0 to 9
          invariant Is9x9(s)
          invariant forall r, c :: 0 <= r < row && 0 <= c < 9 ==>
            s[r][c] == Cell(Position(r, c), initialState[r][c])
          invariant forall c :: 0 <= c < col ==> s[row][c] == Cell(Position(row, c), initialState[row][c])
        {
          var value := initialState[row][col];
          s := s[row := s[row][col := Cell(Position(row, col), value)]];
        }
      }
      assert forall r :: 0 <= r < 9 ==> s[r] == FromRaw(initialState)[r];
      state := s;
    }

    /** The 9 cells of a row, left to right. */
    function GetRowCells(rowIndex: nat): (cells: seq<Cell>)
      reads this
      requires Valid() && rowIndex < 9
      ensures |cells| == 9
      ensures forall c :: 0 <= c < 9 ==>
        cells[c].position == Position(rowIndex, c) && cells[c].number == state[rowIndex][c].number
    {
      state[rowIndex]
    }

    /** The 9 cells of a column, top to bottom. */
    function GetColumnCells(colIndex: nat): (cells: seq<Cell>)
      reads this
      requires Valid() && colIndex < 9
      ensures |cells| == 9
      ensures forall r :: 0 <= r < 9 ==>
        cells[r].position == Position(r, colIndex) && cells[r].number == state[r][colIndex].number
    {
      var s := state;
      seq(9, rowIndex requires 0 <= rowIndex < 9 => s[rowIndex][colIndex])
    }

    /** The 9 cells of a block, collected row by row from the block's top-left corner. */
    method GetBlockCells(blockIndex: nat) returns (cells: seq<Cell>)
      requires Valid() && blockIndex < 9
      ensures cells == Block(state, blockIndex)
      ensures |cells| == 9
      ensures forall k :: 0 <= k < 9 ==>
        BlockIndex(cells[k].position) == blockIndex && BlockSlot(cells[k].position) == k
    {
      var startRowIndex := (blockIndex / 3) * 3;
      var startColIndex := (blockIndex % 3) * 3;
      assert startRowIndex <= 6 && startColIndex <= 6 by {
        assert blockIndex / 3 <= 2 && blockIndex % 3 <= 2;
      }
      ghost var block := Block(state, blockIndex);
      cells := [];
      for row := startRowIndex to startRowIndex + 3
        invariant cells == block[..3 * (row - startRowIndex)]
      {
        for col := startColIndex to startColIndex + 3
          invariant cells == block[..3 * (row - startRowIndex) + (col - startColIndex)]
        {
          ghost var k := 3 * (row - startRowIndex) + (col - startColIndex);
          BlockCellFromCorner(state, blockIndex, row - startRowIndex, col - startColIndex);
          var cell := state[row][col];
          PrefixStep(block, k);
          cells := cells + [cell];
        }
      }
      BlockContents(state, blockIndex);
    }

    /** The smallest digit 1..9 that `numbers` holds more than once, tried from 1 upwards
        (the digit loop each uniqueness check runs). */
    static method RepeatedDigit(numbers: seq<Option<int>>) returns (repeated: Option<int>)
      ensures repeated == FirstDuplicateDigit(numbers, 1)
      ensures repeated.None? <==> forall d :: 1 <= d <= 9 ==> Count(numbers, d) <= 1
      ensures repeated.Some? ==> 1 <= repeated.value <= 9 && Count(numbers, repeated.value) > 1
    {
      FirstDuplicateDigitSpec(numbers, 1);
      for j := 1 to 10
        invariant FirstDuplicateDigit(numbers, j) == FirstDuplicateDigit(numbers, 1)
      {
        if Count(numbers, j) > 1 {
          return Some(j);
        }
      }
      return None;
    }

    /** The first rule the board breaks, or `None` when it breaks none. */
    method ValidateState() returns (error: Option<Violation>)
      requires Valid()
      ensures error == Validate(state)
    {
      // 1) numbers outside 1..9
      var numArray := Flatten(RowNumbers(state));
      var invalidNumber := FirstOutOfRange(numArray);
      if invalidNumber.Some? {
        return Some(OutOfRange(invalidNumber.value));
      }

      // 2) a digit twice in a row
      ghost var rows := RowNumbers(state);
      for row := 0 to 9
        invariant FirstDuplicate(rows, row) == FirstDuplicate(rows, 0)
      {
        var rowNumbers := NumbersOf(GetRowCells(row));
        assert rowNumbers == rows[row];
        var repeated := RepeatedDigit(rowNumbers);
        if repeated.Some? {
          return Some(RowDuplicate(row, repeated.value));
        }
      }

      // 3) a digit twice in a column
      ghost var cols := ColumnNumbers(state);
      for col := 0 to 9
        invariant FirstDuplicate(cols, col) == FirstDuplicate(cols, 0)
      {
        var colNumbers := NumbersOf(GetColumnCells(col));
        assert colNumbers == cols[col];
        var repeated := RepeatedDigit(colNumbers);
        if repeated.Some? {
          return Some(ColumnDuplicate(col, repeated.value));
        }
      }

      // 4) a digit twice in a block
      ghost var blocks := BlockNumbers(state);
      for blockIndex := 0 to 9
        invariant FirstDuplicate(blocks, blockIndex) == FirstDuplicate(blocks, 0)
      {
        var blockCells := GetBlockCells(blockIndex);
        var blockCellNumbers := NumbersOf(blockCells);
        assert blockCellNumbers == blocks[blockIndex];
        var repeated := RepeatedDigit(blockCellNumbers);
        if repeated.Some? {
          return Some(BlockDuplicate(blockIndex, repeated.value));
        }
      }

      return None;
    }

    /** All 81 cells, row by row. */
    function GetAllCells(): (cells: seq<Cell>)
      reads this
      requires Valid()
      ensures |cells| == 81
      ensures forall k :: 0 <= k < 81 ==>
        cells[k] == state[k / 9][k % 9] && cells[k].position == Position(k / 9, k % 9)
    {
      FlattenRows(state);
      Flatten(state)
    }

    /** Whether validation finds nothing, that is, whether the board is consistent. */
    method IsStateValid() returns (valid: bool)
      requires Valid()
      ensures valid <==> Validate(state).None?
      ensures valid <==> Consistent(state)
    {
      var error := ValidateState();
      ValidateIffConsistent(state);
      valid := error == None;
    }
  }
}
