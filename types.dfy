/** Value types of the Sudoku core: positions, cells and the two 9x9 board shapes. */
module Types {

  /** An optional value; `None` stands for the source's `null`. */
  datatype Option<+T> = None | Some(value: T)

  /** A cell's coordinate: row `r` and column `c`, both counted from 0. */
  datatype Position = Position(r: nat, c: nat)

  /** One square of the board: where it sits and the number it holds, if any. */
  datatype Cell = Cell(position: Position, number: Option<int>)

  /** The puzzle a game is built from: rows of optional numbers. */
  type RawState = seq<seq<Option<int>>>

  /** The game's board: rows of cells. */
  type State = seq<seq<Cell>>

  /** Exactly 9 rows of exactly 9 entries each. */
  predicate Is9x9<T>(rows: seq<seq<T>>) {
    |rows| == 9 && forall r :: 0 <= r < 9 ==> |rows[r]| == 9
  }

  /** A well-formed board: 9x9, and every cell records the place where it is stored. */
  predicate IsState(s: State) {
    Is9x9(s) && forall r, c :: 0 <= r < 9 && 0 <= c < 9 ==> s[r][c].position == Position(r, c)
  }
}
