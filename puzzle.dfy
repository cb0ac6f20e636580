/** The puzzle the application starts with, as a worked example of validation. */
module Puzzle {
  import opened Types
  import opened Grid
  import opened Validation
  import opened Logic

  /** The hard-coded opening puzzle (`None` for an empty cell). */
  const State1: RawState := [
    [None,    None,    None,    Some(9), None,    Some(8), Some(2), None,    None   ],
    [Some(2), Some(9), Some(1), None,    Some(7), None,    None,    None,    None   ],
    [Some(3), None,    Some(5), Some(2), None,    Some(6), None,    Some(9), None   ],
    [Some(5), None,    None,    Some(4), None,    Some(7), Some(8), Some(2), None   ],
    [None,    Some(4), None,    Some(1), None,    Some(9), None,    Some(3), None   ],
    [None,    Some(3), Some(8), Some(6), None,    Some(2), None,    None,    Some(4)],
    [None,    Some(6), None,    Some(3), None,    Some(5), Some(4), None,    Some(1)],
    [None,    None,    None,    None,    Some(6), None,    Some(9), Some(8), Some(5)],
    [None,    None,    Some(7), Some(8), None,    Some(4), None,    None,    None   ]
  ]

  /** The blocks of the opening puzzle, each read row by row. */
  const Blocks1: seq<seq<Option<int>>> := [
    [None,    None,    None,    Some(2), Some(9), Some(1), Some(3), None,    Some(5)],
    [Some(9), None,    Some(8), None,    Some(7), None,    Some(2), None,    Some(6)],
    [Some(2), None,    None,    None,    None,    None,    None,    Some(9), None   ],
    [Some(5), None,    None,    None,    Some(4), None,    None,    Some(3), Some(8)],
    [Some(4), None,    Some(7), Some(1), None,    Some(9), Some(6), None,    Some(2)],
    [Some(8), Some(2), None,    None,    Some(3), None,    None,    None,    Some(4)],
    [None,    Some(6), None,    None,    None,    None,    None,    None,    Some(7)],
    [Some(3), None,    Some(5), None,    Some(6), None,    Some(8), None,    Some(4)],
    [Some(4), None,    Some(1), Some(9), Some(8), Some(5), None,    None,    None   ]
  ]

  /** The nine numbers of the 3x3 square of `t` whose top-left cell is (`r`, `c`), read row
      by row. */
  function Square(t: RawState, r: nat, c: nat): (sq: seq<Option<int>>)
    requires Is9x9(t) && r + 2 < 9 && c + 2 < 9
    ensures |sq| == 9
    ensures forall k :: 0 <= k < 9 ==> sq[k] == t[r + k / 3][c + k % 3]
  {
    [t[r][c], t[r][c + 1], t[r][c + 2],
     t[r + 1][c], t[r + 1][c + 1], t[r + 1][c + 2],
     t[r + 2][c], t[r + 2][c + 1], t[r + 2][c + 2]]
  }

  /** Block `b` of a board built from `t` holds the numbers of the square of `t` at the
      block's top-left corner. */
  lemma BlockSquare(t: RawState, b: nat)
    requires Is9x9(t) && b < 9
    ensures BlockStartRow(b) + 2 < 9 && BlockStartCol(b) + 2 < 9
    ensures BlockNumbers(FromRaw(t))[b] == Square(t, BlockStartRow(b), BlockStartCol(b))
  {
    var r, c := BlockStartRow(b), BlockStartCol(b);
    assert r <= 6 && c <= 6 by {
      assert b / 3 <= 2 && b % 3 <= 2;
    }
    var s := FromRaw(t);
    var g, sq := BlockNumbers(s)[b], Square(t, r, c);
    forall k | 0 <= k < 9 ensures g[k] == sq[k] {
      BlockCellAt(s, b, k);
    }
  }

  /** Every number of the opening puzzle lies in 1..9. */
  lemma State1InRange()
    ensures Is9x9(State1) && AllInRange(FromRaw(State1))
  {
  }

  /** No row of the opening puzzle repeats a digit. */
  lemma State1RowsUnique()
    ensures Is9x9(State1)
    ensures forall i :: 0 <= i < 9 ==> Unique(RowNumbers(FromRaw(State1))[i])
  {
  }

  /** No column of the opening puzzle repeats a digit. */
  lemma State1ColumnsUnique()
    ensures Is9x9(State1)
    ensures forall i :: 0 <= i < 9 ==> Unique(ColumnNumbers(FromRaw(State1))[i])
  {
  }

  /** The squares of the opening puzzle are the rows of `Blocks1`. */
  lemma State1Squares()
    ensures Is9x9(State1)
    ensures Square(State1, 0, 0) == Blocks1[0] && Square(State1, 0, 3) == Blocks1[1]
    ensures Square(State1, 0, 6) == Blocks1[2] && Square(State1, 3, 0) == Blocks1[3]
    ensures Square(State1, 3, 3) == Blocks1[4] && Square(State1, 3, 6) == Blocks1[5]
    ensures Square(State1, 6, 0) == Blocks1[6] && Square(State1, 6, 3) == Blocks1[7]
    ensures Square(State1, 6, 6) == Blocks1[8]
  {
  }

  /** The square of the opening puzzle at block `b`'s top-left corner is row `b` of
      `Blocks1`. */
  lemma State1Square(b: nat)
    requires b < 9
    ensures Is9x9(State1) && BlockStartRow(b) + 2 < 9 && BlockStartCol(b) + 2 < 9
    ensures Square(State1, BlockStartRow(b), BlockStartCol(b)) == Blocks1[b]
  {
    State1Squares();
    assert BlockStartRow(b) == (b / 3) * 3 && BlockStartCol(b) == (b % 3) * 3;
    assert b / 3 == 0 || b / 3 == 1 || b / 3 == 2;
    assert b % 3 == 0 || b % 3 == 1 || b % 3 == 2;
    assert b == 3 * (b / 3) + b % 3;
  }

  /** The blocks of the opening board are `Blocks1`. */
  lemma State1Blocks()
    ensures Is9x9(State1) && BlockNumbers(FromRaw(State1)) == Blocks1
  {
    forall b | 0 <= b < 9
      ensures BlockNumbers(FromRaw(State1))[b] == Blocks1[b]
    {
      BlockSquare(State1, b);
      State1Square(b);
    }
  }

  /** No row of `Blocks1` repeats a digit. */
  lemma Blocks1Unique()
    ensures forall i :: 0 <= i < 9 ==> Unique(Blocks1[i])
  {
  }

  /** No block of the opening puzzle repeats a digit. */
  lemma State1BlocksUnique()
    ensures Is9x9(State1)
    ensures forall i :: 0 <= i < 9 ==> Unique(BlockNumbers(FromRaw(State1))[i])
  {
    State1Blocks();
    Blocks1Unique();
  }

  /** The opening puzzle breaks no rule. */
  lemma State1Validates()
    ensures Is9x9(State1)
    ensures Validate(FromRaw(State1)) == None
    ensures Consistent(FromRaw(State1))
  {
    var s := FromRaw(State1);
    State1InRange();
    State1RowsUnique();
    State1ColumnsUnique();
    State1BlocksUnique();
    NoDuplicatesIffUnique(RowNumbers(s));
    NoDuplicatesIffUnique(ColumnNumbers(s));
    NoDuplicatesIffUnique(BlockNumbers(s));
    UniquenessRules(s);
    ValidateIffConsistent(s);
  }

  /** Builds a game from the opening puzzle and asks whether its state is valid. */
  method CheckState1() returns (valid: bool)
    ensures valid
  {
    State1Validates();
    var game1 := new SudokuGame(State1);
    valid := game1.IsStateValid();
  }
}
