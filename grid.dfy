/** Index arithmetic of the 9x9 board and the pure views the game reads it through. */
module Grid {
  import opened Types

  /** The block holding a position; blocks are numbered 0..8 in row-major order. */
  function BlockIndex(p: Position): nat {
    (p.r / 3) * 3 + p.c / 3
  }

  /** The place of a position inside its block, 0..8 in row-major order. */
  function BlockSlot(p: Position): nat {
    (p.r % 3) * 3 + p.c % 3
  }

  /** First row of block `b`. */
  function BlockStartRow(b: nat): nat {
    (b / 3) * 3
  }

  /** First column of block `b`. */
  function BlockStartCol(b: nat): nat {
    (b % 3) * 3
  }

  /** The position in slot `k` of block `b`. */
  function BlockPosition(b: nat, k: nat): Position {
    Position(BlockStartRow(b) + k / 3, BlockStartCol(b) + k % 3)
  }

  /** Rank of a position when the board is read row by row. */
  function RowMajor(p: Position): nat {
    9 * p.r + p.c
  }

  /** Division by 3 undoes `3 * q + m` for a remainder `m` below 3. */
  lemma DivMod3(q: nat, m: nat)
    requires m < 3
    ensures (3 * q + m) / 3 == q && (3 * q + m) % 3 == m
  {
  }

  /** From (block, slot) to a position and back. */
  lemma BlockPositionRoundTrip(b: nat, k: nat)
    requires b < 9 && k < 9
    ensures BlockPosition(b, k).r < 9 && BlockPosition(b, k).c < 9
    ensures BlockIndex(BlockPosition(b, k)) == b && BlockSlot(BlockPosition(b, k)) == k
  {
    var q := BlockPosition(b, k);
    DivMod3(b / 3, k / 3);
    DivMod3(b % 3, k % 3);
    assert q.r / 3 == b / 3 && q.r % 3 == k / 3;
    assert q.c / 3 == b % 3 && q.c % 3 == k % 3;
  }

  /** From a position to (block, slot) and back: together with `BlockPositionRoundTrip`,
      (block, slot) numbers every on-board position exactly once. */
  lemma PositionBlockRoundTrip(p: Position)
    requires p.r < 9 && p.c < 9
    ensures BlockIndex(p) < 9 && BlockSlot(p) < 9
    ensures BlockPosition(BlockIndex(p), BlockSlot(p)) == p
  {
    DivMod3(p.r / 3, p.c / 3);
    DivMod3(p.r % 3, p.c % 3);
  }

  /** The cells of block `b`, read row by row inside the block. */
  function Block(s: State, b: nat): (cells: seq<Cell>)
    requires IsState(s) && b < 9
    ensures |cells| == 9
    ensures forall k :: 0 <= k < 9 ==> cells[k].position == BlockPosition(b, k)
  {
    seq(9, k requires 0 <= k < 9 => s[BlockStartRow(b) + k / 3][BlockStartCol(b) + k % 3])
  }

  /** The slot order of a block is the row-major order of the board. */
  lemma BlockSlotOrder(b: nat, i: nat, j: nat)
    requires b < 9 && i < j < 9
    ensures RowMajor(BlockPosition(b, i)) < RowMajor(BlockPosition(b, j))
  {
    assert i / 3 < j / 3 || (i / 3 == j / 3 && i % 3 < j % 3);
  }

  /** Slot `k` of block `b` holds the cell at `BlockPosition(b, k)`. */
  lemma BlockCellAt(s: State, b: nat, k: nat)
    requires IsState(s) && b < 9 && k < 9
    ensures BlockPosition(b, k).r < 9 && BlockPosition(b, k).c < 9
    ensures Block(s, b)[k] == s[BlockPosition(b, k).r][BlockPosition(b, k).c]
    ensures Block(s, b)[k].position == BlockPosition(b, k)
  {
  }

  /** Slot `3 * i + j` of block `b` holds the cell `i` rows below and `j` columns right of
      the block's top-left corner. */
  lemma BlockCellFromCorner(s: State, b: nat, i: nat, j: nat)
    requires IsState(s) && b < 9 && i < 3 && j < 3
    ensures BlockStartRow(b) + i < 9 && BlockStartCol(b) + j < 9
    ensures Block(s, b)[3 * i + j] == s[BlockStartRow(b) + i][BlockStartCol(b) + j]
  {
    DivMod3(i, j);
    BlockCellAt(s, b, 3 * i + j);
  }

  /** Block `b` holds 9 cells, all of block `b`, each in its own slot, in row-major order,
      and every cell of the board whose block is `b` is among them. */
  lemma BlockContents(s: State, b: nat)
    requires IsState(s) && b < 9
    ensures |Block(s, b)| == 9
    ensures forall k :: 0 <= k < 9 ==>
      BlockIndex(Block(s, b)[k].position) == b && BlockSlot(Block(s, b)[k].position) == k
    ensures forall i, j :: 0 <= i < j < 9 ==>
      RowMajor(Block(s, b)[i].position) < RowMajor(Block(s, b)[j].position)
    ensures forall r, c :: 0 <= r < 9 && 0 <= c < 9 && BlockIndex(Position(r, c)) == b ==>
      Block(s, b)[BlockSlot(Position(r, c))] == s[r][c]
  {
    forall k | 0 <= k < 9
      ensures BlockIndex(Block(s, b)[k].position) == b && BlockSlot(Block(s, b)[k].position) == k
    {
      BlockCellAt(s, b, k);
      BlockPositionRoundTrip(b, k);
    }
    forall i, j | 0 <= i < j < 9
      ensures RowMajor(Block(s, b)[i].position) < RowMajor(Block(s, b)[j].position)
    {
      BlockCellAt(s, b, i);
      BlockCellAt(s, b, j);
      BlockSlotOrder(b, i, j);
    }
    forall r, c | 0 <= r < 9 && 0 <= c < 9 && BlockIndex(Position(r, c)) == b
      ensures Block(s, b)[BlockSlot(Position(r, c))] == s[r][c]
    {
      var p := Position(r, c);
      PositionBlockRoundTrip(p);
      BlockCellAt(s, b, BlockSlot(p));
    }
  }

  /** A prefix one longer is the prefix followed by the next element. */
  lemma PrefixStep<T>(xs: seq<T>, k: nat)
    requires k < |xs|
    ensures xs[..k + 1] == xs[..k] + [xs[k]]
  {
  }

  /** The number of entries in all rows together, counted from the first row. */
  function TotalLength<T>(rows: seq<seq<T>>): nat {
    if rows == [] then 0 else |rows[0]| + TotalLength(rows[1..])
  }

  /** Counting from the last row gives the same total. */
  lemma {:induction false} TotalLengthLast<T>(rows: seq<seq<T>>)
    requires rows != []
    ensures TotalLength(rows) == TotalLength(rows[..|rows| - 1]) + |rows[|rows| - 1]|
  {
    if |rows| > 1 {
      TotalLengthLast(rows[1..]);
      assert rows[1..][..|rows| - 2] == rows[..|rows| - 1][1..];
    }
  }

  /** The rows laid end to end, the first row first (the source's `flat` and its `reduce`):
      nothing is dropped or added. */
  function Flatten<T>(rows: seq<seq<T>>): (flat: seq<T>)
    ensures |flat| == TotalLength(rows)
  {
    if rows == [] then []
    else
      TotalLengthLast(rows);
      Flatten(rows[..|rows| - 1]) + rows[|rows| - 1]
  }

  /** Flattening rows of 9 puts entry `c` of row `r` at index `9 * r + c`. */
  lemma {:induction false} FlattenRows<T>(rows: seq<seq<T>>)
    requires forall r :: 0 <= r < |rows| ==> |rows[r]| == 9
    ensures |Flatten(rows)| == 9 * |rows|
    ensures forall k :: 0 <= k < 9 * |rows| ==> Flatten(rows)[k] == rows[k / 9][k % 9]
  {
    if rows != [] {
      var n := |rows| - 1;
      FlattenRows(rows[..n]);
      forall k | 0 <= k < 9 * |rows|
        ensures Flatten(rows)[k] == rows[k / 9][k % 9]
      {
        if k >= 9 * n {
          assert k / 9 == n && k % 9 == k - 9 * n;
        }
      }
    }
  }

  /** The index of `(r, c)` in the flattened board maps back to `(r, c)`. */
  lemma RowMajorIndex(r: nat, c: nat)
    requires c < 9
    ensures (9 * r + c) / 9 == r && (9 * r + c) % 9 == c
  {
  }
}
