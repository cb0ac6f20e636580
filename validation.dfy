/** What `validateState` decides about a board, stated as functions on the board's value,
    with the lemmas that say which violation it reports and when it reports none. */
module Validation {
  import opened Types
  import opened Grid
  import Decimal

  /** The first rule a board breaks. Rows, columns and blocks are counted from 0. */
  datatype Violation =
    | OutOfRange(value: int)
    | RowDuplicate(row: nat, digit: int)
    | ColumnDuplicate(col: nat, digit: int)
    | BlockDuplicate(block: nat, digit: int)

  predicate IsDigit(n: int) {
    1 <= n <= 9
  }

  /** An entry is acceptable when it is empty or a digit 1..9. */
  predicate InRange(x: Option<int>) {
    x.Some? ==> IsDigit(x.value)
  }

  /** Two entries clash when they hold the same digit 1..9; empty entries never clash. */
  predicate Clash(x: Option<int>, y: Option<int>) {
    x.Some? && x == y && IsDigit(x.value)
  }

  /** The numbers of some cells, in order (`cells.map(cell => cell.number)`). */
  function NumbersOf(cells: seq<Cell>): seq<Option<int>> {
    seq(|cells|, i requires 0 <= i < |cells| => cells[i].number)
  }

  // ---------------------------------------------------------------------------
  // Rule 1: every number lies in 1..9

  /** The first number outside 1..9, if any (`find` over the flattened numbers). */
  function FirstOutOfRange(ns: seq<Option<int>>): (n: Option<int>)
    ensures n.Some? ==> !IsDigit(n.value)
  {
    if ns == [] then None
    else if !InRange(ns[0]) then Some(ns[0].value)
    else FirstOutOfRange(ns[1..])
  }

  /** Entry `k` is out of range and every entry before it is in range. */
  predicate IsFirstOutOfRangeAt(ns: seq<Option<int>>, k: int) {
    0 <= k < |ns| && !InRange(ns[k]) && forall j :: 0 <= j < k ==> InRange(ns[j])
  }

  /** `FirstOutOfRange` finds nothing exactly when every entry is in range, and otherwise
      it returns the number of the earliest offending entry. */
  lemma {:induction false} FirstOutOfRangeSpec(ns: seq<Option<int>>)
    ensures FirstOutOfRange(ns).None? <==> forall k :: 0 <= k < |ns| ==> InRange(ns[k])
    ensures forall k :: IsFirstOutOfRangeAt(ns, k) ==> FirstOutOfRange(ns) == Some(ns[k].value)
    ensures FirstOutOfRange(ns).Some? ==> exists k :: IsFirstOutOfRangeAt(ns, k)
  {
    if ns != [] && InRange(ns[0]) {
      FirstOutOfRangeSpec(ns[1..]);
      forall k | IsFirstOutOfRangeAt(ns, k)
        ensures FirstOutOfRange(ns) == Some(ns[k].value)
      {
        assert IsFirstOutOfRangeAt(ns[1..], k - 1);
      }
      if FirstOutOfRange(ns).Some? {
        var k :| IsFirstOutOfRangeAt(ns[1..], k);
        assert IsFirstOutOfRangeAt(ns, k + 1);
      }
    } else if ns != [] {
      assert IsFirstOutOfRangeAt(ns, 0);
    }
  }

  // ---------------------------------------------------------------------------
  // Rules 2-4: no digit twice in a row, a column or a block

  /** How many entries hold digit `d` (`filter(num => num === d).length`). */
  function Count(ns: seq<Option<int>>, d: int): (n: nat)
    ensures n <= |ns|
  {
    if ns == [] then 0 else (if ns[0] == Some(d) then 1 else 0) + Count(ns[1..], d)
  }

  /** `d` occurs at all exactly when its count is positive. */
  lemma {:induction false} CountPositive(ns: seq<Option<int>>, d: int)
    ensures Count(ns, d) > 0 <==> exists i :: 0 <= i < |ns| && ns[i] == Some(d)
  {
    if ns != [] {
      CountPositive(ns[1..], d);
      if ns[0] != Some(d) && Count(ns, d) == 0 {
        forall i | 0 <= i < |ns| ensures ns[i] != Some(d) {
          if i > 0 { assert ns[i] == ns[1..][i - 1]; }
        }
      }
      if Count(ns[1..], d) > 0 {
        var i :| 0 <= i < |ns[1..]| && ns[1..][i] == Some(d);
        assert ns[i + 1] == Some(d);
      }
    }
  }

  /** `d` is counted more than once exactly when two different entries hold it. */
  lemma {:induction false} CountDuplicate(ns: seq<Option<int>>, d: int)
    ensures Count(ns, d) > 1 <==>
      exists i, j :: 0 <= i < j < |ns| && ns[i] == Some(d) && ns[j] == Some(d)
  {
    if ns != [] {
      var tail := ns[1..];
      CountDuplicate(tail, d);
      CountPositive(tail, d);
      if Count(ns, d) > 1 {
        if ns[0] == Some(d) {
          var j :| 0 <= j < |tail| && tail[j] == Some(d);
          assert ns[0] == Some(d) && ns[j + 1] == Some(d);
        } else {
          var i, j :| 0 <= i < j < |tail| && tail[i] == Some(d) && tail[j] == Some(d);
          assert ns[i + 1] == Some(d) && ns[j + 1] == Some(d);
        }
      }
      if exists i, j :: 0 <= i < j < |ns| && ns[i] == Some(d) && ns[j] == Some(d) {
        var i, j :| 0 <= i < j < |ns| && ns[i] == Some(d) && ns[j] == Some(d);
        assert tail[j - 1] == Some(d);
        if i > 0 {
          assert tail[i - 1] == Some(d);
        }
      }
    }
  }

  /** No two different entries clash. */
  predicate Unique(ns: seq<Option<int>>) {
    forall i, j :: 0 <= i < j < |ns| ==> !Clash(ns[i], ns[j])
  }

  /** Counting each digit 1..9 at most once is the same as having no two clashing entries. */
  lemma UniqueIffCounts(ns: seq<Option<int>>)
    ensures Unique(ns) <==> forall d :: IsDigit(d) ==> Count(ns, d) <= 1
  {
    forall d | IsDigit(d) {
      CountDuplicate(ns, d);
    }
    if !Unique(ns) {
      var i, j :| 0 <= i < j < |ns| && Clash(ns[i], ns[j]);
      CountDuplicate(ns, ns[i].value);
    }
  }

  /** No group holds any digit 1..9 twice. */
  predicate NoDuplicates(groups: seq<seq<Option<int>>>) {
    forall i, d :: 0 <= i < |groups| && 1 <= d <= 9 ==> Count(groups[i], d) <= 1
  }

  /** Digit `d` of group `i` is the first duplicate when groups are scanned in order and,
      within a group, digits are tried from 1 upwards. */
  predicate IsFirstDuplicate(groups: seq<seq<Option<int>>>, i: nat, d: int) {
    && i < |groups| && IsDigit(d) && Count(groups[i], d) > 1
    && NoDuplicates(groups[..i])
    && forall e :: 1 <= e < d ==> Count(groups[i], e) <= 1
  }

  /** The first digit from `d` to 9 that `ns` holds twice (the inner `for j` loop). */
  function FirstDuplicateDigit(ns: seq<Option<int>>, d: int): (r: Option<int>)
    requires 1 <= d <= 10
    ensures r.Some? ==> d <= r.value <= 9 && Count(ns, r.value) > 1
    decreases 10 - d
  {
    if d == 10 then None
    else if Count(ns, d) > 1 then Some(d)
    else FirstDuplicateDigit(ns, d + 1)
  }

  /** The first (group, digit) duplicate from group `i` on (the outer loop). */
  function FirstDuplicate(groups: seq<seq<Option<int>>>, i: nat): (r: Option<(nat, int)>)
    requires i <= |groups|
    ensures r.Some? ==> i <= r.value.0 < |groups| && IsDigit(r.value.1) && Count(groups[r.value.0], r.value.1) > 1
    decreases |groups| - i
  {
    if i == |groups| then None
    else match FirstDuplicateDigit(groups[i], 1)
      case Some(d) => Some((i, d))
      case None => FirstDuplicate(groups, i + 1)
  }

  /** The digit scan from `lo` finds nothing exactly when no digit from `lo` to 9 is held
      twice, and otherwise it returns the smallest such digit. */
  lemma {:induction false} FirstDuplicateDigitSpec(ns: seq<Option<int>>, lo: int)
    requires 1 <= lo <= 10
    ensures FirstDuplicateDigit(ns, lo).None? <==> forall d :: lo <= d <= 9 ==> Count(ns, d) <= 1
    ensures FirstDuplicateDigit(ns, lo).Some? ==>
      var d := FirstDuplicateDigit(ns, lo).value;
      lo <= d <= 9 && Count(ns, d) > 1 && forall e :: lo <= e < d ==> Count(ns, e) <= 1
    decreases 10 - lo
  {
    if lo < 10 {
      FirstDuplicateDigitSpec(ns, lo + 1);
      var r := FirstDuplicateDigit(ns, lo);
      if Count(ns, lo) > 1 {
        assert r == Some(lo);
        assert !(forall d :: lo <= d <= 9 ==> Count(ns, d) <= 1) by {
          assert lo <= lo <= 9 && Count(ns, lo) > 1;
        }
      } else {
        assert r == FirstDuplicateDigit(ns, lo + 1);
        assert (forall d :: lo <= d <= 9 ==> Count(ns, d) <= 1)
          <==> (forall d :: lo + 1 <= d <= 9 ==> Count(ns, d) <= 1);
        if r.Some? {
          forall e | lo <= e < r.value
            ensures Count(ns, e) <= 1
          {
            if e > lo {
              assert lo + 1 <= e < r.value;
            }
          }
        }
      }
    }
  }

  /** The group scan from `lo` finds nothing exactly when no group from `lo` on holds a
      digit twice, and otherwise it returns the first such group with its smallest such
      digit. */
  lemma {:induction false} FirstDuplicateFrom(groups: seq<seq<Option<int>>>, lo: nat)
    requires lo <= |groups|
    ensures FirstDuplicate(groups, lo).None? <==>
      forall i, d :: lo <= i < |groups| && 1 <= d <= 9 ==> Count(groups[i], d) <= 1
    ensures FirstDuplicate(groups, lo).Some? ==>
      var (i, d) := FirstDuplicate(groups, lo).value;
      && lo <= i < |groups| && IsDigit(d) && Count(groups[i], d) > 1
      && (forall e :: 1 <= e < d ==> Count(groups[i], e) <= 1)
      && (forall i', e :: lo <= i' < i && 1 <= e <= 9 ==> Count(groups[i'], e) <= 1)
    decreases |groups| - lo
  {
    if lo < |groups| {
      FirstDuplicateDigitSpec(groups[lo], 1);
      FirstDuplicateFrom(groups, lo + 1);
      if FirstDuplicate(groups, lo).None? {
        forall i, d | lo <= i < |groups| && 1 <= d <= 9 ensures Count(groups[i], d) <= 1 {
          if i == lo {
          }
        }
      }
    }
  }

  /** The scan finds nothing exactly when no group has a duplicate, and otherwise it
      returns the first duplicate in (group, digit) order. */
  lemma FirstDuplicateSpec(groups: seq<seq<Option<int>>>)
    ensures FirstDuplicate(groups, 0).None? <==> NoDuplicates(groups)
    ensures forall i: nat, d :: FirstDuplicate(groups, 0) == Some((i, d)) <==> IsFirstDuplicate(groups, i, d)
  {
    FirstDuplicateFrom(groups, 0);
    if FirstDuplicate(groups, 0).None? {
      forall i, d | 0 <= i < |groups| && 1 <= d <= 9 ensures Count(groups[i], d) <= 1 {
      }
      assert NoDuplicates(groups);
    }
    if NoDuplicates(groups) {
      assert forall i, d :: 0 <= i < |groups| && 1 <= d <= 9 ==> Count(groups[i], d) <= 1;
    }
    forall i: nat, d | IsFirstDuplicate(groups, i, d)
      ensures FirstDuplicate(groups, 0) == Some((i, d))
    {
      assert 0 <= i < |groups| && 1 <= d <= 9 && Count(groups[i], d) > 1;
      assert forall k :: 0 <= k < i ==> groups[..i][k] == groups[k];
      var (i', d') := FirstDuplicate(groups, 0).value;
      if i' != i || d' != d {
        assert false;
      }
    }
    forall i: nat, d | FirstDuplicate(groups, 0) == Some((i, d))
      ensures IsFirstDuplicate(groups, i, d)
    {
      assert forall i' :: 0 <= i' < i ==> groups[..i][i'] == groups[i'];
      assert NoDuplicates(groups[..i]);
    }
  }

  // ---------------------------------------------------------------------------
  // The board

  /** The numbers of each row. */
  function RowNumbers(s: State): seq<seq<Option<int>>>
    requires IsState(s)
  {
    seq(9, r requires 0 <= r < 9 => NumbersOf(s[r]))
  }

  /** The numbers of each column, top to bottom. */
  function ColumnNumbers(s: State): seq<seq<Option<int>>>
    requires IsState(s)
  {
    seq(9, c requires 0 <= c < 9 => seq(9, r requires 0 <= r < 9 => s[r][c].number))
  }

  /** The numbers of each block, in the block's row-major order. */
  function BlockNumbers(s: State): seq<seq<Option<int>>>
    requires IsState(s)
  {
    seq(9, b requires 0 <= b < 9 => NumbersOf(Block(s, b)))
  }

  /** The first rule `s` breaks, checking in this order: numbers in 1..9, then rows,
      then columns, then blocks; `None` when it breaks none. */
  function Validate(s: State): (v: Option<Violation>)
    requires IsState(s)
    ensures v.Some? && v.value.OutOfRange? ==> !IsDigit(v.value.value)
    ensures v.Some? && v.value.RowDuplicate? ==>
      v.value.row < 9 && IsDigit(v.value.digit) && Count(RowNumbers(s)[v.value.row], v.value.digit) > 1
    ensures v.Some? && v.value.ColumnDuplicate? ==>
      v.value.col < 9 && IsDigit(v.value.digit) && Count(ColumnNumbers(s)[v.value.col], v.value.digit) > 1
    ensures v.Some? && v.value.BlockDuplicate? ==>
      v.value.block < 9 && IsDigit(v.value.digit) && Count(BlockNumbers(s)[v.value.block], v.value.digit) > 1
  {
    match FirstOutOfRange(Flatten(RowNumbers(s)))
    case Some(n) => Some(OutOfRange(n))
    case None =>
      match FirstDuplicate(RowNumbers(s), 0)
      case Some((r, d)) => Some(RowDuplicate(r, d))
      case None =>
        match FirstDuplicate(ColumnNumbers(s), 0)
        case Some((c, d)) => Some(ColumnDuplicate(c, d))
        case None =>
          match FirstDuplicate(BlockNumbers(s), 0)
          case Some((b, d)) => Some(BlockDuplicate(b, d))
          case None => None
  }

  /** Every number on the board lies in 1..9. */
  predicate AllInRange(s: State)
    requires Is9x9(s)
  {
    forall r, c :: 0 <= r < 9 && 0 <= c < 9 ==> InRange(s[r][c].number)
  }

  /** Cell (r, c) is the first out-of-range cell when the board is read row by row. */
  predicate IsFirstOutOfRange(s: State, r: nat, c: nat)
    requires Is9x9(s)
  {
    && r < 9 && c < 9 && !InRange(s[r][c].number)
    && forall r', c' :: 0 <= r' < 9 && 0 <= c' < 9 && 9 * r' + c' < 9 * r + c ==>
         InRange(s[r'][c'].number)
  }

  /** The flattened numbers are the board's numbers in row-major order. */
  lemma FlatNumbers(s: State)
    requires IsState(s)
    ensures |Flatten(RowNumbers(s))| == 81
    ensures forall k :: 0 <= k < 81 ==> Flatten(RowNumbers(s))[k] == s[k / 9][k % 9].number
  {
    FlattenRows(RowNumbers(s));
  }

  /** Rule 1 comes first: `Validate` reports an out-of-range number exactly when the board
      has one, and the number it reports is that of the first such cell in row-major order,
      whatever duplicates the board also holds. */
  lemma RangeRule(s: State)
    requires IsState(s)
    ensures (Validate(s).Some? && Validate(s).value.OutOfRange?) <==> !AllInRange(s)
    ensures forall r: nat, c: nat :: IsFirstOutOfRange(s, r, c) ==>
      Validate(s) == Some(OutOfRange(s[r][c].number.value))
    ensures forall n :: Validate(s) == Some(OutOfRange(n)) ==>
      exists r: nat, c: nat :: IsFirstOutOfRange(s, r, c) && s[r][c].number == Some(n)
  {
    var ns := Flatten(RowNumbers(s));
    FlatNumbers(s);
    FirstOutOfRangeSpec(ns);
    if !AllInRange(s) {
      var r, c :| 0 <= r < 9 && 0 <= c < 9 && !InRange(s[r][c].number);
      RowMajorIndex(r, c);
      assert !InRange(ns[9 * r + c]);
    } else {
      forall k | 0 <= k < 81 ensures InRange(ns[k]) {
      }
    }
    forall r: nat, c: nat | IsFirstOutOfRange(s, r, c)
      ensures Validate(s) == Some(OutOfRange(s[r][c].number.value))
    {
      RowMajorIndex(r, c);
      forall j | 0 <= j < 9 * r + c ensures InRange(ns[j]) {
        RowMajorIndex(j / 9, j % 9);
      }
      assert IsFirstOutOfRangeAt(ns, 9 * r + c);
    }
    forall n | Validate(s) == Some(OutOfRange(n))
      ensures exists r: nat, c: nat :: IsFirstOutOfRange(s, r, c) && s[r][c].number == Some(n)
    {
      var k :| IsFirstOutOfRangeAt(ns, k);
      var r, c := k / 9, k % 9;
      forall r', c' | 0 <= r' < 9 && 0 <= c' < 9 && 9 * r' + c' < 9 * r + c
        ensures InRange(s[r'][c'].number)
      {
        RowMajorIndex(r', c');
        assert InRange(ns[9 * r' + c']);
      }
      assert IsFirstOutOfRange(s, r, c);
    }
  }

  /** Rules 2 to 4 in order: a row duplicate is reported only when every number is in
      range, a column duplicate only when in addition no row has one, a block duplicate
      only when no row or column has one; each is the first in (group, digit) order.
      Nothing is reported exactly when all four rules hold. */
  lemma UniquenessRules(s: State)
    requires IsState(s)
    ensures forall r: nat, d :: Validate(s) == Some(RowDuplicate(r, d)) <==>
      AllInRange(s) && IsFirstDuplicate(RowNumbers(s), r, d)
    ensures forall c: nat, d :: Validate(s) == Some(ColumnDuplicate(c, d)) <==>
      AllInRange(s) && NoDuplicates(RowNumbers(s)) && IsFirstDuplicate(ColumnNumbers(s), c, d)
    ensures forall b: nat, d :: Validate(s) == Some(BlockDuplicate(b, d)) <==>
      && AllInRange(s) && NoDuplicates(RowNumbers(s)) && NoDuplicates(ColumnNumbers(s))
      && IsFirstDuplicate(BlockNumbers(s), b, d)
    ensures Validate(s) == None <==>
      && AllInRange(s) && NoDuplicates(RowNumbers(s)) && NoDuplicates(ColumnNumbers(s))
      && NoDuplicates(BlockNumbers(s))
  {
    RangeRule(s);
    FirstDuplicateSpec(RowNumbers(s));
    FirstDuplicateSpec(ColumnNumbers(s));
    FirstDuplicateSpec(BlockNumbers(s));
  }

  // ---------------------------------------------------------------------------
  // The same verdict, stated as the rule of the game

  /** Two different cells that share a row, a column or a block. */
  predicate Peers(p: Position, q: Position) {
    p != q && (p.r == q.r || p.c == q.c || BlockIndex(p) == BlockIndex(q))
  }

  /** Every number lies in 1..9 and no two peers hold the same digit. */
  predicate Consistent(s: State)
    requires Is9x9(s)
  {
    && AllInRange(s)
    && forall r1, c1, r2, c2 ::
         0 <= r1 < 9 && 0 <= c1 < 9 && 0 <= r2 < 9 && 0 <= c2 < 9 &&
         Peers(Position(r1, c1), Position(r2, c2)) ==>
         !Clash(s[r1][c1].number, s[r2][c2].number)
  }

  /** No group counts a digit twice exactly when every group is free of clashes. */
  lemma NoDuplicatesIffUnique(groups: seq<seq<Option<int>>>)
    ensures NoDuplicates(groups) <==> forall i :: 0 <= i < |groups| ==> Unique(groups[i])
  {
    forall i | 0 <= i < |groups| {
      UniqueIffCounts(groups[i]);
    }
  }

  /** No row holds a digit twice exactly when no two cells of a row clash. */
  lemma RowsIff(s: State)
    requires IsState(s)
    ensures NoDuplicates(RowNumbers(s)) <==>
      forall r, c1, c2 :: 0 <= r < 9 && 0 <= c1 < c2 < 9 ==> !Clash(s[r][c1].number, s[r][c2].number)
  {
    var gs := RowNumbers(s);
    NoDuplicatesIffUnique(gs);
    forall r | 0 <= r < 9
      ensures Unique(gs[r]) <==>
        forall c1, c2 :: 0 <= c1 < c2 < 9 ==> !Clash(s[r][c1].number, s[r][c2].number)
    {
      assert forall c :: 0 <= c < 9 ==> gs[r][c] == s[r][c].number;
    }
  }

  /** No column holds a digit twice exactly when no two cells of a column clash. */
  lemma ColumnsIff(s: State)
    requires IsState(s)
    ensures NoDuplicates(ColumnNumbers(s)) <==>
      forall c, r1, r2 :: 0 <= c < 9 && 0 <= r1 < r2 < 9 ==> !Clash(s[r1][c].number, s[r2][c].number)
  {
    var gs := ColumnNumbers(s);
    NoDuplicatesIffUnique(gs);
    forall c | 0 <= c < 9
      ensures Unique(gs[c]) <==>
        forall r1, r2 :: 0 <= r1 < r2 < 9 ==> !Clash(s[r1][c].number, s[r2][c].number)
    {
      assert forall r :: 0 <= r < 9 ==> gs[c][r] == s[r][c].number;
    }
    if NoDuplicates(gs) {
      forall c, r1, r2 | 0 <= c < 9 && 0 <= r1 < r2 < 9
        ensures !Clash(s[r1][c].number, s[r2][c].number)
      {
        assert Unique(gs[c]);
      }
    }
  }

  /** The number of an on-board position sits in its block's group, at its slot. */
  lemma BlockNumberAt(s: State, p: Position)
    requires IsState(s) && p.r < 9 && p.c < 9
    ensures BlockIndex(p) < 9 && BlockSlot(p) < 9
    ensures BlockNumbers(s)[BlockIndex(p)][BlockSlot(p)] == s[p.r][p.c].number
  {
    PositionBlockRoundTrip(p);
    var b, k := BlockIndex(p), BlockSlot(p);
    BlockCellAt(s, b, k);
    assert BlockNumbers(s)[b][k] == Block(s, b)[k].number;
  }

  /** Entry `k` of block group `b` is the number of a cell whose block is `b` and slot `k`. */
  lemma BlockEntry(s: State, b: nat, k: nat) returns (p: Position)
    requires IsState(s) && b < 9 && k < 9
    ensures p.r < 9 && p.c < 9 && BlockIndex(p) == b && BlockSlot(p) == k
    ensures BlockNumbers(s)[b][k] == s[p.r][p.c].number
  {
    BlockCellAt(s, b, k);
    p := BlockPosition(b, k);
    BlockPositionRoundTrip(b, k);
  }

  /** Two different cells of one block clash nowhere when no block group has a duplicate. */
  lemma BlocksUniqueNoClash(s: State)
    requires IsState(s)
    requires forall b :: 0 <= b < 9 ==> Unique(BlockNumbers(s)[b])
    ensures forall r1, c1, r2, c2 ::
        0 <= r1 < 9 && 0 <= c1 < 9 && 0 <= r2 < 9 && 0 <= c2 < 9 &&
        Position(r1, c1) != Position(r2, c2) &&
        BlockIndex(Position(r1, c1)) == BlockIndex(Position(r2, c2)) ==>
        !Clash(s[r1][c1].number, s[r2][c2].number)
  {
    var gs := BlockNumbers(s);
    forall r1, c1, r2, c2 |
      0 <= r1 < 9 && 0 <= c1 < 9 && 0 <= r2 < 9 && 0 <= c2 < 9 &&
      Position(r1, c1) != Position(r2, c2) &&
      BlockIndex(Position(r1, c1)) == BlockIndex(Position(r2, c2))
      ensures !Clash(s[r1][c1].number, s[r2][c2].number)
    {
      var p, q := Position(r1, c1), Position(r2, c2);
      var b := BlockIndex(p);
      BlockNumberAt(s, p);
      BlockNumberAt(s, q);
      PositionBlockRoundTrip(p);
      PositionBlockRoundTrip(q);
      var k1, k2 := BlockSlot(p), BlockSlot(q);
      assert k1 != k2;
      if k1 < k2 {
        assert !Clash(gs[b][k1], gs[b][k2]);
      } else {
        assert !Clash(gs[b][k2], gs[b][k1]);
      }
    }
  }

  /** No block holds a digit twice exactly when no two different cells of a block clash. */
  lemma BlocksIff(s: State)
    requires IsState(s)
    ensures NoDuplicates(BlockNumbers(s)) <==>
      forall r1, c1, r2, c2 ::
        0 <= r1 < 9 && 0 <= c1 < 9 && 0 <= r2 < 9 && 0 <= c2 < 9 &&
        Position(r1, c1) != Position(r2, c2) &&
        BlockIndex(Position(r1, c1)) == BlockIndex(Position(r2, c2)) ==>
        !Clash(s[r1][c1].number, s[r2][c2].number)
  {
    var gs := BlockNumbers(s);
    NoDuplicatesIffUnique(gs);
    if NoDuplicates(gs) {
      BlocksUniqueNoClash(s);
    } else {
      var b :| 0 <= b < 9 && !Unique(gs[b]);
      var i, j :| 0 <= i < j < 9 && Clash(gs[b][i], gs[b][j]);
      var p := BlockEntry(s, b, i);
      var q := BlockEntry(s, b, j);
      assert p != q;
      assert Clash(s[p.r][p.c].number, s[q.r][q.c].number);
    }
  }

  /** `Validate` accepts a board exactly when it is consistent by the rule of the game. */
  lemma ValidateIffConsistent(s: State)
    requires IsState(s)
    ensures Validate(s) == None <==> Consistent(s)
  {
    UniquenessRules(s);
    RowsIff(s);
    ColumnsIff(s);
    BlocksIff(s);
    if Validate(s) == None {
      forall r1, c1, r2, c2 |
        0 <= r1 < 9 && 0 <= c1 < 9 && 0 <= r2 < 9 && 0 <= c2 < 9 &&
        Peers(Position(r1, c1), Position(r2, c2))
        ensures !Clash(s[r1][c1].number, s[r2][c2].number)
      {
        if (r1 == r2 && c1 > c2) || (c1 == c2 && r1 > r2) {
          assert !Clash(s[r2][c2].number, s[r1][c1].number);
        }
      }
    }
    if Consistent(s) {
      assert forall r, c1, c2 :: 0 <= r < 9 && 0 <= c1 < c2 < 9 ==>
        Peers(Position(r, c1), Position(r, c2));
      assert forall c, r1, r2 :: 0 <= c < 9 && 0 <= r1 < r2 < 9 ==>
        Peers(Position(r1, c), Position(r2, c));
    }
  }

  /** Empty cells never cause a violation: emptying cells of a board that validates
      gives a board that validates. */
  lemma EmptyingCellsKeepsValid(s: State, t: State)
    requires IsState(s) && IsState(t)
    requires forall r, c :: 0 <= r < 9 && 0 <= c < 9 ==>
      t[r][c].number == s[r][c].number || t[r][c].number == None
    requires Validate(s) == None
    ensures Validate(t) == None
  {
    ValidateIffConsistent(s);
    ValidateIffConsistent(t);
  }

  // ---------------------------------------------------------------------------
  // Messages

  /** The text `validateState` returns for a violation; rows, columns and blocks are
      numbered from 1 in the text. */
  function Message(v: Violation): (m: string)
    ensures |m| > 0 && m[0] == Initial(v)
  {
    match v
    case OutOfRange(n) =>
      "Grid contains the number " + Decimal.IntToString(n) + OutOfRangeTail
    case RowDuplicate(r, d) => DuplicateText("Row ", r + 1, d)
    case ColumnDuplicate(c, d) => DuplicateText("Column ", c + 1, d)
    case BlockDuplicate(b, d) => DuplicateText("Block ", b + 1, d)
  }

  const OutOfRangeTail := " which is an invalid number for Sudoku."
  const DuplicateMiddle := " contains multiple number "

  /** The text reporting digit `d` twice in the group `kind` numbered `n` (from 1). */
  function DuplicateText(kind: string, n: int, d: int): string {
    kind + Decimal.IntToString(n) + DuplicateMiddle + Decimal.IntToString(d) + "s."
  }

  /** The first letter of a message names the rule that was broken. */
  function Initial(v: Violation): char {
    match v
    case OutOfRange(_) => 'G'
    case RowDuplicate(_, _) => 'R'
    case ColumnDuplicate(_, _) => 'C'
    case BlockDuplicate(_, _) => 'B'
  }

  /** The text of a number contains no space. */
  predicate NoSpace(x: string) {
    forall i :: 0 <= i < |x| ==> x[i] != ' '
  }

  /** In `x + y`, where `x` has no space and `y` starts with one, the first space is at
      `|x|`. */
  lemma FirstSpace(x: string, y: string)
    requires NoSpace(x) && |y| > 0 && y[0] == ' '
    ensures (x + y)[|x|] == ' '
    ensures forall i :: 0 <= i < |x| ==> (x + y)[i] != ' '
  {
  }

  /** A text that has no space and is followed by a space-led text is recovered from the
      concatenation. */
  lemma SplitAtSpace(x: string, y: string, x2: string, y2: string)
    requires NoSpace(x) && NoSpace(x2)
    requires |y| > 0 && y[0] == ' ' && |y2| > 0 && y2[0] == ' '
    requires x + y == x2 + y2
    ensures x == x2 && y == y2
  {
    FirstSpace(x, y);
    FirstSpace(x2, y2);
    assert |x| == |x2|;
    assert x == (x + y)[..|x|] && x2 == (x2 + y2)[..|x2|];
    assert y == (x + y)[|x|..] && y2 == (x2 + y2)[|x2|..];
  }

  /** Concatenation of texts regroups freely. */
  lemma Assoc(a: string, b: string, c: string)
    ensures a + b + c == a + (b + c)
  {
  }

  /** Equal texts with a common prefix agree after it. */
  lemma DropPrefix(p: string, x: string, y: string)
    requires p + x == p + y
    ensures x == y
  {
    assert x == (p + x)[|p|..] && y == (p + y)[|p|..];
  }

  /** Equal texts with a common suffix agree before it. */
  lemma DropSuffix(x: string, y: string, q: string)
    requires x + q == y + q
    ensures x == y
  {
    assert x == (x + q)[..|x|] && y == (y + q)[..|y|];
  }

  /** The number between a fixed prefix and a space-led suffix is determined by the text. */
  lemma NumberAfter(p: string, q: string, a: int, a2: int)
    requires |q| > 0 && q[0] == ' '
    requires p + Decimal.IntToString(a) + q == p + Decimal.IntToString(a2) + q
    ensures a == a2
  {
    var x, x2 := Decimal.IntToString(a), Decimal.IntToString(a2);
    Assoc(p, x, q);
    Assoc(p, x2, q);
    DropPrefix(p, x + q, x2 + q);
    SplitAtSpace(x, q, x2, q);
    Decimal.IntToStringInjective(a, a2);
  }

  /** The two numbers of a duplicate message are determined by the text. */
  lemma NumbersAfter(p: string, a: int, b: int, a2: int, b2: int)
    requires DuplicateText(p, a, b) == DuplicateText(p, a2, b2)
    ensures a == a2 && b == b2
  {
    var q := DuplicateMiddle;
    var x, x2 := Decimal.IntToString(a), Decimal.IntToString(a2);
    var y, y2 := Decimal.IntToString(b), Decimal.IntToString(b2);
    Assoc(p + x + q, y, "s.");
    Assoc(p + x, q, y + "s.");
    Assoc(p, x, q + (y + "s."));
    Assoc(p + x2 + q, y2, "s.");
    Assoc(p + x2, q, y2 + "s.");
    Assoc(p, x2, q + (y2 + "s."));
    DropPrefix(p, x + (q + (y + "s.")), x2 + (q + (y2 + "s.")));
    SplitAtSpace(x, q + (y + "s."), x2, q + (y2 + "s."));
    Decimal.IntToStringInjective(a, a2);
    DropPrefix(q, y + "s.", y2 + "s.");
    DropSuffix(y, y2, "s.");
    Decimal.IntToStringInjective(b, b2);
  }

  /** Two out-of-range messages that agree name the same number. */
  lemma OutOfRangeMessageInjective(n: int, w: Violation)
    requires w.OutOfRange? && Message(OutOfRange(n)) == Message(w)
    ensures OutOfRange(n) == w
  {
    NumberAfter("Grid contains the number ", OutOfRangeTail, n, w.value);
  }

  /** Two row messages that agree name the same row and digit. */
  lemma RowMessageInjective(r: nat, d: int, w: Violation)
    requires w.RowDuplicate? && Message(RowDuplicate(r, d)) == Message(w)
    ensures RowDuplicate(r, d) == w
  {
    NumbersAfter("Row ", r + 1, d, w.row + 1, w.digit);
  }

  /** Two column messages that agree name the same column and digit. */
  lemma ColumnMessageInjective(c: nat, d: int, w: Violation)
    requires w.ColumnDuplicate? && Message(ColumnDuplicate(c, d)) == Message(w)
    ensures ColumnDuplicate(c, d) == w
  {
    NumbersAfter("Column ", c + 1, d, w.col + 1, w.digit);
  }

  /** Two block messages that agree name the same block and digit. */
  lemma BlockMessageInjective(b: nat, d: int, w: Violation)
    requires w.BlockDuplicate? && Message(BlockDuplicate(b, d)) == Message(w)
    ensures BlockDuplicate(b, d) == w
  {
    NumbersAfter("Block ", b + 1, d, w.block + 1, w.digit);
  }

  /** A message identifies its violation: different violations give different texts. */
  lemma MessageInjective(v: Violation, w: Violation)
    requires Message(v) == Message(w)
    ensures v == w
  {
    assert Initial(v) == Message(v)[0] == Message(w)[0] == Initial(w);
    match v
    case OutOfRange(n) => OutOfRangeMessageInjective(n, w);
    case RowDuplicate(r, d) => RowMessageInjective(r, d, w);
    case ColumnDuplicate(c, d) => ColumnMessageInjective(c, d, w);
    case BlockDuplicate(b, d) => BlockMessageInjective(b, d, w);
  }

  /** `m` is `kind`, a number that reads back as `n`, the middle words, and a number that
      reads back as `d`, followed by "s.". */
  ghost predicate ReadsAsDuplicate(m: string, kind: string, n: int, d: int) {
    exists t, u :: m == kind + t + DuplicateMiddle + u + "s."
      && Decimal.ParseInt(t) == n && Decimal.ParseInt(u) == d
  }

  /** The numbers of a duplicate text read back as the numbers it was built from. */
  lemma DuplicateReadsBack(kind: string, n: int, d: int)
    ensures ReadsAsDuplicate(DuplicateText(kind, n, d), kind, n, d)
  {
    var t, u := Decimal.IntToString(n), Decimal.IntToString(d);
    Decimal.IntToStringRoundTrip(n);
    Decimal.IntToStringRoundTrip(d);
    assert DuplicateText(kind, n, d) == kind + t + DuplicateMiddle + u + "s.";
  }

  /** The numbers a message prints read back as the violation's data, with groups numbered
      from 1: the out-of-range number itself, and for a duplicate the group index plus one
      and the digit. */
  lemma MessageNumbers(v: Violation)
    ensures v.OutOfRange? ==> exists t ::
      Message(v) == "Grid contains the number " + t + OutOfRangeTail && Decimal.ParseInt(t) == v.value
    ensures v.RowDuplicate? ==> ReadsAsDuplicate(Message(v), "Row ", v.row + 1, v.digit)
    ensures v.ColumnDuplicate? ==> ReadsAsDuplicate(Message(v), "Column ", v.col + 1, v.digit)
    ensures v.BlockDuplicate? ==> ReadsAsDuplicate(Message(v), "Block ", v.block + 1, v.digit)
  {
    match v
    case OutOfRange(n) =>
      var t := Decimal.IntToString(n);
      Decimal.IntToStringRoundTrip(n);
      assert Message(v) == "Grid contains the number " + t + OutOfRangeTail;
    case RowDuplicate(r, d) =>
      assert Message(v) == DuplicateText("Row ", r + 1, d);
      DuplicateReadsBack("Row ", r + 1, d);
    case ColumnDuplicate(c, d) =>
      assert Message(v) == DuplicateText("Column ", c + 1, d);
      DuplicateReadsBack("Column ", c + 1, d);
    case BlockDuplicate(b, d) =>
      assert Message(v) == DuplicateText("Block ", b + 1, d);
      DuplicateReadsBack("Block ", b + 1, d);
  }
}
