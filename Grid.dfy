/** The playing field: a ROWS x COLS matrix of colour ids, 0 meaning empty,
    and the specification of the row clear (remove every full row, insert
    empty rows at the top, keep the other rows in order). */
module Grid {

  const COLS: int := 10
  const ROWS: int := 20

  type Row = seq<int>
  type Board = seq<Row>

  /** A cell holds 0 (empty) or one of the seven colour ids. */
  predicate ValidCell(v: int) {
    0 <= v <= 7
  }

  predicate WellFormedRow(row: Row) {
    |row| == COLS && forall c :: 0 <= c < |row| ==> ValidCell(row[c])
  }

  predicate WellFormedBoard(b: Board) {
    |b| == ROWS && forall r :: 0 <= r < |b| ==> WellFormedRow(b[r])
  }

  /** `Array(COLS).fill(0)` */
  function EmptyRow(): (row: Row)
    ensures WellFormedRow(row)
    ensures forall c :: 0 <= c < |row| ==> row[c] == 0
  {
    seq(COLS, _ => 0)
  }

  /** The board built by `initBoard`. */
  function InitBoard(): (b: Board)
    ensures WellFormedBoard(b)
    ensures forall r, c :: 0 <= r < ROWS && 0 <= c < COLS ==> b[r][c] == 0
  {
    seq(ROWS, _ => EmptyRow())
  }

  /** `row.every(cell => cell !== 0)` */
  predicate Full(row: Row) {
    forall c :: 0 <= c < |row| ==> row[c] != 0
  }

  predicate NoFullRow(rows: seq<Row>) {
    forall r :: 0 <= r < |rows| ==> !Full(rows[r])
  }

  lemma EmptyRowNotFull()
    ensures !Full(EmptyRow())
  {
    assert EmptyRow()[0] == 0;
  }

  /** The number of full rows. */
  function FullRowCount(rows: seq<Row>): nat {
    if rows == [] then 0
    else (if Full(rows[0]) then 1 else 0) + FullRowCount(rows[1..])
  }

  /** The rows that are not full, in their original order. */
  function KeptRows(rows: seq<Row>): seq<Row> {
    if rows == [] then []
    else (if Full(rows[0]) then [] else [rows[0]]) + KeptRows(rows[1..])
  }

  function EmptyRows(n: nat): (rows: seq<Row>)
    ensures |rows| == n
    ensures forall k :: 0 <= k < n ==> rows[k] == EmptyRow()
  {
    seq(n, _ => EmptyRow())
  }

  /** The board that the row clear leaves: one empty row on top for every
      full row removed, then the non-full rows in their original order. */
  function ClearedBoard(b: Board): Board {
    EmptyRows(FullRowCount(b)) + KeptRows(b)
  }

  /** Every row is either kept or counted as full. */
  lemma {:induction false} KeptRowsLength(rows: seq<Row>)
    ensures |KeptRows(rows)| + FullRowCount(rows) == |rows|
  {
    if rows != [] {
      KeptRowsLength(rows[1..]);
    }
  }

  /** The kept rows are rows of the input, and none of them is full. */
  lemma {:induction false} KeptRowsFromInput(rows: seq<Row>)
    ensures forall k :: 0 <= k < |KeptRows(rows)| ==>
      KeptRows(rows)[k] in rows && !Full(KeptRows(rows)[k])
  {
    if rows != [] {
      KeptRowsFromInput(rows[1..]);
      var head := if Full(rows[0]) then [] else [rows[0]];
      assert KeptRows(rows) == head + KeptRows(rows[1..]);
      forall k | 0 <= k < |KeptRows(rows)|
        ensures KeptRows(rows)[k] in rows && !Full(KeptRows(rows)[k])
      {
        if k >= |head| {
          assert KeptRows(rows)[k] == KeptRows(rows[1..])[k - |head|];
          assert KeptRows(rows[1..])[k - |head|] in rows[1..];
        }
      }
    }
  }

  /** Filtering and counting distribute over concatenation. */
  lemma {:induction false} SplitRows(xs: seq<Row>, ys: seq<Row>)
    ensures KeptRows(xs + ys) == KeptRows(xs) + KeptRows(ys)
    ensures FullRowCount(xs + ys) == FullRowCount(xs) + FullRowCount(ys)
  {
    if xs == [] {
      assert xs + ys == ys;
    } else {
      assert (xs + ys)[1..] == xs[1..] + ys;
      SplitRows(xs[1..], ys);
    }
  }

  /** A sequence of rows none of which is full is kept as it is. */
  lemma {:induction false} KeptRowsOfNoFull(rows: seq<Row>)
    requires NoFullRow(rows)
    ensures KeptRows(rows) == rows && FullRowCount(rows) == 0
  {
    if rows != [] {
      assert NoFullRow(rows[1..]) by {
        forall r | 0 <= r < |rows[1..]| ensures !Full(rows[1..][r]) {
          assert rows[1..][r] == rows[r + 1];
        }
      }
      KeptRowsOfNoFull(rows[1..]);
    }
  }

  /** The shape of a cleared board: ROWS x COLS, the top `count` rows empty,
      the non-full rows below them in order, and no full row left. */
  lemma ClearedBoardShape(b: Board)
    requires WellFormedBoard(b)
    ensures var cleared := ClearedBoard(b); var count := FullRowCount(b);
      && WellFormedBoard(cleared)
      && count <= ROWS
      && (forall r, c :: 0 <= r < count && 0 <= c < COLS ==> cleared[r][c] == 0)
      && cleared[count..] == KeptRows(b)
      && NoFullRow(cleared)
  {
    var cleared := ClearedBoard(b);
    var count := FullRowCount(b);
    KeptRowsLength(b);
    KeptRowsFromInput(b);
    EmptyRowNotFull();
    forall r | 0 <= r < |cleared|
      ensures WellFormedRow(cleared[r]) && !Full(cleared[r])
    {
      if r >= count {
        assert cleared[r] == KeptRows(b)[r - count];
      }
    }
    assert cleared[count..] == KeptRows(b);
  }

  /** Clearing a board that has no full row changes nothing (in particular
      the empty board); hence clearing is idempotent. */
  lemma ClearedNoFullIsIdentity(b: Board)
    requires NoFullRow(b)
    ensures ClearedBoard(b) == b && FullRowCount(b) == 0
  {
    KeptRowsOfNoFull(b);
  }

  lemma ClearedBoardIdempotent(b: Board)
    requires WellFormedBoard(b)
    ensures ClearedBoard(ClearedBoard(b)) == ClearedBoard(b)
    ensures FullRowCount(ClearedBoard(b)) == 0
  {
    ClearedBoardShape(b);
    ClearedNoFullIsIdentity(ClearedBoard(b));
  }

  /** With exactly one full row, the clear removes it, puts one empty row on
      top and shifts the rows above it down by one. */
  lemma ClearOneFullRow(above: seq<Row>, row: Row, below: seq<Row>)
    requires NoFullRow(above) && Full(row) && NoFullRow(below)
    ensures FullRowCount(above + [row] + below) == 1
    ensures ClearedBoard(above + [row] + below) == [EmptyRow()] + above + below
  {
    RemoveOneFullRow(above, row, below);
    assert above + [row] + below == above + ([row] + below);
    assert EmptyRows(1) == [EmptyRow()];
    assert [EmptyRow()] + above + below == [EmptyRow()] + (above + below);
  }

  lemma RemoveOneFullRow(above: seq<Row>, row: Row, below: seq<Row>)
    requires NoFullRow(above) && Full(row) && NoFullRow(below)
    ensures KeptRows(above + ([row] + below)) == above + below
    ensures FullRowCount(above + ([row] + below)) == 1
  {
    KeptRowsOfNoFull(above);
    KeptRowsOfNoFull(below);
    ConsRow(row, below);
    assert KeptRows([row] + below) == below;
    assert FullRowCount([row] + below) == 1;
    SplitRows(above, [row] + below);
  }

  /** Filtering and counting, one row at a time. */
  lemma ConsRow(row: Row, rest: seq<Row>)
    ensures KeptRows([row] + rest) == (if Full(row) then [] else [row]) + KeptRows(rest)
    ensures FullRowCount([row] + rest) == (if Full(row) then 1 else 0) + FullRowCount(rest)
  {
    assert ([row] + rest)[1..] == rest;
  }

  /** The board part-way through the bottom-up scan of the row clear:
      `cleared` empty rows on top, then the `unseen` rows of `original` not
      yet examined, then the non-full rows among those already examined. */
  function Scanning(original: Board, unseen: int, cleared: nat): Board
    requires 0 <= unseen <= |original|
  {
    EmptyRows(cleared) + original[..unseen] + KeptRows(original[unseen..])
  }

  /** The rows of a scanning board, by index. */
  lemma ScanningRows(original: Board, unseen: int, cleared: nat)
    requires 0 <= unseen <= |original|
    ensures |Scanning(original, unseen, cleared)| == cleared + |original| - FullRowCount(original[unseen..])
    ensures forall y :: 0 <= y < cleared ==> Scanning(original, unseen, cleared)[y] == EmptyRow()
    ensures forall y :: cleared <= y < cleared + unseen ==> Scanning(original, unseen, cleared)[y] == original[y - cleared]
  {
    KeptRowsLength(original[unseen..]);
  }

  /** Examining a full row: it is removed, an empty row goes on top, and the
      same index now holds the next unexamined row. */
  lemma ScanRemovesFull(original: Board, unseen: int, cleared: nat)
    requires 0 < unseen <= |original| && Full(original[unseen - 1])
    ensures var b := Scanning(original, unseen, cleared); var y := cleared + unseen - 1;
      y < |b| && [EmptyRow()] + (b[..y] + b[y + 1..]) == Scanning(original, unseen - 1, cleared + 1)
    ensures FullRowCount(original[unseen - 1..]) == FullRowCount(original[unseen..]) + 1
  {
    var b := Scanning(original, unseen, cleared);
    var y := cleared + unseen - 1;
    ScanningRows(original, unseen, cleared);
    assert original[unseen - 1..] == [original[unseen - 1]] + original[unseen..];
    ConsRow(original[unseen - 1], original[unseen..]);
    assert b[..y] == EmptyRows(cleared) + original[..unseen - 1];
    assert b[y + 1..] == KeptRows(original[unseen..]);
    assert [EmptyRow()] + EmptyRows(cleared) == EmptyRows(cleared + 1);
  }

  /** Examining a row that is not full moves it from the unexamined part to
      the kept part; the board itself does not change. */
  lemma ScanKeeps(original: Board, unseen: int, cleared: nat)
    requires 0 < unseen <= |original| && !Full(original[unseen - 1])
    ensures Scanning(original, unseen - 1, cleared) == Scanning(original, unseen, cleared)
    ensures FullRowCount(original[unseen - 1..]) == FullRowCount(original[unseen..])
  {
    assert original[unseen - 1..] == [original[unseen - 1]] + original[unseen..];
    ConsRow(original[unseen - 1], original[unseen..]);
    assert original[..unseen] == original[..unseen - 1] + [original[unseen - 1]];
  }

  /** At the end of the scan the board is the cleared board. */
  lemma ScanDone(original: Board, cleared: nat)
    ensures Scanning(original, 0, cleared) == EmptyRows(cleared) + KeptRows(original)
  {
    assert original[..0] == [] && original[0..] == original;
  }

  /** The bottom-up scan of the row clear at index y: the board is the
      scanning board, y is the lowest unexamined row while rows remain
      unexamined (below that only the inserted empty rows are left), and
      `cleared` counts the full rows examined so far. */
  predicate ScanAt(original: Board, board: Board, unseen: int, cleared: int, y: int) {
    && |original| == ROWS
    && 0 <= unseen <= ROWS && 0 <= cleared
    && -1 <= y < ROWS
    && y + 1 <= cleared + unseen
    && (unseen > 0 ==> y + 1 == cleared + unseen)
    && cleared == FullRowCount(original[unseen..])
    && board == Scanning(original, unseen, cleared)
    && |board| == ROWS
  }

  /** The scan starts at the bottom row with nothing examined. */
  lemma ScanStart(original: Board)
    requires |original| == ROWS
    ensures ScanAt(original, original, ROWS, 0, ROWS - 1)
  {
    assert original[ROWS..] == [];
    assert EmptyRows(0) + original[..ROWS] == original;
  }

  /** A full row at y is a row of the input: it is removed, an empty row
      goes on top and the same index is examined again. */
  lemma ScanFull(original: Board, board: Board, unseen: int, cleared: int, y: int)
    requires ScanAt(original, board, unseen, cleared, y) && 0 <= y && Full(board[y])
    ensures unseen > 0
    ensures ScanAt(original, [EmptyRow()] + (board[..y] + board[y + 1..]), unseen - 1, cleared + 1, y)
  {
    ScanningRows(original, unseen, cleared);
    if unseen == 0 {
      EmptyRowNotFull();
      assert false;
    }
    assert board[y] == original[unseen - 1];
    ScanRemovesFull(original, unseen, cleared);
    ScanningRows(original, unseen - 1, cleared + 1);
    KeptRowsLength(original[unseen - 1..]);
  }

  /** A row at y that is not full stays; the scan moves one row up. */
  lemma ScanNotFull(original: Board, board: Board, unseen: int, cleared: int, y: int)
    requires ScanAt(original, board, unseen, cleared, y) && 0 <= y && !Full(board[y])
    ensures ScanAt(original, board, if unseen > 0 then unseen - 1 else 0, cleared, y - 1)
  {
    if unseen > 0 {
      ScanningRows(original, unseen, cleared);
      assert board[y] == original[unseen - 1];
      ScanKeeps(original, unseen, cleared);
    }
  }

  /** When the scan has passed the top row, every row has been examined
      and the board is the cleared board. */
  lemma ScanEnd(original: Board, board: Board, unseen: int, cleared: int)
    requires ScanAt(original, board, unseen, cleared, -1)
    ensures board == ClearedBoard(original) && cleared == FullRowCount(original)
  {
    ScanDone(original, cleared);
    assert original[0..] == original;
  }

  /** Width of the integer interval [max(lo, 0), hi). */
  function Span(lo: int, hi: int): nat {
    var from := if lo < 0 then 0 else lo;
    if hi <= from then 0 else hi - from
  }

  /** If every full row lies in [lo, hi), there are at most that many. */
  lemma {:induction false} FullRowsWithin(rows: seq<Row>, lo: int, hi: int)
    requires forall r :: 0 <= r < |rows| && Full(rows[r]) ==> lo <= r < hi
    ensures FullRowCount(rows) <= Span(lo, hi)
  {
    if rows != [] {
      forall r | 0 <= r < |rows[1..]| && Full(rows[1..][r])
        ensures lo - 1 <= r < hi - 1
      {
        assert rows[1..][r] == rows[r + 1];
      }
      FullRowsWithin(rows[1..], lo - 1, hi - 1);
    }
  }
}
