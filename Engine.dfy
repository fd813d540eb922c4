/** Collision test, locking a piece into the board, rotation with a
    four-candidate wall kick, and the distance a piece can fall. */
module Engine {
  import opened Grid
  import opened Pieces

  /** Shape cell (i, j) of p, displaced by (dx, dy), lies left of column 0,
      right of the last column or below the last row, or lands on a filled
      cell. A cell above the top row is checked only against the side walls. */
  predicate Blocked(b: Board, p: Piece, i: int, j: int, dx: int, dy: int)
    requires WellFormedBoard(b)
  {
    var newX := p.x + j + dx;
    var newY := p.y + i + dy;
    newX < 0 || newX >= COLS || newY >= ROWS || (newY >= 0 && b[newY][newX] != 0)
  }

  /** Some occupied cell of p, displaced by (dx, dy), is blocked. */
  predicate Collides(b: Board, p: Piece, dx: int, dy: int)
    requires WellFormedBoard(b) && SquareShape(p.shape)
  {
    exists i, j {:trigger Blocked(b, p, i, j, dx, dy)} :: 0 <= i < |p.shape| && 0 <= j < |p.shape| && p.shape[i][j] != 0 && Blocked(b, p, i, j, dx, dy)
  }

  /** `collide(board, piece, dx, dy)`: scans the shape row by row and stops
      at the first blocked occupied cell. */
  method Collide(board: Board, piece: Piece, dx: int, dy: int) returns (hit: bool)
    requires WellFormedBoard(board) && SquareShape(piece.shape)
    ensures hit == Collides(board, piece, dx, dy)
  {
    var shape := piece.shape;
    var y := 0;
    while y < |shape|
      invariant 0 <= y <= |shape|
      invariant forall i, j :: 0 <= i < y && 0 <= j < |shape| && shape[i][j] != 0 ==> !Blocked(board, piece, i, j, dx, dy)
    {
      var x := 0;
      while x < |shape[y]|
        invariant 0 <= x <= |shape[y]|
        invariant forall i, j :: 0 <= i < y && 0 <= j < |shape| && shape[i][j] != 0 ==> !Blocked(board, piece, i, j, dx, dy)
        invariant forall j :: 0 <= j < x && shape[y][j] != 0 ==> !Blocked(board, piece, y, j, dx, dy)
      {
        if shape[y][x] != 0 {
          var newX := piece.x + x + dx;
          var newY := piece.y + y + dy;
          if newX < 0 || newX >= COLS || newY >= ROWS {
            assert Blocked(board, piece, y, x, dx, dy);
            return true;
          }
          if newY >= 0 && board[newY][newX] != 0 {
            assert Blocked(board, piece, y, x, dx, dy);
            return true;
          }
        }
        x := x + 1;
      }
      y := y + 1;
    }
    return false;
  }

  /** The piece moved by (dx, dy). */
  function Shifted(p: Piece, dx: int, dy: int): Piece {
    p.(x := p.x + dx, y := p.y + dy)
  }

  /** Testing a displacement is testing the displaced piece in place. */
  lemma ShiftedCollides(b: Board, p: Piece, dx: int, dy: int)
    requires WellFormedBoard(b) && SquareShape(p.shape)
    ensures Collides(b, p, dx, dy) == Collides(b, Shifted(p, dx, dy), 0, 0)
  {
    var q := Shifted(p, dx, dy);
    forall i, j | 0 <= i < |p.shape| && 0 <= j < |p.shape|
      ensures Blocked(b, p, i, j, dx, dy) == Blocked(b, q, i, j, 0, 0)
    {
    }
  }

  /** A piece that can still move down lies above the floor. */
  lemma AboveFloor(b: Board, p: Piece)
    requires WellFormedBoard(b) && WellFormedShape(p.shape)
    requires !Collides(b, p, 0, 1)
    ensures p.y + 1 < ROWS
  {
    var c :| c in Cells(p.shape);
    assert p.shape[c.0][c.1] != 0;
    assert !Blocked(b, p, c.0, c.1, 0, 1);
  }

  /** Board cell (r, c) lies under an occupied cell of p. */
  predicate Covers(p: Piece, r: int, c: int)
    requires SquareShape(p.shape)
  {
    0 <= r - p.y < |p.shape| && 0 <= c - p.x < |p.shape| && p.shape[r - p.y][c - p.x] != 0
  }

  /** Every occupied cell of p that is not above the top row is on the board:
      what writing the piece into the board needs. */
  predicate OnBoard(p: Piece)
    requires SquareShape(p.shape)
  {
    forall i, j :: 0 <= i < |p.shape| && 0 <= j < |p.shape| && p.shape[i][j] != 0 && p.y + i >= 0 ==>
      p.y + i < ROWS && 0 <= p.x + j < COLS
  }

  /** The board after locking p: the cells under its occupied cells hold its
      colour id, every other cell is as before. */
  function Placed(b: Board, p: Piece): (r: Board)
    requires WellFormedBoard(b) && WellFormedPiece(p)
    ensures WellFormedBoard(r)
    ensures forall row, col :: 0 <= row < ROWS && 0 <= col < COLS ==>
      r[row][col] == if Covers(p, row, col) then p.kind else b[row][col]
  {
    seq(ROWS, row requires 0 <= row < ROWS =>
      seq(COLS, col requires 0 <= col < COLS =>
        if Covers(p, row, col) then p.kind else b[row][col]))
  }

  /** A piece that does not collide has every occupied cell that is not
      above the top row on the board. */
  lemma FitsOnBoard(b: Board, p: Piece)
    requires WellFormedBoard(b) && WellFormedPiece(p)
    requires !Collides(b, p, 0, 0)
    ensures OnBoard(p)
  {
    forall i, j | 0 <= i < |p.shape| && 0 <= j < |p.shape| && p.shape[i][j] != 0
      ensures !Blocked(b, p, i, j, 0, 0)
    {
    }
  }

  /** Locking a piece that does not collide writes only inside the board and
      only onto empty cells: every occupied cell at a row >= 0 becomes the
      piece's colour, and the cells it covers were empty before. */
  lemma PlacedFits(b: Board, p: Piece)
    requires WellFormedBoard(b) && WellFormedPiece(p)
    requires !Collides(b, p, 0, 0)
    ensures OnBoard(p)
    ensures forall i, j :: 0 <= i < |p.shape| && 0 <= j < |p.shape| && p.shape[i][j] != 0 && p.y + i >= 0 ==>
      b[p.y + i][p.x + j] == 0 && Placed(b, p)[p.y + i][p.x + j] == p.kind
  {
    forall i, j | 0 <= i < |p.shape| && 0 <= j < |p.shape| && p.shape[i][j] != 0
      ensures !Blocked(b, p, i, j, 0, 0)
    {
    }
    forall i, j | 0 <= i < |p.shape| && 0 <= j < |p.shape| && p.shape[i][j] != 0 && p.y + i >= 0
      ensures Covers(p, p.y + i, p.x + j)
    {
      assert p.y + i - p.y == i && p.x + j - p.x == j;
    }
  }

  /** On a board with no full row, locking an N x N piece leaves at most N
      full rows: only rows the piece touches can have filled up. */
  lemma PlacedFullRows(b: Board, p: Piece)
    requires WellFormedBoard(b) && WellFormedPiece(p)
    requires NoFullRow(b)
    ensures FullRowCount(Placed(b, p)) <= |p.shape|
  {
    var placed := Placed(b, p);
    forall r | 0 <= r < |placed| && Full(placed[r])
      ensures p.y <= r < p.y + |p.shape|
    {
    }
    FullRowsWithin(placed, p.y, p.y + |p.shape|);
  }

  /** What locking p onto b needs: both well formed, and p fits. */
  predicate Placeable(b: Board, p: Piece) {
    WellFormedBoard(b) && WellFormedPiece(p) && !Collides(b, p, 0, 0)
  }

  /** Whether the placement loop, having reached shape position (y, x) in
      row-major order, has already written board cell (r, c). */
  predicate WrittenBefore(p: Piece, y: int, x: int, r: int, c: int)
    requires SquareShape(p.shape)
  {
    Covers(p, r, c) && (r - p.y < y || (r - p.y == y && c - p.x < x))
  }

  /** The board while the placement loop runs, at shape position (y, x). */
  ghost function PartlyPlaced(b: Board, p: Piece, y: int, x: int): (r: Board)
    requires Placeable(b, p)
    ensures |r| == ROWS && forall row :: 0 <= row < ROWS ==> |r[row]| == COLS
  {
    seq(ROWS, row requires 0 <= row < ROWS =>
      seq(COLS, col requires 0 <= col < COLS =>
        if WrittenBefore(p, y, x, row, col) then p.kind else b[row][col]))
  }

  /** Nothing is written before the loop starts. */
  lemma PartlyPlacedStart(b: Board, p: Piece)
    requires Placeable(b, p)
    ensures PartlyPlaced(b, p, 0, 0) == b
  {
    var r := PartlyPlaced(b, p, 0, 0);
    forall row | 0 <= row < ROWS ensures r[row] == b[row] {
    }
  }

  /** One step of the inner loop at an occupied cell on the board: that
      board cell receives the colour id. */
  lemma PartlyPlacedWrite(b: Board, p: Piece, y: int, x: int)
    requires Placeable(b, p)
    requires 0 <= y < |p.shape| && 0 <= x < |p.shape| && p.shape[y][x] != 0 && p.y + y >= 0
    ensures p.y + y < ROWS && 0 <= p.x + x < COLS
    ensures var before := PartlyPlaced(b, p, y, x);
      PartlyPlaced(b, p, y, x + 1) == before[p.y + y := before[p.y + y][p.x + x := p.kind]]
  {
    FitsOnBoard(b, p);
    var before := PartlyPlaced(b, p, y, x);
    var after := PartlyPlaced(b, p, y, x + 1);
    var expected := before[p.y + y := before[p.y + y][p.x + x := p.kind]];
    forall row | 0 <= row < ROWS ensures after[row] == expected[row] {
      forall col | 0 <= col < COLS ensures after[row][col] == expected[row][col] {
        if row - p.y == y && col - p.x == x {
          assert p.shape[row - p.y][col - p.x] == p.shape[y][x];
        }
      }
    }
  }

  /** One step of the inner loop at an empty cell or above the top row:
      nothing is written. */
  lemma PartlyPlacedSkip(b: Board, p: Piece, y: int, x: int)
    requires Placeable(b, p)
    requires 0 <= y < |p.shape| && 0 <= x < |p.shape| && (p.shape[y][x] == 0 || p.y + y < 0)
    ensures PartlyPlaced(b, p, y, x + 1) == PartlyPlaced(b, p, y, x)
  {
    var before := PartlyPlaced(b, p, y, x);
    var after := PartlyPlaced(b, p, y, x + 1);
    forall row | 0 <= row < ROWS ensures after[row] == before[row] {
      forall col | 0 <= col < COLS ensures after[row][col] == before[row][col] {
        if row - p.y == y && col - p.x == x {
          assert p.shape[row - p.y][col - p.x] == p.shape[y][x];
        }
      }
    }
  }

  /** The end of one shape row is the start of the next. */
  lemma PartlyPlacedRow(b: Board, p: Piece, y: int)
    requires Placeable(b, p)
    ensures PartlyPlaced(b, p, y, |p.shape|) == PartlyPlaced(b, p, y + 1, 0)
  {
    var r1 := PartlyPlaced(b, p, y, |p.shape|);
    var r2 := PartlyPlaced(b, p, y + 1, 0);
    forall row | 0 <= row < ROWS ensures r1[row] == r2[row] {
    }
  }

  /** After the last shape row the whole piece is written. */
  lemma PartlyPlacedDone(b: Board, p: Piece)
    requires Placeable(b, p)
    ensures PartlyPlaced(b, p, |p.shape|, 0) == Placed(b, p)
  {
    var r1 := PartlyPlaced(b, p, |p.shape|, 0);
    var r2 := Placed(b, p);
    forall row | 0 <= row < ROWS ensures r1[row] == r2[row] {
    }
  }

  /** A new piece fits on the empty board. */
  lemma SpawnFitsEmptyBoard(t: int)
    requires 0 <= t < |SHAPES|
    ensures !Collides(InitBoard(), CreatePiece(t), 0, 0)
  {
    var p := CreatePiece(t);
    forall i, j | 0 <= i < |p.shape| && 0 <= j < |p.shape|
      ensures !Blocked(InitBoard(), p, i, j, 0, 0)
    {
    }
  }

  /** The wall-kick candidates, in the order they are tried: in place, one
      column left, one column right, one row up. */
  const KICKS: seq<(int, int)> := [(0, 0), (-1, 0), (1, 0), (0, -1)]

  /** The index of the first candidate displacement at which q fits, or
      |kicks| when it fits at none. */
  function FirstFree(b: Board, q: Piece, kicks: seq<(int, int)>): (k: nat)
    requires WellFormedBoard(b) && SquareShape(q.shape)
    ensures k <= |kicks|
    ensures forall m :: 0 <= m < k ==> Collides(b, q, kicks[m].0, kicks[m].1)
    ensures k < |kicks| ==> !Collides(b, q, kicks[k].0, kicks[k].1)
  {
    if kicks == [] then 0
    else if !Collides(b, q, kicks[0].0, kicks[0].1) then 0
    else 1 + FirstFree(b, q, kicks[1..])
  }

  /** The piece with its shape turned clockwise, at the same position. */
  function Rotated(p: Piece): (q: Piece)
    requires SquareShape(p.shape)
    ensures SquareShape(q.shape) && q.x == p.x && q.y == p.y && q.kind == p.kind
  {
    p.(shape := RotateShape(p.shape))
  }

  /** Rotation with wall kick: the turned piece at the first candidate
      displacement where it fits, or the original piece when it fits at
      none. Either way the colour is kept, and a piece that fitted still
      fits. */
  function RotateWithKick(b: Board, p: Piece): (r: Piece)
    requires WellFormedBoard(b) && WellFormedPiece(p)
    ensures WellFormedPiece(r) && r.kind == p.kind
    ensures var q := Rotated(p); var k := FirstFree(b, q, KICKS);
      if k < |KICKS| then r == Shifted(q, KICKS[k].0, KICKS[k].1) && !Collides(b, r, 0, 0)
      else r == p
    ensures !Collides(b, p, 0, 0) ==> !Collides(b, r, 0, 0)
  {
    var q := Rotated(p);
    RotatePreservesCells(p.shape);
    var k := FirstFree(b, q, KICKS);
    if k < |KICKS| then
      ShiftedCollides(b, q, KICKS[k].0, KICKS[k].1);
      Shifted(q, KICKS[k].0, KICKS[k].1)
    else p
  }

  /** `rotatePiece(piece)`: the cascade of collision tests of the source. */
  method RotatePiece(board: Board, piece: Piece) returns (r: Piece)
    requires WellFormedBoard(board) && WellFormedPiece(piece)
    ensures r == RotateWithKick(board, piece)
  {
    var rotated := RotateShape(piece.shape);
    var rotatedPiece := piece.(shape := rotated);
    ghost var q := rotatedPiece;
    assert q == Rotated(piece);
    assert KICKS[0] == (0, 0) && KICKS[1] == (-1, 0) && KICKS[2] == (1, 0) && KICKS[3] == (0, -1);
    var hit := Collide(board, rotatedPiece, 0, 0);
    assert Shifted(q, 0, 0) == q;
    ShiftedCollides(board, q, 0, 0);
    if hit {
      rotatedPiece := rotatedPiece.(x := rotatedPiece.x - 1);
      assert rotatedPiece == Shifted(q, -1, 0);
      ShiftedCollides(board, q, -1, 0);
      hit := Collide(board, rotatedPiece, 0, 0);
      if !hit {
        return rotatedPiece;
      }
      rotatedPiece := rotatedPiece.(x := rotatedPiece.x + 2);
      assert rotatedPiece == Shifted(q, 1, 0);
      ShiftedCollides(board, q, 1, 0);
      hit := Collide(board, rotatedPiece, 0, 0);
      if !hit {
        return rotatedPiece;
      }
      rotatedPiece := rotatedPiece.(x := rotatedPiece.x - 1);
      rotatedPiece := rotatedPiece.(y := rotatedPiece.y - 1);
      assert rotatedPiece == Shifted(q, 0, -1);
      ShiftedCollides(board, q, 0, -1);
      hit := Collide(board, rotatedPiece, 0, 0);
      if !hit {
        return rotatedPiece;
      }
      return piece;
    }
    return rotatedPiece;
  }

  /** The number of single-row moves down p can make before the next one
      collides. DropLands shows that the move after them is blocked and
      that a piece that fitted still fits where it stops; DropPath shows
      that each of those moves is free. */
  function DropDistance(b: Board, p: Piece): (d: nat)
    requires WellFormedBoard(b) && WellFormedPiece(p)
    decreases ROWS - p.y
  {
    if Collides(b, p, 0, 1) then 0
    else
      AboveFloor(b, p);
      1 + DropDistance(b, Shifted(p, 0, 1))
  }

  /** After the drop distance the piece cannot move one row further down,
      and if it fitted where it started it fits where it stops. */
  lemma {:induction false} DropLands(b: Board, p: Piece)
    requires WellFormedBoard(b) && WellFormedPiece(p)
    ensures Collides(b, Shifted(p, 0, DropDistance(b, p)), 0, 1)
    ensures !Collides(b, p, 0, 0) ==> !Collides(b, Shifted(p, 0, DropDistance(b, p)), 0, 0)
    decreases ROWS - p.y
  {
    if Collides(b, p, 0, 1) {
      assert Shifted(p, 0, 0) == p;
    } else {
      AboveFloor(b, p);
      ShiftedCollides(b, p, 0, 1);
      var below := Shifted(p, 0, 1);
      DropLands(b, below);
      ShiftTwice(p, 1, DropDistance(b, below));
    }
  }

  lemma ShiftTwice(p: Piece, a: int, c: int)
    ensures Shifted(Shifted(p, 0, a), 0, c) == Shifted(p, 0, a + c)
  {
  }

  /** Every row on the way down is free: at each of the first d offsets the
      piece can still move one row down. */
  lemma {:induction false} DropPath(b: Board, p: Piece, k: int)
    requires WellFormedBoard(b) && WellFormedPiece(p)
    requires 0 <= k < DropDistance(b, p)
    ensures !Collides(b, Shifted(p, 0, k), 0, 1)
    decreases k
  {
    assert !Collides(b, p, 0, 1);
    var below := Shifted(p, 0, 1);
    if k == 0 {
      assert Shifted(p, 0, 0) == p;
    } else {
      assert k - 1 < DropDistance(b, below);
      DropPath(b, below, k - 1);
      assert Shifted(below, 0, k - 1) == Shifted(p, 0, k);
    }
  }

  /** A piece that can fall one row has exactly one row less to fall from
      there; a piece that cannot has none. */
  lemma DropStep(b: Board, p: Piece)
    requires WellFormedBoard(b) && WellFormedPiece(p)
    ensures !Collides(b, p, 0, 1) ==> DropDistance(b, p) == DropDistance(b, Shifted(p, 0, 1)) + 1
    ensures Collides(b, p, 0, 1) ==> DropDistance(b, p) == 0
  {
  }

  /** The loop of a hard drop, one row further down: with d rows fallen
      and the next row free, d + 1 rows fallen leave one row less to go. */
  lemma DropAdvance(b: Board, start: Piece, d: int)
    requires WellFormedBoard(b) && WellFormedPiece(start)
    requires d + DropDistance(b, Shifted(start, 0, d)) == DropDistance(b, start)
    requires !Collides(b, Shifted(start, 0, d), 0, 1)
    ensures DropDistance(b, Shifted(start, 0, d + 1)) < DropDistance(b, Shifted(start, 0, d))
    ensures d + 1 + DropDistance(b, Shifted(start, 0, d + 1)) == DropDistance(b, start)
    ensures Shifted(Shifted(start, 0, d), 0, 1) == Shifted(start, 0, d + 1)
  {
    var here := Shifted(start, 0, d);
    DropStep(b, here);
    assert Shifted(here, 0, 1) == Shifted(start, 0, d + 1);
  }

  /** The loop of a hard drop stops where the next row is blocked, after
      exactly the drop distance. */
  lemma DropStop(b: Board, start: Piece, d: int)
    requires WellFormedBoard(b) && WellFormedPiece(start)
    requires d + DropDistance(b, Shifted(start, 0, d)) == DropDistance(b, start)
    requires Collides(b, Shifted(start, 0, d), 0, 1)
    ensures d == DropDistance(b, start)
  {
    DropStep(b, Shifted(start, 0, d));
  }

  /** Where a hard drop leaves the piece: straight below it, resting on
      the floor or a block, and still clear of the board if it started
      clear. */
  function Landed(b: Board, p: Piece): (q: Piece)
    requires WellFormedBoard(b) && WellFormedPiece(p)
    ensures WellFormedPiece(q) && q.shape == p.shape && q.kind == p.kind && q.x == p.x
    ensures q.y == p.y + DropDistance(b, p)
    ensures Collides(b, q, 0, 1)
    ensures !Collides(b, p, 0, 0) ==> !Collides(b, q, 0, 0)
  {
    DropLands(b, p);
    Shifted(p, 0, DropDistance(b, p))
  }
}
