/** The piece catalog, live pieces and the 90-degree clockwise rotation of
    a shape matrix. */
module Pieces {
  import opened Grid

  /** A shape is a square matrix; a nonzero entry is an occupied cell. */
  type Shape = seq<seq<int>>

  /** The seven catalog shapes (I, O, T, S, Z, J, L); shape t is drawn
      with colour id t + 1. */
  const SHAPES: seq<Shape> := [
    [[0, 0, 0, 0],
     [1, 1, 1, 1],
     [0, 0, 0, 0],
     [0, 0, 0, 0]],
    [[2, 2],
     [2, 2]],
    [[0, 3, 0],
     [3, 3, 3],
     [0, 0, 0]],
    [[0, 4, 4],
     [4, 4, 0],
     [0, 0, 0]],
    [[5, 5, 0],
     [0, 5, 5],
     [0, 0, 0]],
    [[6, 0, 0],
     [6, 6, 6],
     [0, 0, 0]],
    [[0, 0, 7],
     [7, 7, 7],
     [0, 0, 0]]
  ]

  /** A live piece: its shape, the board position of the shape's top-left
      cell, and its colour id (the source's `type`). */
  datatype Piece = Piece(shape: Shape, x: int, y: int, kind: int)

  /** An N x N matrix with N between 1 and 4 (the catalog has 2, 3 and 4). */
  predicate SquareShape(s: Shape) {
    1 <= |s| <= 4 && forall i :: 0 <= i < |s| ==> |s[i]| == |s|
  }

  /** The occupied cells of a shape, as (row, column) pairs. */
  function Cells(s: Shape): set<(int, int)>
    requires SquareShape(s)
  {
    set i, j | 0 <= i < |s| && 0 <= j < |s| && s[i][j] != 0 :: (i, j)
  }

  predicate WellFormedShape(s: Shape) {
    SquareShape(s) && Cells(s) != {}
  }

  predicate WellFormedPiece(p: Piece) {
    WellFormedShape(p.shape) && 1 <= p.kind <= 7
  }

  lemma CatalogWellFormed(t: int)
    requires 0 <= t < |SHAPES|
    ensures WellFormedShape(SHAPES[t])
  {
    var s := SHAPES[t];
    if t == 0 { assert (1, 0) in Cells(s); }
    else if t == 1 { assert (0, 0) in Cells(s); }
    else { assert (1, 1) in Cells(s); }
  }

  /** `createPiece(type)`: catalog shape `t`, horizontally centred in the
      top row, with colour id t + 1. */
  function CreatePiece(t: int): (p: Piece)
    requires 0 <= t < |SHAPES|
    ensures WellFormedPiece(p) && p.shape == SHAPES[t] && p.kind == t + 1
    ensures p.y == 0 && p.x + |p.shape| / 2 == COLS / 2
    ensures 0 <= p.x && p.x + |p.shape| <= COLS
  {
    CatalogWellFormed(t);
    var shape := SHAPES[t];
    Piece(shape, COLS / 2 - |shape[0]| / 2, 0, t + 1)
  }

  /** `Array.prototype.reverse` on a copy. */
  function ReverseSeq(s: seq<int>): (r: seq<int>)
    ensures |r| == |s|
    ensures forall k :: 0 <= k < |s| ==> r[k] == s[|s| - 1 - k]
  {
    if s == [] then [] else ReverseSeq(s[1..]) + [s[0]]
  }

  /** Column i of a square shape, top to bottom (`shape.map(row => row[i])`). */
  function Column(s: Shape, i: int): (col: seq<int>)
    requires SquareShape(s) && 0 <= i < |s|
    ensures |col| == |s| && forall k :: 0 <= k < |s| ==> col[k] == s[k][i]
  {
    seq(|s|, k requires 0 <= k < |s| => s[k][i])
  }

  /** The clockwise rotation: row i of the result is column i read from
      the bottom up, so that r[i][j] == s[N - 1 - j][i]. */
  function RotateShape(s: Shape): (r: Shape)
    requires SquareShape(s)
    ensures SquareShape(r) && |r| == |s|
    ensures forall i, j :: 0 <= i < |s| && 0 <= j < |s| ==> r[i][j] == s[|s| - 1 - j][i]
  {
    seq(|s[0]|, i requires 0 <= i < |s| => ReverseSeq(Column(s, i)))
  }

  /** h is s turned by 180 degrees: cell (i, j) of h is cell
      (N - 1 - i, N - 1 - j) of s. */
  predicate HalfTurned(h: Shape, s: Shape) {
    && SquareShape(s) && SquareShape(h) && |h| == |s|
    && forall i, j :: 0 <= i < |s| && 0 <= j < |s| ==> h[i][j] == s[|s| - 1 - i][|s| - 1 - j]
  }

  /** Two quarter turns make a half turn. */
  lemma HalfTurn(s: Shape)
    requires SquareShape(s)
    ensures HalfTurned(RotateShape(RotateShape(s)), s)
  {
    var n := |s|;
    var r1 := RotateShape(s);
    var r2 := RotateShape(r1);
    assert SquareShape(r1) && |r1| == n;
    forall i, j | 0 <= i < n && 0 <= j < n ensures r2[i][j] == s[n - 1 - i][n - 1 - j] {
      var k := n - 1 - j;
      assert r2[i][j] == r1[k][i];
      assert r1[k][i] == s[n - 1 - i][k];
    }
  }

  /** Two half turns cancel. */
  lemma HalfTurnsCancel(s: Shape, h: Shape, f: Shape)
    requires HalfTurned(h, s) && HalfTurned(f, h)
    ensures f == s
  {
    var n := |s|;
    forall i | 0 <= i < n ensures f[i] == s[i] {
      forall j | 0 <= j < n ensures f[i][j] == s[i][j] {
        assert f[i][j] == h[n - 1 - i][n - 1 - j];
      }
    }
  }

  /** Four quarter turns give back the original shape. */
  lemma RotateFourTimes(s: Shape)
    requires SquareShape(s)
    ensures RotateShape(RotateShape(RotateShape(RotateShape(s)))) == s
  {
    var h := RotateShape(RotateShape(s));
    HalfTurn(s);
    HalfTurn(h);
    HalfTurnsCancel(s, h, RotateShape(RotateShape(h)));
  }

  /** Where the clockwise rotation of an N x N matrix sends cell (i, j). */
  function TurnCell(c: (int, int), n: int): (int, int) {
    (c.1, n - 1 - c.0)
  }

  /** The occupied cells of the rotated shape are the turned occupied cells. */
  lemma RotatedCells(s: Shape)
    requires SquareShape(s)
    ensures Cells(RotateShape(s)) == set c | c in Cells(s) :: TurnCell(c, |s|)
  {
    var n := |s|;
    var r := RotateShape(s);
    forall c | c in Cells(r) ensures c in set d | d in Cells(s) :: TurnCell(d, n) {
      var d := (n - 1 - c.1, c.0);
      assert d in Cells(s) && TurnCell(d, n) == c;
    }
    forall d | d in Cells(s) ensures TurnCell(d, n) in Cells(r) {
      assert r[d.1][n - 1 - d.0] == s[d.0][d.1];
    }
  }

  /** TurnCell is injective, so turning a set of cells keeps its size. */
  lemma {:induction false} TurnedCardinality(cells: set<(int, int)>, n: int)
    ensures |set c | c in cells :: TurnCell(c, n)| == |cells|
    decreases |cells|
  {
    if cells != {} {
      var c :| c in cells;
      var rest := cells - {c};
      TurnedCardinality(rest, n);
      var image := set d | d in rest :: TurnCell(d, n);
      assert (set d | d in cells :: TurnCell(d, n)) == image + {TurnCell(c, n)};
      assert TurnCell(c, n) !in image;
    }
  }

  /** Rotation keeps the number of occupied cells, hence well-formedness. */
  lemma RotatePreservesCells(s: Shape)
    requires SquareShape(s)
    ensures |Cells(RotateShape(s))| == |Cells(s)|
    ensures WellFormedShape(s) ==> WellFormedShape(RotateShape(s))
  {
    RotatedCells(s);
    TurnedCardinality(Cells(s), |s|);
  }
}
