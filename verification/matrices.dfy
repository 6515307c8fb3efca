/** Occupancy matrices of the falling pieces: a sequence of rows in which a
    non-zero entry marks an occupied cell, and the naive quarter turn the
    game applies to them. */
module Matrices {

  type Matrix = seq<seq<int>>

  /** At least one row and one column, every row as long as the first. */
  predicate Rect(m: Matrix) {
    |m| > 0 && |m[0]| > 0 && forall i :: 0 <= i < |m| ==> |m[i]| == |m[0]|
  }

  predicate Occupied(m: Matrix, i: int, j: int) {
    0 <= i < |m| && 0 <= j < |m[i]| && m[i][j] != 0
  }

  /** The occupied cells of a matrix, as (row, column) pairs. */
  function Cells(m: Matrix): set<(int, int)> {
    set i, j | 0 <= i < |m| && 0 <= j < |m[i]| && m[i][j] != 0 :: (i, j)
  }

  /** A shape the engine can hold: rectangular, at most four rows and four
      columns, and at least one occupied cell. */
  predicate ShapeWf(m: Matrix) {
    Rect(m) && |m| <= 4 && |m[0]| <= 4 && |Cells(m)| > 0
  }

  /** Transpose, then reverse the row order: row `i` of the result is column
      `i` of `m` read from the bottom up, a clockwise quarter turn about the
      matrix's own corner. */
  function Rotate(m: Matrix): (r: Matrix)
    requires Rect(m)
    ensures Rect(r) && |r| == |m[0]| && |r[0]| == |m|
    ensures forall i, j :: 0 <= i < |r| && 0 <= j < |r[i]| ==> r[i][j] == m[|m| - 1 - j][i]
  {
    seq(|m[0]|, i requires 0 <= i < |m[0]| => seq(|m|, j requires 0 <= j < |m| => m[|m| - 1 - j][i]))
  }

  /** Two quarter turns are a half turn. */
  lemma RotateTwice(m: Matrix)
    requires Rect(m)
    ensures Rect(Rotate(Rotate(m)))
    ensures |Rotate(Rotate(m))| == |m| && |Rotate(Rotate(m))[0]| == |m[0]|
    ensures forall i, j :: 0 <= i < |m| && 0 <= j < |m[0]| ==>
      Rotate(Rotate(m))[i][j] == m[|m| - 1 - i][|m[0]| - 1 - j]
  {
  }

  /** Rotation is a four-cycle: four quarter turns give back the matrix. */
  lemma RotateFourTimes(m: Matrix)
    requires Rect(m)
    ensures Rotate(Rotate(Rotate(Rotate(m)))) == m
  {
    var half := Rotate(Rotate(m));
    RotateTwice(m);
    RotateTwice(half);
    var full := Rotate(Rotate(half));
    assert |full| == |m|;
    forall i | 0 <= i < |m|
      ensures full[i] == m[i]
    {
      assert |full[i]| == |m[i]|;
      forall j | 0 <= j < |m[i]|
        ensures full[i][j] == m[i][j]
      {
        assert full[i][j] == half[|m| - 1 - i][|m[0]| - 1 - j];
      }
    }
  }

  /** Where a cell of an `h`-row matrix goes under a quarter turn. */
  function Turn(h: int, c: (int, int)): (int, int) {
    (c.1, h - 1 - c.0)
  }

  function TurnAll(h: int, s: set<(int, int)>): set<(int, int)> {
    set c | c in s :: Turn(h, c)
  }

  /** The occupied cells of the rotated matrix are the turned cells of the
      original. */
  lemma RotateCells(m: Matrix)
    requires Rect(m)
    ensures Cells(Rotate(m)) == TurnAll(|m|, Cells(m))
  {
    var r := Rotate(m);
    forall c | c in Cells(r)
      ensures c in TurnAll(|m|, Cells(m))
    {
      var src := (|m| - 1 - c.1, c.0);
      assert src in Cells(m);
      assert Turn(|m|, src) == c;
    }
    forall c | c in TurnAll(|m|, Cells(m))
      ensures c in Cells(r)
    {
      var src :| src in Cells(m) && Turn(|m|, src) == c;
      assert r[c.0][c.1] == m[src.0][src.1];
    }
  }

  /** Turning is one-to-one, so it keeps the number of cells. */
  lemma {:induction false} TurnAllKeepsSize(h: int, s: set<(int, int)>)
    ensures |TurnAll(h, s)| == |s|
    decreases s
  {
    if s != {} {
      var c :| c in s;
      var rest := s - {c};
      TurnAllKeepsSize(h, rest);
      assert TurnAll(h, s) == TurnAll(h, rest) + {Turn(h, c)};
      assert Turn(h, c) !in TurnAll(h, rest);
    }
  }

  /** A rotation neither creates nor destroys occupied cells. */
  lemma RotateKeepsCellCount(m: Matrix)
    requires Rect(m)
    ensures |Cells(Rotate(m))| == |Cells(m)|
  {
    RotateCells(m);
    TurnAllKeepsSize(|m|, Cells(m));
  }

  /** Rotating a shape the engine can hold gives another one. */
  lemma RotateKeepsShapeWf(m: Matrix)
    requires ShapeWf(m)
    ensures ShapeWf(Rotate(m))
  {
    RotateKeepsCellCount(m);
  }

  /** The shape after `t` quarter turns. */
  function Turned(m: Matrix, t: nat): (r: Matrix)
    requires ShapeWf(m)
    ensures ShapeWf(r)
    decreases t
  {
    if t == 0 then m
    else
      RotateKeepsShapeWf(Turned(m, t - 1));
      Rotate(Turned(m, t - 1))
  }
}
