/** The seven pieces (I, O, T, S, Z, J, L) and their colours. Colours are
    opaque non-zero tokens; the game only ever tests a cell for zero. */
module Tetrominoes {
  import opened Matrices

  const Cyan: int := 1
  const Yellow: int := 2
  const Purple: int := 3
  const Green: int := 4
  const Red: int := 5
  const Blue: int := 6
  const Orange: int := 7

  const Kinds: nat := 7

  const Shapes: seq<Matrix> := [
    [[1, 1, 1, 1]],
    [[1, 1], [1, 1]],
    [[0, 1, 0], [1, 1, 1]],
    [[0, 1, 1], [1, 1, 0]],
    [[1, 1, 0], [0, 1, 1]],
    [[1, 0, 0], [1, 1, 1]],
    [[0, 0, 1], [1, 1, 1]]
  ]

  const Colors: seq<int> := [Cyan, Yellow, Purple, Green, Red, Blue, Orange]

  /** Position of the first occurrence of `x` in `s`, as a list lookup by
      value finds it. */
  function IndexOf(s: seq<Matrix>, x: Matrix): (k: nat)
    requires x in s
    ensures k < |s| && s[k] == x
    ensures forall i :: 0 <= i < k ==> s[i] != x
  {
    if s[0] == x then 0 else 1 + IndexOf(s[1..], x)
  }

  /** No two of the seven shapes are equal. */
  lemma ShapesDistinct()
    ensures |Shapes| == Kinds && |Colors| == Kinds
    ensures forall i, j :: 0 <= i < j < Kinds ==> Shapes[i] != Shapes[j]
  {
    assert Shapes[2][0][2] != Shapes[3][0][2];
    assert Shapes[2][0][0] != Shapes[4][0][0];
    assert Shapes[2][0][0] != Shapes[5][0][0];
    assert Shapes[2][0][1] != Shapes[6][0][1];
    assert Shapes[3][0][0] != Shapes[4][0][0];
    assert Shapes[3][0][0] != Shapes[5][0][0];
    assert Shapes[3][1][2] != Shapes[6][1][2];
    assert Shapes[4][1][0] != Shapes[5][1][0];
    assert Shapes[4][0][0] != Shapes[6][0][0];
    assert Shapes[5][0][0] != Shapes[6][0][0];
  }

  /** Looking a chosen shape up by value gives back the index it was chosen
      at, because the shapes are distinct. */
  lemma IndexOfShape(k: nat)
    requires k < Kinds
    ensures IndexOf(Shapes, Shapes[k]) == k
  {
    ShapesDistinct();
  }

  /** Every shape is rectangular, at most 4 by 4, with an occupied cell, and
      every colour marks its cells as settled. */
  lemma ShapesWf(k: nat)
    requires k < Kinds
    ensures ShapeWf(Shapes[k]) && Colors[k] != 0
  {
    var m := Shapes[k];
    assert (|m| - 1, 1) in Cells(m);
  }

  /** Shape `k` after `t` quarter turns. */
  function Oriented(k: nat, t: nat): (m: Matrix)
    requires k < Kinds
    ensures ShapeWf(m)
  {
    ShapesWf(k);
    Turned(Shapes[k], t)
  }

  /** A shape and colour the engine can hold: one of the seven shapes in
      one of its four orientations, with that shape's colour. */
  ghost predicate Tetromino(m: Matrix, color: int) {
    exists k: nat, t: nat :: k < Kinds && t < 4 && m == Oriented(k, t) && color == Colors[k]
  }

  /** Every shape of the table, with its colour, is a tetromino. */
  lemma ShapeIsTetromino(k: nat)
    requires k < Kinds
    ensures Tetromino(Shapes[k], Colors[k])
  {
    assert Oriented(k, 0) == Shapes[k];
  }

  /** A quarter turn of a tetromino is a tetromino of the same colour: the
      fourth turn comes back to the table's own orientation. */
  lemma RotateTetromino(m: Matrix, color: int)
    requires Tetromino(m, color)
    ensures Rect(m) && Tetromino(Rotate(m), color)
  {
    var k: nat, t: nat :| k < Kinds && t < 4 && m == Oriented(k, t) && color == Colors[k];
    ShapesWf(k);
    var s := Shapes[k];
    if t < 3 {
      assert Rotate(m) == Oriented(k, t + 1);
    } else {
      assert Turned(s, 1) == Rotate(s);
      assert Turned(s, 2) == Rotate(Rotate(s));
      assert m == Rotate(Rotate(Rotate(s)));
      RotateFourTimes(s);
      assert Rotate(m) == Oriented(k, 0);
    }
  }
}
