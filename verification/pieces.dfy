/** The active piece on the board: collision detection, freezing the piece
    into the grid, and spawning a new one. */
module Pieces {
  import opened Board
  import opened Matrices
  import opened Tetrominoes

  /** A piece: its occupancy matrix, its colour, and the board position
      (column `x`, row `y`) of the matrix's top-left corner. */
  datatype Piece = Piece(shape: Matrix, color: int, x: int, y: int)

  /** The piece moved by `dx` columns and `dy` rows. */
  function Shift(p: Piece, dx: int, dy: int): (q: Piece)
    ensures q.shape == p.shape && q.color == p.color
    ensures q.x - p.x == dx && q.y - p.y == dy
  {
    p.(x := p.x + dx, y := p.y + dy)
  }

  /** Does the piece's matrix cell (`i`, `j`) cover board cell (`r`, `c`)? */
  predicate Covers(p: Piece, r: int, c: int) {
    Occupied(p.shape, r - p.y, c - p.x)
  }

  /** A cell at board position (`r`, `c`) is forbidden to a piece when it is
      left or right of the board, below the floor, or a settled cell. Rows
      above the top (negative `r`) are never looked up in the grid. */
  predicate Blocked(g: Grid, r: int, c: int)
    requires Shaped(g)
  {
    c < 0 || c >= Width || r >= Height || (r >= 0 && g[r][c] != 0)
  }

  /** The scan of matrix row `i` from column `j` on. */
  function RowCollides(g: Grid, p: Piece, i: nat, j: nat): (b: bool)
    requires Shaped(g) && i < |p.shape| && j <= |p.shape[i]|
    ensures b <==> exists k :: j <= k < |p.shape[i]| && p.shape[i][k] != 0 && Blocked(g, p.y + i, p.x + k)
    decreases |p.shape[i]| - j
  {
    if j == |p.shape[i]| then false
    else if p.shape[i][j] != 0 && Blocked(g, p.y + i, p.x + j) then true
    else RowCollides(g, p, i, j + 1)
  }

  /** The scan of the matrix rows from row `i` on. */
  function RowsCollide(g: Grid, p: Piece, i: nat): (b: bool)
    requires Shaped(g) && i <= |p.shape|
    ensures b <==> exists k, j :: i <= k < |p.shape| && 0 <= j < |p.shape[k]| && p.shape[k][j] != 0
                                  && Blocked(g, p.y + k, p.x + j)
    decreases |p.shape| - i
  {
    if i == |p.shape| then false
    else if RowCollides(g, p, i, 0) then true
    else RowsCollide(g, p, i + 1)
  }

  /** The piece collides when one of its occupied cells lands on a
      forbidden board cell. */
  function Collides(g: Grid, p: Piece): (b: bool)
    requires Shaped(g)
    ensures b <==> exists i, j :: Occupied(p.shape, i, j) && Blocked(g, p.y + i, p.x + j)
  {
    RowsCollideFromStart(g, p);
    RowsCollide(g, p, 0)
  }

  lemma RowsCollideFromStart(g: Grid, p: Piece)
    requires Shaped(g)
    ensures RowsCollide(g, p, 0) <==> exists i, j :: Occupied(p.shape, i, j) && Blocked(g, p.y + i, p.x + j)
  {
    if RowsCollide(g, p, 0) {
      var i, j :| 0 <= i < |p.shape| && 0 <= j < |p.shape[i]| && p.shape[i][j] != 0 && Blocked(g, p.y + i, p.x + j);
      assert Occupied(p.shape, i, j);
    }
  }

  /** Every occupied cell of the piece is within the board's columns and
      above its floor. */
  ghost predicate Fits(p: Piece) {
    forall i, j :: Occupied(p.shape, i, j) ==> 0 <= p.x + j < Width && p.y + i < Height
  }

  /** A piece in a collision-free position fits on the board. */
  lemma FreeFits(g: Grid, p: Piece)
    requires Shaped(g) && !Collides(g, p)
    ensures Fits(p)
  {
    forall i, j | Occupied(p.shape, i, j)
      ensures 0 <= p.x + j < Width && p.y + i < Height
    {
      assert !Blocked(g, p.y + i, p.x + j);
    }
  }

  predicate OnBoard(r: int, c: int) {
    0 <= r < Height && 0 <= c < Width
  }

  /** Writes the piece's colour into the occupied cells of matrix row `i`
      from column `j` on. A cell above the top of the board is skipped. */
  function FreezeCells(g: Grid, p: Piece, i: nat, j: nat): (g': Grid)
    requires Shaped(g) && i < |p.shape| && j <= |p.shape[i]|
    ensures Shaped(g')
    ensures forall r, c :: OnBoard(r, c) ==>
      g'[r][c] == (if r == p.y + i && j <= c - p.x < |p.shape[i]| && p.shape[i][c - p.x] != 0
                   then p.color else g[r][c])
    decreases |p.shape[i]| - j
  {
    if j == |p.shape[i]| then g
    else
      var r, c := p.y + i, p.x + j;
      var g1 := if p.shape[i][j] != 0 && OnBoard(r, c) then g[r := g[r][c := p.color]] else g;
      FreezeCells(g1, p, i, j + 1)
  }

  /** Writes the piece's colour into the occupied cells of the matrix rows
      from row `i` on. */
  function FreezeRows(g: Grid, p: Piece, i: nat): (g': Grid)
    requires Shaped(g) && i <= |p.shape|
    ensures Shaped(g')
    ensures forall r, c :: OnBoard(r, c) ==>
      g'[r][c] == (if i <= r - p.y && Covers(p, r, c) then p.color else g[r][c])
    decreases |p.shape| - i
  {
    if i == |p.shape| then g
    else FreezeRows(FreezeCells(g, p, i, 0), p, i + 1)
  }

  /** Freezing settles the piece: every board cell it covers takes its
      colour, every other cell keeps its content. */
  function Freeze(g: Grid, p: Piece): (g': Grid)
    requires Shaped(g)
    ensures Shaped(g')
    ensures forall r, c :: OnBoard(r, c) ==> g'[r][c] == (if Covers(p, r, c) then p.color else g[r][c])
  {
    FreezeRows(g, p, 0)
  }

  /** Rows the piece does not reach come through a freeze unchanged. */
  lemma FreezeKeepsOtherRows(g: Grid, p: Piece, r: nat)
    requires Shaped(g) && r < Height
    requires !(p.y <= r < p.y + |p.shape|)
    ensures Freeze(g, p)[r] == g[r]
  {
    var f := Freeze(g, p);
    forall c | 0 <= c < Width
      ensures f[r][c] == g[r][c]
    {
      assert OnBoard(r, c);
    }
  }

  /** Freezing onto a board without full rows can only fill rows that the
      piece covers, so at most as many rows as the piece is tall become full. */
  lemma FreezeFillsFewRows(g: Grid, p: Piece)
    requires Shaped(g) && NoFullRow(g)
    ensures FullCount(Freeze(g, p)) <= |p.shape|
  {
    var f := Freeze(g, p);
    forall r | 0 <= r < |f| && Full(f[r])
      ensures p.y <= r < p.y + |p.shape|
    {
      if !(p.y <= r < p.y + |p.shape|) {
        FreezeKeepsOtherRows(g, p, r);
      }
    }
    FullCountWithin(f, p.y, p.y + |p.shape|);
  }

  /** The piece the game spawns for shape `k`: horizontally centred by
      integer division (the middle column lies under its middle, rounding
      left), on the top row, coloured by looking the shape up in
      the shape table. */
  function Spawn(k: nat): (p: Piece)
    requires k < Kinds
    ensures p.shape == Shapes[k] && p.color == Colors[k]
    ensures p.y == 0 && p.x == Width / 2 - |p.shape[0]| / 2
    ensures Width <= 2 * p.x + |p.shape[0]| <= Width + 1
    ensures Fits(p)
    ensures ShapeWf(p.shape) && p.color != 0 && Tetromino(p.shape, p.color)
  {
    ShapesDistinct();
    ShapeIsTetromino(k);
    IndexOfShape(k);
    ShapesWf(k);
    var shape := Shapes[k];
    Piece(shape, Colors[IndexOf(Shapes, shape)], Width / 2 - |shape[0]| / 2, 0)
  }

  /** On an empty board every one of the seven spawns is collision-free. */
  lemma SpawnFreeOnEmptyGrid(k: nat)
    requires k < Kinds
    ensures !Collides(EmptyGrid(), Spawn(k))
  {
    var p := Spawn(k);
    forall i, j | Occupied(p.shape, i, j)
      ensures !Blocked(EmptyGrid(), p.y + i, p.x + j)
    {
    }
  }
}
