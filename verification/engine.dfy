/** The game engine: one board, one active piece, a score and a game-over
    flag, with the player's commands as pure state transitions. The random
    choice of the next shape is a parameter `next`, the index into the
    shape table that the random choice would have returned. */
module Engine {
  import opened Board
  import opened Matrices
  import opened Tetrominoes
  import opened Pieces
  import opened LineClear

  datatype Game = Game(grid: Grid, piece: Piece, score: nat, gameOver: bool)

  /** What a move reports: the new state, and whether the piece moved. */
  datatype Outcome = Outcome(game: Game, moved: bool)

  /** The engine's invariant: a 20 by 10 board without full rows (every
      full row is cleared as soon as it appears), and an active piece of a
      shape the engine can hold, with a settled colour, whose cells lie
      within the board's columns and above its floor. */
  ghost predicate Valid(g: Game) {
    && Shaped(g.grid)
    && NoFullRow(g.grid)
    && ShapeWf(g.piece.shape)
    && g.piece.color != 0
    && Fits(g.piece)
  }

  /** Spawning shape `k`: the new piece replaces the active one, and the
      game is over when it already collides where it appears. The flag is
      only ever raised, never lowered. */
  function NewPiece(g: Game, k: nat): (r: Game)
    requires Shaped(g.grid) && NoFullRow(g.grid) && k < Kinds
    ensures Valid(r)
    ensures r.grid == g.grid && r.score == g.score
    ensures r.piece == Spawn(k)
    ensures r.gameOver <==> g.gameOver || Collides(g.grid, Spawn(k))
  {
    var p := Spawn(k);
    g.(piece := p, gameOver := g.gameOver || Collides(g.grid, p))
  }

  /** A new game: an empty board, score 0, and a first piece of shape `k`. */
  function Init(k: nat): (r: Game)
    requires k < Kinds
    ensures Valid(r)
    ensures r.grid == EmptyGrid() && r.score == 0
    ensures r.piece == Spawn(k)
    ensures !r.gameOver
  {
    SpawnFreeOnEmptyGrid(k);
    NewPiece(Game(EmptyGrid(), Spawn(k), 0, false), k)
  }

  /** A blocked downward step: the piece is frozen into the board where it
      stands, full rows are cleared and paid for, and shape `next` spawns. */
  function Settle(g: Game, next: nat): (r: Game)
    requires Valid(g) && next < Kinds
    ensures Valid(r)
    ensures FullCount(Freeze(g.grid, g.piece)) <= |g.piece.shape| <= 4
    ensures r.grid == Cleared(Freeze(g.grid, g.piece))
    ensures r.score == g.score + LineScore(FullCount(Freeze(g.grid, g.piece)))
    ensures r.piece == Spawn(next)
    ensures r.gameOver <==> g.gameOver || Collides(Cleared(Freeze(g.grid, g.piece)), Spawn(next))
  {
    var frozen := Freeze(g.grid, g.piece);
    FreezeFillsFewRows(g.grid, g.piece);
    var n := FullCount(frozen);
    NewPiece(g.(grid := Cleared(frozen), score := g.score + LineScore(n)), next)
  }

  /** Tries to move the piece by (`dx`, `dy`). A collision-free target is
      taken and reported as a move. Otherwise the piece stays where it was;
      if the step was downward the piece is settled and the next one
      spawns. The game-over flag is not consulted. */
  function Move(g: Game, dx: int, dy: int, next: nat): (r: Outcome)
    requires Valid(g) && next < Kinds
    ensures Valid(r.game)
    ensures r.moved <==> !Collides(g.grid, Shift(g.piece, dx, dy))
    ensures r.moved ==> r.game == g.(piece := Shift(g.piece, dx, dy))
    ensures !r.moved && dy <= 0 ==> r.game == g
    ensures !r.moved && dy > 0 ==> r.game == Settle(g, next)
    ensures r.game.score >= g.score
    ensures g.gameOver ==> r.game.gameOver
  {
    var target := Shift(g.piece, dx, dy);
    if !Collides(g.grid, target) then
      FreeFits(g.grid, target);
      Outcome(g.(piece := target), true)
    else if dy > 0 then
      Outcome(Settle(g, next), false)
    else
      Outcome(g, false)
  }

  /** Turns the piece a quarter turn in place, unless the turned piece would
      collide, in which case the old shape is kept exactly. Position and
      colour never change. */
  function RotatePiece(g: Game): (r: Game)
    requires Valid(g)
    ensures Valid(r)
    ensures r.grid == g.grid && r.score == g.score && r.gameOver == g.gameOver
    ensures r.piece.x == g.piece.x && r.piece.y == g.piece.y && r.piece.color == g.piece.color
    ensures !Collides(g.grid, g.piece.(shape := Rotate(g.piece.shape))) ==> r.piece.shape == Rotate(g.piece.shape)
    ensures Collides(g.grid, g.piece.(shape := Rotate(g.piece.shape))) ==> r == g
    ensures |Cells(r.piece.shape)| == |Cells(g.piece.shape)|
  {
    var turned := g.piece.(shape := Rotate(g.piece.shape));
    RotateKeepsShapeWf(g.piece.shape);
    RotateKeepsCellCount(g.piece.shape);
    if Collides(g.grid, turned) then
      g
    else
      FreeFits(g.grid, turned);
      g.(piece := turned)
  }

  /** The active piece always has a cell on the board's rows, so its anchor
      is above the floor. */
  lemma AnchorAboveFloor(g: Game)
    requires Valid(g)
    ensures g.piece.y < Height
  {
    var m := g.piece.shape;
    var c :| c in Cells(m);
    assert Occupied(m, c.0, c.1);
  }

  /** The piece dropped `d` rows below where it stands in `g`. */
  function Dropped(g: Game, d: nat): (r: Game)
    ensures r.grid == g.grid && r.score == g.score && r.gameOver == g.gameOver
    ensures r.piece.shape == g.piece.shape && r.piece.x == g.piece.x && r.piece.y == g.piece.y + d
  {
    g.(piece := Shift(g.piece, 0, d))
  }

  /** One successful step of a hard drop lowers the piece by one row. */
  lemma DropStep(g: Game, d: nat, next: nat)
    requires Valid(Dropped(g, d)) && next < Kinds
    requires Move(Dropped(g, d), 0, 1, next).moved
    ensures Move(Dropped(g, d), 0, 1, next).game == Dropped(g, d + 1)
    ensures Valid(Dropped(g, d + 1))
    ensures !Collides(g.grid, Shift(g.piece, 0, d + 1))
    ensures g.piece.y + d < Height
  {
    AnchorAboveFloor(Dropped(g, d));
    assert Shift(Dropped(g, d).piece, 0, 1) == Shift(g.piece, 0, d + 1);
  }

  /** Every position from one to `drop` rows below the piece is free. */
  ghost predicate PathFree(g: Game, drop: nat)
    requires Shaped(g.grid)
  {
    forall d :: 1 <= d <= drop ==> !Collides(g.grid, Shift(g.piece, 0, d))
  }

  lemma PathFreeExtend(g: Game, drop: nat)
    requires Shaped(g.grid) && PathFree(g, drop)
    requires !Collides(g.grid, Shift(g.piece, 0, drop + 1))
    ensures PathFree(g, drop + 1)
  {
  }

  /** Hard drop: moves the piece down one row at a time for as long as the
      move succeeds; the first blocked step settles it. */
  method HardDrop(g: Game, next: nat) returns (r: Game, drop: nat)
    requires Valid(g) && next < Kinds
    ensures Valid(r) && Valid(Dropped(g, drop))
    ensures PathFree(g, drop)
    ensures Collides(g.grid, Shift(g.piece, 0, drop + 1))
    ensures Valid(Dropped(g, drop)) && r == Settle(Dropped(g, drop), next)
  {
    drop := 0;
    assert Dropped(g, 0) == g;
    var step := Move(g, 0, 1, next);
    while step.moved
      invariant Valid(Dropped(g, drop))
      invariant step == Move(Dropped(g, drop), 0, 1, next)
      invariant PathFree(g, drop)
      decreases Height - (g.piece.y + drop)
    {
      DropStep(g, drop, next);
      PathFreeExtend(g, drop);
      drop := drop + 1;
      step := Move(Dropped(g, drop), 0, 1, next);
    }
    assert Shift(Dropped(g, drop).piece, 0, 1) == Shift(g.piece, 0, drop + 1);
    r := step.game;
  }

  /** A successful move undone by the opposite move gives back the state
      exactly, provided the piece was collision-free to begin with. */
  lemma MoveThenBack(g: Game, dx: int, dy: int, k: nat, k': nat)
    requires Valid(g) && k < Kinds && k' < Kinds
    requires !Collides(g.grid, g.piece)
    requires Move(g, dx, dy, k).moved
    ensures Move(Move(g, dx, dy, k).game, -dx, -dy, k') == Outcome(g, true)
  {
    var moved := Move(g, dx, dy, k).game;
    assert Shift(moved.piece, -dx, -dy) == g.piece;
  }

  /** A rotation whose turned position is free replaces the shape by the
      turned one and changes nothing else. */
  lemma RotateFree(g: Game)
    requires Valid(g)
    requires !Collides(g.grid, g.piece.(shape := Rotate(g.piece.shape)))
    ensures RotatePiece(g) == g.(piece := g.piece.(shape := Rotate(g.piece.shape)))
  {
  }

  /** Where none of the four turned positions collides, four rotations give
      back the state. */
  lemma RotateFourTimesIsIdentity(g: Game)
    requires Valid(g)
    requires forall t :: 1 <= t <= 4 ==> !Collides(g.grid, g.piece.(shape := Turned(g.piece.shape, t)))
    ensures RotatePiece(RotatePiece(RotatePiece(RotatePiece(g)))) == g
  {
    var m := g.piece.shape;
    var g1 := g.(piece := g.piece.(shape := Turned(m, 1)));
    var g2 := g.(piece := g.piece.(shape := Turned(m, 2)));
    var g3 := g.(piece := g.piece.(shape := Turned(m, 3)));
    var g4 := g.(piece := g.piece.(shape := Turned(m, 4)));
    assert !Collides(g.grid, g1.piece) && !Collides(g.grid, g2.piece);
    assert !Collides(g.grid, g3.piece) && !Collides(g.grid, g4.piece);
    RotateFree(g);
    assert RotatePiece(g) == g1;
    RotateFree(g1);
    assert RotatePiece(g1) == g2;
    RotateFree(g2);
    assert RotatePiece(g2) == g3;
    RotateFree(g3);
    assert RotatePiece(g3) == g4;
    RotateFourTimes(m);
    assert g4 == g;
  }

  /** `Valid`, and moreover the active piece is one of the seven shapes in
      one of its four orientations, with that shape's colour. */
  ghost predicate Holdable(g: Game) {
    Valid(g) && Tetromino(g.piece.shape, g.piece.color)
  }

  /** A new game starts with a holdable piece. */
  lemma InitHoldable(k: nat)
    requires k < Kinds
    ensures Holdable(Init(k))
  {
  }

  /** Moving keeps the piece holdable: a successful move keeps its shape
      and colour, and a settling move spawns a table shape. */
  lemma MoveKeepsHoldable(g: Game, dx: int, dy: int, next: nat)
    requires Holdable(g) && next < Kinds
    ensures Holdable(Move(g, dx, dy, next).game)
  {
  }

  /** Rotating keeps the piece holdable: the turned shape is the next
      orientation of the same table shape. */
  lemma RotateKeepsHoldable(g: Game)
    requires Holdable(g)
    ensures Holdable(RotatePiece(g))
  {
    RotateTetromino(g.piece.shape, g.piece.color);
  }
}
