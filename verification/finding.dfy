/** Freezing a piece that still reaches above the top row, exactly as the
    program writes it. The program indexes the grid with the piece's row
    `y + i` directly; a negative row is not rejected by the list lookup but
    counts back from the end, so the cell is written into a bottom row of
    the board. The rest of the model uses `Pieces.Freeze`, which leaves
    cells above the top unwritten. */
module FreezeFinding {
  import opened Board
  import opened Matrices
  import opened Tetrominoes
  import opened Pieces
  import opened Engine

  datatype Option<T> = None | Some(value: T)

  /** A list index resolved the way the program's lists resolve it: `-n` to
      `-1` count back from the end, anything else out of range is an index
      error (`None`). */
  function ListIndex(i: int, n: nat): (k: Option<nat>)
    ensures k.Some? <==> 0 <= i + n && i < n
    ensures k.Some? ==> k.value < n && (if i < 0 then k.value == i + n else k.value == i)
  {
    if 0 <= i < n then Some(i) else if 0 <= i + n && i < 0 then Some(i + n) else None
  }

  /** The program's write loop over matrix row `i` from column `j` on. */
  function FreezeCellsAsWritten(g: Grid, p: Piece, i: nat, j: nat): (r: Option<Grid>)
    requires Shaped(g) && i < |p.shape| && j <= |p.shape[i]|
    ensures r.Some? ==> Shaped(r.value)
    decreases |p.shape[i]| - j
  {
    if j == |p.shape[i]| then Some(g)
    else if p.shape[i][j] == 0 then FreezeCellsAsWritten(g, p, i, j + 1)
    else
      var row, col := ListIndex(p.y + i, Height), ListIndex(p.x + j, Width);
      if row.None? || col.None? then None
      else FreezeCellsAsWritten(g[row.value := g[row.value][col.value := p.color]], p, i, j + 1)
  }

  function FreezeRowsAsWritten(g: Grid, p: Piece, i: nat): (r: Option<Grid>)
    requires Shaped(g) && i <= |p.shape|
    ensures r.Some? ==> Shaped(r.value)
    decreases |p.shape| - i
  {
    if i == |p.shape| then Some(g)
    else
      match FreezeCellsAsWritten(g, p, i, 0)
      case None => None
      case Some(g1) => FreezeRowsAsWritten(g1, p, i + 1)
  }

  /** The program's freeze; `None` stands for the index error it raises
      when a cell is more than a board height above the top. */
  function FreezeAsWritten(g: Grid, p: Piece): (r: Option<Grid>)
    requires Shaped(g)
    ensures r.Some? ==> Shaped(r.value)
  {
    FreezeRowsAsWritten(g, p, 0)
  }

  lemma {:induction false} CellsAgreeOnBoard(g: Grid, p: Piece, i: nat, j: nat)
    requires Shaped(g) && i < |p.shape| && j <= |p.shape[i]|
    requires forall k :: j <= k < |p.shape[i]| && p.shape[i][k] != 0 ==> OnBoard(p.y + i, p.x + k)
    ensures FreezeCellsAsWritten(g, p, i, j) == Some(FreezeCells(g, p, i, j))
    decreases |p.shape[i]| - j
  {
    if j < |p.shape[i]| {
      var r, c := p.y + i, p.x + j;
      var g1 := if p.shape[i][j] != 0 && OnBoard(r, c) then g[r := g[r][c := p.color]] else g;
      CellsAgreeOnBoard(g1, p, i, j + 1);
    }
  }

  lemma {:induction false} RowsAgreeOnBoard(g: Grid, p: Piece, i: nat)
    requires Shaped(g) && i <= |p.shape|
    requires forall k, j :: i <= k < |p.shape| && 0 <= j < |p.shape[k]| && p.shape[k][j] != 0 ==> OnBoard(p.y + k, p.x + j)
    ensures FreezeRowsAsWritten(g, p, i) == Some(FreezeRows(g, p, i))
    decreases |p.shape| - i
  {
    if i < |p.shape| {
      CellsAgreeOnBoard(g, p, i, 0);
      RowsAgreeOnBoard(FreezeCells(g, p, i, 0), p, i + 1);
    }
  }

  /** While every occupied cell of the piece is on the board, the program's
      freeze and the corrected one write the same grid. */
  lemma FreezeAgreesOnBoard(g: Grid, p: Piece)
    requires Shaped(g)
    requires forall i, j :: Occupied(p.shape, i, j) ==> OnBoard(p.y + i, p.x + j)
    ensures FreezeAsWritten(g, p) == Some(Freeze(g, p))
  {
    forall k, j | 0 <= k < |p.shape| && 0 <= j < |p.shape[k]| && p.shape[k][j] != 0
      ensures OnBoard(p.y + k, p.x + j)
    {
      assert Occupied(p.shape, k, j);
    }
    RowsAgreeOnBoard(g, p, 0);
  }

  /** A piece that fits the board's columns and does not reach above the
      top row is frozen the same way by both versions. */
  lemma FreezeAgreesBelowTop(g: Grid, p: Piece)
    requires Shaped(g) && Fits(p) && p.y >= 0
    ensures FreezeAsWritten(g, p) == Some(Freeze(g, p))
  {
    FreezeAgreesOnBoard(g, p);
  }

  /** The O piece with its top-left corner at column 6, one row above the
      top: the program writes its upper cells into the bottom row, which
      the piece does not cover, while the corrected freeze leaves that row
      alone. */
  lemma FreezeAsWrittenWrapsToBottom(g: Grid)
    requires Shaped(g)
    ensures var p := Piece(Shapes[1], Yellow, 6, -1);
      && FreezeAsWritten(g, p).Some?
      && FreezeAsWritten(g, p).value[Height - 1][6] == Yellow
      && Freeze(g, p)[Height - 1][6] == g[Height - 1][6]
  {
    var p := Piece(Shapes[1], Yellow, 6, -1);
    var g1 := g[Height - 1 := g[Height - 1][6 := Yellow]];
    var g2 := g1[Height - 1 := g1[Height - 1][7 := Yellow]];
    var g3 := g2[0 := g2[0][6 := Yellow]];
    var g4 := g3[0 := g3[0][7 := Yellow]];
    assert FreezeCellsAsWritten(g3, p, 1, 1) == Some(g4);
    assert FreezeCellsAsWritten(g2, p, 1, 0) == Some(g4);
    assert FreezeRowsAsWritten(g2, p, 1) == Some(g4);
    assert FreezeCellsAsWritten(g1, p, 0, 1) == Some(g2);
    assert FreezeCellsAsWritten(g, p, 0, 0) == Some(g2);
    assert FreezeAsWritten(g, p) == Some(g4);
    assert OnBoard(Height - 1, 6) && !Covers(p, Height - 1, 6);
  }

  /** The board of the example: one settled cell, at row 1, column 6. */
  function OneCellGrid(): (g: Grid)
    ensures Shaped(g) && NoFullRow(g)
    ensures forall r, c :: OnBoard(r, c) ==> (g[r][c] != 0 <==> r == 1 && c == 6)
  {
    EmptyRowNotFull();
    var g := EmptyGrid()[1 := EmptyRow()[6 := Cyan]];
    assert !Full(g[1]) by { assert g[1][0] == 0; }
    g
  }

  /** The situation is reachable through the engine's commands, though not
      through the game's key loop, which never moves a piece up. An O piece
      freshly spawned over that board moves up one row (`move(0, -1)`,
      called directly on the engine) and right two columns without
      colliding. The next downward step is blocked by the settled cell, so
      the piece is frozen with its top row above the board. */
  lemma WrapIsReachable(k: nat)
    requires k < Kinds
    ensures var g0 := Game(OneCellGrid(), Spawn(1), 0, false);
      && Valid(g0)
      && Move(g0, 0, -1, k).moved
      && Move(Move(g0, 0, -1, k).game, 2, 0, k).moved
      && var g2 := Move(Move(g0, 0, -1, k).game, 2, 0, k).game;
         && g2.piece == Piece(Shapes[1], Yellow, 6, -1)
         && !Move(g2, 0, 1, k).moved
         && Move(g2, 0, 1, k).game == Settle(g2, k)
  {
    var grid := OneCellGrid();
    var o := Shapes[1];
    var g0 := Game(grid, Spawn(1), 0, false);
    assert Spawn(1) == Piece(o, Yellow, 4, 0);
    forall i, j | Occupied(o, i, j)
      ensures !Blocked(grid, -1 + i, 4 + j) && !Blocked(grid, -1 + i, 6 + j)
    {
      assert 0 <= i < 2 && 0 <= j < 2;
    }
    var p1 := Piece(o, Yellow, 4, -1);
    assert Shift(Spawn(1), 0, -1) == p1;
    assert !Collides(grid, p1);
    var g1 := g0.(piece := p1);
    assert Move(g0, 0, -1, k) == Outcome(g1, true);
    var p2 := Piece(o, Yellow, 6, -1);
    assert Shift(p1, 2, 0) == p2;
    assert !Collides(grid, p2);
    var g2 := g0.(piece := p2);
    assert Move(g1, 2, 0, k) == Outcome(g2, true);
    assert Occupied(o, 1, 0) && Blocked(grid, 0 + 1, 6 + 0);
    assert Collides(grid, Shift(p2, 0, 1));
  }
}
