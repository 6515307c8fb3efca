/** Two worked games with the O piece: dropping it onto the empty board,
    and dropping it into the gap of an otherwise full bottom row. */
module Scenarios {
  import opened Board
  import opened Matrices
  import opened Tetrominoes
  import opened Pieces
  import opened LineClear
  import opened Engine

  /** A hard drop stops at exactly one depth: the last free one. */
  lemma DropDepthUnique(g: Game, a: nat, b: nat)
    requires Shaped(g.grid)
    requires PathFree(g, a) && Collides(g.grid, Shift(g.piece, 0, a + 1))
    requires PathFree(g, b) && Collides(g.grid, Shift(g.piece, 0, b + 1))
    ensures a == b
  {
  }

  /** The O piece at column 4, `d` rows down, on a board whose rows 0 to
      `floor - 1` are empty in columns 4 and 5, with `floor` the board's
      floor or a settled cell: it is free exactly while both its rows are
      above `floor`. */
  lemma OPieceFreeAbove(grid: Grid, d: int, floor: nat)
    requires Shaped(grid) && floor <= Height && 0 <= d && d + 1 <= floor
    requires forall r, c :: 0 <= r < floor && 4 <= c <= 5 ==> grid[r][c] == 0
    requires floor < Height ==> grid[floor][4] != 0
    ensures !Collides(grid, Piece(Shapes[1], Yellow, 4, d)) <==> d + 2 <= floor
  {
    var p := Piece(Shapes[1], Yellow, 4, d);
    if d + 2 <= floor {
      forall i, j | Occupied(p.shape, i, j)
        ensures !Blocked(grid, d + i, 4 + j)
      {
        assert 0 <= i < 2 && 0 <= j < 2;
      }
    } else {
      assert Occupied(p.shape, 1, 0);
      assert Blocked(grid, d + 1, 4);
    }
  }

  /** An O piece spawned over empty columns 4 and 5 falls 18 rows and
      its 19th step is blocked by the floor. */
  lemma OFallsToFloor(g: Game)
    requires Valid(g) && g.piece == Piece(Shapes[1], Yellow, 4, 0)
    requires forall r, c :: 0 <= r < Height && 4 <= c <= 5 ==> g.grid[r][c] == 0
    ensures PathFree(g, 18) && Collides(g.grid, Shift(g.piece, 0, 19))
    ensures Dropped(g, 18).piece == Piece(Shapes[1], Yellow, 4, 18)
    ensures Valid(Dropped(g, 18))
  {
    forall d | 1 <= d <= 18
      ensures !Collides(g.grid, Shift(g.piece, 0, d))
    {
      assert Shift(g.piece, 0, d) == Piece(Shapes[1], Yellow, 4, d);
      OPieceFreeAbove(g.grid, d, Height);
    }
    assert Shift(g.piece, 0, 19) == Piece(Shapes[1], Yellow, 4, 19);
    OPieceFreeAbove(g.grid, 19, Height);
    FreeFits(g.grid, Shift(g.piece, 0, 18));
  }

  /** Settling a piece that completes no row keeps the frozen board as it
      is and scores nothing. */
  lemma SettleNoClear(g: Game, next: nat)
    requires Valid(g) && next < Kinds
    requires NoFullRow(Freeze(g.grid, g.piece))
    ensures Settle(g, next).grid == Freeze(g.grid, g.piece)
    ensures Settle(g, next).score == g.score
  {
    ClearedNoFull(Freeze(g.grid, g.piece));
  }

  /** Settling a piece that completes exactly the bottom row removes it
      and scores 100. */
  lemma SettleBottomClear(g: Game, next: nat)
    requires Valid(g) && next < Kinds
    requires Full(Freeze(g.grid, g.piece)[Height - 1])
    requires forall r :: 0 <= r < Height - 1 ==> !Full(Freeze(g.grid, g.piece)[r])
    ensures Settle(g, next).grid == [EmptyRow()] + Freeze(g.grid, g.piece)[..Height - 1]
    ensures Settle(g, next).score == g.score + 100
  {
    var frozen := Freeze(g.grid, g.piece);
    ClearedSingleRow(frozen, Height - 1);
    assert frozen[Height..] == [];
    FreezeFillsFewRows(g.grid, g.piece);
    assert FullCount(frozen) == 1 by {
      assert !NoFullRow(frozen);
      FullCountWithin(frozen, Height - 1, Height);
    }
  }

  /** The O piece resting on the floor covers rows 18 and 19, columns 4
      and 5. */
  lemma OOnFloorCovers(r: int, c: int)
    ensures Covers(Piece(Shapes[1], Yellow, 4, 18), r, c) <==> 18 <= r <= 19 && 4 <= c <= 5
  {
  }

  /** The O piece resting on the floor of a board without settled cells
      settles into rows 18 and 19, columns 4 and 5, and nothing else; no
      row is completed and no points are scored. */
  lemma OSettlesOnEmptyFloor(g: Game, next: nat)
    requires Valid(g) && next < Kinds && g.piece == Piece(Shapes[1], Yellow, 4, 18)
    requires forall r, c :: OnBoard(r, c) ==> g.grid[r][c] == 0
    ensures forall r, c :: OnBoard(r, c) ==> (Settle(g, next).grid[r][c] != 0 <==> 18 <= r && 4 <= c <= 5)
    ensures Settle(g, next).score == g.score
  {
    var frozen := Freeze(g.grid, g.piece);
    forall r, c | OnBoard(r, c)
      ensures frozen[r][c] != 0 <==> 18 <= r && 4 <= c <= 5
    {
      OOnFloorCovers(r, c);
    }
    assert NoFullRow(frozen) by {
      forall r | 0 <= r < Height
        ensures !Full(frozen[r])
      {
        assert OnBoard(r, 0) && frozen[r][0] == 0;
      }
    }
    SettleNoClear(g, next);
  }

  /** An O piece spawned on the empty board falls 18 rows, the 19th step
      is blocked, and it settles on the floor: rows 18 and 19, columns 4
      and 5, are yellow, nothing else is settled, and no points are scored. */
  lemma ODropsOntoEmptyBoard(next: nat)
    requires next < Kinds
    ensures Init(1).piece == Piece(Shapes[1], Yellow, 4, 0)
    ensures PathFree(Init(1), 18) && Collides(EmptyGrid(), Shift(Init(1).piece, 0, 19))
    ensures Valid(Dropped(Init(1), 18))
         && (forall r, c :: OnBoard(r, c) ==>
               (Settle(Dropped(Init(1), 18), next).grid[r][c] != 0 <==> 18 <= r && 4 <= c <= 5))
         && Settle(Dropped(Init(1), 18), next).score == 0
  {
    var g := Init(1);
    assert g.piece == Piece(Shapes[1], Yellow, 4, 0);
    OFallsToFloor(g);
    OSettlesOnEmptyFloor(Dropped(g, 18), next);
  }

  /** The bottom row settled everywhere except columns 4 and 5, all other
      rows empty. */
  function GapGrid(): (g: Grid)
    ensures Shaped(g) && NoFullRow(g)
    ensures forall r, c :: OnBoard(r, c) ==> (g[r][c] != 0 <==> r == Height - 1 && !(4 <= c <= 5))
  {
    EmptyRowNotFull();
    var bottom := seq(Width, c => if 4 <= c <= 5 then 0 else Cyan);
    var g := EmptyGrid()[Height - 1 := bottom];
    assert !Full(g[Height - 1]) by { assert g[Height - 1][4] == 0; }
    g
  }

  /** Dropping the O piece into the gap fills the bottom row and no other. */
  lemma GapFilled(p: Piece)
    requires p == Piece(Shapes[1], Yellow, 4, 18)
    ensures Full(Freeze(GapGrid(), p)[Height - 1])
    ensures forall r :: 0 <= r < Height - 1 ==> !Full(Freeze(GapGrid(), p)[r])
  {
    var frozen := Freeze(GapGrid(), p);
    var bottom := frozen[Height - 1];
    forall c | 0 <= c < Width
      ensures bottom[c] != 0
    {
      assert OnBoard(Height - 1, c);
      OOnFloorCovers(Height - 1, c);
    }
    forall r | 0 <= r < Height - 1
      ensures !Full(frozen[r])
    {
      assert OnBoard(r, 0);
      OOnFloorCovers(r, 0);
      assert frozen[r][0] == 0;
    }
  }

  /** An O piece dropped into the gap completes the bottom row: the row is
      removed, everything above moves down one row, and the score rises by
      100. */
  lemma OFillsGap(next: nat)
    requires next < Kinds
    ensures Valid(Game(GapGrid(), Spawn(1), 0, false))
    ensures PathFree(Game(GapGrid(), Spawn(1), 0, false), 18)
    ensures Collides(GapGrid(), Shift(Spawn(1), 0, 19))
    ensures Valid(Dropped(Game(GapGrid(), Spawn(1), 0, false), 18))
         && Settle(Dropped(Game(GapGrid(), Spawn(1), 0, false), 18), next).grid
              == [EmptyRow()] + Freeze(GapGrid(), Piece(Shapes[1], Yellow, 4, 18))[..Height - 1]
         && Settle(Dropped(Game(GapGrid(), Spawn(1), 0, false), 18), next).score == 100
  {
    var g := Game(GapGrid(), Spawn(1), 0, false);
    assert g.piece == Piece(Shapes[1], Yellow, 4, 0);
    OFallsToFloor(g);
    var landed := Dropped(g, 18);
    GapFilled(landed.piece);
    SettleBottomClear(landed, next);
  }
}
