/** The playing field: a fixed grid of settled cells, `Height` rows of
    `Width` columns, row 0 at the top. A cell holds 0 when it is empty and a
    non-zero colour token once a piece has been frozen onto it. */
module Board {

  const Width: nat := 10
  const Height: nat := 20

  type Row = seq<int>
  type Grid = seq<Row>

  function EmptyRow(): (row: Row)
    ensures |row| == Width
    ensures forall c :: 0 <= c < Width ==> row[c] == 0
  {
    seq(Width, c => 0)
  }

  /** The grid keeps its dimensions for the whole game. */
  predicate Shaped(g: Grid) {
    |g| == Height && forall r :: 0 <= r < |g| ==> |g[r]| == Width
  }

  /** A row is full when every one of its cells is settled. */
  predicate Full(row: Row) {
    forall c :: 0 <= c < |row| ==> row[c] != 0
  }

  predicate NoFullRow(g: Grid) {
    forall r :: 0 <= r < |g| ==> !Full(g[r])
  }

  lemma EmptyRowNotFull()
    ensures |EmptyRow()| == Width && !Full(EmptyRow())
  {
    assert EmptyRow()[0] == 0;
  }

  /** `n` empty rows. */
  function Zeros(n: nat): (z: Grid)
    ensures |z| == n
    ensures forall r :: 0 <= r < n ==> z[r] == EmptyRow()
  {
    seq(n, i => EmptyRow())
  }

  /** The empty board a game starts on. */
  function EmptyGrid(): (g: Grid)
    ensures Shaped(g) && NoFullRow(g)
    ensures forall r, c :: 0 <= r < Height && 0 <= c < Width ==> g[r][c] == 0
  {
    EmptyRowNotFull();
    Zeros(Height)
  }

  /** Number of full rows. */
  function FullCount(g: Grid): (n: nat)
    ensures n <= |g|
    ensures n == 0 <==> NoFullRow(g)
  {
    if g == [] then 0
    else (if Full(g[0]) then 1 else 0) + FullCount(g[1..])
  }

  /** The rows that are not full, in their original order. */
  function Kept(g: Grid): (k: Grid)
    ensures |k| + FullCount(g) == |g|
    ensures NoFullRow(k)
    ensures forall i :: 0 <= i < |k| ==> k[i] in g
  {
    if g == [] then []
    else (if Full(g[0]) then [] else [g[0]]) + Kept(g[1..])
  }

  /** The board after every full row has been removed: the surviving rows
      sink to the bottom in their old order and empty rows refill the top.
      This is the reference the line-clearing scan is proved against. */
  function Cleared(g: Grid): (c: Grid)
    requires Shaped(g)
    ensures Shaped(c) && NoFullRow(c)
  {
    EmptyRowNotFull();
    Zeros(FullCount(g)) + Kept(g)
  }

  lemma {:induction false} KeptAppend(a: Grid, b: Grid)
    ensures Kept(a + b) == Kept(a) + Kept(b)
    ensures FullCount(a + b) == FullCount(a) + FullCount(b)
    decreases |a|
  {
    if a != [] {
      assert (a + b)[0] == a[0];
      assert (a + b)[1..] == a[1..] + b;
      KeptAppend(a[1..], b);
    } else {
      assert a + b == b;
    }
  }

  lemma {:induction false} KeptNoFull(g: Grid)
    requires NoFullRow(g)
    ensures Kept(g) == g
    decreases |g|
  {
    if g != [] {
      KeptNoFull(g[1..]);
      assert g == [g[0]] + g[1..];
    }
  }

  /** A board without full rows is left as it is. */
  lemma ClearedNoFull(g: Grid)
    requires Shaped(g) && NoFullRow(g)
    ensures Cleared(g) == g && FullCount(g) == 0
  {
    KeptNoFull(g);
    assert Zeros(0) + g == g;
  }

  /** A full row between two runs of rows that are not full is the only
      one dropped. */
  lemma KeptOneFull(above: Grid, row: Row, below: Grid)
    requires NoFullRow(above) && Full(row) && NoFullRow(below)
    ensures Kept(above + ([row] + below)) == above + below
    ensures FullCount(above + ([row] + below)) == 1
  {
    var tail := [row] + below;
    KeptSingleFull(row);
    KeptNoFull(below);
    KeptAppend([row], below);
    assert Kept(tail) == below && FullCount(tail) == 1;
    KeptNoFull(above);
    KeptAppend(above, tail);
  }

  lemma KeptSingleFull(row: Row)
    requires Full(row)
    ensures Kept([row]) == [] && FullCount([row]) == 1
  {
    var s := [row];
    assert s[0] == row && s[1..] == [];
  }

  /** Removing a single full row `R` shifts every row above it down by one
      and leaves an empty row on top. */
  lemma ClearedSingleRow(g: Grid, R: nat)
    requires Shaped(g) && R < |g|
    requires Full(g[R])
    requires forall r :: 0 <= r < |g| && r != R ==> !Full(g[r])
    ensures Cleared(g) == [EmptyRow()] + g[..R] + g[R + 1..]
  {
    var above, below := g[..R], g[R + 1..];
    assert g == above + ([g[R]] + below);
    assert NoFullRow(above) by {
      forall r | 0 <= r < |above| ensures !Full(above[r]) { assert above[r] == g[r]; }
    }
    assert NoFullRow(below) by {
      forall r | 0 <= r < |below| ensures !Full(below[r]) { assert below[r] == g[R + 1 + r]; }
    }
    KeptOneFull(above, g[R], below);
    assert Kept(g) == above + below && FullCount(g) == 1;
    assert Zeros(1) == [EmptyRow()];
    assert [EmptyRow()] + (above + below) == [EmptyRow()] + above + below;
  }

  /** Full rows can only lie in rows `lo` to `hi - 1`, so there are at most
      `hi - lo` of them. */
  lemma {:induction false} FullCountWithin(g: Grid, lo: int, hi: int)
    requires lo <= hi
    requires forall r :: 0 <= r < |g| && Full(g[r]) ==> lo <= r < hi
    ensures FullCount(g) <= hi - lo
    decreases |g|
  {
    if g != [] {
      forall r | 0 <= r < |g[1..]| && Full(g[1..][r])
        ensures (if Full(g[0]) then 0 else lo - 1) <= r < hi - 1
      {
        assert g[1..][r] == g[r + 1];
      }
      if Full(g[0]) {
        FullCountWithin(g[1..], 0, hi - 1);
      } else {
        FullCountWithin(g[1..], lo - 1, hi - 1);
      }
    }
  }
}
