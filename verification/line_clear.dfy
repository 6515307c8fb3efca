/** Line clearing and scoring: the bottom-up scan that removes full rows,
    and the table that turns the number of rows removed into points. */
module LineClear {
  import opened Board

  /** Removes row `y`: every row above it moves down by one, copied from
      the bottom up, and row 0 becomes empty. */
  method ShiftDown(g: Grid, y: nat) returns (g': Grid)
    requires y < |g|
    ensures g' == [EmptyRow()] + g[..y] + g[y + 1..]
  {
    g' := g;
    var y2 := y;
    while y2 > 0
      invariant 0 <= y2 <= y
      invariant |g'| == |g|
      invariant g'[..y2] == g[..y2]
      invariant g'[y2 + 1..y + 1] == g[y2..y]
      invariant g'[y + 1..] == g[y + 1..]
      decreases y2
    {
      g' := g'[y2 := g'[y2 - 1]];
      y2 := y2 - 1;
    }
    g' := g'[0 := EmptyRow()];
    assert g'[1..y + 1] == g[..y];
    assert g' == [g'[0]] + g'[1..y + 1] + g'[y + 1..];
  }

  /** Points for `n` rows cleared by one freeze: nothing for none, then
      100, 200, 500 and 1000. The table has four entries, so more than four
      rows at once would index past its end. */
  function LineScore(n: nat): (points: nat)
    requires n <= 4
  {
    if n == 0 then 0 else [1, 2, 5, 10][n - 1] * 100
  }

  /** Clearing more rows at once never earns less, a single row earns 100,
      and four rows earn 1000 rather than four times 100. */
  lemma LineScoreGrows(n: nat, m: nat)
    requires n < m <= 4
    ensures LineScore(n) < LineScore(m)
    ensures LineScore(1) == 100 && LineScore(4) == 1000
  {
  }

  /** Row `a - 1` of the original grid joins the scanned part: the
      surviving rows gain it when it is not full, the count gains one when
      it is. */
  lemma ScanStep(g: Grid, a: nat)
    requires 0 < a <= |g|
    ensures Kept(g[a - 1..]) == (if Full(g[a - 1]) then [] else [g[a - 1]]) + Kept(g[a..])
    ensures FullCount(g[a - 1..]) == (if Full(g[a - 1]) then 1 else 0) + FullCount(g[a..])
    ensures g[..a] == g[..a - 1] + [g[a - 1]]
  {
    assert g[a - 1..][1..] == g[a..];
  }

  /** What the scan knows when it stands at row `y` of the current grid
      `cur`: the rows `g[a..]` have been scanned, and `cur` holds the empty
      rows put on top so far, then the unscanned rows, then the surviving
      scanned rows. */
  ghost predicate ScanState(g: Grid, cur: Grid, lines: nat, a: nat, y: int) {
    && a <= |g|
    && cur == Zeros(lines) + g[..a] + Kept(g[a..])
    && lines == FullCount(g[a..])
    && a <= y + 1 <= lines + a
    && (a > 0 ==> y + 1 == lines + a)
  }

  /** A full row found at index `y` is the unscanned row `g[a - 1]`;
      removing it moves one more empty row to the top. */
  lemma RemoveFound(g: Grid, cur: Grid, lines: nat, a: nat, y: nat)
    requires ScanState(g, cur, lines, a, y)
    requires y < |cur| && Full(cur[y])
    ensures a > 0
    ensures ScanState(g, [EmptyRow()] + cur[..y] + cur[y + 1..], lines + 1, a - 1, y)
  {
    EmptyRowNotFull();
    assert forall i :: 0 <= i < lines ==> cur[i] == EmptyRow();
    assert a > 0;
    var zs, rest := Zeros(lines), Kept(g[a..]);
    ScanStep(g, a);
    CutOutRow(zs, g[..a - 1], g[a - 1], rest, cur, y);
    assert [EmptyRow()] + zs == Zeros(lines + 1);
  }

  /** Cutting row `y` out of the current grid, at the boundary between the
      unscanned rows and the surviving scanned ones. */
  lemma CutOutRow(zs: Grid, front: Grid, row: Row, rest: Grid, cur: Grid, y: nat)
    requires cur == zs + (front + [row]) + rest && y == |zs| + |front|
    ensures cur[y] == row
    ensures [EmptyRow()] + cur[..y] + cur[y + 1..] == [EmptyRow()] + zs + front + rest
  {
    assert cur == (zs + front) + ([row] + rest);
    assert cur[..y] == zs + front;
    assert cur[y + 1..] == rest;
  }

  lemma KeptLength(g: Grid, cur: Grid, lines: nat, a: nat)
    requires a <= |g| && cur == Zeros(lines) + g[..a] + Kept(g[a..]) && lines == FullCount(g[a..])
    ensures |cur| == |g|
  {
  }

  /** A row that is not full stays where it is and the scan moves up. */
  lemma PassOver(g: Grid, cur: Grid, lines: nat, a: nat, y: nat)
    requires ScanState(g, cur, lines, a, y)
    requires y < |cur| && !Full(cur[y])
    ensures ScanState(g, cur, lines, if a > 0 then a - 1 else 0, y - 1)
  {
    if a > 0 {
      var zs, rest := Zeros(lines), Kept(g[a..]);
      assert cur[y] == g[a - 1] by {
        assert cur == zs + g[..a] + rest && y == |zs| + a - 1;
      }
      ScanStep(g, a);
      assert Kept(g[a - 1..]) == [g[a - 1]] + rest;
      Regroup(zs, g[..a - 1], [g[a - 1]], rest);
    }
  }

  /** Concatenation regrouped, for moving the boundaries between the
      parts of the scanned grid. */
  lemma Regroup(a: Grid, b: Grid, c: Grid, d: Grid)
    ensures a + (b + c) + d == a + b + c + d == a + b + (c + d)
  {
  }

  /** One step of the scan at row `y`: a full row is removed and `y` stays
      put (the row now holds what was above it); any other row moves the
      scan one row up. */
  method ScanRow(ghost g: Grid, cur: Grid, lines: nat, y: int, ghost a: nat)
      returns (cur': Grid, lines': nat, y': int, ghost a': nat)
    requires y >= 0 && ScanState(g, cur, lines, a, y)
    ensures ScanState(g, cur', lines', a', y')
    ensures y' + 1 + a' < y + 1 + a
    ensures if Full(cur[y]) then cur' == [EmptyRow()] + cur[..y] + cur[y + 1..] && lines' == lines + 1 && y' == y
            else cur' == cur && lines' == lines && y' == y - 1
  {
    KeptLength(g, cur, lines, a);
    if Full(cur[y]) {
      RemoveFound(g, cur, lines, a, y);
      cur' := ShiftDown(cur, y);
      lines', y', a' := lines + 1, y, a - 1;
    } else {
      PassOver(g, cur, lines, a, y);
      cur', lines', y' := cur, lines, y - 1;
      a' := if a > 0 then a - 1 else 0;
    }
  }

  /** The scan: from the bottom row up, a full row is removed and the same
      row index is examined again (it now holds the row that was above);
      any other row moves the scan one row up. The count of removed rows
      then buys points from the table. */
  method ClearLines(g: Grid, score: nat) returns (g': Grid, score': nat)
    requires Shaped(g)
    requires FullCount(g) <= 4
    ensures g' == Zeros(FullCount(g)) + Kept(g)
    ensures Shaped(g') && NoFullRow(g')
    ensures score' == score + LineScore(FullCount(g))
  {
    EmptyRowNotFull();
    var lines: nat := 0;
    var y: int := Height - 1;
    ghost var a: nat := |g|;
    g' := g;
    assert g[a..] == [] && g[..a] == g;
    while y >= 0
      invariant ScanState(g, g', lines, a, y)
      decreases y + 1 + a
    {
      g', lines, y, a := ScanRow(g, g', lines, y, a);
    }
    assert g[..0] == [] && g[0..] == g;
    assert g' == Cleared(g);
    score' := score + LineScore(lines);
  }
}
