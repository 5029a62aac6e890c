/** What moving one tile into the blank does to a grid and to its heuristics. */
module PuzzleMoves {
  import opened CellSums
  import opened PuzzleGrid

  /** The cells of a move: the tile at p goes into the blank at b. */
  predicate IsMove(data: Grid, n: nat, b: (nat, nat), p: (nat, nat))
  {
    Square(data, n) && b.0 < n && b.1 < n && p.0 < n && p.1 < n && p != b && data[b.0][b.1] == 0
  }

  /** After the move the grid is still a tile grid, with the blank now at p. */
  lemma MoveKeepsTileGrid(data: Grid, n: nat, b: (nat, nat), p: (nat, nat))
    requires IsTileGrid(data, n) && IsMove(data, n, b, p)
    ensures var d := SwapCells(data, n, p, b);
      IsTileGrid(d, n) && d[p.0][p.1] == 0
  {
    var d := SwapCells(data, n, p, b);
    forall i, j, k, l | 0 <= i < n && 0 <= j < n && 0 <= k < n && 0 <= l < n && (i, j) != (k, l)
      ensures d[i][j] != d[k][l]
    {
      var (i', j') := if (i, j) == p then b else if (i, j) == b then p else (i, j);
      var (k', l') := if (k, l) == p then b else if (k, l) == b then p else (k, l);
      assert d[i][j] == data[i'][j'] && d[k][l] == data[k'][l'];
    }
    assert d[p.0][p.1] == 0;
  }

  /** Moving the tile back restores the grid. */
  lemma MoveBack(data: Grid, n: nat, b: (nat, nat), p: (nat, nat))
    requires IsMove(data, n, b, p)
    ensures SwapCells(SwapCells(data, n, p, b), n, b, p) == data
  {
    var e := SwapCells(SwapCells(data, n, p, b), n, b, p);
    forall i | 0 <= i < n ensures e[i] == data[i] {
      assert forall j :: 0 <= j < n ==> e[i][j] == data[i][j];
    }
  }

  /** A tile whose value is on place in one cell is not on place in any other. */
  lemma OnPlaceOnce(data: Grid, d: Grid, n: nat, p: (nat, nat), q: (nat, nat))
    requires Square(data, n) && Square(d, n) && p.0 < n && p.1 < n && q.0 < n && q.1 < n && p != q
    requires ActualValue(data, n, p.0, p.1) == ActualValue(d, n, q.0, q.1)
    ensures OnPlace(data, n, p.0, p.1) ==> !OnPlace(d, n, q.0, q.1)
  {
    if OnPlace(data, n, p.0, p.1) && OnPlace(d, n, q.0, q.1) {
      CellIndexUnique(p.0, p.1, q.0, q.1, n);
      assert false;
    }
  }

  /**
   * swap_blank's update of the Hamming count is exact: the moved tile adds
   * one if it was on place and takes one off if it arrives on place, and so
   * does the blank.
   */
  lemma MoveHamming(data: Grid, n: nat, b: (nat, nat), p: (nat, nat))
    requires IsMove(data, n, b, p)
    ensures var d := SwapCells(data, n, p, b);
      HammingOf(d, n) == HammingOf(data, n)
        + (if OnPlace(data, n, p.0, p.1) then 1 else if OnPlace(d, n, b.0, b.1) then -1 else 0)
        + (if OnPlace(data, n, b.0, b.1) then 1 else if OnPlace(d, n, p.0, p.1) then -1 else 0)
  {
    var d := SwapCells(data, n, p, b);
    GridSumUpdate2(HammingCells(data, n), HammingCells(d, n), n, p.0, p.1, b.0, b.1);
    OnPlaceOnce(data, d, n, p, b);
    OnPlaceOnce(data, d, n, b, p);
  }

  /** swap_blank's update of the Manhattan sum is exact: the tile's old distance goes, its new one comes. */
  lemma MoveManhattan(data: Grid, n: nat, b: (nat, nat), p: (nat, nat))
    requires IsTileGrid(data, n) && IsMove(data, n, b, p)
    ensures var d := SwapCells(data, n, p, b);
      ManhattanOf(d, n) == ManhattanOf(data, n) - CellDistance(data, n, p.0, p.1) + CellDistance(d, n, b.0, b.1)
  {
    var d := SwapCells(data, n, p, b);
    BlankIsUnique(data, n, b);
    GridSumUpdate2(ManhattanCells(data, n), ManhattanCells(d, n), n, p.0, p.1, b.0, b.1);
  }
}
