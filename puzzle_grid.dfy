/**
 * Value-level view of an 8-puzzle (N-puzzle) board: the N-by-N grid of
 * tiles, where 0 is the blank and tile v belongs at row (v-1)/N, column
 * (v-1)%N, together with the distances the board caches (Hamming,
 * Manhattan) defined from scratch over the whole grid.
 */
module PuzzleGrid {
  import opened CellSums

  /** 2^32: the cached `unsigned` linear-conflict count wraps modulo this. */
  const U32: nat := 0x1_0000_0000

  /** An integer reduced to a 32-bit unsigned value, as C++ unsigned arithmetic does. */
  function Wrap32(z: int): (w: nat)
    ensures w < U32
  {
    z % 0x1_0000_0000
  }

  /** Wrapping once after every addition ends where wrapping once at the end does. */
  lemma ModAdd(a: int, b: int)
    ensures Wrap32(Wrap32(a) + b) == Wrap32(a + b)
  {
  }

  lemma WrapSmall(a: int)
    requires 0 <= a < U32
    ensures Wrap32(a) == a
  {
  }

  lemma ModDouble(a: int)
    ensures Wrap32(2 * Wrap32(a)) == Wrap32(2 * a)
  {
  }

  type Grid = seq<seq<nat>>

  predicate Square<T>(g: seq<seq<T>>, n: nat)
  {
    |g| == n && forall i :: 0 <= i < n ==> |g[i]| == n
  }

  /** What a board's data must be: n rows of n distinct values below n*n, with a blank (0) when n > 0. */
  predicate IsTileGrid(data: Grid, n: nat)
  {
    Square(data, n) &&
    (forall i, j :: 0 <= i < n && 0 <= j < n ==> data[i][j] < n * n) &&
    (forall i, j, k, l :: 0 <= i < n && 0 <= j < n && 0 <= k < n && 0 <= l < n && (i, j) != (k, l) ==>
       data[i][j] != data[k][l]) &&
    (n > 0 ==> exists i, j :: 0 <= i < n && 0 <= j < n && data[i][j] == 0)
  }

  /** The value of a cell, with the blank read as n*n (its goal is the last cell). */
  function ActualValue(data: Grid, n: nat, x: nat, y: nat): (v: nat)
    requires Square(data, n) && x < n && y < n
    ensures v > 0 <== n > 0
    ensures v == n * n <==> data[x][y] == 0 || data[x][y] == n * n
  {
    if data[x][y] == 0 then n * n else data[x][y]
  }

  /** The cell holds the tile whose goal it is (the blank counts as tile n*n). */
  predicate OnPlace(data: Grid, n: nat, x: nat, y: nat)
    requires Square(data, n) && x < n && y < n
  {
    ActualValue(data, n, x, y) == x * n + y + 1
  }

  function Abs(z: int): nat { if z < 0 then -z else z }

  /** Goal row and goal column of the tile whose actual value is v. */
  function GoalRow(v: nat, n: nat): nat
    requires n > 0 && v > 0
  {
    (v - 1) / n
  }

  function GoalCol(v: nat, n: nat): (c: nat)
    requires n > 0 && v > 0
    ensures c < n
  {
    (v - 1) % n
  }

  /** Manhattan distance of the tile in cell (x, y) from its goal cell. */
  function CellDistance(data: Grid, n: nat, x: nat, y: nat): nat
    requires Square(data, n) && x < n && y < n
  {
    var v := ActualValue(data, n, x, y);
    Abs(x - GoalRow(v, n)) + Abs(y - GoalCol(v, n))
  }

  /** One per misplaced cell; the blank is read as n*n and so counts when it is not in the last cell. */
  function HammingCells(data: Grid, n: nat): Cells
    requires Square(data, n)
  {
    (i: nat, j: nat) => if i < n && j < n && !OnPlace(data, n, i, j) then 1 else 0
  }

  function HammingOf(data: Grid, n: nat): int
    requires Square(data, n)
  {
    GridSum(HammingCells(data, n), n, n)
  }

  /** The distance of every cell, the blank's included (the sum that calc_manhattan accumulates). */
  function DistanceCells(data: Grid, n: nat): Cells
    requires Square(data, n)
  {
    (i: nat, j: nat) => if i < n && j < n then CellDistance(data, n, i, j) else 0
  }

  /** The distance of every tile, the blank excluded. */
  function ManhattanCells(data: Grid, n: nat): Cells
    requires Square(data, n)
  {
    (i: nat, j: nat) => if i < n && j < n && data[i][j] != 0 then CellDistance(data, n, i, j) else 0
  }

  function ManhattanOf(data: Grid, n: nat): int
    requires Square(data, n)
  {
    GridSum(ManhattanCells(data, n), n, n)
  }

  /** The solved board: 1 .. n*n-1 row by row and the blank in the last cell. */
  function GoalGrid(n: nat): (g: Grid)
    ensures Square(g, n)
  {
    seq(n, i => seq(n, j => if i == n - 1 && j == n - 1 then 0 else i * n + j + 1))
  }

  /** The grid with cells p and q exchanged. */
  function SwapCells(data: Grid, n: nat, p: (nat, nat), q: (nat, nat)): (r: Grid)
    requires Square(data, n) && p.0 < n && p.1 < n && q.0 < n && q.1 < n
    ensures Square(r, n)
    ensures r[p.0][p.1] == data[q.0][q.1] && r[q.0][q.1] == data[p.0][p.1]
    ensures forall i, j :: 0 <= i < n && 0 <= j < n && (i, j) != p && (i, j) != q ==> r[i][j] == data[i][j]
  {
    var a := data[p.0 := data[p.0][p.1 := data[q.0][q.1]]];
    a[q.0 := a[q.0][q.1 := data[p.0][p.1]]]
  }

  // ---------------------------------------------------------------- arithmetic

  lemma MulAtLeast(a: int, n: nat)
    requires a >= 1
    ensures a * n >= n
  {
  }

  /** Cell (i, j) has row-major index i*n + j, and the index determines the cell. */
  lemma DivModCell(i: nat, j: nat, n: nat)
    requires j < n
    ensures (i * n + j) / n == i && (i * n + j) % n == j
  {
    var s := i * n + j;
    var q, r := s / n, s % n;
    assert s == q * n + r;
    if q < i {
      MulAtLeast(i - q, n);
      assert false;
    } else if q > i {
      MulAtLeast(q - i, n);
      assert false;
    }
  }

  lemma CellIndexUnique(i: nat, j: nat, k: nat, l: nat, n: nat)
    requires j < n && l < n && i * n + j == k * n + l
    ensures i == k && j == l
  {
    DivModCell(i, j, n);
    DivModCell(k, l, n);
  }

  lemma MulMonotone(a: nat, b: nat, n: nat)
    requires a <= b
    ensures a * n <= b * n
  {
    assert b * n - a * n == (b - a) * n;
  }

  lemma CellIndexBound(i: nat, j: nat, n: nat)
    requires i < n && j < n
    ensures i * n + j < n * n
    ensures i * n + j + 1 == n * n <==> i == n - 1 && j == n - 1
  {
    MulMonotone(i, n - 1, n);
    assert (n - 1) * n == n * n - n;
    if i < n - 1 {
      MulMonotone(i + 1, n - 1, n);
      assert (i + 1) * n == i * n + n;
    }
  }

  /** The tile in cell (x, y) has goal cell (x, y) exactly when the cell is on place. */
  lemma OnPlaceGoal(data: Grid, n: nat, x: nat, y: nat)
    requires Square(data, n) && x < n && y < n
    ensures var v := ActualValue(data, n, x, y);
      OnPlace(data, n, x, y) <==> GoalRow(v, n) == x && GoalCol(v, n) == y
  {
    IndexOfCell(ActualValue(data, n, x, y) - 1, n, x, y);
  }

  /** Index m belongs to cell (x, y) exactly when m / n is x and m % n is y. */
  lemma IndexOfCell(m: nat, n: nat, x: nat, y: nat)
    requires x < n && y < n
    ensures m == x * n + y <==> m / n == x && m % n == y
  {
    DivModCell(x, y, n);
    var q, r := m / n, m % n;
    assert m == q * n + r;
  }

  /** Every index below n*n belongs to a cell: its row m / n and its column m % n are below n. */
  lemma CellOfIndex(m: nat, n: nat)
    requires m < n * n
    ensures m / n < n && m % n < n && m == (m / n) * n + m % n
  {
    var q := m / n;
    if q >= n {
      MulMonotone(n, q, n);
    }
  }

  // ----------------------------------------------------------- the blank cell

  /** In a tile grid the blank is the only cell holding 0. */
  lemma BlankIsUnique(data: Grid, n: nat, b: (nat, nat))
    requires IsTileGrid(data, n) && b.0 < n && b.1 < n && data[b.0][b.1] == 0
    ensures forall i, j :: 0 <= i < n && 0 <= j < n && (i, j) != b ==> data[i][j] != 0
  {
  }

  /** The blank's distance from the last cell. */
  lemma BlankDistance(data: Grid, n: nat, b: (nat, nat))
    requires Square(data, n) && b.0 < n && b.1 < n && data[b.0][b.1] == 0
    ensures CellDistance(data, n, b.0, b.1) == Abs(b.0 - (n - 1)) + Abs(b.1 - (n - 1))
  {
    DivModCell(n - 1, n - 1, n);
    assert n * n - 1 == (n - 1) * n + (n - 1);
  }

  /** calc_manhattan's inner loop, one more cell, in 32 bits. */
  lemma DistanceStep(data: Grid, n: nat, i: nat, j: nat, t: int)
    requires Square(data, n) && i < n && j < n
    requires t == Wrap32(GridSum(DistanceCells(data, n), n, i) + RowSum(DistanceCells(data, n), i, j))
    ensures Wrap32(t + CellDistance(data, n, i, j)) ==
      Wrap32(GridSum(DistanceCells(data, n), n, i) + RowSum(DistanceCells(data, n), i, j + 1))
  {
    ModAdd(GridSum(DistanceCells(data, n), n, i) + RowSum(DistanceCells(data, n), i, j), CellDistance(data, n, i, j));
  }

  /** calc_manhattan's sum over every cell, less the blank's own term, is the sum over the tiles. */
  lemma ManhattanWithoutBlank(data: Grid, n: nat, b: (nat, nat))
    requires IsTileGrid(data, n) && b.0 < n && b.1 < n && data[b.0][b.1] == 0
    ensures ManhattanOf(data, n) == GridSum(DistanceCells(data, n), n, n) - CellDistance(data, n, b.0, b.1)
  {
    BlankIsUnique(data, n, b);
    GridSumUpdate(DistanceCells(data, n), ManhattanCells(data, n), n, n, b.0, b.1);
  }

  lemma DistancesNonnegative(data: Grid, n: nat)
    requires Square(data, n)
    ensures HammingOf(data, n) >= 0 && ManhattanOf(data, n) >= 0
    ensures GridSum(DistanceCells(data, n), n, n) >= 0
  {
    GridSumZero(HammingCells(data, n), n, n);
    GridSumZero(ManhattanCells(data, n), n, n);
    GridSumZero(DistanceCells(data, n), n, n);
  }

  /** At most every cell is misplaced, so the Hamming distance fits the unsigned field of a board with n*n < 2^32. */
  lemma HammingAtMost(data: Grid, n: nat)
    requires Square(data, n)
    ensures 0 <= HammingOf(data, n) <= n * n
  {
    GridSumZero(HammingCells(data, n), n, n);
    GridSumAtMost(HammingCells(data, n), n, n, 1);
  }

  // -------------------------------------------------------------- the goal

  lemma GoalGridIsTileGrid(n: nat)
    requires n >= 1
    ensures IsTileGrid(GoalGrid(n), n)
  {
    var g := GoalGrid(n);
    forall i, j | 0 <= i < n && 0 <= j < n ensures g[i][j] < n * n {
      CellIndexBound(i, j, n);
    }
    forall i, j, k, l | 0 <= i < n && 0 <= j < n && 0 <= k < n && 0 <= l < n && (i, j) != (k, l)
      ensures g[i][j] != g[k][l]
    {
      CellIndexBound(i, j, n);
      CellIndexBound(k, l, n);
      if g[i][j] == g[k][l] && g[i][j] != 0 {
        CellIndexUnique(i, j, k, l, n);
      }
    }
    assert g[n - 1][n - 1] == 0;
  }

  /** Every cell of the goal grid is on place. */
  lemma GoalGridOnPlace(n: nat, i: nat, j: nat)
    requires i < n && j < n
    ensures OnPlace(GoalGrid(n), n, i, j)
  {
    CellIndexBound(i, j, n);
  }

  /** For a tile grid, being all on place and being the goal grid are the same. */
  lemma AllOnPlaceIsGoal(data: Grid, n: nat)
    requires IsTileGrid(data, n)
    ensures (forall i: nat, j: nat :: i < n && j < n ==> OnPlace(data, n, i, j)) <==> data == GoalGrid(n)
  {
    var g := GoalGrid(n);
    if forall i: nat, j: nat :: i < n && j < n ==> OnPlace(data, n, i, j) {
      forall i | 0 <= i < n ensures data[i] == g[i] {
        forall j | 0 <= j < n ensures data[i][j] == g[i][j] {
          assert OnPlace(data, n, i, j);
          CellIndexBound(i, j, n);
        }
      }
    }
    if data == g {
      forall i: nat, j: nat | i < n && j < n ensures OnPlace(data, n, i, j) {
        GoalGridOnPlace(n, i, j);
      }
    }
  }

  /** is_goal: for a tile grid, a Hamming distance of 0 means the board is solved, and conversely. */
  lemma HammingZeroIsGoal(data: Grid, n: nat)
    requires IsTileGrid(data, n)
    ensures HammingOf(data, n) == 0 <==> data == GoalGrid(n)
  {
    var c := HammingCells(data, n);
    GridSumZero(c, n, n);
    AllOnPlaceIsGoal(data, n);
    if HammingOf(data, n) == 0 {
      forall i: nat, j: nat | i < n && j < n ensures OnPlace(data, n, i, j) {
        assert c(i, j) == 0;
      }
    }
    if data == GoalGrid(n) {
      forall p: nat, q: nat | p < n && q < n ensures c(p, q) == 0 {
        assert OnPlace(data, n, p, q);
      }
    }
  }

  lemma GoalGridManhattan(n: nat)
    ensures ManhattanOf(GoalGrid(n), n) == 0
  {
    var g := GoalGrid(n);
    var c := ManhattanCells(g, n);
    GridSumZero(c, n, n);
    forall p: nat, q: nat | p < n && q < n ensures c(p, q) == 0 {
      GoalGridOnPlace(n, p, q);
      OnPlaceGoal(g, n, p, q);
    }
  }
}
