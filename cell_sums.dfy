/**
 * Sums over the cells of an n-by-n board, row by row, in the order in which
 * the board's nested loops visit them.  A total such as the Hamming or the
 * Manhattan distance is the sum of one contribution per cell; the lemmas
 * below say how such a total changes when one or two cells change.
 */
module CellSums {
  /** The contribution of cell (row, column) to a total. */
  type Cells = (nat, nat) -> int

  /** c(i, 0) + ... + c(i, j - 1). */
  function RowSum(c: Cells, i: nat, j: nat): int
    decreases j
  {
    if j == 0 then 0 else RowSum(c, i, j - 1) + c(i, j - 1)
  }

  /** The sum over the cells of the first i rows of width n. */
  function GridSum(c: Cells, n: nat, i: nat): int
    decreases i
  {
    if i == 0 then 0 else GridSum(c, n, i - 1) + RowSum(c, i - 1, n)
  }

  /** A sum of non-negative contributions is zero exactly when every contribution is. */
  lemma {:induction false} RowSumZero(c: Cells, i: nat, j: nat)
    requires forall q: nat :: q < j ==> c(i, q) >= 0
    ensures RowSum(c, i, j) >= 0
    ensures RowSum(c, i, j) == 0 <==> forall q: nat :: q < j ==> c(i, q) == 0
    decreases j
  {
    if j > 0 {
      RowSumZero(c, i, j - 1);
    }
  }

  lemma {:induction false} GridSumZero(c: Cells, n: nat, i: nat)
    requires forall p: nat, q: nat :: p < i && q < n ==> c(p, q) >= 0
    ensures GridSum(c, n, i) >= 0
    ensures GridSum(c, n, i) == 0 <==> forall p: nat, q: nat :: p < i && q < n ==> c(p, q) == 0
    decreases i
  {
    if i > 0 {
      GridSumZero(c, n, i - 1);
      RowSumZero(c, i - 1, n);
      if GridSum(c, n, i) == 0 {
        forall p: nat, q: nat | p < i && q < n ensures c(p, q) == 0 {
          if p < i - 1 {
          } else {
            assert p == i - 1;
          }
        }
      }
    }
  }

  /** A sum of contributions each at most m is at most m per cell. */
  lemma {:induction false} RowSumAtMost(c: Cells, i: nat, j: nat, m: int)
    requires forall q: nat :: q < j ==> c(i, q) <= m
    ensures RowSum(c, i, j) <= j * m
    decreases j
  {
    if j > 0 {
      RowSumAtMost(c, i, j - 1, m);
    }
  }

  lemma {:induction false} GridSumAtMost(c: Cells, n: nat, i: nat, m: int)
    requires forall p: nat, q: nat :: p < i && q < n ==> c(p, q) <= m
    ensures GridSum(c, n, i) <= i * (n * m)
    decreases i
  {
    if i > 0 {
      GridSumAtMost(c, n, i - 1, m);
      RowSumAtMost(c, i - 1, n, m);
      assert i * (n * m) == (i - 1) * (n * m) + n * m;
    }
  }

  /** Changing the contribution of one cell (p, q) changes the row sums by the difference. */
  lemma {:induction false} RowSumUpdate(c: Cells, d: Cells, i: nat, j: nat, p: nat, q: nat)
    requires forall a: nat, b: nat :: (a, b) != (p, q) ==> d(a, b) == c(a, b)
    ensures RowSum(d, i, j) == RowSum(c, i, j) + (if i == p && q < j then d(p, q) - c(p, q) else 0)
    decreases j
  {
    if j > 0 {
      RowSumUpdate(c, d, i, j - 1, p, q);
    }
  }

  lemma {:induction false} GridSumUpdate(c: Cells, d: Cells, n: nat, i: nat, p: nat, q: nat)
    requires q < n
    requires forall a: nat, b: nat :: (a, b) != (p, q) ==> d(a, b) == c(a, b)
    ensures GridSum(d, n, i) == GridSum(c, n, i) + (if p < i then d(p, q) - c(p, q) else 0)
    decreases i
  {
    if i > 0 {
      GridSumUpdate(c, d, n, i - 1, p, q);
      RowSumUpdate(c, d, i - 1, n, p, q);
    }
  }

  /** Changing the contributions of two distinct cells of the board. */
  lemma GridSumUpdate2(c: Cells, d: Cells, n: nat, p1: nat, q1: nat, p2: nat, q2: nat)
    requires p1 < n && q1 < n && p2 < n && q2 < n && (p1, q1) != (p2, q2)
    requires forall a: nat, b: nat :: (a, b) != (p1, q1) && (a, b) != (p2, q2) ==> d(a, b) == c(a, b)
    ensures GridSum(d, n, n) == GridSum(c, n, n) + (d(p1, q1) - c(p1, q1)) + (d(p2, q2) - c(p2, q2))
  {
    var m: Cells := (a: nat, b: nat) => if (a, b) == (p1, q1) then d(a, b) else c(a, b);
    GridSumUpdate(c, m, n, n, p1, q1);
    GridSumUpdate(m, d, n, n, p2, q2);
  }
}
