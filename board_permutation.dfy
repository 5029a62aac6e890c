/** The board read as a permutation: the cells row by row, with the blank standing for n*n. */
module BoardPermutation {
  import opened PuzzleGrid
  import opened Parity

  /** The first k rows of g, concatenated in row order (the order set_defaults_from_data pushes them). */
  function FlattenRows(g: Grid, n: nat, k: nat): (s: seq<nat>)
    requires Square(g, n) && k <= n
    ensures |s| == k * n
  {
    if k == 0 then [] else FlattenRows(g, n, k - 1) + g[k - 1]
  }

  function Flatten(g: Grid, n: nat): (s: seq<nat>)
    requires Square(g, n)
    ensures |s| == n * n
  {
    FlattenRows(g, n, n)
  }

  /** Cell (i, j) lands at position i*n + j. */
  lemma {:induction false} FlattenRowsIndex(g: Grid, n: nat, k: nat, i: nat, j: nat)
    requires Square(g, n) && k <= n && i < k && j < n
    ensures FlattenRows(g, n, k)[i * n + j] == g[i][j]
    decreases k
  {
    var prefix := FlattenRows(g, n, k - 1);
    if i < k - 1 {
      MulMonotone(i + 1, k - 1, n);
      assert (i + 1) * n == i * n + n;
      FlattenRowsIndex(g, n, k - 1, i, j);
    } else {
      assert |prefix| == i * n;
    }
  }

  /** Position l of the first k rows holds some cell (i, j) with l == i*n + j. */
  lemma {:induction false} FlattenRowsCell(g: Grid, n: nat, k: nat, l: nat) returns (i: nat, j: nat)
    requires Square(g, n) && k <= n && l < k * n
    ensures i < k && j < n && l == i * n + j && FlattenRows(g, n, k)[l] == g[i][j]
    decreases k
  {
    if l < (k - 1) * n {
      i, j := FlattenRowsCell(g, n, k - 1, l);
    } else {
      i, j := k - 1, l - (k - 1) * n;
      assert k * n == (k - 1) * n + n;
    }
  }

  /** What the random constructor's generator yields: each of 0 .. |p|-1 exactly once. */
  predicate IsZeroBasedPermutation(p: seq<nat>)
  {
    (forall k :: 0 <= k < |p| ==> p[k] < |p|) &&
    (forall k, l :: 0 <= k < |p| && 0 <= l < |p| && k != l ==> p[k] != p[l])
  }

  /** Such a sequence holds every value below its length (by counting: its |p| distinct values all lie in a set of |p|). */
  lemma PermutationHasEvery(p: seq<nat>, v: nat)
    requires IsZeroBasedPermutation(p) && v < |p|
    ensures v in p
  {
    DistinctCellsSize(p);
    var r := Range(|p|);
    var c := Cells(p);
    assert c <= r;
    assert r == c + (r - c) && c * (r - c) == {};
    assert |r - c| == 0;
    assert v in r && v !in r - c;
  }

  /** The rows the random constructor cuts from a flat sequence: cell (i, j) is p[i*n + j]. */
  function Unflatten(p: seq<nat>, n: nat): (g: Grid)
    requires |p| == n * n
    ensures Square(g, n)
  {
    seq(n, i requires 0 <= i < n => seq(n, j requires 0 <= j < n => (CellIndexBound(i, j, n); p[i * n + j])))
  }

  /** Cutting a sequence into rows and flattening them again gives it back. */
  lemma FlattenUnflatten(p: seq<nat>, n: nat)
    requires |p| == n * n
    ensures Flatten(Unflatten(p, n), n) == p
  {
    var g := Unflatten(p, n);
    var s := Flatten(g, n);
    forall l | 0 <= l < n * n ensures s[l] == p[l] {
      var i, j := FlattenRowsCell(g, n, n, l);
    }
  }

  /** The rows cut from a permutation of 0 .. n*n-1 form a tile grid. */
  lemma UnflattenIsTileGrid(p: seq<nat>, n: nat)
    requires |p| == n * n && IsZeroBasedPermutation(p)
    ensures IsTileGrid(Unflatten(p, n), n)
  {
    var g := Unflatten(p, n);
    forall i, j, k, l | 0 <= i < n && 0 <= j < n && 0 <= k < n && 0 <= l < n && (i, j) != (k, l)
      ensures g[i][j] != g[k][l]
    {
      UnflattenCells(p, n, i, j, k, l);
    }
    forall i, j | 0 <= i < n && 0 <= j < n ensures g[i][j] < n * n {
      CellIndexBound(i, j, n);
    }
    if n > 0 {
      UnflattenHasBlank(p, n);
    }
  }

  lemma UnflattenCells(p: seq<nat>, n: nat, i: nat, j: nat, k: nat, l: nat)
    requires |p| == n * n && IsZeroBasedPermutation(p)
    requires i < n && j < n && k < n && l < n && (i, j) != (k, l)
    ensures var g := Unflatten(p, n); g[i][j] != g[k][l] && g[i][j] < n * n
  {
    CellIndexBound(i, j, n);
    CellIndexBound(k, l, n);
    if i * n + j == k * n + l {
      CellIndexUnique(i, j, k, l, n);
    }
  }

  /** Cell (i, j) of the cut-up sequence holds element i*n + j. */
  lemma UnflattenAt(p: seq<nat>, n: nat, i: nat, j: nat, m: nat)
    requires |p| == n * n && i < n && j < n && m == i * n + j
    ensures m < |p| && Unflatten(p, n)[i][j] == p[m]
  {
    CellIndexBound(i, j, n);
  }

  lemma UnflattenHasBlank(p: seq<nat>, n: nat)
    requires |p| == n * n && IsZeroBasedPermutation(p) && n > 0
    ensures exists i, j :: 0 <= i < n && 0 <= j < n && Unflatten(p, n)[i][j] == 0
  {
    PermutationHasEvery(p, 0);
    var m :| 0 <= m < |p| && p[m] == 0;
    CellOfIndex(m, n);
    var i, j := m / n, m % n;
    UnflattenAt(p, n, i, j, m);
  }

  /** The position at or after k of the first 0, or |s| when there is none. */
  function FirstZero(s: seq<nat>, k: nat): (z: nat)
    requires k <= |s|
    ensures k <= z <= |s|
    ensures z < |s| ==> s[z] == 0
    ensures forall l :: k <= l < z ==> s[l] != 0
    decreases |s| - k
  {
    if k == |s| || s[k] == 0 then k else FirstZero(s, k + 1)
  }

  /** set_fields' rewrite: the first 0 becomes v, everything else stays. */
  function ReplaceFirstZero(s: seq<nat>, v: nat): seq<nat>
  {
    var z := FirstZero(s, 0);
    if z < |s| then s[z := v] else s
  }

  /** set_fields' loop: scan for the first 0 and overwrite it with the length, then stop. */
  method RewriteBlank(permutation: seq<nat>) returns (p: seq<nat>)
    ensures p == ReplaceFirstZero(permutation, |permutation|)
  {
    p := permutation;
    var k := 0;
    while k < |p| && p[k] != 0
      invariant k <= |p| && p == permutation
      invariant forall l :: 0 <= l < k ==> permutation[l] != 0
    {
      k := k + 1;
    }
    if k < |p| {
      p := p[k := |p|];
    }
  }

  /** The permutation whose parity decides solvability. */
  function Rewritten(data: Grid, n: nat): seq<nat>
    requires Square(data, n)
  {
    ReplaceFirstZero(Flatten(data, n), n * n)
  }

  /** Different positions of a flattened tile grid hold different values, all below n*n. */
  lemma FlattenDistinct(data: Grid, n: nat, l: nat, m: nat)
    requires IsTileGrid(data, n) && l < n * n && m < n * n && l != m
    ensures Flatten(data, n)[l] != Flatten(data, n)[m] && Flatten(data, n)[l] < n * n
  {
    var i, j := FlattenRowsCell(data, n, n, l);
    var k, k' := FlattenRowsCell(data, n, n, m);
    assert (i, j) != (k, k');
  }

  /** A tile grid, its blank replaced by n*n, is a permutation of 1 .. n*n, so permutation_parity applies to it. */
  lemma RewrittenIsPermutation(data: Grid, n: nat)
    requires IsTileGrid(data, n)
    ensures IsOneBasedPermutation(Rewritten(data, n))
  {
    FlattenIsZeroBased(data, n);
    if n > 0 {
      assert n * n > 0;
      ZeroReplaced(Flatten(data, n));
    }
  }

  /** The flattened tile grid holds each of 0 .. n*n-1 once. */
  lemma FlattenIsZeroBased(data: Grid, n: nat)
    requires IsTileGrid(data, n)
    ensures IsZeroBasedPermutation(Flatten(data, n))
  {
    var s := Flatten(data, n);
    forall k | 0 <= k < |s| ensures s[k] < |s| {
      var i, j := FlattenRowsCell(data, n, n, k);
    }
    forall k, l | 0 <= k < |s| && 0 <= l < |s| && k != l ensures s[k] != s[l] {
      FlattenDistinct(data, n, k, l);
    }
  }

  /** Overwriting the 0 of a permutation of 0 .. m-1 with m gives a permutation of 1 .. m. */
  lemma ZeroReplaced(s: seq<nat>)
    requires IsZeroBasedPermutation(s) && |s| > 0
    ensures IsOneBasedPermutation(ReplaceFirstZero(s, |s|))
  {
    PermutationHasEvery(s, 0);
    var z := FirstZero(s, 0);
    assert z < |s|;
    var r := s[z := |s|];
    forall k | 0 <= k < |r| ensures 1 <= r[k] <= |r| {
      if k != z {
        assert s[k] != s[z];
      }
    }
    forall k, l | 0 <= k < |r| && 0 <= l < |r| && k != l ensures r[k] != r[l] {
      if k != z && l != z {
        assert s[k] != s[l];
      }
    }
  }

  /** The solvability condition set_fields evaluates: permutation parity equals the parity of the blank's distance from the last cell. */
  ghost predicate Solvable(data: Grid, n: nat, blank: (nat, nat))
    requires IsTileGrid(data, n) && (n > 0 ==> blank.0 < n && blank.1 < n)
  {
    RewrittenIsPermutation(data, n);
    var perm := Rewritten(data, n);
    n == 0 || (|perm| - NumCycles(perm)) % 2 == CellDistance(data, n, blank.0, blank.1) % 2
  }

  /** The goal board, flattened and rewritten, is the identity 1 .. n*n. */
  lemma GoalRewritten(n: nat)
    requires n >= 1
    ensures var perm := Rewritten(GoalGrid(n), n);
      |perm| == n * n && forall l :: 0 <= l < |perm| ==> perm[l] == l + 1
  {
    var g := GoalGrid(n);
    var s := Flatten(g, n);
    CellIndexBound(n - 1, n - 1, n);
    FlattenRowsIndex(g, n, n, n - 1, n - 1);
    forall l | 0 <= l < n * n - 1 ensures s[l] == l + 1 {
      var q, r := FlattenRowsCell(g, n, n, l);
      CellIndexBound(q, r, n);
    }
    assert FirstZero(s, 0) == n * n - 1;
  }

  /** The goal board passes set_fields' solvability test. */
  lemma GoalIsSolvable(n: nat)
    requires n >= 1
    ensures IsTileGrid(GoalGrid(n), n) && Solvable(GoalGrid(n), n, (n - 1, n - 1))
  {
    GoalGridIsTileGrid(n);
    GoalRewritten(n);
    RewrittenIsPermutation(GoalGrid(n), n);
    IdentityCycles(Rewritten(GoalGrid(n), n));
    GoalGridOnPlace(n, n - 1, n - 1);
    OnPlaceGoal(GoalGrid(n), n, n - 1, n - 1);
  }
}
