/**
 * The parity of a permutation, computed as permutation_parity does: walk
 * every cycle of j |-> perm[j] - 1 once, marking cells in a visited array.
 * The result is (length - number of cycles) mod 2.
 */
module Parity {
  /** perm holds each of 1 .. |perm| exactly once. */
  predicate IsOneBasedPermutation(perm: seq<nat>)
  {
    (forall k :: 0 <= k < |perm| ==> 1 <= perm[k] <= |perm|) &&
    (forall k, l :: 0 <= k < |perm| && 0 <= l < |perm| && k != l ==> perm[k] != perm[l])
  }

  /** The successor of j on its cycle. */
  function Next(perm: seq<nat>, j: nat): nat
    requires IsOneBasedPermutation(perm) && j < |perm|
  {
    perm[j] - 1
  }

  /** The k-th successor of x. */
  function Iter(perm: seq<nat>, x: nat, k: nat): (y: nat)
    requires IsOneBasedPermutation(perm) && x < |perm|
    ensures y < |perm|
  {
    if k == 0 then x else Next(perm, Iter(perm, x, k - 1))
  }

  /** x is the least element of its cycle. */
  ghost predicate IsLeader(perm: seq<nat>, x: nat)
    requires IsOneBasedPermutation(perm) && x < |perm|
  {
    forall k: nat :: Iter(perm, x, k) >= x
  }

  /** The number of cycles of the permutation: one leader per cycle. */
  ghost function NumCycles(perm: seq<nat>): nat
    requires IsOneBasedPermutation(perm)
  {
    |LeadersBelow(perm, |perm|)|
  }

  ghost function LeadersBelow(perm: seq<nat>, i: nat): set<nat>
    requires IsOneBasedPermutation(perm) && i <= |perm|
  {
    set x: nat | x < i && IsLeader(perm, x)
  }

  /** Under the identity every element is a fixed point. */
  lemma {:induction false} IterIdentity(perm: seq<nat>, x: nat, k: nat)
    requires IsOneBasedPermutation(perm) && x < |perm|
    requires forall j :: 0 <= j < |perm| ==> perm[j] == j + 1
    ensures Iter(perm, x, k) == x
    decreases k
  {
    if k > 0 {
      IterIdentity(perm, x, k - 1);
    }
  }

  /** The identity has one cycle per element, so its parity is even. */
  lemma IdentityCycles(perm: seq<nat>)
    requires IsOneBasedPermutation(perm)
    requires forall j :: 0 <= j < |perm| ==> perm[j] == j + 1
    ensures NumCycles(perm) == |perm|
  {
    forall x: nat | x < |perm| ensures IsLeader(perm, x) {
      forall k: nat ensures Iter(perm, x, k) >= x {
        IterIdentity(perm, x, k);
      }
    }
    assert LeadersBelow(perm, |perm|) == Range(|perm|);
  }

  lemma {:induction false} IterAdd(perm: seq<nat>, x: nat, a: nat, b: nat)
    requires IsOneBasedPermutation(perm) && x < |perm|
    ensures Iter(perm, Iter(perm, x, a), b) == Iter(perm, x, a + b)
    decreases b
  {
    if b > 0 {
      IterAdd(perm, x, a, b - 1);
    }
  }

  /** Equal successors mean equal cells, because the values of perm are distinct. */
  lemma NextInjective(perm: seq<nat>, y: nat, z: nat)
    requires IsOneBasedPermutation(perm) && y < |perm| && z < |perm|
    requires Next(perm, y) == Next(perm, z)
    ensures y == z
  {
  }

  /** A set closed under predecessors that misses x misses the whole walk from x. */
  lemma {:induction false} WalkAvoids(perm: seq<nat>, v: set<nat>, x: nat, k: nat)
    requires IsOneBasedPermutation(perm) && x < |perm| && x !in v
    requires forall y: nat :: y < |perm| && Next(perm, y) in v ==> y in v
    ensures Iter(perm, x, k) !in v
    decreases k
  {
    if k > 0 {
      WalkAvoids(perm, v, x, k - 1);
    }
  }

  /** The cells 0 .. n-1. */
  function Range(n: nat): (r: set<nat>)
    ensures forall y: nat :: y in r <==> y < n
    ensures |r| == n
  {
    if n == 0 then {} else Range(n - 1) + {n - 1}
  }

  /** path is the walk from path[0] along successors, returning to path[0] after its last cell. */
  ghost predicate IsCycle(perm: seq<nat>, path: seq<nat>)
    requires IsOneBasedPermutation(perm)
  {
    |path| >= 1 &&
    (forall t :: 0 <= t < |path| ==> path[t] < |perm|) &&
    (forall t, u :: 0 <= t < |path| && 0 <= u < |path| && u == t + 1 ==> path[u] == Next(perm, path[t])) &&
    Next(perm, path[|path| - 1]) == path[0]
  }

  ghost predicate Distinct(path: seq<nat>)
  {
    forall t, u :: 0 <= t < u < |path| ==> path[t] != path[u]
  }

  ghost function Cells(path: seq<nat>): set<nat>
  {
    set y | y in path
  }

  lemma {:induction false} DistinctCellsSize(path: seq<nat>)
    requires Distinct(path)
    ensures |Cells(path)| == |path|
    decreases |path|
  {
    if |path| > 0 {
      var last := path[|path| - 1];
      DistinctCellsSize(path[..|path| - 1]);
      assert Cells(path) == Cells(path[..|path| - 1]) + {last};
      assert last !in Cells(path[..|path| - 1]);
    }
  }

  /** The t-th cell of a walk is the t-th successor of its start. */
  lemma {:induction false} WalkIsIter(perm: seq<nat>, path: seq<nat>, t: nat)
    requires IsOneBasedPermutation(perm) && |path| >= 1 && t < |path|
    requires forall s :: 0 <= s < |path| ==> path[s] < |perm|
    requires forall s, u :: 0 <= s < |path| && 0 <= u < |path| && u == s + 1 ==> path[u] == Next(perm, path[s])
    ensures path[t] == Iter(perm, path[0], t)
    decreases t
  {
    if t > 0 {
      WalkIsIter(perm, path, t - 1);
    }
  }

  ghost function VisitedSet(visited: seq<bool>): set<nat>
  {
    set y: nat | y < |visited| && visited[y]
  }

  ghost function UnvisitedSet(visited: seq<bool>): set<nat>
  {
    set y: nat | y < |visited| && !visited[y]
  }

  /** Marking cell j moves it from the unvisited cells to the visited ones. */
  lemma Mark(visited: seq<bool>, j: nat)
    requires j < |visited| && !visited[j]
    ensures VisitedSet(visited[j := true]) == VisitedSet(visited) + {j}
    ensures UnvisitedSet(visited[j := true]) == UnvisitedSet(visited) - {j}
    ensures j in UnvisitedSet(visited)
  {
  }

  /** Some walk from y reaches a cell below i. */
  ghost predicate ReachesBelow(perm: seq<nat>, y: nat, i: nat)
    requires IsOneBasedPermutation(perm)
  {
    y < |perm| && exists k: nat :: Iter(perm, y, k) < i
  }

  lemma LeadersStep(perm: seq<nat>, i: nat)
    requires IsOneBasedPermutation(perm) && i < |perm|
    ensures LeadersBelow(perm, i + 1) == LeadersBelow(perm, i) + (if IsLeader(perm, i) then {i} else {})
  {
  }

  /** The state of the do-while loop: path is the part of i's cycle marked so far and j the next cell. */
  ghost predicate Marking(perm: seq<nat>, visited: seq<bool>, v0: set<nat>, path: seq<nat>, i: nat, j: nat)
    requires IsOneBasedPermutation(perm)
  {
    |visited| == |perm| && |path| >= 1 && path[0] == i &&
    (forall t :: 0 <= t < |path| ==> path[t] < |perm|) &&
    (forall t, u :: 0 <= t < |path| && 0 <= u < |path| && u == t + 1 ==> path[u] == Next(perm, path[t])) &&
    j == Next(perm, path[|path| - 1]) &&
    Distinct(path) &&
    VisitedSet(visited) == v0 + Cells(path) &&
    Cells(path) !! v0
  }

  lemma MarkStart(perm: seq<nat>, visited: seq<bool>, v0: set<nat>, i: nat)
    requires IsOneBasedPermutation(perm) && |visited| == |perm| && i < |perm|
    requires v0 == VisitedSet(visited) && i !in v0
    ensures Marking(perm, visited[i := true], v0, [i], i, Next(perm, i))
  {
    Mark(visited, i);
    assert Cells([i]) == {i};
  }

  /** The next cell of an unfinished walk is new: neither on the walk nor visited before it. */
  lemma NextIsFresh(perm: seq<nat>, visited: seq<bool>, v0: set<nat>, path: seq<nat>, i: nat, j: nat)
    requires IsOneBasedPermutation(perm) && Marking(perm, visited, v0, path, i, j) && j != i
    requires forall y: nat :: y < |perm| && Next(perm, y) in v0 ==> y in v0
    ensures j !in path && j !in v0 && j < |visited| && !visited[j]
  {
    forall t | 0 <= t < |path| ensures path[t] != j {
      if t > 0 && path[t] == j {
        NextInjective(perm, path[t - 1], path[|path| - 1]);
      }
    }
  }

  /** One more turn of the do-while loop, when j has not yet come back to i. */
  lemma MarkStep(perm: seq<nat>, visited: seq<bool>, v0: set<nat>, path: seq<nat>, i: nat, j: nat)
    requires IsOneBasedPermutation(perm) && Marking(perm, visited, v0, path, i, j)
    requires j !in path && j !in v0 && j < |visited| && !visited[j]
    ensures Marking(perm, visited[j := true], v0, path + [j], i, Next(perm, j))
    ensures |UnvisitedSet(visited[j := true])| < |UnvisitedSet(visited)|
  {
    Mark(visited, j);
    assert Cells(path + [j]) == Cells(path) + {j};
    var p := path + [j];
    assert forall t :: 0 <= t < |path| ==> p[t] == path[t];
  }

  /**
   * The do-while loop of permutation_parity: starting from an unvisited
   * cell i, mark the cells of its cycle and return the cycle's length.
   */
  method MarkCycle(perm: seq<nat>, visited: array<bool>, i: nat, ghost v0: set<nat>)
    returns (m: nat, ghost path: seq<nat>)
    requires IsOneBasedPermutation(perm) && visited.Length == |perm| && i < |perm|
    requires v0 == VisitedSet(visited[..]) && i !in v0
    requires forall y: nat :: y < |perm| && Next(perm, y) in v0 ==> y in v0
    modifies visited
    ensures m == |path| && IsCycle(perm, path) && path[0] == i && Distinct(path)
    ensures VisitedSet(visited[..]) == v0 + Cells(path)
    ensures Cells(path) !! v0
  {
    var j: nat := i;
    MarkStart(perm, visited[..], v0, i);
    visited[j] := true;
    j := perm[j] - 1;
    m := 1;
    path := [i];
    while j != i
      invariant m == |path|
      invariant Marking(perm, visited[..], v0, path, i, j)
      decreases |UnvisitedSet(visited[..])|
    {
      NextIsFresh(perm, visited[..], v0, path, i, j);
      MarkStep(perm, visited[..], v0, path, i, j);
      visited[j] := true;
      path := path + [j];
      j := perm[j] - 1;
      m := m + 1;
    }
  }

  /** After a whole cycle is marked, the visited cells are again closed under predecessors. */
  lemma CycleClosed(perm: seq<nat>, v0: set<nat>, path: seq<nat>)
    requires IsOneBasedPermutation(perm) && IsCycle(perm, path)
    requires forall y: nat :: y < |perm| && Next(perm, y) in v0 ==> y in v0
    ensures forall y: nat :: y < |perm| && Next(perm, y) in v0 + Cells(path) ==> y in v0 + Cells(path)
  {
    forall y: nat | y < |perm| && Next(perm, y) in v0 + Cells(path)
      ensures y in v0 + Cells(path)
    {
      if Next(perm, y) !in v0 {
        var t :| 0 <= t < |path| && path[t] == Next(perm, y);
        if t == 0 {
          NextInjective(perm, y, path[|path| - 1]);
        } else {
          NextInjective(perm, y, path[t - 1]);
        }
      }
    }
  }

  /** Every cell of the cycle through i returns to i. */
  lemma CycleReturns(perm: seq<nat>, path: seq<nat>, y: nat)
    requires IsOneBasedPermutation(perm) && IsCycle(perm, path)
    requires y in path
    ensures ReachesBelow(perm, y, path[0] + 1)
  {
    var t :| 0 <= t < |path| && path[t] == y;
    var m := |path|;
    WalkIsIter(perm, path, t);
    WalkIsIter(perm, path, m - 1);
    IterAdd(perm, path[0], t, m - t);
    assert Iter(perm, y, m - t) == path[0];
  }

  /** The invariant of permutation_parity's outer loop survives marking the cycle through i. */
  lemma AfterCycle(perm: seq<nat>, v0: set<nat>, path: seq<nat>)
    requires IsOneBasedPermutation(perm) && IsCycle(perm, path)
    requires forall y: nat :: y < |perm| && Next(perm, y) in v0 ==> y in v0
    requires forall y {:trigger ReachesBelow(perm, y, path[0])} :: y in v0 ==> ReachesBelow(perm, y, path[0])
    ensures forall y: nat :: y < |perm| && Next(perm, y) in v0 + Cells(path) ==> y in v0 + Cells(path)
    ensures forall y {:trigger ReachesBelow(perm, y, path[0] + 1)} :: y in v0 + Cells(path) ==> ReachesBelow(perm, y, path[0] + 1)
  {
    CycleClosed(perm, v0, path);
    forall y | y in v0 + Cells(path) ensures ReachesBelow(perm, y, path[0] + 1) {
      if y !in v0 {
        CycleReturns(perm, path, y);
      } else {
        assert ReachesBelow(perm, y, path[0]);
        var k: nat :| Iter(perm, y, k) < path[0];
      }
    }
  }

  /** The state of permutation_parity's outer loop before cell i. */
  ghost predicate Counted(perm: seq<nat>, visited: seq<bool>, v: set<nat>, i: nat, count: int)
    requires IsOneBasedPermutation(perm)
  {
    |visited| == |perm| && i <= |perm| &&
    v == VisitedSet(visited) &&
    (forall y: nat :: y < i ==> y in v) &&
    (forall y: nat :: y < |perm| && Next(perm, y) in v ==> y in v) &&
    (forall y {:trigger ReachesBelow(perm, y, i)} :: y in v ==> ReachesBelow(perm, y, i)) &&
    count == |v| - |LeadersBelow(perm, i)|
  }

  /** A visited cell i lies on the cycle of a smaller cell, so it leads no new cycle. */
  lemma SkipVisited(perm: seq<nat>, visited: seq<bool>, v: set<nat>, i: nat, count: int)
    requires IsOneBasedPermutation(perm) && i < |perm| && Counted(perm, visited, v, i, count)
    requires visited[i]
    ensures Counted(perm, visited, v, i + 1, count)
  {
    assert i in v;
    forall y: nat | y < i + 1 ensures y in v {
    }
    LeadersStep(perm, i);
    assert ReachesBelow(perm, i, i);
    var k: nat :| Iter(perm, i, k) < i;
    assert !IsLeader(perm, i);
    forall y | y in v ensures ReachesBelow(perm, y, i + 1) {
      assert ReachesBelow(perm, y, i);
      var k: nat :| Iter(perm, y, k) < i;
    }
  }

  /** An unvisited cell i is the least cell of its cycle. */
  lemma UnvisitedLeads(perm: seq<nat>, visited: seq<bool>, v: set<nat>, i: nat, count: int)
    requires IsOneBasedPermutation(perm) && i < |perm| && Counted(perm, visited, v, i, count)
    requires !visited[i]
    ensures IsLeader(perm, i) && i !in v
  {
    forall k: nat ensures Iter(perm, i, k) >= i {
      WalkAvoids(perm, v, i, k);
    }
  }

  /** Marking the cycle of a leader adds its length to the visited cells and one cycle. */
  lemma CountCycle(perm: seq<nat>, visited: seq<bool>, v: set<nat>, i: nat, count: int,
                   visited': seq<bool>, path: seq<nat>)
    requires IsOneBasedPermutation(perm) && i < |perm| && Counted(perm, visited, v, i, count)
    requires IsLeader(perm, i) && i !in v
    requires |visited'| == |perm| && IsCycle(perm, path) && path[0] == i && Distinct(path)
    requires VisitedSet(visited') == v + Cells(path) && Cells(path) !! v
    ensures Counted(perm, visited', v + Cells(path), i + 1, count + |path| - 1)
  {
    LeadersStep(perm, i);
    DistinctCellsSize(path);
    AfterCycle(perm, v, path);
  }

  /** One turn of permutation_parity's loop: an unvisited cell i leads a new cycle, which is marked and counted. */
  method VisitCell(perm: seq<nat>, visited: array<bool>, i: nat, ghost v: set<nat>, count: int)
    returns (count': int, ghost v': set<nat>)
    requires IsOneBasedPermutation(perm) && visited.Length == |perm| && i < |perm|
    requires Counted(perm, visited[..], v, i, count)
    modifies visited
    ensures Counted(perm, visited[..], v', i + 1, count')
  {
    if !visited[i] {
      UnvisitedLeads(perm, visited[..], v, i, count);
      ghost var before := visited[..];
      var m, path := MarkCycle(perm, visited, i, v);
      CountCycle(perm, before, v, i, count, visited[..], path);
      count' := count + m - 1;
      v' := v + Cells(path);
    } else {
      SkipVisited(perm, visited[..], v, i, count);
      count', v' := count, v;
    }
  }

  /** permutation_parity: each unvisited cell starts the walk over its own cycle. */
  method PermutationParity(perm: seq<nat>) returns (parity: nat)
    requires IsOneBasedPermutation(perm)
    ensures parity == (|perm| - NumCycles(perm)) % 2
  {
    var n := |perm|;
    var visited := new bool[n](_ => false);
    var count: int := 0;
    ghost var v: set<nat> := {};
    NothingCounted(perm, visited[..]);
    for i := 0 to n
      invariant Counted(perm, visited[..], v, i, count)
    {
      count, v := VisitCell(perm, visited, i, v, count);
    }
    AllCounted(perm, visited[..], v, count);
    parity := count % 2;
  }

  /** Before the loop nothing is visited and no cycle is counted. */
  lemma NothingCounted(perm: seq<nat>, visited: seq<bool>)
    requires IsOneBasedPermutation(perm) && |visited| == |perm|
    requires forall y :: 0 <= y < |visited| ==> !visited[y]
    ensures Counted(perm, visited, {}, 0, 0)
  {
    assert VisitedSet(visited) == {};
    assert LeadersBelow(perm, 0) == {};
  }

  /** After the loop every cell is visited, so the count is the cells less the cycles. */
  lemma AllCounted(perm: seq<nat>, visited: seq<bool>, v: set<nat>, count: int)
    requires IsOneBasedPermutation(perm) && Counted(perm, visited, v, |perm|, count)
    ensures count == |perm| - NumCycles(perm)
  {
    assert v == Range(|perm|);
  }
}
