/**
 * The solver: best-first search over boards. The open set is a std::set of
 * nodes (priority, board) ordered by priority and then by the boards' grids;
 * close_list and came_from are unordered maps whose keys compare the whole
 * pair, priority included, while their hash reads the board alone.
 */
module PuzzleSolver {
  import opened Wrappers
  import opened Lex
  import opened PuzzleGrid
  import opened PuzzleMoves
  import opened PuzzleBoard

  /** Node = pair<unsigned, Board>. */
  datatype Node = Node(priority: nat, board: BoardState)

  /** What pair== compares: the priority, then Board== (size and cells). */
  datatype NodeKey = NodeKey(priority: nat, size: nat, data: Grid)

  function Key(v: Node): NodeKey
  {
    NodeKey(v.priority, v.board.size, v.board.data)
  }

  /** hash<Node>: the hash of the board; the priority is not read. */
  function NodeHash(v: Node): nat
    requires Square(v.board.data, v.board.size)
  {
    BoardHash(v.board)
  }

  /** Two nodes over the same board with different priorities hash alike but are different keys. */
  lemma HashIgnoresPriority(v: Node, q: nat)
    requires Square(v.board.data, v.board.size)
    ensures NodeHash(v.(priority := q)) == NodeHash(v)
    ensures Key(v.(priority := q)) == Key(v) <==> q == v.priority
  {
  }

  /** Nodes with equal keys hash alike, as unordered_map needs. */
  lemma EqualKeysHashAlike(a: Node, b: Node)
    requires Square(a.board.data, a.board.size) && Square(b.board.data, b.board.size)
    requires a.priority == b.priority && SameBoard(a.board, b.board)
    ensures Key(a) == Key(b) && NodeHash(a) == NodeHash(b)
  {
    SameBoardMeansEqualGrids(a.board, b.board);
  }

  // ------------------------------------------------------------ the open set

  /** pair<unsigned, Board>'s operator<: by priority, then by Board's operator<. */
  predicate NodeLess(a: Node, b: Node)
  {
    a.priority < b.priority || (a.priority == b.priority && GridLess(a.board.data, b.board.data))
  }

  /** What std::set treats as one element: neither node is less than the other. */
  predicate Equivalent(a: Node, b: Node)
  {
    a.priority == b.priority && a.board.data == b.board.data
  }

  lemma EquivalentIsNeitherLess(a: Node, b: Node)
    ensures Equivalent(a, b) <==> !NodeLess(a, b) && !NodeLess(b, a)
  {
    GridLessIsStrictTotalOrder();
  }

  lemma NodeLessTransitive(a: Node, b: Node, c: Node)
    requires NodeLess(a, b) && NodeLess(b, c)
    ensures NodeLess(a, c)
  {
    GridLessIsStrictTotalOrder();
  }

  /** The open set as the ascending sequence of its elements. */
  ghost predicate Ascending(s: seq<Node>)
  {
    forall k, l :: 0 <= k < l < |s| ==> NodeLess(s[k], s[l])
  }

  /** std::set::erase(v): remove the element equivalent to v, if there is one. */
  function Erase(s: seq<Node>, v: Node): (r: seq<Node>)
  {
    if s == [] then []
    else if Equivalent(s[0], v) then s[1..]
    else [s[0]] + Erase(s[1..], v)
  }

  /** Erasing keeps the order and removes exactly the elements equivalent to v. */
  lemma {:induction false} EraseContents(s: seq<Node>, v: Node)
    requires Ascending(s)
    ensures Ascending(Erase(s, v))
    ensures forall x :: x in Erase(s, v) <==> x in s && !Equivalent(x, v)
    decreases |s|
  {
    if s != [] {
      assert forall x :: x in s[1..] ==> NodeLess(s[0], x);
      if Equivalent(s[0], v) {
        forall x | x in s[1..] ensures !Equivalent(x, v) {
          EquivalentIsNeitherLess(s[0], x);
        }
      } else {
        EraseContents(s[1..], v);
      }
    }
  }

  /** std::set::insert(v): v goes in its place unless an equivalent element is already there. */
  function Insert(s: seq<Node>, v: Node): (r: seq<Node>)
  {
    if s == [] then [v]
    else if NodeLess(v, s[0]) then [v] + s
    else if NodeLess(s[0], v) then [s[0]] + Insert(s[1..], v)
    else s
  }

  /** Inserting a node with no equivalent keeps the order and adds exactly that node. */
  lemma {:induction false} InsertContents(s: seq<Node>, v: Node)
    requires Ascending(s) && forall y :: y in s ==> !Equivalent(y, v)
    ensures Ascending(Insert(s, v))
    ensures forall x :: x in Insert(s, v) <==> x in s || x == v
    decreases |s|
  {
    if s != [] {
      EquivalentIsNeitherLess(s[0], v);
      if NodeLess(v, s[0]) {
        forall l | 0 < l < |s| ensures NodeLess(v, s[l]) {
          NodeLessTransitive(v, s[0], s[l]);
        }
      } else {
        var t := s[1..];
        assert Ascending(t) by {
          forall k, l | 0 <= k < l < |t| ensures NodeLess(t[k], t[l]) {
            assert t[k] == s[k + 1] && t[l] == s[l + 1];
          }
        }
        InsertContents(t, v);
        var r := Insert(t, v);
        assert forall x :: x in r ==> NodeLess(s[0], x);
        assert Insert(s, v) == [s[0]] + r;
      }
    }
  }

  // ------------------------------------------------------------- heuristics

  const I32: int := 0x8000_0000

  /** heuristic: manhattan() + linear_conflict() in unsigned arithmetic, returned as an int. */
  function Heuristic(b: BoardState): (h: int)
    ensures -I32 <= h < I32
    ensures Wrap32(h) == Wrap32(b.manhattan + b.linearConflict)
    ensures b.manhattan + b.linearConflict < I32 ==> h == b.manhattan + b.linearConflict
  {
    var u := Wrap32(b.manhattan + b.linearConflict);
    if u < I32 then u else u - U32
  }

  /** The priority a relaxed neighbour gets: new_level + heuristic, stored in an unsigned. */
  function Priority(level: int, b: BoardState): (p: nat)
    ensures p < U32
    ensures p == Wrap32(level + b.manhattan + b.linearConflict)
  {
    ModAdd(level + b.manhattan + b.linearConflict, Heuristic(b) - b.manhattan - b.linearConflict);
    Wrap32(level + Heuristic(b))
  }

  // -------------------------------------------------------------- neighbours

  /** Up, left, down, right. */
  const Deltas: seq<(int, int)> := [(-1, 0), (0, -1), (1, 0), (0, 1)]

  /** Cells p and q share a side. */
  predicate Adjacent(p: (int, int), q: (int, int))
  {
    (p.0 == q.0 && (p.1 + 1 == q.1 || q.1 + 1 == p.1)) ||
    (p.1 == q.1 && (p.0 + 1 == q.0 || q.0 + 1 == p.0))
  }

  /** d is the grid of s after one legal move: a tile next to the blank slid into it. */
  ghost predicate OneMoveApart(s: BoardState, d: Grid)
  {
    exists p: (nat, nat) :: IsMove(s.data, s.size, s.blank, p) && Adjacent(p, s.blank) && d == SwapCells(s.data, s.size, p, s.blank)
  }

  /** The cell delta k leads to from the blank; it may lie outside the board. */
  function Target(s: BoardState, k: nat): (t: (int, int))
    requires k < 4
    ensures Adjacent(t, s.blank)
  {
    (s.blank.0 + Deltas[k].0, s.blank.1 + Deltas[k].1)
  }

  /** The neighbour through delta k, if the cell next to the blank in that direction is in bounds: the move made, priority 0. */
  function NeighborAt(s: BoardState, k: nat): (r: seq<Node>)
    requires ValidState(s) && k < 4
    ensures |r| <= 1
  {
    var (x, y) := Target(s, k);
    if 0 <= x < s.size && 0 <= y < s.size then [Node(0, Moved(s, (x, y)))] else []
  }

  /** The neighbours through deltas k .. 3, in delta order. */
  function NeighborsFrom(s: BoardState, k: nat): (r: seq<Node>)
    requires ValidState(s) && k <= 4
    ensures |r| <= 4 - k
    decreases 4 - k
  {
    if k == 4 then [] else NeighborAt(s, k) + NeighborsFrom(s, k + 1)
  }

  /** What makes a node a neighbour of s: priority 0, and a valid board of the same size and solvability one move away. */
  ghost predicate IsNeighbor(s: BoardState, v: Node)
    requires ValidState(s)
  {
    v.priority == 0 && ValidState(v.board) && v.board.size == s.size && v.board.solvable == s.solvable &&
    IsMove(s.data, s.size, s.blank, v.board.blank) && Adjacent(v.board.blank, s.blank) &&
    v.board.data == SwapCells(s.data, s.size, v.board.blank, s.blank)
  }

  lemma NeighborIsOneMove(s: BoardState, v: Node)
    requires ValidState(s) && IsNeighbor(s, v)
    ensures OneMoveApart(s, v.board.data)
  {
    var p := v.board.blank;
    assert IsMove(s.data, s.size, s.blank, p) && Adjacent(p, s.blank) && v.board.data == SwapCells(s.data, s.size, p, s.blank);
  }

  lemma NeighborAtIsMove(s: BoardState, k: nat)
    requires ValidState(s) && k < 4
    ensures forall v :: v in NeighborAt(s, k) ==> IsNeighbor(s, v)
  {
    var (x, y) := Target(s, k);
    if 0 <= x < s.size && 0 <= y < s.size {
      MovedIsValid(s, (x, y));
      assert IsNeighbor(s, Node(0, Moved(s, (x, y))));
    }
  }

  /** Every neighbour is one move away from s. */
  lemma {:induction false} NeighborsAreMoves(s: BoardState, k: nat)
    requires ValidState(s) && k <= 4
    ensures forall v :: v in NeighborsFrom(s, k) ==> IsNeighbor(s, v)
    decreases 4 - k
  {
    if k < 4 {
      NeighborsAreMoves(s, k + 1);
      NeighborAtIsMove(s, k);
    }
  }

  /** The cell next to the blank through delta k, when in bounds, is a legal swap target. */
  lemma DeltaIsMove(s: BoardState, k: nat)
    requires ValidState(s) && k < 4
    ensures var (x, y) := Target(s, k);
      0 <= x < s.size && 0 <= y < s.size ==>
      IsMove(s.data, s.size, s.blank, (x, y)) && (x == s.blank.0 || y == s.blank.1)
  {
  }

  /** NeighborAt unfolded: the moved board when the target is in bounds, nothing otherwise. */
  lemma NeighborAtValue(s: BoardState, k: nat, x: int, y: int)
    requires ValidState(s) && k < 4
    requires (x, y) == Target(s, k)
    ensures 0 <= x < s.size && 0 <= y < s.size ==>
      IsMove(s.data, s.size, s.blank, (x, y)) && (x == s.blank.0 || y == s.blank.1) &&
      NeighborAt(s, k) == [Node(0, Moved(s, (x, y)))]
    ensures !(0 <= x < s.size && 0 <= y < s.size) ==> NeighborAt(s, k) == []
  {
    DeltaIsMove(s, k);
  }

  /** One turn of neighbors' loop: copy the board and, when the cell next to the blank is in bounds, swap it in. */
  method NeighborThrough(s: BoardState, k: nat) returns (r: seq<Node>)
    requires ValidState(s) && k < 4
    ensures r == NeighborAt(s, k)
  {
    var b := new Board.Copy(s);
    var (x, y) := Target(s, k);
    NeighborAtValue(s, k, x, y);
    if b.InBounds(x, y) {
      b.SwapBlank(x, y);
      r := [Node(0, b.State())];
    } else {
      r := [];
    }
  }

  lemma NeighborsFromStep(s: BoardState, k: nat, r: seq<Node>)
    requires ValidState(s) && k < 4
    ensures r + NeighborsFrom(s, k) == (r + NeighborAt(s, k)) + NeighborsFrom(s, k + 1)
  {
    assert NeighborsFrom(s, k) == NeighborAt(s, k) + NeighborsFrom(s, k + 1);
  }

  /** neighbors: the nodes through each delta in turn, up, left, down, right. */
  method Neighbors(s: BoardState) returns (r: seq<Node>)
    requires ValidState(s)
    ensures r == NeighborsFrom(s, 0)
    ensures forall i :: 0 <= i < |r| ==> IsNeighbor(s, r[i])
  {
    NeighborsAreMoves(s, 0);
    r := [];
    for k := 0 to 4
      invariant r + NeighborsFrom(s, k) == NeighborsFrom(s, 0)
    {
      var some := NeighborThrough(s, k);
      NeighborsFromStep(s, k, r);
      r := r + some;
    }
  }

  // -------------------------------------------------------------- find_path

  /**
   * close_list[k]: the stored level, or 0 for a key with none. The source's
   * operator[] default-inserts that 0; the model only reads it, and every
   * later read of the key gives 0 either way.
   */
  function Level(close: map<NodeKey, int>, k: NodeKey): int
  {
    if k in close then close[k] else 0
  }

  /**
   * came_from as a search tree: every stored parent has its own entry and
   * the size of its key, and every key other than the start's is one move
   * away from its parent.
   */
  ghost predicate ParentsAreMoves(start: Node, cameFrom: map<NodeKey, Node>)
  {
    Key(start) in cameFrom &&
    (forall k :: k in cameFrom ==> ParentEntry(start, k, cameFrom[k])) &&
    forall u :: u in cameFrom.Values ==> Key(u) in cameFrom
  }

  /** u may be recorded as the parent of key k: a board of k's size, one move from k unless k is the start's key. */
  ghost predicate ParentEntry(start: Node, k: NodeKey, u: Node)
  {
    u.board.size == k.size && (k == Key(start) || OneMoveApart(u.board, k.data))
  }

  /**
   * What every step of find_path keeps: the open set is ascending and holds
   * valid boards of the start's size, each with a came_from entry; levels
   * are stored only under priority-0 keys or the start's key, and are at
   * least 1; came_from is a tree of moves.
   */
  ghost predicate SearchInv(start: Node, open: seq<Node>, close: map<NodeKey, int>, cameFrom: map<NodeKey, Node>)
  {
    OpenInv(start, open, cameFrom) && LevelsInv(start, close) && ParentsAreMoves(start, cameFrom)
  }

  ghost predicate OpenInv(start: Node, open: seq<Node>, cameFrom: map<NodeKey, Node>)
  {
    Ascending(open) &&
    forall v :: v in open ==> ValidState(v.board) && v.board.size == start.board.size && Key(v) in cameFrom
  }

  ghost predicate LevelsInv(start: Node, close: map<NodeKey, int>)
  {
    forall k :: k in close ==> (k.priority == 0 || k == Key(start)) && close[k] >= 1
  }

  /**
   * Levels are written under priority-0 keys and read under the popped
   * node's key: a popped node of non-zero priority, other than the start,
   * reads level 0, so its neighbours get new_level 1.
   */
  lemma NewLevelIsOne(start: Node, open: seq<Node>, close: map<NodeKey, int>, cameFrom: map<NodeKey, Node>, current: Node)
    requires SearchInv(start, open, close, cameFrom)
    requires current.priority != 0 && Key(current) != Key(start)
    ensures Level(close, Key(current)) + 1 == 1
  {
  }

  /** A stored level is at least 1, so new_level is at least 2 when the read key is stored. */
  lemma LevelsArePositive(start: Node, open: seq<Node>, close: map<NodeKey, int>, cameFrom: map<NodeKey, Node>, k: NodeKey)
    requires SearchInv(start, open, close, cameFrom)
    ensures Level(close, k) == 0 <==> k !in close
  {
  }

  /** One relaxation of the inner loop keeps the search invariant. */
  lemma RelaxKeepsInv(start: Node, open: seq<Node>, close: map<NodeKey, int>, cameFrom: map<NodeKey, Node>,
                      current: Node, next: Node, v: Node, newLevel: int)
    requires SearchInv(start, open, close, cameFrom)
    requires next.priority == 0 && newLevel >= 1 && v.board == next.board
    requires ValidState(next.board) && next.board.size == start.board.size
    requires current.board.size == next.board.size && Key(current) in cameFrom
    requires OneMoveApart(current.board, next.board.data)
    ensures var open' := Insert(Erase(open, v), v);
      SearchInv(start, open', close[Key(next) := newLevel], cameFrom[Key(v) := current]) &&
      v in open'
  {
    RelaxKeepsParents(start, cameFrom, current, Key(v));
    RelaxKeepsOpen(start, open, cameFrom, v, Key(v), current);
    RelaxKeepsLevels(start, close, Key(next), newLevel);
  }

  /** Storing a level of at least 1 under a priority-0 key keeps the level invariant. */
  lemma RelaxKeepsLevels(start: Node, close: map<NodeKey, int>, key: NodeKey, level: int)
    requires LevelsInv(start, close) && key.priority == 0 && level >= 1
    ensures LevelsInv(start, close[key := level])
  {
  }

  /** Recording current as the parent of a key one move from it keeps came_from a tree of moves. */
  lemma RelaxKeepsParents(start: Node, cameFrom: map<NodeKey, Node>, current: Node, key: NodeKey)
    requires ParentsAreMoves(start, cameFrom)
    requires current.board.size == key.size && Key(current) in cameFrom
    requires OneMoveApart(current.board, key.data)
    ensures ParentsAreMoves(start, cameFrom[key := current])
  {
    var m := cameFrom[key := current];
    forall k | k in m ensures ParentEntry(start, k, m[k]) {
      if k == key {
        assert ParentEntry(start, key, current);
      } else {
        assert m[k] == cameFrom[k];
      }
    }
    forall u | u in m.Values ensures Key(u) in m {
      var k :| k in m && m[k] == u;
      if k != key {
        assert cameFrom[k] in cameFrom.Values;
      }
    }
  }

  /** Erasing the equivalent of v and inserting v keeps the open set ascending, valid and parented. */
  lemma RelaxKeepsOpen(start: Node, open: seq<Node>, cameFrom: map<NodeKey, Node>, v: Node, key: NodeKey, current: Node)
    requires OpenInv(start, open, cameFrom)
    requires ValidState(v.board) && v.board.size == start.board.size && key == Key(v)
    ensures var open' := Insert(Erase(open, v), v);
      OpenInv(start, open', cameFrom[key := current]) && v in open'
  {
    EraseContents(open, v);
    InsertContents(Erase(open, v), v);
  }

  /** find_path's inner loop: relax each neighbour in turn. */
  method Relax(start: Node, current: Node, ns: seq<Node>,
               open0: seq<Node>, close0: map<NodeKey, int>, cameFrom0: map<NodeKey, Node>)
    returns (open: seq<Node>, close: map<NodeKey, int>, cameFrom: map<NodeKey, Node>)
    requires SearchInv(start, open0, close0, cameFrom0)
    requires ValidState(current.board) && current.board.size == start.board.size && Key(current) in cameFrom0
    requires forall i :: 0 <= i < |ns| ==> IsNeighbor(current.board, ns[i])
    ensures SearchInv(start, open, close, cameFrom)
  {
    open, close, cameFrom := open0, close0, cameFrom0;
    for k := 0 to |ns|
      invariant SearchInv(start, open, close, cameFrom) && Key(current) in cameFrom
    {
      open, close, cameFrom := RelaxOne(start, current, ns[k], open, close, cameFrom);
    }
  }

  /**
   * One turn of the inner loop: when next's stored level is 0 or larger than
   * new_level, store new_level, give next the priority new_level +
   * heuristic, replace its equivalent in the open set and record current as
   * its parent.
   */
  method RelaxOne(start: Node, current: Node, next: Node,
                  open0: seq<Node>, close0: map<NodeKey, int>, cameFrom0: map<NodeKey, Node>)
    returns (open: seq<Node>, close: map<NodeKey, int>, cameFrom: map<NodeKey, Node>)
    requires SearchInv(start, open0, close0, cameFrom0)
    requires ValidState(current.board) && current.board.size == start.board.size && Key(current) in cameFrom0
    requires IsNeighbor(current.board, next)
    ensures SearchInv(start, open, close, cameFrom) && Key(current) in cameFrom
  {
    open, close, cameFrom := open0, close0, cameFrom0;
    NeighborIsOneMove(current.board, next);
    var newLevel := Level(close, Key(current)) + 1;
    var curLevel := Level(close, Key(next));
    if curLevel == 0 || newLevel < curLevel {
      var v := next.(priority := Priority(newLevel, next.board));
      RelaxKeepsInv(start, open, close, cameFrom, current, next, v, newLevel);
      close := close[Key(next) := newLevel];
      open := Erase(open, v);
      open := Insert(open, v);
      cameFrom := cameFrom[Key(v) := current];
    }
  }

  /**
   * find_path: pop the least node; stop at a goal board; otherwise relax
   * each neighbour whose stored level is 0 or larger than new_level. The
   * search stops with None when fuel steps did not empty the open set.
   */
  method FindPath(start: Node, fuel: nat) returns (r: Option<Node>, cameFrom: map<NodeKey, Node>)
    requires ValidState(start.board)
    ensures ParentsAreMoves(start, cameFrom)
    ensures r.Some? ==> ValidState(r.value.board) && r.value.board.size == start.board.size && Key(r.value) in cameFrom
    ensures r.Some? ==> r.value == start || r.value.board.data == GoalGrid(start.board.size)
  {
    var open := [start];
    var close := map[Key(start) := 1];
    cameFrom := map[Key(start) := start];
    var f := fuel;
    while open != []
      invariant SearchInv(start, open, close, cameFrom)
      decreases f
    {
      if f == 0 {
        return None, cameFrom;
      }
      f := f - 1;
      var current := open[0];
      open := open[1..];
      if current.board.hamming == 0 {
        HammingZeroIsGoal(current.board.data, current.board.size);
        return Some(current), cameFrom;
      }
      var ns := Neighbors(current.board);
      open, close, cameFrom := Relax(start, current, ns, open, close, cameFrom);
    }
    return Some(start), cameFrom;
  }

  // ----------------------------------------------------------- restore_path

  /** A default-constructed node: priority 0 and the default board. */
  const DefaultNode: Node := Node(0, BoardState(0, [], true, 0, 0, 0, (0, 0), [], []))

  /** came_from[v]: the stored node, or a default node for a key never stored. */
  function Parent(cameFrom: map<NodeKey, Node>, v: Node): Node
  {
    if Key(v) in cameFrom then cameFrom[Key(v)] else DefaultNode
  }

  /** The chain restore_path walks from end back to a node equal to start, within fuel links, start first. */
  function Trail(cameFrom: map<NodeKey, Node>, start: Node, end: Node, fuel: nat): Option<seq<Node>>
    decreases fuel
  {
    if Key(end) == Key(start) then Some([end])
    else if fuel == 0 then None
    else Then(Trail(cameFrom, start, Parent(cameFrom, end), fuel - 1), [end])
  }

  function Then(t: Option<seq<Node>>, u: seq<Node>): Option<seq<Node>>
  {
    if t.Some? then Some(t.value + u) else None
  }

  lemma ThenThen(t: Option<seq<Node>>, u: seq<Node>, w: seq<Node>)
    ensures Then(Then(t, u), w) == Then(t, u + w) && Then(t, []) == t
  {
    if t.Some? {
      assert (t.value + u) + w == t.value + (u + w);
      assert t.value + [] == t.value;
    }
  }

  /** A trail starts at a node equal to start, ends at end, and each node is the came_from entry of the next. */
  lemma {:induction false} TrailShape(cameFrom: map<NodeKey, Node>, start: Node, end: Node, fuel: nat)
    requires Trail(cameFrom, start, end, fuel).Some?
    ensures var t := Trail(cameFrom, start, end, fuel).value;
      |t| >= 1 && Key(t[0]) == Key(start) && t[|t| - 1] == end &&
      forall a, b :: 0 <= a < |t| && b == a + 1 < |t| ==> t[a] == Parent(cameFrom, t[b])
    decreases fuel
  {
    if Key(end) != Key(start) {
      var p := Parent(cameFrom, end);
      TrailShape(cameFrom, start, p, fuel - 1);
      var t0 := Trail(cameFrom, start, p, fuel - 1).value;
      var t := t0 + [end];
      forall a, b | 0 <= a < |t| && b == a + 1 < |t| ensures t[a] == Parent(cameFrom, t[b]) {
        if b < |t0| {
          assert t[a] == t0[a] && t[b] == t0[b];
        }
      }
    }
  }

  /** Only the first node of a trail equals start. */
  lemma {:induction false} TrailMeetsStartOnce(cameFrom: map<NodeKey, Node>, start: Node, end: Node, fuel: nat)
    requires Trail(cameFrom, start, end, fuel).Some?
    ensures var t := Trail(cameFrom, start, end, fuel).value;
      forall a :: 0 < a < |t| ==> Key(t[a]) != Key(start)
    decreases fuel
  {
    if Key(end) != Key(start) {
      TrailMeetsStartOnce(cameFrom, start, Parent(cameFrom, end), fuel - 1);
    }
  }

  /** Every board of the path but the first is the one before it after one legal move. */
  ghost predicate IsMovePath(path: seq<BoardState>)
  {
    forall a, b :: 0 <= a < |path| && b == a + 1 < |path| ==> path[b].size == path[a].size && OneMoveApart(path[a], path[b].data)
  }

  /** Every node of the trail but the first is the one before it after one legal move. */
  ghost predicate IsMoveTrail(t: seq<Node>)
  {
    forall a, b :: 0 <= a < |t| && b == a + 1 < |t| ==> t[b].board.size == t[a].board.size && OneMoveApart(t[a].board, t[b].board.data)
  }

  /** Along a trail through a came_from tree of moves, each node is one move from the one before. */
  lemma {:induction false} TrailIsMoves(cameFrom: map<NodeKey, Node>, start: Node, end: Node, fuel: nat)
    requires Trail(cameFrom, start, end, fuel).Some?
    requires ParentsAreMoves(start, cameFrom) && Key(end) in cameFrom
    ensures IsMoveTrail(Trail(cameFrom, start, end, fuel).value)
    decreases fuel
  {
    if Key(end) != Key(start) {
      var p := ParentStep(start, cameFrom, end);
      assert Trail(cameFrom, start, end, fuel) == Then(Trail(cameFrom, start, p, fuel - 1), [end]);
      var t0 := Trail(cameFrom, start, p, fuel - 1).value;
      assert IsMoveTrail(t0) by {
        TrailIsMoves(cameFrom, start, p, fuel - 1);
      }
      assert |t0| >= 1 && t0[|t0| - 1] == p by {
        TrailEnds(cameFrom, start, p, fuel - 1);
      }
      ExtendMoveTrail(t0, end);
    }
  }

  /** The came_from entry of a key other than the start's: a parent with its own entry, one move before. */
  lemma ParentStep(start: Node, cameFrom: map<NodeKey, Node>, v: Node) returns (p: Node)
    requires ParentsAreMoves(start, cameFrom) && Key(v) in cameFrom && Key(v) != Key(start)
    ensures p == Parent(cameFrom, v) && Key(p) in cameFrom
    ensures p.board.size == v.board.size && OneMoveApart(p.board, v.board.data)
  {
    p := cameFrom[Key(v)];
    assert ParentEntry(start, Key(v), p) && p in cameFrom.Values;
  }

  /** A trail is not empty, starts at start's key and ends at end. */
  lemma {:induction false} TrailEnds(cameFrom: map<NodeKey, Node>, start: Node, end: Node, fuel: nat)
    requires Trail(cameFrom, start, end, fuel).Some?
    ensures var t := Trail(cameFrom, start, end, fuel).value;
      |t| >= 1 && Key(t[0]) == Key(start) && t[|t| - 1] == end
    decreases fuel
  {
    if Key(end) != Key(start) {
      TrailEnds(cameFrom, start, Parent(cameFrom, end), fuel - 1);
    }
  }

  lemma ExtendMoveTrail(t: seq<Node>, v: Node)
    requires IsMoveTrail(t) && |t| >= 1
    requires v.board.size == t[|t| - 1].board.size && OneMoveApart(t[|t| - 1].board, v.board.data)
    ensures IsMoveTrail(t + [v])
  {
    var u := t + [v];
    forall a, b | 0 <= a < |u| && b == a + 1 < |u| ensures u[b].board.size == u[a].board.size && OneMoveApart(u[a].board, u[b].board.data) {
      if b < |t| {
        assert u[a] == t[a] && u[b] == t[b];
      } else {
        assert u[a] == t[|t| - 1] && u[b] == v;
      }
    }
  }

  lemma TrailBoardsAreMoves(t: seq<Node>)
    requires IsMoveTrail(t)
    ensures IsMovePath(Boards(t))
  {
  }

  function Boards(t: seq<Node>): (r: seq<BoardState>)
    ensures |r| == |t| && forall a :: 0 <= a < |t| ==> r[a] == t[a].board
  {
    seq(|t|, a requires 0 <= a < |t| => t[a].board)
  }

  /** std::reverse. */
  method ReverseBoards(s: seq<BoardState>) returns (r: seq<BoardState>)
    ensures |r| == |s| && forall a :: 0 <= a < |s| ==> r[a] == s[|s| - 1 - a]
  {
    r := [];
    var k := |s|;
    while k > 0
      invariant 0 <= k <= |s| && |r| == |s| - k
      invariant forall a :: 0 <= a < |r| ==> r[a] == s[|s| - 1 - a]
    {
      k := k - 1;
      r := r + [s[k]];
    }
  }

  /**
   * restore_path: push the boards from end back along came_from until a
   * node equal to start, push that one, then reverse. None when fuel links
   * did not reach start.
   */
  method RestorePath(start: Node, end: Node, cameFrom: map<NodeKey, Node>, fuel: nat) returns (r: Option<seq<BoardState>>)
    ensures r.Some? <==> Trail(cameFrom, start, end, fuel).Some?
    ensures r.Some? ==> r.value == Boards(Trail(cameFrom, start, end, fuel).value)
  {
    var retval: seq<BoardState> := [];
    var e, f := end, fuel;
    ghost var chain: seq<Node> := [];
    ThenThen(Trail(cameFrom, start, end, fuel), [], []);
    while Key(e) != Key(start)
      invariant Trail(cameFrom, start, end, fuel) == Then(Trail(cameFrom, start, e, f), chain)
      invariant |retval| == |chain| && forall a :: 0 <= a < |chain| ==> retval[a] == chain[|chain| - 1 - a].board
      decreases f
    {
      if f == 0 {
        return None;
      }
      ThenThen(Trail(cameFrom, start, Parent(cameFrom, e), f - 1), [e], chain);
      retval := retval + [e.board];
      chain := [e] + chain;
      e, f := Parent(cameFrom, e), f - 1;
    }
    retval := retval + [e.board];
    chain := [e] + chain;
    var reversed := ReverseBoards(retval);
    r := Some(reversed);
  }

  // ------------------------------------------------------------------ solve

  /**
   * solve: a board of size 0 or 1 is its own path; an unsolvable board has
   * none; otherwise the path restored from the node find_path returns.
   * None when the search or the walk back ran out of fuel.
   */
  method Solve(board: BoardState, fuel: nat) returns (r: Option<seq<BoardState>>)
    requires ValidState(board)
    ensures board.size <= 1 ==> r == Some([board])
    ensures board.size > 1 && !board.solvable ==> r == Some([])
    ensures board.size > 1 && board.solvable && r.Some? ==>
      |r.value| >= 1 && r.value[0].size == board.size && r.value[0].data == board.data &&
      (r.value == [board] || r.value[|r.value| - 1].data == GoalGrid(board.size)) &&
      IsMovePath(r.value)
  {
    if board.size == 1 || board.size == 0 {
      return Some([board]);
    }
    if !board.solvable {
      return Some([]);
    }
    var start := Node(0, board);
    var end, cameFrom := FindPath(start, fuel);
    if end.None? {
      return None;
    }
    r := RestorePath(start, end.value, cameFrom, fuel);
    if r.Some? {
      TrailEnds(cameFrom, start, end.value, fuel);
      TrailIsMoves(cameFrom, start, end.value, fuel);
      TrailBoardsAreMoves(Trail(cameFrom, start, end.value, fuel).value);
    }
  }

  /** The solver object: the path found at construction, which begin()/end() walk in order. */
  class Solver {
    var path: seq<BoardState>
    /** Whether the fuel sufficed; the source has no such field, its search simply runs on. */
    var finished: bool

    constructor(board: BoardState, fuel: nat)
      requires ValidState(board)
      ensures finished ==> board.size <= 1 ==> path == [board]
      ensures finished ==> board.size > 1 && !board.solvable ==> path == []
      ensures finished && board.size > 1 && board.solvable ==>
        |path| >= 1 && path[0].data == board.data && IsMovePath(path) &&
        (path == [board] || path[|path| - 1].data == GoalGrid(board.size))
      ensures !finished ==> path == []
    {
      var r := Solve(board, fuel);
      finished := r.Some?;
      path := if r.Some? then r.value else [];
    }

    /** moves(): 0 for an empty path, otherwise one less than its length. */
    function Moves(): (m: nat)
      reads this
      ensures |path| == 0 ==> m == 0
      ensures |path| > 0 ==> m + 1 == |path|
    {
      if |path| == 0 then 0 else |path| - 1
    }
  }
}
