/**
 * The puzzle board: a class whose fields the constructors and swap_blank
 * update in place. Besides the tiles it caches the Hamming and Manhattan
 * distances, the linear-conflict weight, the blank's cell, the solvability
 * flag, the per-tile goal tags and the per-tile conflict links.
 */
module PuzzleBoard {
  import opened CellSums
  import opened PuzzleGrid
  import opened PuzzleMoves
  import opened LinearConflict
  import opened BoardPermutation
  import Parity
  import opened Lex

  /** A snapshot of every field of a board. */
  datatype BoardState = BoardState(
    size: nat,
    data: Grid,
    solvable: bool,
    manhattan: nat,
    hamming: nat,
    linearConflict: nat,
    blank: (nat, nat),
    tilesGoals: seq<seq<Tags>>,
    tilesLc: Links)

  /** The blank's cell is recorded (for a non-empty board) and holds 0. */
  predicate BlankAt(data: Grid, n: nat, blank: (nat, nat))
    requires Square(data, n)
  {
    n > 0 ==> blank.0 < n && blank.1 < n && data[blank.0][blank.1] == 0
  }

  /**
   * What every board keeps, whether built from scratch or moved: a tile
   * grid whose cells fit in 32 bits, the blank where it is recorded, the
   * exact Hamming distance, the Manhattan distance as a 32-bit unsigned
   * value, and the goal tags of the current tiles.
   */
  ghost predicate ValidState(s: BoardState)
  {
    IsTileGrid(s.data, s.size) && s.size * s.size < U32 &&
    BlankAt(s.data, s.size, s.blank) &&
    s.hamming == HammingOf(s.data, s.size) &&
    s.manhattan == Wrap32(ManhattanOf(s.data, s.size)) &&
    s.linearConflict < U32 &&
    s.tilesGoals == FreshTags(s.data, s.size, s.blank) &&
    Square(s.tilesLc, s.size)
  }

  /**
   * What the constructors establish on top: the solvability test, the
   * linear-conflict weight and the links computed from scratch, by the
   * column pass as written.
   */
  ghost predicate FreshState(s: BoardState)
  {
    ValidState(s) &&
    s.solvable == Solvable(s.data, s.size, s.blank) &&
    (s.size > 0 ==> s.linearConflict == InitialConflict(s.tilesGoals, s.size, AsWritten)) &&
    s.tilesLc == ConstructionTables(s.tilesGoals, s.size, AsWritten)
  }

  /**
   * The board after swap_blank moves the tile at p into the blank along its
   * row or its column: the two cells exchanged, the blank at p, both
   * distances those of the new grid, fresh tags, and the links and the
   * linear-conflict weight patched as MovedLinks and MovedConflict say.
   */
  function Moved(s: BoardState, p: (nat, nat)): (t: BoardState)
    requires ValidState(s) && IsMove(s.data, s.size, s.blank, p) && (p.0 == s.blank.0 || p.1 == s.blank.1)
  {
    var n := s.size;
    var d := SwapCells(s.data, n, p, s.blank);
    var tg := FreshTags(d, n, p);
    HammingAtMost(d, n);
    BoardState(n, d, s.solvable, Wrap32(ManhattanOf(d, n)), HammingOf(d, n),
      MovedConflict(s.linearConflict, s.tilesLc, s.tilesGoals, tg, n, s.blank, p),
      p, tg, MovedLinks(s.tilesLc, s.tilesGoals, tg, n, s.blank, p))
  }

  /** swap_blank's Manhattan update: the old 32-bit sum, less the tile's old distance, plus its new one. */
  lemma ManhattanAfterMove(d0: Grid, n: nat, b: (nat, nat), p: (nat, nat), m0: nat, x1: nat)
    requires IsTileGrid(d0, n) && IsMove(d0, n, b, p)
    requires m0 == Wrap32(ManhattanOf(d0, n)) && x1 == CellDistance(d0, n, p.0, p.1)
    ensures var d := SwapCells(d0, n, p, b);
      Wrap32(m0 - x1 + CellDistance(d, n, b.0, b.1)) == Wrap32(ManhattanOf(d, n))
  {
    var d := SwapCells(d0, n, p, b);
    MoveManhattan(d0, n, b, p);
    ModAdd(ManhattanOf(d0, n), CellDistance(d, n, b.0, b.1) - x1);
  }

  /** swap_blank's Hamming update: each of the two cells adds one when it was on place and takes one when it now is. */
  lemma HammingAfterMove(d0: Grid, n: nat, b: (nat, nat), p: (nat, nat), h0: nat, x1: bool, x2: bool)
    requires IsMove(d0, n, b, p) && n * n < U32
    requires h0 == HammingOf(d0, n) && x1 == OnPlace(d0, n, p.0, p.1) && x2 == OnPlace(d0, n, b.0, b.1)
    ensures var d := SwapCells(d0, n, p, b);
      var h := h0 + (if x1 then 1 else if OnPlace(d, n, b.0, b.1) then -1 else 0)
                  + (if x2 then 1 else if OnPlace(d, n, p.0, p.1) then -1 else 0);
      Wrap32(h) == h == HammingOf(d, n)
  {
    var d := SwapCells(d0, n, p, b);
    MoveHamming(d0, n, b, p);
    HammingAtMost(d, n);
    WrapSmall(HammingOf(d, n));
  }

  /** Everything swap_blank's first half relies on: the moved grid is a tile grid and both updates are exact. */
  lemma AfterMove(d0: Grid, n: nat, b: (nat, nat), p: (nat, nat), m0: nat, x1: nat, h0: nat, hx1: bool, hx2: bool,
                  d: Grid, m: nat, h: int)
    requires IsTileGrid(d0, n) && IsMove(d0, n, b, p) && n * n < U32
    requires m0 == Wrap32(ManhattanOf(d0, n)) && x1 == CellDistance(d0, n, p.0, p.1)
    requires h0 == HammingOf(d0, n) && hx1 == OnPlace(d0, n, p.0, p.1) && hx2 == OnPlace(d0, n, b.0, b.1)
    requires d == SwapCells(d0, n, p, b) && m == Wrap32(m0 - x1 + CellDistance(d, n, b.0, b.1))
    requires Square(d, n) && h == h0 + (if hx1 then 1 else if OnPlace(d, n, b.0, b.1) then -1 else 0)
                                     + (if hx2 then 1 else if OnPlace(d, n, p.0, p.1) then -1 else 0)
    ensures IsTileGrid(d, n) && d[p.0][p.1] == 0
    ensures m == Wrap32(ManhattanOf(d, n)) && Wrap32(h) == h == HammingOf(d, n)
  {
    MoveKeepsTileGrid(d0, n, b, p);
    ManhattanAfterMove(d0, n, b, p, m0, x1);
    HammingAfterMove(d0, n, b, p, h0, hx1, hx2);
  }

  /** A board whose fields are those Moved computes field by field is the moved board, and valid. */
  lemma MovedFields(s: BoardState, p: (nat, nat), t: BoardState)
    requires ValidState(s) && IsMove(s.data, s.size, s.blank, p) && (p.0 == s.blank.0 || p.1 == s.blank.1)
    requires t.size == s.size && t.solvable == s.solvable && t.blank == p
    requires t.data == SwapCells(s.data, s.size, p, s.blank)
    requires t.hamming == HammingOf(t.data, t.size) && t.manhattan == Wrap32(ManhattanOf(t.data, t.size))
    requires t.tilesGoals == FreshTags(t.data, t.size, p)
    requires t.tilesLc == MovedLinks(s.tilesLc, s.tilesGoals, t.tilesGoals, s.size, s.blank, p)
    requires t.linearConflict == MovedConflict(s.linearConflict, s.tilesLc, s.tilesGoals, t.tilesGoals, s.size, s.blank, p)
    ensures t == Moved(s, p) && ValidState(t)
  {
    MovedIsValid(s, p);
  }

  /** A moved board keeps every invariant of a board, its size and its solvability flag. */
  lemma MovedIsValid(s: BoardState, p: (nat, nat))
    requires ValidState(s) && IsMove(s.data, s.size, s.blank, p) && (p.0 == s.blank.0 || p.1 == s.blank.1)
    ensures ValidState(Moved(s, p)) && Moved(s, p).size == s.size && Moved(s, p).solvable == s.solvable
  {
    MoveKeepsTileGrid(s.data, s.size, s.blank, p);
  }

  /**
   * Moving the tile back undoes a move on the grid, the blank, both
   * distances and the tags (the links and the conflict weight are not
   * claimed to come back).
   */
  lemma MovedBack(s: BoardState, p: (nat, nat))
    requires ValidState(s) && IsMove(s.data, s.size, s.blank, p) && (p.0 == s.blank.0 || p.1 == s.blank.1)
    ensures ValidState(Moved(s, p)) && IsMove(Moved(s, p).data, s.size, p, s.blank)
    ensures var u := Moved(Moved(s, p), s.blank);
      u.data == s.data && u.blank == s.blank && u.hamming == s.hamming && u.manhattan == s.manhattan && u.tilesGoals == s.tilesGoals
  {
    MovedIsValid(s, p);
    MoveBack(s.data, s.size, s.blank, p);
  }

  /** A freshly built board over the goal grid is solved, solvable and free of conflicts. */
  lemma GoalBoardFields(s: BoardState)
    requires FreshState(s) && s.size >= 1 && s.data == GoalGrid(s.size)
    ensures s.blank == (s.size - 1, s.size - 1)
    ensures s.hamming == 0 && s.manhattan == 0 && s.linearConflict == 0 && s.solvable
  {
    var n, data, blank := s.size, s.data, s.blank;
    assert IsTileGrid(data, n) && BlankAt(data, n, blank);
    GoalFields(data, n, blank, s.tilesGoals);
  }

  /** The goal grid's fields: the blank in the last cell, both distances 0, solvable and no conflict. */
  lemma GoalFields(data: Grid, n: nat, blank: (nat, nat), tg: seq<seq<Tags>>)
    requires n >= 1 && data == GoalGrid(n) && blank.0 < n && blank.1 < n && data[blank.0][blank.1] == 0
    requires IsTileGrid(data, n) && tg == FreshTags(data, n, blank)
    ensures blank == (n - 1, n - 1) && HammingOf(data, n) == 0 && ManhattanOf(data, n) == 0
    ensures Solvable(data, n, blank) && InitialConflict(tg, n, AsWritten) == 0
  {
    GoalBlank(data, n, blank);
    GoalIsSolvable(n);
    HammingZeroIsGoal(data, n);
    GoalGridManhattan(n);
    GoalConflict(data, n, blank, tg);
  }

  /** The goal grid's only 0 is in its last cell. */
  lemma GoalBlank(data: Grid, n: nat, blank: (nat, nat))
    requires n >= 1 && data == GoalGrid(n) && blank.0 < n && blank.1 < n && data[blank.0][blank.1] == 0
    ensures blank == (n - 1, n - 1)
  {
    CellIndexBound(blank.0, blank.1, n);
  }

  /** The tags of the goal grid count no conflict, by either column pass. */
  lemma GoalConflict(data: Grid, n: nat, blank: (nat, nat), tg: seq<seq<Tags>>)
    requires n >= 1 && data == GoalGrid(n) && blank == (n - 1, n - 1) && tg == FreshTags(data, n, blank)
    ensures InitialConflict(tg, n, AsWritten) == 0 && InitialConflict(tg, n, Intended) == 0
  {
    GoalIsSolvable(n);
    ConflictCountZero(data, n, blank);
    GoalHasNoConflict(n);
  }

  /** calc_manhattan's inner loop: add the distances of row i to the running 32-bit sum. */
  method AddRowDistances(g: Grid, n: nat, i: nat, acc: nat) returns (r: nat)
    requires Square(g, n) && i < n
    requires acc == Wrap32(GridSum(DistanceCells(g, n), n, i))
    ensures r == Wrap32(GridSum(DistanceCells(g, n), n, i + 1))
  {
    ghost var c := DistanceCells(g, n);
    r := acc;
    for j := 0 to n
      invariant r == Wrap32(GridSum(c, n, i) + RowSum(c, i, j))
    {
      DistanceStep(g, n, i, j, r);
      r := Wrap32(r + CellDistance(g, n, i, j));
    }
  }

  /** create_goal's loops: an n-by-n grid of zeros filled with i*n + j + 1 row by row, then 0 in the last cell. */
  method GoalRows(n: nat) returns (g: Grid)
    requires n >= 1 && n * n < U32
    ensures g == GoalGrid(n)
  {
    g := seq(n, _ => seq(n, _ => 0));
    for i := 0 to n
      invariant Square(g, n)
      invariant forall a, b :: 0 <= a < n && 0 <= b < n ==> g[a][b] == if a < i then a * n + b + 1 else 0
    {
      for j := 0 to n
        invariant Square(g, n)
        invariant forall a, b :: 0 <= a < n && 0 <= b < n ==>
          g[a][b] == if a < i || (a == i && b < j) then a * n + b + 1 else 0
      {
        var row: seq<nat> := g[i][j := i * n + j + 1];
        g := g[i := row];
      }
    }
    g := g[n - 1 := g[n - 1][n - 1 := 0]];
    ghost var goal := GoalGrid(n);
    forall a | 0 <= a < n ensures g[a] == goal[a] {
    }
  }

  /** The cell of a flat sequence holds 0. */
  predicate ZeroAt(p: seq<nat>, n: nat, b: (nat, nat))
    requires |p| == n * n
  {
    b.0 < n && b.1 < n && (CellIndexBound(b.0, b.1, n); p[b.0 * n + b.1] == 0)
  }

  /**
   * The random constructor's loops: row i takes p[n*i .. n*i + n-1], and a
   * cell holding 0 is recorded as the blank (the blank stays at (0, 0),
   * where the source leaves it unset, when there is none).
   */
  method CutRows(p: seq<nat>, n: nat) returns (g: Grid, blank: (nat, nat))
    requires |p| == n * n
    ensures g == Unflatten(p, n)
    ensures 0 in p ==> ZeroAt(p, n, blank)
  {
    g := seq(n, _ => []);
    blank := (0, 0);
    ghost var seen := false;
    for i := 0 to n
      invariant |g| == n && forall a :: 0 <= a < i ==> g[a] == Unflatten(p, n)[a]
      invariant seen ==> ZeroAt(p, n, blank)
      invariant !seen ==> forall k :: 0 <= k < |p| && k < i * n ==> p[k] != 0
    {
      var temp: seq<nat> := seq(n, _ => 0);
      for j := 0 to n
        invariant |temp| == n && forall b :: 0 <= b < j ==> temp[b] == Unflatten(p, n)[i][b]
        invariant seen ==> ZeroAt(p, n, blank)
        invariant !seen ==> forall k :: 0 <= k < |p| && k < i * n + j ==> p[k] != 0
      {
        CellIndexBound(i, j, n);
        temp := temp[j := p[n * i + j]];
        if temp[j] == 0 {
          blank := (i, j);
          seen := true;
        }
      }
      assert (i + 1) * n == i * n + n;
      assert temp == Unflatten(p, n)[i];
      g := g[i := temp];
    }
    assert g == Unflatten(p, n);
  }

  // ------------------------------------------------------------------ hashing

  const HashModulus: nat := 112909

  /**
   * One step of hash<Board>: 61*i + 127*j + 31 in unsigned arithmetic, then
   * the seed, the cell and 631 in size_t arithmetic, reduced mod 112909.
   */
  function HashStep(seed: nat, i: nat, j: nat, v: nat): (h: nat)
    ensures h < HashModulus
  {
    ((Wrap32(61 * i + 127 * j + 31) + seed) * v + 631) % U64 % HashModulus
  }

  /** The seed after cells (i, 0) .. (i, j-1), starting from seed. */
  function RowHash(g: Grid, n: nat, i: nat, j: nat, seed: nat): nat
    requires Square(g, n) && i < n && j <= n
  {
    if j == 0 then seed else HashStep(RowHash(g, n, i, j - 1, seed), i, j - 1, g[i][j - 1])
  }

  /** The seed after rows 0 .. i-1, starting from the size. */
  function GridHash(g: Grid, n: nat, i: nat): nat
    requires Square(g, n) && i <= n
  {
    if i == 0 then n else RowHash(g, n, i - 1, n, GridHash(g, n, i - 1))
  }

  /** hash<Board>: reads nothing but the size and the cells. */
  function BoardHash(s: BoardState): nat
    requires Square(s.data, s.size)
  {
    GridHash(s.data, s.size, s.size)
  }

  /** A non-empty board's hash is below 112909 (the empty board's is its size, 0). */
  lemma HashBound(s: BoardState)
    requires Square(s.data, s.size)
    ensures BoardHash(s) < HashModulus
  {
    if s.size > 0 {
      assert BoardHash(s) == RowHash(s.data, s.size, s.size - 1, s.size, GridHash(s.data, s.size, s.size - 1));
    }
  }

  /** operator==: the same size and the same value in every cell. */
  predicate SameBoard(s: BoardState, t: BoardState)
    requires Square(s.data, s.size) && Square(t.data, t.size)
  {
    s.size == t.size && forall i, j :: 0 <= i < s.size && 0 <= j < s.size ==> s.data[i][j] == t.data[i][j]
  }

  /** Boards are the same exactly when their sizes and grids are equal. */
  lemma SameBoardMeansEqualGrids(s: BoardState, t: BoardState)
    requires Square(s.data, s.size) && Square(t.data, t.size)
    ensures SameBoard(s, t) <==> s.size == t.size && s.data == t.data
  {
    if SameBoard(s, t) {
      forall i | 0 <= i < s.size ensures s.data[i] == t.data[i] {
      }
    }
  }

  /** Equal boards hash equally, as unordered_map needs. */
  lemma SameBoardsHashEqually(s: BoardState, t: BoardState)
    requires Square(s.data, s.size) && Square(t.data, t.size) && SameBoard(s, t)
    ensures BoardHash(s) == BoardHash(t)
  {
    SameBoardMeansEqualGrids(s, t);
  }

  class Board {
    var size: nat
    var data: Grid
    var solvable: bool
    var manhattan: nat
    var hamming: nat
    var linearConflict: nat
    var blank: (nat, nat)
    var tilesGoals: seq<seq<Tags>>
    var tilesLc: Links

    function State(): BoardState
      reads this
    {
      BoardState(size, data, solvable, manhattan, hamming, linearConflict, blank, tilesGoals, tilesLc)
    }

    ghost predicate Valid()
      reads this
    {
      ValidState(State())
    }

    /** The default board: size 0, solvable, all distances 0. */
    constructor Empty()
      ensures Valid() && FreshState(State())
      ensures State() == BoardState(0, [], true, 0, 0, 0, (0, 0), [], [])
    {
      size, data, solvable, manhattan, hamming, linearConflict := 0, [], true, 0, 0, 0;
      blank, tilesGoals, tilesLc := (0, 0), [], [];
    }

    /** A board over a given grid (the constructors from a vector of rows). */
    constructor FromData(grid: Grid)
      requires IsTileGrid(grid, |grid|) && |grid| * |grid| < U32
      ensures Valid() && FreshState(State())
      ensures size == |grid| && data == grid
    {
      size, data := |grid|, grid;
      solvable, manhattan, hamming, linearConflict := true, 0, 0, 0;
      blank, tilesGoals, tilesLc := (0, 0), [], [];
      new;
      SetDefaultsFromData();
    }

    /** The random constructor, the shuffled permutation of 0 .. n*n-1 given: cut into rows, then set_fields. */
    constructor FromPermutation(n: nat, permutation: seq<nat>)
      requires |permutation| == n * n && n * n < U32 && IsZeroBasedPermutation(permutation)
      ensures Valid() && FreshState(State())
      ensures size == n && data == Unflatten(permutation, n)
    {
      var g, b := CutRows(permutation, n);
      size, data := n, g;
      solvable, manhattan, hamming, linearConflict := true, 0, 0, 0;
      blank, tilesGoals, tilesLc := b, [], [];
      new;
      FlattenUnflatten(permutation, n);
      UnflattenIsTileGrid(permutation, n);
      if n > 0 {
        PermutationHasEvery(permutation, 0);
        CellIndexBound(blank.0, blank.1, n);
      }
      SetFields(permutation);
    }

    /** create_goal: the solved board of side n, with every distance and the conflict weight 0. */
    static method CreateGoal(n: nat) returns (b: Board)
      requires n >= 1 && n * n < U32
      ensures fresh(b) && b.Valid() && FreshState(b.State())
      ensures b.size == n && b.data == GoalGrid(n) && b.blank == (n - 1, n - 1)
      ensures b.hamming == 0 && b.manhattan == 0 && b.linearConflict == 0 && b.solvable
    {
      var g := GoalRows(n);
      GoalGridIsTileGrid(n);
      b := new Board.FromData(g);
      GoalBoardFields(b.State());
    }

    /** A copy of a board (the defaulted copy constructor). */
    constructor Copy(s: BoardState)
      requires ValidState(s)
      ensures Valid() && State() == s
    {
      size, data, solvable, manhattan, hamming, linearConflict := s.size, s.data, s.solvable, s.manhattan, s.hamming, s.linearConflict;
      blank, tilesGoals, tilesLc := s.blank, s.tilesGoals, s.tilesLc;
    }

    /** set_defaults_from_data: find the blank and flatten the rows, then compute every cached field. */
    method SetDefaultsFromData()
      requires IsTileGrid(data, size) && size * size < U32 && linearConflict < U32
      modifies this`blank, this`solvable, this`hamming, this`manhattan, this`tilesGoals, this`tilesLc, this`linearConflict
      ensures FreshState(State())
      ensures size == 0 ==> blank == old(blank)
    {
      var permutation := FlattenFindBlank();
      SetFields(permutation);
    }

    /** set_defaults_from_data's loops: record the cell holding 0 as the blank and push the cells row by row. */
    method FlattenFindBlank() returns (permutation: seq<nat>)
      requires Square(data, size) && (size > 0 ==> exists i, j :: 0 <= i < size && 0 <= j < size && data[i][j] == 0)
      modifies this`blank
      ensures permutation == Flatten(data, size) && BlankAt(data, size, blank)
      ensures size == 0 ==> blank == old(blank)
    {
      var n := size;
      permutation := [];
      ghost var found := false;
      for i := 0 to n
        invariant permutation == FlattenRows(data, n, i)
        invariant found ==> blank.0 < n && blank.1 < n && data[blank.0][blank.1] == 0
        invariant !found ==> blank == old(blank) && forall l :: 0 <= l < |permutation| ==> permutation[l] != 0
      {
        for j := 0 to n
          invariant permutation == FlattenRows(data, n, i) + data[i][..j]
          invariant found ==> blank.0 < n && blank.1 < n && data[blank.0][blank.1] == 0
          invariant !found ==> blank == old(blank) && forall l :: 0 <= l < |permutation| ==> permutation[l] != 0
        {
          if data[i][j] == 0 {
            blank := (i, j);
            found := true;
          }
          permutation := permutation + [data[i][j]];
          assert data[i][..j + 1] == data[i][..j] + [data[i][j]];
        }
        assert data[i][..n] == data[i];
      }
      if n > 0 && !found {
        var i, j :| 0 <= i < n && 0 <= j < n && data[i][j] == 0;
        CellIndexBound(i, j, n);
        FlattenRowsIndex(data, n, n, i, j);
        assert false;
      }
    }

    /** set_fields: rewrite the blank as n*n, test solvability, then the distances and conflicts. */
    method SetFields(permutation: seq<nat>)
      requires IsTileGrid(data, size) && size * size < U32 && BlankAt(data, size, blank) && linearConflict < U32
      requires permutation == Flatten(data, size)
      modifies this`solvable, this`hamming, this`manhattan, this`tilesGoals, this`tilesLc, this`linearConflict
      ensures FreshState(State())
    {
      SetSolvable(permutation);
      hamming := CalcHamming();
      if size == 0 {
        manhattan := 0;
      } else {
        manhattan := CalcManhattan();
        ManhattanWithoutBlank(data, size, blank);
      }
      SetupLinearConflict();
    }

    /** set_fields' first two statements: the first 0 becomes n*n, then solvable when n is 0 or the parities agree. */
    method SetSolvable(permutation: seq<nat>)
      requires IsTileGrid(data, size) && BlankAt(data, size, blank)
      requires permutation == Flatten(data, size)
      modifies this`solvable
      ensures solvable == Solvable(data, size, blank)
    {
      var p := RewriteBlank(permutation);
      RewrittenIsPermutation(data, size);
      if size == 0 {
        solvable := true;
      } else {
        var parity := Parity.PermutationParity(p);
        solvable := parity == CellDistance(data, size, blank.0, blank.1) % 2;
      }
    }

    /** is_goal: the cached Hamming distance is 0 exactly on the goal board. */
    function IsGoal(): (r: bool)
      requires Valid()
      reads this
      ensures r <==> data == GoalGrid(size)
    {
      HammingZeroIsGoal(data, size);
      hamming == 0
    }

    /** in_bounds: the signed coordinates name a cell of the board. */
    predicate InBounds(x: int, y: int)
      reads this
    {
      0 <= x < size && 0 <= y < size
    }

    /** hash<Board>: the seed starts at the size and takes in every cell in row-major order. */
    method Hash() returns (h: nat)
      requires Square(data, size)
      ensures h == BoardHash(State())
    {
      var n, g := size, data;
      var seed := n;
      for i := 0 to n
        invariant seed == GridHash(g, n, i)
      {
        ghost var s0 := seed;
        for j := 0 to n
          invariant seed == RowHash(g, n, i, j, s0)
        {
          seed := HashStep(seed, i, j, g[i][j]);
        }
      }
      h := seed;
    }

    /** operator==: compare the sizes, then every cell, stopping at the first difference. */
    method Equals(other: Board) returns (r: bool)
      requires Square(data, size) && Square(other.data, other.size)
      ensures r <==> SameBoard(State(), other.State())
    {
      if size != other.size {
        return false;
      }
      var n := size;
      for i := 0 to n
        invariant forall a, b :: 0 <= a < i && 0 <= b < n ==> data[a][b] == other.data[a][b]
      {
        for j := 0 to n
          invariant forall a, b :: 0 <= a < n && 0 <= b < n && (a < i || (a == i && b < j)) ==> data[a][b] == other.data[a][b]
        {
          if data[i][j] != other.data[i][j] {
            return false;
          }
        }
      }
      return true;
    }

    /** operator<: the grids compared lexicographically, row by row (operator> swaps the sides). */
    predicate Less(other: Board)
      reads this, other
    {
      GridLess(data, other.data)
    }

    /** calc_hamming: count the cells whose actual value is not the running index count. */
    method CalcHamming() returns (r: nat)
      requires Square(data, size)
      ensures r == HammingOf(data, size)
    {
      var n := size;
      if n == 0 {
        return 0;
      }
      var retval := 0;
      var count := 1;
      ghost var c := HammingCells(data, n);
      for i := 0 to n
        invariant count == i * n + 1
        invariant retval == GridSum(c, n, i)
      {
        for j := 0 to n
          invariant count == i * n + j + 1
          invariant retval == GridSum(c, n, i) + RowSum(c, i, j)
        {
          retval := retval + (if count != ActualValue(data, n, i, j) then 1 else 0);
          count := count + 1;
        }
        assert (i + 1) * n == i * n + n;
      }
      r := retval;
    }

    /** calc_manhattan: sum the cell distances in 32-bit arithmetic, then take off the blank's. */
    method CalcManhattan() returns (r: nat)
      requires Square(data, size) && size > 0 && blank.0 < size && blank.1 < size
      ensures r == Wrap32(GridSum(DistanceCells(data, size), size, size) - CellDistance(data, size, blank.0, blank.1))
    {
      var n, g := size, data;
      ghost var c := DistanceCells(g, n);
      var retval := 0;
      for i := 0 to n
        invariant retval == Wrap32(GridSum(c, n, i))
      {
        retval := AddRowDistances(g, n, i, retval);
      }
      var d: int := CellDistance(g, n, blank.0, blank.1);
      ModAdd(GridSum(c, n, n), -d);
      r := Wrap32(retval - d);
    }

    /** set_goal: tag the tile in cell (i, j) with its goal column / goal row when they match its own. */
    method SetGoalAt(i: nat, j: nat)
      requires Square(data, size) && Square(tilesGoals, size) && i < size && j < size
      modifies this`tilesGoals
      ensures tilesGoals == old(tilesGoals)[i := old(tilesGoals)[i][j := SetGoal(old(tilesGoals)[i][j], data, size, blank, i, j)]]
    {
      if (i, j) == blank {
        assert tilesGoals[i][j := tilesGoals[i][j]] == tilesGoals[i];
        assert tilesGoals[i := tilesGoals[i][j := tilesGoals[i][j]]] == tilesGoals;
        return;
      }
      var value := ActualValue(data, size, i, j);
      var destX := (value - 1) / size;
      var destY := (value - 1) % size;
      var t := tilesGoals[i][j];
      if destX == i {
        t := t.(first := destY);
      }
      if destY == j {
        t := t.(second := destX);
      }
      tilesGoals := tilesGoals[i := tilesGoals[i][j := t]];
    }

    /** set_goals: reset every tag and run set_goal on every cell. */
    method SetGoals()
      requires Square(data, size)
      modifies this`tilesGoals
      ensures tilesGoals == FreshTags(data, size, blank)
    {
      var n := size;
      tilesGoals := seq(n, _ => seq(n, _ => NoTags));
      for i := 0 to n
        invariant Square(tilesGoals, n)
        invariant forall a, b :: 0 <= a < n && 0 <= b < n ==>
          tilesGoals[a][b] == if a < i then SetGoal(NoTags, data, n, blank, a, b) else NoTags
      {
        for j := 0 to n
          invariant Square(tilesGoals, n)
          invariant forall a, b :: 0 <= a < n && 0 <= b < n ==>
            tilesGoals[a][b] == if a < i || (a == i && b < j) then SetGoal(NoTags, data, n, blank, a, b) else NoTags
        {
          SetGoalAt(i, j);
        }
      }
      ghost var ft := FreshTags(data, n, blank);
      forall a | 0 <= a < n ensures tilesGoals[a] == ft[a] {
      }
    }

    /** check_lc(x, x, i, j), the row test: tiles (x, i) and (x, j) in conflict are linked in_row. */
    method CheckLc(x: nat, y: nat, i: nat, j: nat) returns (r: nat)
      requires Square(tilesGoals, size) && Square(tilesLc, size) && x < size && y < size && i < size && j < size
      modifies this`tilesLc
      ensures r == RowHit(tilesGoals, size, x, y, i, j)
      ensures tilesLc == RowCheck(old(tilesLc), tilesGoals, size, x, y, i, j)
    {
      var first := tilesGoals[x][i].first;
      var second := tilesGoals[y][j].first;
      if first > second && first != -1 && second != -1 {
        tilesLc := tilesLc[x := tilesLc[x][i := InsertRow(tilesLc[x][i], x, j)]];
        tilesLc := tilesLc[y := tilesLc[y][j := InsertRow(tilesLc[y][j], y, i)]];
        return 1;
      }
      return 0;
    }

    /**
     * The column test of count_set_lc, as its row test and swap_blank's
     * column updates evidently intend: tiles (i, x) and (j, x) whose goal
     * rows are out of order are linked in_column. The construction as
     * written calls CheckLc(i, j, x, x) instead.
     */
    method CheckLcColumn(i: nat, j: nat, x: nat) returns (r: nat)
      requires Square(tilesGoals, size) && Square(tilesLc, size) && x < size && i < size && j < size
      modifies this`tilesLc
      ensures r == ColumnHit(tilesGoals, size, i, j, x, Intended)
      ensures tilesLc == ColumnCheck(old(tilesLc), tilesGoals, size, i, j, x, Intended)
    {
      var first := tilesGoals[i][x].second;
      var second := tilesGoals[j][x].second;
      if first > second && first != -1 && second != -1 {
        tilesLc := tilesLc[i := tilesLc[i][x := InsertColumn(tilesLc[i][x], j, x)]];
        tilesLc := tilesLc[j := tilesLc[j][x := InsertColumn(tilesLc[j][x], i, x)]];
        return 1;
      }
      return 0;
    }

    /** count_set_lc(x)'s inner loop for one i: test pairs (i, i+1) .. (i, n-1) of row x and of column x, adding to total in 32 bits. */
    method CountPairs(x: nat, i: nat, total: nat) returns (t: nat)
      requires Square(tilesGoals, size) && Square(tilesLc, size) && x < size && i < size
      modifies this`tilesLc
      ensures tilesLc == PairsChecked(old(tilesLc), tilesGoals, size, x, i, size, AsWritten)
      ensures t == Wrap32(total + PairsFromBoth(tilesGoals, size, x, i, size, AsWritten))
    {
      var n := size;
      ghost var lc0 := tilesLc;
      t := Wrap32(total);
      for j := i + 1 to n
        invariant Square(tilesLc, n)
        invariant tilesLc == PairsChecked(lc0, tilesGoals, n, x, i, j, AsWritten)
        invariant t == Wrap32(total + PairsFromBoth(tilesGoals, n, x, i, j, AsWritten))
      {
        t := CountPair(x, i, j, total, t);
      }
    }

    /** One pass of count_set_lc's inner loop: check_lc(x, x, i, j) and check_lc(i, j, x, x), added to the running count. */
    method CountPair(x: nat, i: nat, j: nat, ghost total: nat, t: nat) returns (t': nat)
      requires Square(tilesGoals, size) && Square(tilesLc, size) && x < size && i < j < size
      requires t == Wrap32(total + PairsFromBoth(tilesGoals, size, x, i, j, AsWritten))
      modifies this`tilesLc
      ensures tilesLc == CheckPair(old(tilesLc), tilesGoals, size, x, i, j, AsWritten)
      ensures t' == Wrap32(total + PairsFromBoth(tilesGoals, size, x, i, j + 1, AsWritten))
    {
      var a := CheckLc(x, x, i, j);
      var b := CheckLc(i, j, x, x);
      PairsFromStep(tilesGoals, size, x, i, j, AsWritten, total, t, a, b);
      t' := Wrap32(t + (a + b));
    }

    /** count_set_lc(x): test every pair of row x and every pair of column x as written, setting links; twice the hits. */
    method CountSetLc(x: nat) returns (r: nat)
      requires Square(tilesGoals, size) && Square(tilesLc, size) && x < size
      modifies this`tilesLc
      ensures tilesLc == LineChecked(old(tilesLc), tilesGoals, size, x, size, AsWritten)
      ensures r == Wrap32(2 * LinePairs(tilesGoals, size, x, AsWritten))
    {
      var n := size;
      ghost var lc0 := tilesLc;
      var total := 0;
      for i := 0 to n
        invariant Square(tilesLc, n)
        invariant tilesLc == LineChecked(lc0, tilesGoals, n, x, i, AsWritten)
        invariant total == Wrap32(PairsBeforeBoth(tilesGoals, n, x, i, AsWritten))
      {
        total := CountPairs(x, i, total);
        PairsBeforeStep(tilesGoals, n, x, i, AsWritten, total);
      }
      LinePairsDouble(tilesGoals, n, x, AsWritten, total);
      r := Wrap32(total * 2);
    }

    /** setup_linear_conflict: fresh tags, empty links, then count_set_lc for every line index, summed in 32 bits. */
    method SetupLinearConflict()
      requires Square(data, size)
      modifies this`tilesGoals, this`tilesLc, this`linearConflict
      ensures tilesGoals == FreshTags(data, size, blank) && tilesLc == ConstructionTables(tilesGoals, size, AsWritten)
      ensures linearConflict == if size == 0 then old(linearConflict) else InitialConflict(tilesGoals, size, AsWritten)
    {
      SetGoals();
      tilesLc := EmptyLinks(size);
      if size == 0 {
        return;
      }
      var total := CountLines();
      linearConflict := total;
    }

    /** setup_linear_conflict's loop: count_set_lc(x) for x = 0 .. n-1 on empty tables, summed in 32 bits. */
    method CountLines() returns (total: nat)
      requires Square(tilesGoals, size) && tilesLc == EmptyLinks(size)
      modifies this`tilesLc
      ensures tilesLc == ConstructionTables(tilesGoals, size, AsWritten)
      ensures total == InitialConflict(tilesGoals, size, AsWritten)
    {
      var n := size;
      total := 0;
      for x := 0 to n
        invariant tilesLc == LinesChecked(EmptyLinks(n), tilesGoals, n, x, AsWritten)
        invariant total == Wrap32(2 * PairsBelow(tilesGoals, n, x, AsWritten))
      {
        var c := CountSetLc(x);
        PairsBelowStep(tilesGoals, n, x, AsWritten, total, c);
        total := Wrap32(total + c);
      }
    }

    /**
     * swap_blank: the tile at (x, y) moves into the blank. The distances are
     * updated by their deltas, the tags of the two cells are recomputed and
     * the links of one line are patched, as MovedLinks and MovedConflict say.
     */
    method SwapBlank(x: nat, y: nat)
      requires Valid() && IsMove(data, size, blank, (x, y)) && (x == blank.0 || y == blank.1)
      modifies this
      ensures Valid() && State() == Moved(old(State()), (x, y))
    {
      var b := blank;
      ghost var s0 := State();
      assert ValidState(s0) && IsMove(s0.data, s0.size, s0.blank, (x, y));
      MoveTile(x, y);
      ghost var s1 := State();
      UpdateTables(x, y, b, s0.data);
      assert data == s1.data && hamming == s1.hamming && manhattan == s1.manhattan;
      MovedFields(s0, (x, y), State());
    }

    /** swap_blank's second half: patch the tags and links of the line the tile moved along, then linear_conflict_. */
    method UpdateTables(x: nat, y: nat, b: (nat, nat), ghost d0: Grid)
      requires Square(d0, size) && Square(tilesLc, size) && x < size && y < size && b.0 < size && b.1 < size && (x, y) != b
      requires x == b.0 || y == b.1
      requires data == SwapCells(d0, size, (x, y), b) && blank == (x, y) && tilesGoals == FreshTags(d0, size, b)
      modifies this`tilesGoals, this`tilesLc, this`linearConflict
      ensures tilesGoals == FreshTags(data, size, blank)
      ensures tilesLc == MovedLinks(old(tilesLc), old(tilesGoals), tilesGoals, size, b, (x, y))
      ensures linearConflict == MovedConflict(old(linearConflict), old(tilesLc), old(tilesGoals), tilesGoals, size, b, (x, y))
    {
      var deleted, added;
      if b.0 == x {
        deleted, added := MoveAlongRow(x, y, b.1, d0);
      } else {
        deleted, added := MoveAlongColumn(x, y, b.0, d0);
      }
      linearConflict := Wrap32(linearConflict - deleted * 2 + added);
    }

    /** swap_blank's first half: exchange the tile at (x, y) with the blank and update both distances by their deltas. */
    method MoveTile(x: nat, y: nat)
      requires IsTileGrid(data, size) && size * size < U32 && IsMove(data, size, blank, (x, y))
      requires hamming == HammingOf(data, size) && manhattan == Wrap32(ManhattanOf(data, size))
      modifies this`data, this`blank, this`hamming, this`manhattan
      ensures data == SwapCells(old(data), size, (x, y), old(blank)) && blank == (x, y)
      ensures IsTileGrid(data, size) && BlankAt(data, size, blank)
      ensures hamming == HammingOf(data, size) && manhattan == Wrap32(ManhattanOf(data, size))
    {
      var n, b := size, blank;
      ghost var d0 := data;
      var manhattanX1 := CellDistance(data, n, x, y);
      var hammingX1 := OnPlace(data, n, x, y);
      var hammingX2 := OnPlace(data, n, b.0, b.1);
      var d := SwapCells(data, n, (x, y), b);
      var m := Wrap32(manhattan - manhattanX1 + CellDistance(d, n, b.0, b.1));
      var h: int := hamming + (if hammingX1 then 1 else if OnPlace(d, n, b.0, b.1) then -1 else 0)
                            + (if hammingX2 then 1 else if OnPlace(d, n, x, y) then -1 else 0);
      AfterMove(d0, n, b, (x, y), manhattan, manhattanX1, hamming, hammingX1, hammingX2, d, m, h);
      data, blank, manhattan, hamming := d, (x, y), m, Wrap32(h);
    }

    /** Clear the tags of the cell p the tile left and run set_goal on the cell q it entered. */
    method Retag(p: (nat, nat), q: (nat, nat), ghost d0: Grid)
      requires Square(d0, size) && p.0 < size && p.1 < size && q.0 < size && q.1 < size && p != q
      requires data == SwapCells(d0, size, p, q) && blank == p && tilesGoals == FreshTags(d0, size, q)
      modifies this`tilesGoals
      ensures tilesGoals == FreshTags(data, size, blank)
    {
      tilesGoals := tilesGoals[p.0 := tilesGoals[p.0][p.1 := NoTags]];
      SetGoalAt(q.0, q.1);
      MoveTags(d0, size, q, p);
    }

    /** swap_blank's table updates for a move along row x, from (x, y) to (x, newY): only .second tags and in_column sets are read. */
    method MoveAlongRow(x: nat, y: nat, newY: nat, ghost d0: Grid) returns (deleted: nat, added: nat)
      requires Square(d0, size) && Square(tilesLc, size) && x < size && y < size && newY < size && y != newY
      requires data == SwapCells(d0, size, (x, y), (x, newY)) && blank == (x, y) && tilesGoals == FreshTags(d0, size, (x, newY))
      modifies this`tilesGoals, this`tilesLc
      ensures tilesGoals == FreshTags(data, size, blank)
      ensures tilesLc == MovedLinks(old(tilesLc), old(tilesGoals), tilesGoals, size, (x, newY), (x, y))
      ensures deleted == DeletedLinks(old(tilesLc), old(tilesGoals), size, (x, newY), (x, y))
      ensures added == AddedLinks(old(tilesGoals), tilesGoals, size, (x, newY), (x, y))
    {
      if tilesGoals[x][y].second != -1 {
        ghost var lc0 := tilesLc;
        deleted := EraseColumnLinks(x, y);
        ColumnErasedCount(lc0, size, x, y);
        Retag((x, y), (x, newY), d0);
        added := 0;
      } else {
        Retag((x, y), (x, newY), d0);
        added := JoinColumnLinks(x, newY);
        deleted := 0;
      }
    }

    /** The same for a move along column y, from (x, y) to (newX, y): only .first tags and in_row sets are read. */
    method MoveAlongColumn(x: nat, y: nat, newX: nat, ghost d0: Grid) returns (deleted: nat, added: nat)
      requires Square(d0, size) && Square(tilesLc, size) && x < size && y < size && newX < size && x != newX
      requires data == SwapCells(d0, size, (x, y), (newX, y)) && blank == (x, y) && tilesGoals == FreshTags(d0, size, (newX, y))
      modifies this`tilesGoals, this`tilesLc
      ensures tilesGoals == FreshTags(data, size, blank)
      ensures tilesLc == MovedLinks(old(tilesLc), old(tilesGoals), tilesGoals, size, (newX, y), (x, y))
      ensures deleted == DeletedLinks(old(tilesLc), old(tilesGoals), size, (newX, y), (x, y))
      ensures added == AddedLinks(old(tilesGoals), tilesGoals, size, (newX, y), (x, y))
    {
      if tilesGoals[x][y].first != -1 {
        ghost var lc0 := tilesLc;
        deleted := EraseRowLinks(x, y);
        RowErasedCount(lc0, size, x, y);
        Retag((x, y), (newX, y), d0);
        added := 0;
      } else {
        Retag((x, y), (newX, y), d0);
        added := JoinRowLinks(newX, y);
        deleted := 0;
      }
    }

    /** The erase loop for a tile leaving its goal column: drop its links with column y both ways; deleted is the size difference. */
    method EraseColumnLinks(x: nat, y: nat) returns (deleted: nat)
      requires Square(tilesLc, size) && x < size && y < size
      modifies this`tilesLc
      ensures tilesLc == ColumnErased(old(tilesLc), size, x, y)
      ensures deleted == |old(tilesLc)[x][y].inColumn| - |tilesLc[x][y].inColumn|
    {
      var n := size;
      ghost var lc0 := tilesLc;
      var before := |tilesLc[x][y].inColumn|;
      for i := 0 to n
        invariant ColumnErasedUpTo(lc0, tilesLc, n, x, y, i)
      {
        ColumnEraseStep(lc0, tilesLc, n, x, y, i);
        tilesLc := tilesLc[x := tilesLc[x][y := tilesLc[x][y].(inColumn := tilesLc[x][y].inColumn - {(i, y)})]];
        tilesLc := tilesLc[i := tilesLc[i][y := tilesLc[i][y].(inColumn := tilesLc[i][y].inColumn - {(x, y)})]];
      }
      ColumnErasedEnd(lc0, tilesLc, n, x, y);
      deleted := before - |tilesLc[x][y].inColumn|;
    }

    /** The erase loop for a tile leaving its goal row: drop its links with row x both ways. */
    method EraseRowLinks(x: nat, y: nat) returns (deleted: nat)
      requires Square(tilesLc, size) && x < size && y < size
      modifies this`tilesLc
      ensures tilesLc == RowErased(old(tilesLc), size, x, y)
      ensures deleted == |old(tilesLc)[x][y].inRow| - |tilesLc[x][y].inRow|
    {
      var n := size;
      ghost var lc0 := tilesLc;
      var before := |tilesLc[x][y].inRow|;
      for i := 0 to n
        invariant RowErasedUpTo(lc0, tilesLc, n, x, y, i)
      {
        RowEraseStep(lc0, tilesLc, n, x, y, i);
        tilesLc := tilesLc[x := tilesLc[x][y := tilesLc[x][y].(inRow := tilesLc[x][y].inRow - {(x, i)})]];
        tilesLc := tilesLc[x := tilesLc[x][i := tilesLc[x][i].(inRow := tilesLc[x][i].inRow - {(x, y)})]];
      }
      RowErasedEnd(lc0, tilesLc, n, x, y);
      deleted := before - |tilesLc[x][y].inRow|;
    }

    /** The insert loops for a tile arriving at (x, c) in its goal column: link it with each conflicting tile of column c, two per link. */
    method JoinColumnLinks(x: nat, c: nat) returns (added: nat)
      requires Square(tilesGoals, size) && Square(tilesLc, size) && x < size && c < size
      modifies this`tilesLc
      ensures tilesLc == ColumnJoined(old(tilesLc), ColumnSeconds(tilesGoals, size, c), size, x, c)
      ensures added == 2 * CountHits(ColumnSeconds(tilesGoals, size, c), x, size)
    {
      var n := size;
      ghost var s := ColumnSeconds(tilesGoals, n, c);
      ghost var lc0 := tilesLc;
      added := JoinColumnRange(x, c, 0, x, lc0, 0);
      ColumnJoinStep(lc0, tilesLc, s, n, x, c, x);
      added := JoinColumnRange(x, c, x + 1, n, lc0, added);
      ColumnJoinedEnd(lc0, tilesLc, s, n, x, c);
    }

    /** One of the column insert loops: the enemies at positions lo .. hi-1 of column c, all on one side of x. */
    method JoinColumnRange(x: nat, c: nat, lo: nat, hi: nat, ghost lc0: Links, added0: nat) returns (added: nat)
      requires Square(tilesGoals, size) && c < size && lo <= hi <= size && (hi <= x || x < lo)
      requires ColumnJoinedUpTo(lc0, tilesLc, ColumnSeconds(tilesGoals, size, c), size, x, c, lo)
      requires added0 == 2 * CountHits(ColumnSeconds(tilesGoals, size, c), x, lo)
      modifies this`tilesLc
      ensures ColumnJoinedUpTo(lc0, tilesLc, ColumnSeconds(tilesGoals, size, c), size, x, c, hi)
      ensures added == 2 * CountHits(ColumnSeconds(tilesGoals, size, c), x, hi)
    {
      ghost var s := ColumnSeconds(tilesGoals, size, c);
      added := added0;
      for i := lo to hi
        invariant ColumnJoinedUpTo(lc0, tilesLc, s, size, x, c, i)
        invariant added == 2 * CountHits(s, x, i)
      {
        ColumnJoinStep(lc0, tilesLc, s, size, x, c, i);
        var h := LinkColumnEnemy(x, c, i);
        added := added + h;
      }
    }

    /** The body of both column insert loops: above x an enemy conflicts when its goal row is larger, below x when it is smaller. */
    method LinkColumnEnemy(x: nat, c: nat, i: nat) returns (h: nat)
      requires Square(tilesGoals, size) && Square(tilesLc, size) && x < size && c < size && i < size && i != x
      modifies this`tilesLc
      ensures tilesLc == ColumnJoinCheck(old(tilesLc), ColumnSeconds(tilesGoals, size, c), size, x, c, i)
      ensures h == if Hit(ColumnSeconds(tilesGoals, size, c), i, x) then 2 else 0
    {
      var shifted := tilesGoals[x][c].second;
      var enemy := tilesGoals[i][c].second;
      if (if i < x then enemy > shifted else enemy < shifted) && enemy != -1 && shifted != -1 {
        tilesLc := tilesLc[x := tilesLc[x][c := InsertColumn(tilesLc[x][c], i, c)]];
        tilesLc := tilesLc[i := tilesLc[i][c := InsertColumn(tilesLc[i][c], x, c)]];
        return 2;
      }
      return 0;
    }

    /** The insert loops for a tile arriving at (x, c) in its goal row: link it with each conflicting tile of row x. */
    method JoinRowLinks(x: nat, c: nat) returns (added: nat)
      requires Square(tilesGoals, size) && Square(tilesLc, size) && x < size && c < size
      modifies this`tilesLc
      ensures tilesLc == RowJoined(old(tilesLc), RowFirsts(tilesGoals, size, x), size, x, c)
      ensures added == 2 * CountHits(RowFirsts(tilesGoals, size, x), c, size)
    {
      var n := size;
      ghost var s := RowFirsts(tilesGoals, n, x);
      ghost var lc0 := tilesLc;
      added := JoinRowRange(x, c, 0, c, lc0, 0);
      RowJoinStep(lc0, tilesLc, s, n, x, c, c);
      added := JoinRowRange(x, c, c + 1, n, lc0, added);
      RowJoinedEnd(lc0, tilesLc, s, n, x, c);
    }

    /** One of the row insert loops: the enemies at positions lo .. hi-1 of row x, all on one side of c. */
    method JoinRowRange(x: nat, c: nat, lo: nat, hi: nat, ghost lc0: Links, added0: nat) returns (added: nat)
      requires Square(tilesGoals, size) && x < size && lo <= hi <= size && (hi <= c || c < lo)
      requires RowJoinedUpTo(lc0, tilesLc, RowFirsts(tilesGoals, size, x), size, x, c, lo)
      requires added0 == 2 * CountHits(RowFirsts(tilesGoals, size, x), c, lo)
      modifies this`tilesLc
      ensures RowJoinedUpTo(lc0, tilesLc, RowFirsts(tilesGoals, size, x), size, x, c, hi)
      ensures added == 2 * CountHits(RowFirsts(tilesGoals, size, x), c, hi)
    {
      ghost var s := RowFirsts(tilesGoals, size, x);
      added := added0;
      for i := lo to hi
        invariant RowJoinedUpTo(lc0, tilesLc, s, size, x, c, i)
        invariant added == 2 * CountHits(s, c, i)
      {
        RowJoinStep(lc0, tilesLc, s, size, x, c, i);
        var h := LinkRowEnemy(x, c, i);
        added := added + h;
      }
    }

    /** The body of both row insert loops: left of c an enemy conflicts when its goal column is larger, right of c when it is smaller. */
    method LinkRowEnemy(x: nat, c: nat, i: nat) returns (h: nat)
      requires Square(tilesGoals, size) && Square(tilesLc, size) && x < size && c < size && i < size && i != c
      modifies this`tilesLc
      ensures tilesLc == RowJoinCheck(old(tilesLc), RowFirsts(tilesGoals, size, x), size, x, c, i)
      ensures h == if Hit(RowFirsts(tilesGoals, size, x), i, c) then 2 else 0
    {
      var shifted := tilesGoals[x][c].first;
      var enemy := tilesGoals[x][i].first;
      if (if i < c then enemy > shifted else enemy < shifted) && enemy != -1 && shifted != -1 {
        tilesLc := tilesLc[x := tilesLc[x][c := InsertRow(tilesLc[x][c], x, i)]];
        tilesLc := tilesLc[x := tilesLc[x][i := InsertRow(tilesLc[x][i], x, c)]];
        return 2;
      }
      return 0;
    }
  }
}
