/**
 * The side tables a board keeps for its linear-conflict heuristic:
 * tiles_goals (per cell, the goal column of a tile already in its goal
 * row, and the goal row of a tile already in its goal column, -1 when not)
 * and tiles_lc (per cell, the cells its tile is in conflict with).
 */
module LinearConflict {
  import opened PuzzleGrid

  /** tiles_goals[i][j]: (goal column if in goal row, goal row if in goal column), -1 for "no". */
  datatype Tags = Tags(first: int, second: int)

  const NoTags: Tags := Tags(-1, -1)

  /** in_lc_with: the coordinates of the tiles this one conflicts with, along its row and its column. */
  datatype LcWith = LcWith(inRow: set<(int, int)>, inColumn: set<(int, int)>)

  const NoLinks: LcWith := LcWith({}, {})

  type Links = seq<seq<LcWith>>

  /** in_lc_with::insert_row: only the row set grows, by exactly (i, j). */
  function InsertRow(w: LcWith, i: int, j: int): (r: LcWith)
    ensures r.inColumn == w.inColumn
    ensures forall p :: p in r.inRow <==> p in w.inRow || p == (i, j)
  {
    w.(inRow := w.inRow + {(i, j)})
  }

  /** in_lc_with::insert_column: only the column set grows, by exactly (i, j). */
  function InsertColumn(w: LcWith, i: int, j: int): (r: LcWith)
    ensures r.inRow == w.inRow
    ensures forall p :: p in r.inColumn <==> p in w.inColumn || p == (i, j)
  {
    w.(inColumn := w.inColumn + {(i, j)})
  }

  /** 2^64: a size_t wraps modulo this. */
  const U64: nat := 0x1_0000_0000_0000_0000

  /** hash<pair<int,int>>: first * 31 + second, as a size_t. */
  function PairHash(p: (int, int)): nat
  {
    (p.0 * 31 + p.1) % U64
  }

  /** On coordinates of boards up to 31 wide the pair hash has no collisions. */
  lemma PairHashInjective(a: (int, int), b: (int, int))
    requires 0 <= a.0 < U64 / 32 && 0 <= b.0 < U64 / 32 && 0 <= a.1 < 31 && 0 <= b.1 < 31
    requires PairHash(a) == PairHash(b)
    ensures a == b
  {
    assert a.0 * 31 + a.1 < U64 by {
      MulMonotone(a.0, U64 / 32, 31);
    }
    assert b.0 * 31 + b.1 < U64 by {
      MulMonotone(b.0, U64 / 32, 31);
    }
    CellIndexUnique(a.0, a.1, b.0, b.1, 31);
  }

  // ---------------------------------------------------------------- tags

  /** set_goal on one cell: record the goal column / goal row of a tile aligned with its goal. */
  function SetGoal(t: Tags, data: Grid, n: nat, blank: (nat, nat), i: nat, j: nat): Tags
    requires Square(data, n) && i < n && j < n
  {
    if (i, j) == blank then t
    else
      var v := ActualValue(data, n, i, j);
      var t1 := if GoalRow(v, n) == i then t.(first := GoalCol(v, n)) else t;
      if GoalCol(v, n) == j then t1.(second := GoalRow(v, n)) else t1
  }

  /** The tags set_goals computes from scratch. */
  function FreshTags(data: Grid, n: nat, blank: (nat, nat)): (tg: seq<seq<Tags>>)
    requires Square(data, n)
    ensures Square(tg, n)
  {
    seq(n, i requires 0 <= i < n => seq(n, j requires 0 <= j < n => SetGoal(NoTags, data, n, blank, i, j)))
  }

  /** What a fresh tag says: .first is set exactly for tiles in their goal row, .second for tiles in their goal column. */
  lemma FreshTagMeaning(data: Grid, n: nat, blank: (nat, nat), i: nat, j: nat)
    requires IsTileGrid(data, n) && blank.0 < n && blank.1 < n && data[blank.0][blank.1] == 0
    requires i < n && j < n
    ensures var t := FreshTags(data, n, blank)[i][j];
      var v := ActualValue(data, n, i, j);
      (t.first != -1 <==> (i, j) != blank && GoalRow(v, n) == i) &&
      (t.first != -1 ==> t.first == GoalCol(v, n)) &&
      (t.second != -1 <==> (i, j) != blank && GoalCol(v, n) == j) &&
      (t.second != -1 ==> t.second == GoalRow(v, n))
  {
  }

  /**
   * swap_blank's retagging after the tile at p moves into the blank b: p's
   * tags are cleared and set_goal runs on b. The result is exactly what
   * set_goals would compute from scratch on the moved board.
   */
  lemma MoveTags(data: Grid, n: nat, b: (nat, nat), p: (nat, nat))
    requires Square(data, n) && b.0 < n && b.1 < n && p.0 < n && p.1 < n && p != b
    ensures var tg := FreshTags(data, n, b);
      var d := SwapCells(data, n, p, b);
      var tg1 := tg[p.0 := tg[p.0][p.1 := NoTags]];
      tg1[b.0 := tg1[b.0][b.1 := SetGoal(tg1[b.0][b.1], d, n, p, b.0, b.1)]] == FreshTags(d, n, p)
  {
    var tg := FreshTags(data, n, b);
    var d := SwapCells(data, n, p, b);
    var tg1 := tg[p.0 := tg[p.0][p.1 := NoTags]];
    var tg2 := tg1[b.0 := tg1[b.0][b.1 := SetGoal(tg1[b.0][b.1], d, n, p, b.0, b.1)]];
    var ft := FreshTags(d, n, p);
    forall i | 0 <= i < n ensures tg2[i] == ft[i] {
      forall j | 0 <= j < n ensures tg2[i][j] == ft[i][j] {
        if (i, j) != p && (i, j) != b {
          assert d[i][j] == data[i][j];
        }
      }
    }
  }

  // ----------------------------------------------- conflicts at construction

  /** check_lc's test: the earlier tile wants to be further along than the later one, both aligned. */
  predicate Conflict(a: int, b: int)
  {
    a > b && a != -1 && b != -1
  }

  /** The .first tags along row x, and down column x. */
  function RowFirsts(tg: seq<seq<Tags>>, n: nat, x: nat): (s: seq<int>)
    requires Square(tg, n) && x < n
    ensures |s| == n
  {
    seq(n, j requires 0 <= j < n => tg[x][j].first)
  }

  function ColumnFirsts(tg: seq<seq<Tags>>, n: nat, x: nat): (s: seq<int>)
    requires Square(tg, n) && x < n
    ensures |s| == n
  {
    seq(n, i requires 0 <= i < n => tg[i][x].first)
  }

  /** The number of b with a < b < j whose tag conflicts with that of a. */
  function PairsFrom(s: seq<int>, a: nat, j: nat): nat
    requires a < |s| && j <= |s|
    decreases j
  {
    if j <= a + 1 then 0 else PairsFrom(s, a, j - 1) + (if Conflict(s[a], s[j - 1]) then 1 else 0)
  }

  /** The number of conflicting pairs (a, b) with a < i. */
  function PairsBefore(s: seq<int>, i: nat): nat
    requires i <= |s|
    decreases i
  {
    if i == 0 then 0 else PairsBefore(s, i - 1) + PairsFrom(s, i - 1, |s|)
  }

  /** The number of conflicting pairs a < b of a line. */
  function Inversions(s: seq<int>): nat
  {
    PairsBefore(s, |s|)
  }

  lemma {:induction false} PairsFromZero(s: seq<int>, a: nat, j: nat)
    requires a < |s| && j <= |s|
    ensures PairsFrom(s, a, j) == 0 <==> forall b :: a < b < j ==> !Conflict(s[a], s[b])
    decreases j
  {
    if j > a + 1 {
      PairsFromZero(s, a, j - 1);
    }
  }

  lemma {:induction false} PairsBeforeZero(s: seq<int>, i: nat)
    requires i <= |s|
    ensures PairsBefore(s, i) == 0 <==> forall a, b :: 0 <= a < i && a < b < |s| ==> !Conflict(s[a], s[b])
    decreases i
  {
    if i > 0 {
      PairsBeforeZero(s, i - 1);
      PairsFromZero(s, i - 1, |s|);
    }
  }

  /** A line has no inversions exactly when no pair in it conflicts. */
  lemma InversionsZero(s: seq<int>)
    ensures Inversions(s) == 0 <==> forall a, b :: 0 <= a < b < |s| ==> !Conflict(s[a], s[b])
  {
    PairsBeforeZero(s, |s|);
  }

  /** The .second tags down column x: the goal row of each tile already in its goal column. */
  function ColumnSeconds(tg: seq<seq<Tags>>, n: nat, x: nat): (s: seq<int>)
    requires Square(tg, n) && x < n
    ensures |s| == n
  {
    seq(n, i requires 0 <= i < n => tg[i][x].second)
  }

  /**
   * The test of count_set_lc's second call on a pair of column x. As
   * written, check_lc(i, j, x, x) compares the .first tags of cells (i, x)
   * and (j, x) and puts each of the two cells into its own in_row. As
   * swap_blank's column updates intend, it would compare their .second
   * tags and link the two cells in in_column.
   */
  datatype ColumnPass = AsWritten | Intended

  /** The tags the column pass compares down column x. */
  function ColumnTags(tg: seq<seq<Tags>>, n: nat, x: nat, pass: ColumnPass): (s: seq<int>)
    requires Square(tg, n) && x < n
    ensures |s| == n
  {
    if pass == AsWritten then ColumnFirsts(tg, n, x) else ColumnSeconds(tg, n, x)
  }

  /**
   * The conflicting pairs of rows and columns 0 .. x-1: along a row the
   * goal columns (.first) of the tiles in their goal row, down a column the
   * tags the column pass compares.
   */
  function PairsBelow(tg: seq<seq<Tags>>, n: nat, x: nat, pass: ColumnPass): nat
    requires Square(tg, n) && x <= n
    decreases x
  {
    if x == 0 then 0
    else PairsBelow(tg, n, x - 1, pass) + Inversions(RowFirsts(tg, n, x - 1)) + Inversions(ColumnTags(tg, n, x - 1, pass))
  }

  function ConflictCount(tg: seq<seq<Tags>>, n: nat, pass: ColumnPass): nat
    requires Square(tg, n)
  {
    PairsBelow(tg, n, n, pass)
  }

  /** The linear conflict a board starts with: twice the conflicting pairs, as an unsigned. */
  function InitialConflict(tg: seq<seq<Tags>>, n: nat, pass: ColumnPass): nat
    requires Square(tg, n)
  {
    Wrap32(2 * ConflictCount(tg, n, pass))
  }

  // ------------------------------------------- linear conflict, on the grid

  /** Tiles in cells (r, a) and (r, b), a < b, are both in their goal row r and their goal columns are the other way round. */
  predicate RowConflict(data: Grid, n: nat, r: nat, a: nat, b: nat)
    requires Square(data, n) && r < n && a < n && b < n
  {
    a < b && data[r][a] != 0 && data[r][b] != 0 &&
    var va, vb := ActualValue(data, n, r, a), ActualValue(data, n, r, b);
    GoalRow(va, n) == r && GoalRow(vb, n) == r && GoalCol(va, n) > GoalCol(vb, n)
  }

  /** Tiles in cells (a, c) and (b, c), a < b, are both in their goal column c and their goal rows are the other way round. */
  predicate ColumnConflict(data: Grid, n: nat, c: nat, a: nat, b: nat)
    requires Square(data, n) && c < n && a < n && b < n
  {
    a < b && data[a][c] != 0 && data[b][c] != 0 &&
    var va, vb := ActualValue(data, n, a, c), ActualValue(data, n, b, c);
    GoalCol(va, n) == c && GoalCol(vb, n) == c && GoalRow(va, n) > GoalRow(vb, n)
  }

  /**
   * What the column pass as written counts in column c: tiles in cells
   * (a, c) and (b, c), a < b, each in its own goal row, whose goal columns
   * are the other way round. Neither needs to be in its goal column.
   */
  predicate ColumnClash(data: Grid, n: nat, c: nat, a: nat, b: nat)
    requires Square(data, n) && c < n && a < n && b < n
  {
    a < b && data[a][c] != 0 && data[b][c] != 0 &&
    var va, vb := ActualValue(data, n, a, c), ActualValue(data, n, b, c);
    GoalRow(va, n) == a && GoalRow(vb, n) == b && GoalCol(va, n) > GoalCol(vb, n)
  }

  /** No two tiles of row y, and no two tiles of column y, are in linear conflict. */
  predicate NoRowConflict(data: Grid, n: nat, y: nat)
    requires Square(data, n) && y < n
  {
    forall a, b :: 0 <= a < n && 0 <= b < n ==> !RowConflict(data, n, y, a, b)
  }

  predicate NoColumnConflict(data: Grid, n: nat, y: nat)
    requires Square(data, n) && y < n
  {
    forall a, b :: 0 <= a < n && 0 <= b < n ==> !ColumnConflict(data, n, y, a, b)
  }

  predicate NoColumnClash(data: Grid, n: nat, y: nat)
    requires Square(data, n) && y < n
  {
    forall a, b :: 0 <= a < n && 0 <= b < n ==> !ColumnClash(data, n, y, a, b)
  }

  predicate NoLinearConflict(data: Grid, n: nat)
    requires Square(data, n)
  {
    forall y :: 0 <= y < n ==> NoRowConflict(data, n, y) && NoColumnConflict(data, n, y)
  }

  /** Nothing the construction as written counts: no row conflict and no column clash. */
  predicate NoAsWrittenConflict(data: Grid, n: nat)
    requires Square(data, n)
  {
    forall y :: 0 <= y < n ==> NoRowConflict(data, n, y) && NoColumnClash(data, n, y)
  }

  /** The lines below x have no conflicting pair of tags exactly when their count is zero, for either column pass. */
  lemma {:induction false} PairsBelowZero(tg: seq<seq<Tags>>, n: nat, x: nat, pass: ColumnPass)
    requires Square(tg, n) && x <= n
    ensures PairsBelow(tg, n, x, pass) == 0 <==>
      forall y :: 0 <= y < x ==> Inversions(RowFirsts(tg, n, y)) == 0 && Inversions(ColumnTags(tg, n, y, pass)) == 0
    decreases x
  {
    if x > 0 {
      PairsBelowZero(tg, n, x - 1, pass);
    }
  }

  /** Along row r, a conflict of fresh tags is a row conflict of the tiles. */
  lemma RowTagConflict(data: Grid, n: nat, blank: (nat, nat), r: nat, a: nat, b: nat)
    requires IsTileGrid(data, n) && blank.0 < n && blank.1 < n && data[blank.0][blank.1] == 0
    requires r < n && a < b < n
    ensures var s := RowFirsts(FreshTags(data, n, blank), n, r);
      Conflict(s[a], s[b]) <==> RowConflict(data, n, r, a, b)
  {
    BlankIsUnique(data, n, blank);
    FreshTagMeaning(data, n, blank, r, a);
    FreshTagMeaning(data, n, blank, r, b);
  }

  /** Down column c, a conflict of the fresh .second tags is a column conflict of the tiles. */
  lemma ColumnTagConflict(data: Grid, n: nat, blank: (nat, nat), c: nat, a: nat, b: nat)
    requires IsTileGrid(data, n) && blank.0 < n && blank.1 < n && data[blank.0][blank.1] == 0
    requires c < n && a < b < n
    ensures var s := ColumnSeconds(FreshTags(data, n, blank), n, c);
      Conflict(s[a], s[b]) <==> ColumnConflict(data, n, c, a, b)
  {
    BlankIsUnique(data, n, blank);
    FreshTagMeaning(data, n, blank, a, c);
    FreshTagMeaning(data, n, blank, b, c);
  }

  /** Down column c, a conflict of the fresh .first tags is a column clash of the tiles. */
  lemma ColumnTagClash(data: Grid, n: nat, blank: (nat, nat), c: nat, a: nat, b: nat)
    requires IsTileGrid(data, n) && blank.0 < n && blank.1 < n && data[blank.0][blank.1] == 0
    requires c < n && a < b < n
    ensures var s := ColumnFirsts(FreshTags(data, n, blank), n, c);
      Conflict(s[a], s[b]) <==> ColumnClash(data, n, c, a, b)
  {
    BlankIsUnique(data, n, blank);
    FreshTagMeaning(data, n, blank, a, c);
    FreshTagMeaning(data, n, blank, b, c);
  }

  /**
   * Row y has no inversion exactly when it holds no row conflict; column y's
   * .second tags have none exactly when it holds no column conflict, and
   * its .first tags none exactly when it holds no column clash.
   */
  lemma LineInversionsZero(data: Grid, n: nat, blank: (nat, nat), y: nat)
    requires IsTileGrid(data, n) && blank.0 < n && blank.1 < n && data[blank.0][blank.1] == 0 && y < n
    ensures var tg := FreshTags(data, n, blank);
      (Inversions(RowFirsts(tg, n, y)) == 0 <==> NoRowConflict(data, n, y)) &&
      (Inversions(ColumnSeconds(tg, n, y)) == 0 <==> NoColumnConflict(data, n, y)) &&
      (Inversions(ColumnFirsts(tg, n, y)) == 0 <==> NoColumnClash(data, n, y))
  {
    RowInversionsZero(data, n, blank, y);
    ColumnInversionsZero(data, n, blank, y);
    ColumnClashesZero(data, n, blank, y);
  }

  lemma RowInversionsZero(data: Grid, n: nat, blank: (nat, nat), y: nat)
    requires IsTileGrid(data, n) && blank.0 < n && blank.1 < n && data[blank.0][blank.1] == 0 && y < n
    ensures Inversions(RowFirsts(FreshTags(data, n, blank), n, y)) == 0 <==> NoRowConflict(data, n, y)
  {
    var s := RowFirsts(FreshTags(data, n, blank), n, y);
    InversionsZero(s);
    forall a, b | 0 <= a < b < n ensures Conflict(s[a], s[b]) <==> RowConflict(data, n, y, a, b) {
      RowTagConflict(data, n, blank, y, a, b);
    }
  }

  lemma ColumnInversionsZero(data: Grid, n: nat, blank: (nat, nat), y: nat)
    requires IsTileGrid(data, n) && blank.0 < n && blank.1 < n && data[blank.0][blank.1] == 0 && y < n
    ensures Inversions(ColumnSeconds(FreshTags(data, n, blank), n, y)) == 0 <==> NoColumnConflict(data, n, y)
  {
    var s := ColumnSeconds(FreshTags(data, n, blank), n, y);
    InversionsZero(s);
    forall a, b | 0 <= a < b < n ensures Conflict(s[a], s[b]) <==> ColumnConflict(data, n, y, a, b) {
      ColumnTagConflict(data, n, blank, y, a, b);
    }
  }

  lemma ColumnClashesZero(data: Grid, n: nat, blank: (nat, nat), y: nat)
    requires IsTileGrid(data, n) && blank.0 < n && blank.1 < n && data[blank.0][blank.1] == 0 && y < n
    ensures Inversions(ColumnFirsts(FreshTags(data, n, blank), n, y)) == 0 <==> NoColumnClash(data, n, y)
  {
    var s := ColumnFirsts(FreshTags(data, n, blank), n, y);
    InversionsZero(s);
    forall a, b | 0 <= a < b < n ensures Conflict(s[a], s[b]) <==> ColumnClash(data, n, y, a, b) {
      ColumnTagClash(data, n, blank, y, a, b);
    }
  }

  /**
   * The intended count is zero exactly when no two tiles are in linear
   * conflict; the count as written is zero exactly when no two tiles are
   * in row conflict or in column clash.
   */
  lemma ConflictCountZero(data: Grid, n: nat, blank: (nat, nat))
    requires IsTileGrid(data, n) && blank.0 < n && blank.1 < n && data[blank.0][blank.1] == 0
    ensures ConflictCount(FreshTags(data, n, blank), n, Intended) == 0 <==> NoLinearConflict(data, n)
    ensures ConflictCount(FreshTags(data, n, blank), n, AsWritten) == 0 <==> NoAsWrittenConflict(data, n)
  {
    PairsBelowZero(FreshTags(data, n, blank), n, n, Intended);
    PairsBelowZero(FreshTags(data, n, blank), n, n, AsWritten);
    forall y | 0 <= y < n {
      LineInversionsZero(data, n, blank, y);
    }
  }

  /** No two tiles of the goal board are in linear conflict or in column clash: every one of them is in its goal cell. */
  lemma GoalHasNoConflict(n: nat)
    ensures NoLinearConflict(GoalGrid(n), n) && NoAsWrittenConflict(GoalGrid(n), n)
  {
    var g := GoalGrid(n);
    forall y, a, b | 0 <= y < n && 0 <= a < n && 0 <= b < n
      ensures !RowConflict(g, n, y, a, b) && !ColumnConflict(g, n, y, a, b) && !ColumnClash(g, n, y, a, b)
    {
      GoalGridOnPlace(n, y, a);
      OnPlaceGoal(g, n, y, a);
      GoalGridOnPlace(n, y, b);
      OnPlaceGoal(g, n, y, b);
      GoalGridOnPlace(n, a, y);
      OnPlaceGoal(g, n, a, y);
      GoalGridOnPlace(n, b, y);
      OnPlaceGoal(g, n, b, y);
    }
  }

  /** The tags of the board used to show the construction's column pass at fault. */
  lemma PhantomBoardTags(data: Grid)
    requires data == [[3, 7, 8], [4, 5, 6], [2, 1, 0]]
    ensures IsTileGrid(data, 3)
    ensures FreshTags(data, 3, (2, 2)) == [[Tags(2, -1), Tags(-1, -1), Tags(-1, -1)],
                                          [Tags(0, 1), Tags(1, 1), Tags(2, 1)],
                                          [Tags(-1, -1), Tags(-1, -1), Tags(-1, -1)]]
  {
    assert data[2][2] == 0;
    var tg := FreshTags(data, 3, (2, 2));
    assert tg[0] == [Tags(2, -1), Tags(-1, -1), Tags(-1, -1)];
    assert tg[1] == [Tags(0, 1), Tags(1, 1), Tags(2, 1)];
    assert tg[2] == [Tags(-1, -1), Tags(-1, -1), Tags(-1, -1)];
  }

  /**
   * As written, the construction counts a conflict on a board that has
   * none: tiles 3 and 4 share column 0 and are both in their goal rows, so
   * their goal columns 2 and 0 are compared, though tile 3 is not in its
   * goal column. The weight starts at 2 where the intended count gives 0.
   */
  lemma AsWrittenCountsPhantomConflict(data: Grid)
    requires data == [[3, 7, 8], [4, 5, 6], [2, 1, 0]]
    ensures IsTileGrid(data, 3) && NoLinearConflict(data, 3) && ColumnClash(data, 3, 0, 0, 1)
    ensures ConflictCount(FreshTags(data, 3, (2, 2)), 3, Intended) == 0
    ensures ConflictCount(FreshTags(data, 3, (2, 2)), 3, AsWritten) == 1
    ensures InitialConflict(FreshTags(data, 3, (2, 2)), 3, AsWritten) == 2
  {
    PhantomBoardTags(data);
    var tg := FreshTags(data, 3, (2, 2));
    PhantomLines(tg);
    assert ConflictCount(tg, 3, Intended) == 0 by {
      assert PairsBelow(tg, 3, 1, Intended) == 0;
      assert PairsBelow(tg, 3, 2, Intended) == 0;
    }
    assert ConflictCount(tg, 3, AsWritten) == 1 by {
      assert PairsBelow(tg, 3, 1, AsWritten) == 1;
      assert PairsBelow(tg, 3, 2, AsWritten) == 1;
    }
    WrapSmall(2);
    ConflictCountZero(data, 3, (2, 2));
    ColumnTagClash(data, 3, (2, 2), 0, 0, 1);
    assert ColumnFirsts(tg, 3, 0) == [2, 0, -1];
  }

  /**
   * On that board the tables as written hold self-links: cells (0, 0) and
   * (1, 0) each hold themselves in in_row, and nothing is in in_column.
   * The intended tables link nothing there.
   */
  lemma PhantomSelfLinks(data: Grid)
    requires data == [[3, 7, 8], [4, 5, 6], [2, 1, 0]]
    ensures var tg := FreshTags(data, 3, (2, 2));
      var lc := ConstructionTables(tg, 3, AsWritten);
      var lc' := ConstructionTables(tg, 3, Intended);
      (0, 0) in lc[0][0].inRow && (1, 0) in lc[1][0].inRow && lc[0][0].inColumn == {} &&
      (0, 0) !in lc'[0][0].inRow && (1, 0) !in lc'[1][0].inRow
  {
    PhantomBoardTags(data);
    var tg := FreshTags(data, 3, (2, 2));
    var lc := ConstructionTables(tg, 3, AsWritten);
    var lc' := ConstructionTables(tg, 3, Intended);
    ConstructionTablesLinks(tg, 3, AsWritten);
    ConstructionTablesLinks(tg, 3, Intended);
    var s := ColumnFirsts(tg, 3, 0);
    assert s == [2, 0, -1];
    assert Conflicting(s, 0, 1) && Conflicting(s, 1, 0);
    assert ClashesInColumn(tg, 3, 0, 0) && ClashesInColumn(tg, 3, 1, 0);
    assert At(lc, 0, 0) == lc[0][0] && At(lc, 1, 0) == lc[1][0];
    assert At(lc', 0, 0) == lc'[0][0] && At(lc', 1, 0) == lc'[1][0];
    assert !Conflicting(RowFirsts(tg, 3, 0), 0, 0) && !Conflicting(RowFirsts(tg, 3, 1), 0, 0);
  }

  /** The inversions of the lines of that board, by both readings of the column pass. */
  lemma PhantomLines(tg: seq<seq<Tags>>)
    requires tg == [[Tags(2, -1), Tags(-1, -1), Tags(-1, -1)],
                    [Tags(0, 1), Tags(1, 1), Tags(2, 1)],
                    [Tags(-1, -1), Tags(-1, -1), Tags(-1, -1)]]
    ensures Inversions(RowFirsts(tg, 3, 0)) == 0 && Inversions(RowFirsts(tg, 3, 1)) == 0 && Inversions(RowFirsts(tg, 3, 2)) == 0
    ensures Inversions(ColumnSeconds(tg, 3, 0)) == 0 && Inversions(ColumnSeconds(tg, 3, 1)) == 0 && Inversions(ColumnSeconds(tg, 3, 2)) == 0
    ensures Inversions(ColumnFirsts(tg, 3, 0)) == 1 && Inversions(ColumnFirsts(tg, 3, 1)) == 0 && Inversions(ColumnFirsts(tg, 3, 2)) == 0
  {
    PhantomRows(tg);
    PhantomColumnSeconds(tg);
    PhantomColumnFirsts(tg);
  }

  lemma PhantomRows(tg: seq<seq<Tags>>)
    requires tg == [[Tags(2, -1), Tags(-1, -1), Tags(-1, -1)],
                    [Tags(0, 1), Tags(1, 1), Tags(2, 1)],
                    [Tags(-1, -1), Tags(-1, -1), Tags(-1, -1)]]
    ensures Inversions(RowFirsts(tg, 3, 0)) == 0 && Inversions(RowFirsts(tg, 3, 1)) == 0 && Inversions(RowFirsts(tg, 3, 2)) == 0
  {
    assert RowFirsts(tg, 3, 0) == [2, -1, -1];
    assert RowFirsts(tg, 3, 1) == [0, 1, 2];
    assert RowFirsts(tg, 3, 2) == [-1, -1, -1];
    assert Inversions([2, -1, -1]) == 0;
    assert Inversions([0, 1, 2]) == 0;
    assert Inversions([-1, -1, -1]) == 0;
  }

  lemma PhantomColumnSeconds(tg: seq<seq<Tags>>)
    requires tg == [[Tags(2, -1), Tags(-1, -1), Tags(-1, -1)],
                    [Tags(0, 1), Tags(1, 1), Tags(2, 1)],
                    [Tags(-1, -1), Tags(-1, -1), Tags(-1, -1)]]
    ensures Inversions(ColumnSeconds(tg, 3, 0)) == 0 && Inversions(ColumnSeconds(tg, 3, 1)) == 0 && Inversions(ColumnSeconds(tg, 3, 2)) == 0
  {
    assert ColumnSeconds(tg, 3, 0) == [-1, 1, -1];
    assert ColumnSeconds(tg, 3, 1) == [-1, 1, -1];
    assert ColumnSeconds(tg, 3, 2) == [-1, 1, -1];
    assert Inversions([-1, 1, -1]) == 0;
  }

  lemma PhantomColumnFirsts(tg: seq<seq<Tags>>)
    requires tg == [[Tags(2, -1), Tags(-1, -1), Tags(-1, -1)],
                    [Tags(0, 1), Tags(1, 1), Tags(2, 1)],
                    [Tags(-1, -1), Tags(-1, -1), Tags(-1, -1)]]
    ensures Inversions(ColumnFirsts(tg, 3, 0)) == 1 && Inversions(ColumnFirsts(tg, 3, 1)) == 0 && Inversions(ColumnFirsts(tg, 3, 2)) == 0
  {
    assert ColumnFirsts(tg, 3, 0) == [2, 0, -1];
    assert ColumnFirsts(tg, 3, 1) == [-1, 1, -1];
    assert ColumnFirsts(tg, 3, 2) == [-1, 2, -1];
    assert Inversions([2, 0, -1]) == 1;
    assert Inversions([-1, 1, -1]) == 0;
    assert Inversions([-1, 2, -1]) == 0;
  }


  /** The conflicting pairs (i, b) with b < j in row x of the .first tags plus those in column x of the tags the pass compares. */
  function PairsFromBoth(tg: seq<seq<Tags>>, n: nat, x: nat, i: nat, j: nat, pass: ColumnPass): nat
    requires Square(tg, n) && x < n && i < n && j <= n
  {
    PairsFrom(RowFirsts(tg, n, x), i, j) + PairsFrom(ColumnTags(tg, n, x, pass), i, j)
  }

  /** One more pair (i, j) of count_set_lc(x), in 32 bits: the running total grows by both tests' results. */
  lemma PairsFromStep(tg: seq<seq<Tags>>, n: nat, x: nat, i: nat, j: nat, pass: ColumnPass, total: int, t: int, a: nat, b: nat)
    requires Square(tg, n) && x < n && i < j < n
    requires t == Wrap32(total + PairsFromBoth(tg, n, x, i, j, pass))
    requires a == RowHit(tg, n, x, x, i, j) && b == ColumnHit(tg, n, i, j, x, pass)
    ensures Wrap32(t + (a + b)) == Wrap32(total + PairsFromBoth(tg, n, x, i, j + 1, pass))
  {
    ModAdd(total + PairsFromBoth(tg, n, x, i, j, pass), a + b);
  }

  /** The conflicting pairs (a, b) with a < i of row x's .first tags plus those of the tags column x's pass compares. */
  function PairsBeforeBoth(tg: seq<seq<Tags>>, n: nat, x: nat, i: nat, pass: ColumnPass): nat
    requires Square(tg, n) && x < n && i <= n
  {
    PairsBefore(RowFirsts(tg, n, x), i) + PairsBefore(ColumnTags(tg, n, x, pass), i)
  }

  /** The conflicting pairs of row x and of column x, as count_set_lc(x) counts them. */
  function LinePairs(tg: seq<seq<Tags>>, n: nat, x: nat, pass: ColumnPass): nat
    requires Square(tg, n) && x < n
  {
    Inversions(RowFirsts(tg, n, x)) + Inversions(ColumnTags(tg, n, x, pass))
  }

  /** count_set_lc(x)'s outer loop, one more i: the 32-bit total has also counted the pairs (i, ..). */
  lemma PairsBeforeStep(tg: seq<seq<Tags>>, n: nat, x: nat, i: nat, pass: ColumnPass, t: int)
    requires Square(tg, n) && x < n && i < n
    requires t == Wrap32(Wrap32(PairsBeforeBoth(tg, n, x, i, pass)) + PairsFromBoth(tg, n, x, i, n, pass))
    ensures t == Wrap32(PairsBeforeBoth(tg, n, x, i + 1, pass))
  {
    ModAdd(PairsBeforeBoth(tg, n, x, i, pass), PairsFromBoth(tg, n, x, i, n, pass));
  }

  /** count_set_lc(x)'s result: twice the 32-bit total, which is twice the line's pairs in 32 bits. */
  lemma LinePairsDouble(tg: seq<seq<Tags>>, n: nat, x: nat, pass: ColumnPass, t: int)
    requires Square(tg, n) && x < n
    requires t == Wrap32(PairsBeforeBoth(tg, n, x, n, pass))
    ensures Wrap32(t * 2) == Wrap32(2 * LinePairs(tg, n, x, pass))
  {
    ModDouble(LinePairs(tg, n, x, pass));
  }

  /** setup_linear_conflict's loop, one more x: adding count_set_lc(x) in 32 bits. */
  lemma PairsBelowStep(tg: seq<seq<Tags>>, n: nat, x: nat, pass: ColumnPass, t: int, c: int)
    requires Square(tg, n) && x < n
    requires t == Wrap32(2 * PairsBelow(tg, n, x, pass)) && c == Wrap32(2 * LinePairs(tg, n, x, pass))
    ensures Wrap32(t + c) == Wrap32(2 * PairsBelow(tg, n, x + 1, pass))
  {
    ModAdd(2 * PairsBelow(tg, n, x, pass), c);
    ModAdd(2 * LinePairs(tg, n, x, pass), 2 * PairsBelow(tg, n, x, pass));
  }

  // ------------------------------------------ the links set at construction

  /**
   * Progress of setup_linear_conflict: all of count_set_lc(x') for x' < x
   * and, for x itself, the pairs (a, b) before (i, j) in loop order.
   */
  predicate PairDone(x': nat, a: nat, b: nat, x: nat, i: nat, j: nat)
  {
    x' < x || (x' == x && (a < i || (a == i && b < j)))
  }

  /** Positions p and q of a line, taken in increasing order, hold conflicting tags. */
  predicate Conflicting(s: seq<int>, p: nat, q: nat)
    requires p < |s| && q < |s|
  {
    if p < q then Conflict(s[p], s[q]) else q < p && Conflict(s[q], s[p])
  }

  predicate PairIsDone(x': nat, p: nat, q: nat, x: nat, i: nat, j: nat)
  {
    if p < q then PairDone(x', p, q, x, i, j) else PairDone(x', q, p, x, i, j)
  }

  /** The row pass of count_set_lc(r) has put (r, q) into in_row of cell (r, c). */
  predicate RowLinked(tg: seq<seq<Tags>>, n: nat, x: nat, i: nat, j: nat, r: nat, c: nat, p: (int, int))
    requires Square(tg, n) && r < n && c < n
  {
    p.0 == r && 0 <= p.1 < n && PairIsDone(r, c, p.1, x, i, j) && Conflicting(RowFirsts(tg, n, r), c, p.1)
  }

  /** The intended column pass of count_set_lc(c) has put (q, c) into in_column of cell (r, c). */
  predicate ColumnLinked(tg: seq<seq<Tags>>, n: nat, x: nat, i: nat, j: nat, r: nat, c: nat, p: (int, int))
    requires Square(tg, n) && r < n && c < n
  {
    p.1 == c && 0 <= p.0 < n && PairIsDone(c, r, p.0, x, i, j) && Conflicting(ColumnSeconds(tg, n, c), r, p.0)
  }

  /** The column pass as written has checked tile (r, c) against a tile of column c whose .first tag it clashes with. */
  predicate SelfDone(tg: seq<seq<Tags>>, n: nat, x: nat, i: nat, j: nat, r: nat, c: nat)
    requires Square(tg, n) && r < n && c < n
  {
    exists q :: 0 <= q < n && PairIsDone(c, r, q, x, i, j) && Conflicting(ColumnFirsts(tg, n, c), r, q)
  }

  /** Tile (r, c) clashes, on the .first tags, with some other tile of column c. */
  predicate ClashesInColumn(tg: seq<seq<Tags>>, n: nat, r: nat, c: nat)
    requires Square(tg, n) && r < n && c < n
  {
    exists q :: 0 <= q < n && Conflicting(ColumnFirsts(tg, n, c), r, q)
  }

  /** The tables of cell (r, c); the link predicates below are triggered on it alone. */
  function At(lc: Links, r: nat, c: nat): LcWith
    requires r < |lc| && c < |lc[r]|
  {
    lc[r][c]
  }

  /** The link tables after the row pass up to (xr, ir, jr) and the column pass up to (xc, ic, jc). */
  ghost predicate LinksUpTo(lc: Links, tg: seq<seq<Tags>>, n: nat, pass: ColumnPass, xr: nat, ir: nat, jr: nat, xc: nat, ic: nat, jc: nat)
  {
    Square(lc, n) && Square(tg, n) &&
    forall r, c {:trigger At(lc, r, c)} :: 0 <= r < n && 0 <= c < n ==>
      CellLinks(At(lc, r, c), tg, n, pass, xr, ir, jr, xc, ic, jc, r, c)
  }

  /**
   * Cell (r, c)'s tables hold exactly the links of the pairs checked so far:
   * in_row its row links and, as written, itself once the column pass has
   * found a clash; in_column, as intended, its column links.
   */
  ghost predicate CellLinks(w: LcWith, tg: seq<seq<Tags>>, n: nat, pass: ColumnPass,
                            xr: nat, ir: nat, jr: nat, xc: nat, ic: nat, jc: nat, r: nat, c: nat)
    requires Square(tg, n) && r < n && c < n
  {
    (forall p :: p in w.inRow <==>
      RowLinked(tg, n, xr, ir, jr, r, c, p) || (pass == AsWritten && p == (r, c) && SelfDone(tg, n, xc, ic, jc, r, c))) &&
    (forall p :: p in w.inColumn <==> pass == Intended && ColumnLinked(tg, n, xc, ic, jc, r, c, p))
  }

  /**
   * The tables setup_linear_conflict leaves: each cell's in_row holds the
   * cells of its row whose tile conflicts with its own. As written, it also
   * holds the cell itself when its tile clashes with another of its column,
   * and every in_column is empty; as intended, in_column holds the cells of
   * its column whose tile conflicts with its own.
   */
  ghost predicate ConstructionLinks(lc: Links, tg: seq<seq<Tags>>, n: nat, pass: ColumnPass)
  {
    Square(lc, n) && Square(tg, n) &&
    forall r, c {:trigger At(lc, r, c)} :: 0 <= r < n && 0 <= c < n ==>
      (forall p :: p in At(lc, r, c).inRow <==>
        (p.0 == r && 0 <= p.1 < n && Conflicting(RowFirsts(tg, n, r), c, p.1)) ||
        (pass == AsWritten && p == (r, c) && ClashesInColumn(tg, n, r, c))) &&
      (forall p :: p in At(lc, r, c).inColumn <==>
        pass == Intended && p.1 == c && 0 <= p.0 < n && Conflicting(ColumnSeconds(tg, n, c), r, p.0))
  }

  function EmptyLinks(n: nat): (lc: Links)
    ensures Square(lc, n)
  {
    seq(n, _ => seq(n, _ => NoLinks))
  }

  /** The link tables of one cell with in_row / in_column extended by p. */
  function AddRowLink(lc: Links, n: nat, r: nat, c: nat, p: (int, int)): (lc': Links)
    requires Square(lc, n) && r < n && c < n
    ensures Square(lc', n)
  {
    lc[r := lc[r][c := InsertRow(lc[r][c], p.0, p.1)]]
  }

  function AddColumnLink(lc: Links, n: nat, r: nat, c: nat, p: (int, int)): (lc': Links)
    requires Square(lc, n) && r < n && c < n
    ensures Square(lc', n)
  {
    lc[r := lc[r][c := InsertColumn(lc[r][c], p.0, p.1)]]
  }

  /** Nothing is linked before the first pair is checked. */
  lemma LinksStart(tg: seq<seq<Tags>>, n: nat, pass: ColumnPass)
    requires Square(tg, n)
    ensures LinksUpTo(EmptyLinks(n), tg, n, pass, 0, 0, 1, 0, 0, 1)
  {
  }

  /** Two progress points that have checked the same pairs describe the same tables. */
  lemma LinksSameProgress(lc: Links, tg: seq<seq<Tags>>, n: nat, pass: ColumnPass, xr: nat, ir: nat, jr: nat, xc: nat, ic: nat, jc: nat,
                          xr': nat, ir': nat, jr': nat, xc': nat, ic': nat, jc': nat)
    requires LinksUpTo(lc, tg, n, pass, xr, ir, jr, xc, ic, jc)
    requires forall y: nat, a: nat, b: nat :: y < n && a < b < n ==>
      (PairDone(y, a, b, xr, ir, jr) <==> PairDone(y, a, b, xr', ir', jr')) &&
      (PairDone(y, a, b, xc, ic, jc) <==> PairDone(y, a, b, xc', ic', jc'))
    ensures LinksUpTo(lc, tg, n, pass, xr', ir', jr', xc', ic', jc')
  {
    forall r, c | 0 <= r < n && 0 <= c < n
      ensures SelfDone(tg, n, xc, ic, jc, r, c) <==> SelfDone(tg, n, xc', ic', jc', r, c)
    {
      SameSelfDone(tg, n, xc, ic, jc, xc', ic', jc', r, c);
    }
  }

  /** Whether a cell has met a clash depends only on which pairs of its column are done. */
  lemma SameSelfDone(tg: seq<seq<Tags>>, n: nat, x: nat, i: nat, j: nat, x': nat, i': nat, j': nat, r: nat, c: nat)
    requires Square(tg, n) && r < n && c < n
    requires forall y: nat, a: nat, b: nat :: y < n && a < b < n ==> (PairDone(y, a, b, x, i, j) <==> PairDone(y, a, b, x', i', j'))
    ensures SelfDone(tg, n, x, i, j, r, c) <==> SelfDone(tg, n, x', i', j', r, c)
  {
    if SelfDone(tg, n, x, i, j, r, c) {
      var q :| 0 <= q < n && PairIsDone(c, r, q, x, i, j) && Conflicting(ColumnFirsts(tg, n, c), r, q);
      assert PairIsDone(c, r, q, x', i', j');
    }
    if SelfDone(tg, n, x', i', j', r, c) {
      var q :| 0 <= q < n && PairIsDone(c, r, q, x', i', j') && Conflicting(ColumnFirsts(tg, n, c), r, q);
      assert PairIsDone(c, r, q, x, i, j);
    }
  }

  /** Finishing pairs (i, ..) of line x is starting pairs (i+1, ..). */
  lemma NextFirst(lc: Links, tg: seq<seq<Tags>>, n: nat, pass: ColumnPass, x: nat, i: nat, k: nat, m: nat)
    requires LinksUpTo(lc, tg, n, pass, x, i, n, x, i, n) && k == i + 1 && m == k + 1
    ensures LinksUpTo(lc, tg, n, pass, x, k, m, x, k, m)
  {
    LinksSameProgress(lc, tg, n, pass, x, i, n, x, i, n, x, k, m, x, k, m);
  }

  /** Finishing line x is starting line x+1. */
  lemma NextLine(lc: Links, tg: seq<seq<Tags>>, n: nat, pass: ColumnPass, x: nat, n1: nat, y: nat)
    requires LinksUpTo(lc, tg, n, pass, x, n, n1, x, n, n1) && n1 == n + 1 && y == x + 1
    ensures LinksUpTo(lc, tg, n, pass, y, 0, 1, y, 0, 1)
  {
    LinksSameProgress(lc, tg, n, pass, x, n, n1, x, n, n1, y, 0, 1, y, 0, 1);
  }

  /** Once every line has been checked the tables are those of the construction. */
  lemma LinksEnd(lc: Links, tg: seq<seq<Tags>>, n: nat, pass: ColumnPass)
    requires LinksUpTo(lc, tg, n, pass, n, 0, 1, n, 0, 1)
    ensures ConstructionLinks(lc, tg, n, pass)
  {
    forall r, c | 0 <= r < n && 0 <= c < n
      ensures SelfDone(tg, n, n, 0, 1, r, c) <==> ClashesInColumn(tg, n, r, c)
    {
      if ClashesInColumn(tg, n, r, c) {
        var q :| 0 <= q < n && Conflicting(ColumnFirsts(tg, n, c), r, q);
        assert PairIsDone(c, r, q, n, 0, 1);
      }
    }
  }

  /** check_lc(x, x, i, j): a conflict of cells (x, i) and (x, j) of row x links the two in in_row. */
  lemma RowCheckStep(lc: Links, tg: seq<seq<Tags>>, n: nat, pass: ColumnPass, x: nat, i: nat, j: nat, k: nat, xc: nat, ic: nat, jc: nat)
    requires LinksUpTo(lc, tg, n, pass, x, i, j, xc, ic, jc) && x < n && i < j < n && k == j + 1
    ensures var s := RowFirsts(tg, n, x);
      var lc' := if Conflict(s[i], s[j]) then AddRowLink(AddRowLink(lc, n, x, i, (x, j)), n, x, j, (x, i)) else lc;
      LinksUpTo(lc', tg, n, pass, x, i, k, xc, ic, jc)
  {
    var lc': Links := var s := RowFirsts(tg, n, x); if Conflict(s[i], s[j]) then AddRowLink(AddRowLink(lc, n, x, i, (x, j)), n, x, j, (x, i)) else lc;
    forall r, c | 0 <= r < n && 0 <= c < n ensures CellLinks(At(lc', r, c), tg, n, pass, x, i, k, xc, ic, jc, r, c) {
      assert CellLinks(At(lc, r, c), tg, n, pass, x, i, j, xc, ic, jc, r, c);
    }
  }

  /** The intended column check of cells (i, x) and (j, x): a conflict of .second tags links the two in in_column. */
  lemma ColumnCheckStep(lc: Links, tg: seq<seq<Tags>>, n: nat, xr: nat, ir: nat, jr: nat, x: nat, i: nat, j: nat, k: nat)
    requires LinksUpTo(lc, tg, n, Intended, xr, ir, jr, x, i, j) && x < n && i < j < n && k == j + 1
    ensures var s := ColumnSeconds(tg, n, x);
      var lc' := if Conflict(s[i], s[j]) then AddColumnLink(AddColumnLink(lc, n, i, x, (j, x)), n, j, x, (i, x)) else lc;
      LinksUpTo(lc', tg, n, Intended, xr, ir, jr, x, i, k)
  {
    var lc': Links := var s := ColumnSeconds(tg, n, x); if Conflict(s[i], s[j]) then AddColumnLink(AddColumnLink(lc, n, i, x, (j, x)), n, j, x, (i, x)) else lc;
    forall r, c | 0 <= r < n && 0 <= c < n ensures CellLinks(At(lc', r, c), tg, n, Intended, xr, ir, jr, x, i, k, r, c) {
      assert CellLinks(At(lc, r, c), tg, n, Intended, xr, ir, jr, x, i, j, r, c);
    }
  }

  /**
   * check_lc(i, j, x, x), the column check as written: a clash of the .first
   * tags of cells (i, x) and (j, x) puts each of the two into its own in_row.
   */
  lemma SelfCheckStep(lc: Links, tg: seq<seq<Tags>>, n: nat, xr: nat, ir: nat, jr: nat, x: nat, i: nat, j: nat, k: nat)
    requires LinksUpTo(lc, tg, n, AsWritten, xr, ir, jr, x, i, j) && x < n && i < j < n && k == j + 1
    ensures LinksUpTo(RowCheck(lc, tg, n, i, j, x, x), tg, n, AsWritten, xr, ir, jr, x, i, k)
  {
    var lc' := RowCheck(lc, tg, n, i, j, x, x);
    var s := ColumnFirsts(tg, n, x);
    assert s[i] == tg[i][x].first && s[j] == tg[j][x].first;
    forall r, c | 0 <= r < n && 0 <= c < n ensures CellLinks(At(lc', r, c), tg, n, AsWritten, xr, ir, jr, x, i, k, r, c) {
      assert CellLinks(At(lc, r, c), tg, n, AsWritten, xr, ir, jr, x, i, j, r, c);
      SelfDoneStep(tg, n, x, i, j, k, r, c);
    }
  }

  /** One more pair (i, j) of column x: a cell meets a clash when it already had, or it is one of the pair and they clash. */
  lemma SelfDoneStep(tg: seq<seq<Tags>>, n: nat, x: nat, i: nat, j: nat, k: nat, r: nat, c: nat)
    requires Square(tg, n) && x < n && i < j < n && k == j + 1 && r < n && c < n
    ensures SelfDone(tg, n, x, i, k, r, c) <==>
      SelfDone(tg, n, x, i, j, r, c) || (c == x && (r == i || r == j) && Conflict(tg[i][x].first, tg[j][x].first))
  {
    var s := ColumnFirsts(tg, n, c);
    if SelfDone(tg, n, x, i, k, r, c) && !SelfDone(tg, n, x, i, j, r, c) {
      var q :| 0 <= q < n && PairIsDone(c, r, q, x, i, k) && Conflicting(s, r, q);
      assert !PairIsDone(c, r, q, x, i, j);
      assert c == x && ((r == i && q == j) || (r == j && q == i));
    }
    if c == x && r == i && Conflict(tg[i][x].first, tg[j][x].first) {
      assert PairIsDone(c, r, j, x, i, k) && Conflicting(s, r, j);
    }
    if c == x && r == j && Conflict(tg[i][x].first, tg[j][x].first) {
      assert PairIsDone(c, r, i, x, i, k) && Conflicting(s, r, i);
    }
    if SelfDone(tg, n, x, i, j, r, c) {
      var q :| 0 <= q < n && PairIsDone(c, r, q, x, i, j) && Conflicting(s, r, q);
      assert PairIsDone(c, r, q, x, i, k);
    }
  }

  /** check_lc(x, y, i, j)'s test on the .first tags of cells (x, i) and (y, j): 1 on a conflict, else 0. */
  function RowHit(tg: seq<seq<Tags>>, n: nat, x: nat, y: nat, i: nat, j: nat): (h: nat)
    requires Square(tg, n) && x < n && y < n && i < n && j < n
    ensures h == 1 <==> Conflict(tg[x][i].first, tg[y][j].first)
    ensures h <= 1
  {
    if Conflict(tg[x][i].first, tg[y][j].first) then 1 else 0
  }

  /**
   * count_set_lc's second test on cells (i, x) and (j, x): 1 on a conflict
   * of the tags the pass compares, else 0. As written it is
   * check_lc(i, j, x, x)'s result.
   */
  function ColumnHit(tg: seq<seq<Tags>>, n: nat, i: nat, j: nat, x: nat, pass: ColumnPass): (h: nat)
    requires Square(tg, n) && x < n && i < n && j < n
    ensures h == 1 <==> Conflict(ColumnTags(tg, n, x, pass)[i], ColumnTags(tg, n, x, pass)[j])
    ensures h <= 1
  {
    if pass == AsWritten then RowHit(tg, n, i, j, x, x)
    else if Conflict(tg[i][x].second, tg[j][x].second) then 1 else 0
  }

  /** check_lc(x, y, i, j)'s effect on the tables: on a conflict, (x, j) joins in_row of (x, i) and (y, i) joins in_row of (y, j). */
  function RowCheck(lc: Links, tg: seq<seq<Tags>>, n: nat, x: nat, y: nat, i: nat, j: nat): (lc': Links)
    requires Square(lc, n) && Square(tg, n) && x < n && y < n && i < n && j < n
    ensures Square(lc', n)
  {
    if Conflict(tg[x][i].first, tg[y][j].first)
    then AddRowLink(AddRowLink(lc, n, x, i, (x, j)), n, y, j, (y, i)) else lc
  }

  /**
   * The second test's effect. As written it is check_lc(i, j, x, x): on a
   * clash, (i, x) joins its own in_row and (j, x) its own. As intended: on a
   * conflict, (j, x) joins in_column of (i, x) and (i, x) joins in_column of (j, x).
   */
  function ColumnCheck(lc: Links, tg: seq<seq<Tags>>, n: nat, i: nat, j: nat, x: nat, pass: ColumnPass): (lc': Links)
    requires Square(lc, n) && Square(tg, n) && x < n && i < n && j < n
    ensures Square(lc', n)
  {
    if pass == AsWritten then RowCheck(lc, tg, n, i, j, x, x)
    else if Conflict(tg[i][x].second, tg[j][x].second)
    then AddColumnLink(AddColumnLink(lc, n, i, x, (j, x)), n, j, x, (i, x)) else lc
  }

  /** Both of count_set_lc's tests on pair (i, j) of line x: cells (x, i), (x, j) of row x, then (i, x), (j, x) of column x. */
  function CheckPair(lc: Links, tg: seq<seq<Tags>>, n: nat, x: nat, i: nat, j: nat, pass: ColumnPass): (lc': Links)
    requires Square(lc, n) && Square(tg, n) && x < n && i < n && j < n
    ensures Square(lc', n)
  {
    ColumnCheck(RowCheck(lc, tg, n, x, x, i, j), tg, n, i, j, x, pass)
  }

  /** The tables after count_set_lc(x)'s inner loop, started on lc, has checked pairs (i, i+1) .. (i, j-1). */
  function PairsChecked(lc: Links, tg: seq<seq<Tags>>, n: nat, x: nat, i: nat, j: nat, pass: ColumnPass): (lc': Links)
    requires Square(lc, n) && Square(tg, n) && x < n && i < j <= n
    ensures Square(lc', n)
    decreases j
  {
    if j == i + 1 then lc else CheckPair(PairsChecked(lc, tg, n, x, i, j - 1, pass), tg, n, x, i, j - 1, pass)
  }

  /** The tables after count_set_lc(x), started on lc, has run its outer loop for 0 .. i-1. */
  function LineChecked(lc: Links, tg: seq<seq<Tags>>, n: nat, x: nat, i: nat, pass: ColumnPass): (lc': Links)
    requires Square(lc, n) && Square(tg, n) && x < n && i <= n
    ensures Square(lc', n)
    decreases i
  {
    if i == 0 then lc else PairsChecked(LineChecked(lc, tg, n, x, i - 1, pass), tg, n, x, i - 1, n, pass)
  }

  /** The tables after setup_linear_conflict, started on lc, has run count_set_lc(0) .. count_set_lc(x-1). */
  function LinesChecked(lc: Links, tg: seq<seq<Tags>>, n: nat, x: nat, pass: ColumnPass): (lc': Links)
    requires Square(lc, n) && Square(tg, n) && x <= n
    ensures Square(lc', n)
    decreases x
  {
    if x == 0 then lc else LineChecked(LinesChecked(lc, tg, n, x - 1, pass), tg, n, x - 1, n, pass)
  }

  /** The link tables setup_linear_conflict builds from empty ones. */
  function ConstructionTables(tg: seq<seq<Tags>>, n: nat, pass: ColumnPass): (lc: Links)
    requires Square(tg, n)
    ensures Square(lc, n)
  {
    LinesChecked(EmptyLinks(n), tg, n, n, pass)
  }

  /** One pair of count_set_lc: both tests together advance the row and the column progress. */
  lemma CheckPairStep(lc: Links, lc': Links, tg: seq<seq<Tags>>, n: nat, pass: ColumnPass, x: nat, i: nat, j: nat, k: nat)
    requires LinksUpTo(lc, tg, n, pass, x, i, j, x, i, j) && x < n && i < j < n && k == j + 1
    requires lc' == CheckPair(lc, tg, n, x, i, j, pass)
    ensures LinksUpTo(lc', tg, n, pass, x, i, k, x, i, k)
  {
    RowCheckStep(lc, tg, n, pass, x, i, j, k, x, i, j);
    if pass == AsWritten {
      SelfCheckStep(RowCheck(lc, tg, n, x, x, i, j), tg, n, x, i, k, x, i, j, k);
    } else {
      ColumnCheckStep(RowCheck(lc, tg, n, x, x, i, j), tg, n, x, i, k, x, i, j, k);
    }
  }

  /** One more pair checked: the progress after (i, j - 1) becomes the progress after (i, j). */
  lemma PairsNext(lc: Links, tg: seq<seq<Tags>>, n: nat, pass: ColumnPass, x: nat, i: nat, j: nat, prev: Links, next: Links)
    requires Square(lc, n) && Square(tg, n) && x < n && i + 1 < j <= n
    requires prev == PairsChecked(lc, tg, n, x, i, j - 1, pass) && next == PairsChecked(lc, tg, n, x, i, j, pass)
    requires LinksUpTo(prev, tg, n, pass, x, i, j - 1, x, i, j - 1)
    ensures LinksUpTo(next, tg, n, pass, x, i, j, x, i, j)
  {
    PairsCheckedUnfold(lc, tg, n, pass, x, i, j);
    CheckPairStep(prev, next, tg, n, pass, x, i, j - 1, j);
  }

  lemma PairsCheckedUnfold(lc: Links, tg: seq<seq<Tags>>, n: nat, pass: ColumnPass, x: nat, i: nat, j: nat)
    requires Square(lc, n) && Square(tg, n) && x < n && i + 1 < j <= n
    ensures PairsChecked(lc, tg, n, x, i, j, pass) == CheckPair(PairsChecked(lc, tg, n, x, i, j - 1, pass), tg, n, x, i, j - 1, pass)
  {
  }

  lemma {:induction false} PairsCheckedLinks(lc: Links, tg: seq<seq<Tags>>, n: nat, pass: ColumnPass, x: nat, i: nat, i1: nat, j: nat)
    requires LinksUpTo(lc, tg, n, pass, x, i, i1, x, i, i1) && x < n && i1 == i + 1 && i < j <= n
    ensures LinksUpTo(PairsChecked(lc, tg, n, x, i, j, pass), tg, n, pass, x, i, j, x, i, j)
    decreases j
  {
    if j > i1 {
      PairsCheckedLinks(lc, tg, n, pass, x, i, i1, j - 1);
      PairsNext(lc, tg, n, pass, x, i, j, PairsChecked(lc, tg, n, x, i, j - 1, pass), PairsChecked(lc, tg, n, x, i, j, pass));
    } else {
      assert PairsChecked(lc, tg, n, x, i, j, pass) == lc;
    }
  }

  /** One more turn of count_set_lc's outer loop: all pairs (h, ..) checked moves the progress to h + 1. */
  lemma LineNext(lc: Links, tg: seq<seq<Tags>>, n: nat, pass: ColumnPass, x: nat, h: nat, k: nat, m: nat)
    requires Square(lc, n) && Square(tg, n) && x < n && h < n && k == h + 1 && m == k + 1
    requires LinksUpTo(LineChecked(lc, tg, n, x, h, pass), tg, n, pass, x, h, k, x, h, k)
    ensures LinksUpTo(LineChecked(lc, tg, n, x, k, pass), tg, n, pass, x, k, m, x, k, m)
  {
    var lc1 := LineChecked(lc, tg, n, x, h, pass);
    var lc2 := LineChecked(lc, tg, n, x, k, pass);
    PairsCheckedLinks(lc1, tg, n, pass, x, h, k, n);
    assert lc2 == PairsChecked(lc1, tg, n, x, h, n, pass);
    NextFirst(lc2, tg, n, pass, x, h, k, m);
  }

  lemma {:induction false} LineCheckedLinks(lc: Links, tg: seq<seq<Tags>>, n: nat, pass: ColumnPass, x: nat, i: nat, k: nat)
    requires LinksUpTo(lc, tg, n, pass, x, 0, 1, x, 0, 1) && x < n && i <= n && k == i + 1
    ensures LinksUpTo(LineChecked(lc, tg, n, x, i, pass), tg, n, pass, x, i, k, x, i, k)
    decreases i
  {
    if i > 0 {
      LineCheckedLinks(lc, tg, n, pass, x, i - 1, i);
      LineNext(lc, tg, n, pass, x, i - 1, i, k);
    } else {
      assert LineChecked(lc, tg, n, x, i, pass) == lc && i == 0 && k == 1;
    }
  }

  /** One more count_set_lc: line h finished is line h + 1 started. */
  lemma LinesNext(lc: Links, tg: seq<seq<Tags>>, n: nat, pass: ColumnPass, h: nat, k: nat)
    requires Square(lc, n) && Square(tg, n) && h < n && k == h + 1
    requires LinksUpTo(LinesChecked(lc, tg, n, h, pass), tg, n, pass, h, 0, 1, h, 0, 1)
    ensures LinksUpTo(LinesChecked(lc, tg, n, k, pass), tg, n, pass, k, 0, 1, k, 0, 1)
  {
    var lc1 := LinesChecked(lc, tg, n, h, pass);
    var lc2 := LinesChecked(lc, tg, n, k, pass);
    LineCheckedLinks(lc1, tg, n, pass, h, n, n + 1);
    assert lc2 == LineChecked(lc1, tg, n, h, n, pass);
    NextLine(lc2, tg, n, pass, h, n + 1, k);
  }

  lemma {:induction false} LinesCheckedLinks(lc: Links, tg: seq<seq<Tags>>, n: nat, pass: ColumnPass, x: nat)
    requires LinksUpTo(lc, tg, n, pass, 0, 0, 1, 0, 0, 1) && x <= n
    ensures LinksUpTo(LinesChecked(lc, tg, n, x, pass), tg, n, pass, x, 0, 1, x, 0, 1)
    decreases x
  {
    if x > 0 {
      LinesCheckedLinks(lc, tg, n, pass, x - 1);
      LinesNext(lc, tg, n, pass, x - 1, x);
    }
  }

  /**
   * The tables setup_linear_conflict builds: in_row links exactly the
   * conflicting pairs of every row, plus, as written, each tile that clashes
   * down its column with itself; in_column, as intended, the conflicting
   * pairs of every column, and as written nothing.
   */
  lemma ConstructionTablesLinks(tg: seq<seq<Tags>>, n: nat, pass: ColumnPass)
    requires Square(tg, n)
    ensures ConstructionLinks(ConstructionTables(tg, n, pass), tg, n, pass)
  {
    LinksStart(tg, n, pass);
    LinesCheckedLinks(EmptyLinks(n), tg, n, pass, n);
    LinksEnd(ConstructionTables(tg, n, pass), tg, n, pass);
  }

  // ---------------------------------------------- the links a move changes

  function EraseRowLink(lc: Links, n: nat, r: nat, c: nat, p: (int, int)): (lc': Links)
    requires Square(lc, n) && r < n && c < n
    ensures Square(lc', n)
  {
    lc[r := lc[r][c := lc[r][c].(inRow := lc[r][c].inRow - {p})]]
  }

  function EraseColumnLink(lc: Links, n: nat, r: nat, c: nat, p: (int, int)): (lc': Links)
    requires Square(lc, n) && r < n && c < n
    ensures Square(lc', n)
  {
    lc[r := lc[r][c := lc[r][c].(inColumn := lc[r][c].inColumn - {p})]]
  }

  /**
   * swap_blank's erase loop for a tile leaving its goal column y from cell
   * (x, y), done for i < k: (i, y) leaves in_column of (x, y) and (x, y)
   * leaves in_column of (i, y).
   */
  ghost predicate ColumnErasedUpTo(lc0: Links, lc: Links, n: nat, x: nat, y: nat, k: nat)
  {
    Square(lc0, n) && Square(lc, n) &&
    forall r, c {:trigger At(lc, r, c)} :: 0 <= r < n && 0 <= c < n ==>
      At(lc, r, c).inRow == At(lc0, r, c).inRow &&
      forall p :: p in At(lc, r, c).inColumn <==>
        p in At(lc0, r, c).inColumn && !((r, c) == (x, y) && p.1 == y && 0 <= p.0 < k) && !(c == y && r < k && p == (x, y))
  }

  lemma ColumnEraseStep(lc0: Links, lc: Links, n: nat, x: nat, y: nat, i: nat)
    requires ColumnErasedUpTo(lc0, lc, n, x, y, i) && x < n && y < n && i < n
    ensures ColumnErasedUpTo(lc0, EraseColumnLink(EraseColumnLink(lc, n, x, y, (i, y)), n, i, y, (x, y)), n, x, y, i + 1)
  {
    var lc': Links := EraseColumnLink(EraseColumnLink(lc, n, x, y, (i, y)), n, i, y, (x, y));
    forall r, c | 0 <= r < n && 0 <= c < n ensures At(lc', r, c) == lc'[r][c] && At(lc, r, c) == lc[r][c] {
    }
  }

  /** The same for a tile leaving its goal row x from cell (x, y): its in_row links go, both ways. */
  ghost predicate RowErasedUpTo(lc0: Links, lc: Links, n: nat, x: nat, y: nat, k: nat)
  {
    Square(lc0, n) && Square(lc, n) &&
    forall r, c {:trigger At(lc, r, c)} :: 0 <= r < n && 0 <= c < n ==>
      At(lc, r, c).inColumn == At(lc0, r, c).inColumn &&
      forall p :: p in At(lc, r, c).inRow <==>
        p in At(lc0, r, c).inRow && !((r, c) == (x, y) && p.0 == x && 0 <= p.1 < k) && !(r == x && c < k && p == (x, y))
  }

  lemma RowEraseStep(lc0: Links, lc: Links, n: nat, x: nat, y: nat, i: nat)
    requires RowErasedUpTo(lc0, lc, n, x, y, i) && x < n && y < n && i < n
    ensures RowErasedUpTo(lc0, EraseRowLink(EraseRowLink(lc, n, x, y, (x, i)), n, x, i, (x, y)), n, x, y, i + 1)
  {
    var lc': Links := EraseRowLink(EraseRowLink(lc, n, x, y, (x, i)), n, x, i, (x, y));
    forall r, c | 0 <= r < n && 0 <= c < n ensures At(lc', r, c) == lc'[r][c] && At(lc, r, c) == lc[r][c] {
    }
  }

  /** Position i of a line, other than x, holds a tag in conflict with that at x. */
  predicate Hit(s: seq<int>, i: nat, x: nat)
    requires i < |s| && x < |s|
  {
    i != x && Conflicting(s, i, x)
  }

  /** The number of positions below k that conflict with x. */
  function CountHits(s: seq<int>, x: nat, k: nat): nat
    requires x < |s| && k <= |s|
  {
    if k == 0 then 0 else CountHits(s, x, k - 1) + (if Hit(s, k - 1, x) then 1 else 0)
  }

  /**
   * swap_blank's insert loops for a tile arriving at cell (x, c) in its goal
   * column c, done for rows below k: every conflicting (i, c) goes into its
   * in_column and it goes into theirs. s holds the new .second tags of column c.
   */
  ghost predicate ColumnJoinedUpTo(lc0: Links, lc: Links, s: seq<int>, n: nat, x: nat, c: nat, k: nat)
  {
    Square(lc0, n) && Square(lc, n) && |s| == n && x < n && k <= n &&
    forall r, c' {:trigger At(lc, r, c')} :: 0 <= r < n && 0 <= c' < n ==>
      At(lc, r, c').inRow == At(lc0, r, c').inRow &&
      forall p :: p in At(lc, r, c').inColumn <==>
        p in At(lc0, r, c').inColumn ||
        ((r, c') == (x, c) && p.1 == c && 0 <= p.0 < k && Hit(s, p.0, x)) ||
        (c' == c && r < k && Hit(s, r, x) && p == (x, c))
  }

  /** One step of the insert loops: the tile at position i of column c and the arriving tile at x are linked when they conflict. */
  function ColumnJoinCheck(lc: Links, s: seq<int>, n: nat, x: nat, c: nat, i: nat): (lc': Links)
    requires Square(lc, n) && |s| == n && x < n && c < n && i < n
    ensures Square(lc', n)
  {
    if Hit(s, i, x) then AddColumnLink(AddColumnLink(lc, n, x, c, (i, c)), n, i, c, (x, c)) else lc
  }

  lemma ColumnJoinStep(lc0: Links, lc: Links, s: seq<int>, n: nat, x: nat, c: nat, i: nat)
    requires ColumnJoinedUpTo(lc0, lc, s, n, x, c, i) && c < n && i < n
    ensures ColumnJoinedUpTo(lc0, ColumnJoinCheck(lc, s, n, x, c, i), s, n, x, c, i + 1)
  {
    var lc' := ColumnJoinCheck(lc, s, n, x, c, i);
    forall r, c | 0 <= r < n && 0 <= c < n ensures At(lc', r, c) == lc'[r][c] && At(lc, r, c) == lc[r][c] {
    }
  }

  /** The same along row x for a tile arriving at cell (x, c) in its goal row; s holds the new .first tags of row x. */
  ghost predicate RowJoinedUpTo(lc0: Links, lc: Links, s: seq<int>, n: nat, x: nat, c: nat, k: nat)
  {
    Square(lc0, n) && Square(lc, n) && |s| == n && c < n && k <= n &&
    forall r, c' {:trigger At(lc, r, c')} :: 0 <= r < n && 0 <= c' < n ==>
      At(lc, r, c').inColumn == At(lc0, r, c').inColumn &&
      forall p :: p in At(lc, r, c').inRow <==>
        p in At(lc0, r, c').inRow ||
        ((r, c') == (x, c) && p.0 == x && 0 <= p.1 < k && Hit(s, p.1, c)) ||
        (r == x && c' < k && Hit(s, c', c) && p == (x, c))
  }

  /** One step along row x: the tile at position i and the arriving tile at c are linked when they conflict. */
  function RowJoinCheck(lc: Links, s: seq<int>, n: nat, x: nat, c: nat, i: nat): (lc': Links)
    requires Square(lc, n) && |s| == n && x < n && c < n && i < n
    ensures Square(lc', n)
  {
    if Hit(s, i, c) then AddRowLink(AddRowLink(lc, n, x, c, (x, i)), n, x, i, (x, c)) else lc
  }

  lemma RowJoinStep(lc0: Links, lc: Links, s: seq<int>, n: nat, x: nat, c: nat, i: nat)
    requires RowJoinedUpTo(lc0, lc, s, n, x, c, i) && x < n && i < n
    ensures RowJoinedUpTo(lc0, RowJoinCheck(lc, s, n, x, c, i), s, n, x, c, i + 1)
  {
    var lc' := RowJoinCheck(lc, s, n, x, c, i);
    forall r, c | 0 <= r < n && 0 <= c < n ensures At(lc', r, c) == lc'[r][c] && At(lc, r, c) == lc[r][c] {
    }
  }

  // ------------------------------------------- the tables after a whole loop

  /** The links of a set into cells (0, y) .. (n-1, y), and those into cells (x, 0) .. (x, n-1). */
  function InColumn(a: set<(int, int)>, n: nat, y: nat): (b: set<(int, int)>)
    ensures b <= a
  {
    set p | p in a && p.1 == y && 0 <= p.0 < n
  }

  function InRow(a: set<(int, int)>, n: nat, x: nat): (b: set<(int, int)>)
    ensures b <= a
  {
    set p | p in a && p.0 == x && 0 <= p.1 < n
  }

  /**
   * The erase loop for a tile leaving its goal column y from cell (x, y):
   * its own in_column loses every cell of column y, and every cell of
   * column y forgets (x, y). No in_row set changes.
   */
  function ColumnErased(lc: Links, n: nat, x: nat, y: nat): (lc': Links)
    requires Square(lc, n) && x < n && y < n
    ensures Square(lc', n)
  {
    seq(n, r requires 0 <= r < n => seq(n, c requires 0 <= c < n =>
      if c != y then lc[r][c]
      else lc[r][c].(inColumn := lc[r][c].inColumn - (if r == x then InColumn(lc[r][c].inColumn, n, y) else {}) - {(x, y)})))
  }

  /** The same along row x for a tile leaving its goal row x from cell (x, y). No in_column set changes. */
  function RowErased(lc: Links, n: nat, x: nat, y: nat): (lc': Links)
    requires Square(lc, n) && x < n && y < n
    ensures Square(lc', n)
  {
    seq(n, r requires 0 <= r < n => seq(n, c requires 0 <= c < n =>
      if r != x then lc[r][c]
      else lc[r][c].(inRow := lc[r][c].inRow - (if c == y then InRow(lc[r][c].inRow, n, x) else {}) - {(x, y)})))
  }

  lemma ColumnErasedEnd(lc0: Links, lc: Links, n: nat, x: nat, y: nat)
    requires ColumnErasedUpTo(lc0, lc, n, x, y, n) && x < n && y < n
    ensures lc == ColumnErased(lc0, n, x, y)
  {
    var e := ColumnErased(lc0, n, x, y);
    forall r | 0 <= r < n ensures lc[r] == e[r] {
      forall c | 0 <= c < n ensures lc[r][c] == e[r][c] {
        assert At(lc, r, c) == lc[r][c] && At(lc0, r, c) == lc0[r][c];
        assert lc[r][c].inColumn == e[r][c].inColumn;
      }
    }
  }

  lemma RowErasedEnd(lc0: Links, lc: Links, n: nat, x: nat, y: nat)
    requires RowErasedUpTo(lc0, lc, n, x, y, n) && x < n && y < n
    ensures lc == RowErased(lc0, n, x, y)
  {
    var e := RowErased(lc0, n, x, y);
    forall r | 0 <= r < n ensures lc[r] == e[r] {
      forall c | 0 <= c < n ensures lc[r][c] == e[r][c] {
        assert At(lc, r, c) == lc[r][c] && At(lc0, r, c) == lc0[r][c];
        assert lc[r][c].inRow == e[r][c].inRow;
      }
    }
  }

  /** Removing part of a set takes away exactly the elements of that part. */
  lemma RemovedCount(a: set<(int, int)>, b: set<(int, int)>)
    requires b <= a
    ensures |a| - |a - b| == |b|
  {
    assert (a - b) + b == a;
    assert (a - b) * b == {};
  }

  /** What the erase loop's size difference counts: the links of the moving tile with cells of its own column. */
  lemma ColumnErasedCount(lc: Links, n: nat, x: nat, y: nat)
    requires Square(lc, n) && x < n && y < n
    ensures |lc[x][y].inColumn| - |ColumnErased(lc, n, x, y)[x][y].inColumn| == |InColumn(lc[x][y].inColumn, n, y)|
  {
    var a := lc[x][y].inColumn;
    assert ColumnErased(lc, n, x, y)[x][y].inColumn == a - InColumn(a, n, y);
    RemovedCount(a, InColumn(a, n, y));
  }

  lemma RowErasedCount(lc: Links, n: nat, x: nat, y: nat)
    requires Square(lc, n) && x < n && y < n
    ensures |lc[x][y].inRow| - |RowErased(lc, n, x, y)[x][y].inRow| == |InRow(lc[x][y].inRow, n, x)|
  {
    var a := lc[x][y].inRow;
    assert RowErased(lc, n, x, y)[x][y].inRow == a - InRow(a, n, x);
    RemovedCount(a, InRow(a, n, x));
  }

  /** The cells (i, c), i < k, of a column whose tag conflicts with that of the arriving tile at position x; and likewise along a row. */
  function ColumnHits(s: seq<int>, x: nat, c: nat, k: nat): set<(int, int)>
    requires x < |s| && k <= |s|
  {
    set i: nat | i < k && Hit(s, i, x) :: (i as int, c as int)
  }

  function RowHits(s: seq<int>, x: nat, c: nat, k: nat): set<(int, int)>
    requires c < |s| && k <= |s|
  {
    set i: nat | i < k && Hit(s, i, c) :: (x as int, i as int)
  }

  /** added counts two per conflict, and each conflict is one link the arriving tile gains. */
  lemma {:induction false} ColumnHitsCount(s: seq<int>, x: nat, c: nat, k: nat)
    requires x < |s| && k <= |s|
    ensures |ColumnHits(s, x, c, k)| == CountHits(s, x, k)
    decreases k
  {
    if k > 0 {
      ColumnHitsCount(s, x, c, k - 1);
      var before := ColumnHits(s, x, c, k - 1);
      assert (k - 1, c) !in before;
      if Hit(s, k - 1, x) {
        assert ColumnHits(s, x, c, k) == before + {(k - 1, c)};
      } else {
        assert ColumnHits(s, x, c, k) == before;
      }
    }
  }

  lemma {:induction false} RowHitsCount(s: seq<int>, x: nat, c: nat, k: nat)
    requires c < |s| && k <= |s|
    ensures |RowHits(s, x, c, k)| == CountHits(s, c, k)
    decreases k
  {
    if k > 0 {
      RowHitsCount(s, x, c, k - 1);
      var before := RowHits(s, x, c, k - 1);
      assert (x, k - 1) !in before;
      if Hit(s, k - 1, c) {
        assert RowHits(s, x, c, k) == before + {(x, k - 1)};
      } else {
        assert RowHits(s, x, c, k) == before;
      }
    }
  }

  /**
   * The insert loops for a tile arriving at cell (x, c) in its goal column
   * c: every cell of column c whose tag conflicts with it enters its
   * in_column, and it enters theirs. No in_row set changes.
   */
  function ColumnJoined(lc: Links, s: seq<int>, n: nat, x: nat, c: nat): (lc': Links)
    requires Square(lc, n) && |s| == n && x < n && c < n
    ensures Square(lc', n)
  {
    seq(n, r requires 0 <= r < n => seq(n, c' requires 0 <= c' < n =>
      if c' != c then lc[r][c']
      else lc[r][c'].(inColumn := lc[r][c'].inColumn + (if r == x then ColumnHits(s, x, c, n) else {})
                                   + (if Hit(s, r, x) then {(x, c)} else {}))))
  }

  /** The same along row x for a tile arriving at cell (x, c) in its goal row. No in_column set changes. */
  function RowJoined(lc: Links, s: seq<int>, n: nat, x: nat, c: nat): (lc': Links)
    requires Square(lc, n) && |s| == n && x < n && c < n
    ensures Square(lc', n)
  {
    seq(n, r requires 0 <= r < n => seq(n, c' requires 0 <= c' < n =>
      if r != x then lc[r][c']
      else lc[r][c'].(inRow := lc[r][c'].inRow + (if c' == c then RowHits(s, x, c, n) else {})
                                + (if Hit(s, c', c) then {(x, c)} else {}))))
  }

  lemma ColumnJoinedEnd(lc0: Links, lc: Links, s: seq<int>, n: nat, x: nat, c: nat)
    requires ColumnJoinedUpTo(lc0, lc, s, n, x, c, n) && c < n
    ensures lc == ColumnJoined(lc0, s, n, x, c)
  {
    var e := ColumnJoined(lc0, s, n, x, c);
    forall r | 0 <= r < n ensures lc[r] == e[r] {
      forall c' | 0 <= c' < n ensures lc[r][c'] == e[r][c'] {
        assert At(lc, r, c') == lc[r][c'] && At(lc0, r, c') == lc0[r][c'];
        assert lc[r][c'].inColumn == e[r][c'].inColumn;
      }
    }
  }

  lemma RowJoinedEnd(lc0: Links, lc: Links, s: seq<int>, n: nat, x: nat, c: nat)
    requires RowJoinedUpTo(lc0, lc, s, n, x, c, n) && x < n
    ensures lc == RowJoined(lc0, s, n, x, c)
  {
    var e := RowJoined(lc0, s, n, x, c);
    forall r | 0 <= r < n ensures lc[r] == e[r] {
      forall c' | 0 <= c' < n ensures lc[r][c'] == e[r][c'] {
        assert At(lc, r, c') == lc[r][c'] && At(lc0, r, c') == lc0[r][c'];
        assert lc[r][c'].inRow == e[r][c'].inRow;
      }
    }
  }

  /** The erase loops only shrink the sets of one kind, and leave the moving tile unlinked from its old line. */
  lemma ErasedShape(lc: Links, n: nat, x: nat, y: nat)
    requires Square(lc, n) && x < n && y < n
    ensures var e := ColumnErased(lc, n, x, y);
      (forall r, c :: 0 <= r < n && 0 <= c < n ==> e[r][c].inRow == lc[r][c].inRow && e[r][c].inColumn <= lc[r][c].inColumn) &&
      (forall p :: p in e[x][y].inColumn ==> !(p.1 == y && 0 <= p.0 < n)) &&
      (forall r :: 0 <= r < n ==> (x, y) !in e[r][y].inColumn)
    ensures var e := RowErased(lc, n, x, y);
      (forall r, c :: 0 <= r < n && 0 <= c < n ==> e[r][c].inColumn == lc[r][c].inColumn && e[r][c].inRow <= lc[r][c].inRow) &&
      (forall p :: p in e[x][y].inRow ==> !(p.0 == x && 0 <= p.1 < n)) &&
      (forall c :: 0 <= c < n ==> (x, y) !in e[x][c].inRow)
  {
  }

  /** The insert loops only grow the sets of one kind; the arriving tile gains exactly its hits. */
  lemma JoinedShape(lc: Links, s: seq<int>, n: nat, x: nat, c: nat)
    requires Square(lc, n) && |s| == n && x < n && c < n
    ensures var e := ColumnJoined(lc, s, n, x, c);
      (forall r, c' :: 0 <= r < n && 0 <= c' < n ==> e[r][c'].inRow == lc[r][c'].inRow && lc[r][c'].inColumn <= e[r][c'].inColumn) &&
      e[x][c].inColumn == lc[x][c].inColumn + ColumnHits(s, x, c, n)
    ensures var e := RowJoined(lc, s, n, x, c);
      (forall r, c' :: 0 <= r < n && 0 <= c' < n ==> e[r][c'].inColumn == lc[r][c'].inColumn && lc[r][c'].inRow <= e[r][c'].inRow) &&
      e[x][c].inRow == lc[x][c].inRow + RowHits(s, x, c, n)
  {
  }

  // ------------------------------------------------------- a whole move

  /**
   * swap_blank's update of tiles_lc when the tile at p moves into the
   * blank at b, given the tags tg before and tg' after the move. Along a
   * row (b.0 == p.0) a tile leaving its goal column loses its column links,
   * and a tile that was not in its goal column gains the conflicts of the
   * column it enters; along a column the same happens to the row links.
   */
  function MovedLinks(lc: Links, tg: seq<seq<Tags>>, tg': seq<seq<Tags>>, n: nat, b: (nat, nat), p: (nat, nat)): (lc': Links)
    requires Square(lc, n) && Square(tg, n) && Square(tg', n) && b.0 < n && b.1 < n && p.0 < n && p.1 < n
    ensures Square(lc', n)
  {
    if b.0 == p.0 then
      if tg[p.0][p.1].second != -1 then ColumnErased(lc, n, p.0, p.1)
      else ColumnJoined(lc, ColumnSeconds(tg', n, b.1), n, p.0, b.1)
    else
      if tg[p.0][p.1].first != -1 then RowErased(lc, n, p.0, p.1)
      else RowJoined(lc, RowFirsts(tg', n, b.0), n, b.0, p.1)
  }

  /** A move along a row leaves every in_row set as it was, and a move along a column every in_column set. */
  lemma MovedLinksOneKind(lc: Links, tg: seq<seq<Tags>>, tg': seq<seq<Tags>>, n: nat, b: (nat, nat), p: (nat, nat))
    requires Square(lc, n) && Square(tg, n) && Square(tg', n) && b.0 < n && b.1 < n && p.0 < n && p.1 < n
    ensures var lc' := MovedLinks(lc, tg, tg', n, b, p);
      (b.0 == p.0 ==> forall r, c :: 0 <= r < n && 0 <= c < n ==> lc'[r][c].inRow == lc[r][c].inRow) &&
      (b.0 != p.0 ==> forall r, c :: 0 <= r < n && 0 <= c < n ==> lc'[r][c].inColumn == lc[r][c].inColumn)
  {
    ErasedShape(lc, n, p.0, p.1);
    if b.0 == p.0 {
      JoinedShape(lc, ColumnSeconds(tg', n, b.1), n, p.0, b.1);
    } else {
      JoinedShape(lc, RowFirsts(tg', n, b.0), n, b.0, p.1);
    }
  }

  /** swap_blank's deleted: the links of the moving tile into the line it leaves, when it leaves its goal line. */
  function DeletedLinks(lc: Links, tg: seq<seq<Tags>>, n: nat, b: (nat, nat), p: (nat, nat)): nat
    requires Square(lc, n) && Square(tg, n) && p.0 < n && p.1 < n
  {
    if b.0 == p.0 then
      if tg[p.0][p.1].second != -1 then |InColumn(lc[p.0][p.1].inColumn, n, p.1)| else 0
    else
      if tg[p.0][p.1].first != -1 then |InRow(lc[p.0][p.1].inRow, n, p.0)| else 0
  }

  /** swap_blank's added: two for every conflict the arriving tile finds in the line it enters. */
  function AddedLinks(tg: seq<seq<Tags>>, tg': seq<seq<Tags>>, n: nat, b: (nat, nat), p: (nat, nat)): nat
    requires Square(tg, n) && Square(tg', n) && b.0 < n && b.1 < n && p.0 < n && p.1 < n
  {
    if b.0 == p.0 then
      if tg[p.0][p.1].second != -1 then 0 else 2 * CountHits(ColumnSeconds(tg', n, b.1), p.0, n)
    else
      if tg[p.0][p.1].first != -1 then 0 else 2 * CountHits(RowFirsts(tg', n, b.0), p.1, n)
  }

  /** linear_conflict_ after the move: old - deleted*2 + added, in unsigned arithmetic. */
  function MovedConflict(v: int, lc: Links, tg: seq<seq<Tags>>, tg': seq<seq<Tags>>, n: nat, b: (nat, nat), p: (nat, nat)): nat
    requires Square(lc, n) && Square(tg, n) && Square(tg', n) && b.0 < n && b.1 < n && p.0 < n && p.1 < n
  {
    Wrap32(v - 2 * DeletedLinks(lc, tg, n, b, p) + AddedLinks(tg, tg', n, b, p))
  }

  /**
   * What the two counts measure in the tables: deleted is the number of
   * links the moving tile's old cell loses, and added is twice the number
   * of links the arriving tile's new cell gains from the rescanned line.
   */
  lemma MovedCounts(lc: Links, tg: seq<seq<Tags>>, tg': seq<seq<Tags>>, n: nat, b: (nat, nat), p: (nat, nat))
    requires Square(lc, n) && Square(tg, n) && Square(tg', n) && b.0 < n && b.1 < n && p.0 < n && p.1 < n
    ensures var lc' := MovedLinks(lc, tg, tg', n, b, p);
      (b.0 == p.0 && tg[p.0][p.1].second != -1 ==>
        DeletedLinks(lc, tg, n, b, p) == |lc[p.0][p.1].inColumn| - |lc'[p.0][p.1].inColumn| &&
        AddedLinks(tg, tg', n, b, p) == 0) &&
      (b.0 == p.0 && tg[p.0][p.1].second == -1 ==>
        var hits := ColumnHits(ColumnSeconds(tg', n, b.1), p.0, b.1, n);
        lc'[b.0][b.1].inColumn == lc[b.0][b.1].inColumn + hits &&
        AddedLinks(tg, tg', n, b, p) == 2 * |hits| && DeletedLinks(lc, tg, n, b, p) == 0) &&
      (b.0 != p.0 && tg[p.0][p.1].first != -1 ==>
        DeletedLinks(lc, tg, n, b, p) == |lc[p.0][p.1].inRow| - |lc'[p.0][p.1].inRow| &&
        AddedLinks(tg, tg', n, b, p) == 0) &&
      (b.0 != p.0 && tg[p.0][p.1].first == -1 ==>
        var hits := RowHits(RowFirsts(tg', n, b.0), b.0, p.1, n);
        lc'[b.0][p.1].inRow == lc[b.0][p.1].inRow + hits &&
        AddedLinks(tg, tg', n, b, p) == 2 * |hits| && DeletedLinks(lc, tg, n, b, p) == 0)
  {
    if b.0 == p.0 {
      if tg[p.0][p.1].second != -1 {
        ColumnErasedCount(lc, n, p.0, p.1);
      } else {
        ColumnHitsCount(ColumnSeconds(tg', n, b.1), p.0, b.1, n);
        JoinedShape(lc, ColumnSeconds(tg', n, b.1), n, p.0, b.1);
      }
    } else {
      if tg[p.0][p.1].first != -1 {
        RowErasedCount(lc, n, p.0, p.1);
      } else {
        RowHitsCount(RowFirsts(tg', n, b.0), b.0, p.1, n);
        JoinedShape(lc, RowFirsts(tg', n, b.0), n, b.0, p.1);
      }
    }
  }
}
