# Four C++ course projects, modelled and proved in Dafny

This project models the core of four small C++ programs from one course repository.

- **8-puzzle** (`8-puzzle-Mr3zee`): an N-by-N sliding-tile board and an A* solver.
  - The board caches its Hamming distance, its Manhattan distance, a solvability flag and a
    linear-conflict weight.
  - That weight comes with two side tables: `tiles_goals`, per-cell alignment tags, and
    `tiles_lc`, per-cell sets of the tiles a tile is in conflict with.
  - `swap_blank` updates every cached field incrementally.
  - The solver runs A* over `std::set` / `std::unordered_map` and walks `came_from` back to build
    the path.
- **inverted index** (`inverted-index-Mr3zee`): a positional index of words → files → positions.
  - It has a document tokenizer and a query language: bare words, plus quoted phrases that must
    appear at consecutive positions.
  - Search returns a pair of iterators over a shared snapshot of the result set.
- **sort -k -t** (`sort-k-t-Mr3zee`): sorts lines by a key field picked out by field numbers and a
  separator set.
- **randomized queue** (`randomized-queue-Mr3zee`) and the `subset` program built on it:
  - dequeueing removes a random element by swapping it with the last one;
  - each iterator owns a random permutation of offsets.

## How the model is organised

| module (file) | models |
|---|---|
| `PuzzleGrid` (`puzzle_grid.dfy`) | a board as a value: the grid, `actual_value`, `on_place`, the cell distance, Hamming and Manhattan sums, the goal grid, 32-bit wrap-around |
| `CellSums` (`cell_sums.dfy`) | sums over a board's cells in loop order, and how a sum changes when cells change |
| `Parity` (`parity.dfy`) | `permutation_parity` as an imperative method over a `visited` array, proved to compute (length − cycles) mod 2 |
| `BoardPermutation` (`board_permutation.dfy`) | the board read as a permutation (row-major, blank → n·n): the solvability test |
| `PuzzleMoves` (`puzzle_moves.dfy`) | one move of a tile into the blank and its exact effect on both distances |
| `LinearConflict` (`lc_tables.dfy`) | `tiles_goals` / `tiles_lc`, the conflict count of the construction, the link tables it builds, and swap_blank's table patches, as functions |
| `PuzzleBoard` (`puzzle_board.dfy`) | `class Board`, fields updated in place by every member of `board.cpp`, plus the `BoardState` value snapshot and `hash<Board>` |
| `PuzzleSolver` (`puzzle_solver.dfy`) | `Solver`: neighbours, `find_path`, `restore_path`, `solve`, `moves` |
| `SearchText` (`search_text.dfy`) | `is_separator`, `take_word`, `parse_document`, query lexing |
| `SearchQuery` (`search_query.dfy`) | `parse_query`: its errors and its grouping into bare words and phrases |
| `SearchIndex` (`search_index.dfy`) | `Searcher::Index` as a class, plus `find_all`, `intersection`, `increment` and `search_phrase` on values |
| `InvertedIndex` (`searcher.dfy`) | `Searcher` and `DocIterator` as classes: `add_document`, `remove_document`, `search`, and the scenario in `main.cpp` |
| `KeySort` (`key_sort.dfy`) | `find_part_of`, `split`, `compare`, `sort` |
| `RandomizedQueues` (`randomized_queue.dfy`) | `randomized_queue<T>` and its iterator as classes; `generate_index`, `generate_random_permutation` |
| `Subsets` (`subset.dfy`) | `subset` |
| `Lex`, `Wrappers` | lexicographic order on sequences; `Option` / `Result` |

### Randomness, I/O and other non-logical parts

- **Randomness.** Random choices are inputs.
  - Shuffled permutations are `order` / `permutation` parameters, required to be permutations.
  - A draw of the generator is a `nat` that `GenerateIndex` reduces into the distribution's range.
  - The `subset` program takes a function `draws` that gives the draw behind each dequeue.
- **Streams** are sequences of lines. What `sort` and `subset` print is the returned sequence of
  lines.
- **Machine arithmetic.**
  - `unsigned` fields wrap modulo 2^32; this is `Wrap32`.
  - `size_t` values wrap modulo 2^64 where the source converts into them; this is `AsSize`,
    `PairHash` and `HashStep`.

## Model

| member | source | states |
|---|---|---|
| Lex.LexIrreflexive | 8-puzzle-Mr3zee/src/board.cpp:359-361 | lexicographic `<` on vectors never relates a sequence to itself |
| Lex.LexTransitive | 8-puzzle-Mr3zee/src/board.cpp:359-361 | lexicographic `<` over a strict total order is transitive |
| Lex.LexTotal | 8-puzzle-Mr3zee/src/board.cpp:359-365 | of two different sequences one is lexicographically smaller, so `operator<` / `operator>` decide every unequal pair |
| Lex.LexIsStrictTotalOrder | 8-puzzle-Mr3zee/src/board.cpp:359-361 | lexicographic order over a strict total order is again a strict total order |
| Lex.GridLessIsStrictTotalOrder | 8-puzzle-Mr3zee/src/board.cpp:359-361 | Board's `operator<` (rows of `unsigned` compared lexicographically) is a strict total order on grids, as `std::set<Node>` needs |
| Lex.StrLessIsStrictTotalOrder | inverted-index-Mr3zee/src/searcher.h:24 | `std::string`'s `<`, which orders a `FileSet`, is a strict total order |
| CellSums.GridSumZero | 8-puzzle-Mr3zee/src/board.cpp:113-126 | a sum of non-negative per-cell contributions is zero exactly when every contribution is |
| CellSums.GridSumAtMost | 8-puzzle-Mr3zee/src/board.cpp:117-126 | a sum of contributions each at most m is at most n·n·m |
| CellSums.GridSumUpdate | 8-puzzle-Mr3zee/src/board.cpp:238-243 | changing one cell's contribution changes the board total by exactly the difference |
| CellSums.GridSumUpdate2 | 8-puzzle-Mr3zee/src/board.cpp:238-243 | changing two cells' contributions changes the total by the sum of both differences (the basis of swap_blank's delta updates) |
| PuzzleGrid.Wrap32 | 8-puzzle-Mr3zee/src/board.h:103-105 | the value an `unsigned` holds is below 2^32 |
| PuzzleGrid.ModAdd | 8-puzzle-Mr3zee/src/board.cpp:238 | wrapping an unsigned after each addition ends where wrapping once at the end does |
| PuzzleGrid.ModDouble | 8-puzzle-Mr3zee/src/board.cpp:169 | `total * 2` on a wrapped total is twice the exact total, wrapped |
| PuzzleGrid.ActualValue | 8-puzzle-Mr3zee/src/board.cpp:325-327 | a cell's actual value is positive on a non-empty board, and is n·n exactly for the blank (or the tile n·n) |
| PuzzleGrid.GoalCol | 8-puzzle-Mr3zee/src/board.cpp:150 | a tile's goal column `(d - 1) % size` is a column of the board |
| PuzzleGrid.SwapCells | 8-puzzle-Mr3zee/src/board.cpp:235 | `std::swap` of two cells: they exchange values and every other cell keeps its own |
| PuzzleGrid.OnPlaceGoal | 8-puzzle-Mr3zee/src/board.cpp:147-152 | `on_place(x, y)` holds exactly when the tile's goal row `(d-1)/size` and goal column `(d-1)%size` are x and y |
| PuzzleGrid.IndexOfCell | 8-puzzle-Mr3zee/src/board.cpp:318 | the row-major index x·n + y belongs to cell (x, y) and to no other |
| PuzzleGrid.CellIndexBound | 8-puzzle-Mr3zee/src/board.cpp:43-46 | `i*size + j + 1` of a cell is at most n·n, and equals it only in the last cell |
| PuzzleGrid.BlankIsUnique | 8-puzzle-Mr3zee/src/board.cpp:82-93 | a tile grid holds 0 in one cell only, so the blank set_defaults_from_data records is the only one |
| PuzzleGrid.BlankDistance | 8-puzzle-Mr3zee/src/board.cpp:144-152 | the blank's term `manhattan(blank)` is its distance from the last cell |
| PuzzleGrid.DistanceStep | 8-puzzle-Mr3zee/src/board.cpp:139-143 | one more step of calc_manhattan's inner loop adds one cell's distance to the 32-bit running sum |
| PuzzleGrid.ManhattanWithoutBlank | 8-puzzle-Mr3zee/src/board.cpp:136-145 | calc_manhattan's sum over every cell less the blank's own term is the sum over the tiles |
| PuzzleGrid.DistancesNonnegative | 8-puzzle-Mr3zee/src/board.cpp:117-145 | the Hamming and Manhattan sums are never negative |
| PuzzleGrid.HammingAtMost | 8-puzzle-Mr3zee/src/board.cpp:117-126 | at most every cell is misplaced, so the Hamming count fits in the `unsigned` field when n·n < 2^32 |
| PuzzleGrid.GoalGridIsTileGrid | 8-puzzle-Mr3zee/src/board.cpp:39-46 | create_goal's grid is a valid board: distinct values below n·n and one blank |
| PuzzleGrid.GoalGridOnPlace | 8-puzzle-Mr3zee/src/board.cpp:39-46 | every cell of create_goal's grid is on place |
| PuzzleGrid.AllOnPlaceIsGoal | 8-puzzle-Mr3zee/src/board.cpp:317-319 | a tile grid has every cell on place exactly when it is the goal grid |
| PuzzleGrid.HammingZeroIsGoal | 8-puzzle-Mr3zee/src/board.cpp:113-126 | `is_goal` (Hamming 0) holds exactly on the goal grid, both ways |
| PuzzleGrid.GoalGridManhattan | 8-puzzle-Mr3zee/src/board.cpp:39-49 | the goal grid's Manhattan distance is 0 |
| Parity.IdentityCycles | 8-puzzle-Mr3zee/src/board.cpp:20-36 | the identity permutation has one cycle per element, so its parity is even |
| Parity.IterAdd | 8-puzzle-Mr3zee/src/board.cpp:27-31 | following `j = permutation[j] - 1` a times and then b times is following it a + b times |
| Parity.NextInjective | 8-puzzle-Mr3zee/src/board.cpp:30 | the step `j = permutation[j] - 1` never sends two cells to the same cell |
| Parity.WalkAvoids | 8-puzzle-Mr3zee/src/board.cpp:24-31 | a walk from an unvisited cell never meets a visited one, when the visited cells are closed under predecessors |
| Parity.Range | 8-puzzle-Mr3zee/src/board.cpp:21 | the cells 0 .. n-1 of the `visited` vector, n of them |
| Parity.DistinctCellsSize | 8-puzzle-Mr3zee/src/board.cpp:27-31 | the number of cells a walk marks is its length |
| Parity.WalkIsIter | 8-puzzle-Mr3zee/src/board.cpp:27-31 | the t-th cell the do-while loop reaches is the t-th successor of its start |
| Parity.Mark | 8-puzzle-Mr3zee/src/board.cpp:25-29 | `visited[j] = 1` moves j from the unvisited cells to the visited ones |
| Parity.LeadersStep | 8-puzzle-Mr3zee/src/board.cpp:23-24 | the cycles counted below i+1 are those below i, plus one when i is the least cell of its cycle |
| Parity.MarkStart | 8-puzzle-Mr3zee/src/board.cpp:25-26 | marking the start cell begins a walk of the loop |
| Parity.NextIsFresh | 8-puzzle-Mr3zee/src/board.cpp:27-31 | until the walk returns to i, the next cell is neither on the walk nor visited earlier |
| Parity.MarkStep | 8-puzzle-Mr3zee/src/board.cpp:27-31 | one turn of the do-while loop extends the walk by one new cell and shrinks the unvisited cells |
| Parity.MarkCycle | 8-puzzle-Mr3zee/src/board.cpp:25-32 | the do-while loop marks exactly the cells of i's cycle, none of them visited before, and returns its length |
| Parity.CycleClosed | 8-puzzle-Mr3zee/src/board.cpp:23-33 | after a whole cycle is marked, the visited cells are again closed under predecessors |
| Parity.CycleReturns | 8-puzzle-Mr3zee/src/board.cpp:27-31 | every cell of the marked cycle reaches a cell no later than the cycle's start |
| Parity.AfterCycle | 8-puzzle-Mr3zee/src/board.cpp:23-34 | the outer loop's invariant survives marking the cycle through i |
| Parity.SkipVisited | 8-puzzle-Mr3zee/src/board.cpp:24 | a cell already visited lies on an earlier cycle and starts no new one |
| Parity.UnvisitedLeads | 8-puzzle-Mr3zee/src/board.cpp:24 | an unvisited cell is the least cell of its cycle |
| Parity.CountCycle | 8-puzzle-Mr3zee/src/board.cpp:24-33 | marking a leader's cycle adds its length less one to `parity` and counts one more cycle |
| Parity.VisitCell | 8-puzzle-Mr3zee/src/board.cpp:23-34 | one turn of the outer loop keeps the count equal to the cells visited less the cycles counted |
| Parity.PermutationParity | 8-puzzle-Mr3zee/src/board.cpp:20-36 | `permutation_parity` returns (length − number of cycles) mod 2 |
| Parity.NothingCounted | 8-puzzle-Mr3zee/src/board.cpp:21-22 | before the loop nothing is visited and nothing counted |
| Parity.AllCounted | 8-puzzle-Mr3zee/src/board.cpp:34-35 | after the loop the count is the length less the number of cycles |
| BoardPermutation.FlattenRows | 8-puzzle-Mr3zee/src/board.cpp:84-91 | k pushed rows give k·n values |
| BoardPermutation.FlattenRowsIndex | 8-puzzle-Mr3zee/src/board.cpp:84-91 | set_defaults_from_data pushes cell (i, j) at position i·n + j |
| BoardPermutation.FlattenRowsCell | 8-puzzle-Mr3zee/src/board.cpp:84-91 | every pushed position comes from a cell (i, j) with position i·n + j |
| BoardPermutation.PermutationHasEvery | 8-puzzle-Mr3zee/src/board.cpp:13-18 | a shuffled 0 .. n-1 holds every value below its length, 0 included |
| BoardPermutation.Unflatten | 8-puzzle-Mr3zee/src/board.cpp:55-65 | the random constructor's rows form an n-by-n grid |
| BoardPermutation.FlattenUnflatten | 8-puzzle-Mr3zee/src/board.cpp:55-67 | cutting the permutation into rows and flattening them again gives the permutation back, so set_fields reads what the constructor was given |
| BoardPermutation.UnflattenIsTileGrid | 8-puzzle-Mr3zee/src/board.cpp:51-67 | the rows cut from a permutation of 0 .. n·n-1 form a valid tile grid |
| BoardPermutation.UnflattenCells | 8-puzzle-Mr3zee/src/board.cpp:56-63 | distinct cells of the cut-up permutation hold distinct values below n·n |
| BoardPermutation.UnflattenAt | 8-puzzle-Mr3zee/src/board.cpp:59 | cell (i, j) holds `permutation[size * i + j]` |
| BoardPermutation.UnflattenHasBlank | 8-puzzle-Mr3zee/src/board.cpp:58-62 | some cell of the cut-up permutation holds 0, so `blank_` is set |
| BoardPermutation.FirstZero | 8-puzzle-Mr3zee/src/board.cpp:97-102 | the position set_fields' loop stops at: the first 0, or the end when there is none |
| BoardPermutation.RewriteBlank | 8-puzzle-Mr3zee/src/board.cpp:97-102 | set_fields' loop overwrites the first 0 with the permutation's length and nothing else |
| BoardPermutation.FlattenDistinct | 8-puzzle-Mr3zee/src/board.cpp:84-91 | different positions of a flattened tile grid hold different values below n·n |
| BoardPermutation.FlattenIsZeroBased | 8-puzzle-Mr3zee/src/board.cpp:84-91 | a flattened tile grid holds each of 0 .. n·n-1 once |
| BoardPermutation.ZeroReplaced | 8-puzzle-Mr3zee/src/board.cpp:97-102 | overwriting the 0 of a permutation of 0 .. m-1 with m gives a permutation of 1 .. m |
| BoardPermutation.RewrittenIsPermutation | 8-puzzle-Mr3zee/src/board.cpp:96-103 | the rewritten board is a permutation of 1 .. n·n, the input permutation_parity expects |
| BoardPermutation.GoalRewritten | 8-puzzle-Mr3zee/src/board.cpp:39-46 | the goal grid, rewritten, is the identity 1 .. n·n |
| BoardPermutation.GoalIsSolvable | 8-puzzle-Mr3zee/src/board.cpp:103 | the goal board passes set_fields' solvability test |
| PuzzleMoves.MoveKeepsTileGrid | 8-puzzle-Mr3zee/src/board.cpp:235-237 | after a move the grid is still a valid tile grid, with the blank now in the moved tile's cell |
| PuzzleMoves.MoveBack | 8-puzzle-Mr3zee/src/board.cpp:235 | moving the tile back restores the grid |
| PuzzleMoves.OnPlaceOnce | 8-puzzle-Mr3zee/src/board.cpp:317-319 | a value on place in one cell is on place in no other |
| PuzzleMoves.MoveHamming | 8-puzzle-Mr3zee/src/board.cpp:233-243 | swap_blank's Hamming update is exact: the new count is the count of the new grid |
| PuzzleMoves.MoveManhattan | 8-puzzle-Mr3zee/src/board.cpp:230-238 | swap_blank's Manhattan update is exact: old sum − the tile's old distance + its new one is the new grid's sum |
| LinearConflict.InsertRow | 8-puzzle-Mr3zee/src/board.h:91-93 | `insert_row` adds exactly (i, j) to `in_row` and leaves `in_column` alone |
| LinearConflict.InsertColumn | 8-puzzle-Mr3zee/src/board.h:95-97 | `insert_column` adds exactly (i, j) to `in_column` and leaves `in_row` alone |
| LinearConflict.PairHashInjective | 8-puzzle-Mr3zee/src/board.h:16-21 | `hash<pair<int,int>>`, `first*31 + second`, tells apart the cells of boards up to 31 wide |
| LinearConflict.FreshTags | 8-puzzle-Mr3zee/src/board.cpp:202-209 | set_goals' table is n-by-n |
| LinearConflict.FreshTagMeaning | 8-puzzle-Mr3zee/src/board.cpp:211-222 | `.first` is the goal column exactly for a tile in its goal row, `.second` the goal row exactly for a tile in its goal column, and both are −1 for the blank |
| LinearConflict.MoveTags | 8-puzzle-Mr3zee/src/board.cpp:254-258 | clearing the left cell's tags and running set_goal on the cell entered gives exactly the tags set_goals would compute on the moved board |
| LinearConflict.RowFirsts | 8-puzzle-Mr3zee/src/board.cpp:173-174 | the `.first` tags along a row, one per column |
| LinearConflict.ColumnFirsts | 8-puzzle-Mr3zee/src/board.cpp:166-174 | the `.first` tags down a column, one per row, which the column pass as written compares |
| LinearConflict.ColumnSeconds | 8-puzzle-Mr3zee/src/board.cpp:259-261 | the `.second` tags down a column, which swap_blank's column updates read |
| LinearConflict.ColumnTags | 8-puzzle-Mr3zee/src/board.cpp:166 | the tags the column pass compares down column x, one per row: `.first` as written, `.second` as intended |
| LinearConflict.InversionsZero | 8-puzzle-Mr3zee/src/board.cpp:162-170 | a line's conflict count is zero exactly when no pair of it conflicts |
| LinearConflict.PairsBelowZero | 8-puzzle-Mr3zee/src/board.cpp:183-192 | for either column pass, the lines below x have a zero count exactly when none of them has a conflicting pair of the tags that pass compares |
| LinearConflict.RowTagConflict | 8-puzzle-Mr3zee/src/board.cpp:172-181 | along a row, check_lc's test on fresh tags is a linear conflict of the two tiles |
| LinearConflict.ColumnTagConflict | 8-puzzle-Mr3zee/src/board.cpp:259-275 | down a column, the test on fresh `.second` tags is a linear conflict of the two tiles |
| LinearConflict.ColumnTagClash | 8-puzzle-Mr3zee/src/board.cpp:166-181 | down a column, the test as written on fresh `.first` tags holds exactly on a column clash: both tiles in their own goal rows, goal columns the other way round, neither required to be in its goal column |
| LinearConflict.LineInversionsZero | 8-puzzle-Mr3zee/src/board.cpp:162-170 | row y has no inversion exactly when it holds no row conflict; column y's `.second` tags have none exactly when it holds no column conflict, and its `.first` tags none exactly when it holds no column clash |
| LinearConflict.RowInversionsZero | 8-puzzle-Mr3zee/src/board.cpp:172-181 | a row's tags have no inversion exactly when the row holds no conflict |
| LinearConflict.ColumnInversionsZero | 8-puzzle-Mr3zee/src/board.cpp:259-275 | a column's `.second` tags have no inversion exactly when the column holds no conflict |
| LinearConflict.ColumnClashesZero | 8-puzzle-Mr3zee/src/board.cpp:162-170 | a column's `.first` tags have no inversion exactly when the column holds no column clash |
| LinearConflict.ConflictCountZero | 8-puzzle-Mr3zee/src/board.cpp:183-192 | the count as written is zero exactly when no two tiles are in row conflict or column clash; the intended count, exactly when no two tiles are in linear conflict |
| LinearConflict.GoalHasNoConflict | 8-puzzle-Mr3zee/src/board.cpp:39-49 | no two tiles of the goal board are in linear conflict or in column clash |
| LinearConflict.PhantomBoardTags | 8-puzzle-Mr3zee/src/board.cpp:202-222 | the fresh tags of the board [[3,7,8],[4,5,6],[2,1,0]] |
| LinearConflict.AsWrittenCountsPhantomConflict | 8-puzzle-Mr3zee/src/board.cpp:162-192 | the board [[3,7,8],[4,5,6],[2,1,0]] is valid and has no linear conflict, yet tiles 3 and 4 clash in column 0: the count as written is 1 and the initial weight 2, where the intended count is 0 (see Findings) |
| LinearConflict.PhantomSelfLinks | 8-puzzle-Mr3zee/src/board.cpp:166-181 | on that board the tables as written hold (0, 0) in `in_row` of cell (0, 0) and (1, 0) in `in_row` of cell (1, 0), with `in_column` of (0, 0) empty; the intended tables hold neither self-link (see Findings) |
| LinearConflict.PhantomLines | 8-puzzle-Mr3zee/src/board.cpp:162-181 | the per-line counts of that board, under both readings of the column pass |
| LinearConflict.PhantomRows | 8-puzzle-Mr3zee/src/board.cpp:172-181 | that board's rows have no inversion of their `.first` tags |
| LinearConflict.PhantomColumnSeconds | 8-puzzle-Mr3zee/src/board.cpp:259-261 | that board's columns have no inversion of their `.second` tags |
| LinearConflict.PhantomColumnFirsts | 8-puzzle-Mr3zee/src/board.cpp:166 | that board's column 0 has one inversion of its `.first` tags, and the other columns none |
| LinearConflict.PairsFromStep | 8-puzzle-Mr3zee/src/board.cpp:165-167 | for either column pass, one more j of count_set_lc's inner loop adds both tests' results, check_lc(x, x, i, j) and (as written) check_lc(i, j, x, x), to the 32-bit total |
| LinearConflict.PairsBeforeStep | 8-puzzle-Mr3zee/src/board.cpp:164-168 | for either column pass, one more i of count_set_lc's outer loop adds the pairs (i, ..) to the 32-bit total |
| LinearConflict.LinePairsDouble | 8-puzzle-Mr3zee/src/board.cpp:169 | for either column pass, count_set_lc's result is twice its line's pairs, as a 32-bit value |
| LinearConflict.PairsBelowStep | 8-puzzle-Mr3zee/src/board.cpp:188-190 | for either column pass, setup_linear_conflict's loop adds count_set_lc(x) to the 32-bit total |
| LinearConflict.LinksStart | 8-puzzle-Mr3zee/src/board.cpp:185 | for either column pass, before any pair is checked the tables link nothing |
| LinearConflict.LinksSameProgress | 8-puzzle-Mr3zee/src/board.cpp:162-170 | two loop positions that have checked the same pairs describe the same tables, self-links as written included |
| LinearConflict.SameSelfDone | 8-puzzle-Mr3zee/src/board.cpp:166 | whether a tile has met a clash down its column depends only on which pairs of that column have been checked |
| LinearConflict.NextFirst | 8-puzzle-Mr3zee/src/board.cpp:164-165 | for either column pass, finishing the pairs (i, ..) of line x is starting the pairs (i+1, ..) |
| LinearConflict.NextLine | 8-puzzle-Mr3zee/src/board.cpp:188-190 | for either column pass, finishing line x is starting line x+1 |
| LinearConflict.LinksEnd | 8-puzzle-Mr3zee/src/board.cpp:183-192 | once every line is done the tables are those of the construction; as written, a cell holds itself in `in_row` exactly when its tile clashes with another tile of its column |
| LinearConflict.RowCheckStep | 8-puzzle-Mr3zee/src/board.cpp:172-181 | for either column pass, check_lc(x, x, i, j): a conflict of (x, i) and (x, j) links the two in `in_row` and moves the row progress on by one pair |
| LinearConflict.ColumnCheckStep | 8-puzzle-Mr3zee/src/board.cpp:166 | the intended column test on (i, x) and (j, x): a conflict of `.second` tags links the two in `in_column` and moves the column progress on by one pair |
| LinearConflict.SelfCheckStep | 8-puzzle-Mr3zee/src/board.cpp:166-181 | check_lc(i, j, x, x) as written: a clash of the `.first` tags of (i, x) and (j, x) puts each of the two cells into its own `in_row`, and moves the column progress on by one pair |
| LinearConflict.SelfDoneStep | 8-puzzle-Mr3zee/src/board.cpp:166 | after one more pair (i, j) of column x, a cell has met a clash exactly when it had before, or it is one of the pair and their `.first` tags clash |
| LinearConflict.RowHit | 8-puzzle-Mr3zee/src/board.cpp:172-181 | check_lc's return value is 0 or 1, and 1 exactly on a conflict of the `.first` tags |
| LinearConflict.ColumnHit | 8-puzzle-Mr3zee/src/board.cpp:166-181 | the second test's result is 0 or 1, and 1 exactly on a conflict of the tags the pass compares; as written it is check_lc(i, j, x, x)'s result on the `.first` tags |
| LinearConflict.RowCheck | 8-puzzle-Mr3zee/src/board.cpp:175-179 | check_lc's effect on the tables, as a function on values; it keeps them n-by-n, and RowCheckStep states the links it adds |
| LinearConflict.ColumnCheck | 8-puzzle-Mr3zee/src/board.cpp:166-179 | the second test's effect on the tables: as written check_lc(i, j, x, x)'s self-links in `in_row`, as intended links in `in_column`; it keeps them n-by-n, and SelfCheckStep / ColumnCheckStep state the links it adds |
| LinearConflict.CheckPair | 8-puzzle-Mr3zee/src/board.cpp:166 | both tests on pair (i, j) of line x, check_lc(x, x, i, j) then the column test, for either pass; n-by-n, and CheckPairStep states what they link |
| LinearConflict.PairsChecked | 8-puzzle-Mr3zee/src/board.cpp:165-167 | the tables after count_set_lc's inner loop, for either column pass; n-by-n, and PairsCheckedLinks states what they link |
| LinearConflict.LineChecked | 8-puzzle-Mr3zee/src/board.cpp:164-168 | the tables after count_set_lc(x), for either column pass; n-by-n, and LineCheckedLinks states what they link |
| LinearConflict.LinesChecked | 8-puzzle-Mr3zee/src/board.cpp:188-190 | the tables after setup_linear_conflict's loop over lines 0 .. x-1, for either column pass; n-by-n, and LinesCheckedLinks states what they link |
| LinearConflict.ConstructionTables | 8-puzzle-Mr3zee/src/board.cpp:183-192 | the tables the construction builds from empty ones, for either column pass (the board uses the pass as written); n-by-n, and ConstructionTablesLinks states what they link |
| LinearConflict.CheckPairStep | 8-puzzle-Mr3zee/src/board.cpp:166 | both tests together advance the row and the column progress by one pair, for either column pass |
| LinearConflict.PairsNext | 8-puzzle-Mr3zee/src/board.cpp:165-167 | for either column pass, one more pair checked moves the progress from (i, j-1) to (i, j) |
| LinearConflict.PairsCheckedUnfold | 8-puzzle-Mr3zee/src/board.cpp:165-167 | for either column pass, one more turn of the inner loop is one more CheckPair |
| LinearConflict.PairsCheckedLinks | 8-puzzle-Mr3zee/src/board.cpp:165-167 | for either column pass, the inner loop's tables link exactly the pairs checked so far |
| LinearConflict.LineNext | 8-puzzle-Mr3zee/src/board.cpp:164-168 | for either column pass, one more turn of count_set_lc's outer loop moves the progress to the next i |
| LinearConflict.LineCheckedLinks | 8-puzzle-Mr3zee/src/board.cpp:164-168 | for either column pass, the tables after count_set_lc's outer loop link exactly the pairs checked so far |
| LinearConflict.LinesNext | 8-puzzle-Mr3zee/src/board.cpp:188-190 | for either column pass, one more count_set_lc: line h finished is line h+1 started |
| LinearConflict.LinesCheckedLinks | 8-puzzle-Mr3zee/src/board.cpp:188-190 | for either column pass, the tables after lines 0 .. x-1 link exactly what those lines have checked |
| LinearConflict.ConstructionTablesLinks | 8-puzzle-Mr3zee/src/board.cpp:183-192 | the construction's tables link in `in_row` exactly the conflicting pairs of every row; as written, each cell whose tile clashes down its column also holds itself in `in_row`, and every `in_column` is empty; as intended, `in_column` links exactly the conflicting pairs of every column |
| LinearConflict.ColumnEraseStep | 8-puzzle-Mr3zee/src/board.cpp:249-252 | one turn of the column erase loop drops (i, y) from (x, y)'s set and (x, y) from (i, y)'s |
| LinearConflict.RowEraseStep | 8-puzzle-Mr3zee/src/board.cpp:280-283 | one turn of the row erase loop drops (x, i) from (x, y)'s set and (x, y) from (x, i)'s |
| LinearConflict.ColumnJoinCheck | 8-puzzle-Mr3zee/src/board.cpp:261-266 | one turn of a column insert loop, on the tables; n-by-n, and ColumnJoinStep states what it links |
| LinearConflict.ColumnJoinStep | 8-puzzle-Mr3zee/src/board.cpp:260-275 | one turn of a column insert loop links the arriving tile and position i, both ways, exactly when their tags conflict |
| LinearConflict.RowJoinCheck | 8-puzzle-Mr3zee/src/board.cpp:292-297 | one turn of a row insert loop, on the tables; n-by-n, and RowJoinStep states what it links |
| LinearConflict.RowJoinStep | 8-puzzle-Mr3zee/src/board.cpp:291-306 | one turn of a row insert loop links the arriving tile and position i, both ways, exactly when their tags conflict |
| LinearConflict.ColumnErased | 8-puzzle-Mr3zee/src/board.cpp:248-253 | the column erase loop's result, as a function; n-by-n, and ErasedShape and ColumnErasedCount state what it removes |
| LinearConflict.RowErased | 8-puzzle-Mr3zee/src/board.cpp:279-284 | the row erase loop's result, as a function; n-by-n, and ErasedShape and RowErasedCount state what it removes |
| LinearConflict.ColumnErasedEnd | 8-puzzle-Mr3zee/src/board.cpp:249-252 | the column erase loop run to n is ColumnErased |
| LinearConflict.RowErasedEnd | 8-puzzle-Mr3zee/src/board.cpp:280-283 | the row erase loop run to n is RowErased |
| LinearConflict.RemovedCount | 8-puzzle-Mr3zee/src/board.cpp:248-253 | removing part of a set takes away exactly that part's size |
| LinearConflict.ColumnErasedCount | 8-puzzle-Mr3zee/src/board.cpp:248-253 | `deleted` is the number of links the moving tile had into its own column |
| LinearConflict.RowErasedCount | 8-puzzle-Mr3zee/src/board.cpp:279-284 | `deleted` is the number of links the moving tile had into its own row |
| LinearConflict.ColumnHitsCount | 8-puzzle-Mr3zee/src/board.cpp:260-275 | `added` is two per conflict, and each conflict is one link the arriving tile gains |
| LinearConflict.RowHitsCount | 8-puzzle-Mr3zee/src/board.cpp:291-306 | the same along a row |
| LinearConflict.ColumnJoined | 8-puzzle-Mr3zee/src/board.cpp:257-275 | both column insert loops' result, as a function; n-by-n, and JoinedShape states what it adds |
| LinearConflict.RowJoined | 8-puzzle-Mr3zee/src/board.cpp:288-306 | both row insert loops' result, as a function; n-by-n, and JoinedShape states what it adds |
| LinearConflict.ColumnJoinedEnd | 8-puzzle-Mr3zee/src/board.cpp:260-275 | both column insert loops run to n are ColumnJoined |
| LinearConflict.RowJoinedEnd | 8-puzzle-Mr3zee/src/board.cpp:291-306 | both row insert loops run to n are RowJoined |
| LinearConflict.ErasedShape | 8-puzzle-Mr3zee/src/board.cpp:247-255 | the erase loops only shrink sets of one kind, and the moving tile ends unlinked from its old line |
| LinearConflict.JoinedShape | 8-puzzle-Mr3zee/src/board.cpp:256-276 | the insert loops only grow sets of one kind, and the arriving tile gains exactly its hits |
| LinearConflict.MovedLinks | 8-puzzle-Mr3zee/src/board.cpp:244-308 | swap_blank's patched `tiles_lc`, as a function; n-by-n, and MovedLinksOneKind and MovedCounts state what changes |
| LinearConflict.MovedLinksOneKind | 8-puzzle-Mr3zee/src/board.cpp:246-308 | a move along a row leaves every `in_row` set as it was, and a move along a column every `in_column` set |
| LinearConflict.MovedCounts | 8-puzzle-Mr3zee/src/board.cpp:244-309 | `deleted` is the number of links the left cell loses, and `added` twice the number the entered cell gains |
| PuzzleBoard.ManhattanAfterMove | 8-puzzle-Mr3zee/src/board.cpp:230-238 | the 32-bit `manhattan() - manhattan_x1 + manhattan(new_x, new_y)` is the new grid's Manhattan distance in 32 bits |
| PuzzleBoard.HammingAfterMove | 8-puzzle-Mr3zee/src/board.cpp:233-243 | swap_blank's Hamming expression is the new grid's Hamming distance and needs no wrap-around |
| PuzzleBoard.AfterMove | 8-puzzle-Mr3zee/src/board.cpp:230-243 | the moved grid is a tile grid, and both distance updates are exact |
| PuzzleBoard.MovedFields | 8-puzzle-Mr3zee/src/board.cpp:229-310 | a board whose fields are those swap_blank computes, field by field, is the moved board, and it is valid |
| PuzzleBoard.MovedIsValid | 8-puzzle-Mr3zee/src/board.cpp:229-310 | a moved board keeps every board invariant, its size and its solvability flag |
| PuzzleBoard.MovedBack | 8-puzzle-Mr3zee/src/board.cpp:229-243 | moving the tile back restores the grid, the blank, both distances and the tags |
| PuzzleBoard.GoalBoardFields | 8-puzzle-Mr3zee/src/board.cpp:39-49 | a freshly built goal board has its blank in the last cell and is solved, solvable and free of conflicts |
| PuzzleBoard.GoalFields | 8-puzzle-Mr3zee/src/board.cpp:39-49 | the goal grid's blank is its last cell, both its distances are 0, it is solvable, and the count as written gives it no conflict |
| PuzzleBoard.GoalBlank | 8-puzzle-Mr3zee/src/board.cpp:46 | the goal grid's only 0 is its last cell |
| PuzzleBoard.GoalConflict | 8-puzzle-Mr3zee/src/board.cpp:183-192 | the goal grid's tags count no conflict under either column pass |
| PuzzleBoard.AddRowDistances | 8-puzzle-Mr3zee/src/board.cpp:140-142 | calc_manhattan's inner loop adds row i's distances to the 32-bit running sum |
| PuzzleBoard.GoalRows | 8-puzzle-Mr3zee/src/board.cpp:40-46 | create_goal's loops build the goal grid |
| PuzzleBoard.CutRows | 8-puzzle-Mr3zee/src/board.cpp:55-65 | the random constructor's loops build the rows of the permutation and record the cell holding 0 as the blank |
| PuzzleBoard.HashStep | 8-puzzle-Mr3zee/src/board.h:146 | one step of `hash<Board>` is below 112909 |
| PuzzleBoard.HashBound | 8-puzzle-Mr3zee/src/board.h:141-150 | a non-empty board's hash is below 112909 |
| PuzzleBoard.SameBoardMeansEqualGrids | 8-puzzle-Mr3zee/src/board.cpp:344-353 | `operator==` holds exactly when the sizes and all cells are equal |
| PuzzleBoard.SameBoardsHashEqually | 8-puzzle-Mr3zee/src/board.h:141-150 | boards equal under `operator==` hash equally, as `unordered_map` requires |
| PuzzleBoard.Board.Empty | 8-puzzle-Mr3zee/src/board.h:32-37 | the default board: size 0, solvable, every distance 0 |
| PuzzleBoard.Board.FromData | 8-puzzle-Mr3zee/src/board.cpp:70-80 | a board over a given grid keeps the grid and computes every cached field from scratch, the conflict tables and weight by the column pass as written |
| PuzzleBoard.Board.FromPermutation | 8-puzzle-Mr3zee/src/board.cpp:51-68 | the random constructor, its shuffled permutation given: the rows of the permutation, every field computed from scratch, the conflict tables and weight as written |
| PuzzleBoard.Board.CreateGoal | 8-puzzle-Mr3zee/src/board.cpp:39-49 | create_goal gives the goal grid with its blank last, Hamming and Manhattan 0, no conflict, solvable |
| PuzzleBoard.Board.Copy | 8-puzzle-Mr3zee/src/board.h:39 | the defaulted copy holds the same fields |
| PuzzleBoard.Board.SetDefaultsFromData | 8-puzzle-Mr3zee/src/board.cpp:82-93 | every cached field is what it is from scratch, the conflict tables and weight as written; the blank is untouched on an empty board |
| PuzzleBoard.Board.FlattenFindBlank | 8-puzzle-Mr3zee/src/board.cpp:84-91 | the loops push the cells row by row and record the cell holding 0 as the blank |
| PuzzleBoard.Board.SetFields | 8-puzzle-Mr3zee/src/board.cpp:96-107 | set_fields leaves the solvability flag, both distances, the tags, the links and the conflict weight as computed from scratch, the last two by the column pass as written |
| PuzzleBoard.Board.SetSolvable | 8-puzzle-Mr3zee/src/board.cpp:97-103 | solvable exactly when n is 0 or the rewritten permutation's parity equals the parity of the blank's distance from the last cell |
| PuzzleBoard.Board.IsGoal | 8-puzzle-Mr3zee/src/board.cpp:113-115 | `is_goal` holds exactly on the goal grid |
| PuzzleBoard.Board.Hash | 8-puzzle-Mr3zee/src/board.h:141-150 | the loop computes `hash<Board>` |
| PuzzleBoard.Board.Equals | 8-puzzle-Mr3zee/src/board.cpp:344-353 | `operator==` is true exactly when sizes and every cell agree, stopping at the first difference |
| PuzzleBoard.Board.CalcHamming | 8-puzzle-Mr3zee/src/board.cpp:117-126 | calc_hamming returns the number of misplaced cells |
| PuzzleBoard.Board.CalcManhattan | 8-puzzle-Mr3zee/src/board.cpp:136-145 | calc_manhattan returns the 32-bit sum of all cell distances less the blank's |
| PuzzleBoard.Board.SetGoalAt | 8-puzzle-Mr3zee/src/board.cpp:211-222 | set_goal changes the tags of cell (i, j) only |
| PuzzleBoard.Board.SetGoals | 8-puzzle-Mr3zee/src/board.cpp:202-209 | set_goals leaves the tags computed from scratch |
| PuzzleBoard.Board.CheckLc | 8-puzzle-Mr3zee/src/board.cpp:172-181 | check_lc returns 1 exactly on a row conflict and links the two cells in `in_row` |
| PuzzleBoard.Board.CheckLcColumn | 8-puzzle-Mr3zee/src/board.cpp:166 | the intended column test, not called by the construction (see Findings): returns 1 exactly on a conflict of the `.second` tags and links the two cells in `in_column` |
| PuzzleBoard.Board.CountPairs | 8-puzzle-Mr3zee/src/board.cpp:165-167 | count_set_lc's inner loop adds the pairs (i, ..) of row x and, by the test as written, of column x to the 32-bit total, and leaves the tables of the pass as written |
| PuzzleBoard.Board.CountPair | 8-puzzle-Mr3zee/src/board.cpp:166 | one pair of count_set_lc: check_lc(x, x, i, j) and check_lc(i, j, x, x), both results added, the tables those of the pass as written |
| PuzzleBoard.Board.CountSetLc | 8-puzzle-Mr3zee/src/board.cpp:162-170 | count_set_lc(x) returns twice the pairs of row x and column x that the tests as written count, and leaves their links, self-links included |
| PuzzleBoard.Board.SetupLinearConflict | 8-puzzle-Mr3zee/src/board.cpp:183-192 | fresh tags, the construction's tables as written, and the conflict weight twice the pairs counted as written (unchanged when the board is empty) |
| PuzzleBoard.Board.CountLines | 8-puzzle-Mr3zee/src/board.cpp:187-191 | the loop over x builds the construction's tables as written and sums to the initial conflict weight as written |
| PuzzleBoard.Board.SwapBlank | 8-puzzle-Mr3zee/src/board.cpp:229-310 | swap_blank leaves exactly the moved board, and the board stays valid |
| PuzzleBoard.Board.UpdateTables | 8-puzzle-Mr3zee/src/board.cpp:244-309 | swap_blank's second half: fresh tags, the patched links, and `linear_conflict - deleted*2 + added` in 32 bits |
| PuzzleBoard.Board.MoveTile | 8-puzzle-Mr3zee/src/board.cpp:230-243 | swap_blank's first half: the cells exchanged, the blank moved, both distances those of the new grid |
| PuzzleBoard.Board.Retag | 8-puzzle-Mr3zee/src/board.cpp:254-258 | after retagging, the tags are those of the moved grid |
| PuzzleBoard.Board.MoveAlongRow | 8-puzzle-Mr3zee/src/board.cpp:246-276 | a move along row x patches the `in_column` links and returns `deleted` and `added` as MovedCounts describes |
| PuzzleBoard.Board.MoveAlongColumn | 8-puzzle-Mr3zee/src/board.cpp:277-308 | a move along column y patches the `in_row` links and returns `deleted` and `added` |
| PuzzleBoard.Board.EraseColumnLinks | 8-puzzle-Mr3zee/src/board.cpp:248-253 | the column erase loop leaves ColumnErased, and `deleted` is the size difference |
| PuzzleBoard.Board.EraseRowLinks | 8-puzzle-Mr3zee/src/board.cpp:279-284 | the row erase loop leaves RowErased, and `deleted` is the size difference |
| PuzzleBoard.Board.JoinColumnLinks | 8-puzzle-Mr3zee/src/board.cpp:259-275 | both column insert loops leave ColumnJoined, and `added` is two per hit |
| PuzzleBoard.Board.JoinColumnRange | 8-puzzle-Mr3zee/src/board.cpp:260-267 | one column insert loop, over positions lo .. hi-1, keeps the joined-so-far invariant, and `added` counts two per hit |
| PuzzleBoard.Board.LinkColumnEnemy | 8-puzzle-Mr3zee/src/board.cpp:261-266 | the body of a column insert loop links the enemy exactly on a conflict and returns 2 then, else 0 |
| PuzzleBoard.Board.JoinRowLinks | 8-puzzle-Mr3zee/src/board.cpp:290-306 | both row insert loops leave RowJoined, and `added` is two per hit |
| PuzzleBoard.Board.JoinRowRange | 8-puzzle-Mr3zee/src/board.cpp:291-298 | one row insert loop over positions lo .. hi-1 |
| PuzzleBoard.Board.LinkRowEnemy | 8-puzzle-Mr3zee/src/board.cpp:292-297 | the body of a row insert loop links the enemy exactly on a conflict |
| PuzzleSolver.HashIgnoresPriority | 8-puzzle-Mr3zee/src/solver.h:44-50 | `hash<Node>` reads only the board: nodes with different priorities hash alike but are different keys |
| PuzzleSolver.EqualKeysHashAlike | 8-puzzle-Mr3zee/src/solver.h:44-50 | nodes with equal keys hash alike, as `unordered_map` requires |
| PuzzleSolver.EquivalentIsNeitherLess | 8-puzzle-Mr3zee/src/solver.cpp:46 | two nodes that are not less than each other, under pair's `<`, have the same priority and the same grid |
| PuzzleSolver.NodeLessTransitive | 8-puzzle-Mr3zee/src/solver.cpp:46 | pair's `<` on nodes is transitive |
| PuzzleSolver.EraseContents | 8-puzzle-Mr3zee/src/solver.cpp:66 | `open_list.erase(next)` keeps the order and removes exactly the elements equivalent to next |
| PuzzleSolver.InsertContents | 8-puzzle-Mr3zee/src/solver.cpp:67 | `open_list.insert(next)` keeps the order and adds exactly next |
| PuzzleSolver.Heuristic | 8-puzzle-Mr3zee/src/solver.cpp:19-21 | heuristic is `manhattan() + linear_conflict()` in unsigned arithmetic, returned as an int |
| PuzzleSolver.Priority | 8-puzzle-Mr3zee/src/solver.cpp:65 | `next.first = new_level + heuristic` stored in an unsigned |
| PuzzleSolver.Target | 8-puzzle-Mr3zee/src/solver.cpp:15-17 | the cell one of the four deltas leads to from the blank |
| PuzzleSolver.NeighborAt | 8-puzzle-Mr3zee/src/solver.cpp:26-32 | the neighbour through one delta: present exactly when its cell is in bounds, then the moved board at priority 0 |
| PuzzleSolver.NeighborsFrom | 8-puzzle-Mr3zee/src/solver.cpp:25-33 | the neighbours through the deltas from k on, in delta order |
| PuzzleSolver.NeighborIsOneMove | 8-puzzle-Mr3zee/src/solver.cpp:26-32 | a neighbour is a valid board one legal move away |
| PuzzleSolver.NeighborAtIsMove | 8-puzzle-Mr3zee/src/solver.cpp:26-32 | the neighbour through any delta is one move away |
| PuzzleSolver.NeighborsAreMoves | 8-puzzle-Mr3zee/src/solver.cpp:23-34 | every neighbour is a valid board of the same size and solvability, one move away |
| PuzzleSolver.DeltaIsMove | 8-puzzle-Mr3zee/src/solver.cpp:27-30 | an in-bounds cell next to the blank is a legal argument of swap_blank |
| PuzzleSolver.NeighborAtValue | 8-puzzle-Mr3zee/src/solver.cpp:26-32 | the neighbour through a delta is the moved board when its cell is in bounds, and nothing otherwise |
| PuzzleSolver.NeighborThrough | 8-puzzle-Mr3zee/src/solver.cpp:26-32 | one turn of neighbors' loop copies the board and swaps in the cell when it is in bounds |
| PuzzleSolver.NeighborsFromStep | 8-puzzle-Mr3zee/src/solver.cpp:25-33 | one more delta appends its neighbour, if any |
| PuzzleSolver.Neighbors | 8-puzzle-Mr3zee/src/solver.cpp:23-34 | neighbors returns the moved boards through up, left, down and right, in that order, leaving out the deltas that go out of bounds |
| PuzzleSolver.NewLevelIsOne | 8-puzzle-Mr3zee/src/solver.cpp:61 | a popped node other than start, with non-zero priority, reads level 0, because levels are stored under priority-0 keys (see Left out) |
| PuzzleSolver.LevelsArePositive | 8-puzzle-Mr3zee/src/solver.cpp:49-64 | a read of `close_list` gives 0 exactly for a key the search has not given a level; every level lines 49 and 64 store is at least 1, and the zeros that lines 61-62 default-insert read back alike, so the model does not keep them |
| PuzzleSolver.RelaxKeepsInv | 8-puzzle-Mr3zee/src/solver.cpp:63-69 | one relaxation keeps the search invariant |
| PuzzleSolver.RelaxKeepsLevels | 8-puzzle-Mr3zee/src/solver.cpp:64 | storing a level of at least 1 under a priority-0 key keeps the level invariant |
| PuzzleSolver.RelaxKeepsParents | 8-puzzle-Mr3zee/src/solver.cpp:68 | recording current as the parent of a node one move from it keeps `came_from` a tree of moves |
| PuzzleSolver.RelaxKeepsOpen | 8-puzzle-Mr3zee/src/solver.cpp:66-67 | erase-then-insert keeps the open set ascending, valid and parented |
| PuzzleSolver.Relax | 8-puzzle-Mr3zee/src/solver.cpp:60-70 | the inner loop over neighbours keeps the search invariant |
| PuzzleSolver.RelaxOne | 8-puzzle-Mr3zee/src/solver.cpp:61-69 | one relaxation: when the stored level is 0 or larger than new_level, it stores it, sets the priority, replaces the node in the open set and records the parent; otherwise nothing changes |
| PuzzleSolver.FindPath | 8-puzzle-Mr3zee/src/solver.cpp:45-73 | find_path returns a goal node with a `came_from` entry, or the start when the open set empties; `came_from` is a tree of moves rooted at start |
| PuzzleSolver.ThenThen | 8-puzzle-Mr3zee/src/solver.cpp:77-80 | extending a trail twice is extending it by both links |
| PuzzleSolver.TrailShape | 8-puzzle-Mr3zee/src/solver.cpp:77-81 | restore_path's chain starts at a node equal to start, ends at end, and each node is the `came_from` entry of the next |
| PuzzleSolver.TrailMeetsStartOnce | 8-puzzle-Mr3zee/src/solver.cpp:77 | only the first node of the chain equals start |
| PuzzleSolver.TrailIsMoves | 8-puzzle-Mr3zee/src/solver.cpp:75-84 | along the chain, each board is one move from the one before |
| PuzzleSolver.ParentStep | 8-puzzle-Mr3zee/src/solver.cpp:79 | the `came_from` entry of a node other than start has its own entry and is one move before it |
| PuzzleSolver.TrailEnds | 8-puzzle-Mr3zee/src/solver.cpp:75-84 | the chain is not empty, starts at start and ends at end |
| PuzzleSolver.ExtendMoveTrail | 8-puzzle-Mr3zee/src/solver.cpp:77-80 | a parent put in front of a chain of moves is again a chain of moves |
| PuzzleSolver.TrailBoardsAreMoves | 8-puzzle-Mr3zee/src/solver.cpp:75-84 | the boards of the chain are successive moves |
| PuzzleSolver.Boards | 8-puzzle-Mr3zee/src/solver.cpp:78 | one board per node, in order |
| PuzzleSolver.ReverseBoards | 8-puzzle-Mr3zee/src/solver.cpp:82 | `std::reverse` gives the boards backwards |
| PuzzleSolver.RestorePath | 8-puzzle-Mr3zee/src/solver.cpp:75-84 | restore_path returns the boards of the `came_from` chain from end back to start, in forward order, and fails exactly when the chain does not reach start within the fuel; TrailEnds and TrailIsMoves: the chain starts at start, ends at end, and is a sequence of moves |
| PuzzleSolver.Solve | 8-puzzle-Mr3zee/src/solver.cpp:36-43 | solve: a board of size 0 or 1 is its own one-board path; an unsolvable board gives the empty path; otherwise the path starts at the board, is a sequence of moves, and ends at a goal board (or is the board alone, when the search ends without one) |
| PuzzleSolver.Solver.constructor | 8-puzzle-Mr3zee/src/solver.cpp:7-9 | the path the solver keeps has solve's properties; a search cut off by the fuel leaves it empty |
| PuzzleSolver.Solver.Moves | 8-puzzle-Mr3zee/src/solver.cpp:11-13 | `moves()` is 0 for an empty path and otherwise one less than the path's length |
| SearchText.RunEnd | inverted-index-Mr3zee/src/searcher.cpp:77-80 | take_word's loop stops at the first separator or at the end, with no separator before it |
| SearchText.TokensAreWords | inverted-index-Mr3zee/src/searcher.cpp:63-82 | every word parse_document yields is a non-empty, separator-free run with some character other than `_` |
| SearchText.QueryLexemesAreWordsOrQuotes | inverted-index-Mr3zee/src/searcher.cpp:112-122 | each lexeme of a query is a Quote or a word as in a document |
| SearchText.WordIsNotQuote | inverted-index-Mr3zee/src/searcher.cpp:191-193 | a word is never the Quote lexeme, since `"` is a separator |
| SearchText.RunHasNoQuotes | inverted-index-Mr3zee/src/searcher.cpp:74-82 | a take_word run holds no `"` |
| SearchText.QuoteLexemesCountQuotes | inverted-index-Mr3zee/src/searcher.cpp:113-119 | `count_quotes`, the number of Quote lexemes, is the number of `"` characters in the query |
| SearchText.RunEndIs | inverted-index-Mr3zee/src/searcher.cpp:77-80 | a separator-free run that ends at a separator or at the end is the run take_word takes |
| SearchText.RunShift | inverted-index-Mr3zee/src/searcher.cpp:77-80 | the run at a position of `a + b` beyond a is the run of b, shifted by the length of a |
| SearchText.TokensFromShift | inverted-index-Mr3zee/src/searcher.cpp:63-72 | scanning the second half of `a + b` yields what scanning b does |
| SearchText.TokensOfJoined | inverted-index-Mr3zee/src/searcher.cpp:63-72 | parse_document undoes joining words with single spaces |
| SearchText.SingleWordLexemes | inverted-index-Mr3zee/src/searcher.cpp:112-122 | a query that is one word lexes to exactly that word |
| SearchText.TokensTake | inverted-index-Mr3zee/src/searcher.cpp:66-70 | the step of parse_document's loop that takes a word keeps what remains to be scanned in step |
| SearchText.LexemesTake | inverted-index-Mr3zee/src/searcher.cpp:120-121 | the same step in parse_query's loop; count_quotes does not change |
| SearchText.TakeWord | inverted-index-Mr3zee/src/searcher.cpp:74-82 | take_word moves to the end of the run and keeps it exactly when some character is not `_` |
| SearchText.ParseDocument | inverted-index-Mr3zee/src/searcher.cpp:63-72 | parse_document yields the document's words in order |
| SearchText.SkipSeparators | inverted-index-Mr3zee/src/searcher.cpp:113-119 | the separator loop adds a Quote lexeme, counted in count_quotes, for each `"` |
| SearchText.SeparatorStep | inverted-index-Mr3zee/src/searcher.cpp:113-119 | one separator adds a Quote exactly when it is `"` |
| SearchText.LexQuery | inverted-index-Mr3zee/src/searcher.cpp:110-122 | the lexing loop yields the query's lexemes in order, with count_quotes the number of Quote lexemes |
| SearchQuery.WhatIdentifiesError | inverted-index-Mr3zee/src/searcher.h:36-41 | for one query, `what()` tells the two syntax errors apart |
| SearchQuery.PhraseEnd | inverted-index-Mr3zee/src/searcher.cpp:130-132 | the inner loop stops at the next Quote, or at the end, with no Quote before it |
| SearchQuery.PhraseParity | inverted-index-Mr3zee/src/searcher.cpp:127-133 | inside a phrase every position has one Quote more before it than the opening Quote has |
| SearchQuery.PhraseWalk | inverted-index-Mr3zee/src/searcher.cpp:130-132 | the words of a phrase go to the phrase words and none to the bare words |
| SearchQuery.PhraseStep | inverted-index-Mr3zee/src/searcher.cpp:127-135 | a whole phrase, from its opening Quote to past its closing one, matches the parity description |
| SearchQuery.PastClosingQuote | inverted-index-Mr3zee/src/searcher.cpp:133 | stepping past a Quote adds no word |
| SearchQuery.BetweenPast | inverted-index-Mr3zee/src/searcher.cpp:127-135 | once more than n `"` lie behind, no later lexeme has exactly n before it |
| SearchQuery.PhraseBetween | inverted-index-Mr3zee/src/searcher.cpp:130-132 | inside a phrase every word has one `"` more before it than the opening `"` |
| SearchQuery.PhraseStepBetween | inverted-index-Mr3zee/src/searcher.cpp:127-135 | a whole phrase holds exactly the lexemes with one `"` more before them than its opening `"`, and adds nothing to any other count |
| SearchQuery.PhrasesAfterQuote | inverted-index-Mr3zee/src/searcher.cpp:127-135 | from an opening `"` the first phrase holds the lexemes with one `"` more before them, and the later phrases follow on |
| SearchQuery.QuotePhrase | inverted-index-Mr3zee/src/searcher.cpp:127-135 | phrase m grouped from an opening `"` holds the lexemes with 2m + 1 `"` more before them |
| SearchQuery.FirstPhrase | inverted-index-Mr3zee/src/searcher.cpp:130-134 | the phrase opened at a `"` holds the lexemes up to the next `"`, exactly those with one `"` more before them |
| SearchQuery.LaterPhrase | inverted-index-Mr3zee/src/searcher.cpp:134-135 | a later phrase sits past the current phrase's closing `"`, two `"` further on |
| SearchQuery.PhrasesAfterWord | inverted-index-Mr3zee/src/searcher.cpp:136-137 | a bare word adds no phrase and no lexeme to any phrase |
| SearchQuery.GroupFromMeaning | inverted-index-Mr3zee/src/searcher.cpp:125-138 | from a position outside any phrase: the bare words are the lexemes with an even number of `"` before them, the phrase words those with an odd number, one phrase per `"` pair, and phrase m holds exactly the lexemes with 2m + 1 `"` more before them |
| SearchQuery.Partition | inverted-index-Mr3zee/src/searcher.cpp:125-138 | every lexeme is a Quote, a bare word or a phrase word, so the grouping loses nothing |
| SearchQuery.ParsedQueryMeaning | inverted-index-Mr3zee/src/searcher.cpp:106-140 | parse_query fails exactly on no lexemes ("Empty query") or an odd number of `"` ("Expected closing quote"); otherwise the bare words are the lexemes outside quote pairs, in order, there is one phrase per pair, phrase m holds exactly the lexemes between the (2m)-th and (2m+1)-th `"` (counting from 0), and no lexeme is lost |
| SearchQuery.EmptyLexemes | inverted-index-Mr3zee/src/searcher.cpp:110-123 | a query has no lexemes exactly when it holds no `"` and only separators and `_` |
| SearchQuery.EmptyQueryIff | inverted-index-Mr3zee/src/searcher.cpp:123 | "Empty query" is reported exactly when the query has no `"` and nothing but separators and `_` |
| SearchQuery.SingleWordQuery | inverted-index-Mr3zee/src/searcher.cpp:106-140 | a one-word query is that bare word and no phrase |
| SearchQuery.GroupLexemes | inverted-index-Mr3zee/src/searcher.cpp:125-138 | the grouping loop computes the grouping |
| SearchQuery.ReadPhrase | inverted-index-Mr3zee/src/searcher.cpp:130-132 | the inner loop collects the lexemes up to the next Quote or the end, and stops there |
| SearchQuery.ParseQuery | inverted-index-Mr3zee/src/searcher.cpp:106-140 | parse_query returns the error or the grouping that ParsedQueryMeaning describes |
| SearchIndex.Lookup | inverted-index-Mr3zee/src/searcher.cpp:25-31 | find gives the word's postings, or an empty Info for an unknown word |
| SearchIndex.InsertedMeaning | inverted-index-Mr3zee/src/searcher.cpp:14-16 | insert adds exactly one posting, creates at most one word, and leaves other words alone |
| SearchIndex.RemovedMeaning | inverted-index-Mr3zee/src/searcher.cpp:18-23 | remove drops exactly the file's postings and keeps every word as a key |
| SearchIndex.FoundAllMeaning | inverted-index-Mr3zee/src/searcher.cpp:37-45 | every Info find_all returns is non-empty and belongs to a word; it returns one per word, in order, exactly when every word is known |
| SearchIndex.FoundAllLast | inverted-index-Mr3zee/src/searcher.cpp:39-43 | one step of find_all appends the last word's Info when it is non-empty |
| SearchIndex.FoundAllAmong | inverted-index-Mr3zee/src/searcher.cpp:37-45 | find_all returns at most one Info per word, each non-empty and some word's |
| SearchIndex.FoundAllFull | inverted-index-Mr3zee/src/searcher.cpp:37-45 | when find_all returns one Info per word, the i-th is the i-th word's, so every word is known |
| SearchIndex.FoundAllKnownFull | inverted-index-Mr3zee/src/searcher.cpp:37-45 | when every word is known, find_all returns one Info per word |
| SearchIndex.FoundAllKnown | inverted-index-Mr3zee/src/searcher.cpp:37-45 | every known word's Info is among those find_all returns |
| SearchIndex.Index.constructor | inverted-index-Mr3zee/src/searcher.h:100-101 | an empty index with no files |
| SearchIndex.Index.Insert | inverted-index-Mr3zee/src/searcher.cpp:14-16 | insert adds exactly the posting and, as written, leaves `files` unchanged (see Findings) |
| SearchIndex.Index.RecordingInsert | inverted-index-Mr3zee/src/searcher.cpp:14-16 | the intended insert (see Findings): adds the posting and records the file |
| SearchIndex.Index.Remove | inverted-index-Mr3zee/src/searcher.cpp:18-23 | remove erases the file from every word and from `files` |
| SearchIndex.Index.Find | inverted-index-Mr3zee/src/searcher.cpp:25-31 | find's result holds exactly the postings of the word |
| SearchIndex.Index.ContainsFile | inverted-index-Mr3zee/src/searcher.cpp:33-35 | contains_file holds exactly for a recorded file |
| SearchIndex.Index.FindAll | inverted-index-Mr3zee/src/searcher.cpp:37-45 | the loop computes find_all |
| SearchIndex.CommonMeaning | inverted-index-Mr3zee/src/searcher.cpp:142-158 | intersection holds exactly the files in every Info, and nothing for no Infos |
| SearchIndex.ToFilenameSet | inverted-index-Mr3zee/src/searcher.cpp:160-166 | to_filename_set returns the Info's file names |
| SearchIndex.Intersection | inverted-index-Mr3zee/src/searcher.cpp:142-149 | intersection's loop returns the files common to every Info |
| SearchIndex.Shift | inverted-index-Mr3zee/src/searcher.cpp:183-189 | every position moved one place on, and nothing else |
| SearchIndex.Increment | inverted-index-Mr3zee/src/searcher.cpp:183-189 | increment's loop computes the shift |
| SearchIndex.CandidatesMeaning | inverted-index-Mr3zee/src/searcher.cpp:174-177 | q survives k words exactly when those words sit at consecutive positions ending just before q |
| SearchIndex.PhraseFound | inverted-index-Mr3zee/src/searcher.cpp:168-181 | a file search_phrase returns holds the phrase at some position |
| SearchIndex.PhraseMatched | inverted-index-Mr3zee/src/searcher.cpp:168-181 | a file holding the phrase at some position is returned |
| SearchIndex.PhraseMeaning | inverted-index-Mr3zee/src/searcher.cpp:168-181 | search_phrase finds exactly the files where the phrase's words sit at consecutive positions |
| SearchIndex.BareMeaning | inverted-index-Mr3zee/src/searcher.cpp:86 | `intersection(find_all(ws))` is the files holding every known word: unknown words are skipped, and no word known means no files |
| InvertedIndex.AddWordsMeaning | inverted-index-Mr3zee/src/searcher.cpp:53-60 | adding a document's words gives the file exactly the postings (word, position) on top of what it had |
| InvertedIndex.DocWordsStep | inverted-index-Mr3zee/src/searcher.cpp:55-56 | the words of the lines are the first line's words, then the rest's |
| InvertedIndex.AddWordsStep | inverted-index-Mr3zee/src/searcher.cpp:57-59 | adding words in two parts is adding them at once, the second part after the first |
| InvertedIndex.ReplacedMeaning | inverted-index-Mr3zee/src/searcher.cpp:51-61 | the intended add_document, with files recorded (see Findings), replaces the file: afterwards it has exactly the new document's words at their positions, other files keep theirs, and every file with a posting stays recorded |
| InvertedIndex.AsWrittenAddMeaning | inverted-index-Mr3zee/src/searcher.cpp:51-61 | add_document as written, from the empty set of recorded files that insert never grows: the file gains exactly the document's words at their positions on top of the postings it had, other files keep theirs, and no file is recorded |
| InvertedIndex.AllPhrasesMeaning | inverted-index-Mr3zee/src/searcher.cpp:92-96 | the loop of search over phrases yields the files that match every phrase |
| InvertedIndex.SearchMeaning | inverted-index-Mr3zee/src/searcher.cpp:84-104 | a well-formed query finds, with no phrase, exactly the files with every known bare word; with phrases, the files matching every phrase, narrowed by the bare-word files when there are any |
| InvertedIndex.SearchSingleWord | inverted-index-Mr3zee/src/searcher.cpp:84-90 | a one-word query finds exactly the files the word occurs in |
| InvertedIndex.AscendingTail | inverted-index-Mr3zee/src/searcher.h:24 | the tail of an ascending listing is ascending and above its head |
| InvertedIndex.InsertSortedListing | inverted-index-Mr3zee/src/searcher.h:24 | inserting a new name into a listing keeps it ascending and adds exactly that name |
| InvertedIndex.SortedListing | inverted-index-Mr3zee/src/searcher.cpp:89-90 | the names of a result set, in the ascending order its iterators visit them |
| InvertedIndex.ListingSize | inverted-index-Mr3zee/src/main.cpp:26 | a listing has one entry per name, so `std::distance(begin, end)` is the result's size |
| InvertedIndex.DocIterator.constructor | inverted-index-Mr3zee/src/searcher.h:54-55 | the iterator holds the snapshot and the position |
| InvertedIndex.DocIterator.Equals | inverted-index-Mr3zee/src/searcher.h:57-63 | over one listing, two iterators are equal exactly when both are at the end or both show the same name |
| InvertedIndex.DocIterator.Deref | inverted-index-Mr3zee/src/searcher.h:65-67 | `operator*` gives a name of the snapshot |
| InvertedIndex.DocIterator.Next | inverted-index-Mr3zee/src/searcher.h:73-76 | prefix `++` moves one place on |
| InvertedIndex.DocIterator.PostNext | inverted-index-Mr3zee/src/searcher.h:78-82 | postfix `++` returns a copy at the old place and moves on |
| InvertedIndex.DocIterator.Prev | inverted-index-Mr3zee/src/searcher.h:84-87 | prefix `--` moves one place back |
| InvertedIndex.DocIterator.PostPrev | inverted-index-Mr3zee/src/searcher.h:89-93 | postfix `--` returns a copy at the old place and moves back |
| InvertedIndex.Searcher.constructor | inverted-index-Mr3zee/src/searcher.h:26 | an empty index |
| InvertedIndex.Searcher.AddDocument | inverted-index-Mr3zee/src/searcher.cpp:51-61 | add_document as written: a recorded file is removed first, its words are added, and only `files` loses it; from a valid state (no file recorded) the words are added on top of the file's old postings and no file becomes recorded |
| InvertedIndex.Searcher.InsertWords | inverted-index-Mr3zee/src/searcher.cpp:57-59 | one line's words go in at the positions that follow the earlier lines', and `files` is unchanged |
| InvertedIndex.Searcher.RemoveDocument | inverted-index-Mr3zee/src/searcher.cpp:47-49 | remove_document drops the file's postings and the file, and keeps no file recorded |
| InvertedIndex.Searcher.FileCandidates | inverted-index-Mr3zee/src/searcher.cpp:174-177 | the candidate loop for one file yields the positions just after a full run of the phrase |
| InvertedIndex.Searcher.SearchPhrase | inverted-index-Mr3zee/src/searcher.cpp:168-181 | search_phrase returns the phrase's files, as PhraseMeaning characterises them |
| InvertedIndex.Searcher.SearchFiles | inverted-index-Mr3zee/src/searcher.cpp:84-104 | search's result set, or parse_query's error |
| InvertedIndex.Searcher.Search | inverted-index-Mr3zee/src/searcher.cpp:84-104 | search returns the error, or begin and end iterators over one fresh ascending listing of the result, at 0 and at its end |
| InvertedIndex.OneWordDocument | inverted-index-Mr3zee/src/searcher.cpp:63-72 | a one-line document that is one word has that word as its only word |
| InvertedIndex.OneWordAdded | inverted-index-Mr3zee/src/searcher.cpp:57-59 | indexing one word puts it at position 0 |
| InvertedIndex.FreshOneWord | inverted-index-Mr3zee/src/searcher.cpp:14-16 | an empty index given one posting maps the word to the file at position 0 |
| InvertedIndex.AsWrittenKeepsStalePostings | inverted-index-Mr3zee/src/searcher.cpp:14-16 | as written, re-adding a file keeps its old words, so a search for an old word still finds it (see Findings) |
| InvertedIndex.ReplacingForgetsOldWords | inverted-index-Mr3zee/src/searcher.cpp:51-52 | with the intended recording insert, re-adding a file with a new word makes a search for the old word find nothing |
| InvertedIndex.OneWordFound | inverted-index-Mr3zee/src/searcher.cpp:84-90 | searching an index that holds only one one-word document, as add_document builds it, for that word finds exactly that document |
| InvertedIndex.SingletonWord | inverted-index-Mr3zee/src/main.cpp:9 | `a_single_word` is a word of a document |
| InvertedIndex.SingletonSearch | inverted-index-Mr3zee/src/main.cpp:12-17 | indexing one file of one word and searching for that word gives the listing of that one file |
| InvertedIndex.SingletonScenario | inverted-index-Mr3zee/src/main.cpp:12-27 | the program shows exactly `a.txt`, and the distance from begin to end is 1, though the exhausted stream re-adds `a.txt` as an empty document during and after the iteration |
| KeySort.AsSize | sort-k-t-Mr3zee/src/sort.h:39 | a long long converted to size_t is congruent to it mod 2^64, and unchanged when it fits |
| KeySort.FirstNotOf | sort-k-t-Mr3zee/src/sort.h:29 | `find_first_not_of` returns the first non-separator at or after `from`, or npos when there is none |
| KeySort.FirstOf | sort-k-t-Mr3zee/src/sort.h:30 | `find_first_of` returns the first separator at or after `from`, or npos when there is none |
| KeySort.NoStartsBetween | sort-k-t-Mr3zee/src/sort.h:28-31 | no field begins between two positions, so the count of fields does not change |
| KeySort.StartsMonotone | sort-k-t-Mr3zee/src/sort.h:28-31 | fields counted up to a later position are never fewer |
| KeySort.ShiftedStarts | sort-k-t-Mr3zee/src/sort.h:28-31 | a scan restarted at the end of a field sees the later fields of the earlier scan |
| KeySort.Scanned | sort-k-t-Mr3zee/src/sort.h:27-31 | after any number of passes, first and last stay in order within the line |
| KeySort.PartOf | sort-k-t-Mr3zee/src/sort.h:26-35 | find_part_of's span lies within the line, start before end |
| KeySort.FirstPass | sort-k-t-Mr3zee/src/sort.h:29-30 | the first pass finds the first field at or after pos |
| KeySort.NextPass | sort-k-t-Mr3zee/src/sort.h:29-30 | a pass from the end of the k-th field finds the (k+1)-th |
| KeySort.ScanHoldsAfter | sort-k-t-Mr3zee/src/sort.h:28-31 | after k passes the scan holds the k-th field, or npos when the line has fewer |
| KeySort.PartOfMeaning | sort-k-t-Mr3zee/src/sort.h:26-35 | find_part_of returns the count-th field after pos: an empty span at pos for count 0, and the end of the line when there are fewer fields |
| KeySort.FieldSpanUnique | sort-k-t-Mr3zee/src/sort.h:26-35 | that span is unique |
| KeySort.FindPartOf | sort-k-t-Mr3zee/src/sort.h:26-35 | the loop leaves the count-th field's span |
| KeySort.Split | sort-k-t-Mr3zee/src/sort.h:37-46 | split keeps the line and gives a key span within it |
| KeySort.ResumeAfterField | sort-k-t-Mr3zee/src/sort.h:44 | resuming after field k and counting c more fields reaches field k + c |
| KeySort.ResumeWithinLine | sort-k-t-Mr3zee/src/sort.h:44 | the same, when the line has at least k fields |
| KeySort.SplitMeaning | sort-k-t-Mr3zee/src/sort.h:37-46 | no key field: the whole line; key_field1 = k alone: the k-th field; key_field2 beyond it: field key_field2 alone; key_field2 = key_field1: an empty key |
| KeySort.SplitLaterField | sort-k-t-Mr3zee/src/sort.h:44-45 | with key_field1 < key_field2 the key is field key_field2 |
| KeySort.TraitsCompare | sort-k-t-Mr3zee/src/sort.h:49 | the character comparison is −1, 0 or 1 |
| KeySort.TraitsCompareIsLexLess | sort-k-t-Mr3zee/src/sort.h:49 | a difference within the common length decides the order; none leaves it to the lengths |
| KeySort.StringCompareIsStrLess | sort-k-t-Mr3zee/src/sort.h:49 | `compare` is negative exactly when the first string sorts first |
| KeySort.Key | sort-k-t-Mr3zee/src/sort.h:49 | `substr(fsi, num)` is at most num characters long |
| KeySort.CompareIsStrictWeakOrder | sort-k-t-Mr3zee/src/sort.h:48-50 | compare orders blocks by key: it is irreflexive, asymmetric and transitive, and two blocks tie exactly on equal keys, the strict weak order `std::sort` requires |
| KeySort.Origins | sort-k-t-Mr3zee/src/sort.h:59-61 | one line per block |
| KeySort.OriginsAt | sort-k-t-Mr3zee/src/sort.h:59-61 | the i-th output line is the i-th block's line |
| KeySort.OriginsSplit | sort-k-t-Mr3zee/src/sort.h:59-61 | the lines of two runs of blocks are the lines of each |
| KeySort.InsertCounts | sort-k-t-Mr3zee/src/sort.h:58 | inserting a block adds exactly that block |
| KeySort.InsertOrigins | sort-k-t-Mr3zee/src/sort.h:58 | inserting a block adds exactly its line |
| KeySort.InsertOrdered | sort-k-t-Mr3zee/src/sort.h:58 | insertion keeps the blocks ordered by compare |
| KeySort.InsertFront | sort-k-t-Mr3zee/src/sort.h:58 | a block less than the first goes in front and keeps the order |
| KeySort.InsertBehind | sort-k-t-Mr3zee/src/sort.h:58 | a block not less than the first goes behind it and keeps the order |
| KeySort.HeadFirst | sort-k-t-Mr3zee/src/sort.h:58 | no block of the insertion behind the first is less than the first |
| KeySort.OrderedCons | sort-k-t-Mr3zee/src/sort.h:58 | a block no later block is less than can lead an ordered run |
| KeySort.InsertStep | sort-k-t-Mr3zee/src/sort.h:58 | inserting the next block keeps the sorted blocks a permutation of those read, and ordered |
| KeySort.SortBlocks | sort-k-t-Mr3zee/src/sort.h:58 | `std::sort(..., compare)` leaves a permutation of the blocks, ordered by key |
| KeySort.Sort | sort-k-t-Mr3zee/src/sort.h:52-62 | sort prints every input line exactly once, in non-decreasing key order |
| KeySort.WriteLines | sort-k-t-Mr3zee/src/sort.h:59-61 | the writing loop prints the blocks' lines in order |
| KeySort.SplitLines | sort-k-t-Mr3zee/src/sort.h:55-57 | the reading loop splits each input line, in order |
| KeySort.SplitAll | sort-k-t-Mr3zee/src/sort.h:55-57 | one block per line |
| KeySort.SplitAllFits | sort-k-t-Mr3zee/src/sort.h:55-57 | each block is its line's split, with a key within the line |
| KeySort.SplitAllOrigins | sort-k-t-Mr3zee/src/sort.h:55-57 | the blocks' lines are the input lines |
| KeySort.SortedKeys | sort-k-t-Mr3zee/src/sort.h:58-61 | in the sorted blocks no later line's key sorts before an earlier one's |
| RandomizedQueues.Identity | randomized-queue-Mr3zee/src/randomized_queue.cpp:15-18 | the loop's vector 0, 1, ..., size-1 |
| RandomizedQueues.GenerateIndex | randomized-queue-Mr3zee/src/randomized_queue.cpp:8-12 | `uniform_int_distribution(0, n-1)` gives an index in [0, n-1] |
| RandomizedQueues.PickConcat | randomized-queue-Mr3zee/src/randomized_queue.h:27-29 | reading at the offsets a + b reads at a, then at b |
| RandomizedQueues.DropAt | randomized-queue-Mr3zee/src/randomized_queue.h:19 | dropping one offset drops one copy of it |
| RandomizedQueues.PickDrop | randomized-queue-Mr3zee/src/randomized_queue.h:27-29 | reading without one offset reads that element fewer |
| RandomizedQueues.PickRearranged | randomized-queue-Mr3zee/src/randomized_queue.h:27-29 | reading in a rearranged order of offsets reads the same elements |
| RandomizedQueues.PickPermutation | randomized-queue-Mr3zee/src/randomized_queue.h:27-29 | reading at a permutation of all offsets reads each element once |
| RandomizedQueues.SwapRemoveMeaning | randomized-queue-Mr3zee/src/randomized_queue.h:146-152 | after dequeue's swap and pop, slot i holds the old last element, every other slot keeps its own, and exactly the removed element is gone |
| RandomizedQueues.RandomizedQueue.constructor | randomized-queue-Mr3zee/src/randomized_queue.h:91-94 | an empty queue |
| RandomizedQueues.RandomizedQueue.Copy | randomized-queue-Mr3zee/src/randomized_queue.h:97-100 | the copy holds the other's elements |
| RandomizedQueues.RandomizedQueue.Move | randomized-queue-Mr3zee/src/randomized_queue.h:103-106 | the elements move over and the other queue is left empty |
| RandomizedQueues.RandomizedQueue.Assign | randomized-queue-Mr3zee/src/randomized_queue.h:109-116 | after the copy assignment the queue holds the other's elements; self-assignment changes nothing |
| RandomizedQueues.RandomizedQueue.MoveAssign | randomized-queue-Mr3zee/src/randomized_queue.h:119-123 | after the move assignment the queue holds the other's elements |
| RandomizedQueues.RandomizedQueue.Size | randomized-queue-Mr3zee/src/randomized_queue.h:126-128 | size is the number of elements |
| RandomizedQueues.RandomizedQueue.Empty | randomized-queue-Mr3zee/src/randomized_queue.h:131-133 | empty holds exactly when there are no elements |
| RandomizedQueues.RandomizedQueue.Enqueue | randomized-queue-Mr3zee/src/randomized_queue.h:136-143 | enqueue appends x |
| RandomizedQueues.RandomizedQueue.Dequeue | randomized-queue-Mr3zee/src/randomized_queue.h:146-152 | dequeue returns the element at the drawn index and leaves the elements with the last moved into its slot |
| RandomizedQueues.RandomizedQueue.Sample | randomized-queue-Mr3zee/src/randomized_queue.h:155-161 | sample returns an element of the queue |
| RandomizedQueues.RandomizedQueue.Begin | randomized-queue-Mr3zee/src/randomized_queue.h:167-173 | begin() is at index 0 of a permutation of size + 1 offsets whose last is size |
| RandomizedQueues.RandomizedQueue.End | randomized-queue-Mr3zee/src/randomized_queue.h:175-181 | end() is at index size of such a permutation |
| RandomizedQueues.GenerateRandomPermutation | randomized-queue-Mr3zee/src/randomized_queue.cpp:14-21 | a permutation of 0 .. size-1 whose last entry stays size-1 |
| RandomizedQueues.Shuffle | randomized-queue-Mr3zee/src/randomized_queue.cpp:19 | `std::shuffle(begin, end - 1)` rearranges all slots but the last as `order` says |
| RandomizedQueues.QueueIterator.constructor | randomized-queue-Mr3zee/src/randomized_queue.h:22-25 | the iterator holds the storage, its own permutation of size + 1 offsets, and the index |
| RandomizedQueues.QueueIterator.Deref | randomized-queue-Mr3zee/src/randomized_queue.h:39-41 | `operator*` gives an element of the queue |
| RandomizedQueues.QueueIterator.Next | randomized-queue-Mr3zee/src/randomized_queue.h:47-50 | prefix `++` steps the size_t index forward, wrapping past SIZE_MAX |
| RandomizedQueues.QueueIterator.PostNext | randomized-queue-Mr3zee/src/randomized_queue.h:52-56 | postfix `++` returns a copy at the old index and steps forward, wrapping like prefix `++` |
| RandomizedQueues.QueueIterator.Prev | randomized-queue-Mr3zee/src/randomized_queue.h:58-61 | prefix `--` steps the size_t index back, wrapping below zero |
| RandomizedQueues.QueueIterator.PostPrev | randomized-queue-Mr3zee/src/randomized_queue.h:63-67 | postfix `--` returns a copy at the old index and steps back |
| RandomizedQueues.QueueIterator.Clone | randomized-queue-Mr3zee/src/randomized_queue.h:52-53 | the implicit copy of an iterator has the same storage, permutation and index |
| RandomizedQueues.LastFixed | randomized-queue-Mr3zee/src/randomized_queue.cpp:19 | with the last offset fixed at size, the other offsets permute 0 .. size-1 |
| RandomizedQueues.IterationVisitsEachOnce | randomized-queue-Mr3zee/src/randomized_queue.h:27-41 | an iterator from begin() equals end() exactly at index size, so the iteration shows each element once; on an empty queue begin() equals end() at once |
| Subsets.DrawnStep | randomized-queue-Mr3zee/src/subset.cpp:11-14 | one turn of the dequeue loop writes the drawn line, then what the loop writes from the rest |
| Subsets.DrawnLength | randomized-queue-Mr3zee/src/subset.cpp:11-14 | exactly min(k, number of lines) lines are written; none when k is 0 or there is no input |
| Subsets.ConsWithin | randomized-queue-Mr3zee/src/subset.cpp:11-14 | a drawn line ahead of lines drawn from the rest stays within the queue's lines |
| Subsets.DrawnWithin | randomized-queue-Mr3zee/src/subset.cpp:11-14 | every written line was read, and no line is written more often than it was read |
| Subsets.DrawnWithinStep | randomized-queue-Mr3zee/src/subset.cpp:11-14 | one turn of the dequeue loop keeps the written lines within the queue's |
| Subsets.Subset | randomized-queue-Mr3zee/src/subset.cpp:4-15 | subset writes what the dequeue loop yields: min(k, lines) lines, each read at least as often as written |

## Left out

- Diagonal moves: `swap_blank` is modelled only for the moves the solver makes, along a row or a column of the blank.
  The source's `else` branch would also run for a diagonal cell; nothing calls it that way.
- PuzzleSolver.FindPath, PuzzleSolver.RestorePath, PuzzleSolver.Solve, PuzzleSolver.Solver.constructor: each takes a `fuel` bound on the search loop (the constructor passes it on to Solve) and returns None, resp. keeps an empty path, when the bound is reached.
  This is because the search loop is not proved to terminate. A result within the bound is what the source returns.
- PuzzleSolver.FindPath: it does not claim `came_from[start] == start` at the end.
  A neighbour whose 32-bit priority wraps to 0 can overwrite that entry. The model claims only that start has an entry and that every other key is one move from its parent.
- PuzzleSolver.NewLevelIsOne: `close_list` is keyed by the whole node, priority included.
  A popped node with a non-zero priority therefore reads level 0. The source's `operator[]` default-inserts 0 for an unseen key (solver.cpp:61-62); the model reads 0 for an absent key and stores nothing, which every later read agrees with. It does not claim A*'s optimal path length.
- The solver's search order among equal priorities follows the model's `Node` order. The distribution of random boards is not modelled.
- Randomness: `get_random_generator`, `std::mt19937_64`, the seeding from the clock or `random_device`, and the generator copies made by the queue's constructors and assignments.
  Draws, shuffled orders and permutations are parameters instead. Only their range or their being a permutation is required, so no distribution is claimed.
- The `Board(unsigned size)` random constructor takes its shuffled permutation as a parameter (PuzzleBoard.Board.FromPermutation).
  `main.cpp` of the puzzle (timing and printing) is not modelled.
- PuzzleBoard.Board.FromData: it requires a valid tile grid whose n·n fits in 32 bits. The source accepts any vector of rows but its fields are meaningless otherwise.
  `create_goal` with size 0 is undefined behaviour in the source (`data[size-1]`), so PuzzleBoard.Board.CreateGoal requires n ≥ 1.
- `Board::to_string`, `operator<<` and `operator[]`, and the field getters `size()`, `hamming()`, `manhattan()`, `linear_conflict()`, `get_blank()`, `is_solvable()`: the getters are reads of the class's fields and the others produce text.
  The setter functions `set_*_field` are field assignments.
- PuzzleBoard.Board.Empty: `linear_conflict_` is left uninitialised by the default constructor and `tiles_*` are empty. The model reads the uninitialised field as 0.
  On an empty board set_fields leaves `blank_` unset; the model keeps the previous value, and (0, 0) for a fresh board.
- PairHash: the hash of `std::unordered_set<pair<int,int>>` is modelled, but the sets it stores are Dafny sets. Bucket layout and iteration order do not matter to any result.
- Integer widths:
  - board coordinates are `unsigned`/`size_t` within bounds;
  - `int` positions of the inverted index are unbounded, since a document longer than 2^31 words is out of scope;
  - `int new_level` of the solver is unbounded.
- KeySort.SortBlocks: `std::sort` is modelled by insertion sort. The order of lines with equal keys is not pinned, because `std::sort` is not stable.
- KeySort.Split: `key_field2 - key_field1` is computed exactly and then reduced mod 2^64 by AsSize. A long long subtraction that overflows, undefined behaviour in C++, is given that value. With key_field2 below key_field1 (and not -1) the count is a huge size_t; SplitMeaning says nothing about that case beyond Split's own ensures (the key lies within the line).
- KeySort.Key: `std::string::compare` throws `out_of_range` when `fsi` is past the end. Every block `split` builds has `fsi <= size`, so the model requires it.
- Characters are compared by their code, as `char_traits<char>` does for ASCII. A `char` sign is not modelled; bytes above 127 are ordered by their code point.
- Output lines are the sequence of printed strings, without the trailing `'\n'`.
- `main.cpp` of sort (argument parsing with `strtoul`) is not modelled; Parameters are given directly.
- SearchText.IsSeparator: `std::isspace` / `std::ispunct` are modelled for the "C" locale. A non-ASCII character is neither.
- InvertedIndex.DocIterator.Deref, InvertedIndex.DocIterator.Next, InvertedIndex.DocIterator.Prev: each requires the position to be dereferenceable, resp. incrementable or decrementable, where the source has undefined behaviour.
- Iterator invalidation and iterators in general: the queue's iterators keep a reference to the queue, so a change of the queue is seen through them.
  `const_iterator` and `iterator` are the same class; `operator->` is `Deref`.
- RandomizedQueues.RandomizedQueue.MoveAssign: it requires `other != this`. It does not say what a moved-from queue holds, since the source leaves it valid but unspecified; the model keeps its elements.
- RandomizedQueues.GenerateIndex: the `size_t` → `int` narrowing of `elements.size()` is not modelled (queues of 2^31 elements or more are out of scope).
- RandomizedQueues.RandomizedQueue.Sample: the non-const overload returns a mutable reference. The model returns the value, since no caller writes through it.
- RandomizedQueues.RandomizedQueue.Dequeue: `std::move` of the element is a copy of the value in the model.
- Subsets.Subset: reading the input stream and writing `out` are the input and output sequences.
- LinearConflict.ColumnCheckStep: it describes the intended column test on `.second` tags, not the code as written; the board uses the pass as written (see Findings).
- PuzzleBoard.Board.CheckLcColumn: the intended column test, which the construction does not call (see Findings).
- SearchIndex.Index.RecordingInsert: the intended insert, which the searcher does not call; Index.Insert is the code as written (see Findings).
- InvertedIndex.ReplacedMeaning, InvertedIndex.ReplacingForgetsOldWords: they describe add_document with the intended recording insert, not the code as written; AsWrittenAddMeaning and AsWrittenKeepsStalePostings describe the code (see Findings).

## Findings

| source | as written | input that shows it | evidently intended | confidence | as-written member | corrected member |
|---|---|---|---|---|---|---|
| 8-puzzle-Mr3zee/src/board.cpp:166,172-181 | The column pass `check_lc(i, j, x, x)` compares `tiles_goals[i][x].first` with `tiles_goals[j][x].first` (goal columns) and calls `insert_row(i, x)` on cell (i, x) and `insert_row(j, x)` on cell (j, x): each clashing tile is linked to itself in its own `in_row`, the two tiles are never linked to each other, and `in_column` stays empty. It counts two tiles of one column that are each in their goal row, even when neither is in its goal column. | The 3-by-3 board `[[3,7,8],[4,5,6],[2,1,0]]` has no linear conflict, yet setup_linear_conflict counts 1 (weight 2): tiles 3 and 4 share column 0 with goal columns 2 and 0, and cells (0, 0) and (1, 0) each hold themselves in `in_row`. | Compare the goal rows (`.second`) of tiles in their goal column and link the two with `insert_column`, as swap_blank's column updates (lines 259-275) do. The board model keeps the code as written. | not executed | LinearConflict.AsWrittenCountsPhantomConflict, LinearConflict.PhantomSelfLinks | LinearConflict.ConflictCountZero, PuzzleBoard.Board.CheckLcColumn |
| inverted-index-Mr3zee/src/searcher.cpp:14-16,51-52 | `Index::insert` never adds the file to `files`, so `contains_file` is always false and `add_document` never removes a file's earlier postings. | Index file f with the text `x`, then again with `y`: a search for `x` still finds f. | insert records the file, so re-adding a document replaces it. The searcher model keeps the code as written. | not executed | InvertedIndex.AsWrittenKeepsStalePostings, InvertedIndex.AsWrittenAddMeaning | SearchIndex.Index.RecordingInsert, InvertedIndex.ReplacedMeaning |

