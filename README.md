# Jewel Quest board engine in Dafny

This project models the board engine of the Jewel Quest match-3 game and
proves properties of it. It also models the small state machines that keep
the books around the board.

A jewel is a record: kind, points, logical cell (x, y), a selected flag and
an abstract "animating" flag. A cell holds a jewel or nothing, and the board
is a sequence of rows indexed `grid[y][x]`, as in the game. The modules
follow the program:

- `Jewels` covers the jewel record, `move_to`, the destroy animation start
  and the jewel factory. It models `game/models/jewel.py` and
  `game/models/jewel_factory.py`.
- `Grids` holds the board shape, `get_jewel_at` and `swap_jewels`.
- `GridStore` holds the causal, triple-avoiding `fill_board`, the gravity
  `collapse_columns` with its queue of empty rows, and `refill_board`.
- `Matching` holds the greedy run-length `find_matches` (rows, then columns)
  and `has_possible_moves`.
- `LocalCheck` holds the forked board's local swap test, which looks only
  at the runs through the two swapped cells. It also compares that test
  with the main board's `find_matches`-based test.
- `Removal` holds `remove_matches`: the union of matched cells, counted
  once each, the points, the per-kind histogram and the destroyed jewels.
  It also holds the forked board's neighbour shake.
- `Rules` holds the main board's tentative swap test and the selection
  flag.
- `MainBoard` holds the classes `GridManager` and `Board` of
  `game/models/board.py`. `ForkBoard` holds the class `Board` of
  `game/models/board_.py`.
- `Reshuffle` holds the shuffle and row-major layout of `reshuffle_board`.
- `Levels` holds `LevelManager`: the time-left clamp, level completion, the
  preset layout and the bounded `fix_initial_matches` repair loop.
- `Playing` holds `PlayingState`: setup, deadlock reshuffle, the
  time/score/cascade steps of `update`, and the click-to-cell mapping.
- `Stats` holds `JewelStats`; `HighScores` holds the top-ten table of
  `game/game.py`; `NameInput` holds the name-entry buffer and the choice of
  the next screen.

Grid algorithms are value-level methods with loops that follow the source
loops, each proved against a specification function. Each class holds the
state the source mutates and calls those methods. Randomness
(`random.choice`, `random.randint`, `random.shuffle`) is an arbitrary choice
among the candidates the source offers. The clock, the elapsed seconds, the
high-score file contents and the board's `is_moving` flag are parameters.

## Model

| member | source | states |
|---|---|---|
| Jewels.JewelFactory.CreateJewel | game/models/jewel_factory.py:9-12 | fails with InvalidType(kind) exactly when the kind is outside [0, type count); otherwise returns an unselected, still jewel of that kind at (x, y) whose points come from that kind's configuration entry |
| Jewels.CreateRandomJewel | game/models/jewel_factory.py:14-15 | fails exactly when no kind is configured; otherwise the kind picked lies in [0, type count) and the jewel is the one create_jewel builds for it |
| Grids.JewelAt | game/models/board.py:50-53 | no jewel for any coordinate outside the board; the stored cell inside it |
| Grids.RawSwap | game/models/board.py:155-164 | the in-place swap of has_possible_moves exchanges exactly the two cells and leaves every other cell alone |
| Grids.RawSwapTwice | game/models/board.py:155-164 | the revert after a tentative swap restores the grid exactly |
| Grids.SwapJewels | game/models/board.py:55-67 | no change when either cell is empty; otherwise the two occupants trade cells, each learns its new cell as x, y, every other cell is untouched, and jewels stay placed at their own cells |
| Grids.SwapJewelsTwice | game/models/board.py:55-67 | swapping the same two cells twice restores the arrangement |
| GridStore.PairKind | game/models/board.py:26-44 | a neighbour pair agrees on a kind exactly when both cells hold jewels of that kind |
| GridStore.CandidateExists | game/models/board.py:22-46 | with at least three kinds, or one kind without avoidance, a candidate kind survives the removal of the left pair's and the upper pair's kind |
| GridStore.NewCellEndsNoTriple | game/models/board.py:24-48 | with avoidance, a cell filled with a surviving candidate completes no three-in-a-row with its two left or its two upper neighbours |
| GridStore.PlaceExtends | game/models/board.py:46-48 | placing a fresh allowed jewel at the cursor keeps every earlier cell in row-major order filled and triple-free |
| GridStore.SameBefore | game/models/board.py:47-48 | writing the cursor cell changes neither an earlier cell nor whether an earlier cell ends a triple |
| GridStore.FillGrid | game/models/board.py:18-48 | succeeds with at least three kinds, or one kind without avoidance; then every cell holds a new catalogue jewel for that cell, the board is full, and with avoidance no cell ends a triple to its left or above |
| GridStore.NoEndingTripleNoMatches | game/models/board.py:18-48 | a board on which no cell ends a horizontal or vertical triple has no match, so find_matches is empty right after an avoiding fill |
| GridStore.CollapseColumn | game/models/board.py:71-81 | the bottom-up pass with the empty_spaces queue computes exactly the gravity collapse of the column |
| GridStore.CollapseRow | game/models/board.py:73-81 | one row step keeps every scanned row settled, leaves the unscanned rows alone, and keeps the queue equal to the free rows above the packed jewels, lowest first |
| GridStore.CollapsedRows | game/models/board.py:69-81 | after a collapse the top rows are empty and the rest hold the column's jewels in their original order |
| GridStore.CollapsePacksInOrder | game/models/board.py:69-81 | a collapse keeps the same jewels in the same bottom-to-top order, packed at the bottom with every empty cell above them |
| GridStore.CollapseKeepsPlaced | game/models/board.py:78-80 | each moved jewel's x, y equals its new cell, and no jewel changes column |
| GridStore.CollapsedTopEmpty | game/models/board.py:69-81 | a column with any empty cell has an empty top cell after the collapse |
| GridStore.CollapsedGridPlaced | game/models/board.py:69-81 | collapsing every column keeps every jewel placed at its own cell |
| GridStore.CollapseColumns | game/models/board.py:69-81 | every column of the new grid is the collapse of the old column |
| GridStore.RefillGrid | game/models/board.py:83-98 | succeeds whenever a kind exists or nothing is empty; occupied cells are never replaced, each empty cell gets a new jewel falling into it, and the board ends full |
| Matching.RunFrom | game/models/board.py:116-118 | the counted run stays inside the line, every cell in it holds the kind, and the cell after it does not |
| Matching.ScanAt | game/models/board.py:113-124 | one cursor step reports and skips a run of at least three, or advances by one |
| Matching.RunAtOk | game/models/board.py:120-121 | a run reported at the cursor is in bounds, at least three long and of one kind |
| Matching.RunsOkCons | game/models/board.py:120-123 | a reported run followed by the runs found after it forms an ordered, non-overlapping list |
| Matching.RunsFromOk | game/models/board.py:111-124 | runs that each start after the previous one ends form an ordered, non-overlapping list of valid matches |
| Matching.ScanRuns | game/models/board.py:111-124 | each run the scan reports from a cursor is a valid match starting at or after the cursor, and each later run starts after the previous one ends |
| Matching.ScanSound | game/models/board.py:111-124 | every run of a line scan is a valid match and the runs are increasing and disjoint |
| Matching.ScanEmptyIff | game/models/board.py:111-124 | a line scan reports nothing iff no three consecutive cells from the cursor hold the same kind |
| Matching.Column | game/models/board.py:127-133 | the column read by the vertical pass has the board height and holds the cells of that column |
| Matching.HPassEmptyIff | game/models/board.py:111-124 | the row pass finds nothing iff no row holds a horizontal triple |
| Matching.VPassEmptyIff | game/models/board.py:127-140 | the column pass finds nothing iff no column holds a vertical triple |
| Matching.MatchesEmptyIff | game/models/board.py:105-142 | find_matches is empty iff the board holds no horizontal or vertical triple anywhere |
| Matching.RowMatchesSound | game/models/board.py:111-124 | the matches of one row are horizontal, in that row, and ordered without overlap |
| Matching.ColumnMatchesSound | game/models/board.py:127-140 | the matches of one column are vertical, in that column, and ordered without overlap |
| Matching.HPassSound | game/models/board.py:111-124 | the row pass yields horizontal matches, ordered by row and then position, not overlapping within a row |
| Matching.VPassSound | game/models/board.py:127-140 | the column pass yields vertical matches, ordered by column and then position, not overlapping within a column |
| Matching.MatchesWellFormed | game/models/board.py:105-142 | every match has at least three contiguous cells in one row or one column, all occupied by one kind |
| Matching.MatchesOrdered | game/models/board.py:105-142 | all horizontal matches precede all vertical ones, and matches in the same row or column do not overlap |
| Matching.RunFromSameKinds | game/models/board.py:116-118 | run lengths depend only on the kinds in the line |
| Matching.ScanSameKinds | game/models/board.py:111-124 | a line scan depends only on the kinds in the line |
| Matching.ScanSameKindsAt | game/models/board.py:113-124 | a scan step at an occupied cursor depends only on the kinds in the line |
| Matching.HPassSameKinds | game/models/board.py:111-124 | the row pass depends only on the kinds on the board |
| Matching.VPassSameKinds | game/models/board.py:127-140 | the column pass depends only on the kinds on the board |
| Matching.MatchesSameKinds | game/models/board.py:105-142 | find_matches depends only on the kinds on the board, not on coordinates, selection or animation |
| Matching.ScanLine | game/models/board.py:112-124 | the cursor loop over one line reports exactly the runs of the scan specification |
| Matching.RunLength | game/models/board.py:116-118 | the inner while loop measures the run of the cursor's kind starting at the cursor |
| Matching.FindMatches | game/models/board.py:105-142 | the two-pass scan returns exactly the match list of the specification |
| Matching.TrySwap | game/models/board.py:155-164 | a tentative swap reports whether the swapped board has a match and gives back the grid unchanged |
| Matching.TryDirections | game/models/board.py:151-164 | the direction loop finds a match-making neighbour swap of a cell iff one exists, and restores the grid |
| Matching.HasPossibleMoves | game/models/board.py:144-165 | true iff some orthogonal neighbour swap makes find_matches non-empty; the grid is exactly as it was |
| LocalCheck.RunBefore | game/models/board_.py:74-77 | the left or up cursor stops at the first cell before the run that does not hold the kind, or at the edge |
| LocalCheck.RunBeforeAtLeast | game/models/board_.py:74-77 | a stretch of the kind just before a cell is counted by the backward cursor |
| LocalCheck.RunFromAtLeast | game/models/board_.py:80-83 | a stretch of the kind just after a cell is counted by the forward cursor |
| LocalCheck.InLongRunIff | game/models/board_.py:68-111 | a cell lies in a same-kind run of at least three iff some triple of consecutive equal cells covers it |
| LocalCheck.RunExtent | game/models/board_.py:74-83 | the two cursor loops find the extent of the run through the cell |
| LocalCheck.LongRunAt | game/models/board_.py:70-88 | the run test of one cell is true iff the cell is occupied and its run has at least three cells |
| LocalCheck.RowTests | game/models/board_.py:68-88 | the row half is true iff one of the swapped cells lies in a horizontal run of at least three |
| LocalCheck.ColumnTests | game/models/board_.py:91-111 | the column half is true iff one of the swapped cells lies in a vertical run of at least three |
| LocalCheck.ForkIsValidSwap | game/models/board_.py:58-116 | false when either cell is empty; otherwise true iff after the swap one of the two cells lies in a horizontal or vertical run of at least three; the grid is restored |
| LocalCheck.RunBeforeSameKinds | game/models/board_.py:74-77 | the backward cursor depends only on the kinds in the line |
| LocalCheck.InLongRunSameKinds | game/models/board_.py:68-111 | the long-run test depends only on the kinds in the line |
| LocalCheck.LocalValidSameKinds | game/models/board_.py:58-116 | the forked swap test depends only on the kinds on the board |
| LocalCheck.LocalImpliesGlobal | game/models/board_.py:58-116 | a swap the forked board accepts is also accepted by the main board's find_matches-based test |
| LocalCheck.HTripleUntouched | game/models/board_.py:58-116 | a horizontal triple after a swap that covers neither swapped cell was already there before |
| LocalCheck.VTripleUntouched | game/models/board_.py:58-116 | a vertical triple after a swap that covers neither swapped cell was already there before |
| LocalCheck.LocalAgreesOnStableBoard | game/models/board_.py:58-116 | on a board without matches the local and global swap tests agree in both directions |
| LocalCheck.LocalDiffersWhenTripleRemains | game/models/board_.py:58-116 | on a board that already holds a triple elsewhere, the main test accepts a swap that the fork's local test rejects |
| Removal.Flatten | game/models/board.py:197-198 | a position is visited iff it belongs to some match |
| Removal.Dedup | game/models/board.py:199-200 | the removal set keeps each matched position exactly once and no other |
| Removal.SumValuesRemove | game/models/board.py:202 | the histogram total splits into one kind's count plus the rest |
| Removal.IncTotal | game/models/board.py:202 | counting one more jewel raises the histogram total by exactly one |
| Removal.HistTotal | game/models/board.py:197-202 | the histogram counts sum to the number of distinct cells, its keys are exactly the kinds removed, and each count is positive |
| Removal.SumPointsAppend | game/models/board.py:204-207 | the points of two batches of cells add up |
| Removal.RemoveAt | game/models/board.py:204 | dropping one element of a duplicate-free list keeps it duplicate-free and removes exactly that element |
| Removal.SumPointsWithout | game/models/board.py:204-207 | the points total splits into one cell's points plus those of the rest |
| Removal.SameMembersWithout | game/models/board.py:204 | two orderings of the same cell set stay orderings of one set when the same cell is dropped from both |
| Removal.SumPointsOrderFree | game/models/board.py:204-207 | the points total does not depend on the order in which the set is iterated |
| Removal.SeeCell | game/models/board.py:199-202 | visiting a cell adds it and counts its kind only the first time |
| Removal.FlattenStep | game/models/board.py:197-198 | visiting one more match extends the visited cells by that match |
| Removal.CollectMatch | game/models/board.py:198-202 | after one match the removal set is every cell seen so far, and the histogram counts each distinct one once |
| Removal.CollectMatched | game/models/board.py:197-202 | the removal set is exactly the matched cells, and the histogram counts each distinct matched cell once by kind |
| Removal.ClearStep | game/models/board.py:204-208 | removing one more cell adds its points and its destroyed jewel, and the removal order stays duplicate-free |
| Removal.ClearCells | game/models/board.py:203-208 | exactly the cells of the set become empty; points are the sum of their jewels' points; removed lists each such jewel once, with its destroy animation started |
| Removal.RemoveMatches | game/models/board.py:190-210 | exactly the matched cells become empty; points sum the distinct matched jewels' points; the histogram counts each distinct matched cell once by kind |
| Removal.ShakeAround | game/models/board_.py:249-255 | the neighbours of one removed cell that are shaken are exactly the occupied, adjacent cells outside the removal set |
| Removal.ShakeNeighbours | game/models/board_.py:248-255 | a cell shakes iff it is occupied, not removed, and orthogonally adjacent to some removed cell |
| Rules.Touch | game/models/jewel.py:137-146 | a move_to to a jewel's own cell changes only its animation flag |
| Rules.TouchBoth | game/models/board.py:180-186 | the tentative swap and its revert leave the arrangement and the kinds as they were |
| Rules.SwapTwiceTouches | game/models/board.py:180-186 | swapping two occupied cells twice yields the original board with both jewels animating |
| Rules.SwapKindsLikeRaw | game/models/board.py:180-183 | the kinds after swap_jewels are those after a raw exchange, so the test reads the swapped board |
| Rules.IsValidSwap | game/models/board.py:174-188 | false when either cell is empty; otherwise true iff find_matches is non-empty after the swap; the arrangement is exactly as before |
| Rules.GlobalValidSameKinds | game/models/board.py:174-188 | the main swap test depends only on the kinds on the board |
| Rules.Mark | game/models/board.py:303-337 | setting a jewel's selected flag touches only that cell, changes no kind, and does nothing on an empty cell |
| Rules.SwapAfterTouch | game/models/board.py:310-314 | the validity test before the swap has no effect on the committed swap |
| Rules.MarkTouchCommute | game/models/board.py:310-321 | clearing the selected flag and the tentative swap can be done in either order |
| MainBoard.EmptyGrid | game/models/board.py:16 | a new grid has the board's shape with every cell empty |
| MainBoard.GridManager.constructor | game/models/board.py:12-16 | a grid manager starts with an empty board of the given size |
| MainBoard.GridManager.FillBoard | game/models/board.py:18-48 | every cell gets a new catalogue jewel for its cell, the board is full, and with avoidance there is no match |
| MainBoard.GridManager.SwapJewels | game/models/board.py:55-67 | returns whether both cells were occupied, and the grid becomes their swap |
| MainBoard.GridManager.CollapseColumns | game/models/board.py:69-81 | each column becomes its gravity collapse |
| MainBoard.GridManager.RefillBoard | game/models/board.py:83-98 | the board becomes full, occupied cells are kept, and each empty cell gets a new falling jewel |
| MainBoard.Board.constructor | game/models/board.py:241-257 | a new board is full and match-free, with nothing selected and no pending animation |
| MainBoard.Board.FillBoard | game/models/board.py:261-262 | delegates to the grid manager's fill with the same guarantees |
| MainBoard.Board.FindMatches | game/models/board.py:346-347 | returns the board's match list; every match is horizontal or vertical |
| MainBoard.Board.RefillBoard | game/models/board.py:359-360 | delegates to the grid manager's refill with the same guarantees |
| MainBoard.Board.IsValidSwap | game/models/board.py:267-268 | the main swap test; the board keeps its arrangement, and the two jewels are left animating when both cells were occupied |
| MainBoard.Board.SwapJewels | game/models/board.py:270-291 | commits the swap iff the swap test holds; otherwise the arrangement is unchanged |
| MainBoard.Board.SelectJewel | game/models/board.py:293-339 | the grid, the selection and both results are those of `SelectOutcome`: an empty target gives (false, none) and no change; a first click selects; the same cell deselects; a non-adjacent cell moves the selection; an adjacent valid swap commits and clears the selection; an adjacent invalid swap clears it and returns the old cell |
| MainBoard.Board.DeselectJewel | game/models/board.py:341-344 | nothing remains selected and the selected jewel's flag is cleared |
| MainBoard.Board.RemoveMatches | game/models/board.py:349-352 | exactly the matched cells become empty; the points and histogram count each distinct matched cell once; the removed jewels are appended to the animations |
| ForkBoard.Board.constructor | game/models/board_.py:10-20 | a new forked board is full and match-free, with nothing selected and no pending animation |
| ForkBoard.Board.FillBoard | game/models/board_.py:21-51 | every cell gets a new catalogue jewel for its cell, the board is full, and with avoidance there is no match |
| ForkBoard.Board.IsValidSwap | game/models/board_.py:58-116 | the local run test through the two swapped cells; the grid is restored |
| ForkBoard.Board.SwapJewels | game/models/board_.py:118-139 | commits the swap iff the local test holds; otherwise returns false and the grid is unchanged |
| ForkBoard.Board.SelectJewel | game/models/board_.py:142-185 | the same click state machine as the main board, judged by the local test |
| ForkBoard.Board.DeselectJewel | game/models/board_.py:187-190 | nothing remains selected and the selected jewel's flag is cleared |
| ForkBoard.Board.FindMatches | game/models/board_.py:192-231 | the same match list as the main board's find_matches |
| ForkBoard.Board.RemoveMatches | game/models/board_.py:233-264 | the same emptied cells, points and histogram as the main version; removed jewels are appended to the animations; exactly the occupied, unremoved neighbours of removed cells shake |
| ForkBoard.Board.CollapseColumns | game/models/board_.py:266-277 | each column becomes its gravity collapse |
| ForkBoard.Board.RefillBoard | game/models/board_.py:279-287 | fills exactly the empty cells and keeps the occupied ones |
| Reshuffle.OccupantsBound | game/states/playing_state.py:182 | a board holds at most width times height jewels, so the layout never runs out of cells |
| Reshuffle.PlainWithout | game/states/playing_state.py:183 | taking one jewel out of the list takes its identity out of the multiset |
| Reshuffle.MultisetWithout | game/states/playing_state.py:183 | taking one element out of a list takes it out of its multiset |
| Reshuffle.PlainPerm | game/states/playing_state.py:183 | a shuffled list holds the same jewels up to their cells |
| Reshuffle.PlainAppend | game/states/playing_state.py:186-191 | identities of a concatenation are the concatenated identities |
| Reshuffle.RowJewelsSnoc | game/states/playing_state.py:186-193 | extending a row by a cell extends its jewels by that cell's jewel |
| Reshuffle.CellStep | game/states/playing_state.py:188-193 | filling one more cell consumes the next jewel from the list, or none when the list is exhausted |
| Reshuffle.LayOutRow | game/states/playing_state.py:187-193 | a row takes the next jewels in order, each moved to its cell, and empty cells after the list runs out |
| Reshuffle.RowsStep | game/states/playing_state.py:186-193 | laying one more row extends the laid-out jewels by that row's jewels |
| Reshuffle.LayOut | game/states/playing_state.py:185-193 | the jewels are laid out in row-major order from the top-left, each knowing its new cell, and the rest of the board is empty |
| Reshuffle.ShuffleGrid | game/states/playing_state.py:182-193 | the board keeps exactly its jewels up to their cells, packed into the first cells in row-major order, each placed and animating |
| Levels.TimeLeft | game/states/playing_state.py:34-35 | never negative; positive exactly while the elapsed seconds are below the limit, and then the seconds remaining |
| Levels.TimeLeftMonotone | game/states/playing_state.py:31-36 | time left never grows as time passes |
| Levels.ApplyLayout | game/states/playing_state.py:48-53 | exactly the cells inside the layout whose kind is in range get a new jewel of that kind; every other cell is untouched |
| Levels.MatchCellsOccupied | game/states/playing_state.py:64-66 | every matched cell holds a jewel, so its kind can be read |
| Levels.MatchCellOccupied | game/states/playing_state.py:65-66 | each cell of a horizontal or vertical match holds a jewel |
| Levels.RetypeCell | game/states/playing_state.py:66-69 | the cell gets a new jewel of a kind different from the one it held; no other cell changes |
| Levels.RetypedStep | game/states/playing_state.py:65-69 | retyping one more cell extends the record of retyped cells |
| Levels.RetypeCells | game/states/playing_state.py:65-69 | retyping the cells of one match keeps every earlier retype recorded |
| Levels.RetypePass | game/states/playing_state.py:64-69 | every matched cell holds a new jewel, unmatched cells are untouched, and a cell in only one match changes kind |
| Levels.FixMatches | game/states/playing_state.py:57-75 | at most 100 passes; no match remains unless all passes were used; a match-free board is left alone; occupancy is unchanged and each changed cell holds a new jewel |
| Levels.LevelManager.constructor | game/states/playing_state.py:21-29 | time left starts at the level's time limit in time attack and at 0 otherwise, and the target is the level's |
| Levels.LevelManager.UpdateTime | game/states/playing_state.py:31-36 | in time attack, time left is the clamp and the result says whether time remains; in other modes nothing changes and the result is true |
| Levels.LevelManager.CheckLevelComplete | game/states/playing_state.py:38-41 | true iff the mode is score challenge and the score reaches the target |
| Levels.LevelManager.CompleteStays | game/states/playing_state.py:38-41 | once complete, a higher score stays complete |
| Levels.LevelManager.FixInitialMatches | game/states/playing_state.py:57-75 | with no warning the board ends match-free; a match-free board is left alone; occupancy is unchanged and each changed cell holds a new jewel |
| Levels.LevelManager.LoadBoardConfig | game/states/playing_state.py:43-55 | no preset layout leaves the board alone; otherwise the layout is applied and repaired; a full board stays full |
| Stats.ZeroCounts | game/models/jewel_stats.py:14 | one counter per configured jewel id, each at zero |
| Stats.Bump | game/models/jewel_stats.py:18-20 | a known id goes up by exactly one, every other count is unchanged, unknown ids are ignored, and the key set never changes |
| Stats.BumpCommutes | game/models/jewel_stats.py:18-20 | the order in which jewels are counted does not matter |
| Stats.BumpTimesAdds | game/states/playing_state.py:235-236 | counting a kind n times adds n to a known id and changes nothing else |
| Stats.JewelStats.constructor | game/models/jewel_stats.py:8-14 | counters start at zero for every configured id |
| Stats.JewelStats.AddJewel | game/models/jewel_stats.py:18-20 | the counters become the bumped counters |
| Stats.JewelStats.Reset | game/models/jewel_stats.py:22-23 | every counter is back at zero over the configured ids |
| HighScores.InsertPerm | game/game.py:87 | an insertion step keeps the same records plus the new one |
| HighScores.SortDescPerm | game/game.py:87 | sorting permutes the records |
| HighScores.InsertSorted | game/game.py:87 | inserting into a descending table keeps it descending |
| HighScores.SortDescSorted | game/game.py:87 | the sorted table is descending by points |
| HighScores.CountAboveInsert | game/game.py:87 | inserting a record raises the count above a score by one exactly when the record is above it |
| HighScores.CountAboveSort | game/game.py:87 | sorting does not change how many records lie above a score |
| HighScores.CountAboveNone | game/game.py:87 | no record above a score gives a zero count |
| HighScores.AboveIsPrefix | game/game.py:87 | in a descending table the records above a score form a prefix |
| HighScores.InsertAt | game/game.py:85-87 | the stable sort puts a record after all records strictly above it and before those equal or below |
| HighScores.RecordSlot | game/game.py:85-87 | after insertion at the front and the stable descending sort, the new record sits right after the records strictly above it |
| HighScores.PrefixKeeps | game/game.py:88 | truncating keeps a sub-multiset and keeps the order |
| HighScores.SavedTable | game/game.py:77-88 | the saved table is descending and holds min(n+1, 10) records from the old ones plus the new one; the new record is kept, at its rank, iff fewer than 10 records lie strictly above it |
| HighScores.HighScoreGoesFirst | game/game.py:60-88 | a score is_high_score accepts heads the saved table |
| HighScores.Game.CheckHighScore | game/game.py:50-69 | true iff the loaded table is empty or the score strictly exceeds its first entry; an equal score is not a high score |
| HighScores.Game.SaveHighScore | game/game.py:71-90 | nothing happens outside time attack; otherwise the table becomes the saved table |
| NameInput.EditKeepsGood | game/states/name_input_state.py:57-60 | the name stays at most 10 ASCII letters and digits after any key |
| NameInput.BackspaceDropsLast | game/states/name_input_state.py:57-58 | backspace removes exactly the last character and an empty name stays empty |
| NameInput.EditGrowsOnlyByAlnum | game/states/name_input_state.py:59-60 | the name grows only by appending the typed character when it is an ASCII letter or digit, and only below 10 characters |
| NameInput.EditAllKeepsGood | game/states/name_input_state.py:26-60 | any sequence of events keeps the name at most 10 ASCII letters and digits |
| NameInput.NameInputState.constructor | game/states/name_input_state.py:14-24 | the name starts empty and no next screen is chosen |
| NameInput.NameInputState.Onward | game/states/name_input_state.py:38-56 | the next screen is the next level while levels remain, otherwise the menu |
| NameInput.NameInputState.HandleEvent | game/states/name_input_state.py:28-60 | Enter with a non-empty name saves the score once (in time attack) and moves on; Enter with an empty name does nothing; Escape moves on without saving; other keys edit the name |
| NameInput.NameInputState.HandleEvents | game/states/name_input_state.py:26-60 | the name, the high-score table and the next screen after a batch are the events applied in order (`EditAll`, `ScoresAfter`, `NextAfter`); the loop goes on after a screen switch |
| NameInput.NextAfterIff | game/states/name_input_state.py:26-56 | the batch switches the screen onward if and only if some event leaves, given the edits before it; otherwise the next screen stays as it was |
| NameInput.ScoresKeptOutsideTimeAttack | game/states/name_input_state.py:29-36 | outside time attack no batch changes the high-score table |
| NameInput.ScoresKeptWithoutConfirm | game/states/name_input_state.py:29-36 | a batch with no Enter on a non-empty name leaves the table unchanged |
| NameInput.DoubleEnterSavesTwice | game/states/name_input_state.py:26-36 | two Enter presses in one batch save the record twice, because the loop keeps going after the screen switch |
| Playing.CellAt | game/states/playing_state.py:304-305 | the clicked pixel lies inside the returned cell's square, so the cell is the floor division of the offset |
| Playing.CellAtOnBoard | game/states/playing_state.py:304-307 | the cell is on the board iff the pixel lies inside the board's square |
| Playing.Matched | game/states/playing_state.py:230-232 | the distinct matched cells, each occupied and listed once |
| Playing.HistCountsPositive | game/states/playing_state.py:234-236 | every histogram count is at least one |
| Playing.SettleLeavesGap | game/states/playing_state.py:232-237 | a cleared cell leaves its column's top cell empty after gravity |
| Playing.ClearedIs | game/states/playing_state.py:232 | a board emptied at exactly the matched cells is the cleared board |
| Playing.SettledIs | game/states/playing_state.py:237 | a board whose columns are the collapses is the settled board |
| Playing.ClearedHasGap | game/states/playing_state.py:230-232 | clearing a board with matches leaves an empty cell |
| Playing.SetUpBoard | game/states/playing_state.py:171-178 | the board is 8 by 8 and full and nothing is selected; the final repair leaves no match unless it warned, and without a preset layout it does not warn |
| Playing.PlayingState.constructor | game/states/playing_state.py:145-178 | a fresh state with zero counters, no flags raised, the start time recorded and a full board; no match is left unless the set-up warned, and without a preset layout it does not warn |
| Playing.PlayingState.ReshuffleBoard | game/states/playing_state.py:180-196 | the board becomes the reshuffle if it has a move, otherwise a freshly filled match-free board |
| Playing.PlayingState.NoMovesTick | game/states/playing_state.py:204-209 | the first stuck tick raises the flag, records the time and reshuffles; later ticks keep the board and lower the flag after 2 seconds |
| Playing.PlayingState.CheckDeadlock | game/states/playing_state.py:203-209 | acts exactly when no move exists; then a stuck tick as above; otherwise nothing changes |
| Playing.PlayingState.CheckTime | game/states/playing_state.py:212-219 | time left is the clamp; the game is over once time is up, and a high score then asks for a name |
| Playing.PlayingState.CheckScore | game/states/playing_state.py:222-224 | the level is complete and the goal achieved once the level's completion test holds |
| Playing.PlayingState.CollectStats | game/states/playing_state.py:234-236 | each kind's counter grows by its histogram count |
| Playing.CreditStep | game/states/playing_state.py:234-236 | crediting one more kind of the histogram bumps its counter count times |
| Playing.PlayingState.ClearBoard | game/states/playing_state.py:232 | the matched cells are emptied; points and histogram cover the distinct matched cells |
| Playing.PlayingState.ClearMatches | game/states/playing_state.py:232-236 | the board is cleared, the score rises by the matched points, and each kind's counter by its histogram count |
| Playing.PlayingState.Tally | game/states/playing_state.py:233-236 | the score rises by exactly the points and each kind's counter by its histogram count; the game flags are untouched |
| Playing.PlayingState.DropAndRefill | game/states/playing_state.py:237-238 | the board is the settled board, with new falling jewels in the cells left empty; if any cell was empty, some jewel is animating |
| Playing.PlayingState.RunCascade | game/states/playing_state.py:230-241 | one cascade round scores the matched points, credits the counters and leaves the cleared, settled and refilled board; the follow-up test on line 240 is unreachable |
| Playing.PlayingState.Cascade | game/states/playing_state.py:229-241 | nothing happens while the board moves or has no match; otherwise one cascade round |
| Playing.PlayingState.Update | game/states/playing_state.py:198-241 | nothing changes once the level is decided; outside time attack the game never ends by time |
| Playing.RejectedIff | game/models/board.py:305-325 | a click is rejected exactly when it asks for a swap of the selection with an adjacent jewel that makes no match, and the reported cell is the selection |
| Playing.SetUpParts | game/states/playing_state.py:159-178 | the level manager is for the chosen level, the counters are zero, and the board is full and without a match unless the final repair warned |
| Playing.PlayingState.Click | game/states/playing_state.py:302-312 | clicks are ignored once the game is over or complete and off the board; a live on-board click gives the grid and selection of `select_jewel` (`SelectOutcome`); a rejected swap records exactly the old cell and the clicked cell |

## Left out

- Drawing, layout, fonts, sounds and the blinking timer are pygame rendering and have no logical effect on the board. This covers `BoardRenderer`, every `draw`, `GameUI`, the invalid-move overlay, the menu, help and high-score screens, and `AudioManager`.
- Animation maths in `game/models/jewel.py` is floating point and wall-clock time: smoothstep movement, the sine shake with its `hasattr` state, destroy alpha, scale and rotation. Only `move_to`'s effect on x, y and an abstract `animating` flag are kept. A shaken jewel's shake state is not modelled.
- `Board.update` and `is_moving` (game/models/board.py:363-381, game/models/board_.py:289-297) are time-driven, so `is_moving` is an input to the cascade. The refill's screen coordinates (game/models/board.py:90-97) are display data and are left out.
- XML loading and saving of levels and high scores (`game/utils/config_loader.py`, `high_scores.xml`) are file I/O. The loaded table is a parameter of `HighScores.Game.CheckHighScore`, and the save writes nothing. The main loop `run` is left out too.
- `Board.collapse_columns` (game/models/board.py:354-356) extends `animations` with the `None` returned by the grid manager. Python would raise there. The playing state calls the grid manager directly (game/states/playing_state.py:237), so the model offers no `Board.CollapseColumns` and the main board is collapsed through `MainBoard.GridManager.CollapseColumns`.
- Line 240 of `game/states/playing_state.py` reads `self.target_score`, which the playing state does not have. `Playing.PlayingState.RunCascade` proves the line unreachable: the refill always leaves a jewel animating above a cleared cell. It is therefore not modelled.
- `GameRules.remove_matches` is annotated as returning a pair but returns three values (game/models/board.py:190, 210). The model returns all three.
- Python set iteration order in `remove_matches` is modelled as an arbitrary order. The contracts state only what holds for every order.
- The selection is modelled as the cell of the selected jewel rather than a reference to the jewel object. If the cascade moves or removes the selected jewel, the source keeps following the object, while the model keeps the cell.
- MainBoard.GridManager.constructor, MainBoard.Board.constructor, ForkBoard.Board.constructor, Playing.PlayingState.constructor, Playing.SetUpParts and Playing.SetUpBoard require at least three jewel kinds. With fewer kinds the avoiding `fill_board` can run out of candidates, and `random.choice` raises. `GridStore.FillGrid` itself models that case as a failure result.
- Levels.LevelManager.constructor requires 1 <= level <= the number of levels. The source indexes the level list with `level - 1`, and the game only starts levels in that range.
- Levels.RetypePass states "changes kind" only for cells in a single match. A cell in both a horizontal and a vertical match is retyped twice. Each retype differs from the kind the cell held at that moment (`Levels.RetypedStep`), but the second may restore the original kind.
- Levels.FixMatches, when all 100 passes are used, guarantees only the bounds on the passes, not a match-free board. The source then prints a warning, which is the `warned` result of `Levels.LevelManager.FixInitialMatches`.
- Playing.PlayingState.Update states only its early return and the mode fact. What each part does is stated by `CheckDeadlock`, `CheckTime`, `CheckScore` and `Cascade`, which it calls in that order.
- Playing.PlayingState.CheckDeadlock and Playing.PlayingState.NoMovesTick return the reshuffled board only as a ghost value. The shuffle's random permutation is an arbitrary choice.
- Jewels.CreateRandomJewel returns a failure when no kind is configured. In the source, `random.randint(0, -1)` raises there.
- Rules.IsValidSwap and MainBoard.Board.IsValidSwap keep only the tentative swap's effect on logical coordinates and the animation flag. The animation timing that `move_to` starts is not modelled.
- NameInput.IsAlnum: only ASCII letters and digits are modelled, while `str.isalnum` also accepts other Unicode letters and digits. A typed 'é', for example, is appended by the game but refused by `Edit`. Dafny has no Unicode character database to model the full test.
- The restart, escape-to-menu and next-level keys of the playing state, and its name-entry hand-over, are screen changes. Only the switch to name entry is recorded, as the `nameEntry` flag.
