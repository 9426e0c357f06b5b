# Match-3 board engine (`Backend`) in Dafny

This project models the board engine of a match-3 game: the `Backend` class
(`Classes/Backend.cpp`, `Classes/Backend.h`) and the index and configuration types it
works with (`Classes/Types.h`). The board is a row-major sequence of `width * height`
cells. Each cell holds one of:
- `-1` (`NOTHING`): a hole that is not part of the board;
- `0` (`NO_ELEMENT`): an empty playable cell;
- `1..type`: a tile.

The engine does the following:
- sets up a map and generates a random board;
- answers validity, adjacency and same-type questions;
- swaps two tiles;
- finds runs of three or more, both around one focus cell and around a swapped pair;
- empties matched cells;
- refills the topmost playable row;
- lets tiles fall down and slide sideways around holes until nothing moves;
- re-checks every cell that received a tile for cascading matches.

A dirty-region bounding box (`Scope`) limits the fall pass to the area that changed.

The Dafny files follow the structure of the program:

| file | module | what it holds |
|---|---|---|
| `wrappers.dfy` | `Wrappers` | `Option` and `Result` |
| `types.dfy` | `Types` | `MapIndex`, `MapConfig`, the row-major `operator<`, `INVALID_INDEX`, and the offset arithmetic `row * width + col` |
| `board.dfy` | `Board` | the sentinels `Nothing`/`NoElement`, cell reads and writes, and the board invariant `CellsOk` |
| `scope.dfy` | `Scopes` | `Scope::init`, `Scope::update`, and the one-ring widening of the fall pass |
| `runs.dfy` | `Runs` | the row/column scan of `IsCanEliminate`, and the maximal runs that specify it |
| `backend.dfy` | `Backend` | the engine state and `SetMap`, `ReGeneration`, `VisitMap`, `IsValidSprite`, `IsAdjacent`, `IsSameType`, `SwapSprite`, `DoEliminate`, `AddSpriteToFristLine` |
| `matching.dfy` | `Matching` | both `IsCanEliminate` overloads and `GetMovedSpriteAndCanEliminate` |
| `shortest.dfy` | `Shortest` | `CalculateShortest` over an abstract path search |
| `falldown.dfy` | `Falldown` | `FalldownSprite`: spawn, fall, slide, tracking and notifications |

The engine's mutable members become an immutable `Backend.State`:
- `initialized_`;
- `config_`;
- `sprites_`;
- `souch_scope_`;
- `moved_sprites_`.

Each operation returns the next state together with its answer. A thrown
`std::runtime_error` becomes a `Failure` of `NotInitialized`, `InvalidConfiguration` or
`InvalidIndex`, and the state is left as it was at the throw. Delegate callbacks
(`OnRefreshMap`, `OnEliminate`, `OnSpriteFalldown`) are returned as event sequences, in
the order the source fires them. `RandSpriteType` is a nondeterministic choice in
`[1, type]`. The A* search is a parameter `search(start, end)`: the length of the path
it finds, with 0 meaning no path.

## Model

| member | source | states |
|---|---|---|
| Types.LessIrreflexive | Classes/Types.h:27-30 | No index precedes itself. |
| Types.LessTransitive | Classes/Types.h:27-30 | The row-major order is transitive. |
| Types.LessTotal | Classes/Types.h:27-30 | Two distinct indices are ordered exactly one way round, so `std::set<MapIndex>` iterates in a fixed order. |
| Types.SentinelIndices | Classes/Types.h:6-23 | An index with `INVALID_INDEX` as row or column is never on any board. The default index `(0,0)` is the top-left cell of every non-empty board. |
| Types.FlatBounds | Classes/Backend.cpp:146-148 | The offset `row * width + col` of an in-range cell lies inside the board, so the source's direct reads are in bounds. |
| Types.FlatOrder | Classes/Types.h:27-30 | For in-range cells, `a < b` exactly when `a`'s offset is smaller than `b`'s, and two cells are equal exactly when their offsets are. The order of sets is therefore the order of the board. |
| Types.CellOfFlat | Classes/Backend.cpp:162-165 | `(idx / width, idx % width)` is an in-range cell whose offset is `idx` again, for every offset of the board. |
| Types.FlatCellOf | Classes/Backend.cpp:162-165 | Decomposing a cell's offset gives back the cell. |
| Board.SentinelsBelowTiles | Classes/Backend.h:42-46 | `NOTHING` and `NO_ELEMENT` differ and both lie below every tile type, which the `> NO_ELEMENT` tile tests rely on. |
| Board.Put | Classes/Backend.cpp:312 | Writing one cell changes that cell only. The multiset of values loses the old value and gains the new one. |
| Board.Exchange | Classes/Backend.cpp:183 | `std::swap` of two cells puts each value in the other cell, leaves every other cell alone, and keeps the multiset of values. |
| Board.ExchangeOk | Classes/Backend.cpp:183 | Exchanging two playable cells keeps the board invariant: holes exactly at non-playable cells, and `[0, type]` elsewhere. |
| Board.Row | Classes/Backend.cpp:225-228 | The line the row scan walks holds, at position `col`, the value of cell `(row, col)`. |
| Board.Column | Classes/Backend.cpp:244-247 | The line the column scan walks holds, at position `row`, the value of cell `(row, col)`. |
| Scopes.InitTracksNothing | Classes/Backend.h:55-58 | `init` sets all four bounds to -1, and the reset box contains no cell. |
| Scopes.Update | Classes/Backend.h:60-66 | After `update(i)` the box spans `i`. An in-range `i` keeps the box on the board. The box never shrinks: every cell inside before is inside after. |
| Scopes.UpdateAfterInit | Classes/Backend.h:55-66 | The first `update(i)` after `init` gives the one-cell box `[i.row, i.row] x [i.col, i.col]`. |
| Scopes.UpdateIdempotent | Classes/Backend.h:60-66 | Applying `update(i)` twice equals applying it once. |
| Scopes.Widen | Classes/Backend.cpp:398-401 | The widened box holds exactly the on-board cells within one ring of the old box, and stays on the board. |
| Runs.RunStart | Classes/Backend.cpp:225-239 | The found start bounds a stretch of equal values on the left. |
| Runs.RunEnd | Classes/Backend.cpp:225-239 | The found end bounds a stretch of equal values on the right. |
| Runs.FocusRun | Classes/Backend.cpp:225-239 | The run through the focus is maximal and holds the focus. |
| Runs.LineMatch | Classes/Backend.cpp:225-241 | What one axis keeps: a maximal run of the focus's type with three or more cells, or nothing. A kept run that misses the focus ends at the end of the line. The focus's own run has three or more cells exactly when a run holding the focus is kept. |
| Runs.TrailingRunReported | Classes/Backend.cpp:234-241 | Concrete case of the end-of-line behaviour: in `1 2 1 1 1` with focus 0, the three trailing 1s are reported although the focus's own run has one cell. |
| Runs.MaximalIsFocusRun | Classes/Backend.cpp:225-239 | A maximal run through a position is that position's run, so a run is determined by any one of its cells. |
| Runs.MatchedPosition | Classes/Backend.cpp:225-241 | Every position a line match reports holds the focus's value and lies in its own run of three or more. |
| Runs.ScanLine | Classes/Backend.cpp:225-241 | The scan loop as written returns exactly the specified line match. |
| Backend.UnsetIsValid | Classes/Backend.cpp:7-11 | A fresh engine has no map and satisfies the engine invariant. |
| Backend.FreshBoard | Classes/Backend.cpp:131-135 | One generated value per cell: a type in `[1, type]` at every playable cell and `NOTHING` at every other cell. |
| Backend.ReGeneration | Classes/Backend.cpp:125-136 | As written: without a map it fails. Otherwise it appends a full generated board after the cells already held, so on a set board the old cells stay at the front, the length becomes `2 * width * height`, and the board is no longer one value per cell. On a cleared board the append is the whole board: holes exactly at the non-playable cells and a type in `[1, type]` at every other cell. |
| Backend.Regenerate | Classes/Backend.cpp:125-136 | Corrected regeneration: the board is replaced. Every cell is `NOTHING` exactly when it is not playable, and every playable cell gets a type in `[1, type]`. |
| Backend.FreshCells | Classes/Backend.cpp:131-135 | The generated values, read cell by cell: `NOTHING` exactly at the non-playable cells and a type in `[1, type]` at every playable cell. |
| Backend.SetMap | Classes/Backend.cpp:15-31 | A mask whose length is not `width * height` is refused and nothing changes. Otherwise the map is taken, the box reset and the queue cleared. The board has `width * height` cells, holds `NOTHING` exactly at the holes and `[1, type]` elsewhere, and every cell is reported. |
| Backend.VisitMap | Classes/Backend.cpp:155-167 | Without a map it fails. Otherwise there is one report per cell, each with that cell's current value, in strictly increasing `MapIndex` order. |
| Backend.IsValidSprite | Classes/Backend.cpp:139-152 | Without a map it fails. Otherwise it is true exactly when the cell is on the board and holds a tile; a true answer also means the cell is playable with a value at most `type`. |
| Backend.IsAdjacent | Classes/Backend.cpp:63-76 | True exactly when `abs(a.row-b.row) + abs(a.col-b.col) == 1`, which is the same as `b` being one of `a`'s four side neighbours. |
| Backend.AdjacentSymmetric | Classes/Backend.cpp:63-76 | Adjacency is symmetric. |
| Backend.DiagonalNotAdjacent | Classes/Backend.cpp:63-76 | Diagonal neighbours and the cell itself are not adjacent. |
| Backend.IsSameType | Classes/Backend.cpp:79-87 | Without a map it fails. If either cell holds no tile it fails with an invalid index. Otherwise the answer is whether the two tiles are equal. |
| Backend.SwapSprite | Classes/Backend.cpp:170-184 | Without a map it fails and nothing changes. Otherwise the box is reset even when the swap then fails. If either cell holds no tile the board is untouched. On success exactly the two cells exchange values, every other cell keeps its value, and the board invariant holds. |
| Backend.SwapTwiceRestores | Classes/Backend.cpp:170-184 | Swapping the same two tiles twice succeeds both times and restores the board. |
| Backend.EliminateCell | Classes/Backend.cpp:304-315 | One loop step extends the loop invariant: the visited cells of the set are emptied, numbered in order and inside the box, and the rest of the board is as before. |
| Backend.DoEliminate | Classes/Backend.cpp:296-317 | Without a map it fails. Otherwise every cell of the set becomes `NO_ELEMENT` and every other cell keeps its value. It returns the set's size. It reports the cells numbered `1..n` with total `n`, in strictly increasing `MapIndex` order. The box grows to cover every emptied cell and loses nothing, and playable input cells keep the board invariant. |
| Backend.FirstPlayable | Classes/Backend.cpp:379-386 | The found offset is playable and no earlier offset is. When nothing is found, no offset from the start on is playable. |
| Backend.FirstLine | Classes/Backend.cpp:329-334 | The spawn row holds a playable cell and no row above it does. There is no spawn row exactly when no cell is playable. |
| Backend.SpawnCellsOne | Classes/Backend.cpp:336-343 | Filling one empty cell of the spawn row with a tile type extends the spawn invariant for the board. |
| Backend.SpawnReportOne | Classes/Backend.cpp:336-343 | Reporting that cell at the end keeps the reports complete, one per filled cell, in increasing order. |
| Backend.SpawnCell | Classes/Backend.cpp:336-344 | One column of the spawn loop fills the cell exactly when it was empty, and keeps the spawn invariant. |
| Backend.FillCounts | Classes/Backend.cpp:338-340 | Filling an empty cell with a tile leaves one empty cell fewer and the same number of holes. |
| Backend.Fill | Classes/Backend.cpp:336-343 | Writing each reported type into its cell, in report order, keeps the board shape. A cell that no report names keeps its value. |
| Backend.FillRow | Classes/Backend.cpp:336-344 | The loop over the spawn row fills exactly that row's empty cells, reports each once from left to right, and yields the board `Backend.Fill` builds from the reports. |
| Backend.AddSpriteToFristLine | Classes/Backend.cpp:320-350 | Without a map it fails. Otherwise the filled cells are exactly the empty cells of the first row holding a playable cell. Each gets a type in `[1, type]`, every other cell is untouched, and the count equals the number filled. Each filled cell is reported once, with its new type, left to right. The new board is the old one with the reported types written in (`Backend.Fill`). The number of empty cells drops by the count, and holes are unchanged. |
| Matching.EliminableRuns | Classes/Backend.cpp:211-270 | Every cell the one-cell scan reports is on the board and holds the focus's tile. It lies in the focus's row with a row run of three or more, or in the focus's column with a column run of three or more. A run of exactly two is never reported. |
| Matching.EliminableComplete | Classes/Backend.cpp:225-260 | When the focus's own row (or column) run has three or more cells, every cell of that run is reported. |
| Matching.IsCanEliminate | Classes/Backend.cpp:211-270 | Without a map it fails. A focus off the board, on a hole or on an empty cell gives false and nothing. Otherwise the result is the union of what the row scan and the column scan keep, and the answer is whether it is non-empty. |
| Matching.IsCanEliminatePair | Classes/Backend.cpp:272-293 | Without a map it fails. If either cell holds no tile it fails with an invalid index. Two cells of the same type give false and nothing. Otherwise the result is the union of the two one-cell results. |
| Matching.GetMovedSpriteAndCanEliminate | Classes/Backend.cpp:187-208 | Without a map it fails. Otherwise the result is exactly the union of the one-cell results of the queued cells, the answer is whether it is non-empty, and the queue is emptied with nothing else changed. |
| Shortest.ShortestFrom | Classes/Backend.cpp:90-122 | The result is -1 exactly when no playable row-0 cell has a path. Otherwise it is positive, is the length of some found path, and is no longer than any other found path. |
| Shortest.CalculateShortest | Classes/Backend.cpp:90-122 | `~0`, that is -1, exactly when no playable cell of row 0 has a path to the target. Otherwise the length of a path found from some playable row-0 cell, and no found path is shorter: the top of the min-heap. |
| Shortest.UnreachableComparesClosest | Classes/Backend.cpp:121 | An unreachable cell's distance, the sentinel -1, is `<=` every distance, so it wins every tie-break. |
| Falldown.EntryRow | Classes/Backend.cpp:378-386 | The first row used by the fall is never negative. |
| Falldown.Slide | Classes/Backend.cpp:424-490 | A sideways move needs the neighbour to be an empty playable cell with a hole above it, and always targets that neighbour. When the far tile is the one that moves, it is a tile not yet moved into place and strictly nearer to the entry than the focus. |
| Falldown.Decide | Classes/Backend.cpp:411-493 | Any move chosen for a cell is legal: a tile not yet moved into place goes one step down or sideways into an empty playable cell. Its source is the cell or a cell of the same row. |
| Falldown.FallsStraightDown | Classes/Backend.cpp:412-421 | A tile with an empty playable cell below it always falls straight down. |
| Falldown.SettledStays | Classes/Backend.cpp:412 | An empty cell, a hole, or a cell already moved into this pass never moves. |
| Falldown.UnreachableSlidesItself | Classes/Backend.cpp:433-440 | When no entry cell reaches the focus, the focus itself slides into the gap, whatever the far cell holds. |
| Falldown.FallingStep | Classes/Backend.cpp:419-421 | Applying a legal move keeps the fall invariant: a rearrangement of the starting board, with moved-into cells holding tiles and no route leaving or re-entering an earlier target. |
| Falldown.FallenBoardStep | Classes/Backend.cpp:419-421 | A legal move keeps the multiset of values and the board invariant, and its target now holds a tile. |
| Falldown.RoutedStep | Classes/Backend.cpp:419-421 | Logging a one-step move between cells not yet moved into keeps `moved` equal to the set of logged targets. |
| Falldown.RoutedTargets | Classes/Backend.cpp:419-421 | Each `moved_set.insert` is paired with a logged route into the same cell, so `moved_set` is exactly the set of logged targets. |
| Falldown.Replay | Classes/Backend.cpp:419-421 | The logged routes applied to the starting board in order, each swapping its source and target cells as the `std::swap` beside every logged route does. The replay keeps the board length. |
| Falldown.ExchangeSwaps | Classes/Backend.cpp:420 | Exchanging two board cells is the swap of their offsets in the vector, as `std::swap(sprites_[i], sprites_[j])` does. |
| Falldown.ReplayedStep | Classes/Backend.cpp:419-421 | A legal move extends the replay: the new board is the replay of the routes with that move appended, and the move was legal on the board it was applied to. |
| Falldown.Visit | Classes/Backend.cpp:407-493 | One cell visit keeps the fall invariant and moves at most one tile. When `Decide` picks a move, the move is legal, the board is the old one with its source and target exchanged, its target joins `moved`, and it is logged last. Otherwise nothing changes and the cell had no move. |
| Falldown.SweepRow | Classes/Backend.cpp:405-495 | One row of the box keeps the fall invariant: the board is the replay of the logged routes on the starting board, each legal on the board before it, and `moved` is their set of targets. A row that moves nothing leaves the board as it was, with no move left for any of its cells. |
| Falldown.Sweep | Classes/Backend.cpp:403-496 | One pass over the box keeps the fall invariant, replay included. A pass that moves nothing leaves the board as it was, with no move left anywhere in the box. |
| Falldown.Settle | Classes/Backend.cpp:389-497 | The do-while ends, because each repeat grows the moved set within the board. The final board is the replay of the logged routes on the starting board, each legal on the board before it. The final box contains the starting box, and no cell of the final box has a move left. |
| Falldown.Settled | Classes/Backend.cpp:389-497 | The settled result clause by clause: each route is one step into a moved cell that now holds a tile, the routes never leave or re-enter an earlier target, `moved` is their set of targets, the board is their legal replay, and no cell of the starting box has a move left. |
| Falldown.Announce | Classes/Backend.cpp:506-517 | The notifications are numbered `1..total` with total = spawned + moves. The spawned tiles come first, each arriving at its own cell, then every move in order. |
| Falldown.AnnouncedMoves | Classes/Backend.cpp:514-517 | Reading the moves back from the route notifications gives exactly the routes announced. |
| Falldown.Notify | Classes/Backend.cpp:506-517 | The notifications are numbered `1..total`. Arrivals come first, each at its own cell. The route notifications read back as exactly the settled routes, and their targets are exactly the moved cells. |
| Falldown.Track | Classes/Backend.cpp:499-504 | Every moved cell ends inside the box and in the queue, and the box keeps everything it covered. |
| Falldown.Fall | Classes/Backend.cpp:389-517 | The settled board is the replay, on the spawned board, of the moves read back from the route notifications, each legal on the board before it. It is therefore a rearrangement of the spawned board that keeps the invariant, and it is the spawned board when no route is notified. `moved` is the set of their targets, and no cell of the starting box has a move left. Every notified move is one step into a cell that now holds a tile, and is queued and inside the box. |
| Falldown.Land | Classes/Backend.cpp:378-519 | Everything after the spawn: the answer is whether anything was notified. The final board is the legal replay of the notified moves on the spawned board and a rearrangement of it, and it is the spawned board when no move is notified. No cell of the starting box has a move left. The queue grows by exactly the notified arrival cells. Holes are unchanged. |
| Falldown.FalldownSprite | Classes/Backend.cpp:366-519 | Without a map it fails. The answer is true exactly when something spawned or moved. Every spawned tile is a type in `[1, type]` at an empty cell of the spawn row, and every such cell is filled. The final board is the replay of the notified moves on the board with the spawned types written in, each move legal on the board before it, so it is a rearrangement of that board. No cell of the starting box has a move left. Moves are one step down, left or right into cells that end holding tiles, and never leave or re-enter an earlier target. Notifications are numbered `1..total`. The queue gains exactly the arrival cells, and the box only grows. Holes are unchanged, and empty cells drop by exactly the spawned count. A false answer leaves the board and the queue as they were. |

## Left out

- GameLayer, Element, Config and GameScene: user interface, animation, asset loading and the cascade driver, which is sequenced by animation callbacks; none of it is board logic.
- The random distribution of `RandSpriteType`: only the range `[1, type]` is modelled, as a nondeterministic choice.
- The A* search (`AStar.h` is not part of this model): it is the parameter `search`, whose only modelled property is the path length it returns. The `is_can_reach` mask that the source hands it is not modelled.
- Delegate dispatch: callbacks are returned as event sequences rather than called.
- The constructor's null-delegate `assert` (Classes/Backend.cpp:7-12): there is no delegate object.
- `GetMapWidth` / `GetMapHeight` (Classes/Backend.cpp:34-51): plain accessors that throw without a map; the model reads `config.width` and `config.height` directly.
- `MoveRoute` (Classes/Backend.cpp:353-363) is the datatype `Falldown.Move`; it has no behaviour of its own.
- Backend.SetMap: requires non-negative width and height, and `type >= 1` when any cell is playable. The source does not check either. With negative dimensions the `int` product and the `size_t` comparison wrap, and `uniform_int_distribution(1, 0)` is undefined. 32-bit overflow of `width * height` is not modelled.
- Backend.DoEliminate: requires every cell of the set to be on the board. The release build writes through the raw offset without checking, and the `_DEBUG` validity check is not modelled. The invariant is only promised when every cell of the set is playable.
- Matching.GetMovedSpriteAndCanEliminate: the result is stated as a set, so the iteration order over the queue is not stated. The order cannot change a union.
- Falldown.FalldownSprite: requires a non-empty box. The widening from a freshly reset box (all -1) reads row -1 at Classes/Backend.cpp:398-409. The call after `DoEliminate` always has a non-empty box.
- Falldown.FalldownSprite: states "no move left" only for the cells of the box it started with, not for the ring the widening added. It states that the final board is the legal replay of the notified moves, but not that those moves are the ones the row-major visiting order picks, so it does not say which of several settled boards results. A false answer still widens the box, as in the source.
- Falldown.Slide: the two `CalculateShortest` calls are pure functions of the map and `search`. The source's repeated A* runs are assumed to return the same result each time.
- Backend.SetMap: calls `Backend.Regenerate` where the source calls `ReGeneration` (Classes/Backend.cpp:24). `sprites_` was cleared just before (line 20), and on a cleared board `Backend.ReGeneration` promises the same board as `Backend.Regenerate`.
- Falldown.EntryRow: the first-row loop at Classes/Backend.cpp:378-386 and the spawn row of `AddSpriteToFristLine` are one definition (`Backend.FirstLine`). When no cell is playable the fall uses row 0, as the source does.

## Findings

| source | as written | input that shows it | evidently intended | confidence | as-written member | corrected member |
|---|---|---|---|---|---|---|
| Classes/Backend.cpp:125-136 | The public `ReGeneration` appends a new board to `sprites_` without clearing it. Called on a board that is already set, the first `width * height` cells keep their old values and the vector doubles in length. | A 1x1 map whose cell is playable, after `SetMap`: calling `ReGeneration` leaves cell (0,0) as it was, and `sprites_` has 2 entries. | Regeneration replaces the board, as the `sprites_.clear()` that `SetMap` does before calling it shows. | medium; not executed | Backend.ReGeneration | Backend.Regenerate |
