# Rush Hour puzzle engine: a verified Dafny model

The model covers the Rush Hour puzzle on a fixed 6x6 grid, which is the core of the `rush_hour` services:

- **Cars** (`car.dfy`, module `Cars`). A car grows one cell at a time. Its first two cells fix its axis, and every further cell must extend the tail by one along that axis. `Car` is a class whose `AddPosition` updates `pos` and `dir` in place. A stored car is the value `CarRecord`.
- **The car-list engine** (`board.dfy`, module `Board`):
  - `boardFromCars` paints the cars, in list order, onto an empty grid.
  - `canCarMove` checks the axis, the board bounds and the target cell.
  - `applyStep` finds the car, checks the move, clears the car's cells and paints the shifted cells on the grid. It reports whether car 1 is then on the exit cell (column 5, row 2).
  - Grids are `seq<seq<int>>` values, written cell by cell in loops.
- **Legal positions** (`configurations.dfy`, module `Configurations`). These are lists of cars with distinct positive ids, sizes 2 or 3, no shared cells, and car 1 placed in row 2. Lemmas show that:
  - an accepted step keeps a position legal;
  - the grid after the step is the painting of the moved list;
  - the `solved` flag agrees with the car-list test;
  - every accepted step can be undone by the opposite step.
- **The raw-board normaliser** of the api service (`raw_board.dfy`, module `RawBoards`):
  - The row-major validation scan collects cars in a `seq<Car>` standing in for the insertion-ordered `Map<number, Car>`.
  - The car-1 check runs next, then the size check in order of first appearance.
  - The cars are then sorted by id.
  - The scan is a nested loop over `Car` objects, proved against the reference function `Scan`. Every accepted board normalises to a legal position whose painting reproduces the submitted board cell for cell. Conversely, every legal position with ids in increasing order, submitted as the board it draws, normalises back to itself.
- **The legacy split-grid service** (`legacy_board.dfy`, module `LegacyBoards`):
  - It runs the same checks, but paints horizontal cars on grid `h` and vertical cars on grid `v`.
  - Its move rebuilds the car from the grid of the step's axis. It checks the target cell on both grids and rewrites the axis grid of the `LegacyBoard` object it is given.
  - The model proves that the two services accept the same boards, and that the two grids are the api's car list painted one axis at a time.
  - For a known car moved along its axis, the legacy move gives the same error or the same new position and `solved` flag as the car-list engine.
- **Game sessions** (`player.dfy`, module `Players`):
  - `PlayerService` keeps boards, games under their keys, and the per-game locks it holds.
  - Its methods model `startGame`, `getGameState`, `moveCar`, `handleCarMoveCommented` and the retry loop of `acquireLock`.
  - A stored game always has a legal board, and `solved` holds only when car 1 is on the exit cell.

`wrappers.dfy` holds the `Option` and `Result` types. Raw cells are `Num(n)` or `NonInteger`, so the "not an integer" error can still be expressed. Errors are datatypes that carry the values their messages print.

## Model

| member | source | states |
|---|---|---|
| Cars.CheckDirection | libs/board/src/car.ts:69-79 | The result is `Horizontal` exactly when the second cell is the next cell to the right in the same row. It is `Vertical` exactly when the second cell is the next cell down in the same column. Otherwise it is `Invalid`: identical, diagonal, backwards or gapped pairs. |
| Cars.AddTo | libs/board/src/car.ts:43-67 | The first cell is always accepted, and the axis stays `Invalid`. The second cell is accepted only as the right or lower neighbour, and it fixes the axis to match. Later cells are accepted only as the next cell along the fixed axis. An accepted cell is appended, and the id never changes. |
| Cars.AddToKeepsWellFormed | libs/board/src/car.ts:43-67 | Adding a cell keeps the car invariant: consecutive cells are one step apart along `dir`, and `dir` is not `Invalid` exactly when the car has two or more cells. |
| Cars.ValidSize | libs/board/src/car.ts:39-41 | A finished car has two or three cells. `FirstBadSize` names the first car failing it, and `Legal` requires it of every car. |
| Cars.Car.constructor | libs/board/src/car.ts:25-29 | A new car has its id, no cells and axis `Invalid`. |
| Cars.Car.AddPosition | libs/board/src/car.ts:43-67 | It returns whether `AddTo` accepts the cell. On success the fields hold the extended car; on refusal `pos` and `dir` are unchanged. The invariant is kept. |
| Board.EmptyBoard | libs/board/src/board.ts:24-26 | Six rows of six zeros. |
| Board.OccupantIsLastCover | libs/board/src/board.ts:28-36 | A covered cell shows the id of the last car in the list that covers it, so later cars win on overlap. |
| Board.OccupantUncovered | libs/board/src/board.ts:28-36 | A cell that no car covers is 0. |
| Board.OccupantOfCovered | libs/board/src/board.ts:28-36 | A covered cell shows the id of one of the cars covering it. |
| Board.OccupantCovers | libs/board/src/board.ts:28-36 | A non-zero cell is covered by a car carrying that id. |
| Board.Paint | libs/board/src/board.ts:155-157 | Every listed cell is set to the value, and every other cell is unchanged. |
| Board.PlaceCar | libs/board/src/board.ts:30-33 | The car's cells hold its id, and every other cell is unchanged. |
| Board.BoardFromCars | libs/board/src/board.ts:28-36 | The painted grid equals `Occupancy(cars)`: each cell holds the id of the last car covering it, else 0. |
| Board.MoveAndPaint | libs/board/src/board.ts:158-161 | The returned cells are the car's cells each shifted one step. They are painted with the id, and every other cell is unchanged. |
| Board.LineShape | libs/board/src/car.ts:60-66 | The cells of a car with an axis lie on one line: cell `i` is the head moved `i` cells along the axis. |
| Board.ShiftStaysOnBoard | libs/board/src/board.ts:81-117 | When the target cell is on the board, every shifted cell of the car is on the board too. |
| Board.CanCarMove | libs/board/src/board.ts:44-129 | The checks, in order: `Invalid` cars are refused; horizontal cars cannot move Up/Down; vertical cars cannot move Left/Right. Then an off-board target gives an out-of-board error with its coordinates, and a non-zero target gives a blocked error naming that id. The move is allowed exactly when the axis fits and the target is on the board and empty. |
| Board.FindCar | libs/board/src/board.ts:135 | It returns the first index holding the id, or `None` when no car has it. |
| Board.IsSolvedGrid | libs/board/src/board.ts:169-176 | The grid form of `isSolved`: cell (5,2) holds 1. `SolvedViewsAgree` proves it agrees with the car-list form on legal positions. |
| Board.IsSolvedCars | libs/board/src/board.ts:169-176 | The car-list form of `isSolved`: the first car with id 1 ends on (5,2). `StepSolvedMeansCarsSolved` ties the `solved` flag of a step to it. |
| Board.StepResult | libs/board/src/board.ts:131-167 | An unknown id gives `UnknownCar`, and a `canCarMove` error is passed through unchanged. On success the list keeps its length and order, every other car is unchanged, and the moved car keeps its id and axis with each cell shifted one step. |
| Board.ApplyStep | libs/board/src/board.ts:131-167 | The imperative find, paint, check, clear and paint equals `StepResult`. The input list is a value and is never changed. |
| Configurations.OccupantOfLegal | libs/board/src/board.ts:28-36 | On a board without overlaps, a cell shows the id of the one car covering it. |
| Configurations.EmptyCellUncovered | libs/board/src/board.ts:28-36 | With positive ids, a cell painted 0 is covered by no car. |
| Configurations.ShiftedLine | libs/board/src/board.ts:81-111 | A car that may move in direction `d` has at least two cells. Its shifted cells, target cell and vacated cell lie on its line at known offsets. |
| Configurations.ShiftedMembership | libs/board/src/board.ts:155-161 | A cell belongs to the moved car exactly when it is the target cell, or an old cell other than the vacated one. |
| Configurations.ShiftedEnds | libs/board/src/board.ts:81-111 | The vacated cell is one of the car's cells and the target cell is not. The opposite step from the moved car targets the vacated cell. |
| Configurations.ShiftedCells | libs/board/src/board.ts:155-161 | Combines `ShiftedMembership` and `ShiftedEnds`: exactly one cell is freed and exactly one cell is taken. |
| Configurations.ShiftKeepsWellFormed | libs/board/src/board.ts:155-161 | Shifting every cell of a car keeps the car invariant. |
| Configurations.MovedGridIsOccupancy | libs/board/src/board.ts:155-166 | On a legal position, the grid after clearing and repainting the moved car equals `boardFromCars` of the updated list, cell for cell. |
| Configurations.MovedDisjoint | libs/board/src/board.ts:131-161 | Moving a car into an empty target cell keeps the cars free of overlaps. |
| Configurations.MovedTargetCar | libs/board/src/board.ts:131-161 | Car 1 stays a two-cell car in row 2 after any accepted step. |
| Configurations.MoveKeepsLegal | libs/board/src/board.ts:131-167 | An accepted step turns a legal position into a legal position. |
| Configurations.SolvedViewsAgree | libs/board/src/board.ts:169-176 | On a legal position, the grid test (cell (5,2) holds 1) and the car-list test (car 1 ends on (5,2)) of `isSolved` agree. |
| Configurations.StepSolvedMeansCarsSolved | libs/board/src/board.ts:163-176 | The `solved` flag of an accepted step holds exactly when car 1 of the updated list ends on the exit cell. |
| Configurations.MovedFindCar | libs/board/src/board.ts:151-153 | The updated list finds every id at the same index as the original, so the clone's `find` picks the same car. |
| Configurations.StepBackAllowed | libs/board/src/board.ts:131-167 | After an accepted step, the opposite step of the same car is allowed, because its target is the vacated cell. |
| Configurations.MoveIsReversible | libs/board/src/board.ts:131-167 | An accepted step followed by the opposite step of the same car restores the original list exactly. |
| RawBoards.IsSixBySixBoard | apps/api/src/board.service.ts:57-61 | Six rows of six cells. `Validate` refuses a board as not 6x6 exactly when this fails. |
| RawBoards.Visit | apps/api/src/board.service.ts:71-100 | One cell of the scan fails only with a non-integer, a negative or a misplaced cell, and a 0 cell changes nothing. `VisitErrors` states which error each bad cell gives. `VisitKeepsOrder` and `VisitKeepsInv` state what an accepted cell keeps. |
| RawBoards.VisitErrors | apps/api/src/board.service.ts:71-97 | A non-integer cell fails with "not an integer" at its own row and column. A negative cell fails with "negative integer" at its row and column. A 0 cell leaves the cars unchanged. A positive value `n` fails exactly when its car refuses the cell in `addPosition`; the car is the one already met, or a new empty car `n`. That failure names `n` as "not placed correctly". |
| RawBoards.VisitKeepsOrder | apps/api/src/board.service.ts:86-97 | An accepted cell keeps every car seen so far at its place and id, as the insertion-ordered map does, and adds at most one new car at the end. |
| RawBoards.Scan | apps/api/src/board.service.ts:69-102 | The scan of the first `k` cells fails only with a non-integer cell, a negative cell or a badly placed car. `FirstBadCellReported` states which error the first bad cell gives, with its coordinates or car id. |
| RawBoards.FirstBadCellReported | apps/api/src/board.service.ts:69-97 | If every cell before `k` is accepted, a bad cell `k` decides what the whole validation returns. A non-integer or negative cell is reported with its row and column. A misplaced positive value is reported with its car id. |
| RawBoards.HasTargetCar | apps/api/src/board.service.ts:104-113 | The first car with id 1 has two cells, both in row 2. `TargetCheckAgrees` proves it is the target-car condition of a legal position. |
| RawBoards.TargetCheckAgrees | apps/api/src/board.service.ts:104-113 | With distinct ids, the scan's target-car check holds exactly when the position satisfies the target-car condition of `Legal`. |
| RawBoards.ScanFailureSticks | apps/api/src/board.service.ts:73-95 | The scan stops at its first error, so the error of the whole scan is the error of the first bad cell in row-major order. |
| RawBoards.FirstBadSize | apps/api/src/board.service.ts:115-121 | It returns the first car, in order of first appearance, whose size is not 2 or 3. When there is none, every car has a valid size. |
| RawBoards.SortById | apps/api/src/board.service.ts:125-129 | The output has the same cars as the input, the same length, and strictly increasing ids. |
| RawBoards.Finish | apps/api/src/board.service.ts:104-129 | The car-1 check comes first: without a proper car 1 the result is `MissingTargetCar`, whatever the sizes. Otherwise the first car, in scan order, whose size is not 2 or 3 gives `InvalidSize` with its id and size. The result is a success exactly when both checks pass, and it is then the cars sorted by id. |
| RawBoards.VisitKeepsInv | apps/api/src/board.service.ts:71-100 | Each scanned cell keeps the scan invariant. Ids are distinct and positive. Each car holds exactly the cells seen so far with its value, in row-major order, and is well formed. Every positive value seen has a car. |
| RawBoards.ScanKeepsInv | apps/api/src/board.service.ts:69-102 | A successful scan of the first `k` cells meets the scan invariant. |
| RawBoards.Normalize | apps/api/src/board.service.ts:63-130 | A 6x6 board is never refused as not 6x6. A failed scan gives the scan's error, so the first bad cell is reported before any car-1 or size error. After a successful scan, the cars have distinct ids and the result is `Finish` of them, with the order stated there. |
| RawBoards.FindObject | apps/api/src/board.service.ts:86-90 | `cars.get(value)` returns the first car object with that id, or `None`. |
| RawBoards.ExtendCars | apps/api/src/board.service.ts:85-97 | A positive value's car object, or a fresh one appended when the value is new, is offered the cell. The result and the new records are `Offer` of the old records: the value's car extended by `AddTo`, or a `NotPlacedCorrectly` error. Earlier objects are kept in place. |
| RawBoards.ScanCell | apps/api/src/board.service.ts:71-100 | One cell of the scan on the `Car` objects does what `Visit` does to the records. A new car is appended fresh and the earlier objects are kept. |
| RawBoards.ScanRawBoard | apps/api/src/board.service.ts:67-102 | The nested loops over car objects return exactly `Scan(raw, 36)`, including the first error. |
| RawBoards.NormalizeRawBoard | apps/api/src/board.service.ts:63-130 | The scan, car-1 check, size loop and sort equal `Normalize`. |
| RawBoards.Validate | apps/api/src/board.service.ts:19-29 | A board is refused as not 6x6 exactly when it is not six rows of six cells; otherwise the result is `Normalize`. |
| RawBoards.CellsOfMember | apps/api/src/board.service.ts:85-95 | A cell is among a value's collected cells exactly when it was scanned and holds that value. |
| RawBoards.ScannedCar | apps/api/src/board.service.ts:85-95 | Every scanned car has a positive id and is well formed on the board. Its cells are exactly the cells holding its id. |
| RawBoards.SortedScanLegal | apps/api/src/board.service.ts:104-129 | A board that passes the checks yields a legal position. |
| RawBoards.SortedScanRendersRaw | apps/api/src/board.service.ts:85-129 | Every submitted cell equals the occupant of that cell in the sorted output. |
| RawBoards.NormalizeSound | apps/api/src/board.service.ts:63-130 | An accepted board yields a legal, id-sorted car list. Its `boardFromCars` reproduces the submitted board cell for cell. |
| RawBoards.DrawnCar | apps/api/src/board.service.ts:85-95 | On the board drawn from a legal position, the cells holding a car's id are exactly that car's cells. |
| RawBoards.CellsOfPrefix | apps/api/src/board.service.ts:85-95 | When the cells holding an id are exactly a car's cells, the scan up to any index has collected exactly the car's cells before that index, in order. |
| RawBoards.SameCellsSameCar | libs/board/src/car.ts:43-67 | A car built by `addPosition` is determined by its id and cells: the axis follows from the first two cells. |
| RawBoards.VisitAccepts | apps/api/src/board.service.ts:71-100 | On the board drawn from a legal position, the scan accepts every cell: each value is a non-negative integer, and each cell of a car is the next cell `addPosition` accepts. |
| RawBoards.ScanAccepts | apps/api/src/board.service.ts:69-102 | The scan never refuses the board drawn from a legal position. |
| RawBoards.ScannedIsListed | apps/api/src/board.service.ts:69-102 | Every car the scan finds on the drawn board is a car of the position. |
| RawBoards.ListedIsScanned | apps/api/src/board.service.ts:69-102 | Every car of the position is found by the scan of the drawn board. |
| RawBoards.IncreasingUnique | apps/api/src/board.service.ts:125-129 | Two lists with strictly increasing ids and the same elements are equal, so the sort's output is unique. |
| RawBoards.NormalizeComplete | apps/api/src/board.service.ts:19-130 | The converse of `NormalizeSound`: a legal position with increasing ids, submitted as the board it draws, is accepted and normalises to exactly that list. |
| LegacyBoards.AlongCovered | libs/board/src/board.service.ts:216-231 | A cell covered by exactly one car shows that car's id on the grid of its axis, and 0 on the other grid. |
| LegacyBoards.AlongUncovered | libs/board/src/board.service.ts:216-231 | A cell no car covers is 0 on both grids. |
| LegacyBoards.AlongKeep | libs/board/src/board.service.ts:123-138 | Replacing a car by another car of the same axis leaves the other axis's cars as they were. |
| LegacyBoards.LayerIsFiltered | libs/board/src/board.service.ts:216-231 | On a legal position, the grid of an axis is the full painted board with every car of another axis erased. |
| LegacyBoards.LayersPartition | libs/board/src/board.service.ts:216-231 | Each occupied cell is on exactly one grid, and the `h` and `v` values add up to the full board. `h` holds only horizontal cars and `v` only vertical ones. |
| LegacyBoards.Layers | libs/board/src/board.service.ts:216-231 | A car list drawn the legacy way: horizontal cars on `h`, vertical cars on `v`. `LayersPartition` and `LegacyMatchesApi` state what that gives. |
| LegacyBoards.LegacyNormalize | libs/board/src/board.service.ts:158-240 | The legacy checks fail exactly when the api checks fail, with the same error. |
| LegacyBoards.LegacyValidate | libs/board/src/board.service.ts:20-30 | A board is refused as not 6x6 exactly when it is not six rows of six cells; otherwise the result is `LegacyNormalize`. |
| LegacyBoards.PlaceOnAxis | libs/board/src/board.service.ts:223-231 | A horizontal car is painted on `h` only, a vertical car on `v` only, and a car without an axis nowhere. |
| LegacyBoards.LayerStep | libs/board/src/board.service.ts:216-231 | Painting the next car keeps each grid equal to the painting of the cars handled so far on that axis. |
| LegacyBoards.LegacyNormalizeRawBoard | libs/board/src/board.service.ts:158-240 | The shared scan, the car-1 check, and the loop that checks each size and places the car equal `LegacyNormalize`. |
| LegacyBoards.LegacyMatchesApi | libs/board/src/board.service.ts:167-221 | When the api service accepts a board, the legacy service returns that car list painted one axis per grid. |
| LegacyBoards.LegacySound | libs/board/src/board.service.ts:216-231 | On an accepted board, each submitted cell is `h + v`, at least one of `h` and `v` is 0, and each grid holds only cars of its own axis. |
| LegacyBoards.Gather | libs/board/src/board.service.ts:64-72 | The rebuilt car has the step's id and is well formed. Its cells hold that id on the scanned grid. It has a cell exactly when some scanned cell holds the id. |
| LegacyBoards.GatherFinds | libs/board/src/board.service.ts:64-81 | A grid holding the id yields a car with at least one cell, so `positions[0]` exists. |
| LegacyBoards.MovedGrid | libs/board/src/board.service.ts:123-129 | Each cell after the move: shifted cells hold the id, vacated cells 0, and every other cell keeps its value. |
| LegacyBoards.Blocker | libs/board/src/board.service.ts:116-121 | The id a blocked legacy step reports: the `h` value of the target cell, or else its `v` value. `BlockerIsOccupant` proves it is the occupant of the full board. |
| LegacyBoards.SplitStep | libs/board/src/board.service.ts:52-144 | An off-board target gives an out-of-board error. A target non-zero on either grid gives a blocked error naming the `h` value, else the `v` value. A step succeeds exactly when the target is on the board and empty on both grids. On success the step's axis grid becomes the grid with the rebuilt car's cells cleared and its shifted cells painted with its id (`MovedGrid`), and the other grid is unchanged. `solved` reads `h[2][5] == 1` after the update. |
| LegacyBoards.CollectCar | libs/board/src/board.service.ts:64-72 | The row-major loop that calls `addPosition` returns a fresh car equal to `Gather`. |
| LegacyBoards.LegacyBoard.ApplyStep | libs/board/src/board.service.ts:52-144 | The in-place move equals `SplitStep`. A refused step leaves both grids; an accepted one writes the new axis grid back into the board object. |
| LegacyBoards.GatherPrefix | libs/board/src/board.service.ts:64-72 | When a grid holds a car's id on exactly that car's cells, the scan of the first `m` cells has rebuilt exactly the car's cells before index `m`, in order. |
| LegacyBoards.GatherRebuildsCar | libs/board/src/board.service.ts:64-72 | Such a scan rebuilds the whole car, cells and axis. |
| LegacyBoards.TargetCarHorizontal | libs/board/src/board.service.ts:202-214 | Car 1 of a legal position is horizontal, so it is drawn on `h`. |
| LegacyBoards.LayerCells | libs/board/src/board.service.ts:56-72 | On the grid of its axis, the cells holding a car's id are exactly that car's cells. |
| LegacyBoards.BlockerIsOccupant | libs/board/src/board.service.ts:116-121 | The blocker read from the two grids is the occupant of the full board. |
| LegacyBoards.LegacyStepDefined | libs/board/src/board.service.ts:56-81 | For a non-zero id, the axis grid holds the car exactly when the car-list engine finds the car and its axis suits the step. |
| LegacyBoards.MovedAxisLayer | libs/board/src/board.service.ts:123-138 | The rewritten axis grid is the moved car list painted on that axis. |
| LegacyBoards.SplitStepMatchesEngine | libs/board/src/board.service.ts:52-144 | For a known car moved along its axis on a legal position, the legacy move fails with the engine's error, or succeeds with the engine's new list painted one axis per grid and the same `solved` flag. |
| Players.NewGame | apps/api/src/player.service.ts:65-73 | A new game has no steps, is not solved, and is consistent. |
| Players.MoveState | apps/api/src/player.service.ts:141-169 | A solved game refuses every step, and an engine error is passed through. A step is accepted exactly when the game is unsolved and the engine accepts it. Then exactly that step is appended, the cars become the engine's updated list, and `solved` holds exactly when car 1 is on the exit cell. |
| Players.Commented | apps/api/src/player.service.ts:216-228 | A step number past the end changes nothing. Otherwise only that step's grade is set, and the cars, `solved` and step count are unchanged. |
| Players.Label | apps/api/src/player.service.ts:89-101 | Blunder, good and waste map to "blunder", "good" and "wasted". Calculating and a missing grade map to "calculating", and no other grade does. |
| Players.View | apps/api/src/player.service.ts:88-112 | The board is `boardFromCars` of the stored cars. The steps are mapped one to one and in order, keeping car and direction and labelling the grade. |
| Players.PlayerService.StartGame | apps/api/src/player.service.ts:53-76 | An unknown board is refused and nothing is stored. Otherwise a new game on that board is stored under `GAME-` plus the unique id, and that key is returned. |
| Players.PlayerService.GetGameState | apps/api/src/player.service.ts:78-113 | A missing game is refused; a stored game is shown by `View`. |
| Players.PlayerService.AcquireLock | apps/api/src/player.service.ts:241-266 | At most six attempts are made. The result is true exactly when one of the first six attempts is answered 'OK', and the lock is taken at the first such attempt. |
| Players.PlayerService.ReleaseLock | apps/api/src/player.service.ts:268-271 | The game's lock is dropped, and nothing else changes. |
| Players.PlayerService.MoveCar | apps/api/src/player.service.ts:115-189 | Without the lock it fails with a conflict, and nothing is read or changed. With the lock: a missing game, a solved game or a refused step changes nothing. An accepted step stores `MoveState` and returns its `solved` flag. The event carries the updated cars, the step and the new step count. The lock is released on every path. |
| Players.PlayerService.HandleCarMoveCommented | apps/api/src/player.service.ts:192-234 | Without the lock it reports a conflict and changes nothing. A missing game is skipped. Otherwise the stored game becomes `Commented`, and the lock is released. |
| Players.CommentIdempotent | apps/api/src/player.service.ts:224-228 | A grade delivered twice has the effect of one delivery. |
| Players.CommentsCommute | apps/api/src/player.service.ts:224-228 | Grades for different steps may be applied in either order. |
| Players.MoveThenComment | apps/api/src/player.service.ts:158-181 | A grade for the step number in the `car_moved` event lands on the step just played, and the earlier steps keep theirs. |
| Players.MoveCanBeUndone | apps/api/src/player.service.ts:141-169 | After an accepted, unsolving move, the opposite step of the same car is accepted. It restores the cars and records both steps. |
| Players.SolvedIsTerminal | apps/api/src/player.service.ts:141-143 | A solved game refuses every step, and grades keep it solved and consistent. |

## Left out

- Persistence is left out. That covers `findCreateFind` in both `createBoard`s, `findByPk` in `startGame`, and the `Board` model. The boards `startGame` can find are the `boards` map of `PlayerService`; a `createBoard` ends with the validated value.
- `createHash` (SHA-256) and JSON encoding are left out. Stored cars are `CarRecord` values. The deep clone in `applyStep` is value semantics, and the `h`/`v` strings of a legacy board are its two grids.
- Redis, the cache and Kafka are left out. Lock replies are a function `answers` from attempt number to 'OK' or not. The 500 ms sleeps, the lock expiry and game expiry (TTL) are not modelled, and stored games never expire. The `car_moved` event is returned instead of emitted. The `ulid` of a game id is a parameter.
- Logging and the message text of every error are left out. Errors are datatypes carrying the values the messages print; `VisitErrors`, `FirstBadCellReported`, `Finish` and `CanCarMove` state which values each error carries. This includes the placeholder coordinates (-999) in the axis errors of `canCarMove`.
- `Map<number, Car>` is a sequence in insertion order. Its `get` is `FindObject`, and iteration over `values()` is list order.
- The api `BoardService.applyStep` (apps/api/src/board.service.ts:50-55) only delegates to `Board.ApplyStep`.
- `size()`, `direction()` and `isValidSize()` are the field reads `|pos|`, `dir` and `ValidSize`.
- The solver, the move grading and `gm.service` are not part of this model.
- LegacyBoards.LegacyBoard.ApplyStep requires that the grid of the step's axis holds the car id. The code dereferences `positions[0]` without a guard and throws when it does not. `LegacyStepDefined` shows this happens exactly for an unknown car or a step across the car's axis. The api engine reports those cases as errors.
- LegacyBoards.LegacyNormalize, LegacyBoards.LegacyNormalizeRawBoard, LegacyBoards.PlaceOnAxis, LegacyBoards.Gather, LegacyBoards.CollectCar, LegacyBoards.SplitStep and LegacyBoards.LegacyBoard.ApplyStep read `car.positions()` as the car's `pos` field. The legacy service calls `positions()` at libs/board/src/board.service.ts:78, 153 and 208, but the `Car` class in libs/board/src/car.ts defines no such method. As written, the legacy `normalizeRawBoard` throws once car 1 passes its size check, and `placeCar` and `applyStep` throw when they reach those lines. The model gives the behaviour the code evidently means.
- LegacyBoards.LegacyStepDefined is stated for non-zero ids. With id 0 the legacy scan collects empty cells, a case no stored car has.
- LegacyBoards.SplitStepMatchesEngine covers steps the legacy code can run, that is, a known car moved along its axis.
- Players.PlayerService.HandleCarMoveCommented requires `stepId >= 1`. The code indexes `steps[stepId - 1]` without a guard and throws for a smaller number.
- A comment event whose `stepId` equals the step count is applied, not skipped: the code skips only when `steps.length < stepId`. The model follows the code, not the service's own log text, which reads `stepId >= steps.length`.
- `Board.IsSolvedCars` is defined for non-empty lists only. On an empty list `isSolved` takes the grid branch and fails.
- `moveCar` returns `solved ?? false`. The engine always sets `solved` on success, so the model returns it as is.
