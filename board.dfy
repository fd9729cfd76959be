/**
 * The occupancy grid and the move engine of the car-list board
 * (libs/board/src/board.ts).
 */
module Board {
  import opened Wrappers
  import opened Cars

  /** A board as rows of cells: `g[v][h]` is 0 when empty, else the id of the car there. */
  type Grid = seq<seq<int>>

  predicate IsGrid(g: Grid)
  {
    |g| == 6 && forall v :: 0 <= v < 6 ==> |g[v]| == 6
  }

  predicate OnBoard(p: Position)
  {
    0 <= p.h < 6 && 0 <= p.v < 6
  }

  predicate AllOnBoard(pos: seq<Position>)
  {
    forall q :: q in pos ==> OnBoard(q)
  }

  function At(g: Grid, p: Position): int
    requires IsGrid(g) && OnBoard(p)
  {
    g[p.v][p.h]
  }

  /** `g` with the cell at `p` set to `x`. */
  function Put(g: Grid, p: Position, x: int): (r: Grid)
    requires IsGrid(g) && OnBoard(p)
    ensures IsGrid(r)
    ensures forall q :: OnBoard(q) ==> At(r, q) == if q == p then x else At(g, q)
  {
    g[p.v := g[p.v][p.h := x]]
  }

  /** Two grids with the same cells are the same grid. */
  lemma GridsEqual(a: Grid, b: Grid)
    requires IsGrid(a) && IsGrid(b)
    requires forall p :: OnBoard(p) ==> At(a, p) == At(b, p)
    ensures a == b
  {
    forall v | 0 <= v < 6
      ensures a[v] == b[v]
    {
      forall h | 0 <= h < 6
        ensures a[v][h] == b[v][h]
      {
        assert At(a, Position(h, v)) == At(b, Position(h, v));
      }
    }
  }

  /** `emptyBoard`: six rows of six empty cells. */
  function EmptyBoard(): (g: Grid)
    ensures IsGrid(g)
    ensures forall p :: OnBoard(p) ==> At(g, p) == 0
  {
    seq(6, _ => seq(6, _ => 0))
  }

  /** The exit cell: car 1 wins when it reaches column 5 of row 2. */
  const Goal := Position(5, 2)

  /** The id painted on `p` when the cars are painted in list order: the last car covering `p` wins. */
  function Occupant(cars: seq<CarRecord>, p: Position): int
  {
    if |cars| == 0 then 0
    else if p in Last(cars).pos then Last(cars).id
    else Occupant(cars[..|cars| - 1], p)
  }

  /** The grid `boardFromCars` paints. */
  function Occupancy(cars: seq<CarRecord>): (g: Grid)
    ensures IsGrid(g)
    ensures forall p :: OnBoard(p) ==> At(g, p) == Occupant(cars, p)
  {
    seq(6, v => seq(6, h => Occupant(cars, Position(h, v))))
  }

  /** A cell covered by some car shows the id of the last car in the list that covers it. */
  lemma {:induction false} OccupantIsLastCover(cars: seq<CarRecord>, p: Position, i: int)
    requires 0 <= i < |cars| && p in cars[i].pos
    requires forall j :: i < j < |cars| ==> p !in cars[j].pos
    ensures Occupant(cars, p) == cars[i].id
  {
    if i < |cars| - 1 {
      assert p !in cars[|cars| - 1].pos;
      var init := cars[..|cars| - 1];
      assert forall j :: i < j < |init| ==> init[j] == cars[j];
      OccupantIsLastCover(init, p, i);
    }
  }

  /** A cell that no car covers stays empty. */
  lemma {:induction false} OccupantUncovered(cars: seq<CarRecord>, p: Position)
    requires forall j :: 0 <= j < |cars| ==> p !in cars[j].pos
    ensures Occupant(cars, p) == 0
  {
    if |cars| > 0 {
      var init := cars[..|cars| - 1];
      assert forall j :: 0 <= j < |init| ==> init[j] == cars[j];
      OccupantUncovered(init, p);
    }
  }

  /** A covered cell shows the id of one of the cars that cover it. */
  lemma {:induction false} OccupantOfCovered(cars: seq<CarRecord>, p: Position, i: int)
    requires 0 <= i < |cars| && p in cars[i].pos
    ensures exists j :: i <= j < |cars| && p in cars[j].pos && Occupant(cars, p) == cars[j].id
  {
    if p in Last(cars).pos {
      assert p in cars[|cars| - 1].pos;
    } else {
      var init := cars[..|cars| - 1];
      assert i < |init| && init[i] == cars[i];
      OccupantOfCovered(init, p, i);
      var j :| i <= j < |init| && p in init[j].pos && Occupant(init, p) == init[j].id;
      assert cars[j] == init[j];
    }
  }

  /** A non-empty cell is covered by a car with that id. */
  lemma {:induction false} OccupantCovers(cars: seq<CarRecord>, p: Position)
    requires Occupant(cars, p) != 0
    ensures exists j :: 0 <= j < |cars| && p in cars[j].pos && cars[j].id == Occupant(cars, p)
  {
    if p in Last(cars).pos {
      assert p in cars[|cars| - 1].pos;
    } else {
      var init := cars[..|cars| - 1];
      OccupantCovers(init, p);
      var j :| 0 <= j < |init| && p in init[j].pos && init[j].id == Occupant(init, p);
      assert cars[j] == init[j];
    }
  }

  /** Writes `x` into every cell of `cells`, in order. */
  method Paint(g: Grid, cells: seq<Position>, x: int) returns (r: Grid)
    requires IsGrid(g) && AllOnBoard(cells)
    ensures IsGrid(r)
    ensures forall p :: OnBoard(p) ==> At(r, p) == if p in cells then x else At(g, p)
  {
    r := g;
    for j := 0 to |cells|
      invariant IsGrid(r)
      invariant forall p :: OnBoard(p) ==> At(r, p) == if p in cells[..j] then x else At(g, p)
    {
      assert cells[..j + 1] == cells[..j] + [cells[j]];
      r := Put(r, cells[j], x);
    }
    assert cells[..|cells|] == cells;
  }

  /** Paints every cell of `c` with its id (the inner loop of `boardFromCars`, and `placeCar`). */
  method PlaceCar(g: Grid, c: CarRecord) returns (r: Grid)
    requires IsGrid(g) && AllOnBoard(c.pos)
    ensures IsGrid(r)
    ensures forall p :: OnBoard(p) ==> At(r, p) == if p in c.pos then c.id else At(g, p)
  {
    r := Paint(g, c.pos, c.id);
  }

  predicate CarsOnBoard(cars: seq<CarRecord>)
  {
    forall i :: 0 <= i < |cars| ==> AllOnBoard(cars[i].pos)
  }

  /** `boardFromCars`: paints the cars in list order onto an empty board. */
  method BoardFromCars(cars: seq<CarRecord>) returns (g: Grid)
    requires CarsOnBoard(cars)
    ensures g == Occupancy(cars)
  {
    g := EmptyBoard();
    for i := 0 to |cars|
      invariant IsGrid(g)
      invariant forall p :: OnBoard(p) ==> At(g, p) == Occupant(cars[..i], p)
    {
      assert cars[..i + 1][..i] == cars[..i];
      g := PlaceCar(g, cars[i]);
    }
    assert cars[..|cars|] == cars;
    GridsEqual(g, Occupancy(cars));
  }

  /** The cell a position moves to in one step. */
  function Shift(p: Position, d: MovementDirection): Position
  {
    match d
    case Up => Position(p.h, p.v - 1)
    case Right => Position(p.h + 1, p.v)
    case Down => Position(p.h, p.v + 1)
    case Left => Position(p.h - 1, p.v)
  }

  function ShiftAll(pos: seq<Position>, d: MovementDirection): (r: seq<Position>)
    ensures |r| == |pos|
    ensures forall i :: 0 <= i < |pos| ==> r[i] == Shift(pos[i], d)
  {
    seq(|pos|, i requires 0 <= i < |pos| => Shift(pos[i], d))
  }

  /**
   * The cell a step needs free: before the head for Left and Up, past the tail
   * for Right and Down (the other coordinate is taken from the head).
   */
  function Target(pos: seq<Position>, d: MovementDirection): Position
    requires |pos| > 0
  {
    match d
    case Left => Position(pos[0].h - 1, pos[0].v)
    case Right => Position(Last(pos).h + 1, pos[0].v)
    case Up => Position(pos[0].h, pos[0].v - 1)
    case Down => Position(pos[0].h, Last(pos).v + 1)
  }

  /** Horizontal cars move Left/Right, vertical cars Up/Down, a car without an axis not at all. */
  predicate Compatible(dir: CarDirection, d: MovementDirection)
  {
    match dir
    case Horizontal => d == Left || d == Right
    case Vertical => d == Up || d == Down
    case Invalid => false
  }

  /** `pos[0]` moved `i` cells along `dir`. */
  function Offset(p: Position, dir: CarDirection, i: int): Position
  {
    match dir
    case Horizontal => Position(p.h + i, p.v)
    case Vertical => Position(p.h, p.v + i)
    case Invalid => p
  }

  lemma {:induction false} LineShapeAt(pos: seq<Position>, dir: CarDirection, i: int)
    requires Contiguous(pos, dir) && dir != Invalid && 0 <= i < |pos|
    ensures pos[i] == Offset(pos[0], dir, i)
  {
    if i > 0 {
      LineShapeAt(pos, dir, i - 1);
      assert CheckDirection(pos[i - 1], pos[i]) == dir;
    }
  }

  /** The cells of a well-formed car lie on one line, one after the other. */
  lemma LineShape(pos: seq<Position>, dir: CarDirection)
    requires Contiguous(pos, dir) && dir != Invalid
    ensures forall i :: 0 <= i < |pos| ==> pos[i] == Offset(pos[0], dir, i)
  {
    forall i | 0 <= i < |pos|
      ensures pos[i] == Offset(pos[0], dir, i)
    {
      LineShapeAt(pos, dir, i);
    }
  }

  /** When the target cell is on the board, every shifted cell of a well-formed car is too. */
  lemma ShiftStaysOnBoard(c: CarRecord, d: MovementDirection)
    requires WellFormed(c) && |c.pos| > 0 && AllOnBoard(c.pos) && OnBoard(Target(c.pos, d))
    ensures AllOnBoard(ShiftAll(c.pos, d))
  {
    var pos := c.pos;
    if |pos| >= 2 {
      LineShape(pos, c.dir);
      forall i | 0 <= i < |pos|
        ensures OnBoard(Shift(pos[i], d))
      {
        assert pos[i] in pos && Last(pos) in pos && pos[0] in pos;
        assert pos[i] == Offset(pos[0], c.dir, i);
        assert Last(pos) == Offset(pos[0], c.dir, |pos| - 1);
      }
    }
  }

  /** Why a step is refused. */
  datatype MoveError =
    | UnknownCar(carId: int)
    | InvalidCar(carId: int)
    | HorizontalCannotMoveUpDown(carId: int)
    | VerticalCannotMoveLeftRight(carId: int)
    | OutOfBoard(carId: int, h: int, v: int)
    | BlockedBy(carId: int, h: int, v: int, blocker: int)

  datatype Verdict = Allowed | Denied(error: MoveError)

  /** The bounds and blocking checks of `canCarMove`, once the axis is known to fit. */
  function CheckTarget(board: Grid, car: CarRecord, d: MovementDirection): Verdict
    requires IsGrid(board) && |car.pos| > 0
  {
    var t := Target(car.pos, d);
    if t.h < 0 || t.h > 5 || t.v < 0 || t.v > 5 then
      Denied(OutOfBoard(car.id, t.h, t.v))
    else if board[t.v][t.h] != 0 then
      Denied(BlockedBy(car.id, t.h, t.v, board[t.v][t.h]))
    else
      Allowed
  }

  /** `canCarMove`: may `car` take one step in direction `d` on `board`? */
  function CanCarMove(board: Grid, car: CarRecord, d: MovementDirection): (r: Verdict)
    requires IsGrid(board)
    requires car.dir != Invalid ==> |car.pos| > 0
    ensures car.dir == Invalid ==> r == Denied(InvalidCar(car.id))
    ensures car.dir == Horizontal && (d == Up || d == Down) ==> r == Denied(HorizontalCannotMoveUpDown(car.id))
    ensures car.dir == Vertical && (d == Left || d == Right) ==> r == Denied(VerticalCannotMoveLeftRight(car.id))
    ensures Compatible(car.dir, d) ==>
      var t := Target(car.pos, d);
      && (!OnBoard(t) ==> r == Denied(OutOfBoard(car.id, t.h, t.v)))
      && (OnBoard(t) && At(board, t) != 0 ==> r == Denied(BlockedBy(car.id, t.h, t.v, At(board, t))))
    ensures r == Allowed <==>
      Compatible(car.dir, d) && OnBoard(Target(car.pos, d)) && At(board, Target(car.pos, d)) == 0
  {
    match car.dir
    case Horizontal =>
      if d != Left && d != Right then Denied(HorizontalCannotMoveUpDown(car.id))
      else CheckTarget(board, car, d)
    case Vertical =>
      if d != Up && d != Down then Denied(VerticalCannotMoveLeftRight(car.id))
      else CheckTarget(board, car, d)
    case Invalid =>
      Denied(InvalidCar(car.id))
  }

  function FindFrom(cars: seq<CarRecord>, id: int, from: nat): (r: Option<nat>)
    requires from <= |cars|
    ensures r.Some? ==> from <= r.value < |cars| && cars[r.value].id == id
    ensures r.Some? ==> forall j :: from <= j < r.value ==> cars[j].id != id
    ensures r.None? ==> forall j :: from <= j < |cars| ==> cars[j].id != id
    decreases |cars| - from
  {
    if from == |cars| then None
    else if cars[from].id == id then Some(from)
    else FindFrom(cars, id, from + 1)
  }

  /** `cars.find(c => c.id === id)`: the index of the first car with that id. */
  function FindCar(cars: seq<CarRecord>, id: int): (r: Option<nat>)
    ensures r.Some? ==> r.value < |cars| && cars[r.value].id == id
    ensures r.Some? ==> forall j :: 0 <= j < r.value ==> cars[j].id != id
    ensures r.None? ==> forall j :: 0 <= j < |cars| ==> cars[j].id != id
  {
    FindFrom(cars, id, 0)
  }

  /** `isSolved` on a grid: the exit cell holds car 1. */
  predicate IsSolvedGrid(g: Grid)
    requires IsGrid(g)
  {
    At(g, Goal) == 1
  }

  /** `isSolved` on a non-empty car list: the first car with id 1 ends on the exit cell. */
  predicate IsSolvedCars(cars: seq<CarRecord>)
    requires |cars| > 0
  {
    match FindCar(cars, 1)
    case None => false
    case Some(k) => |cars[k].pos| > 0 && Last(cars[k].pos) == Goal
  }

  /** What `applyStep` produces on success. */
  datatype StepOutcome = StepOutcome(updated: seq<CarRecord>, solved: bool)

  /** Cars as the store holds them: each built by `addPosition` and lying on the board. */
  predicate Buildable(cars: seq<CarRecord>)
  {
    CarsOnBoard(cars) && forall i :: 0 <= i < |cars| ==> WellFormed(cars[i])
  }

  /**
   * A cell of the grid after a car with cells `pos` and id `id` has been moved:
   * its old cells are cleared, then its shifted cells painted.
   */
  function AfterMove(before: int, p: Position, pos: seq<Position>, d: MovementDirection, id: int): int
  {
    if p in ShiftAll(pos, d) then id else if p in pos then 0 else before
  }

  function MovedCar(c: CarRecord, d: MovementDirection): CarRecord
  {
    c.(pos := ShiftAll(c.pos, d))
  }

  /** The result `applyStep` computes for `cars` and `step`. */
  function StepResult(cars: seq<CarRecord>, step: Step): (r: Result<StepOutcome, MoveError>)
    requires Buildable(cars)
    ensures FindCar(cars, step.carId).None? ==> r == Failure(UnknownCar(step.carId))
    ensures FindCar(cars, step.carId).Some? ==>
      var car := cars[FindCar(cars, step.carId).value];
      var verdict := CanCarMove(Occupancy(cars), car, step.direction);
      (verdict.Denied? ==> r == Failure(verdict.error)) && (verdict.Allowed? <==> r.Success?)
    ensures r.Success? ==>
      var k := FindCar(cars, step.carId).value;
      && |r.value.updated| == |cars|
      && (forall j :: 0 <= j < |cars| && j != k ==> r.value.updated[j] == cars[j])
      && r.value.updated[k].id == cars[k].id && r.value.updated[k].dir == cars[k].dir
      && |r.value.updated[k].pos| == |cars[k].pos|
      && (forall i :: 0 <= i < |cars[k].pos| ==> r.value.updated[k].pos[i] == Shift(cars[k].pos[i], step.direction))
  {
    match FindCar(cars, step.carId)
    case None => Failure(UnknownCar(step.carId))
    case Some(k) =>
      var car := cars[k];
      match CanCarMove(Occupancy(cars), car, step.direction)
      case Denied(e) => Failure(e)
      case Allowed =>
        var solved := AfterMove(Occupant(cars, Goal), Goal, car.pos, step.direction, car.id) == 1;
        Success(StepOutcome(cars[k := MovedCar(car, step.direction)], solved))
  }

  /** The second pass of `applyStep`: moves each cell of the car one step and paints it with the car's id. */
  method MoveAndPaint(g: Grid, pos: seq<Position>, d: MovementDirection, id: int) returns (r: Grid, shifted: seq<Position>)
    requires IsGrid(g) && AllOnBoard(ShiftAll(pos, d))
    ensures shifted == ShiftAll(pos, d)
    ensures IsGrid(r)
    ensures forall p :: OnBoard(p) ==> At(r, p) == if p in shifted then id else At(g, p)
  {
    r, shifted := g, [];
    for j := 0 to |pos|
      invariant IsGrid(r)
      invariant shifted == ShiftAll(pos, d)[..j]
      invariant forall p :: OnBoard(p) ==> At(r, p) == if p in shifted then id else At(g, p)
    {
      var q := Shift(pos[j], d);
      assert q in ShiftAll(pos, d);
      shifted := shifted + [q];
      r := Put(r, q, id);
    }
    assert shifted == ShiftAll(pos, d);
  }

  /**
   * `applyStep`: finds the car, paints the board, checks the move, then moves a
   * copy of the car on the board and reports whether car 1 sits on the exit cell.
   * The input list is a value and is never changed.
   */
  method ApplyStep(cars: seq<CarRecord>, step: Step) returns (r: Result<StepOutcome, MoveError>)
    requires Buildable(cars)
    ensures r == StepResult(cars, step)
  {
    var found := FindCar(cars, step.carId);
    if found.None? {
      return Failure(UnknownCar(step.carId));
    }
    var k := found.value;
    var car := cars[k];
    var board := BoardFromCars(cars);
    var verdict := CanCarMove(board, car, step.direction);
    if verdict.Denied? {
      return Failure(verdict.error);
    }
    var d := step.direction;
    var updated := cars;
    var moving := updated[k];
    board := Paint(board, moving.pos, 0);
    ShiftStaysOnBoard(moving, d);
    var shifted;
    board, shifted := MoveAndPaint(board, moving.pos, d, car.id);
    updated := updated[k := moving.(pos := shifted)];
    r := Success(StepOutcome(updated, IsSolvedGrid(board)));
  }
}
