/**
 * Legal configurations of the car-list board, as normalisation produces them,
 * and what a move does to them (libs/board/src/board.ts, with the
 * normalisation rules of apps/api/src/board.service.ts).
 */
module Configurations {
  import opened Wrappers
  import opened Cars
  import opened Board

  predicate DistinctIds(cars: seq<CarRecord>)
  {
    forall i, j :: 0 <= i < j < |cars| ==> cars[i].id != cars[j].id
  }

  /** No cell is covered by two cars. */
  predicate Disjoint(cars: seq<CarRecord>)
  {
    forall i, j, p :: 0 <= i < |cars| && 0 <= j < |cars| && i != j && p in cars[i].pos ==> p !in cars[j].pos
  }

  /** Car 1 is present, has two cells, and both are in row 2. */
  predicate TargetCarPlaced(cars: seq<CarRecord>)
  {
    exists i :: 0 <= i < |cars| && cars[i].id == 1 && |cars[i].pos| == 2 && forall q :: q in cars[i].pos ==> q.v == 2
  }

  /** A configuration as a normalised board describes it. */
  predicate Legal(cars: seq<CarRecord>)
  {
    && Buildable(cars)
    && (forall i :: 0 <= i < |cars| ==> cars[i].id > 0 && ValidSize(cars[i]))
    && DistinctIds(cars)
    && Disjoint(cars)
    && TargetCarPlaced(cars)
  }

  /** On a legal board a covered cell shows the id of the one car covering it. */
  lemma OccupantOfLegal(cars: seq<CarRecord>, p: Position, i: int)
    requires Disjoint(cars) && 0 <= i < |cars| && p in cars[i].pos
    ensures Occupant(cars, p) == cars[i].id
  {
    OccupantIsLastCover(cars, p, i);
  }

  /** On a legal board an empty cell is covered by no car. */
  lemma EmptyCellUncovered(cars: seq<CarRecord>, p: Position)
    requires forall i :: 0 <= i < |cars| ==> cars[i].id > 0
    requires Occupant(cars, p) == 0
    ensures forall j :: 0 <= j < |cars| ==> p !in cars[j].pos
  {
    forall j | 0 <= j < |cars|
      ensures p !in cars[j].pos
    {
      if p in cars[j].pos {
        OccupantOfCovered(cars, p, j);
      }
    }
  }

  function Opposite(d: MovementDirection): MovementDirection
  {
    match d
    case Up => Down
    case Down => Up
    case Left => Right
    case Right => Left
  }

  /** The cell a car leaves when it takes a step: its head for Right/Down, its tail for Left/Up. */
  function Vacated(pos: seq<Position>, d: MovementDirection): Position
    requires |pos| > 0
  {
    if d == Right || d == Down then pos[0] else Last(pos)
  }

  function Delta(d: MovementDirection): int
  {
    if d == Right || d == Down then 1 else -1
  }

  lemma OffsetDistinct(o: Position, dir: CarDirection, i: int, j: int)
    requires dir != Invalid && i != j
    ensures Offset(o, dir, i) != Offset(o, dir, j)
  {
  }

  /** The cells of a well-formed car, before and after a step along its axis, as offsets from its head. */
  lemma ShiftedLine(c: CarRecord, d: MovementDirection)
    requires WellFormed(c) && Compatible(c.dir, d)
    ensures |c.pos| >= 2
    ensures forall i :: 0 <= i < |c.pos| ==> c.pos[i] == Offset(c.pos[0], c.dir, i)
    ensures forall i :: 0 <= i < |c.pos| ==> ShiftAll(c.pos, d)[i] == Offset(c.pos[0], c.dir, i + Delta(d))
    ensures Target(c.pos, d) == Offset(c.pos[0], c.dir, if Delta(d) == 1 then |c.pos| else -1)
    ensures Vacated(c.pos, d) == Offset(c.pos[0], c.dir, if Delta(d) == 1 then 0 else |c.pos| - 1)
  {
    LineShape(c.pos, c.dir);
    assert Last(c.pos) == c.pos[|c.pos| - 1];
  }

  /** Membership in a run of cells `o + delta .. o + n - 1 + delta`, compared with the run `o .. o + n - 1`. */
  lemma RunMembership(pos: seq<Position>, s: seq<Position>, o: Position, dir: CarDirection, delta: int,
                      t: Position, vac: Position, q: Position)
    requires dir != Invalid && (delta == 1 || delta == -1) && |pos| == |s| >= 2
    requires forall i :: 0 <= i < |pos| ==> pos[i] == Offset(o, dir, i)
    requires forall i :: 0 <= i < |s| ==> s[i] == Offset(o, dir, i + delta)
    requires t == Offset(o, dir, if delta == 1 then |pos| else -1)
    requires vac == Offset(o, dir, if delta == 1 then 0 else |pos| - 1)
    ensures q in s <==> q == t || (q in pos && q != vac)
  {
    var n := |pos|;
    if q in s {
      var i :| 0 <= i < n && s[i] == q;
      if 0 <= i + delta < n {
        assert q == pos[i + delta];
        OffsetDistinct(o, dir, i + delta, if delta == 1 then 0 else n - 1);
      }
    }
    if q in pos && q != vac {
      var i :| 0 <= i < n && pos[i] == q;
      assert q == s[i - delta];
    }
    if q == t {
      assert q == s[if delta == 1 then n - 1 else 0];
    }
  }

  /** The cells after a step along the axis: the target cell and every old cell except the vacated one. */
  lemma ShiftedMembership(c: CarRecord, d: MovementDirection)
    requires WellFormed(c) && Compatible(c.dir, d)
    ensures |c.pos| >= 2
    ensures forall q :: q in ShiftAll(c.pos, d) <==> q == Target(c.pos, d) || (q in c.pos && q != Vacated(c.pos, d))
  {
    ShiftedLine(c, d);
    var pos, s := c.pos, ShiftAll(c.pos, d);
    forall q
      ensures q in s <==> q == Target(pos, d) || (q in pos && q != Vacated(pos, d))
    {
      RunMembership(pos, s, pos[0], c.dir, Delta(d), Target(pos, d), Vacated(pos, d), q);
    }
  }

  /** The vacated cell was the car's, the target cell was not, and stepping back from the new cells targets the vacated one. */
  lemma ShiftedEnds(c: CarRecord, d: MovementDirection)
    requires WellFormed(c) && Compatible(c.dir, d)
    ensures |c.pos| >= 2
    ensures Vacated(c.pos, d) in c.pos
    ensures Target(c.pos, d) !in c.pos
    ensures Target(ShiftAll(c.pos, d), Opposite(d)) == Vacated(c.pos, d)
  {
    ShiftedLine(c, d);
    var pos, s, n, o, delta := c.pos, ShiftAll(c.pos, d), |c.pos|, c.pos[0], Delta(d);
    assert Vacated(pos, d) == pos[if delta == 1 then 0 else n - 1];
    forall i | 0 <= i < n
      ensures pos[i] != Target(pos, d)
    {
      OffsetDistinct(o, c.dir, i, if delta == 1 then n else -1);
    }
    assert s[0] == Offset(o, c.dir, delta);
    assert Last(s) == Offset(o, c.dir, n - 1 + delta);
  }

  /**
   * Moving a well-formed car along its axis frees exactly the vacated cell and
   * takes exactly the target cell; stepping back from the new cells targets the
   * vacated one.
   */
  lemma ShiftedCells(c: CarRecord, d: MovementDirection)
    requires WellFormed(c) && Compatible(c.dir, d)
    ensures |c.pos| >= 2
    ensures forall q :: q in ShiftAll(c.pos, d) <==> q == Target(c.pos, d) || (q in c.pos && q != Vacated(c.pos, d))
    ensures Vacated(c.pos, d) in c.pos && Vacated(c.pos, d) !in ShiftAll(c.pos, d)
    ensures Target(c.pos, d) !in c.pos
    ensures Target(ShiftAll(c.pos, d), Opposite(d)) == Vacated(c.pos, d)
  {
    ShiftedMembership(c, d);
    ShiftedEnds(c, d);
  }

  /** Shifting every cell by the same step keeps a car contiguous. */
  lemma ShiftKeepsWellFormed(c: CarRecord, d: MovementDirection)
    requires WellFormed(c)
    ensures WellFormed(MovedCar(c, d))
  {
    var s := ShiftAll(c.pos, d);
    forall i | 0 <= i < |s| - 1
      ensures CheckDirection(s[i], s[i + 1]) == c.dir
    {
      assert CheckDirection(c.pos[i], c.pos[i + 1]) == c.dir;
    }
  }

  /**
   * After a legal move the engine's grid is exactly the occupancy grid of the
   * moved cars, so the `solved` flag reads the same cell `boardFromCars` would.
   */
  lemma MovedGridIsOccupancy(cars: seq<CarRecord>, step: Step)
    requires Legal(cars) && StepResult(cars, step).Success?
    ensures var k := FindCar(cars, step.carId).value;
      forall p :: OnBoard(p) ==>
        AfterMove(Occupant(cars, p), p, cars[k].pos, step.direction, cars[k].id)
          == Occupant(StepResult(cars, step).value.updated, p)
  {
    var k := FindCar(cars, step.carId).value;
    var car, d := cars[k], step.direction;
    var upd := StepResult(cars, step).value.updated;
    var t := Target(car.pos, d);
    ShiftedCells(car, d);
    EmptyCellUncovered(cars, t);
    forall p | OnBoard(p)
      ensures AfterMove(Occupant(cars, p), p, car.pos, d, car.id) == Occupant(upd, p)
    {
      if p in ShiftAll(car.pos, d) {
        assert forall j :: 0 <= j < |upd| && j != k ==> p !in upd[j].pos by {
          forall j | 0 <= j < |upd| && j != k
            ensures p !in upd[j].pos
          {
            assert upd[j] == cars[j];
            if p != t {
              assert p in car.pos;
            }
          }
        }
        OccupantIsLastCover(upd, p, k);
      } else if p in car.pos {
        forall j | 0 <= j < |upd|
          ensures p !in upd[j].pos
        {
          if j != k {
            assert upd[j] == cars[j];
          }
        }
        OccupantUncovered(upd, p);
      } else {
        assert p !in upd[k].pos;
        if j :| 0 <= j < |cars| && p in cars[j].pos {
          assert j != k && upd[j] == cars[j];
          OccupantOfLegal(cars, p, j);
          forall j' | j < j' < |upd|
            ensures p !in upd[j'].pos
          {
            if j' != k {
              assert upd[j'] == cars[j'];
            }
          }
          OccupantIsLastCover(upd, p, j);
        } else {
          OccupantUncovered(cars, p);
          forall j | 0 <= j < |upd|
            ensures p !in upd[j].pos
          {
            if j != k {
              assert upd[j] == cars[j];
            }
          }
          OccupantUncovered(upd, p);
        }
      }
    }
  }

  /** Moving one car into a free cell keeps the cars from overlapping. */
  lemma MovedDisjoint(cars: seq<CarRecord>, k: int, d: MovementDirection)
    requires 0 <= k < |cars| && Disjoint(cars) && WellFormed(cars[k]) && Compatible(cars[k].dir, d)
    requires forall j :: 0 <= j < |cars| ==> Target(cars[k].pos, d) !in cars[j].pos
    ensures Disjoint(cars[k := MovedCar(cars[k], d)])
  {
    var car, upd := cars[k], cars[k := MovedCar(cars[k], d)];
    var t := Target(car.pos, d);
    ShiftedCells(car, d);
    forall i, j, p | 0 <= i < |upd| && 0 <= j < |upd| && i != j && p in upd[i].pos
      ensures p !in upd[j].pos
    {
      if i == k {
        assert upd[j] == cars[j];
        if p != t {
          assert p in car.pos;
        }
      } else if j == k {
        assert upd[i] == cars[i];
        assert p !in car.pos && p != t;
      } else {
        assert upd[i] == cars[i] && upd[j] == cars[j];
      }
    }
  }

  /** Car 1 only ever moves along row 2, so it stays a two-cell car in row 2. */
  lemma MovedTargetCar(cars: seq<CarRecord>, k: int, d: MovementDirection)
    requires 0 <= k < |cars| && TargetCarPlaced(cars) && WellFormed(cars[k]) && Compatible(cars[k].dir, d)
    ensures TargetCarPlaced(cars[k := MovedCar(cars[k], d)])
  {
    var car, upd := cars[k], cars[k := MovedCar(cars[k], d)];
    var i :| 0 <= i < |cars| && cars[i].id == 1 && |cars[i].pos| == 2 && forall q :: q in cars[i].pos ==> q.v == 2;
    if i == k {
      var pos := car.pos;
      assert pos[0] in pos && pos[1] in pos;
      assert CheckDirection(pos[0], pos[1]) == car.dir;
      assert car.dir == Horizontal;
      forall q | q in upd[k].pos
        ensures q.v == 2
      {
        var m :| 0 <= m < 2 && upd[k].pos[m] == q;
        assert q == Shift(pos[m], d);
      }
    } else {
      assert upd[i] == cars[i];
    }
  }

  /** A legal configuration stays legal after any accepted step. */
  lemma MoveKeepsLegal(cars: seq<CarRecord>, step: Step)
    requires Legal(cars) && StepResult(cars, step).Success?
    ensures Legal(StepResult(cars, step).value.updated)
  {
    var k := FindCar(cars, step.carId).value;
    var car, d := cars[k], step.direction;
    var upd := StepResult(cars, step).value.updated;
    assert upd == cars[k := MovedCar(car, d)];
    var t := Target(car.pos, d);
    ShiftedCells(car, d);
    ShiftStaysOnBoard(car, d);
    ShiftKeepsWellFormed(car, d);
    EmptyCellUncovered(cars, t);
    MovedDisjoint(cars, k, d);
    MovedTargetCar(cars, k, d);
    assert forall j :: 0 <= j < |upd| ==> upd[j].id == cars[j].id && |upd[j].pos| == |cars[j].pos|;
    assert forall j :: 0 <= j < |upd| && j != k ==> upd[j] == cars[j];
  }

  /** On a legal board the grid view and the car-list view of `isSolved` agree. */
  lemma SolvedViewsAgree(cars: seq<CarRecord>)
    requires Legal(cars)
    ensures |cars| > 0
    ensures IsSolvedGrid(Occupancy(cars)) <==> IsSolvedCars(cars)
  {
    var i :| 0 <= i < |cars| && cars[i].id == 1 && |cars[i].pos| == 2 && forall q :: q in cars[i].pos ==> q.v == 2;
    var k := FindCar(cars, 1).value;
    assert k == i;
    var pos := cars[k].pos;
    assert pos[0] in pos && pos[1] in pos;
    assert CheckDirection(pos[0], pos[1]) == cars[k].dir;
    assert pos[1] == Position(pos[0].h + 1, 2);
    if Goal in pos {
      OccupantOfLegal(cars, Goal, k);
    } else if j :| 0 <= j < |cars| && Goal in cars[j].pos {
      OccupantOfLegal(cars, Goal, j);
      assert j != k;
    } else {
      OccupantUncovered(cars, Goal);
    }
  }

  /** The `solved` flag of an accepted step says whether car 1 now ends on the exit cell. */
  lemma StepSolvedMeansCarsSolved(cars: seq<CarRecord>, step: Step)
    requires Legal(cars) && StepResult(cars, step).Success?
    ensures var o := StepResult(cars, step).value;
      |o.updated| > 0 && (o.solved <==> IsSolvedCars(o.updated))
  {
    var o := StepResult(cars, step).value;
    MovedGridIsOccupancy(cars, step);
    MoveKeepsLegal(cars, step);
    SolvedViewsAgree(o.updated);
  }

  /** The moved car keeps its index: every car keeps its id. */
  lemma MovedFindCar(cars: seq<CarRecord>, step: Step, id: int)
    requires Buildable(cars) && StepResult(cars, step).Success?
    ensures FindCar(StepResult(cars, step).value.updated, id) == FindCar(cars, id)
  {
    var upd := StepResult(cars, step).value.updated;
    var k := FindCar(cars, step.carId).value;
    assert forall j :: 0 <= j < |upd| ==> upd[j].id == cars[j].id by {
      forall j | 0 <= j < |upd|
        ensures upd[j].id == cars[j].id
      {
        if j != k {
          assert upd[j] == cars[j];
        }
      }
    }
    var f := FindCar(upd, id);
    if f.Some? {
      assert FindCar(cars, id) == f by {
        assert cars[f.value].id == id;
        assert forall j :: 0 <= j < f.value ==> cars[j].id != id;
      }
    } else {
      assert forall j :: 0 <= j < |cars| ==> cars[j].id != id;
    }
  }

  /** The opposite step of the moved car is allowed: the cell it would take is the one just vacated. */
  lemma StepBackAllowed(cars: seq<CarRecord>, step: Step)
    requires Legal(cars) && StepResult(cars, step).Success?
    ensures var k := FindCar(cars, step.carId).value;
      var upd := StepResult(cars, step).value.updated;
      Buildable(upd) && |upd| == |cars| &&
      CanCarMove(Occupancy(upd), upd[k], Opposite(step.direction)) == Allowed
  {
    var k := FindCar(cars, step.carId).value;
    var car, d := cars[k], step.direction;
    var upd := StepResult(cars, step).value.updated;
    MoveKeepsLegal(cars, step);
    ShiftedCells(car, d);
    MovedGridIsOccupancy(cars, step);
    var moved := upd[k];
    var v := Vacated(car.pos, d);
    assert Target(moved.pos, Opposite(d)) == v;
    assert AllOnBoard(car.pos);
    assert Occupant(upd, v) == 0 by {
      assert AfterMove(Occupant(cars, v), v, car.pos, d, car.id) == 0;
    }
    assert Compatible(moved.dir, Opposite(d));
  }

  /** A step followed by the opposite step puts every cell of a car back. */
  lemma ShiftBack(pos: seq<Position>, d: MovementDirection)
    ensures ShiftAll(ShiftAll(pos, d), Opposite(d)) == pos
  {
  }

  /** Every accepted step on a legal board can be undone by the opposite step of the same car. */
  lemma MoveIsReversible(cars: seq<CarRecord>, step: Step, comment: Option<MovementComment>)
    requires Legal(cars) && StepResult(cars, step).Success?
    ensures var o := StepResult(cars, step).value;
      Buildable(o.updated) &&
      var back := StepResult(o.updated, Step(step.carId, Opposite(step.direction), comment));
      back.Success? && back.value.updated == cars
  {
    var k := FindCar(cars, step.carId).value;
    var d := step.direction;
    var upd := StepResult(cars, step).value.updated;
    StepBackAllowed(cars, step);
    MovedFindCar(cars, step, step.carId);
    ShiftBack(cars[k].pos, d);
    var back := StepResult(upd, Step(step.carId, Opposite(d), comment)).value.updated;
    assert back[k] == cars[k];
    assert back == cars;
  }
}
