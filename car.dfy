/**
 * The car builder of the puzzle: positions, orientations, steps, and the
 * `Car` object that grows one cell at a time (libs/board/src/car.ts).
 */
module Cars {
  import opened Wrappers

  /** The four ways a step can move a car. */
  datatype MovementDirection = Up | Right | Down | Left

  /** The axis of a car; `Invalid` until a second cell fixes it. */
  datatype CarDirection = Invalid | Horizontal | Vertical

  /** The grade the solver attaches to a played step. */
  datatype MovementComment = Calculating | Good | Waste | Blunder

  /** A cell of the board: column `h`, row `v`. */
  datatype Position = Position(h: int, v: int)

  /** One move of one car; `comment` is absent until a grade arrives. */
  datatype Step = Step(carId: int, direction: MovementDirection, comment: Option<MovementComment>)

  /** The plain data of a car, as it is serialised and stored. */
  datatype CarRecord = CarRecord(id: int, pos: seq<Position>, dir: CarDirection)

  function Last<T>(s: seq<T>): T
    requires |s| > 0
  {
    s[|s| - 1]
  }

  /** The cell one further along `dir` from `p`. */
  function Next(p: Position, dir: CarDirection): Position
  {
    match dir
    case Horizontal => Position(p.h + 1, p.v)
    case Vertical => Position(p.h, p.v + 1)
    case Invalid => p
  }

  /** The orientation that a cell `p2` gives a car whose tail is `p1`. */
  function CheckDirection(p1: Position, p2: Position): (d: CarDirection)
    ensures d == Horizontal <==> p2 == Position(p1.h + 1, p1.v)
    ensures d == Vertical <==> p2 == Position(p1.h, p1.v + 1)
    ensures d != Invalid ==> p2 == Next(p1, d)
  {
    if p1.h == p2.h then
      (if p1.v == p2.v - 1 then Vertical else Invalid)
    else if p1.v == p2.v then
      (if p1.h == p2.h - 1 then Horizontal else Invalid)
    else
      Invalid
  }

  /** Consecutive cells are exactly one step apart along `dir`. */
  predicate Contiguous(pos: seq<Position>, dir: CarDirection)
  {
    forall i :: 0 <= i < |pos| - 1 ==> CheckDirection(pos[i], pos[i + 1]) == dir
  }

  /** The invariant every car built by `AddPosition` keeps. */
  predicate WellFormed(c: CarRecord)
  {
    Contiguous(c.pos, c.dir) && (c.dir != Invalid <==> |c.pos| >= 2)
  }

  /** `isValidSize`: a finished car has two or three cells. */
  predicate ValidSize(c: CarRecord)
  {
    |c.pos| == 2 || |c.pos| == 3
  }

  /**
   * What `addPosition` does to a car: the extended car, or `None` when the
   * cell is refused (and the car stays as it was).
   */
  function AddTo(c: CarRecord, p: Position): (r: Option<CarRecord>)
    ensures r.Some? ==> r.value.id == c.id && r.value.pos == c.pos + [p]
    ensures |c.pos| == 0 ==> r == Some(CarRecord(c.id, [p], c.dir))
    ensures |c.pos| == 1 ==>
      (r.Some? <==> p == Position(c.pos[0].h + 1, c.pos[0].v) || p == Position(c.pos[0].h, c.pos[0].v + 1))
    ensures |c.pos| == 1 && r.Some? ==>
      r.value.dir == (if p.v == c.pos[0].v then Horizontal else Vertical)
    ensures |c.pos| >= 2 && c.dir != Invalid ==>
      (r.Some? <==> p == Next(Last(c.pos), c.dir)) && (r.Some? ==> r.value.dir == c.dir)
  {
    if |c.pos| == 0 then
      Some(c.(pos := [p]))
    else if |c.pos| == 1 then
      var d := CheckDirection(c.pos[0], p);
      if d == Invalid then None else Some(c.(pos := c.pos + [p], dir := d))
    else
      var d := CheckDirection(Last(c.pos), p);
      if c.dir != d then None else Some(c.(pos := c.pos + [p]))
  }

  /** Adding a cell never breaks the car invariant. */
  lemma AddToKeepsWellFormed(c: CarRecord, p: Position)
    requires WellFormed(c)
    ensures AddTo(c, p).Some? ==> WellFormed(AddTo(c, p).value)
  {
    var r := AddTo(c, p);
    if r.Some? && |c.pos| >= 1 {
      var s := r.value.pos;
      assert s == c.pos + [p];
      forall i | 0 <= i < |s| - 1
        ensures CheckDirection(s[i], s[i + 1]) == r.value.dir
      {
        if i < |c.pos| - 1 {
          assert s[i] == c.pos[i] && s[i + 1] == c.pos[i + 1];
        } else {
          assert s[i] == Last(c.pos) && s[i + 1] == p;
        }
      }
    }
  }

  /** A car under construction: `pos` grows at the tail, `dir` is fixed by the second cell. */
  class Car {
    const id: int
    var pos: seq<Position>
    var dir: CarDirection

    constructor (id: int)
      ensures this.id == id && pos == [] && dir == Invalid
      ensures Valid()
    {
      this.id := id;
      pos := [];
      dir := Invalid;
    }

    /** The car's current contents as plain data. */
    function Record(): CarRecord
      reads this
    {
      CarRecord(id, pos, dir)
    }

    predicate Valid()
      reads this
    {
      WellFormed(Record())
    }

    /** Appends `p` when it extends the car along its axis; otherwise changes nothing. */
    method AddPosition(p: Position) returns (ok: bool)
      requires Valid()
      modifies this
      ensures Valid()
      ensures ok == AddTo(old(Record()), p).Some?
      ensures Record() == if ok then AddTo(old(Record()), p).value else old(Record())
    {
      AddToKeepsWellFormed(Record(), p);
      if |pos| == 0 {
        pos := pos + [p];
        return true;
      }
      if |pos| == 1 {
        var d := CheckDirection(pos[0], p);
        if d == Invalid {
          return false;
        }
        dir := d;
        pos := pos + [p];
        return true;
      }
      var d := CheckDirection(Last(pos), p);
      if dir != d {
        return false;
      }
      pos := pos + [p];
      return true;
    }
  }
}
