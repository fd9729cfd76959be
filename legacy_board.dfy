/**
 * The legacy split-grid board service (libs/board/src/board.service.ts): the
 * same raw-board checks as the api service, horizontal cars drawn on one grid
 * and vertical cars on another, and a move that rewrites one of the two grids
 * of the board it is given.
 */
module LegacyBoards {
  import opened Wrappers
  import opened Cars
  import opened Board
  import opened Configurations
  import opened RawBoards

  /** The cars of `cars` whose axis is `ax`, in list order. */
  function Along(cars: seq<CarRecord>, ax: CarDirection): seq<CarRecord>
  {
    if |cars| == 0 then []
    else Along(cars[..|cars| - 1], ax) + (if Last(cars).dir == ax then [Last(cars)] else [])
  }

  /** The last car joins the filtered list exactly when it is on axis `ax`. */
  lemma AlongLast(cars: seq<CarRecord>, ax: CarDirection)
    requires |cars| > 0
    ensures Last(cars).dir == ax ==> Along(cars, ax) == Along(cars[..|cars| - 1], ax) + [Last(cars)]
    ensures Last(cars).dir != ax ==> Along(cars, ax) == Along(cars[..|cars| - 1], ax)
  {
    if Last(cars).dir != ax {
      assert Along(cars[..|cars| - 1], ax) + [] == Along(cars[..|cars| - 1], ax);
    }
  }

  /** Painting one more car on top: it wins on its own cells. */
  lemma OccupantSnoc(cars: seq<CarRecord>, c: CarRecord, p: Position)
    ensures Occupant(cars + [c], p) == if p in c.pos then c.id else Occupant(cars, p)
  {
    assert (cars + [c])[..|cars|] == cars;
  }

  /** The cell `p`, covered by `cars[i]` alone, shows that car on its axis's grid and nothing on the other. */
  lemma {:induction false} AlongCovered(cars: seq<CarRecord>, ax: CarDirection, p: Position, i: int)
    requires 0 <= i < |cars| && p in cars[i].pos
    requires forall j :: 0 <= j < |cars| && j != i ==> p !in cars[j].pos
    ensures Occupant(Along(cars, ax), p) == if cars[i].dir == ax then cars[i].id else 0
  {
    var init := cars[..|cars| - 1];
    var c := Last(cars);
    AlongLast(cars, ax);
    if c.dir == ax {
      OccupantSnoc(Along(init, ax), c, p);
    }
    if i == |cars| - 1 {
      if c.dir != ax {
        assert forall j :: 0 <= j < |init| ==> init[j] == cars[j];
        AlongUncovered(init, ax, p);
      }
    } else {
      assert p !in c.pos;
      assert forall j :: 0 <= j < |init| ==> init[j] == cars[j];
      AlongCovered(init, ax, p, i);
    }
  }

  /** A cell no car covers is empty on both grids. */
  lemma {:induction false} AlongUncovered(cars: seq<CarRecord>, ax: CarDirection, p: Position)
    requires forall j :: 0 <= j < |cars| ==> p !in cars[j].pos
    ensures Occupant(Along(cars, ax), p) == 0
  {
    if |cars| > 0 {
      var init := cars[..|cars| - 1];
      var c := Last(cars);
      AlongLast(cars, ax);
      if c.dir == ax {
        OccupantSnoc(Along(init, ax), c, p);
      }
      assert forall j :: 0 <= j < |init| ==> init[j] == cars[j];
      AlongUncovered(init, ax, p);
    }
  }

  /** The list filtered one car further. */
  lemma AlongStep(cars: seq<CarRecord>, ax: CarDirection, i: int, p: Position)
    requires 0 <= i < |cars|
    ensures Occupant(Along(cars[..i + 1], ax), p)
      == if cars[i].dir == ax && p in cars[i].pos then cars[i].id else Occupant(Along(cars[..i], ax), p)
  {
    assert cars[..i + 1][..i] == cars[..i];
    AlongLast(cars[..i + 1], ax);
    if cars[i].dir == ax {
      OccupantSnoc(Along(cars[..i], ax), cars[i], p);
    }
  }

  /** Changing a car that is not on axis `ax` into another such car leaves that axis's cars alone. */
  lemma {:induction false} AlongKeep(cars: seq<CarRecord>, k: int, c: CarRecord, ax: CarDirection)
    requires 0 <= k < |cars| && cars[k].dir != ax && c.dir != ax
    ensures Along(cars[k := c], ax) == Along(cars, ax)
  {
    var n := |cars| - 1;
    var upd := cars[k := c];
    if k < n {
      assert upd[..n] == cars[..n][k := c];
      AlongKeep(cars[..n], k, c, ax);
    } else {
      assert upd[..n] == cars[..n];
    }
  }

  /** The two grids of a legacy board: `h` holds the horizontal cars, `v` the vertical ones. */
  datatype SplitBoard = SplitBoard(h: Grid, v: Grid)

  /** A car list drawn the legacy way: each axis painted on its own grid. */
  function Layers(cars: seq<CarRecord>): SplitBoard
  {
    SplitBoard(Occupancy(Along(cars, Horizontal)), Occupancy(Along(cars, Vertical)))
  }

  /** The axis of the first car with id `id`, `Invalid` when there is none. */
  function AxisOf(cars: seq<CarRecord>, id: int): CarDirection
  {
    match FindCar(cars, id)
    case None => Invalid
    case Some(i) => cars[i].dir
  }

  /** On a legal board, the grid of axis `ax` is the full board with every car of another axis erased. */
  lemma LayerIsFiltered(cars: seq<CarRecord>, ax: CarDirection, p: Position)
    requires Legal(cars) && OnBoard(p)
    ensures var o := Occupant(cars, p);
      Occupant(Along(cars, ax), p) == if AxisOf(cars, o) == ax then o else 0
  {
    if i :| 0 <= i < |cars| && p in cars[i].pos {
      OccupantOfLegal(cars, p, i);
      FindCarIsFirst(cars, cars[i].id, i);
      AlongCovered(cars, ax, p, i);
    } else {
      OccupantUncovered(cars, p);
      AlongUncovered(cars, ax, p);
    }
  }

  /** On a legal board a cell is empty exactly when no car's axis can be found for its occupant. */
  lemma OccupantAxis(cars: seq<CarRecord>, p: Position)
    requires Legal(cars) && OnBoard(p)
    ensures Occupant(cars, p) == 0 <==> AxisOf(cars, Occupant(cars, p)) == Invalid
  {
    if i :| 0 <= i < |cars| && p in cars[i].pos {
      OccupantOfLegal(cars, p, i);
      FindCarIsFirst(cars, cars[i].id, i);
      assert cars[i].dir != Invalid;
    } else {
      OccupantUncovered(cars, p);
    }
  }

  /**
   * On a legal board every occupied cell is on exactly one of the two grids,
   * with the id of the car that covers it, and every other cell is 0 on both.
   */
  lemma LayersPartition(cars: seq<CarRecord>, p: Position)
    requires Legal(cars) && OnBoard(p)
    ensures var b := Layers(cars);
      && At(b.h, p) + At(b.v, p) == Occupant(cars, p)
      && (At(b.h, p) == 0 || At(b.v, p) == 0)
      && (At(b.h, p) != 0 ==> AxisOf(cars, At(b.h, p)) == Horizontal)
      && (At(b.v, p) != 0 ==> AxisOf(cars, At(b.v, p)) == Vertical)
  {
    LayerIsFiltered(cars, Horizontal, p);
    LayerIsFiltered(cars, Vertical, p);
    OccupantAxis(cars, p);
  }

  /**
   * `normalizeRawBoard` of the legacy service on a 6x6 board: the scan, the
   * target-car check and the size check of the api service, then every car
   * painted on the grid of its axis.
   */
  function LegacyNormalize(raw: RawGrid): (r: Result<SplitBoard, BoardError>)
    requires IsSixBySixBoard(raw)
    ensures r.Failure? <==> Normalize(raw).Failure?
    ensures r.Failure? ==> r.error == Normalize(raw).error
  {
    match Scan(raw, 36)
    case Failure(e) => Failure(e)
    case Success(cars) =>
      if !HasTargetCar(cars) then Failure(MissingTargetCar)
      else
        match FirstBadSize(cars, 0)
        case Some(i) => Failure(InvalidSize(cars[i].id, |cars[i].pos|))
        case None => Success(Layers(cars))
  }

  /** `createBoard` of the legacy service up to the store: a board that is not 6x6 is refused before it is read. */
  function LegacyValidate(raw: RawGrid): (r: Result<SplitBoard, BoardError>)
    ensures !IsSixBySixBoard(raw) <==> r == Failure(NotSixBySix)
    ensures IsSixBySixBoard(raw) ==> r == LegacyNormalize(raw)
  {
    if !IsSixBySixBoard(raw) then Failure(NotSixBySix) else LegacyNormalize(raw)
  }

  /** The switch on `direction()` in the legacy pass: a car is painted with `placeCar` on the grid of its axis, and nowhere when it has none. */
  method PlaceOnAxis(rawH: Grid, rawV: Grid, c: CarRecord) returns (h: Grid, v: Grid)
    requires IsGrid(rawH) && IsGrid(rawV) && AllOnBoard(c.pos)
    ensures IsGrid(h) && IsGrid(v)
    ensures forall p :: OnBoard(p) ==> At(h, p) == if c.dir == Horizontal && p in c.pos then c.id else At(rawH, p)
    ensures forall p :: OnBoard(p) ==> At(v, p) == if c.dir == Vertical && p in c.pos then c.id else At(rawV, p)
  {
    h, v := rawH, rawV;
    match c.dir
    case Horizontal =>
      h := PlaceCar(rawH, c);
    case Vertical =>
      v := PlaceCar(rawV, c);
    case Invalid =>
  }

  /** Painting car `i` on the grid of its axis extends the painting of the cars before it. */
  lemma LayerStep(cars: seq<CarRecord>, ax: CarDirection, i: int, g: Grid, g': Grid)
    requires 0 <= i < |cars| && g == Occupancy(Along(cars[..i], ax)) && IsGrid(g')
    requires forall p :: OnBoard(p) ==> At(g', p) == if cars[i].dir == ax && p in cars[i].pos then cars[i].id else At(g, p)
    ensures g' == Occupancy(Along(cars[..i + 1], ax))
  {
    forall p | OnBoard(p)
      ensures At(g', p) == At(Occupancy(Along(cars[..i + 1], ax)), p)
    {
      AlongStep(cars, ax, i, p);
    }
    GridsEqual(g', Occupancy(Along(cars[..i + 1], ax)));
  }

  /**
   * The legacy `normalizeRawBoard` on a 6x6 board: the shared scan and
   * target-car check, then one pass over the cars in order of first appearance
   * that refuses a car of the wrong size and paints the others with `placeCar`.
   */
  method LegacyNormalizeRawBoard(raw: RawGrid) returns (r: Result<SplitBoard, BoardError>)
    requires IsSixBySixBoard(raw)
    ensures r == LegacyNormalize(raw)
  {
    var scanned := ScanRawBoard(raw);
    if scanned.Failure? {
      return Failure(scanned.error);
    }
    var cars := scanned.value;
    ScanKeepsInv(raw, 36);
    if !HasTargetCar(cars) {
      return Failure(MissingTargetCar);
    }
    var rawH := EmptyBoard();
    var rawV := EmptyBoard();
    GridsEqual(rawH, Occupancy(Along(cars[..0], Horizontal)));
    GridsEqual(rawV, Occupancy(Along(cars[..0], Vertical)));
    for i := 0 to |cars|
      invariant FirstBadSize(cars, 0) == FirstBadSize(cars, i)
      invariant rawH == Occupancy(Along(cars[..i], Horizontal))
      invariant rawV == Occupancy(Along(cars[..i], Vertical))
    {
      if !ValidSize(cars[i]) {
        return Failure(InvalidSize(cars[i].id, |cars[i].pos|));
      }
      ScannedCar(raw, cars, cars[i]);
      ghost var oldH, oldV := rawH, rawV;
      rawH, rawV := PlaceOnAxis(rawH, rawV, cars[i]);
      LayerStep(cars, Horizontal, i, oldH, rawH);
      LayerStep(cars, Vertical, i, oldV, rawV);
    }
    assert cars[..|cars|] == cars;
    return Success(SplitBoard(rawH, rawV));
  }

  /** The scanned cars and the same cars sorted by id paint the same grid for each axis. */
  lemma SortedLayerCell(raw: RawGrid, cars: seq<CarRecord>, ax: CarDirection, p: Position)
    requires IsSixBySixBoard(raw) && ScanInv(raw, 36, cars) && OnBoard(p)
    requires Legal(SortById(cars))
    ensures Occupant(Along(SortById(cars), ax), p) == Occupant(Along(cars, ax), p)
  {
    var out := SortById(cars);
    IndexOfCell(p);
    var k := Index(p);
    assert CellsValid(raw, 36) && CarsSeen(raw, 36, cars);
    var m := CellAt(raw, k).n;
    if m > 0 {
      var i := FindCar(cars, m).value;
      ScannedCar(raw, cars, cars[i]);
      forall j | 0 <= j < |cars| && j != i
        ensures p !in cars[j].pos
      {
        ScannedCar(raw, cars, cars[j]);
      }
      AlongCovered(cars, ax, p, i);
      assert cars[i] in out;
      var j :| 0 <= j < |out| && out[j] == cars[i];
      AlongCovered(out, ax, p, j);
    } else {
      forall j | 0 <= j < |cars|
        ensures p !in cars[j].pos
      {
        ScannedCar(raw, cars, cars[j]);
      }
      forall j | 0 <= j < |out|
        ensures p !in out[j].pos
      {
        assert out[j] in cars;
        ScannedCar(raw, cars, out[j]);
      }
      AlongUncovered(cars, ax, p);
      AlongUncovered(out, ax, p);
    }
  }

  /**
   * The legacy service accepts exactly the boards the api service accepts, and
   * its two grids are the api's car list painted one axis at a time.
   */
  lemma LegacyMatchesApi(raw: RawGrid)
    requires IsSixBySixBoard(raw) && Normalize(raw).Success?
    ensures LegacyNormalize(raw) == Success(Layers(Normalize(raw).value))
  {
    var cars := Scan(raw, 36).value;
    ScanKeepsInv(raw, 36);
    SortedScanLegal(raw, cars);
    var out := SortById(cars);
    forall ax | ax == Horizontal || ax == Vertical
      ensures Occupancy(Along(out, ax)) == Occupancy(Along(cars, ax))
    {
      forall p | OnBoard(p)
        ensures At(Occupancy(Along(out, ax)), p) == At(Occupancy(Along(cars, ax)), p)
      {
        SortedLayerCell(raw, cars, ax, p);
      }
      GridsEqual(Occupancy(Along(out, ax)), Occupancy(Along(cars, ax)));
    }
  }

  /**
   * An accepted board is split cell for cell: the submitted value is on
   * exactly one grid (0 on both when empty), the horizontal grid holds only
   * horizontal cars and the vertical grid only vertical ones.
   */
  lemma LegacySound(raw: RawGrid)
    requires IsSixBySixBoard(raw) && LegacyNormalize(raw).Success?
    ensures var b := LegacyNormalize(raw).value;
      forall p :: OnBoard(p) ==>
        && raw[p.v][p.h] == Num(At(b.h, p) + At(b.v, p))
        && (At(b.h, p) == 0 || At(b.v, p) == 0)
        && (At(b.h, p) != 0 ==> AxisOf(Normalize(raw).value, At(b.h, p)) == Horizontal)
        && (At(b.v, p) != 0 ==> AxisOf(Normalize(raw).value, At(b.v, p)) == Vertical)
  {
    LegacyMatchesApi(raw);
    NormalizeSound(raw);
    forall p | OnBoard(p)
      ensures var b := LegacyNormalize(raw).value;
        && raw[p.v][p.h] == Num(At(b.h, p) + At(b.v, p))
        && (At(b.h, p) == 0 || At(b.v, p) == 0)
        && (At(b.h, p) != 0 ==> AxisOf(Normalize(raw).value, At(b.h, p)) == Horizontal)
        && (At(b.v, p) != 0 ==> AxisOf(Normalize(raw).value, At(b.v, p)) == Vertical)
    {
      LayersPartition(Normalize(raw).value, p);
    }
  }

  /**
   * The car the legacy `applyStep` rebuilds from grid `g`: a fresh car with id
   * `id` is offered, in row-major order, every one of the first `k` cells that
   * holds `id`; a cell `addPosition` refuses is skipped.
   */
  function Gather(g: Grid, id: int, k: int): (c: CarRecord)
    requires IsGrid(g) && 0 <= k <= 36
    ensures c.id == id && WellFormed(c)
    ensures forall q :: q in c.pos ==> OnBoard(q) && At(g, q) == id && Index(q) < k
    ensures |c.pos| > 0 <==> exists j :: 0 <= j < k && At(g, CellPos(j)) == id
  {
    if k == 0 then CarRecord(id, [], Invalid)
    else
      var c := Gather(g, id, k - 1);
      var p := CellPos(k - 1);
      CellOfIndex(k - 1);
      AddToKeepsWellFormed(c, p);
      if At(g, p) == id && AddTo(c, p).Some? then AddTo(c, p).value else c
  }

  /** Some cell of `g` holds `id`. */
  ghost predicate Holds(g: Grid, id: int)
    requires IsGrid(g)
  {
    exists p :: OnBoard(p) && At(g, p) == id
  }

  /** A grid that holds `id` gives a car with at least one cell. */
  lemma GatherFinds(g: Grid, id: int)
    requires IsGrid(g) && Holds(g, id)
    ensures |Gather(g, id, 36).pos| > 0
  {
    var p :| OnBoard(p) && At(g, p) == id;
    IndexOfCell(p);
  }

  /** A step Left or Right works on the horizontal grid, Up or Down on the vertical one. */
  predicate Sideways(d: MovementDirection)
  {
    d == Left || d == Right
  }

  function AxisGrid(b: SplitBoard, d: MovementDirection): Grid
  {
    if Sideways(d) then b.h else b.v
  }

  /** The occupant a legacy step reports at `t`: the horizontal grid's, or else the vertical grid's. */
  function Blocker(b: SplitBoard, t: Position): int
    requires IsGrid(b.h) && IsGrid(b.v) && OnBoard(t)
  {
    if At(b.h, t) != 0 then At(b.h, t) else At(b.v, t)
  }

  /** Grid `g` after the car with cells `pos` and id `id` has taken a step `d`. */
  function MovedGrid(g: Grid, pos: seq<Position>, d: MovementDirection, id: int): (r: Grid)
    requires IsGrid(g)
    ensures IsGrid(r)
    ensures forall p :: OnBoard(p) ==> At(r, p) == AfterMove(At(g, p), p, pos, d, id)
  {
    seq(6, v requires 0 <= v < 6 => seq(6, h requires 0 <= h < 6 => AfterMove(g[v][h], Position(h, v), pos, d, id)))
  }

  /** What the legacy `applyStep` leaves on the board, and whether car 1 is then on the exit cell. */
  datatype SplitOutcome = SplitOutcome(updated: SplitBoard, solved: bool)

  /**
   * The result of the legacy `applyStep`: the car is rebuilt from the grid of
   * the step's axis, the target cell must be on the board and empty on both
   * grids, and only the grid of the step's axis is rewritten.
   */
  function SplitStep(b: SplitBoard, step: Step): (r: Result<SplitOutcome, MoveError>)
    requires IsGrid(b.h) && IsGrid(b.v) && Holds(AxisGrid(b, step.direction), step.carId)
    ensures var car := Gather(AxisGrid(b, step.direction), step.carId, 36);
      && |car.pos| > 0
      && var t := Target(car.pos, step.direction);
      && (!OnBoard(t) ==> r == Failure(OutOfBoard(step.carId, t.h, t.v)))
      && (OnBoard(t) && (At(b.h, t) != 0 || At(b.v, t) != 0) ==>
            r == Failure(BlockedBy(step.carId, t.h, t.v, Blocker(b, t))) && Blocker(b, t) != 0)
      && (r.Success? <==> OnBoard(t) && At(b.h, t) == 0 && At(b.v, t) == 0)
    ensures r.Success? && Sideways(step.direction) ==> r.value.updated.v == b.v
    ensures r.Success? && !Sideways(step.direction) ==> r.value.updated.h == b.h
    ensures r.Success? ==> IsGrid(r.value.updated.h) && IsGrid(r.value.updated.v)
    ensures r.Success? ==>
      var g := AxisGrid(b, step.direction);
      AxisGrid(r.value.updated, step.direction) == MovedGrid(g, Gather(g, step.carId, 36).pos, step.direction, step.carId)
    ensures r.Success? ==> (r.value.solved <==> At(r.value.updated.h, Goal) == 1)
  {
    var d := step.direction;
    var g := AxisGrid(b, d);
    GatherFinds(g, step.carId);
    var car := Gather(g, step.carId, 36);
    var t := Target(car.pos, d);
    if !OnBoard(t) then Failure(OutOfBoard(car.id, t.h, t.v))
    else if Blocker(b, t) != 0 then Failure(BlockedBy(car.id, t.h, t.v, Blocker(b, t)))
    else
      var moved := MovedGrid(g, car.pos, d, car.id);
      var nb := if Sideways(d) then b.(h := moved) else b.(v := moved);
      Success(SplitOutcome(nb, At(nb.h, Goal) == 1))
  }

  /** The scan at the head of the legacy `applyStep`: a new car fed every cell of `g` that holds `id`. */
  method CollectCar(g: Grid, id: int) returns (car: Car)
    requires IsGrid(g)
    ensures fresh(car) && car.Valid() && car.Record() == Gather(g, id, 36)
  {
    car := new Car(id);
    ghost var k := 0;
    for row := 0 to 6
      invariant k == 6 * row && car.Valid() && car.Record() == Gather(g, id, k)
    {
      for col := 0 to 6
        invariant k == 6 * row + col && car.Valid() && car.Record() == Gather(g, id, k)
      {
        IndexOfCell(Position(col, row));
        if g[row][col] == car.id {
          var added := car.AddPosition(Position(col, row));
        }
        k := k + 1;
      }
    }
  }

  /** A stored legacy board: the two grids the service reads and writes back. */
  class LegacyBoard {
    var h: Grid
    var v: Grid

    constructor (h: Grid, v: Grid)
      requires IsGrid(h) && IsGrid(v)
      ensures this.h == h && this.v == v && Valid()
    {
      this.h := h;
      this.v := v;
    }

    predicate Valid()
      reads this
    {
      IsGrid(h) && IsGrid(v)
    }

    function Contents(): SplitBoard
      reads this
    {
      SplitBoard(h, v)
    }

    /**
     * The legacy `applyStep`: rebuilds the car from the grid of the step's
     * axis, checks the target cell, and on success clears and repaints the
     * car on that grid and stores it back into this board.
     */
    method ApplyStep(step: Step) returns (r: Result<bool, MoveError>)
      requires Valid() && Holds(AxisGrid(Contents(), step.direction), step.carId)
      modifies this
      ensures Valid()
      ensures var s := SplitStep(old(Contents()), step);
        && (s.Failure? ==> r == Failure(s.error) && Contents() == old(Contents()))
        && (s.Success? ==> r == Success(s.value.solved) && Contents() == s.value.updated)
    {
      var d := step.direction;
      var carAt := if Sideways(d) then h else v;
      var car := CollectCar(carAt, step.carId);
      GatherFinds(carAt, step.carId);
      var positions := car.pos;
      var t := Target(positions, d);
      if t.h < 0 || t.h > 5 || t.v < 0 || t.v > 5 {
        return Failure(OutOfBoard(car.id, t.h, t.v));
      }
      var blockedBy := if h[t.v][t.h] != 0 then h[t.v][t.h] else v[t.v][t.h];
      if blockedBy != 0 {
        return Failure(BlockedBy(car.id, t.h, t.v, blockedBy));
      }
      ghost var before := carAt;
      carAt := Paint(carAt, positions, 0);
      ShiftStaysOnBoard(car.Record(), d);
      var shifted;
      carAt, shifted := MoveAndPaint(carAt, positions, d, car.id);
      GridsEqual(carAt, MovedGrid(before, positions, d, car.id));
      if Sideways(d) {
        h := carAt;
      } else {
        v := carAt;
      }
      r := Success(h[2][5] == 1);
    }
  }

  /** The scan step over cell `m - 1` when that cell is the next cell of the car. */
  lemma GatherTakes(g: Grid, c: CarRecord, m: int, j: int)
    requires IsGrid(g) && WellFormed(c) && 0 < m <= 36 && 0 < j <= |c.pos|
    requires Gather(g, c.id, m - 1) == Partial(c, j - 1)
    requires CellPos(m - 1) == c.pos[j - 1] && At(g, c.pos[j - 1]) == c.id
    ensures Gather(g, c.id, m) == Partial(c, j)
  {
    AddToPartial(c, j - 1);
  }

  /** The scan step over cell `m - 1` when that cell does not hold the id. */
  lemma GatherSkips(g: Grid, id: int, m: int)
    requires IsGrid(g) && 0 < m <= 36
    requires OnBoard(CellPos(m - 1)) && At(g, CellPos(m - 1)) != id
    ensures Gather(g, id, m) == Gather(g, id, m - 1)
  {
  }

  /**
   * The cells of `g` holding `c.id` are exactly the cells of car `c`. This is
   * `Drawn` of the raw-board validation stated over the painted integer grid
   * of the legacy service, whose cells are never non-integers.
   */
  ghost predicate Shows(g: Grid, c: CarRecord)
    requires IsGrid(g)
  {
    WellFormed(c) && AllOnBoard(c.pos) && forall p :: OnBoard(p) ==> (At(g, p) == c.id <==> p in c.pos)
  }

  /**
   * When the cells of `g` holding `c.id` are exactly the cells of `c`, the
   * scan of the first `m` cells has rebuilt the cells of `c` before index `m`.
   */
  lemma {:induction false} GatherPrefix(g: Grid, c: CarRecord, m: int, j: int)
    requires IsGrid(g) && Shows(g, c) && 0 <= m <= 36 && SplitsAt(c, m, j)
    ensures Gather(g, c.id, m) == Partial(c, j)
  {
    var pos := c.pos;
    if m == 0 {
      if |pos| > 0 {
        assert pos[0] in pos;
      }
      assert pos[..0] == [];
    } else {
      CellOfIndex(m - 1);
      var q := CellPos(m - 1);
      if j > 0 && Index(pos[j - 1]) == m - 1 {
        SplitsBefore(c, m, j);
        GatherPrefix(g, c, m - 1, j - 1);
        assert pos[j - 1] in pos;
        IndexOfCell(pos[j - 1]);
        GatherTakes(g, c, m, j);
      } else {
        SplitsPast(c, m, j);
        GatherPrefix(g, c, m - 1, j);
        assert q !in pos by {
          forall i | 0 <= i < |pos|
            ensures pos[i] != q
          {
            assert Index(pos[i]) != Index(q);
          }
        }
        GatherSkips(g, c.id, m);
      }
    }
  }

  /** The legacy scan rebuilds car `c` from a grid whose cells holding `c.id` are exactly its cells. */
  lemma GatherRebuildsCar(g: Grid, c: CarRecord)
    requires IsGrid(g) && WellFormed(c) && AllOnBoard(c.pos)
    requires forall p :: OnBoard(p) ==> (At(g, p) == c.id <==> p in c.pos)
    ensures Gather(g, c.id, 36) == c
  {
    forall i | 0 <= i < |c.pos|
      ensures Index(c.pos[i]) < 36
    {
      assert c.pos[i] in c.pos;
      IndexOfCell(c.pos[i]);
    }
    GatherPrefix(g, c, 36, |c.pos|);
    assert c.pos[..|c.pos|] == c.pos;
  }

  /** Car 1 of a legal board lies along its row. */
  lemma TargetCarHorizontal(cars: seq<CarRecord>)
    requires Legal(cars)
    ensures AxisOf(cars, 1) == Horizontal
  {
    var i :| 0 <= i < |cars| && cars[i].id == 1 && |cars[i].pos| == 2 && forall q :: q in cars[i].pos ==> q.v == 2;
    FindCarIsFirst(cars, 1, i);
    var pos := cars[i].pos;
    assert pos[0] in pos && pos[1] in pos;
    assert CheckDirection(pos[0], pos[1]) == cars[i].dir;
  }

  /** On the grid of its own axis, the cells holding a car's id are exactly that car's cells. */
  lemma LayerCells(cars: seq<CarRecord>, k: int, p: Position)
    requires Legal(cars) && 0 <= k < |cars| && OnBoard(p)
    ensures Occupant(Along(cars, cars[k].dir), p) == cars[k].id <==> p in cars[k].pos
  {
    LayerIsFiltered(cars, cars[k].dir, p);
    FindCarIsFirst(cars, cars[k].id, k);
    if p in cars[k].pos {
      OccupantOfLegal(cars, p, k);
    } else if i :| 0 <= i < |cars| && p in cars[i].pos {
      OccupantOfLegal(cars, p, i);
    } else {
      OccupantUncovered(cars, p);
    }
  }

  /** The id a legacy step reads as blocking is the occupant of the full board. */
  lemma BlockerIsOccupant(cars: seq<CarRecord>, t: Position)
    requires Legal(cars) && OnBoard(t)
    ensures Blocker(Layers(cars), t) == Occupant(cars, t)
  {
    LayersPartition(cars, t);
  }

  /**
   * The legacy move finds a car to move exactly when the car-list move finds
   * the car and its axis suits the step; any other step (an unknown car, or a
   * car moved across its axis) leaves the legacy scan with no cell.
   */
  lemma LegacyStepDefined(cars: seq<CarRecord>, step: Step)
    requires Legal(cars) && step.carId != 0
    ensures Holds(AxisGrid(Layers(cars), step.direction), step.carId) <==>
      FindCar(cars, step.carId).Some? && Compatible(cars[FindCar(cars, step.carId).value].dir, step.direction)
  {
    var d, id := step.direction, step.carId;
    var ax := if Sideways(d) then Horizontal else Vertical;
    assert AxisGrid(Layers(cars), d) == Occupancy(Along(cars, ax));
    if FindCar(cars, id).Some? && Compatible(cars[FindCar(cars, id).value].dir, d) {
      var k := FindCar(cars, id).value;
      var p := cars[k].pos[0];
      assert p in cars[k].pos;
      LayerCells(cars, k, p);
    } else if Holds(AxisGrid(Layers(cars), d), id) {
      var p :| OnBoard(p) && At(Occupancy(Along(cars, ax)), p) == id;
      LayerIsFiltered(cars, ax, p);
      assert false;
    }
  }

  /** The grid of the moved car's axis after an accepted step is the moved list painted on that axis. */
  lemma MovedAxisLayer(cars: seq<CarRecord>, step: Step)
    requires Legal(cars) && StepResult(cars, step).Success?
    ensures var k := FindCar(cars, step.carId).value;
      var ax := cars[k].dir;
      MovedGrid(Occupancy(Along(cars, ax)), cars[k].pos, step.direction, cars[k].id)
        == Occupancy(Along(StepResult(cars, step).value.updated, ax))
  {
    var k := FindCar(cars, step.carId).value;
    var car, d := cars[k], step.direction;
    var ax := car.dir;
    var upd := StepResult(cars, step).value.updated;
    MoveKeepsLegal(cars, step);
    MovedGridIsOccupancy(cars, step);
    FindCarIsFirst(cars, car.id, k);
    var before := Occupancy(Along(cars, ax));
    var after := Occupancy(Along(upd, ax));
    forall p | OnBoard(p)
      ensures At(MovedGrid(before, car.pos, d, car.id), p) == At(after, p)
    {
      LayerIsFiltered(cars, ax, p);
      LayerIsFiltered(upd, ax, p);
      MovedFindCar(cars, step, Occupant(upd, p));
      assert AxisOf(upd, Occupant(upd, p)) == AxisOf(cars, Occupant(upd, p)) by {
        var f := FindCar(upd, Occupant(upd, p));
        if f.Some? && f.value != k {
          assert upd[f.value] == cars[f.value];
        }
      }
    }
    GridsEqual(MovedGrid(before, car.pos, d, car.id), after);
  }

  /**
   * On a legal board drawn the legacy way, a step of a known car along its
   * axis fails with the same error as the car-list `applyStep`, or succeeds
   * with the moved list drawn the legacy way and the same `solved` flag.
   */
  lemma SplitStepMatchesEngine(cars: seq<CarRecord>, step: Step)
    requires Legal(cars) && FindCar(cars, step.carId).Some?
    requires Compatible(cars[FindCar(cars, step.carId).value].dir, step.direction)
    ensures Holds(AxisGrid(Layers(cars), step.direction), step.carId)
    ensures StepResult(cars, step).Failure? ==>
      SplitStep(Layers(cars), step) == Failure(StepResult(cars, step).error)
    ensures StepResult(cars, step).Success? ==>
      var o := StepResult(cars, step).value;
      SplitStep(Layers(cars), step) == Success(SplitOutcome(Layers(o.updated), o.solved))
  {
    var k := FindCar(cars, step.carId).value;
    var car, d := cars[k], step.direction;
    var ax := car.dir;
    var b := Layers(cars);
    LegacyStepDefined(cars, step);
    assert AxisGrid(b, d) == Occupancy(Along(cars, ax));
    forall p | OnBoard(p)
      ensures At(AxisGrid(b, d), p) == car.id <==> p in car.pos
    {
      LayerCells(cars, k, p);
    }
    GatherRebuildsCar(AxisGrid(b, d), car);
    var t := Target(car.pos, d);
    if OnBoard(t) {
      BlockerIsOccupant(cars, t);
    }
    if StepResult(cars, step).Success? {
      var o := StepResult(cars, step).value;
      var s := SplitStep(b, step).value;
      MovedAxisLayer(cars, step);
      var other := if ax == Horizontal then Vertical else Horizontal;
      AlongKeep(cars, k, o.updated[k], other);
      assert o.updated == cars[k := o.updated[k]];
      assert s.updated == Layers(o.updated);
      MoveKeepsLegal(cars, step);
      TargetCarHorizontal(o.updated);
      LayerIsFiltered(o.updated, Horizontal, Goal);
      MovedGridIsOccupancy(cars, step);
    }
  }
}
