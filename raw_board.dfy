/**
 * Validation and normalisation of a raw 6x6 board into a car list
 * (apps/api/src/board.service.ts). The legacy service runs the same scan.
 */
module RawBoards {
  import opened Wrappers
  import opened Cars
  import opened Board
  import opened Configurations

  /** A cell of the submitted board: a JavaScript number, integral or not. */
  datatype RawCell = Num(n: int) | NonInteger

  type RawGrid = seq<seq<RawCell>>

  /** Why a submitted board is refused. */
  datatype BoardError =
    | NotSixBySix
    | NotAnInteger(v: int, h: int)
    | NegativeInteger(v: int, h: int)
    | NotPlacedCorrectly(carId: int)
    | MissingTargetCar
    | InvalidSize(carId: int, size: int)

  /** `isSixBySixBoard`: six rows of six cells. */
  predicate IsSixBySixBoard(raw: RawGrid)
  {
    |raw| == 6 && forall v :: 0 <= v < 6 ==> |raw[v]| == 6
  }

  /** The row of the `k`-th cell in row-major order, `k / 6` for `0 <= k < 36`, written without division. */
  function RowOf(k: int): int
  {
    if k < 6 then 0 else if k < 12 then 1 else if k < 18 then 2 else if k < 24 then 3 else if k < 30 then 4 else 5
  }

  /** The `k`-th cell in row-major order. */
  function CellPos(k: int): Position
  {
    Position(k - 6 * RowOf(k), RowOf(k))
  }

  function Index(p: Position): int
  {
    6 * p.v + p.h
  }

  lemma IndexOfCell(p: Position)
    requires OnBoard(p)
    ensures 0 <= Index(p) < 36 && CellPos(Index(p)) == p
  {
  }

  lemma CellOfIndex(k: int)
    requires 0 <= k < 36
    ensures OnBoard(CellPos(k)) && Index(CellPos(k)) == k
  {
  }

  function CellAt(raw: RawGrid, k: int): RawCell
    requires IsSixBySixBoard(raw) && 0 <= k < 36
  {
    raw[RowOf(k)][k - 6 * RowOf(k)]
  }

  /**
   * One iteration of the scan: the check of cell `k` against the cars seen so
   * far, kept in order of first appearance (the insertion order of the map).
   */
  function Visit(cars: seq<CarRecord>, raw: RawGrid, k: int): (r: Result<seq<CarRecord>, BoardError>)
    requires IsSixBySixBoard(raw) && 0 <= k < 36
    ensures r.Failure? ==> r.error.NotAnInteger? || r.error.NegativeInteger? || r.error.NotPlacedCorrectly?
    ensures r.Success? && CellAt(raw, k) == Num(0) ==> r.value == cars
  {
    var p := CellPos(k);
    match CellAt(raw, k)
    case NonInteger => Failure(NotAnInteger(p.v, p.h))
    case Num(n) =>
      if n < 0 then Failure(NegativeInteger(p.v, p.h))
      else if n == 0 then Success(cars)
      else Offer(cars, n, p)
  }

  /** A positive value `n` met at cell `p`: its car, or a new car if `n` is new, must accept the cell. */
  function Offer(cars: seq<CarRecord>, n: int, p: Position): Result<seq<CarRecord>, BoardError>
  {
    match FindCar(cars, n)
    case Some(i) =>
      (match AddTo(cars[i], p)
       case None => Failure(NotPlacedCorrectly(n))
       case Some(c) => Success(cars[i := c]))
    case None =>
      (match AddTo(CarRecord(n, [], Invalid), p)
       case None => Failure(NotPlacedCorrectly(n))
       case Some(c) => Success(cars + [c]))
  }

  /**
   * The scan over the first `k` cells in row-major order; it stops at the
   * first refused cell. It refuses a board only for a cell that is not a
   * non-negative integer or a car that is not straight.
   */
  function Scan(raw: RawGrid, k: int): (r: Result<seq<CarRecord>, BoardError>)
    requires IsSixBySixBoard(raw) && 0 <= k <= 36
    ensures r.Failure? ==> r.error.NotAnInteger? || r.error.NegativeInteger? || r.error.NotPlacedCorrectly?
  {
    if k == 0 then Success([])
    else
      match Scan(raw, k - 1)
      case Failure(e) => Failure(e)
      case Success(cars) => Visit(cars, raw, k - 1)
  }

  /** A scanned cell keeps every car seen so far at its place, and adds at most one new car at the end. */
  lemma VisitKeepsOrder(cars: seq<CarRecord>, raw: RawGrid, k: int)
    requires IsSixBySixBoard(raw) && 0 <= k < 36 && Visit(cars, raw, k).Success?
    ensures var next := Visit(cars, raw, k).value;
      |cars| <= |next| <= |cars| + 1 && forall i :: 0 <= i < |cars| ==> next[i].id == cars[i].id
  {
  }

  /**
   * The error a scanned cell produces: a non-integer or a negative value names
   * its own row and column, and a positive value is refused, naming the value,
   * exactly when its car (a new one if the value is new) does not accept the cell.
   */
  lemma VisitErrors(cars: seq<CarRecord>, raw: RawGrid, k: int)
    requires IsSixBySixBoard(raw) && 0 <= k < 36
    ensures CellAt(raw, k) == NonInteger ==> Visit(cars, raw, k) == Failure(NotAnInteger(CellPos(k).v, CellPos(k).h))
    ensures CellAt(raw, k).Num? && CellAt(raw, k).n < 0 ==>
      Visit(cars, raw, k) == Failure(NegativeInteger(CellPos(k).v, CellPos(k).h))
    ensures CellAt(raw, k) == Num(0) ==> Visit(cars, raw, k) == Success(cars)
    ensures CellAt(raw, k).Num? && CellAt(raw, k).n > 0 ==>
      var n := CellAt(raw, k).n;
      var base := if FindCar(cars, n).Some? then cars[FindCar(cars, n).value] else CarRecord(n, [], Invalid);
      && (Visit(cars, raw, k).Failure? <==> AddTo(base, CellPos(k)).None?)
      && (Visit(cars, raw, k).Failure? ==> Visit(cars, raw, k).error == NotPlacedCorrectly(n))
  {
  }

  /**
   * The first refused cell decides the answer for the whole board: once the
   * scan has accepted every cell before `k`, a bad cell `k` is what `createBoard`
   * reports, with its row and column, or with the car id for a misplaced cell.
   */
  lemma FirstBadCellReported(raw: RawGrid, k: int)
    requires IsSixBySixBoard(raw) && 0 <= k < 36 && Scan(raw, k).Success?
    ensures CellAt(raw, k) == NonInteger ==> Validate(raw) == Failure(NotAnInteger(CellPos(k).v, CellPos(k).h))
    ensures CellAt(raw, k).Num? && CellAt(raw, k).n < 0 ==>
      Validate(raw) == Failure(NegativeInteger(CellPos(k).v, CellPos(k).h))
    ensures CellAt(raw, k).Num? && CellAt(raw, k).n > 0 && Visit(Scan(raw, k).value, raw, k).Failure? ==>
      Validate(raw) == Failure(NotPlacedCorrectly(CellAt(raw, k).n))
  {
    VisitErrors(Scan(raw, k).value, raw, k);
    if Scan(raw, k + 1).Failure? {
      ScanFailureSticks(raw, k + 1);
    }
  }

  /** Once a cell is refused, the whole scan fails with that cell's error. */
  lemma {:induction false} ScanFailureSticks(raw: RawGrid, k: int)
    requires IsSixBySixBoard(raw) && 0 <= k <= 36 && Scan(raw, k).Failure?
    ensures Scan(raw, 36) == Scan(raw, k)
    decreases 36 - k
  {
    if k < 36 {
      ScanFailureSticks(raw, k + 1);
    }
  }

  /** The first car of `cars`, from index `from` on, that is not of size 2 or 3. */
  function FirstBadSize(cars: seq<CarRecord>, from: nat): (r: Option<nat>)
    requires from <= |cars|
    ensures r.Some? ==> from <= r.value < |cars| && !ValidSize(cars[r.value])
    ensures r.Some? ==> forall j :: from <= j < r.value ==> ValidSize(cars[j])
    ensures r.None? ==> forall j :: from <= j < |cars| ==> ValidSize(cars[j])
    decreases |cars| - from
  {
    if from == |cars| then None
    else if !ValidSize(cars[from]) then Some(from)
    else FirstBadSize(cars, from + 1)
  }

  /** The target-car check: car 1 exists, has two cells, and both are in row 2. */
  predicate HasTargetCar(cars: seq<CarRecord>)
  {
    match FindCar(cars, 1)
    case None => false
    case Some(i) => |cars[i].pos| == 2 && forall q :: q in cars[i].pos ==> q.v == 2
  }

  predicate IncreasingIds(cars: seq<CarRecord>)
  {
    forall i, j :: 0 <= i < j < |cars| ==> cars[i].id < cars[j].id
  }

  function InsertById(c: CarRecord, cars: seq<CarRecord>): (r: seq<CarRecord>)
    requires IncreasingIds(cars) && forall x :: x in cars ==> x.id != c.id
    ensures |r| == |cars| + 1 && IncreasingIds(r)
    ensures forall x :: x in r <==> x == c || x in cars
  {
    if cars == [] || c.id < cars[0].id then [c] + cars
    else
      var rest := InsertById(c, cars[1..]);
      assert forall x :: x in rest ==> cars[0].id < x.id by {
        forall x | x in rest
          ensures cars[0].id < x.id
        {
          if x != c {
            var j :| 0 <= j < |cars[1..]| && cars[1..][j] == x;
            assert cars[j + 1] == x;
          }
        }
      }
      [cars[0]] + rest
  }

  /** The cars in ascending order of id (the sort of the map entries). */
  function SortById(cars: seq<CarRecord>): (r: seq<CarRecord>)
    requires DistinctIds(cars)
    ensures |r| == |cars| && IncreasingIds(r)
    ensures forall x :: x in r <==> x in cars
  {
    if cars == [] then []
    else
      var rest := SortById(cars[1..]);
      assert forall x :: x in rest ==> x in cars[1..] && x.id != cars[0].id by {
        forall x | x in rest
          ensures x in cars[1..] && x.id != cars[0].id
        {
          var j :| 0 <= j < |cars[1..]| && cars[1..][j] == x;
          assert cars[j + 1] == x;
        }
      }
      InsertById(cars[0], rest)
  }

  /** The checks after the scan: the target car first, then every size in order of first appearance. */
  function Finish(cars: seq<CarRecord>): (r: Result<seq<CarRecord>, BoardError>)
    requires DistinctIds(cars)
    ensures r.Failure? ==> r.error.MissingTargetCar? || r.error.InvalidSize?
    ensures !HasTargetCar(cars) ==> r == Failure(MissingTargetCar)
    ensures HasTargetCar(cars) && FirstBadSize(cars, 0).Some? ==>
      var i := FirstBadSize(cars, 0).value;
      r == Failure(InvalidSize(cars[i].id, |cars[i].pos|))
    ensures r.Success? <==> HasTargetCar(cars) && FirstBadSize(cars, 0).None?
    ensures r.Success? ==> r.value == SortById(cars)
  {
    if !HasTargetCar(cars) then Failure(MissingTargetCar)
    else
      match FirstBadSize(cars, 0)
      case Some(i) => Failure(InvalidSize(cars[i].id, |cars[i].pos|))
      case None => Success(SortById(cars))
  }

  /** The cells among the first `k` (row-major) that hold the value `id`, in scan order. */
  function CellsOf(raw: RawGrid, id: int, k: int): seq<Position>
    requires IsSixBySixBoard(raw) && 0 <= k <= 36
  {
    if k == 0 then []
    else CellsOf(raw, id, k - 1) + (if CellAt(raw, k - 1) == Num(id) then [CellPos(k - 1)] else [])
  }

  /** Each car seen so far is well formed and holds exactly the cells scanned so far that carry its id. */
  predicate RecordsMatch(raw: RawGrid, k: int, cars: seq<CarRecord>)
    requires IsSixBySixBoard(raw) && 0 <= k <= 36
  {
    forall i :: 0 <= i < |cars| ==>
      cars[i].id > 0 && WellFormed(cars[i]) && cars[i].pos == CellsOf(raw, cars[i].id, k) && |cars[i].pos| > 0
  }

  /** Every cell scanned so far holds a non-negative integer. */
  predicate CellsValid(raw: RawGrid, k: int)
    requires IsSixBySixBoard(raw) && 0 <= k <= 36
  {
    forall j :: 0 <= j < k ==> CellAt(raw, j).Num? && CellAt(raw, j).n >= 0
  }

  /** Every positive value scanned so far has its car. */
  predicate CarsSeen(raw: RawGrid, k: int, cars: seq<CarRecord>)
    requires IsSixBySixBoard(raw) && 0 <= k <= 36 && CellsValid(raw, k)
  {
    forall j :: 0 <= j < k && CellAt(raw, j).n > 0 ==> FindCar(cars, CellAt(raw, j).n).Some?
  }

  /** What holds of the cars after a successful scan of the first `k` cells. */
  predicate ScanInv(raw: RawGrid, k: int, cars: seq<CarRecord>)
    requires IsSixBySixBoard(raw) && 0 <= k <= 36
  {
    DistinctIds(cars) && RecordsMatch(raw, k, cars) && CellsValid(raw, k) && CarsSeen(raw, k, cars)
  }

  lemma {:induction false} CellsOfNone(raw: RawGrid, id: int, k: int)
    requires IsSixBySixBoard(raw) && 0 <= k <= 36
    requires forall j :: 0 <= j < k ==> CellAt(raw, j) != Num(id)
    ensures CellsOf(raw, id, k) == []
  {
    if k > 0 {
      CellsOfNone(raw, id, k - 1);
    }
  }

  lemma CellsOfStep(raw: RawGrid, k: int)
    requires IsSixBySixBoard(raw) && 0 <= k < 36 && CellAt(raw, k).Num?
    ensures forall id :: id != CellAt(raw, k).n ==> CellsOf(raw, id, k + 1) == CellsOf(raw, id, k)
    ensures CellsOf(raw, CellAt(raw, k).n, k + 1) == CellsOf(raw, CellAt(raw, k).n, k) + [CellPos(k)]
  {
  }

  lemma FindCarIsFirst(cars: seq<CarRecord>, id: int, i: nat)
    requires i < |cars| && cars[i].id == id && forall j :: 0 <= j < i ==> cars[j].id != id
    ensures FindCar(cars, id) == Some(i)
  {
  }

  lemma FindCarSameIds(a: seq<CarRecord>, b: seq<CarRecord>, id: int)
    requires |a| == |b| && forall j :: 0 <= j < |a| ==> a[j].id == b[j].id
    ensures FindCar(a, id) == FindCar(b, id)
  {
    if FindCar(a, id).Some? {
      FindCarIsFirst(b, id, FindCar(a, id).value);
    }
  }

  lemma FindCarAppend(cars: seq<CarRecord>, c: CarRecord, id: int)
    ensures FindCar(cars, id).Some? ==> FindCar(cars + [c], id) == FindCar(cars, id)
    ensures FindCar(cars, id).None? && c.id == id ==> FindCar(cars + [c], id) == Some(|cars|)
    ensures FindCar(cars, id).None? && c.id != id ==> FindCar(cars + [c], id).None?
  {
    var next := cars + [c];
    if FindCar(cars, id).Some? {
      FindCarIsFirst(next, id, FindCar(cars, id).value);
    } else if c.id == id {
      FindCarIsFirst(next, id, |cars|);
    } else {
      assert forall j :: 0 <= j < |next| ==> next[j].id != id by {
        forall j | 0 <= j < |next|
          ensures next[j].id != id
        {
          if j < |cars| {
            assert next[j] == cars[j];
          }
        }
      }
    }
  }

  /** A positive cell of a car already seen extends that car. */
  lemma VisitExisting(raw: RawGrid, k: int, cars: seq<CarRecord>, i: nat)
    requires IsSixBySixBoard(raw) && 0 <= k < 36 && ScanInv(raw, k, cars)
    requires CellAt(raw, k).Num? && CellAt(raw, k).n > 0 && FindCar(cars, CellAt(raw, k).n) == Some(i)
    requires AddTo(cars[i], CellPos(k)).Some?
    ensures ScanInv(raw, k + 1, cars[i := AddTo(cars[i], CellPos(k)).value])
  {
    var n := CellAt(raw, k).n;
    var next := cars[i := AddTo(cars[i], CellPos(k)).value];
    CellsOfStep(raw, k);
    AddToKeepsWellFormed(cars[i], CellPos(k));
    forall id
      ensures FindCar(next, id) == FindCar(cars, id)
    {
      FindCarSameIds(next, cars, id);
    }
    forall j | 0 <= j < |next|
      ensures next[j].id > 0 && WellFormed(next[j]) && next[j].pos == CellsOf(raw, next[j].id, k + 1) && |next[j].pos| > 0
    {
      if j != i {
        assert next[j] == cars[j];
      }
    }
  }

  lemma NewCarRecords(raw: RawGrid, k: int, cars: seq<CarRecord>, n: int)
    requires IsSixBySixBoard(raw) && 0 <= k < 36 && RecordsMatch(raw, k, cars)
    requires CellAt(raw, k) == Num(n) && n > 0 && CellsOf(raw, n, k) == []
    requires forall j :: 0 <= j < |cars| ==> cars[j].id != n
    ensures RecordsMatch(raw, k + 1, cars + [CarRecord(n, [CellPos(k)], Invalid)])
  {
    var next := cars + [CarRecord(n, [CellPos(k)], Invalid)];
    CellsOfStep(raw, k);
    forall j | 0 <= j < |next|
      ensures next[j].id > 0 && WellFormed(next[j]) && next[j].pos == CellsOf(raw, next[j].id, k + 1) && |next[j].pos| > 0
    {
      if j < |cars| {
        assert next[j] == cars[j];
      }
    }
  }

  lemma NewCarSeen(raw: RawGrid, k: int, cars: seq<CarRecord>, c: CarRecord)
    requires IsSixBySixBoard(raw) && 0 <= k < 36 && CellsValid(raw, k + 1) && CarsSeen(raw, k, cars)
    requires c.id == CellAt(raw, k).n
    ensures CarsSeen(raw, k + 1, cars + [c])
  {
    forall j | 0 <= j < k + 1 && CellAt(raw, j).n > 0
      ensures FindCar(cars + [c], CellAt(raw, j).n).Some?
    {
      FindCarAppend(cars, c, CellAt(raw, j).n);
    }
  }

  lemma NewCarDistinct(cars: seq<CarRecord>, c: CarRecord)
    requires DistinctIds(cars) && forall j :: 0 <= j < |cars| ==> cars[j].id != c.id
    ensures DistinctIds(cars + [c])
  {
    var next := cars + [c];
    forall i, j | 0 <= i < j < |next|
      ensures next[i].id != next[j].id
    {
      assert next[i] == cars[i];
    }
  }

  /** A positive cell of a car not seen yet starts that car. */
  lemma VisitNew(raw: RawGrid, k: int, cars: seq<CarRecord>)
    requires IsSixBySixBoard(raw) && 0 <= k < 36 && ScanInv(raw, k, cars)
    requires CellAt(raw, k).Num? && CellAt(raw, k).n > 0 && FindCar(cars, CellAt(raw, k).n).None?
    ensures AddTo(CarRecord(CellAt(raw, k).n, [], Invalid), CellPos(k)) == Some(CarRecord(CellAt(raw, k).n, [CellPos(k)], Invalid))
    ensures ScanInv(raw, k + 1, cars + [CarRecord(CellAt(raw, k).n, [CellPos(k)], Invalid)])
  {
    var n := CellAt(raw, k).n;
    var c := CarRecord(n, [CellPos(k)], Invalid);
    assert CarsSeen(raw, k, cars);
    CellsOfNone(raw, n, k);
    NewCarRecords(raw, k, cars, n);
    assert CellsValid(raw, k + 1);
    NewCarSeen(raw, k, cars, c);
    NewCarDistinct(cars, c);
  }

  /** An empty cell changes nothing. */
  lemma VisitEmpty(raw: RawGrid, k: int, cars: seq<CarRecord>)
    requires IsSixBySixBoard(raw) && 0 <= k < 36 && ScanInv(raw, k, cars) && CellAt(raw, k) == Num(0)
    ensures ScanInv(raw, k + 1, cars)
  {
    CellsOfStep(raw, k);
    assert RecordsMatch(raw, k + 1, cars);
    assert CellsValid(raw, k + 1);
  }

  /** One successful scan step keeps the scan invariant. */
  lemma VisitKeepsInv(raw: RawGrid, k: int, cars: seq<CarRecord>)
    requires IsSixBySixBoard(raw) && 0 <= k < 36 && ScanInv(raw, k, cars)
    requires Visit(cars, raw, k).Success?
    ensures ScanInv(raw, k + 1, Visit(cars, raw, k).value)
  {
    var p := CellPos(k);
    assert CellsValid(raw, k);
    assert CellAt(raw, k).Num? && CellAt(raw, k).n >= 0;
    var n := CellAt(raw, k).n;
    if n == 0 {
      assert Visit(cars, raw, k) == Success(cars);
      VisitEmpty(raw, k, cars);
    } else {
      match FindCar(cars, n)
      case Some(i) =>
        assert Visit(cars, raw, k) == Success(cars[i := AddTo(cars[i], p).value]);
        VisitExisting(raw, k, cars, i);
      case None =>
        VisitNew(raw, k, cars);
        assert Visit(cars, raw, k) == Success(cars + [CarRecord(n, [p], Invalid)]);
    }
  }

  lemma {:induction false} ScanKeepsInv(raw: RawGrid, k: int)
    requires IsSixBySixBoard(raw) && 0 <= k <= 36 && Scan(raw, k).Success?
    ensures ScanInv(raw, k, Scan(raw, k).value)
  {
    if k > 0 {
      ScanKeepsInv(raw, k - 1);
      VisitKeepsInv(raw, k - 1, Scan(raw, k - 1).value);
    }
  }

  /** `normalizeRawBoard` on a board already known to be 6x6. */
  function Normalize(raw: RawGrid): (r: Result<seq<CarRecord>, BoardError>)
    requires IsSixBySixBoard(raw)
    ensures r.Failure? ==> !r.error.NotSixBySix?
    ensures Scan(raw, 36).Failure? ==> r == Failure(Scan(raw, 36).error)
    ensures Scan(raw, 36).Success? ==> DistinctIds(Scan(raw, 36).value) && r == Finish(Scan(raw, 36).value)
  {
    match Scan(raw, 36)
    case Failure(e) => Failure(e)
    case Success(cars) => ScanKeepsInv(raw, 36); Finish(cars)
  }

  /** `cars.get(id)` on the scan's map of cars, kept in insertion order. */
  function FindObject(cars: seq<Car>, id: int): (r: Option<nat>)
    ensures r.Some? ==> r.value < |cars| && cars[r.value].id == id
    ensures r.Some? ==> forall j :: 0 <= j < r.value ==> cars[j].id != id
    ensures r.None? ==> forall j :: 0 <= j < |cars| ==> cars[j].id != id
  {
    if |cars| == 0 then None
    else
      match FindObject(cars[..|cars| - 1], id)
      case Some(i) => Some(i)
      case None => if Last(cars).id == id then Some(|cars| - 1) else None
  }

  /** The car objects of the scan hold exactly the records of the reference scan. */
  ghost predicate Mirrors(cars: seq<Car>, recs: seq<CarRecord>)
    reads cars
  {
    && |cars| == |recs|
    && (forall i :: 0 <= i < |cars| ==> cars[i].Valid() && cars[i].Record() == recs[i])
    && (forall i, j :: 0 <= i < j < |cars| ==> cars[i] != cars[j])
  }

  /**
   * A positive value met by the scan: its car, or a new car appended when the
   * value is seen for the first time, is offered the cell.
   */
  method ExtendCars(cars: seq<Car>, ghost recs: seq<CarRecord>, n: int, p: Position)
      returns (next: seq<Car>, ghost nextRecs: seq<CarRecord>, ok: bool)
    requires Mirrors(cars, recs)
    modifies cars
    ensures ok ==> Offer(recs, n, p) == Success(nextRecs) && Mirrors(next, nextRecs)
    ensures !ok ==> Offer(recs, n, p) == Failure(NotPlacedCorrectly(n))
    ensures |cars| <= |next| && next[..|cars|] == cars
    ensures forall i :: |cars| <= i < |next| ==> fresh(next[i])
  {
    next, nextRecs := cars, recs;
    var found := FindObject(cars, n);
    assert found == FindCar(recs, n) by {
      if found.Some? {
        FindCarIsFirst(recs, n, found.value);
      }
    }
    var car: Car;
    var at: nat;
    if found.Some? {
      car := cars[found.value];
      at := found.value;
    } else {
      car := new Car(n);
      next := cars + [car];
      nextRecs := recs + [car.Record()];
      at := |cars|;
    }
    ghost var before := car.Record();
    ghost var mid := nextRecs;
    ok := car.AddPosition(p);
    if !ok {
      return;
    }
    nextRecs := nextRecs[at := car.Record()];
    assert forall i :: 0 <= i < |next| && i != at ==> next[i].Record() == mid[i];
    if found.None? {
      assert nextRecs == recs + [AddTo(before, p).value];
    }
  }

  /**
   * The body of the validation scan for the cell in row `v`, column `h`: a
   * non-integer or negative value is refused, zero is skipped, and a positive
   * value is added to its car, a new one if the value is seen for the first time.
   */
  method ScanCell(raw: RawGrid, v: int, h: int, ghost k: int, cars: seq<Car>, ghost recs: seq<CarRecord>)
      returns (next: seq<Car>, ghost nextRecs: seq<CarRecord>, err: Option<BoardError>)
    requires IsSixBySixBoard(raw) && 0 <= v < 6 && 0 <= h < 6 && k == 6 * v + h && Mirrors(cars, recs)
    modifies cars
    ensures err.Some? ==> Visit(recs, raw, k) == Failure(err.value)
    ensures err.None? ==> Visit(recs, raw, k) == Success(nextRecs) && Mirrors(next, nextRecs)
    ensures |cars| <= |next| && next[..|cars|] == cars
    ensures forall i :: |cars| <= i < |next| ==> fresh(next[i])
  {
    IndexOfCell(Position(h, v));
    next, nextRecs, err := cars, recs, None;
    var value := raw[v][h];
    if value.NonInteger? {
      return next, nextRecs, Some(NotAnInteger(v, h));
    }
    var n := value.n;
    if n < 0 {
      return next, nextRecs, Some(NegativeInteger(v, h));
    }
    if n == 0 {
      return;
    }
    var ok;
    next, nextRecs, ok := ExtendCars(cars, recs, n, Position(h, v));
    if !ok {
      err := Some(NotPlacedCorrectly(n));
    }
  }

  /**
   * The row-major validation scan of `normalizeRawBoard`: every cell must be a
   * non-negative integer, and every positive cell must extend its car.
   */
  method ScanRawBoard(raw: RawGrid) returns (r: Result<seq<CarRecord>, BoardError>)
    requires IsSixBySixBoard(raw)
    ensures r == Scan(raw, 36)
  {
    var cars: seq<Car> := [];
    ghost var recs: seq<CarRecord> := [];
    ghost var k := 0;
    for v := 0 to 6
      invariant k == 6 * v && Scan(raw, k) == Success(recs)
      invariant Mirrors(cars, recs)
      invariant forall i :: 0 <= i < |cars| ==> fresh(cars[i])
    {
      for h := 0 to 6
        invariant k == 6 * v + h && Scan(raw, k) == Success(recs)
        invariant Mirrors(cars, recs)
        invariant forall i :: 0 <= i < |cars| ==> fresh(cars[i])
      {
        var err: Option<BoardError>;
        ghost var before := recs;
        cars, recs, err := ScanCell(raw, v, h, k, cars, recs);
        assert Scan(raw, k + 1) == Visit(before, raw, k);
        if err.Some? {
          ScanFailureSticks(raw, k + 1);
          return Failure(err.value);
        }
        k := k + 1;
      }
    }
    r := Success(seq(|cars|, i reads cars requires 0 <= i < |cars| => cars[i].Record()));
    assert r.value == recs;
  }

  /** `normalizeRawBoard` on a 6x6 board: the scan, the target-car check, the size check in scan order, the sort by id. */
  method NormalizeRawBoard(raw: RawGrid) returns (r: Result<seq<CarRecord>, BoardError>)
    requires IsSixBySixBoard(raw)
    ensures r == Normalize(raw)
  {
    var scanned := ScanRawBoard(raw);
    if scanned.Failure? {
      return Failure(scanned.error);
    }
    var cars := scanned.value;
    ScanKeepsInv(raw, 36);
    if !HasTargetCar(cars) {
      return Failure(MissingTargetCar);
    }
    for i := 0 to |cars|
      invariant FirstBadSize(cars, 0) == FirstBadSize(cars, i)
    {
      if !ValidSize(cars[i]) {
        return Failure(InvalidSize(cars[i].id, |cars[i].pos|));
      }
    }
    return Success(SortById(cars));
  }

  /** `createBoard` up to the store: a board that is not 6x6 is refused before it is read. */
  function Validate(raw: RawGrid): (r: Result<seq<CarRecord>, BoardError>)
    ensures !IsSixBySixBoard(raw) <==> r == Failure(NotSixBySix)
    ensures IsSixBySixBoard(raw) ==> r == Normalize(raw)
  {
    if !IsSixBySixBoard(raw) then Failure(NotSixBySix) else Normalize(raw)
  }

  lemma CellPosInjective(a: int, b: int)
    requires 0 <= a < 36 && 0 <= b < 36 && CellPos(a) == CellPos(b)
    ensures a == b
  {
    CellOfIndex(a);
    CellOfIndex(b);
  }

  /** A cell is among the scanned cells of `id` exactly when it was scanned and holds `id`. */
  lemma {:induction false} CellsOfMember(raw: RawGrid, id: int, m: int, k: int)
    requires IsSixBySixBoard(raw) && 0 <= m <= 36 && 0 <= k < 36
    ensures CellPos(k) in CellsOf(raw, id, m) <==> k < m && CellAt(raw, k) == Num(id)
  {
    if m > 0 {
      CellsOfMember(raw, id, m - 1, k);
      if CellPos(k) == CellPos(m - 1) {
        CellPosInjective(k, m - 1);
      }
    }
  }

  /** Every scanned cell of `id` is on the board and holds `id`. */
  lemma {:induction false} CellsOfHold(raw: RawGrid, id: int, m: int)
    requires IsSixBySixBoard(raw) && 0 <= m <= 36
    ensures forall q :: q in CellsOf(raw, id, m) ==> OnBoard(q) && CellAt(raw, Index(q)) == Num(id)
  {
    if m > 0 {
      CellsOfHold(raw, id, m - 1);
      CellOfIndex(m - 1);
    }
  }

  /** What a car produced by a whole successful scan satisfies. */
  lemma ScannedCar(raw: RawGrid, cars: seq<CarRecord>, c: CarRecord)
    requires IsSixBySixBoard(raw) && ScanInv(raw, 36, cars) && c in cars
    ensures c.id > 0 && WellFormed(c) && AllOnBoard(c.pos)
    ensures forall q :: q in c.pos ==> CellAt(raw, Index(q)) == Num(c.id)
    ensures forall k :: 0 <= k < 36 && CellAt(raw, k) == Num(c.id) ==> CellPos(k) in c.pos
  {
    assert RecordsMatch(raw, 36, cars);
    CellsOfHold(raw, c.id, 36);
    forall k | 0 <= k < 36 && CellAt(raw, k) == Num(c.id)
      ensures CellPos(k) in c.pos
    {
      CellsOfMember(raw, c.id, 36, k);
    }
  }

  /** The sorted cars are the scanned ones, lying in pairwise different cells. */
  lemma SortedScanLegal(raw: RawGrid, cars: seq<CarRecord>)
    requires IsSixBySixBoard(raw) && ScanInv(raw, 36, cars)
    requires HasTargetCar(cars) && FirstBadSize(cars, 0).None?
    ensures Legal(SortById(cars))
  {
    var out := SortById(cars);
    forall i | 0 <= i < |out|
      ensures out[i].id > 0 && ValidSize(out[i]) && WellFormed(out[i]) && AllOnBoard(out[i].pos)
    {
      assert out[i] in cars;
      ScannedCar(raw, cars, out[i]);
    }
    forall i, j, p | 0 <= i < |out| && 0 <= j < |out| && i != j && p in out[i].pos
      ensures p !in out[j].pos
    {
      assert out[i] in cars && out[j] in cars;
      ScannedCar(raw, cars, out[i]);
      ScannedCar(raw, cars, out[j]);
    }
    var t := FindCar(cars, 1).value;
    assert cars[t] in out;
  }

  /** Every cell of the board holds the id of the car that covers it, or 0. */
  lemma SortedScanRendersRaw(raw: RawGrid, cars: seq<CarRecord>, p: Position)
    requires IsSixBySixBoard(raw) && ScanInv(raw, 36, cars) && OnBoard(p)
    requires Legal(SortById(cars))
    ensures raw[p.v][p.h] == Num(Occupant(SortById(cars), p))
  {
    var out := SortById(cars);
    IndexOfCell(p);
    var k := Index(p);
    assert CellAt(raw, k) == raw[p.v][p.h];
    assert CellsValid(raw, 36) && CarsSeen(raw, 36, cars);
    var m := CellAt(raw, k).n;
    if m > 0 {
      var i := FindCar(cars, m).value;
      ScannedCar(raw, cars, cars[i]);
      assert cars[i] in out;
      var j :| 0 <= j < |out| && out[j] == cars[i];
      OccupantOfLegal(out, p, j);
    } else {
      forall j | 0 <= j < |out|
        ensures p !in out[j].pos
      {
        assert out[j] in cars;
        ScannedCar(raw, cars, out[j]);
      }
      OccupantUncovered(out, p);
    }
  }

  /**
   * A board that normalises yields a legal position, sorted by id, whose
   * rendering is the submitted board cell for cell.
   */
  lemma NormalizeSound(raw: RawGrid)
    requires IsSixBySixBoard(raw) && Normalize(raw).Success?
    ensures Legal(Normalize(raw).value) && IncreasingIds(Normalize(raw).value)
    ensures forall p :: OnBoard(p) ==> raw[p.v][p.h] == Num(Occupant(Normalize(raw).value, p))
  {
    var cars := Scan(raw, 36).value;
    ScanKeepsInv(raw, 36);
    SortedScanLegal(raw, cars);
    forall p | OnBoard(p)
      ensures raw[p.v][p.h] == Num(Occupant(Normalize(raw).value, p))
    {
      SortedScanRendersRaw(raw, cars, p);
    }
  }

  /** The cells of a well-formed car come in increasing row-major order. */
  lemma IndexIncreasing(c: CarRecord, i: int, j: int)
    requires WellFormed(c) && 0 <= i < j < |c.pos|
    ensures Index(c.pos[i]) < Index(c.pos[j])
  {
    LineShapeAt(c.pos, c.dir, i);
    LineShapeAt(c.pos, c.dir, j);
  }

  /** The first `j` cells of car `c`, as `addPosition` leaves them. */
  function Partial(c: CarRecord, j: int): CarRecord
    requires 0 <= j <= |c.pos|
  {
    CarRecord(c.id, c.pos[..j], if j >= 2 then c.dir else Invalid)
  }

  /** `addPosition` accepts the next cell of a well-formed car built so far. */
  lemma AddToPartial(c: CarRecord, j: int)
    requires WellFormed(c) && 0 <= j < |c.pos|
    ensures AddTo(Partial(c, j), c.pos[j]) == Some(Partial(c, j + 1))
  {
    var pos := c.pos;
    assert pos[..j + 1] == pos[..j] + [pos[j]];
    if j >= 1 {
      assert CheckDirection(pos[j - 1], pos[j]) == c.dir;
    }
  }

  /** Exactly the first `j` cells of `c` come before index `m` in row-major order. */
  predicate SplitsAt(c: CarRecord, m: int, j: int)
  {
    && 0 <= j <= |c.pos|
    && (forall i :: 0 <= i < j ==> Index(c.pos[i]) < m)
    && (forall i :: j <= i < |c.pos| ==> Index(c.pos[i]) >= m)
  }

  /** When cell `m - 1` is the `j`-th cell of the car, the split moves back by one cell. */
  lemma SplitsBefore(c: CarRecord, m: int, j: int)
    requires WellFormed(c) && SplitsAt(c, m, j) && j > 0 && Index(c.pos[j - 1]) == m - 1
    ensures SplitsAt(c, m - 1, j - 1)
  {
    forall i | 0 <= i < j - 1
      ensures Index(c.pos[i]) < m - 1
    {
      IndexIncreasing(c, i, j - 1);
    }
  }

  /** When cell `m - 1` is not a cell of the car, the split stays and the cell is not the car's. */
  lemma SplitsPast(c: CarRecord, m: int, j: int)
    requires WellFormed(c) && SplitsAt(c, m, j) && !(j > 0 && Index(c.pos[j - 1]) == m - 1)
    ensures SplitsAt(c, m - 1, j)
    ensures forall i :: 0 <= i < |c.pos| ==> Index(c.pos[i]) != m - 1
  {
    forall i | 0 <= i < j
      ensures Index(c.pos[i]) < m - 1
    {
      if i < j - 1 {
        IndexIncreasing(c, i, j - 1);
      }
    }
  }


  /** With distinct ids, the scan's target-car check is the target-car condition of a legal position. */
  lemma TargetCheckAgrees(cars: seq<CarRecord>)
    requires DistinctIds(cars)
    ensures HasTargetCar(cars) <==> TargetCarPlaced(cars)
  {
    if TargetCarPlaced(cars) {
      var i :| 0 <= i < |cars| && cars[i].id == 1 && |cars[i].pos| == 2 && forall q :: q in cars[i].pos ==> q.v == 2;
      assert FindCar(cars, 1) == Some(i);
    }
    if HasTargetCar(cars) {
      var i := FindCar(cars, 1).value;
      assert cars[i].id == 1;
    }
  }

  /** The raw board a car list is submitted as: each cell holds the id of the car covering it, or 0. */
  function Render(cars: seq<CarRecord>): (raw: RawGrid)
    ensures IsSixBySixBoard(raw)
    ensures forall p :: OnBoard(p) ==> raw[p.v][p.h] == Num(Occupant(cars, p))
  {
    seq(6, v => seq(6, h => Num(Occupant(cars, Position(h, v)))))
  }

  /**
   * The cells of `raw` holding `c.id` are exactly the cells of car `c`. This is
   * the raw-board counterpart of the legacy `Shows`, which speaks of a painted
   * grid of integers; a raw cell may be a non-integer, so the two are stated
   * over different cell types.
   */
  ghost predicate Drawn(raw: RawGrid, c: CarRecord)
    requires IsSixBySixBoard(raw)
  {
    WellFormed(c) && AllOnBoard(c.pos) && forall p :: OnBoard(p) ==> (raw[p.v][p.h] == Num(c.id) <==> p in c.pos)
  }

  /** Every car of a legal position is drawn on the board rendered from it. */
  lemma DrawnCar(cars: seq<CarRecord>, j: int)
    requires Legal(cars) && 0 <= j < |cars|
    ensures Drawn(Render(cars), cars[j])
  {
    var c := cars[j];
    forall p | OnBoard(p)
      ensures Occupant(cars, p) == c.id <==> p in c.pos
    {
      if p in c.pos {
        OccupantOfLegal(cars, p, j);
      } else if Occupant(cars, p) != 0 {
        OccupantCovers(cars, p);
      }
    }
  }

  /**
   * When the cells holding `c.id` are exactly the cells of `c`, the cells the
   * scan has collected for `c.id` before index `m` are the first `j` cells of `c`.
   */
  lemma {:induction false} CellsOfPrefix(raw: RawGrid, c: CarRecord, m: int, j: int)
    requires IsSixBySixBoard(raw) && Drawn(raw, c) && 0 <= m <= 36 && SplitsAt(c, m, j)
    ensures CellsOf(raw, c.id, m) == c.pos[..j]
  {
    var pos := c.pos;
    if m == 0 {
      if |pos| > 0 {
        assert pos[0] in pos;
      }
      assert pos[..0] == [];
    } else {
      CellOfIndex(m - 1);
      var q := CellPos(m - 1);
      if j > 0 && Index(pos[j - 1]) == m - 1 {
        SplitsBefore(c, m, j);
        CellsOfPrefix(raw, c, m - 1, j - 1);
        assert pos[j - 1] in pos;
        IndexOfCell(pos[j - 1]);
        assert pos[..j] == pos[..j - 1] + [pos[j - 1]];
      } else {
        SplitsPast(c, m, j);
        CellsOfPrefix(raw, c, m - 1, j);
        assert q !in pos by {
          forall i | 0 <= i < |pos|
            ensures pos[i] != q
          {
            assert Index(pos[i]) != Index(q);
          }
        }
      }
    }
  }

  /** The first `j` cells of a well-formed car form a well-formed car. */
  lemma PartialWellFormed(c: CarRecord, j: int)
    requires WellFormed(c) && 0 <= j <= |c.pos|
    ensures WellFormed(Partial(c, j))
  {
    var pre := Partial(c, j).pos;
    forall i | 0 <= i < |pre| - 1
      ensures CheckDirection(pre[i], pre[i + 1]) == Partial(c, j).dir
    {
      assert pre[i] == c.pos[i] && pre[i + 1] == c.pos[i + 1];
    }
  }

  /** A well-formed car is determined by its id and its cells. */
  lemma SameCellsSameCar(a: CarRecord, b: CarRecord)
    requires WellFormed(a) && WellFormed(b) && a.id == b.id && a.pos == b.pos
    ensures a == b
  {
    if |a.pos| >= 2 {
      assert CheckDirection(a.pos[0], a.pos[1]) == a.dir;
      assert CheckDirection(b.pos[0], b.pos[1]) == b.dir;
    }
  }

  /** Exactly the cells of a well-formed car before its `t`-th cell come before that cell in row-major order. */
  lemma SplitsAtCell(c: CarRecord, t: int)
    requires WellFormed(c) && 0 <= t < |c.pos|
    ensures SplitsAt(c, Index(c.pos[t]), t)
  {
    forall i | 0 <= i < |c.pos|
      ensures (i < t ==> Index(c.pos[i]) < Index(c.pos[t])) && (t <= i ==> Index(c.pos[i]) >= Index(c.pos[t]))
    {
      if i < t {
        IndexIncreasing(c, i, t);
      } else if t < i {
        IndexIncreasing(c, t, i);
      }
    }
  }

  /**
   * When the scan of the board rendered from a legal position reaches the
   * `t`-th cell of car `j`, it holds the first `t` cells of that car, under
   * the car's id, or no car with that id when `t` is 0.
   */
  lemma ScanRecordIsPartial(cars: seq<CarRecord>, k: int, recs: seq<CarRecord>, j: int, t: int)
    requires Legal(cars) && 0 <= k < 36 && ScanInv(Render(cars), k, recs)
    requires 0 <= j < |cars| && 0 <= t < |cars[j].pos| && CellPos(k) == cars[j].pos[t]
    ensures FindCar(recs, cars[j].id).Some? ==> recs[FindCar(recs, cars[j].id).value] == Partial(cars[j], t)
    ensures FindCar(recs, cars[j].id).None? ==> t == 0
  {
    var raw := Render(cars);
    var c := cars[j];
    DrawnCar(cars, j);
    CellOfIndex(k);
    SplitsAtCell(c, t);
    CellsOfPrefix(raw, c, k, t);
    if t > 0 {
      var q := c.pos[0];
      assert q in c.pos;
      IndexOfCell(q);
      IndexIncreasing(c, 0, t);
      assert CellAt(raw, Index(q)).n == c.id;
    }
    PartialWellFormed(c, t);
    if FindCar(recs, c.id).Some? {
      var i := FindCar(recs, c.id).value;
      assert RecordsMatch(raw, k, recs);
      SameCellsSameCar(recs[i], Partial(c, t));
    }
  }

  /** On the board rendered from a legal position, the scan accepts cell `k`. */
  lemma VisitAccepts(cars: seq<CarRecord>, k: int, recs: seq<CarRecord>)
    requires Legal(cars) && 0 <= k < 36 && ScanInv(Render(cars), k, recs)
    ensures Visit(recs, Render(cars), k).Success?
  {
    var raw := Render(cars);
    CellOfIndex(k);
    var p := CellPos(k);
    var n := Occupant(cars, p);
    assert CellAt(raw, k) == Num(n);
    if n != 0 {
      OccupantCovers(cars, p);
      var j :| 0 <= j < |cars| && p in cars[j].pos && cars[j].id == n;
      var t :| 0 <= t < |cars[j].pos| && cars[j].pos[t] == p;
      ScanRecordIsPartial(cars, k, recs, j, t);
      AddToPartial(cars[j], t);
      assert cars[j].pos[..0] == [];
    }
  }

  /** The scan never refuses the board rendered from a legal position. */
  lemma {:induction false} ScanAccepts(cars: seq<CarRecord>, k: int)
    requires Legal(cars) && 0 <= k <= 36
    ensures Scan(Render(cars), k).Success?
  {
    if k > 0 {
      ScanAccepts(cars, k - 1);
      ScanKeepsInv(Render(cars), k - 1);
      VisitAccepts(cars, k - 1, Scan(Render(cars), k - 1).value);
    }
  }

  /** Every car the scan of a rendered legal position finds is a car of that position. */
  lemma ScannedIsListed(cars: seq<CarRecord>, recs: seq<CarRecord>, x: CarRecord)
    requires Legal(cars) && ScanInv(Render(cars), 36, recs) && x in recs
    ensures x in cars
  {
    var raw := Render(cars);
    assert RecordsMatch(raw, 36, recs);
    CellsOfHold(raw, x.id, 36);
    var q := x.pos[0];
    assert q in x.pos;
    IndexOfCell(q);
    OccupantCovers(cars, q);
    var j :| 0 <= j < |cars| && q in cars[j].pos && cars[j].id == x.id;
    var c := cars[j];
    DrawnCar(cars, j);
    forall i | 0 <= i < |c.pos|
      ensures Index(c.pos[i]) < 36
    {
      assert c.pos[i] in c.pos;
      IndexOfCell(c.pos[i]);
    }
    CellsOfPrefix(raw, c, 36, |c.pos|);
    assert c.pos[..|c.pos|] == c.pos;
    SameCellsSameCar(x, c);
  }

  /** Every car of a legal position is found by the scan of its rendering. */
  lemma ListedIsScanned(cars: seq<CarRecord>, recs: seq<CarRecord>, j: int)
    requires Legal(cars) && ScanInv(Render(cars), 36, recs) && 0 <= j < |cars|
    ensures cars[j] in recs
  {
    var raw := Render(cars);
    var c := cars[j];
    var q := c.pos[0];
    assert q in c.pos;
    OccupantOfLegal(cars, q, j);
    IndexOfCell(q);
    assert CellAt(raw, Index(q)) == Num(c.id);
    var i := FindCar(recs, c.id).value;
    ScannedIsListed(cars, recs, recs[i]);
    var j' :| 0 <= j' < |cars| && cars[j'] == recs[i];
  }

  /** In a list with strictly increasing ids, every other element has a larger id than the head. */
  lemma IncreasingHead(a: seq<CarRecord>, x: CarRecord)
    requires IncreasingIds(a) && x in a
    ensures x == a[0] || a[0].id < x.id
  {
  }

  /** In a list with strictly increasing ids, the tail holds every element but the head. */
  lemma InTail(a: seq<CarRecord>, x: CarRecord)
    requires IncreasingIds(a) && |a| > 0
    ensures x in a[1..] <==> x in a && x != a[0]
  {
    if x in a[1..] {
      var m :| 1 <= m < |a| && a[m] == x;
    }
    if x in a && x != a[0] {
      var m :| 0 <= m < |a| && a[m] == x;
      assert a[1..][m - 1] == x;
    }
  }

  /** Two lists with strictly increasing ids and the same elements are equal. */
  lemma {:induction false} IncreasingUnique(a: seq<CarRecord>, b: seq<CarRecord>)
    requires IncreasingIds(a) && IncreasingIds(b) && forall x :: x in a <==> x in b
    ensures a == b
  {
    if |a| > 0 {
      assert a[0] in a;
    }
    if |b| > 0 {
      assert b[0] in b;
    }
    if |a| > 0 {
      IncreasingHead(a, b[0]);
      IncreasingHead(b, a[0]);
      forall x
        ensures x in a[1..] <==> x in b[1..]
      {
        InTail(a, x);
        InTail(b, x);
      }
      IncreasingUnique(a[1..], b[1..]);
      assert a == [a[0]] + a[1..] && b == [b[0]] + b[1..];
    }
  }

  /**
   * A legal position with ids in increasing order, submitted as the board it
   * draws, normalises to itself: `normalizeRawBoard` accepts every such board
   * and gives back exactly the cars it shows.
   */
  lemma NormalizeComplete(cars: seq<CarRecord>)
    requires Legal(cars) && IncreasingIds(cars)
    ensures Validate(Render(cars)) == Success(cars)
  {
    var raw := Render(cars);
    ScanAccepts(cars, 36);
    var recs := Scan(raw, 36).value;
    ScanKeepsInv(raw, 36);
    forall x
      ensures x in recs <==> x in cars
    {
      if x in recs {
        ScannedIsListed(cars, recs, x);
      }
      if x in cars {
        var j :| 0 <= j < |cars| && cars[j] == x;
        ListedIsScanned(cars, recs, j);
      }
    }
    var t :| 0 <= t < |cars| && cars[t].id == 1 && |cars[t].pos| == 2 && forall q :: q in cars[t].pos ==> q.v == 2;
    assert cars[t] in recs;
    TargetCheckAgrees(recs);
    assert forall i :: 0 <= i < |recs| ==> ValidSize(recs[i]) by {
      forall i | 0 <= i < |recs|
        ensures ValidSize(recs[i])
      {
        assert recs[i] in cars;
      }
    }
    IncreasingUnique(SortById(recs), cars);
  }
}
