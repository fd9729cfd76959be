/**
 * The game sessions of the player service (apps/api/src/player.service.ts):
 * games kept under a key, moves applied with the car-list engine under a
 * per-game lock, and grades of played steps filled in when the solver
 * reports them.
 */
module Players {
  import opened Wrappers
  import opened Cars
  import opened Board
  import opened Configurations

  /** A stored game: the current cars, the steps played so far, and whether the last step solved it. */
  datatype GameState = GameState(cars: seq<CarRecord>, steps: seq<Step>, solved: bool)

  /** Why a session request is refused. */
  datatype SessionError =
    | UnknownBoard(boardId: string)
    | LockBusy(gameId: string)
    | GameNotFound(gameId: string)
    | AlreadySolved(gameId: string)
    | BadMove(error: MoveError)

  /** The `car_moved` event sent after an accepted move; `stepId` numbers the step from 1. */
  datatype CarMoved = CarMoved(gameId: string, cars: seq<CarRecord>, step: Step, stepId: int)

  /** One step as `getGameState` shows it, its grade spelled out. */
  datatype StepView = StepView(carId: int, direction: MovementDirection, comment: string)

  /** What `getGameState` returns: the painted board and the steps played. */
  datatype GameView = GameView(board: Grid, steps: seq<StepView>)

  /** A game the engine can keep playing: a legal board, and `solved` only when car 1 is on the exit cell. */
  predicate Consistent(s: GameState)
  {
    Legal(s.cars) && |s.cars| > 0 && (s.solved ==> IsSolvedCars(s.cars))
  }

  /** A new game on a legal board: no steps, not solved. */
  function NewGame(cars: seq<CarRecord>): (s: GameState)
    requires Legal(cars)
    ensures Consistent(s) && s.steps == [] && !s.solved
  {
    SolvedViewsAgree(cars);
    GameState(cars, [], false)
  }

  /**
   * The stored game after `moveCar`: a solved game refuses every step, a
   * step the engine refuses changes nothing, and an accepted step replaces
   * the cars, appends the step and stores the engine's `solved` flag.
   */
  function MoveState(s: GameState, gameId: string, step: Step): (r: Result<GameState, SessionError>)
    requires Consistent(s)
    ensures s.solved ==> r == Failure(AlreadySolved(gameId))
    ensures !s.solved && StepResult(s.cars, step).Failure? ==> r == Failure(BadMove(StepResult(s.cars, step).error))
    ensures r.Success? <==> !s.solved && StepResult(s.cars, step).Success?
    ensures r.Success? ==> Consistent(r.value)
    ensures r.Success? ==> r.value.steps == s.steps + [step] && r.value.cars == StepResult(s.cars, step).value.updated
    ensures r.Success? ==> (r.value.solved <==> IsSolvedCars(r.value.cars))
  {
    if s.solved then Failure(AlreadySolved(gameId))
    else
      match StepResult(s.cars, step)
      case Failure(e) => Failure(BadMove(e))
      case Success(o) =>
        MoveKeepsLegal(s.cars, step);
        StepSolvedMeansCarsSolved(s.cars, step);
        Success(GameState(o.updated, s.steps + [step], o.solved))
  }

  /**
   * The stored game after a grade for step `stepId` arrives: a step number
   * past the end is skipped, any other sets the grade of that step alone.
   */
  function Commented(s: GameState, stepId: int, comment: MovementComment): (r: GameState)
    requires stepId >= 1
    ensures r.cars == s.cars && r.solved == s.solved && |r.steps| == |s.steps|
    ensures stepId > |s.steps| ==> r == s
    ensures forall i :: 0 <= i < |s.steps| && i != stepId - 1 ==> r.steps[i] == s.steps[i]
    ensures stepId <= |s.steps| ==>
      r.steps[stepId - 1] == Step(s.steps[stepId - 1].carId, s.steps[stepId - 1].direction, Some(comment))
  {
    if |s.steps| < stepId then s
    else
      var prev := s.steps[stepId - 1];
      s.(steps := s.steps[stepId - 1 := prev.(comment := Some(comment))])
  }

  /** The label `getGameState` shows for a grade; a missing grade reads as still calculating. */
  function Label(c: Option<MovementComment>): (t: string)
    ensures c == Some(Blunder) <==> t == "blunder"
    ensures c == Some(Good) <==> t == "good"
    ensures c == Some(Waste) <==> t == "wasted"
    ensures c.None? || c == Some(Calculating) <==> t == "calculating"
  {
    match c
    case Some(Blunder) => "blunder"
    case Some(Good) => "good"
    case Some(Waste) => "wasted"
    case _ => "calculating"
  }

  /** `getGameState` on a stored game: the board painted from its cars and its steps in order. */
  function View(s: GameState): (r: GameView)
    ensures r.board == Occupancy(s.cars)
    ensures |r.steps| == |s.steps|
    ensures forall i :: 0 <= i < |s.steps| ==>
      r.steps[i] == StepView(s.steps[i].carId, s.steps[i].direction, Label(s.steps[i].comment))
  {
    GameView(Occupancy(s.cars), seq(|s.steps|, i requires 0 <= i < |s.steps| =>
      StepView(s.steps[i].carId, s.steps[i].direction, Label(s.steps[i].comment))))
  }

  /** The lock reply sequence succeeds when one of the first six attempts is answered 'OK'. */
  predicate LockGranted(answers: nat -> bool)
  {
    exists i: nat :: i < 6 && answers(i)
  }

  /** The session store: boards by id, games by key, and the per-game locks this service holds. */
  class PlayerService {
    var boards: map<string, seq<CarRecord>>
    var games: map<string, GameState>
    var locks: set<string>

    constructor (boards: map<string, seq<CarRecord>>)
      requires forall b :: b in boards ==> Legal(boards[b])
      ensures this.boards == boards && games == map[] && locks == {} && Valid()
    {
      this.boards := boards;
      games := map[];
      locks := {};
    }

    /** Every stored board is legal and every stored game consistent. */
    predicate Valid()
      reads this
    {
      && (forall b :: b in boards ==> Legal(boards[b]))
      && (forall g :: g in games ==> Consistent(games[g]))
    }

    /**
     * `startGame`: an unknown board is refused; otherwise a new game on that
     * board is stored under `GAME-` followed by the given unique id.
     */
    method StartGame(boardId: string, unique: string) returns (r: Result<string, SessionError>)
      requires Valid()
      modifies this
      ensures Valid() && boards == old(boards) && locks == old(locks)
      ensures boardId !in boards ==> r == Failure(UnknownBoard(boardId)) && games == old(games)
      ensures boardId in boards ==>
        && r == Success("GAME-" + unique)
        && games == old(games)["GAME-" + unique := NewGame(boards[boardId])]
    {
      if boardId !in boards {
        return Failure(UnknownBoard(boardId));
      }
      var gameId := "GAME-" + unique;
      games := games[gameId := NewGame(boards[boardId])];
      r := Success(gameId);
    }

    /** `getGameState`: a missing game is refused, a stored one shown. */
    function GetGameState(gameId: string): (r: Result<GameView, SessionError>)
      reads this
      ensures gameId !in games <==> r == Failure(GameNotFound(gameId))
      ensures gameId in games ==> r == Success(View(games[gameId]))
    {
      if gameId !in games then Failure(GameNotFound(gameId)) else Success(View(games[gameId]))
    }

    /**
     * `acquireLock`: up to six attempts, the first and five retries, each
     * answered by `answers`; the lock is taken at the first 'OK'.
     */
    method AcquireLock(gameId: string, answers: nat -> bool) returns (acquired: bool, tries: nat)
      modifies this
      ensures boards == old(boards) && games == old(games)
      ensures 1 <= tries <= 6
      ensures acquired <==> LockGranted(answers)
      ensures acquired ==> answers(tries - 1) && forall i :: 0 <= i < tries - 1 ==> !answers(i)
      ensures !acquired ==> tries == 6
      ensures locks == if acquired then old(locks) + {gameId} else old(locks)
    {
      var retries := 5;
      tries := 0;
      while true
        invariant 0 <= tries <= 6 && retries == 5 - tries
        invariant forall i :: 0 <= i < tries ==> !answers(i)
        invariant boards == old(boards) && games == old(games) && locks == old(locks)
        decreases retries
      {
        var ok := answers(tries);
        tries := tries + 1;
        if ok {
          locks := locks + {gameId};
          return true, tries;
        }
        retries := retries - 1;
        if retries < 0 {
          break;
        }
      }
      acquired := false;
    }

    method ReleaseLock(gameId: string)
      modifies this
      ensures boards == old(boards) && games == old(games) && locks == old(locks) - {gameId}
    {
      locks := locks - {gameId};
    }

    /**
     * `moveCar`: refused while the lock cannot be taken; otherwise the stored
     * game is moved with `MoveState`, the `car_moved` event numbers the new
     * step, and the lock is released on every path.
     */
    method MoveCar(gameId: string, step: Step, answers: nat -> bool)
        returns (r: Result<bool, SessionError>, event: Option<CarMoved>)
      requires Valid()
      modifies this
      ensures Valid() && boards == old(boards)
      ensures !LockGranted(answers) ==>
        r == Failure(LockBusy(gameId)) && event == None && games == old(games) && locks == old(locks)
      ensures LockGranted(answers) ==> locks == old(locks) - {gameId}
      ensures LockGranted(answers) && gameId !in old(games) ==>
        r == Failure(GameNotFound(gameId)) && event == None && games == old(games)
      ensures LockGranted(answers) && gameId in old(games) ==>
        var m := MoveState(old(games)[gameId], gameId, step);
        && (m.Failure? ==> r == Failure(m.error) && event == None && games == old(games))
        && (m.Success? ==>
              && r == Success(m.value.solved)
              && games == old(games)[gameId := m.value]
              && event == Some(CarMoved(gameId, m.value.cars, step, |m.value.steps|)))
    {
      var acquired, _ := AcquireLock(gameId, answers);
      if !acquired {
        return Failure(LockBusy(gameId)), None;
      }
      event := None;
      if gameId !in games {
        r := Failure(GameNotFound(gameId));
      } else if games[gameId].solved {
        r := Failure(AlreadySolved(gameId));
      } else {
        var s := games[gameId];
        var res := ApplyStep(s.cars, step);
        if res.Failure? {
          r := Failure(BadMove(res.error));
        } else {
          var next := GameState(res.value.updated, s.steps + [step], res.value.solved);
          assert MoveState(s, gameId, step) == Success(next);
          games := games[gameId := next];
          event := Some(CarMoved(gameId, next.cars, step, |next.steps|));
          r := Success(res.value.solved);
        }
      }
      ReleaseLock(gameId);
    }

    /**
     * `handleCarMoveCommented`: refused while the lock cannot be taken (the
     * event is then delivered again); a missing game or a step number past
     * the end is skipped without error; otherwise the grade is stored.
     */
    method HandleCarMoveCommented(gameId: string, stepId: int, comment: MovementComment, answers: nat -> bool)
        returns (conflict: bool)
      requires Valid() && stepId >= 1
      modifies this
      ensures Valid() && boards == old(boards)
      ensures conflict <==> !LockGranted(answers)
      ensures conflict ==> games == old(games) && locks == old(locks)
      ensures !conflict ==> locks == old(locks) - {gameId}
      ensures !conflict && gameId !in old(games) ==> games == old(games)
      ensures !conflict && gameId in old(games) ==>
        games == old(games)[gameId := Commented(old(games)[gameId], stepId, comment)]
    {
      var acquired, _ := AcquireLock(gameId, answers);
      if !acquired {
        return true;
      }
      conflict := false;
      if gameId in games {
        var s := games[gameId];
        if |s.steps| >= stepId {
          var steps := s.steps;
          steps := steps[stepId - 1 := steps[stepId - 1].(comment := Some(comment))];
          games := games[gameId := s.(steps := steps)];
        }
      }
      ReleaseLock(gameId);
    }
  }

  /** A grade delivered twice leaves the game as one delivery does. */
  lemma CommentIdempotent(s: GameState, stepId: int, c: MovementComment)
    requires stepId >= 1
    ensures Commented(Commented(s, stepId, c), stepId, c) == Commented(s, stepId, c)
  {
  }

  /** Grades for two different steps may arrive in either order. */
  lemma CommentsCommute(s: GameState, i: int, ci: MovementComment, j: int, cj: MovementComment)
    requires i >= 1 && j >= 1 && i != j
    ensures Commented(Commented(s, i, ci), j, cj) == Commented(Commented(s, j, cj), i, ci)
  {
  }

  /** The grade for the step an accepted move announces lands on that very step and on no other. */
  lemma MoveThenComment(s: GameState, gameId: string, step: Step, c: MovementComment)
    requires Consistent(s) && MoveState(s, gameId, step).Success?
    ensures var next := MoveState(s, gameId, step).value;
      Commented(next, |next.steps|, c).steps == s.steps + [Step(step.carId, step.direction, Some(c))]
  {
    var next := MoveState(s, gameId, step).value;
    var r := Commented(next, |next.steps|, c);
    assert |r.steps| == |s.steps| + 1;
    forall i | 0 <= i < |s.steps|
      ensures r.steps[i] == s.steps[i]
    {
      assert next.steps[i] == s.steps[i];
    }
  }

  /**
   * An accepted move of an unsolved game can be taken back: the opposite step
   * of the same car is accepted and restores the cars, leaving both steps in
   * the history.
   */
  lemma MoveCanBeUndone(s: GameState, gameId: string, step: Step)
    requires Consistent(s) && MoveState(s, gameId, step).Success?
    requires !MoveState(s, gameId, step).value.solved
    ensures var next := MoveState(s, gameId, step).value;
      var back := Step(step.carId, Opposite(step.direction), None);
      && MoveState(next, gameId, back).Success?
      && MoveState(next, gameId, back).value.cars == s.cars
      && MoveState(next, gameId, back).value.steps == s.steps + [step, back]
  {
    MoveIsReversible(s.cars, step, None);
  }

  /** A solved game stays solved: no further step is accepted and grades never change the flag. */
  lemma SolvedIsTerminal(s: GameState, gameId: string, step: Step, stepId: int, c: MovementComment)
    requires Consistent(s) && s.solved && stepId >= 1
    ensures MoveState(s, gameId, step) == Failure(AlreadySolved(gameId))
    ensures Commented(s, stepId, c).solved && Consistent(Commented(s, stepId, c))
  {
  }
}
