/** The rules of the game as pure functions on a snapshot of the game's globals:
    one tick of movement, the buffered steering input, pausing, the end of a game,
    resets and the run timer, together with the invariant that every one of them
    keeps and the properties the game promises. */
module Rules {
  import opened Grid

  /** Where a new snake starts: the centre of the board. */
  const StartCell: Cell := Cell(GridSize / 2, GridSize / 2)
  /** Points for one piece of food. */
  const FoodReward: int := 10
  /** Tick period, in milliseconds, at the start of a game. */
  const InitialSpeed: int := 150
  /** The tick period never drops below this. */
  const MinSpeed: int := 50
  /** How much the period drops at each speed-up. */
  const SpeedStep: int := 10
  /** The period drops each time the score reaches a multiple of this. */
  const SpeedUpEvery: int := 50

  datatype Option<T> = None | Some(value: T)

  /** The handle of the repeating tick timer: none, a live timer with its period
      in milliseconds, or a handle whose timer was cleared without the handle
      being reset (it still reads as present). */
  datatype Interval = Unset | Live(period: int) | Cleared

  /** The game's globals. */
  datatype GameState = GameState(
    snake: seq<Cell>,
    food: Cell,
    score: nat,
    highScore: nat,
    direction: Direction,
    nextDirection: Direction,
    gameSpeed: int,
    isPaused: bool,
    isGameOver: bool,
    interval: Interval)

  /** Does some segment of `snake` lie on `head`? Segment by segment, as a
      search that stops at the first hit. */
  function IsSnakeColliding(snake: seq<Cell>, head: Cell): (r: bool)
    ensures r <==> head in snake
  {
    if snake == [] then false
    else snake[0] == head || IsSnakeColliding(snake[1..], head)
  }

  // ---------------------------------------------------------------------------
  // Steering input

  /** The heading an input key asks for; keys other than the four arrows ask for
      nothing. */
  function KeyDirection(key: string): Option<Direction> {
    if key == "ArrowUp" then Some(Up)
    else if key == "ArrowDown" then Some(Down)
    else if key == "ArrowLeft" then Some(Left)
    else if key == "ArrowRight" then Some(Right)
    else None
  }

  /** An arrow key is accepted unless it asks to reverse the active heading. */
  predicate Accepts(active: Direction, key: string) {
    KeyDirection(key).Some? && active != Opposite(KeyDirection(key).value)
  }

  /** The buffered heading after one key press: the requested heading when the
      key is accepted, the previous buffered heading otherwise. It never becomes
      the reverse of the active heading unless it already was. */
  function Buffered(active: Direction, pending: Direction, key: string): (r: Direction)
    ensures Accepts(active, key) ==> r == KeyDirection(key).value
    ensures !Accepts(active, key) ==> r == pending
    ensures pending != Opposite(active) ==> r != Opposite(active)
  {
    match KeyDirection(key)
    case None => pending
    case Some(d) => if active != Opposite(d) then d else pending
  }

  /** One key press; ignored once the game is over. */
  function Steer(s: GameState, key: string): GameState {
    if s.isGameOver then s
    else s.(nextDirection := Buffered(s.direction, s.nextDirection, key))
  }

  /** The key presses that arrive between two ticks, in order. */
  function SteerAll(s: GameState, keys: seq<string>): GameState
    decreases |keys|
  {
    if keys == [] then s else SteerAll(Steer(s, keys[0]), keys[1..])
  }

  /** Key presses that are all refused, or that arrive after the game ended,
      change nothing. */
  lemma {:induction false} NothingAcceptedKeepsState(s: GameState, keys: seq<string>)
    requires s.isGameOver || forall j :: 0 <= j < |keys| ==> !Accepts(s.direction, keys[j])
    ensures SteerAll(s, keys) == s
  {
    if keys != [] {
      assert Steer(s, keys[0]) == s;
      NothingAcceptedKeepsState(s, keys[1..]);
    }
  }

  /** Buffering, not queueing: between two ticks the last accepted key press
      decides the buffered heading, and nothing else changes. */
  lemma {:induction false} LastAcceptedWins(s: GameState, keys: seq<string>, i: int)
    requires !s.isGameOver && 0 <= i < |keys| && Accepts(s.direction, keys[i])
    requires forall j :: i < j < |keys| ==> !Accepts(s.direction, keys[j])
    ensures SteerAll(s, keys) == s.(nextDirection := KeyDirection(keys[i]).value)
    decreases i
  {
    var s' := Steer(s, keys[0]);
    if i == 0 {
      NothingAcceptedKeepsState(s', keys[1..]);
    } else {
      LastAcceptedWins(s', keys[1..], i - 1);
    }
  }

  // ---------------------------------------------------------------------------
  // Speed

  /** The tick period for a given score: 10 ms faster for every 50 points,
      never faster than 50 ms. */
  function SpeedFor(score: nat): (ms: int)
    ensures MinSpeed <= ms <= InitialSpeed && ms % SpeedStep == 0
  {
    var slower := InitialSpeed - SpeedStep * (score / SpeedUpEvery);
    if slower < MinSpeed then MinSpeed else slower
  }

  /** Eating one more piece of food changes the period exactly as the game's
      speed-up rule does: by one step when the new score is a multiple of 50 and
      the period is still above the floor, not at all otherwise. */
  lemma SpeedAfterMeal(meals: nat)
    ensures var after := FoodReward * (meals + 1);
      SpeedFor(after) ==
        if after % SpeedUpEvery == 0 && SpeedFor(FoodReward * meals) > MinSpeed
        then SpeedFor(FoodReward * meals) - SpeedStep
        else SpeedFor(FoodReward * meals)
  {
    var before := FoodReward * meals;
    var q, r := before / SpeedUpEvery, before % SpeedUpEvery;
    assert before == SpeedUpEvery * q + r;
    assert r == FoodReward * (meals - 5 * q);
    if r == 40 {
      assert before + FoodReward == SpeedUpEvery * (q + 1);
    } else {
      assert r + FoodReward < SpeedUpEvery;
      assert (before + FoodReward) / SpeedUpEvery == q;
      assert (before + FoodReward) % SpeedUpEvery == r + FoodReward;
    }
  }

  // ---------------------------------------------------------------------------
  // The invariant

  /** The snake is a path of distinct cells on the board, and the food lies on
      the board but not on the snake. */
  ghost predicate BodyOk(s: GameState) {
    && |s.snake| >= 1
    && AllInBounds(s.snake)
    && Distinct(s.snake)
    && Connected(s.snake)
    && InBounds(s.food)
    && s.food !in s.snake
  }

  /** Length, score, period and timer agree: every segment beyond the first was
      a meal, the period follows the score, a finished game's score is recorded
      in the high score, and a live timer drives a running game at its period. */
  ghost predicate ScoreOk(s: GameState) {
    && s.score == FoodReward * (|s.snake| - 1)
    && s.gameSpeed == SpeedFor(s.score)
    && (s.isGameOver ==> s.score <= s.highScore)
    && (s.interval.Live? ==> !s.isGameOver && s.interval.period == s.gameSpeed)
  }

  /** The buffered heading never reverses the active one, and in a running game
      the segment behind the head lies one step back along the active heading. */
  ghost predicate HeadingOk(s: GameState) {
    && s.nextDirection != Opposite(s.direction)
    && (!s.isGameOver && |s.snake| >= 2 ==> s.snake[1] == Move(s.snake[0], Opposite(s.direction)))
  }

  ghost predicate Invariant(s: GameState) {
    BodyOk(s) && ScoreOk(s) && HeadingOk(s)
  }

  // ---------------------------------------------------------------------------
  // One tick

  /** A paused or finished game ignores ticks. */
  predicate Halted(s: GameState) {
    s.isPaused || s.isGameOver
  }

  /** Where the head goes on the next tick. */
  function NextHead(s: GameState): Cell
    requires |s.snake| > 0
  {
    Move(s.snake[0], s.nextDirection)
  }

  /** The next tick moves the head onto the food. */
  predicate Eats(s: GameState) {
    !Halted(s) && |s.snake| > 0 && !IsSnakeColliding(s.snake, NextHead(s)) && NextHead(s) == s.food
  }

  /** The next tick eats and leaves no free cell for new food. */
  predicate FillsBoard(s: GameState) {
    Eats(s) && |s.snake| + 1 >= CellCount
  }

  /** The end of a game: the game is marked over, its timer cleared (the handle
      itself is kept), and the high score raised to the score if it was lower. */
  function Ended(s: GameState): GameState {
    s.(isGameOver := true,
       interval := if s.interval.Live? then Cleared else s.interval,
       highScore := if s.score > s.highScore then s.score else s.highScore)
  }

  /** One tick. `spawn` is the cell the food generator picks if the snake eats;
      it is ignored otherwise. */
  function Tick(s: GameState, spawn: Cell): GameState
    requires |s.snake| > 0
  {
    if Halted(s) then s
    else
      var turned := s.(direction := s.nextDirection);
      var head := Move(s.snake[0], turned.direction);
      if IsSnakeColliding(s.snake, head) then Ended(turned)
      else
        var grown := [head] + s.snake;
        if head == s.food then
          var score := s.score + FoodReward;
          var faster := score % SpeedUpEvery == 0 && s.gameSpeed > MinSpeed;
          turned.(snake := grown, score := score, food := spawn,
                  gameSpeed := if faster then s.gameSpeed - SpeedStep else s.gameSpeed,
                  interval := if faster then Live(s.gameSpeed - SpeedStep) else s.interval)
        else
          turned.(snake := grown[..|grown| - 1])
  }

  /** A paused or finished game does not change on a tick. */
  lemma TickWhileHalted(s: GameState, spawn: Cell)
    requires |s.snake| > 0 && Halted(s)
    ensures Tick(s, spawn) == s
  {
  }

  /** Only self-collision ends a game; the walls never do. Running into any
      segment, the tail included even though it would have moved away on this
      tick, ends the game with the snake, score and food as they were, and the
      high score raised to the score. */
  lemma TickCollision(s: GameState, spawn: Cell)
    requires |s.snake| > 0 && !Halted(s)
    ensures var t := Tick(s, spawn);
      (t.isGameOver <==> NextHead(s) in s.snake)
      && (NextHead(s) in s.snake ==>
            && t.snake == s.snake && t.score == s.score && t.food == s.food
            && t.gameSpeed == s.gameSpeed
            && t.highScore == (if s.score > s.highScore then s.score else s.highScore)
            && t.direction == s.nextDirection && !t.interval.Live?)
  {
  }

  /** A tick that does not collide adopts the buffered heading, puts the head on
      the neighbouring cell of the torus in that heading, and keeps the rest of
      the body as the old body, less its tail unless the snake ate. */
  lemma TickMoves(s: GameState, spawn: Cell)
    requires Invariant(s) && !Halted(s) && NextHead(s) !in s.snake
    ensures var t := Tick(s, spawn); var h := s.snake[0]; var d := s.nextDirection;
      && t.direction == t.nextDirection == d
      && !t.isGameOver && t.isPaused == s.isPaused && t.highScore == s.highScore
      && |t.snake| >= 1 && InBounds(t.snake[0])
      && t.snake[0] == Cell((h.x + Dx(d)) % GridSize, (h.y + Dy(d)) % GridSize)
      && t.snake[1..] == s.snake[..|t.snake| - 1]
  {
  }

  /** Growth: eating lengthens the snake by one and scores 10 points; any other
      move keeps its length, score, food, period and timer. */
  lemma TickGrowth(s: GameState, spawn: Cell)
    requires Invariant(s) && !Halted(s) && NextHead(s) !in s.snake
    ensures var t := Tick(s, spawn);
      && (Eats(s) ==> |t.snake| == |s.snake| + 1 && t.score == s.score + FoodReward && t.food == spawn)
      && (!Eats(s) ==>
            && |t.snake| == |s.snake| && t.score == s.score && t.food == s.food
            && t.gameSpeed == s.gameSpeed && t.interval == s.interval)
  {
  }

  /** Speed-up: after a meal the period drops by one step exactly when the new
      score is a multiple of 50 and the period was above the floor, and then the
      timer is replaced by a live one at the new period. */
  lemma TickSpeedUp(s: GameState, spawn: Cell)
    requires Invariant(s) && Eats(s)
    ensures var t := Tick(s, spawn);
      && (t.gameSpeed < s.gameSpeed <==> t.score % SpeedUpEvery == 0 && s.gameSpeed > MinSpeed)
      && (t.gameSpeed == s.gameSpeed || t.gameSpeed == s.gameSpeed - SpeedStep)
      && (t.gameSpeed != s.gameSpeed ==> t.interval == Live(t.gameSpeed))
      && (t.gameSpeed == s.gameSpeed ==> t.interval == s.interval)
  {
  }

  /** A move along the buffered heading never lands on the segment behind the
      head, whereas a reversal always would: that is what refusing reversals
      buys. */
  lemma NoInstantReversal(s: GameState)
    requires Invariant(s) && !s.isGameOver && |s.snake| >= 2
    ensures NextHead(s) != s.snake[1]
    ensures Move(s.snake[0], Opposite(s.direction)) == s.snake[1]
  {
    MoveDistinct(s.snake[0], s.nextDirection, Opposite(s.direction));
  }

  /** The next body is a prefix of the old body behind the new head: it stays on
      the board, free of repeats and connected. */
  lemma AdvanceKeepsBody(body: seq<Cell>, d: Direction, n: int)
    requires |body| >= 1 && AllInBounds(body) && Distinct(body) && Connected(body)
    requires Move(body[0], d) !in body
    requires n == |body| || n == |body| + 1
    ensures var next := ([Move(body[0], d)] + body)[..n];
      && AllInBounds(next) && Distinct(next) && Connected(next)
      && next[1..] == body[..n - 1]
  {
    var head := Move(body[0], d);
    var next := ([head] + body)[..n];
    assert next[1..] == body[..n - 1];
    forall i | 0 <= i < |next| ensures InBounds(next[i]) {
      if i > 0 { assert next[i] == body[i - 1]; }
    }
    forall i, j | 0 <= i < j < |next| ensures next[i] != next[j] {
      assert next[j] == body[j - 1];
      if i > 0 { assert next[i] == body[i - 1]; }
    }
    forall i | 0 <= i < |next| - 1 ensures Adjacent(next[i], next[i + 1]) {
      if i == 0 {
        MoveUndo(body[0], d);
        assert Move(head, Opposite(d)) == body[0];
      } else {
        assert next[i] == body[i - 1] && next[i + 1] == body[i];
      }
    }
  }

  /** Every tick keeps the invariant, provided the food generator picks a free
      cell when the snake eats. */
  lemma TickPreservesInvariant(s: GameState, spawn: Cell)
    requires Invariant(s)
    requires Eats(s) ==> InBounds(spawn) && spawn !in [NextHead(s)] + s.snake
    ensures Invariant(Tick(s, spawn))
  {
    if Halted(s) {
      return;
    }
    var d := s.nextDirection;
    var head := NextHead(s);
    var t := Tick(s, spawn);
    if head in s.snake {
      return;
    }
    var n := if head == s.food then |s.snake| + 1 else |s.snake|;
    AdvanceKeepsBody(s.snake, d, n);
    assert t.snake == ([head] + s.snake)[..n];
    MoveUndo(s.snake[0], d);
    if head == s.food {
      SpeedAfterMeal(|s.snake| - 1);
    } else {
      assert s.food !in t.snake by {
        assert t.snake[1..] == s.snake[..n - 1];
        assert forall c :: c in s.snake[..n - 1] ==> c in s.snake;
      }
    }
  }

  /** The end of a game records the high score and keeps the invariant. */
  lemma EndedRecordsHighScore(s: GameState)
    requires Invariant(s)
    ensures var t := Ended(s);
      && t.isGameOver && t.highScore >= t.score
      && t.highScore == (if s.score > s.highScore then s.score else s.highScore)
      && Invariant(t)
  {
  }

  // ---------------------------------------------------------------------------
  // Steering, pausing, resets and the run timer

  /** A key press keeps the invariant: in particular the buffered heading never
      becomes the reverse of the active one. */
  lemma SteerPreservesInvariant(s: GameState, key: string)
    requires Invariant(s)
    ensures Invariant(Steer(s, key))
    ensures Steer(s, key).direction == s.direction
  {
  }

  /** Pausing flips the pause flag unless the game is over. */
  function TogglePaused(s: GameState): GameState {
    if s.isGameOver then s else s.(isPaused := !s.isPaused)
  }

  /** Reset: a one-cell snake at the centre heading right, no score, initial
      period, a spawn food cell, not over, no timer. The pause flag and the high
      score are left alone. */
  function Reset(s: GameState, spawn: Cell): GameState {
    s.(snake := [StartCell], food := spawn, score := 0,
       direction := Right, nextDirection := Right,
       gameSpeed := InitialSpeed, isGameOver := false, interval := Unset)
  }

  /** Start: a reset, then a live timer at the current period, unpaused. */
  function Started(s: GameState, spawn: Cell): GameState {
    var r := Reset(s, spawn);
    r.(interval := Live(r.gameSpeed), isPaused := false)
  }

  /** Stop: the timer is cleared and its handle dropped. */
  function Stopped(s: GameState): GameState {
    s.(interval := Unset)
  }

  /** The start/stop button: stop if there is a timer handle, start otherwise. */
  function ToggledRun(s: GameState, spawn: Cell): GameState {
    if s.interval != Unset then Stopped(s) else Started(s, spawn)
  }

  /** The delayed restart after a loss: it only acts if the game is still over. */
  function AutoRestarted(s: GameState, spawn: Cell): GameState {
    if s.isGameOver then Started(s, spawn) else s
  }

  /** The state after page load: the stored high score, not paused, no timer,
      then a reset. */
  function Initial(storedHighScore: nat, spawn: Cell): GameState {
    Reset(GameState([StartCell], spawn, 0, storedHighScore, Right, Right,
                    InitialSpeed, false, false, Unset), spawn)
  }

  /** A reset with food off the centre cell gives a valid game, whatever came
      before. */
  lemma ResetEstablishesInvariant(s: GameState, spawn: Cell)
    requires InBounds(spawn) && spawn != StartCell
    ensures Invariant(Reset(s, spawn)) && Invariant(Started(s, spawn))
    ensures Reset(s, spawn).isPaused == s.isPaused
  {
  }

  /** Pausing, stopping, the start/stop button and the delayed restart keep the
      invariant; a stopped game has no timer handle at all. */
  lemma ControlsPreserveInvariant(s: GameState, spawn: Cell)
    requires Invariant(s) && InBounds(spawn) && spawn != StartCell
    ensures Invariant(TogglePaused(s)) && Invariant(Stopped(s))
    ensures Invariant(ToggledRun(s, spawn)) && Invariant(AutoRestarted(s, spawn))
    ensures Stopped(s).interval == Unset
  {
  }
}
