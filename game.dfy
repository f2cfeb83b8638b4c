/** The game object: the script's globals as fields, and its event handlers as
    methods that update them in place. Each state-changing method's new state is
    the matching rule of module Rules applied to the old state, and each keeps
    the game invariant; GameOver keeps it when it held before the call.
    GenerateFood changes nothing and only returns a free cell. */
module SnakeGame {
  import opened Grid
  import opened Rules

  class Game {
    var snake: seq<Cell>
    var food: Cell
    var score: nat
    var highScore: nat
    var direction: Direction
    var nextDirection: Direction
    var gameSpeed: int
    var isPaused: bool
    var isGameOver: bool
    var gameInterval: Interval

    /** All fields as one value. */
    function Snapshot(): GameState
      reads this
    {
      GameState(snake, food, score, highScore, direction, nextDirection,
                gameSpeed, isPaused, isGameOver, gameInterval)
    }

    ghost predicate Valid()
      reads this
    {
      Invariant(Snapshot())
    }

    /** Page load: the stored high score, an unpaused game without a timer, then
        a reset. */
    constructor (storedHighScore: nat)
      ensures Valid()
      ensures Snapshot() == Initial(storedHighScore, food)
    {
      highScore := storedHighScore;
      isPaused := false;
      isGameOver := false;
      gameSpeed := InitialSpeed;
      gameInterval := Unset;
      new;
      ResetGame();
    }

    /** A new game: centre start, heading right, no score, initial period, new
        food, timer cleared; the pause flag and high score are kept. */
    method ResetGame()
      modifies this
      ensures Valid()
      ensures Snapshot() == Reset(old(Snapshot()), food)
    {
      snake := [StartCell];
      FreeCellExists(snake);
      food := GenerateFood();
      score := 0;
      direction := Right;
      nextDirection := Right;
      gameSpeed := InitialSpeed;
      isGameOver := false;
      if gameInterval != Unset {
        gameInterval := Unset;
      }
      ResetEstablishesInvariant(old(Snapshot()), food);
    }

    /** Food placement: any cell of the board that no segment occupies. The
        random retry loop is modelled by a choice among exactly the cells it can
        end on; it only ends if such a cell exists. */
    method GenerateFood() returns (cell: Cell)
      requires HasFreeCell(snake)
      ensures InBounds(cell) && !IsSnakeColliding(snake, cell)
    {
      cell :| InBounds(cell) && cell !in snake;
    }

    /** One tick of the game timer. */
    method MoveSnake()
      requires Valid() && !FillsBoard(Snapshot())
      modifies this
      ensures Valid()
      ensures Snapshot() == Tick(old(Snapshot()), food)
    {
      if isPaused || isGameOver {
        return;
      }
      ghost var before := Snapshot();
      direction := nextDirection;
      var head := Move(snake[0], direction);
      if IsSnakeColliding(snake, head) {
        GameOver();
        assert Snapshot() == Tick(before, food);
        TickPreservesInvariant(before, food);
        return;
      }
      snake := [head] + snake;
      if head == food {
        score := score + FoodReward;
        FreeCellExists(snake);
        food := GenerateFood();
        if score % SpeedUpEvery == 0 && gameSpeed > MinSpeed {
          gameSpeed := gameSpeed - SpeedStep;
          gameInterval := Live(gameSpeed);
        }
        assert Snapshot() == Tick(before, food);
      } else {
        snake := snake[..|snake| - 1];
        assert Snapshot() == Tick(before, food);
      }
      TickPreservesInvariant(before, food);
    }

    /** Steering input; the key is the name of the pressed key. */
    method ChangeDirection(key: string)
      requires Valid()
      modifies this
      ensures Valid()
      ensures Snapshot() == Steer(old(Snapshot()), key)
    {
      if isGameOver {
        return;
      }
      if key == "ArrowUp" {
        if direction != Down { nextDirection := Up; }
      } else if key == "ArrowDown" {
        if direction != Up { nextDirection := Down; }
      } else if key == "ArrowLeft" {
        if direction != Right { nextDirection := Left; }
      } else if key == "ArrowRight" {
        if direction != Left { nextDirection := Right; }
      }
      SteerPreservesInvariant(old(Snapshot()), key);
    }

    /** The start/stop button. */
    method ToggleGame()
      requires Valid()
      modifies this
      ensures Valid()
      ensures Snapshot() == ToggledRun(old(Snapshot()), food)
    {
      if gameInterval != Unset {
        StopGame();
      } else {
        StartGame();
      }
    }

    /** The restart button, and the start half of the start/stop button. */
    method StartGame()
      modifies this
      ensures Valid()
      ensures Snapshot() == Started(old(Snapshot()), food)
    {
      ResetGame();
      gameInterval := Live(gameSpeed);
      isPaused := false;
    }

    method StopGame()
      requires Valid()
      modifies this
      ensures Valid()
      ensures Snapshot() == Stopped(old(Snapshot()))
    {
      gameInterval := Unset;
    }

    /** The pause button; ignored once the game is over. */
    method TogglePause()
      requires Valid()
      modifies this
      ensures Valid()
      ensures Snapshot() == TogglePaused(old(Snapshot()))
    {
      if isGameOver {
        return;
      }
      isPaused := !isPaused;
    }

    /** The end of a game, reached from a tick that collides. */
    method GameOver()
      modifies this
      ensures Snapshot() == Ended(old(Snapshot()))
      ensures Invariant(old(Snapshot())) ==> Valid()
    {
      ghost var before := Snapshot();
      if Invariant(before) {
        EndedRecordsHighScore(before);
      }
      isGameOver := true;
      if gameInterval.Live? {
        gameInterval := Cleared;
      }
      if score > highScore {
        highScore := score;
      }
    }

    /** The delayed restart scheduled by the end of a game. */
    method AutoRestart()
      requires Valid()
      modifies this
      ensures Valid()
      ensures Snapshot() == AutoRestarted(old(Snapshot()), food)
    {
      if isGameOver {
        StartGame();
      }
    }
  }
}
