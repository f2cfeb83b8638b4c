/** Concrete runs of the rules: a first meal, a wrap across the right edge, a
    refused reversal and a high score recorded at the end of a game. */
module Scenarios {
  import opened Grid
  import opened Rules

  /** A freshly started game with the food five cells to the right of the head. */
  function FoodAhead(): GameState {
    Started(Initial(0, Cell(15, 10)), Cell(15, 10))
  }

  /** Five ticks to the right reach the food: the snake has two segments and 10
      points, and the food has moved to the generator's pick. */
  lemma FirstMeal(spawn: Cell)
    ensures var s := Tick(Tick(Tick(Tick(Tick(FoodAhead(), spawn), spawn), spawn), spawn), spawn);
      s.snake == [Cell(15, 10), Cell(14, 10)] && s.score == 10 && s.food == spawn
      && !s.isGameOver && s.gameSpeed == InitialSpeed
  {
  }

  /** A head on the right edge moving right reappears on the left edge, and the
      game goes on. */
  lemma WrapAtRightEdge(spawn: Cell)
    ensures var s := FoodAhead().(snake := [Cell(19, 10)]);
      Tick(s, spawn).snake == [Cell(0, 10)] && !Tick(s, spawn).isGameOver
  {
  }

  /** Heading right, a request to go left is refused and the next tick still
      goes right. */
  lemma ReversalRefused(spawn: Cell)
    ensures var s := FoodAhead().(snake := [Cell(5, 5), Cell(4, 5), Cell(3, 5)], score := 20);
      var steered := Steer(s, "ArrowLeft");
      steered.nextDirection == Right
      && Tick(steered, spawn).direction == Right
      && Tick(steered, spawn).snake == [Cell(6, 5), Cell(5, 5), Cell(4, 5)]
  {
  }

  /** A four-segment snake bent into a square, heading right with down
      buffered, at 30 points and a best of 0. */
  function AboutToBiteTail(): GameState {
    GameState([Cell(5, 5), Cell(4, 5), Cell(4, 6), Cell(5, 6)], Cell(0, 0), 30, 0,
              Right, Down, InitialSpeed, false, false, Live(InitialSpeed))
  }

  /** That game is valid, and its next tick turns the head onto the tail cell:
      the game ends with the snake and score as they were, and 30 becomes the
      high score. */
  lemma HighScoreRecorded(spawn: Cell)
    ensures Invariant(AboutToBiteTail())
    ensures var t := Tick(AboutToBiteTail(), spawn);
      t.isGameOver && t.snake == AboutToBiteTail().snake && t.score == 30 && t.highScore == 30
  {
    var s := AboutToBiteTail();
    assert Move(s.snake[0], Left) == s.snake[1];
    assert Move(s.snake[1], Down) == s.snake[2];
    assert Move(s.snake[2], Right) == s.snake[3];
  }
}
