# Snake: a verified model of the game state machine

This project models the game logic of a browser Snake game (`script.js`). The
model covers a snake moving on a 20 x 20 board whose edges wrap around, food that
makes it grow, a score and high score, and a tick period that shortens as the
score rises. It also covers steering input buffered between ticks, pausing, the
end of a game on self-collision, and the start/stop/restart controls with the
handle of the repeating tick timer.

The model has three layers:

- `grid.dfy`, module `Grid`: cells, the four headings, one step with wrap-around
  (`Move`), and the pigeonhole argument that a snake shorter than the board leaves
  a free cell (`FreeCellExists`).
- `rules.dfy`, module `Rules`: the game's globals as one value (`GameState`). Each
  handler's effect is a pure function: `Tick` (a timer tick), `Steer` (a key
  press), `Ended`, `TogglePaused`, `Reset`, `Started`, `Stopped`, `ToggledRun` and
  `AutoRestarted`. The module also defines the game invariant `Invariant` and
  proves the lemmas about these functions. The invariant holds that:
  - every cell is on the board;
  - the snake has no repeated segments and is a connected path;
  - the food is off the snake;
  - `score == 10 * (|snake| - 1)` and `gameSpeed == SpeedFor(score)`;
  - the buffered heading never reverses the active one, and the neck lies one
    step behind the head;
  - a finished game's score is at most the high score;
  - a live timer only drives a running game, at period `gameSpeed`.
- `game.dfy`, module `SnakeGame`: class `Game`, whose fields are the script's
  globals. Its methods update the fields in place: the snake is extended at the
  front and cut at the tail, as the script's `unshift` and `pop` do. Every
  state-changing method promises that its new `Snapshot()` is the matching
  `Rules` function applied to the old one, and that `Valid()` holds afterwards.
  `GameOver` promises `Valid()` only when the invariant held before the call,
  because `MoveSnake` calls it after adopting the new heading, when the neck
  relation may not hold. `GenerateFood` changes no state: it only returns a free
  cell.
- `scenarios.dfy`, module `Scenarios`: concrete runs (first meal, wrap at the
  edge, refused reversal, high score at the end of a game).

The handle `gameInterval` is modelled as `Interval`, which has three values:
`Unset` (null), `Live(period)` (a running timer), and `Cleared`. `Cleared` is the
handle that `gameOver` leaves behind: it clears the timer but never sets the
handle back to null. The start/stop button therefore treats a finished game as
running and stops it.

Three behaviours of the script are easy to miss:

- Resetting a game does not start a timer and does not reset the pause flag.
  Only starting does both.
- Moving onto the tail cell ends the game. The collision check looks at every
  current segment before the tail moves away.
- The end of a game clears the timer but keeps its handle, as described above.

## Model

| member | source | states |
|---|---|---|
| Grid.Wrap | script.js:140-144 | for a coordinate at most one step off the board, the teleport equals arithmetic modulo 20 and lands on the board |
| Grid.Move | script.js:130-144 | from a cell on the board, the new head is on the board, differs from the old head, and is the old head displaced by one unit along the heading, modulo 20 in each coordinate |
| Grid.MoveUndo | script.js:133-138 | a step followed by a step in the opposite heading returns to the start cell, across edges too |
| Grid.MoveDistinct | script.js:133-138 | from a cell on the board, two different headings lead to two different cells |
| Grid.Opposite | script.js:185-197 | the reverse of a heading is a different heading |
| Grid.FreeCellExists | script.js:75-79 | a snake shorter than the 400 cells of the board leaves a free cell on the board, so the food retry loop can end |
| Rules.IsSnakeColliding | script.js:176-178 | the segment-by-segment search reports a hit exactly when the cell is one of the snake's segments |
| Rules.Buffered | script.js:184-198 | an arrow key that does not reverse the active heading becomes the buffered heading; any other key leaves it unchanged; the buffered heading never turns into the reverse of the active one |
| Rules.NothingAcceptedKeepsState | script.js:181-199 | key presses that are all refused, or that come after the game ended, leave the whole state unchanged |
| Rules.LastAcceptedWins | script.js:181-199 | between two ticks, the last accepted key press alone decides the buffered heading, and nothing else changes |
| Rules.SpeedFor | script.js:161-163 | the period for a score stays a multiple of 10 between 50 and 150 |
| Rules.SpeedAfterMeal | script.js:157-163 | after a meal, the score-based period drops by 10 exactly when the new score is a multiple of 50 and the period was above 50; otherwise it stays the same |
| Rules.TickWhileHalted | script.js:125 | a tick while paused or after the game ended changes nothing |
| Rules.TickCollision | script.js:146-150 | a tick ends the game exactly when the new head lands on a current segment, the tail included; the snake, score, food and period stay as they were; the high score becomes the larger of itself and the score; the buffered heading has been adopted; no timer is left live |
| Rules.TickMoves | script.js:127-153 | a tick that does not collide adopts the buffered heading and keeps the game running; the new head is the wrapped neighbour cell and is on the board; the rest of the body is the old body, minus the tail unless the snake ate |
| Rules.TickGrowth | script.js:152-170 | eating adds one segment and 10 points and places the generator's cell as food; any other move keeps the length, score, food, period and timer |
| Rules.TickSpeedUp | script.js:161-166 | after a meal, the period drops exactly when the new score is a multiple of 50 and the old period was above 50, and then by one step of 10; a changed period comes with a live timer at that period, and an unchanged one keeps the old timer |
| Rules.NoInstantReversal | script.js:184-198 | in a running game of two or more segments, the head never moves onto the neck, though a reversal would always put it there |
| Rules.AdvanceKeepsBody | script.js:152-170 | the body after adding the head (and dropping the tail) stays on the board, has no repeats, stays connected, and is the old body behind the new head |
| Rules.TickPreservesInvariant | script.js:124-173 | every tick keeps the game invariant when the generator picks a free cell: cells on the board, no repeats, food off the snake, length and period tied to the score, no buffered reversal, timer consistent |
| Rules.EndedRecordsHighScore | script.js:247-259 | ending a game marks it over and sets the high score to the larger of itself and the score; the invariant still holds |
| Rules.SteerPreservesInvariant | script.js:181-199 | a key press keeps the invariant and never changes the active heading |
| Rules.ResetEstablishesInvariant | script.js:48-69 | a reset with food off the centre cell gives a valid game whatever came before, with or without a started timer, and keeps the pause flag |
| Rules.ControlsPreserveInvariant | script.js:202-236 | pausing, stopping, the start/stop button and the delayed restart keep the invariant; stopping leaves no timer handle |
| SnakeGame.Game.constructor | script.js:27-45 | page load gives a valid game: the stored high score, not paused, no timer, then the reset state |
| SnakeGame.Game.ResetGame | script.js:48-69 | the state becomes the reset state: snake `[(10,10)]`, score 0, both headings right, period 150, not over, food off the snake, no timer handle; pause flag and high score are kept |
| SnakeGame.Game.GenerateFood | script.js:72-82 | when a free cell exists, the result is on the board and not on the snake |
| SnakeGame.Game.MoveSnake | script.js:124-173 | the new state is one tick of the rules applied to the old one, and the invariant holds again |
| SnakeGame.Game.ChangeDirection | script.js:181-199 | the new state is one buffered key press applied to the old state; the invariant holds |
| SnakeGame.Game.ToggleGame | script.js:202-211 | any timer handle, even a cleared one, means stop; otherwise start; the invariant holds |
| SnakeGame.Game.StartGame | script.js:214-222 | a reset, then a live timer at period 150, and the game is unpaused |
| SnakeGame.Game.StopGame | script.js:225-229 | the timer handle is dropped and nothing else changes |
| SnakeGame.Game.TogglePause | script.js:232-236 | the pause flag flips unless the game is over; nothing else changes |
| SnakeGame.Game.GameOver | script.js:247-259 | the game is marked over; a live timer becomes a cleared handle; the high score becomes the larger of itself and the score; a valid game stays valid |
| SnakeGame.Game.AutoRestart | script.js:266-270 | the delayed restart starts a new game only if the game is still over |
| Scenarios.FirstMeal | script.js:124-170 | from the start position with food five cells to the right, five ticks eat it: two segments, 10 points |
| Scenarios.WrapAtRightEdge | script.js:140-144 | a head at (19,10) moving right continues at (0,10) and the game goes on |
| Scenarios.ReversalRefused | script.js:195-196 | heading right, the left arrow is refused and the next tick still moves right |
| Scenarios.HighScoreRecorded | script.js:146-150 | from a valid four-segment game at 30 points with a best of 0, a tick that turns the head onto the tail cell ends the game with snake and score kept and records 30 |

## Left out

- Rendering: element lookups, `drawGameBoard`, button labels, the game-over
  screen and `showLossNotification` only draw the state.
- `cellSize`: a floating-point pixel width that only drawing uses.
- Persistent storage: the stored high score is a natural number passed to the
  constructor, and saving it is not modelled. The script compares the stored
  string with a number, relying on the language's coercion; this is not modelled.
- Timing: no clock is modelled, so the delays are not either. The repeating timer
  is the `Interval` handle, and a timer tick is a call of `MoveSnake`. The 3-second
  restart is the explicit `AutoRestart` event. The script never cancels that
  restart timeout, so one pending from an earlier loss can fire during a later
  game. This timing effect is not modelled.
- Event listener registration in `initGame`.
- SnakeGame.Game.GenerateFood: the choice is any free cell. The model does not
  state that the choice is uniformly random.
- SnakeGame.Game.MoveSnake: it requires that the tick does not eat the food when
  no free cell would remain (`FillsBoard`). The script's food retry loop never
  ends in that case.
