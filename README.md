# Snake game logic, modelled and verified in Dafny

This project models the game logic of the minimal Snake game in
`snake_game.py`. The game runs on a 40 × 40 grid: an 800-pixel window split
into 20-pixel cells. The `SnakeGame` object holds these fields:

- the snake body, a list of cells with the head first;
- the current direction;
- the food cell;
- a `GameState` record with the score and the game-over flag.

The methods that change this state are modelled as imperative Dafny, in
module `Engine`:

- `reset_game`;
- `generate_food`, a rejection-sampling loop;
- `_handle_direction_change`;
- the quit and restart branches of `handle_input`;
- `update`, the one-tick step.

Each method is proved against a pure definition in module `Rules`: `Initial`,
`PlaceFood`, `Turn`, `ProcessEvents` and `Tick`. The properties the game
relies on are lemmas about these definitions. Module `Board` counts the grid
cells. It proves that a free cell for the food always exists while the snake
does not fill the board.

Modelling decisions:

- **Randomness.** The random draws of `random.randint` are given as a
  sequence `rolls` of in-grid cells, one cell per pair of draws. Food
  generation returns the first roll that is not on the snake. The source loops
  forever when no free cell turns up, so each generation requires that some
  roll is free (`HasFree`). `Board.FreeCellExists` shows that a free in-grid
  cell exists whenever a duplicate-free body is shorter than 40 · 40 cells.
- **Input.** Events are a list of `Quit`, `KeyPress(key)` or `OtherEvent`.
  Keys are the four arrows, `q`, `r`, or any other key code.
- **Direction changes apply immediately.** Each key press is committed when it
  is handled, and it is checked only against the direction at that moment.
  Nothing buffers it until the next tick. So two key presses in one batch can
  reverse the snake; `Rules.TwoTurnsCanReverse` shows this.
- **The tail counts as body.** The collision check compares the new head with
  the whole current snake before the tail is dropped. Moving into the cell
  the tail is leaving therefore ends the game; `Rules.TailChaseExample` shows
  this.
- **Integers.** Python integers are unbounded, so the score and the coordinates
  are Dafny `int`s.

## Model

| member | source | states |
|---|---|---|
| `Rules.DirectionMap` | snake_game.py:69-74 | exactly the four arrow keys are in the table; each arrow key names its own direction (up to Up, down to Down, left to Left, right to Right), paired with that direction's opposite |
| `Rules.Delta` | snake_game.py:88-93 | every step is a unit step; Up is the one step with y - 1, Down with y + 1, Left with x - 1, Right with x + 1 |
| `Rules.MoveUpExample` | snake_game.py:89-90 | heading up from (5, 5) reaches (5, 4), heading down reaches (5, 6) |
| `Rules.IsQuit` | snake_game.py:57-61 | a quit event is the window's close event or `q`; no arrow key, no `r` and no non-key event quits |
| `Rules.Initial` | snake_game.py:40-45 | a new game is well formed, with snake `[Center]`, direction Right, score 0 and the game running; the placed food's properties are `Rules.PlaceFood`'s and `Rules.InitialState` states them concretely |
| `Rules.Tick` | snake_game.py:81-112 | a finished game is left as it is; a tick never changes the direction; the score rises by 0 or 1 and the length by the same amount; the case-by-case behaviour is in `Rules.TickWhenOver`, `Rules.TickCollision`, `Rules.TickMove` and `Rules.TickEat`, the invariant in `Rules.TickPreservesWellFormed` |
| `Rules.ProcessEvents` | snake_game.py:54-65 | input never ends a game; the score is kept or, only from a finished game, reset to 0; an empty batch changes nothing and keeps running; the rest is in `Rules.ProcessEventsRunning`, `Rules.ProcessEventsWhilePlaying`, `Rules.ProcessEventsScore`, `Rules.RestartIff` and `Rules.ProcessEventsPreservesWellFormed` |
| `Rules.NextHead` | snake_game.py:86-95 | the new head is one grid step (squared distance 1) from the old head |
| `Rules.Turn` | snake_game.py:67-79 | the result is the current direction or the pressed arrow's direction; it is never the reverse of the current direction; a non-reversing arrow always takes effect; a non-arrow key changes nothing |
| `Rules.TurnIdempotent` | snake_game.py:76-79 | pressing the same key twice has the same effect as pressing it once |
| `Rules.TwoTurnsCanReverse` | snake_game.py:76-79 | each press is checked only against the direction at that moment, so Up, then Left, then Down ends heading Down |
| `Rules.FirstFreeIndex` | snake_game.py:49-52 | rejection sampling picks the first draw that is off the snake; every earlier draw was on the snake |
| `Rules.PlaceFood` | snake_game.py:47-52 | generated food is inside the grid, is not a snake cell, and is one of the draws |
| `Rules.InitialState` | snake_game.py:40-45 | a new game has snake `[(20, 20)]`, direction Right, score 0 and game over false; the food is in the grid and off the snake; the state is well formed |
| `Rules.TickWhenOver` | snake_game.py:83-84 | a tick on a finished game changes nothing |
| `Rules.TickCollision` | snake_game.py:97-102 | a head outside the grid, or on any current cell including the tail, sets game over and leaves snake, food, score and direction as they were |
| `Rules.TickMove` | snake_game.py:104-112 | a move that does not reach the food keeps the length; the new head is the old head plus the direction's step; every other cell is the previous cell's old position; score and food stay |
| `Rules.TickEat` | snake_game.py:104-110 | a move onto the food adds exactly one point and one cell; the old body stays behind the new head; the new food is in the grid and off the new snake |
| `Rules.MoveRightExample` | snake_game.py:87-112 | snake `[(10, 10)]` heading right becomes `[(11, 10)]` |
| `Rules.WallHitExample` | snake_game.py:98-102 | stepping to x = 40 ends the game with the snake unchanged |
| `Rules.TailChaseExample` | snake_game.py:100-102 | a head that enters the cell the tail is leaving collides |
| `Rules.TickPreservesWellFormed` | snake_game.py:98-112 | after a tick, every cell is still in the grid and distinct, the food is still off the snake and in the grid, and the length is still the score plus one |
| `Rules.TickScoreMonotone` | snake_game.py:107-109 | a tick never lowers the score and raises it by at most one; it rises exactly when the head reaches the food |
| `Rules.ProcessEventsRunning` | snake_game.py:56-65 | event handling reports that the game keeps running exactly when the batch has no quit event (window close or `q`) |
| `Rules.ProcessEventsWhilePlaying` | snake_game.py:59-64 | while a game is running, input changes only the direction |
| `Rules.ProcessEventsScore` | snake_game.py:62-63 | a batch either keeps the score, or restarts a finished game with score 0, the game running and the snake back at the centre |
| `Rules.ProcessEventsPreservesWellFormed` | snake_game.py:54-79 | processing a batch of events keeps the state well formed |
| `Rules.RestartIff` | snake_game.py:57-64 | on a finished game, the batch ends with a running game exactly when an `r` comes before any quit event; then the state is a new game (centre snake, score 0, its food) steered only in direction; otherwise only the direction of the finished game has changed |
| `Rules.NextHeadReversible` | snake_game.py:88-95 | a step in a direction followed by a step in its opposite returns to the starting cell, so the step table and the opposite table agree |
| `Rules.RestartAfterGameOver` | snake_game.py:62-63 | `r` on a finished game starts a new game, and the loop keeps running |
| `Board.FreeCellExists` | snake_game.py:49-52 | a duplicate-free body shorter than 40 · 40 cells leaves an in-grid cell free, so a draw can succeed |
| `Board.FoodCellAfterEating` | snake_game.py:105-110 | after eating, while the grown snake does not fill the grid, a free cell exists for the new food |
| `Engine.GameState.constructor` | snake_game.py:28-31 | a fresh record has score 0 and game over false |
| `Engine.SnakeGame.constructor` | snake_game.py:34-38 | a new game object is in the initial state of a game |
| `Engine.SnakeGame.ResetGame` | snake_game.py:40-45 | resets the fields to the initial state (snake at the centre, heading right, new food off the snake, a fresh record with score 0) and keeps the invariant |
| `Engine.SnakeGame.GenerateFood` | snake_game.py:47-52 | the retry loop returns the first draw off the snake; that cell is in the grid and not on the snake |
| `Engine.SnakeGame.HandleDirectionChange` | snake_game.py:67-79 | the direction becomes `Turn(old direction, key)` and is never the reverse of the old one; every other part of the state is unchanged and the invariant is kept |
| `Engine.SnakeGame.HandleInput` | snake_game.py:54-65 | the new state and the result are exactly what `ProcessEvents` gives; the result is true exactly when no quit event was in the batch; the invariant is kept |
| `Engine.SnakeGame.Update` | snake_game.py:81-112 | the new state is exactly `Tick(old state)`; the invariant is kept; the score does not decrease |

## Left out

- Rendering and I/O are left out: `pygame.init`, the window, `draw`,
  `_draw_text`, fonts, colours and pixel arithmetic. They draw the state and
  do not change it.
- The frame clock and `FPS` are left out because they only pace the loop.
- The main loop `run` is left out. It is plumbing that calls `handle_input`,
  `update` and `draw` in turn; each of these is modelled on its own.
- Event polling is left out: `pygame.event.get` is replaced by the event list
  given to `HandleInput`.
- `random.randint` is not modelled as a distribution. Its results are the
  caller-supplied `rolls`. Each roll is assumed inside the grid, which is
  what `randint(0, GRID_COUNT - 1)` returns. There is no claim that a uniform
  sampler eventually finds a free cell.
- `generate_food`, and so `update` when it eats, do not terminate on a full
  board in the source.
  The model instead requires draws that contain a free cell (`HasFree`,
  `FoodRollsSuffice`, `ResetRollsSuffice`). Non-termination itself is not
  modelled.
- High score, speed ramp, menus, pause and a buffered next direction are not
  in this version of the game. They are not modelled.
