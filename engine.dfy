/**
 * The game object: the snake body, its heading and the food are fields of
 * SnakeGame, the score and the game-over flag live in a separate GameState
 * object.  Every method changes these in place and is proved against the
 * pure definitions of module Rules.  Rendering, the clock and the window
 * are not part of this model; the random draws of food generation are
 * passed in as `rolls`.
 */
module Engine {
  import opened Rules

  /** The score and the game-over flag, updated in place during a game. */
  class GameState {
    var score: int
    var gameOver: bool

    constructor ()
      ensures score == 0 && !gameOver
    {
      score := 0;
      gameOver := false;
    }
  }

  class SnakeGame {
    var snake: seq<Cell>
    var direction: Direction
    var food: Cell
    var state: GameState

    /** The abstract value of the game. */
    function Model(): GameView
      reads this, state
    {
      GameView(snake, direction, food, state.score, state.gameOver)
    }

    /** The object invariant: the game is in a reachable state. */
    ghost predicate Valid()
      reads this, state
    {
      WellFormed(Model())
    }

    /** A new game object starts a new game. */
    constructor (rolls: seq<GridCell>)
      requires HasFree(rolls, [Center])
      ensures Valid()
      ensures Model() == Initial(rolls)
    {
      state := new GameState();
      new;
      ResetGame(rolls);
    }

    /** Start over: one cell in the centre, heading right, new food, a fresh score of 0. */
    method ResetGame(rolls: seq<GridCell>)
      requires HasFree(rolls, [Center])
      modifies this
      ensures fresh(state)
      ensures Valid()
      ensures Model() == Initial(rolls)
      ensures snake == [Center] && direction == Right && state.score == 0 && !state.gameOver
      ensures InBounds(food) && food !in snake
    {
      snake := [Center];
      direction := Right;
      food := GenerateFood(rolls);
      state := new GameState();
      InitialState(rolls);
    }

    /**
     * Draw cells until one is off the snake.  The draws are `rolls`, in
     * order; the result is the first one that is free.
     */
    method GenerateFood(rolls: seq<GridCell>) returns (cell: Cell)
      requires HasFree(rolls, snake)
      ensures cell == PlaceFood(rolls, snake)
      ensures InBounds(cell) && cell !in snake
    {
      var i := 0;
      while true
        invariant 0 <= i <= FirstFreeIndex(rolls, snake)
        decreases FirstFreeIndex(rolls, snake) - i
      {
        cell := rolls[i];
        if cell !in snake {
          return;
        }
        i := i + 1;
      }
    }

    /** Offer one key press to the direction rule. */
    method HandleDirectionChange(key: Key)
      requires Valid()
      modifies this`direction
      ensures Valid()
      ensures Model() == old(Model()).(direction := direction)
      ensures direction == Turn(old(direction), key)
      ensures direction != Opposite(old(direction))
    {
      match DirectionMap(key)
      case Some((newDirection, opposite)) =>
        if direction != opposite {
          direction := newDirection;
        }
      case None =>
    }

    /**
     * Process one batch of input events.  Returns false when the batch asks
     * to quit; `r` on a finished game restarts it.
     */
    method HandleInput(events: seq<Event>, rolls: seq<GridCell>) returns (running: bool)
      requires Valid()
      requires ResetRollsSuffice(Model(), events, rolls)
      modifies this
      ensures Valid()
      ensures (Model(), running) == ProcessEvents(old(Model()), events, rolls)
      ensures running <==> forall i :: 0 <= i < |events| ==> !IsQuit(events[i])
    {
      ProcessEventsRunning(Model(), events, rolls);
      var i := 0;
      while i < |events|
        invariant 0 <= i <= |events|
        invariant Valid()
        invariant ResetRollsSuffice(Model(), events[i..], rolls)
        invariant ProcessEvents(Model(), events[i..], rolls) == ProcessEvents(old(Model()), events, rolls)
      {
        assert events[i..][1..] == events[i + 1..];
        match events[i] {
          case Quit =>
            return false;
          case OtherEvent =>
          case KeyPress(key) =>
            if key == KeyQ {
              return false;
            }
            if key == KeyR && state.gameOver {
              ResetGame(rolls);
            }
            HandleDirectionChange(key);
        }
        i := i + 1;
      }
      return true;
    }

    /** One tick of the game, as Tick describes it. */
    method Update(rolls: seq<GridCell>)
      requires Valid()
      requires FoodRollsSuffice(Model(), rolls)
      modifies this, state
      ensures state == old(state)
      ensures Valid()
      ensures Model() == Tick(old(Model()), rolls)
      ensures old(state.score) <= state.score
    {
      TickPreservesWellFormed(Model(), rolls);
      TickScoreMonotone(Model(), rolls);
      if state.gameOver {
        return;
      }

      var head := snake[0];
      var (dx, dy) := Delta(direction);
      var newHead := Cell(head.x + dx, head.y + dy);

      if newHead.x < 0 || newHead.x >= GridCount || newHead.y < 0 || newHead.y >= GridCount || newHead in snake {
        state.gameOver := true;
        return;
      }

      snake := [newHead] + snake;

      if newHead == food {
        state.score := state.score + 1;
        food := GenerateFood(rolls);
      } else {
        snake := snake[..|snake| - 1];
      }
    }
  }
}
