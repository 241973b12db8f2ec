/**
 * The rules of the minimal Snake game as pure definitions: the grid, the
 * directions and the key table, the food placement by rejection sampling,
 * the start of a game, the one-tick step and the processing of one batch
 * of input events.  The class in module Engine is proved against these.
 */
module Rules {

  datatype Option<T> = None | Some(value: T)

  // Window and grid constants of the game.
  const WindowSize: int := 800
  const GridSize: int := 20
  const GridCount: int := WindowSize / GridSize

  datatype Direction = Up | Down | Left | Right

  /** A grid cell (x, y); a computed head may lie outside the grid. */
  datatype Cell = Cell(x: int, y: int)

  predicate InBounds(c: Cell) {
    0 <= c.x < GridCount && 0 <= c.y < GridCount
  }

  /** A cell the random generator can produce: both coordinates in [0, GridCount). */
  type GridCell = c: Cell | InBounds(c) witness Cell(0, 0)

  /** The cell where every game starts. */
  const Center: Cell := Cell(GridCount / 2, GridCount / 2)

  /** The keys the game reacts to; every other key is OtherKey. */
  datatype Key = ArrowUp | ArrowDown | ArrowLeft | ArrowRight | KeyQ | KeyR | OtherKey(code: int)

  /** One input event: the window's close button, a key press, or anything else. */
  datatype Event = Quit | KeyPress(key: Key) | OtherEvent

  /** The whole state of a game: the body (head first), the heading, the food, the score and the flag. */
  datatype GameView = GameView(snake: seq<Cell>, direction: Direction, food: Cell, score: int, gameOver: bool)

  function Opposite(d: Direction): (r: Direction)
    ensures r != d
  {
    match d
    case Up => Down
    case Down => Up
    case Left => Right
    case Right => Left
  }

  /** The key table: an arrow key names its direction and the direction it may not be pressed against. */
  function DirectionMap(k: Key): (r: Option<(Direction, Direction)>)
    ensures r.Some? <==> k in {ArrowUp, ArrowDown, ArrowLeft, ArrowRight}
    ensures r.Some? ==> r.value.1 == Opposite(r.value.0)
    ensures r.Some? ==>
      && (r.value.0 == Up <==> k == ArrowUp)
      && (r.value.0 == Down <==> k == ArrowDown)
      && (r.value.0 == Left <==> k == ArrowLeft)
      && (r.value.0 == Right <==> k == ArrowRight)
  {
    match k
    case ArrowUp => Some((Up, Down))
    case ArrowDown => Some((Down, Up))
    case ArrowLeft => Some((Left, Right))
    case ArrowRight => Some((Right, Left))
    case _ => None
  }

  /** The unit step of each direction; y grows downwards. */
  function Delta(d: Direction): (r: (int, int))
    ensures r.0 * r.0 + r.1 * r.1 == 1
    ensures r.1 == -1 <==> d == Up
    ensures r.1 == 1 <==> d == Down
    ensures r.0 == -1 <==> d == Left
    ensures r.0 == 1 <==> d == Right
  {
    match d
    case Up => (0, -1)
    case Down => (0, 1)
    case Left => (-1, 0)
    case Right => (1, 0)
  }

  function NextHead(head: Cell, d: Direction): (h: Cell)
    ensures h != head
    ensures (h.x - head.x) * (h.x - head.x) + (h.y - head.y) * (h.y - head.y) == 1
  {
    Cell(head.x + Delta(d).0, head.y + Delta(d).1)
  }

  /**
   * The direction after one key press: an arrow key turns the snake unless it
   * points straight back; any other key changes nothing.
   */
  function Turn(current: Direction, k: Key): (r: Direction)
    ensures r == current || (DirectionMap(k).Some? && r == DirectionMap(k).value.0)
    ensures r != Opposite(current)
    ensures DirectionMap(k).Some? && DirectionMap(k).value.0 != Opposite(current) ==> r == DirectionMap(k).value.0
  {
    match DirectionMap(k)
    case Some((newDirection, opposite)) =>
      if current != opposite then newDirection else current
    case None => current
  }

  /** No cell occurs twice. */
  predicate NoDuplicates(s: seq<Cell>) {
    forall i, j :: 0 <= i < j < |s| ==> s[i] != s[j]
  }

  predicate AllInBounds(s: seq<Cell>) {
    forall i :: 0 <= i < |s| ==> InBounds(s[i])
  }

  /**
   * What holds of every reachable state: a non-empty body of distinct in-grid
   * cells, one cell longer than the score, and the food on a free in-grid cell.
   */
  predicate WellFormed(g: GameView) {
    && |g.snake| >= 1
    && AllInBounds(g.snake)
    && NoDuplicates(g.snake)
    && InBounds(g.food)
    && g.food !in g.snake
    && g.score >= 0
    && |g.snake| == g.score + 1
  }

  /** Some roll lands off the cells s. */
  predicate HasFree(rolls: seq<GridCell>, s: seq<Cell>) {
    exists i :: 0 <= i < |rolls| && rolls[i] !in s
  }

  /**
   * Rejection sampling over the successive random draws `rolls`: the index of
   * the first draw not on s.  Every earlier draw hit s.
   */
  function FirstFreeIndex(rolls: seq<GridCell>, s: seq<Cell>): (i: nat)
    requires HasFree(rolls, s)
    ensures i < |rolls| && rolls[i] !in s
    ensures forall j :: 0 <= j < i ==> rolls[j] in s
  {
    if rolls[0] !in s then 0
    else
      var k :| 0 <= k < |rolls| && rolls[k] !in s;
      assert rolls[1..][k - 1] == rolls[k];
      1 + FirstFreeIndex(rolls[1..], s)
  }

  /** The food a generation over `rolls` places: the first draw off the snake s. */
  function PlaceFood(rolls: seq<GridCell>, s: seq<Cell>): (food: Cell)
    requires HasFree(rolls, s)
    ensures InBounds(food) && food !in s
    ensures food in rolls
  {
    rolls[FirstFreeIndex(rolls, s)]
  }

  /** A new game: one cell in the centre heading right, food off it, score 0. */
  function Initial(rolls: seq<GridCell>): (g: GameView)
    requires HasFree(rolls, [Center])
    ensures WellFormed(g)
    ensures g.snake == [Center] && g.direction == Right && g.score == 0 && !g.gameOver
  {
    GameView([Center], Right, PlaceFood(rolls, [Center]), 0, false)
  }

  /** The tick would move the head onto the food (no collision, game running). */
  predicate WillEat(g: GameView)
    requires g.snake != []
  {
    var h := NextHead(g.snake[0], g.direction);
    !g.gameOver && InBounds(h) && h !in g.snake && h == g.food
  }

  /** The tick's generation of new food terminates: some roll lands off the grown snake. */
  predicate FoodRollsSuffice(g: GameView, rolls: seq<GridCell>)
    requires g.snake != []
  {
    WillEat(g) ==> HasFree(rolls, [NextHead(g.snake[0], g.direction)] + g.snake)
  }

  /**
   * One tick.  A finished game stays as it is.  A head that leaves the grid or
   * meets any current cell, the tail included, ends the game with nothing else
   * changed.  Otherwise the head is prepended; on the food the score goes up
   * and new food is drawn against the longer snake, else the tail is dropped.
   */
  function Tick(g: GameView, rolls: seq<GridCell>): (r: GameView)
    requires g.snake != []
    requires FoodRollsSuffice(g, rolls)
    ensures g.gameOver ==> r == g
    ensures r.direction == g.direction
    ensures g.score <= r.score <= g.score + 1
    ensures |r.snake| == |g.snake| + (r.score - g.score)
  {
    if g.gameOver then g
    else
      var h := NextHead(g.snake[0], g.direction);
      if !InBounds(h) || h in g.snake then g.(gameOver := true)
      else if h == g.food then
        var grown := [h] + g.snake;
        g.(snake := grown, score := g.score + 1, food := PlaceFood(rolls, grown))
      else
        g.(snake := [h] + g.snake[..|g.snake| - 1])
  }

  /** The event stops the game loop. */
  predicate IsQuit(e: Event)
    ensures e == Quit || e == KeyPress(KeyQ) ==> IsQuit(e)
    ensures IsQuit(e) ==> !e.OtherEvent?
    ensures e.KeyPress? && (DirectionMap(e.key).Some? || e.key == KeyR) ==> !IsQuit(e)
  {
    e == Quit || e == KeyPress(KeyQ)
  }

  /** An `r` key press comes before any quit event, so a restart may be performed. */
  predicate ResetPending(events: seq<Event>)
    decreases |events|
  {
    if events == [] then false
    else if IsQuit(events[0]) then false
    else events[0] == KeyPress(KeyR) || ResetPending(events[1..])
  }

  /** Restarting from a finished game can place its food. */
  predicate ResetRollsSuffice(g: GameView, events: seq<Event>, rolls: seq<GridCell>) {
    g.gameOver && ResetPending(events) ==> HasFree(rolls, [Center])
  }

  /**
   * One batch of events, in order: a quit event stops processing and reports
   * false; `r` restarts a finished game; every key press is then offered to
   * the direction rule.  Reports true if no quit event was met.
   */
  function ProcessEvents(g: GameView, events: seq<Event>, rolls: seq<GridCell>): (r: (GameView, bool))
    requires ResetRollsSuffice(g, events, rolls)
    ensures r.0.gameOver ==> g.gameOver
    ensures r.0.score == g.score || (g.gameOver && r.0.score == 0)
    ensures events == [] ==> r == (g, true)
    decreases |events|
  {
    if events == [] then (g, true)
    else
      match events[0]
      case Quit => (g, false)
      case OtherEvent => ProcessEvents(g, events[1..], rolls)
      case KeyPress(k) =>
        if k == KeyQ then (g, false)
        else
          var g1 := if k == KeyR && g.gameOver then Initial(rolls) else g;
          ProcessEvents(g1.(direction := Turn(g1.direction, k)), events[1..], rolls)
  }

  // ---------------------------------------------------------------------
  // Properties of a new game

  lemma InitialState(rolls: seq<GridCell>)
    requires HasFree(rolls, [Center])
    ensures Initial(rolls).snake == [Cell(20, 20)]
    ensures Initial(rolls).direction == Right
    ensures Initial(rolls).score == 0 && !Initial(rolls).gameOver
    ensures InBounds(Initial(rolls).food) && Initial(rolls).food != Cell(20, 20)
    ensures WellFormed(Initial(rolls))
  {
  }

  // ---------------------------------------------------------------------
  // Properties of the direction rule

  /** Pressing an arrow key twice is the same as pressing it once. */
  lemma TurnIdempotent(d: Direction, k: Key)
    ensures Turn(Turn(d, k), k) == Turn(d, k)
  {
  }

  /**
   * Keys take effect one by one, so two presses in one batch can reverse the
   * snake: heading up, Left then Down leaves it heading down.
   */
  lemma TwoTurnsCanReverse()
    ensures Turn(Turn(Up, ArrowLeft), ArrowDown) == Opposite(Up)
  {
  }

  // ---------------------------------------------------------------------
  // Properties of one tick

  lemma TickWhenOver(g: GameView, rolls: seq<GridCell>)
    requires g.snake != [] && FoodRollsSuffice(g, rolls)
    requires g.gameOver
    ensures Tick(g, rolls) == g
  {
  }

  /** A wall hit or a hit on any current cell (the tail too) ends the game and changes nothing else. */
  lemma TickCollision(g: GameView, rolls: seq<GridCell>)
    requires g.snake != [] && FoodRollsSuffice(g, rolls)
    requires !g.gameOver
    requires var h := NextHead(g.snake[0], g.direction); !InBounds(h) || h in g.snake
    ensures var r := Tick(g, rolls);
      r.gameOver && r.snake == g.snake && r.food == g.food && r.score == g.score && r.direction == g.direction
  {
  }

  /** A plain move: the head advances one cell, the tail cell is dropped, score and food stay. */
  lemma TickMove(g: GameView, rolls: seq<GridCell>)
    requires g.snake != [] && FoodRollsSuffice(g, rolls)
    requires !g.gameOver
    requires var h := NextHead(g.snake[0], g.direction); InBounds(h) && h !in g.snake && h != g.food
    ensures var r := Tick(g, rolls);
      && !r.gameOver
      && |r.snake| == |g.snake|
      && r.snake[0] == NextHead(g.snake[0], g.direction)
      && (forall i :: 1 <= i < |r.snake| ==> r.snake[i] == g.snake[i - 1])
      && r.score == g.score && r.food == g.food && r.direction == g.direction
  {
  }

  /** Eating: one point more, one cell longer, the old body kept behind the new head, new food off the snake. */
  lemma TickEat(g: GameView, rolls: seq<GridCell>)
    requires g.snake != [] && FoodRollsSuffice(g, rolls)
    requires WillEat(g)
    ensures var r := Tick(g, rolls);
      && !r.gameOver
      && r.score == g.score + 1
      && |r.snake| == |g.snake| + 1
      && r.snake[0] == g.food
      && r.snake[1..] == g.snake
      && InBounds(r.food) && r.food !in r.snake
      && r.direction == g.direction
  {
  }

  /** Heading up decreases y: the grid's y axis points down the screen. */
  lemma MoveUpExample()
    ensures NextHead(Cell(5, 5), Up) == Cell(5, 4)
    ensures NextHead(Cell(5, 5), Down) == Cell(5, 6)
  {
  }

  /** A one-cell snake at (10, 10) heading right moves to (11, 10). */
  lemma MoveRightExample(rolls: seq<GridCell>)
    ensures Tick(GameView([Cell(10, 10)], Right, Cell(0, 0), 0, false), rolls)
         == GameView([Cell(11, 10)], Right, Cell(0, 0), 0, false)
  {
  }

  /** Leaving the grid at the right edge ends the game. */
  lemma WallHitExample(rolls: seq<GridCell>)
    ensures Tick(GameView([Cell(GridCount - 1, 5)], Right, Cell(0, 0), 0, false), rolls)
         == GameView([Cell(GridCount - 1, 5)], Right, Cell(0, 0), 0, true)
  {
  }

  /**
   * The tail counts as body: a snake whose head is about to enter the cell its
   * tail is leaving collides.
   */
  lemma TailChaseExample(rolls: seq<GridCell>)
    ensures var g := GameView([Cell(1, 0), Cell(1, 1), Cell(0, 1), Cell(0, 0)], Left, Cell(5, 5), 3, false);
      Tick(g, rolls) == g.(gameOver := true)
  {
  }

  /** A new cell off a duplicate-free body, prepended to a prefix of it, keeps it duplicate-free. */
  lemma PrependDistinct(h: Cell, s: seq<Cell>, n: nat)
    requires NoDuplicates(s) && h !in s && n <= |s|
    ensures NoDuplicates([h] + s[..n])
  {
  }

  /** A tick keeps every reachable-state property. */
  lemma TickPreservesWellFormed(g: GameView, rolls: seq<GridCell>)
    requires g.snake != [] && FoodRollsSuffice(g, rolls)
    requires WellFormed(g)
    ensures WellFormed(Tick(g, rolls))
  {
  }

  /** The score never goes down in a tick, and rises by at most one. */
  lemma TickScoreMonotone(g: GameView, rolls: seq<GridCell>)
    requires g.snake != [] && FoodRollsSuffice(g, rolls)
    ensures g.score <= Tick(g, rolls).score <= g.score + 1
    ensures Tick(g, rolls).score == g.score + 1 <==> WillEat(g)
  {
  }

  // ---------------------------------------------------------------------
  // Properties of one batch of input events

  /** The loop goes on exactly when the batch holds no quit event. */
  lemma {:induction false} ProcessEventsRunning(g: GameView, events: seq<Event>, rolls: seq<GridCell>)
    requires ResetRollsSuffice(g, events, rolls)
    ensures ProcessEvents(g, events, rolls).1 <==> forall i :: 0 <= i < |events| ==> !IsQuit(events[i])
    decreases |events|
  {
    if events != [] && !IsQuit(events[0]) {
      var rest := events[1..];
      match events[0]
      case OtherEvent =>
        ProcessEventsRunning(g, rest, rolls);
      case KeyPress(k) =>
        var g1 := if k == KeyR && g.gameOver then Initial(rolls) else g;
        ProcessEventsRunning(g1.(direction := Turn(g1.direction, k)), rest, rolls);
      assert forall i :: 1 <= i < |events| ==> events[i] == rest[i - 1];
    }
  }

  /** While a game is running, input only steers: everything but the direction stays. */
  lemma {:induction false} ProcessEventsWhilePlaying(g: GameView, events: seq<Event>, rolls: seq<GridCell>)
    requires !g.gameOver
    ensures ProcessEvents(g, events, rolls).0 == g.(direction := ProcessEvents(g, events, rolls).0.direction)
    decreases |events|
  {
    if events != [] && !IsQuit(events[0]) {
      match events[0]
      case OtherEvent =>
        ProcessEventsWhilePlaying(g, events[1..], rolls);
      case KeyPress(k) =>
        ProcessEventsWhilePlaying(g.(direction := Turn(g.direction, k)), events[1..], rolls);
    }
  }

  /** A batch either keeps the score or, by restarting a finished game, resets it to 0. */
  lemma {:induction false} ProcessEventsScore(g: GameView, events: seq<Event>, rolls: seq<GridCell>)
    requires ResetRollsSuffice(g, events, rolls)
    ensures var r := ProcessEvents(g, events, rolls).0;
      r.score == g.score || (g.gameOver && r.score == 0 && !r.gameOver && r.snake == [Center])
    decreases |events|
  {
    if events != [] && !IsQuit(events[0]) {
      match events[0]
      case OtherEvent =>
        ProcessEventsScore(g, events[1..], rolls);
      case KeyPress(k) =>
        var g1 := if k == KeyR && g.gameOver then Initial(rolls) else g;
        var g2 := g1.(direction := Turn(g1.direction, k));
        ProcessEventsScore(g2, events[1..], rolls);
        if g1 != g {
          ProcessEventsWhilePlaying(g2, events[1..], rolls);
        }
    }
  }

  /** A batch keeps every reachable-state property. */
  lemma {:induction false} ProcessEventsPreservesWellFormed(g: GameView, events: seq<Event>, rolls: seq<GridCell>)
    requires ResetRollsSuffice(g, events, rolls)
    requires WellFormed(g)
    ensures WellFormed(ProcessEvents(g, events, rolls).0)
    decreases |events|
  {
    if events != [] && !IsQuit(events[0]) {
      match events[0]
      case OtherEvent =>
        ProcessEventsPreservesWellFormed(g, events[1..], rolls);
      case KeyPress(k) =>
        var g1 := if k == KeyR && g.gameOver then Initial(rolls) else g;
        if k == KeyR && g.gameOver {
          InitialState(rolls);
        }
        ProcessEventsPreservesWellFormed(g1.(direction := Turn(g1.direction, k)), events[1..], rolls);
    }
  }

  /**
   * A finished game restarts exactly when an `r` comes before any quit event.
   * Then the batch ends in a new game, steered by the keys after the `r`;
   * otherwise only the direction of the finished game changes.
   */
  lemma {:induction false} RestartIff(g: GameView, events: seq<Event>, rolls: seq<GridCell>)
    requires g.gameOver && ResetRollsSuffice(g, events, rolls)
    ensures !ProcessEvents(g, events, rolls).0.gameOver <==> ResetPending(events)
    ensures var r := ProcessEvents(g, events, rolls).0;
      ResetPending(events) ==> r == Initial(rolls).(direction := r.direction)
    ensures var r := ProcessEvents(g, events, rolls).0;
      !ResetPending(events) ==> r == g.(direction := r.direction)
    decreases |events|
  {
    if events != [] && !IsQuit(events[0]) {
      match events[0]
      case OtherEvent =>
        RestartIff(g, events[1..], rolls);
      case KeyPress(k) =>
        if k == KeyR {
          ProcessEventsWhilePlaying(Initial(rolls).(direction := Turn(Initial(rolls).direction, k)), events[1..], rolls);
        } else {
          RestartIff(g.(direction := Turn(g.direction, k)), events[1..], rolls);
        }
    }
  }

  /** Stepping one cell and then one cell the opposite way returns to the start. */
  lemma NextHeadReversible(head: Cell, d: Direction)
    ensures NextHead(NextHead(head, d), Opposite(d)) == head
  {
  }

  /** Pressing `r` on a finished game starts a new one. */
  lemma RestartAfterGameOver(g: GameView, rolls: seq<GridCell>)
    requires g.gameOver && HasFree(rolls, [Center])
    ensures ProcessEvents(g, [KeyPress(KeyR)], rolls) == (Initial(rolls), true)
  {
  }
}
