/**
 * The game engine: the state the game keeps between animation frames, and
 * the operations that change it (session reset, food placement, input
 * filtering, the tick step, game over, and the fixed-tick frame loop).
 */
module Engine {
  import opened Wrappers
  import opened Grid
  import Board
  import Input

  /** Milliseconds of wall-clock time per simulation tick. */
  const TICK_MS: int := 110

  class Game {
    /** Body cells, head first. */
    var snake: seq<Cell>
    /** Heading committed at the start of the last tick. */
    var direction: Direction
    /** Heading requested by input, committed at the next tick. */
    var nextDirection: Direction
    var food: Cell
    var score: nat
    var bestScore: nat
    var gameRunning: bool
    var gameOver: bool
    /** Wall-clock milliseconds not yet turned into ticks. */
    var tickAccumulator: nat

    /**
     * The engine's invariant: the buffered heading is never the reverse of
     * the committed one, and once a session has started the body is well
     * formed and the food lies on a free board cell.
     */
    ghost predicate Valid()
      reads this
    {
      && nextDirection != Opposite(direction)
      && !(gameRunning && gameOver)
      && ((gameRunning || gameOver) ==>
            Board.WellFormed(snake) && InBounds(food) && food !in snake)
    }

    /** The splash state, before the first session, with the stored best score. */
    constructor (storedBest: nat)
      ensures Valid()
      ensures !gameRunning && !gameOver
      ensures bestScore == storedBest && score == 0
    {
      snake := [];
      direction, nextDirection := Right, Right;
      food := Cell(0, 0);
      score := 0;
      bestScore := storedBest;
      gameRunning, gameOver := false, false;
      tickAccumulator := 0;
    }

    /** Draws a board cell the snake does not occupy and puts the food there. */
    method PlaceFood()
      requires |snake| < Cells
      modifies this`food
      ensures InBounds(food) && food !in snake
    {
      Board.FreeCellExists(snake);
      var x: int, y: int :| 0 <= x < GRID && 0 <= y < GRID && Cell(x, y) !in snake;
      food := Cell(x, y);
    }

    /** Spawns a new snake heading right, clears the score and places food. */
    method ResetGame()
      requires Valid()
      modifies this
      ensures Valid()
      ensures snake == Board.SpawnBody()
      ensures direction == Right && nextDirection == Right && score == 0
      ensures InBounds(food) && food !in snake
      ensures bestScore == old(bestScore)
      ensures gameRunning == old(gameRunning) && gameOver == old(gameOver)
      ensures tickAccumulator == old(tickAccumulator)
    {
      snake := Board.SpawnBody();
      direction := Right;
      nextDirection := Right;
      score := 0;
      PlaceFood();
    }

    /** Starts a session, from the splash screen or after a game over. */
    method BeginGame()
      requires Valid()
      modifies this
      ensures Valid()
      ensures gameRunning && !gameOver
      ensures snake == Board.SpawnBody() && |snake| == 3
      ensures direction == Right && nextDirection == Right
      ensures score == 0 && tickAccumulator == 0
      ensures InBounds(food) && food !in snake
      ensures bestScore == old(bestScore)
    {
      ResetGame();
      gameRunning := true;
      gameOver := false;
      tickAccumulator := 0;
    }

    /** Ends the session and raises the best score to the final score if that beats it. */
    method EndGame()
      requires Valid() && gameRunning
      modifies this`gameRunning, this`gameOver, this`bestScore
      ensures Valid()
      ensures !gameRunning && gameOver
      ensures bestScore == if score > old(bestScore) then score else old(bestScore)
      ensures bestScore >= old(bestScore) && bestScore >= score
    {
      gameRunning := false;
      gameOver := true;
      if score > bestScore {
        bestScore := score;
      }
    }

    /**
     * Buffers a requested heading. Ignored while no session is running, and
     * ignored when it reverses the committed heading.
     */
    method SetDirection(dir: Direction)
      requires Valid()
      modifies this`nextDirection
      ensures Valid()
      ensures nextDirection == if gameRunning && dir != Opposite(direction) then dir else old(nextDirection)
    {
      if !gameRunning {
        return;
      }
      if dir != Opposite(direction) {
        nextDirection := dir;
      }
    }

    /** A key press: keys outside the table are ignored, the rest go through SetDirection. */
    method HandleKey(key: string)
      requires Valid()
      modifies this`nextDirection
      ensures Valid()
      ensures nextDirection ==
        match Input.KeyDirection(key)
        case Some(d) => if gameRunning && d != Opposite(direction) then d else old(nextDirection)
        case None => old(nextDirection)
    {
      var dir := Input.KeyDirection(key);
      if dir.None? {
        return;
      }
      SetDirection(dir.value);
    }

    /** The end of a swipe with displacement (dx, dy). */
    method HandleSwipe(dx: int, dy: int)
      requires Valid()
      modifies this`nextDirection
      ensures Valid()
      ensures nextDirection ==
        match Input.SwipeDirection(dx, dy)
        case Some(d) => if gameRunning && d != Opposite(direction) then d else old(nextDirection)
        case None => old(nextDirection)
    {
      var dir := Input.SwipeDirection(dx, dy);
      if dir.Some? {
        SetDirection(dir.value);
      }
    }

    /**
     * One simulation tick. Commits the buffered heading, then either ends the
     * game on a collision (leaving body, food and score as they were) or
     * advances the body as Board.Tick says; eating scores one and re-places
     * the food. The food can only be re-placed while a free cell remains.
     */
    method Update()
      requires Valid() && gameRunning
      requires Move(snake[0], nextDirection) == food ==> |snake| + 1 < Cells
      modifies this
      ensures Valid()
      ensures direction == old(nextDirection) && nextDirection == old(nextDirection)
      ensures direction != Opposite(old(direction))
      ensures tickAccumulator == old(tickAccumulator)
      ensures |old(snake)| <= |snake| <= |old(snake)| + 1
      ensures TickStep(old(snake), old(food), old(nextDirection), snake, food)
      ensures gameRunning == Survives(old(snake), old(food), old(nextDirection)) && gameOver == !gameRunning
      ensures score - old(score) == |snake| - |old(snake)|
      ensures bestScore == if !gameRunning && old(score) > old(bestScore) then old(score) else old(bestScore)
    {
      Board.TickPreservesWellFormed(snake, nextDirection, food);
      direction := nextDirection;
      var head := Move(snake[0], direction);
      if !InBounds(head) || head in snake {
        EndGame();
        return;
      }
      snake := [head] + snake;
      if head == food {
        score := score + 1;
        PlaceFood();
      } else {
        snake := snake[..|snake| - 1];
      }
    }

    /**
     * One animation frame that arrives delta milliseconds after the last.
     * Runs one tick per whole TICK_MS in the accumulator, keeping the
     * remainder, and stops at the first tick that ends the game.
     *
     * The ghost results record the run: ticks is the number of ticks run,
     * and bodies[i], foods[i] are the body and food before tick i (the last
     * entries are the state after the frame). While the game goes on, every
     * tick survived; when a tick ended it, all ticks before it survived.
     */
    method GameLoop(delta: nat) returns (ghost ticks: nat, ghost bodies: seq<seq<Cell>>, ghost foods: seq<Cell>)
      requires Valid()
      requires gameRunning ==> |snake| + Min(GRID, (tickAccumulator + delta) / TICK_MS) < Cells
      modifies this
      ensures Valid()
      ensures !old(gameRunning) ==> ticks == 0 && unchanged(this)
      ensures nextDirection == old(nextDirection)
      ensures |bodies| == ticks + 1 && |foods| == ticks + 1
      ensures bodies[0] == old(snake) && foods[0] == old(food)
      ensures snake == bodies[ticks] && food == foods[ticks]
      ensures ticks == 0 ==>
        snake == old(snake) && food == old(food) && score == old(score) && direction == old(direction)
      ensures ticks >= 1 ==> direction == old(nextDirection)
      ensures score - old(score) == |snake| - |old(snake)|
      ensures old(gameRunning) ==> tickAccumulator + TICK_MS * ticks == old(tickAccumulator) + delta
      ensures old(gameRunning) && gameRunning ==>
        && ticks == (old(tickAccumulator) + delta) / TICK_MS && tickAccumulator < TICK_MS
        && Run(bodies, foods, old(nextDirection))
        && bestScore == old(bestScore)
      ensures old(gameRunning) && !gameRunning ==>
        && 1 <= ticks <= (old(tickAccumulator) + delta) / TICK_MS && gameOver
        && EndsWithCollision(bodies, foods, old(nextDirection))
        && bestScore == (if score > old(bestScore) then score else old(bestScore))
    {
      ticks := 0;
      bodies, foods := [snake], [food];
      if !gameRunning {
        return;
      }
      ghost var total := tickAccumulator + delta;
      ghost var startLength := |snake|;
      ghost var startScore := score;
      ghost var d := nextDirection;
      ghost var h := snake[0];
      tickAccumulator := tickAccumulator + delta;
      while gameRunning && tickAccumulator >= TICK_MS
        invariant Valid()
        invariant nextDirection == d
        invariant ticks == 0 ==> gameRunning && direction == old(direction) && score == startScore
        invariant ticks >= 1 ==> direction == d
        invariant tickAccumulator + TICK_MS * ticks == total
        invariant |snake| <= startLength + ticks
        invariant score - startScore == |snake| - startLength
        invariant startLength + Min(GRID, total / TICK_MS) < Cells
        invariant |bodies| == ticks + 1 && |foods| == ticks + 1
        invariant bodies[0] == old(snake) && foods[0] == old(food)
        invariant snake == bodies[ticks] && food == foods[ticks]
        invariant gameRunning ==>
          && Run(bodies, foods, d)
          // every surviving tick moved the head one cell further the same way
          && snake[0] == Ahead(h, d, ticks)
          && bestScore == old(bestScore)
        invariant !gameRunning ==>
          && gameOver
          && EndsWithCollision(bodies, foods, d)
          && bestScore == (if score > old(bestScore) then score else old(bestScore))
        decreases tickAccumulator
      {
        assert InBounds(snake[0]) && InBounds(h);
        AheadOnBoard(h, d, ticks);
        assert ticks + 1 <= total / TICK_MS;
        bodies, foods := DueTick(bodies, foods, h);
        ticks := ticks + 1;
      }
    }

    /**
     * One pass of the catch-up loop: a tick's worth of time leaves the
     * accumulator and the tick runs. The ghost record of the ticks run so far
     * in this frame, all in the buffered heading from head h, is extended by
     * the new state.
     */
    method DueTick(ghost bodies: seq<seq<Cell>>, ghost foods: seq<Cell>, ghost h: Cell)
      returns (ghost bodies': seq<seq<Cell>>, ghost foods': seq<Cell>)
      requires Valid() && gameRunning && tickAccumulator >= TICK_MS
      requires Move(snake[0], nextDirection) == food ==> |snake| + 1 < Cells
      requires Run(bodies, foods, nextDirection)
      requires bodies[|bodies| - 1] == snake && foods[|foods| - 1] == food
      requires snake[0] == Ahead(h, nextDirection, |bodies| - 1)
      modifies this
      ensures Valid()
      ensures nextDirection == old(nextDirection) && direction == old(nextDirection)
      ensures tickAccumulator == old(tickAccumulator) - TICK_MS
      ensures |old(snake)| <= |snake| <= |old(snake)| + 1
      ensures score - old(score) == |snake| - |old(snake)|
      ensures bodies' == bodies + [snake] && foods' == foods + [food]
      ensures gameRunning ==>
        && Run(bodies', foods', nextDirection)
        && snake[0] == Ahead(h, nextDirection, |bodies|)
        && bestScore == old(bestScore)
      ensures !gameRunning ==>
        && gameOver
        && EndsWithCollision(bodies', foods', nextDirection)
        && bestScore == (if score > old(bestScore) then score else old(bestScore))
    {
      ghost var d := nextDirection;
      tickAccumulator := tickAccumulator - TICK_MS;
      Update();
      bodies', foods' := bodies + [snake], foods + [food];
      if gameRunning {
        FrameStep(bodies, foods, d, h, |bodies| - 1, snake, food);
      } else {
        FrameEnd(bodies, foods, d, snake, food);
      }
    }
  }

  /** The smaller of two integers. */
  function Min(a: int, b: int): int {
    if a < b then a else b
  }

  /** A tick from body b with food f in heading d does not end the game. */
  ghost predicate Survives(b: seq<Cell>, f: Cell, d: Direction) {
    |b| >= 1 && !Board.Tick(b, d, f).Collision?
  }

  /**
   * A record of ticks in heading d, each one surviving: entry i + 1 of the
   * bodies and foods is what the tick from entry i leaves.
   */
  ghost predicate Run(bodies: seq<seq<Cell>>, foods: seq<Cell>, d: Direction)
    decreases |bodies|
  {
    && |bodies| == |foods| >= 1
    && (|bodies| >= 2 ==>
          var n := |bodies| - 1;
          && Run(bodies[..n], foods[..n], d)
          && Survives(bodies[n - 1], foods[n - 1], d)
          && TickStep(bodies[n - 1], foods[n - 1], d, bodies[n], foods[n]))
  }

  /**
   * Body b' and food f' are what one tick from b and f in heading d leaves:
   * unchanged on a collision, the moved body with the same food, or the grown
   * body with food re-placed on a free board cell.
   */
  ghost predicate TickStep(b: seq<Cell>, f: Cell, d: Direction, b': seq<Cell>, f': Cell) {
    && |b| >= 1
    && match Board.Tick(b, d, f)
       case Collision => b' == b && f' == f
       case Moved(body) => b' == body && f' == f
       case Grew(body) => b' == body && InBounds(f') && f' !in body
  }

  /** After a surviving tick the head is one step further in the tick's heading. */
  lemma SurvivingHead(b: seq<Cell>, f: Cell, d: Direction, b': seq<Cell>, f': Cell)
    requires TickStep(b, f, d, b', f') && Survives(b, f, d)
    ensures |b'| >= 1 && b'[0] == Move(b[0], d)
  {
  }

  /**
   * A record of ticks in heading d in which every tick but the last
   * survived, and the last one ended the game.
   */
  ghost predicate EndsWithCollision(bodies: seq<seq<Cell>>, foods: seq<Cell>, d: Direction) {
    && |bodies| == |foods| >= 2
    && var n := |bodies| - 1;
       && Run(bodies[..n], foods[..n], d)
       && !Survives(bodies[n - 1], foods[n - 1], d)
       && TickStep(bodies[n - 1], foods[n - 1], d, bodies[n], foods[n])
  }

  /** Closing a surviving run with a tick that ends the game. */
  lemma FrameEnd(bodies: seq<seq<Cell>>, foods: seq<Cell>, d: Direction, b': seq<Cell>, f': Cell)
    requires Run(bodies, foods, d)
    requires TickStep(bodies[|bodies| - 1], foods[|foods| - 1], d, b', f')
    requires !Survives(bodies[|bodies| - 1], foods[|foods| - 1], d)
    ensures EndsWithCollision(bodies + [b'], foods + [f'], d)
  {
    assert (bodies + [b'])[..|bodies|] == bodies;
    assert (foods + [f'])[..|foods|] == foods;
  }

  /** Extending a surviving run by one more surviving tick; the head moves one more step. */
  lemma FrameStep(bodies: seq<seq<Cell>>, foods: seq<Cell>, d: Direction, h: Cell, k: nat, b': seq<Cell>, f': Cell)
    requires Run(bodies, foods, d) && |bodies| == k + 1
    requires |bodies[k]| >= 1 && bodies[k][0] == Ahead(h, d, k)
    requires TickStep(bodies[k], foods[k], d, b', f') && Survives(bodies[k], foods[k], d)
    ensures Run(bodies + [b'], foods + [f'], d)
    ensures |b'| >= 1 && b'[0] == Ahead(h, d, k + 1)
  {
    SurvivingHead(bodies[k], foods[k], d, b', f');
    AheadStep(h, d, k);
    assert (bodies + [b'])[..k + 1] == bodies;
    assert (foods + [f'])[..k + 1] == foods;
  }
}
