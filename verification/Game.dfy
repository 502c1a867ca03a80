// The game's module-level state as one object: the snake, the food, the two
// headings, the score, the tick interval, the running flag and the touch
// bookkeeping, with the tick, the start action and the input handlers.

module Game {
  import opened Grid
  import opened Rules
  import opened Input

  /**
   * The self-collision scan of a tick: whether `head` lies on any segment of
   * `body`, looking at the segments from the head to the tail.
   */
  method HitsBody(body: seq<Cell>, head: Cell) returns (hit: bool)
    ensures hit <==> head in body
  {
    for i := 0 to |body|
      invariant head !in body[..i]
    {
      if body[i] == head {
        return true;
      }
    }
    return false;
  }

  class Game {
    /** The field is `W` cells wide and `H` cells high. */
    const W: int
    const H: int

    var snake: seq<Cell>     // head first; empty until the first start
    var food: Cell           // meaningful once a game has started
    var direction: Direction       // the heading of the last tick
    var nextDirection: Direction   // the heading the next tick takes
    var gameRunning: bool
    var gameSpeed: int       // the tick interval in milliseconds
    var score: int

    var touchStartX: int
    var touchStartY: int
    var touchEndX: int
    var touchEndY: int
    var lastSwipeTime: int   // when the last handled touch ended, in milliseconds

    /**
     * The invariant of the game: the pending heading is never the reverse of the
     * current one; the tick interval lies between the 60 ms floor and the initial
     * 170 ms on the 2 ms grid; once started the snake has distinct, connected,
     * in-bounds segments, the food is in bounds and off the snake, and the score
     * is ten points per segment grown; while running the head is one step ahead
     * of the neck in the current heading.
     */
    ghost predicate Valid()
      reads this
    {
      && 6 <= W && 6 <= H
      && nextDirection != Opposite(direction)
      && SpeedOk(gameSpeed)
      && (snake == [] ==> !gameRunning && score == 0)
      && (snake != [] ==> InPlay(snake, food, score, W, H))
      && (gameRunning ==> |snake| >= 2 && snake[0] == Step(snake[1], direction))
    }

    /** The state right after a start action. */
    ghost predicate JustStarted()
      reads this
    {
      && snake == InitialBody
      && direction == Right && nextDirection == Right
      && score == 0 && gameRunning
      && InBounds(food, W, H) && food !in snake
    }

    /** Nothing of the play state changed. */
    twostate predicate PlayUnchanged()
      reads this
    {
      && snake == old(snake) && food == old(food)
      && direction == old(direction) && gameRunning == old(gameRunning)
      && score == old(score) && gameSpeed == old(gameSpeed)
    }

    /** Nothing of the touch bookkeeping changed. */
    twostate predicate TouchUnchanged()
      reads this
    {
      && touchStartX == old(touchStartX) && touchStartY == old(touchStartY)
      && touchEndX == old(touchEndX) && touchEndY == old(touchEndY)
      && lastSwipeTime == old(lastSwipeTime)
    }

    /** The state when the page loads: no snake yet, heading right, the first game's interval. */
    constructor (w: int, h: int)
      requires 6 <= w && 6 <= h
      ensures Valid()
      ensures W == w && H == h
      ensures snake == [] && !gameRunning && score == 0
      ensures direction == Right && nextDirection == Right
      ensures gameSpeed == InitialSpeed
      ensures touchStartX == touchStartY == touchEndX == touchEndY == lastSwipeTime == 0
    {
      W, H := w, h;
      snake := [];
      food := Cell(0, 0);
      direction, nextDirection := Right, Right;
      gameRunning := false;
      gameSpeed := InitialSpeed;
      score := 0;
      touchStartX, touchStartY, touchEndX, touchEndY := 0, 0, 0, 0;
      lastSwipeTime := 0;
    }

    /** Puts the food on some in-bounds cell the snake does not cover. */
    method SpawnFood()
      requires HasFreeCell(snake, W, H)
      modifies this`food
      ensures InBounds(food, W, H) && food !in snake
      ensures old(Valid()) ==> Valid()
    {
      var c :| InBounds(c, W, H) && c !in snake;
      food := c;
    }

    /**
     * The start action: a fresh three-segment snake heading right, no score,
     * new food, running; the tick interval carries over from the previous game.
     */
    method InitGame()
      requires Valid()
      modifies this
      ensures Valid() && JustStarted()
      ensures gameSpeed == old(gameSpeed)
      ensures TouchUnchanged()
    {
      snake := InitialBody;
      direction := Right;
      nextDirection := Right;
      score := 0;
      assert InBounds(Cell(0, 0), W, H) && Cell(0, 0) !in snake;
      SpawnFood();
      gameRunning := true;
    }

    /** Ends the game; the snake, the food and the score stay as they are. */
    method GameOver()
      modifies this`gameRunning
      ensures !gameRunning
      ensures old(Valid()) ==> Valid()
    {
      gameRunning := false;
    }

    /**
     * One tick: commit the pending heading, then crash, move or grow as
     * `Advance` says; a meal adds ten points, respawns the food off the snake and
     * shortens the tick interval as `SpeedUp` says.
     */
    method GameUpdate()
      requires Valid() && gameRunning
      requires NextHead(snake, nextDirection) == food ==> |snake| + 1 < W * H
      modifies this
      ensures Valid()
      ensures direction == old(nextDirection) && nextDirection == old(nextDirection)
      ensures TouchUnchanged()
      ensures match Advance(old(snake), old(nextDirection), old(food), W, H)
        case Crashed =>
          && !gameRunning && snake == old(snake) && food == old(food)
          && score == old(score) && gameSpeed == old(gameSpeed)
        case Moved(body, ate) =>
          && gameRunning && snake == body
          && (ate ==> score == old(score) + FoodScore && gameSpeed == SpeedUp(old(gameSpeed)))
          && (!ate ==> score == old(score) && gameSpeed == old(gameSpeed) && food == old(food))
    {
      direction := nextDirection;
      var head := snake[0];
      match direction {
        case Up => head := head.(y := head.y - 1);
        case Down => head := head.(y := head.y + 1);
        case Left => head := head.(x := head.x - 1);
        case Right => head := head.(x := head.x + 1);
      }
      assert head == NextHead(snake, direction);

      if head.x < 0 || head.x >= W || head.y < 0 || head.y >= H {
        GameOver();
        return;
      }
      var hit := HitsBody(snake, head);
      if hit {
        GameOver();
        return;
      }
      Move(head);
    }

    /**
     * The second half of a tick whose new head `head` is in bounds and off the
     * snake: prepend the head, then either eat (ten points, new food, a shorter
     * interval) or drop the tail.
     */
    method Move(head: Cell)
      requires 6 <= W && 6 <= H && gameRunning && nextDirection == direction
      requires SpeedOk(gameSpeed) && InPlay(snake, food, score, W, H)
      requires head == NextHead(snake, direction) && InBounds(head, W, H) && head !in snake
      requires head == food ==> |snake| + 1 < W * H
      modifies this`snake, this`food, this`score, this`gameSpeed
      ensures Valid()
      ensures var o := Advance(old(snake), direction, old(food), W, H);
        && o.Moved? && snake == o.body
        && (o.ate ==> score == old(score) + FoodScore && gameSpeed == SpeedUp(old(gameSpeed)))
        && (!o.ate ==> score == old(score) && gameSpeed == old(gameSpeed) && food == old(food))
    {
      ghost var before, oldFood, oldScore := snake, food, score;
      ghost var o := Advance(before, direction, oldFood, W, H);
      snake := [head] + snake;
      if head == food {
        score := score + FoodScore;
        AdvancePreservesWellFormed(before, direction, oldFood, W, H);
        assert snake == o.body;
        FreeCellExists(snake, W, H);
        SpawnFood();
        if gameSpeed > MinSpeed {
          gameSpeed := gameSpeed - SpeedStep;
        }
      } else {
        snake := snake[..|snake| - 1];
        assert snake == o.body;
      }
      TickKeepsPlay(before, direction, oldFood, oldScore, W, H, food);
    }

    /**
     * A key press: the space bar starts a game that is not running; otherwise a
     * key naming a heading steers, and any other key is ignored.
     */
    method KeyDown(key: string)
      requires Valid()
      modifies this
      ensures Valid()
      ensures TouchUnchanged()
      ensures !old(gameRunning) && key == " " ==> JustStarted() && gameSpeed == old(gameSpeed)
      ensures !(!old(gameRunning) && key == " ") ==>
        && PlayUnchanged()
        && nextDirection == SteerWith(direction, old(nextDirection), KeyDirection(key))
    {
      if !gameRunning && key == " " {
        InitGame();
        return;
      }
      nextDirection := SteerWith(direction, nextDirection, KeyDirection(key));
    }

    /** A tap on the playing field starts a game that is not running. */
    method Tap()
      requires Valid()
      modifies this
      ensures Valid()
      ensures TouchUnchanged()
      ensures !old(gameRunning) ==> JustStarted() && gameSpeed == old(gameSpeed)
      ensures old(gameRunning) ==> PlayUnchanged() && nextDirection == old(nextDirection)
    {
      if !gameRunning {
        InitGame();
      }
    }

    /** A touch begins: remember where. */
    method TouchStart(x: int, y: int)
      requires Valid()
      modifies this`touchStartX, this`touchStartY
      ensures Valid()
      ensures touchStartX == x && touchStartY == y
    {
      touchStartX := x;
      touchStartY := y;
    }

    /** Steers by the swipe from the recorded touch start to the recorded touch end. */
    method HandleSwipe()
      requires Valid()
      modifies this`nextDirection
      ensures Valid()
      ensures nextDirection ==
        SteerWith(direction, old(nextDirection), SwipeDirection(touchStartX - touchEndX, touchStartY - touchEndY))
    {
      var xDiff := touchStartX - touchEndX;
      var yDiff := touchStartY - touchEndY;
      nextDirection := SteerWith(direction, nextDirection, SwipeDirection(xDiff, yDiff));
    }

    /**
     * A touch ends at `(x, y)` at time `now`: within 100 ms of the last handled
     * touch it is ignored; otherwise the swipe is handled and `now` is recorded,
     * even when the swipe itself is too short to steer.
     */
    method TouchEnd(now: int, x: int, y: int)
      requires Valid()
      modifies this`touchEndX, this`touchEndY, this`lastSwipeTime, this`nextDirection
      ensures Valid()
      ensures !SwipeAllowed(now, old(lastSwipeTime)) ==> TouchUnchanged() && nextDirection == old(nextDirection)
      ensures SwipeAllowed(now, old(lastSwipeTime)) ==>
        && touchEndX == x && touchEndY == y && lastSwipeTime == now
        && nextDirection == SteerWith(direction, old(nextDirection), SwipeDirection(touchStartX - x, touchStartY - y))
    {
      if now - lastSwipeTime < SwipeCooldown {
        return;
      }
      touchEndX := x;
      touchEndY := y;
      HandleSwipe();
      lastSwipeTime := now;
    }
  }

  /**
   * While a game runs, the next tick never turns the head back onto the segment
   * behind it: the pending heading is never the reverse of the heading that
   * brought the head where it is.
   */
  lemma RunningTickNeverHitsNeck(g: Game)
    requires g.Valid() && g.gameRunning
    ensures |g.snake| >= 2 && NextHead(g.snake, g.nextDirection) != g.snake[1]
  {
    NeckIsSafe(g.snake, g.direction, g.nextDirection);
  }

  /** The score is never negative, always a multiple of ten, and counts the segments grown. */
  lemma ScoreCountsMeals(g: Game)
    requires g.Valid()
    ensures g.score >= 0 && g.score % FoodScore == 0
    ensures g.snake != [] ==> |g.snake| == |InitialBody| + g.score / FoodScore
  {
  }

  /** Starting a game, asking for a reversal, which is ignored, and one tick that still heads right. */
  method StartAndReverse()
  {
    var g := new Game(20, 20);
    g.InitGame();
    g.KeyDown("ArrowLeft");
    assert g.nextDirection == Right && g.snake == InitialBody;
    assert |g.snake| + 1 < g.W * g.H;
    ghost var o := Advance(g.snake, Right, g.food, 20, 20);
    assert o.Moved? && o.body[0] == Cell(6, 5);
    g.GameUpdate();
    assert g.snake[0] == Cell(6, 5) && g.gameRunning;
  }

  /** Two swipes 50 ms apart: only the first one steers. */
  method DoubleSwipe()
  {
    var g := new Game(20, 20);
    g.TouchStart(100, 100);
    g.TouchEnd(1000, 100, 50);
    assert g.nextDirection == Up;
    g.TouchStart(100, 100);
    g.TouchEnd(1050, 100, 150);
    assert g.nextDirection == Up;
  }
}
