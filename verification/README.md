# Snake game engine — a verified Dafny model

This project models the simulation engine and the input rules of a browser
snake game (`script.js`). A snake of grid cells moves one cell per tick. It
dies on hitting a wall or any of its own segments. It grows by one segment and
scores ten points per food item, and each meal shortens the tick interval by
2 ms until it reaches 60 ms. Key presses and swipes steer it, but never
straight back the way it came.

Files and modules:

- `Grid.dfy` (`Grid`): cells, the four headings, one-cell steps, bounds,
  "distinct / connected / in bounds" predicates, and the pigeonhole lemma that
  a shorter-than-the-field body leaves a free cell for the food.
- `Rules.dfy` (`Rules`): the game's constants (10 points, 170 ms, 60 ms, 2 ms,
  the initial body), the tick as a pure rule `Advance`, the speed-up `SpeedUp`,
  and lemmas about them: the body follows its head, a well-formed body stays
  well formed, food off the body stays off it, the neck is never hit, and the
  interval's closed form from 170 ms. It also holds concrete ticks on a 20 by 20 field as
  lemmas: a plain move, a meal, a wall crash, and bites into the body and into
  the tail cell.
- `Input.dfy` (`Input`): the direction-change rule `Steer`, the key table
  `KeyDirection`, the swipe classifier `SwipeDirection`, and the 100 ms
  cooldown.
- `Game.dfy` (`Game`): the module-level variables of `script.js` (`snake`,
  `food`, `direction`, `nextDirection`, `gameRunning`, `gameSpeed`, `score`,
  the touch coordinates, `lastSwipeTime`) as one class. Its methods are
  `initGame`, `spawnFood`, `gameUpdate` (split into the collision part and
  `Move`), `gameOver`, the keydown, click, touchstart and touchend handlers,
  and `handleSwipe`. The self-collision `for` loop is the method `HitsBody`.
  Every handler, the start action and the tick keep the invariant `Valid()`;
  `GameOver` and `SpawnFood`, which run in the middle of those, keep it when
  it held before them. The methods are proved against `Advance`,
  `SpeedUp`, `Steer`, `KeyDirection` and `SwipeDirection`. Two client methods,
  `StartAndReverse` and `DoubleSwipe`, walk through the "ignored reversal" and
  "double swipe" scenarios.

The field is `W` by `H` cells, fixed when the game object is made. The game
itself always uses 20 by 20. The model asks for at least 6 by 6, because the
fixed starting snake at (5,5),(4,5),(3,5) must be in bounds. Before the first
start the game holds no snake, and its `food` is an empty object. The model
puts a placeholder cell there, and its invariant speaks about the food only
once a snake exists. The start button calls `initGame` directly, so
`InitGame` models it.

## Model

| member | source | states |
|---|---|---|
| `Grid.Step` | script.js:132-145 | a step moves exactly one cell: up lowers y, down raises y, left lowers x, right raises x, and the other coordinate is kept |
| `Grid.StepBack` | script.js:132-145 | two steps return to the start cell exactly when the second heading reverses the first |
| `Grid.Opposite` | script.js:291-306 | the reversed heading differs from the heading (up/down, left/right) |
| `Grid.FreeCellExists` | script.js:104-122 | a body of distinct in-bounds cells shorter than W·H leaves an in-bounds cell free, so the food can be placed |
| `Rules.Advance` | script.js:147-184 | a tick crashes exactly when the next head is out of [0,W)×[0,H) or on any current segment (the tail included), and eats exactly when the next head is the food |
| `Rules.AdvanceFollowsHead` | script.js:161-184 | after a move the head is the next cell, every other segment takes the cell of the one ahead of it, and the length grows by one exactly on a meal |
| `Rules.AdvancePreservesWellFormed` | script.js:147-184 | a tick that does not crash keeps the segments distinct, in bounds and each adjacent to the next |
| `Rules.FoodStaysOffBody` | script.js:164-184 | food that was off the snake is still off it after a move that does not eat it |
| `Rules.TickKeepsPlay` | script.js:161-184 | a move keeps a game in play (well-formed body of at least three, food in bounds and off the body, score ten per segment grown) and leaves the head one step ahead of its neck |
| `Rules.NeckIsSafe` | script.js:127-145 | a heading that is not the reverse of the last one never leads the head onto the segment behind it |
| `Rules.SpeedUp` | script.js:175-180 | a meal never lengthens the interval, shortens it by exactly 2 ms exactly when it is above 60 ms, and keeps it within 60..170 ms on the 2 ms grid |
| `Rules.SpeedAfterFromInitial` | script.js:58 | from 170 ms, n meals give max(170 − 2n, 60) ms: the interval never increases and never goes below 60 ms |
| `Rules.ScenarioPlainMove` | script.js:161-184 | a fresh game with no food ahead becomes [(6,5),(5,5),(4,5)] |
| `Rules.ScenarioEat` | script.js:161-180 | a fresh game with food at (6,5) grows to [(6,5),(5,5),(4,5),(3,5)] |
| `Rules.ScenarioWall` | script.js:147-151 | a head at (0,5) heading left crashes |
| `Rules.ScenarioBite` | script.js:153-159 | a head turning into its own body crashes, also when the cell is the tail's |
| `Input.Steer` | script.js:287-308 | a request for the reverse of the current heading leaves the pending heading alone, any other request replaces it, and the pending heading never becomes the reverse |
| `Input.SteerAll` | script.js:287-308 | of several requests between two ticks the result is never the reverse, a last request that is not a reversal wins, and all-reversing ones change nothing |
| `Input.SteerAllLastNonReversing` | script.js:287-308 | the last request that is not a reversal wins, whatever reversals follow it |
| `Input.KeyDirection` | script.js:287-308 | ArrowUp/w/W name up, ArrowDown/s/S down, ArrowLeft/a/A left, ArrowRight/d/D right, and every other key names none |
| `Input.SwipeDirection` | script.js:356-387 | a swipe is horizontal exactly when \|xDiff\| > \|yDiff\| (a tie goes vertical), is ignored exactly when its dominant magnitude is under 30, and a positive difference means left or up |
| `Input.SwipeFollowsFinger` | script.js:356-387 | a recognised heading points along the finger's motion by at least 30 pixels and by no less than the motion across it |
| `Input.SwipeReversal` | script.js:356-387 | the reverse swipe yields the reverse heading, or none when the swipe yields none |
| `Game.HitsBody` | script.js:153-159 | the scan reports a hit exactly when the head lies on some segment |
| `Game.RunningTickNeverHitsNeck` | script.js:127-145 | in a running game the next head is never the segment behind the head |
| `Game.ScoreCountsMeals` | script.js:165-167 | the score is non-negative, a multiple of 10, and the snake has 3 + score/10 segments |
| `Game.Game.constructor` | script.js:52-59 | the page-load state: no snake, heading right, not running, score 0, interval 170 ms |
| `Game.Game.SpawnFood` | script.js:104-122 | given a free cell exists, the food lands in bounds and off the snake |
| `Game.Game.InitGame` | script.js:80-101 | snake [(5,5),(4,5),(3,5)], both headings right, score 0, running, food off the snake, the interval carried over |
| `Game.Game.GameOver` | script.js:258-260 | the game stops; nothing else changes |
| `Game.Game.GameUpdate` | script.js:125-188 | the pending heading is committed, then the state crashes (stopped, snake, food, score and interval unchanged) or moves exactly as `Advance` says, with +10 and `SpeedUp` on a meal, keeping `Valid()` |
| `Game.Game.Move` | script.js:161-184 | prepending the head and then eating or dropping the tail gives `Advance`'s body, the score, the food and the interval of the tick |
| `Game.Game.KeyDown` | script.js:281-308 | space starts a game that is not running; otherwise only `nextDirection` changes, by `Steer` on the key's heading |
| `Game.Game.Tap` | script.js:349-353 | a tap starts a game that is not running and otherwise changes nothing |
| `Game.Game.TouchStart` | script.js:324-328 | the touch start coordinates are recorded |
| `Game.Game.HandleSwipe` | script.js:356-387 | only `nextDirection` changes, by `Steer` on the swipe's heading |
| `Game.Game.TouchEnd` | script.js:335-346 | a touch within 100 ms of the last handled one changes nothing; otherwise the end point and time are recorded and the swipe steers |

## Left out

- Drawing (`render`, the overlay half of `gameOver`, `resizeCanvas`) works in pixels and floats on the canvas and has no game state to verify.
- The eat and game-over sounds are fire-and-forget calls whose failures the game swallows.
- `setInterval`/`clearInterval` and the rescheduling on a speed change are left out. Only the integer `gameSpeed` is modelled.
- `Math.random` in `spawnFood` becomes a nondeterministic choice of a free cell. The rejection loop never ends on a full field, so `SpawnFood` requires a free cell and `GameUpdate` requires room for the food when the next head lands on it.
- `Date.now` is the `now` parameter of `TouchEnd`. Touch screen coordinates are modelled as integers; the browser reports them as floating-point numbers.
- DOM event wiring, `preventDefault`, mobile detection, the swipe instructions and the score text are UI glue.
- The grid size comes from float division of the canvas width. The model takes `W` and `H` as fixed integers, and what a mid-game resize does to the snake or the food is not modelled.
- `GameUpdate` requires a running game, because the interval timer only calls it then.
