// The tick of the game as a value-level rule: where the head goes, when the
// game ends, how the body follows, and how the tick interval shrinks.

module Rules {
  import opened Grid

  /** Points awarded per food item. */
  const FoodScore := 10
  /** The tick interval, in milliseconds, of the first game. */
  const InitialSpeed := 170
  /** The tick interval below which no further speed-up happens. */
  const MinSpeed := 60
  /** The amount the tick interval shrinks per meal. */
  const SpeedStep := 2

  /** The body of a fresh game: three segments in a row, head first, heading right. */
  const InitialBody := [Cell(5, 5), Cell(4, 5), Cell(3, 5)]

  /** What one tick does to the body. */
  datatype Outcome =
    | Crashed                            // wall or self collision: the game ends
    | Moved(body: seq<Cell>, ate: bool)  // the new body, and whether the head reached the food

  /** The cell the head moves into on a tick heading `d`. */
  function NextHead(body: seq<Cell>, d: Direction): Cell
    requires body != []
  {
    Step(body[0], d)
  }

  /**
   * One tick of a `w` by `h` game heading `d` with food at `food`: a head outside
   * the field or on any current segment (the tail included) ends the game;
   * otherwise the head is prepended and the tail is dropped unless the food is eaten.
   */
  function Advance(body: seq<Cell>, d: Direction, food: Cell, w: int, h: int): (o: Outcome)
    requires body != []
    ensures o.Crashed? <==> !InBounds(NextHead(body, d), w, h) || NextHead(body, d) in body
    ensures o.Moved? ==> o.ate == (NextHead(body, d) == food)
  {
    var head := NextHead(body, d);
    if !InBounds(head, w, h) || head in body then Crashed
    else if head == food then Moved([head] + body, true)
    else Moved([head] + body[..|body| - 1], false)
  }

  /**
   * On a tick that does not crash the head takes the next cell, every other segment
   * takes the cell of the segment ahead of it, and the body grows by one exactly
   * when the food is eaten.
   */
  lemma AdvanceFollowsHead(body: seq<Cell>, d: Direction, food: Cell, w: int, h: int)
    requires body != []
    ensures var o := Advance(body, d, food, w, h);
      o.Moved? ==>
        && |o.body| == |body| + (if o.ate then 1 else 0)
        && o.body[0] == NextHead(body, d)
        && (forall i :: 1 <= i < |o.body| ==> o.body[i] == body[i - 1])
  {
  }

  /** The snake never crashes into the segment behind its head while the heading is not reversed. */
  lemma NeckIsSafe(body: seq<Cell>, last: Direction, d: Direction)
    requires |body| >= 2 && body[0] == Step(body[1], last)
    requires d != Opposite(last)
    ensures NextHead(body, d) != body[1]
  {
    StepBack(body[1], last, d);
  }

  /** The body a game is in the middle of: distinct in-bounds segments, each adjacent to the next. */
  predicate WellFormed(body: seq<Cell>, w: int, h: int)
  {
    NoDuplicates(body) && AllInBounds(body, w, h) && Connected(body)
  }

  /** A tick that does not crash keeps the body well formed. */
  lemma {:induction false} AdvancePreservesWellFormed(body: seq<Cell>, d: Direction, food: Cell, w: int, h: int)
    requires body != [] && WellFormed(body, w, h)
    ensures var o := Advance(body, d, food, w, h);
      o.Moved? ==> WellFormed(o.body, w, h)
  {
    var o := Advance(body, d, food, w, h);
    if o.Moved? {
      var head := NextHead(body, d);
      var rest := if o.ate then body else body[..|body| - 1];
      assert o.body == [head] + rest;
      assert forall c :: c in rest ==> c in body;
      forall i, j | 0 <= i < j < |o.body| ensures o.body[i] != o.body[j] {
        if i == 0 {
          assert o.body[j] == rest[j - 1];
          assert rest[j - 1] in body;
        } else {
          assert o.body[i] == body[i - 1] && o.body[j] == body[j - 1];
        }
      }
      forall i | 0 <= i < |o.body| ensures InBounds(o.body[i], w, h) {
        if i > 0 {
          assert o.body[i] == body[i - 1];
        }
      }
      forall i | 0 <= i < |o.body| - 1 ensures Distance(o.body[i], o.body[i + 1]) == 1 {
        if i > 0 {
          assert o.body[i] == body[i - 1] && o.body[i + 1] == body[i];
        }
      }
    }
  }

  /** Food that is off the body stays off it after a tick that does not eat it. */
  lemma FoodStaysOffBody(body: seq<Cell>, d: Direction, food: Cell, w: int, h: int)
    requires body != [] && food !in body
    ensures var o := Advance(body, d, food, w, h);
      o.Moved? && !o.ate ==> food !in o.body
  {
    var o := Advance(body, d, food, w, h);
    if o.Moved? && !o.ate {
      assert o.body == [NextHead(body, d)] + body[..|body| - 1];
      assert forall c :: c in body[..|body| - 1] ==> c in body;
    }
  }

  /**
   * A game in progress: a well-formed body of at least the initial three
   * segments, food in bounds and off the body, and ten points per segment grown.
   */
  predicate InPlay(body: seq<Cell>, food: Cell, score: int, w: int, h: int)
  {
    && |body| >= |InitialBody|
    && WellFormed(body, w, h)
    && InBounds(food, w, h) && food !in body
    && score == FoodScore * (|body| - |InitialBody|)
  }

  /**
   * A tick that does not crash keeps a game in play: the head ends one step ahead
   * of its neck in the heading just taken, and, with the food left in place on a
   * plain move or respawned on a free cell after a meal, the score still counts
   * ten points per segment grown.
   */
  lemma TickKeepsPlay(body: seq<Cell>, d: Direction, food: Cell, score: int, w: int, h: int, newFood: Cell)
    requires InPlay(body, food, score, w, h)
    requires var o := Advance(body, d, food, w, h);
      o.Moved? && (if o.ate then InBounds(newFood, w, h) && newFood !in o.body else newFood == food)
    ensures var o := Advance(body, d, food, w, h);
      && InPlay(o.body, newFood, score + (if o.ate then FoodScore else 0), w, h)
      && o.body[0] == Step(o.body[1], d)
  {
    AdvancePreservesWellFormed(body, d, food, w, h);
    AdvanceFollowsHead(body, d, food, w, h);
    FoodStaysOffBody(body, d, food, w, h);
  }

  /** The tick intervals a game can have: from 170 ms down to 60 ms in steps of 2 ms. */
  predicate SpeedOk(speed: int)
  {
    MinSpeed <= speed <= InitialSpeed && (speed - MinSpeed) % SpeedStep == 0
  }

  /** The tick interval after a meal: 2 ms shorter while it is above the 60 ms floor. */
  function SpeedUp(speed: int): (r: int)
    ensures r <= speed
    ensures SpeedOk(speed) ==> SpeedOk(r)
    ensures r < speed <==> speed > MinSpeed
    ensures speed > MinSpeed ==> r == speed - SpeedStep
  {
    if speed > MinSpeed then speed - SpeedStep else speed
  }

  /** The tick interval after `meals` meals starting from `speed`. */
  function SpeedAfter(speed: int, meals: nat): int
  {
    if meals == 0 then speed else SpeedAfter(SpeedUp(speed), meals - 1)
  }

  /**
   * Starting from the first game's 170 ms the interval goes down by 2 ms per meal
   * and settles at exactly 60 ms: it never increases and never drops below the floor.
   */
  lemma {:induction false} SpeedAfterFromInitial(meals: nat)
    ensures SpeedAfter(InitialSpeed, meals) ==
      if InitialSpeed - SpeedStep * meals >= MinSpeed then InitialSpeed - SpeedStep * meals else MinSpeed
  {
    SpeedAfterFloor(InitialSpeed, meals);
  }

  lemma {:induction false} SpeedAfterFloor(speed: int, meals: nat)
    requires speed >= MinSpeed && (speed - MinSpeed) % SpeedStep == 0
    ensures SpeedAfter(speed, meals) ==
      if speed - SpeedStep * meals >= MinSpeed then speed - SpeedStep * meals else MinSpeed
  {
    if meals > 0 {
      SpeedAfterFloor(SpeedUp(speed), meals - 1);
    }
  }

  // Concrete ticks on a 20 by 20 field: a plain move, a meal, a wall crash, two bites.

  /** A fresh game with no food ahead moves the whole body one cell right. */
  lemma ScenarioPlainMove(food: Cell)
    requires food != Cell(6, 5)
    ensures Advance(InitialBody, Right, food, 20, 20) == Moved([Cell(6, 5), Cell(5, 5), Cell(4, 5)], false)
  {
  }

  /** A fresh game with food right ahead grows to four segments. */
  lemma ScenarioEat()
    ensures Advance(InitialBody, Right, Cell(6, 5), 20, 20)
      == Moved([Cell(6, 5), Cell(5, 5), Cell(4, 5), Cell(3, 5)], true)
  {
  }

  /** A head on the left wall heading left crashes. */
  lemma ScenarioWall(body: seq<Cell>, food: Cell)
    requires body != [] && body[0] == Cell(0, 5)
    ensures Advance(body, Left, food, 20, 20) == Crashed
  {
  }

  /** A head turning into its own body crashes, including into the cell the tail is about to leave. */
  lemma ScenarioBite(food: Cell)
    ensures Advance([Cell(5, 5), Cell(5, 6), Cell(4, 6), Cell(4, 5)], Left, food, 20, 20) == Crashed
    ensures Advance([Cell(5, 5), Cell(6, 5), Cell(6, 6), Cell(5, 6), Cell(4, 6)], Down, food, 20, 20) == Crashed
  {
  }
}
