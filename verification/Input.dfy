// Turning key presses and swipe gestures into heading requests, and the
// rule that decides whether a request replaces the pending heading.

module Input {
  import opened Grid

  datatype Option<T> = None | Some(value: T)

  /** A swipe whose dominant component is shorter than this many pixels is ignored. */
  const MinSwipeDistance := 30
  /** A touch that ends less than this many milliseconds after the last accepted one is ignored. */
  const SwipeCooldown := 100

  /**
   * The pending heading after a request for `requested`, given the heading `current`
   * of the last tick: a request for the exact reverse of `current` is ignored,
   * any other request replaces the pending heading.
   */
  function Steer(current: Direction, pending: Direction, requested: Direction): (r: Direction)
    ensures requested != Opposite(current) ==> r == requested
    ensures requested == Opposite(current) ==> r == pending
    ensures pending != Opposite(current) ==> r != Opposite(current)
  {
    if requested == Opposite(current) then pending else requested
  }

  /** Steering with a request that may be absent: no request leaves the pending heading alone. */
  function SteerWith(current: Direction, pending: Direction, request: Option<Direction>): (r: Direction)
    ensures request.None? ==> r == pending
    ensures request.Some? ==> r == Steer(current, pending, request.value)
  {
    match request
    case None => pending
    case Some(d) => Steer(current, pending, d)
  }

  /**
   * However many requests arrive between two ticks, the last one that is not a
   * reversal of `current` is the one that takes effect, requests that are all
   * reversals change nothing, and the pending heading never becomes the reverse
   * of `current`.
   */
  function SteerAll(current: Direction, pending: Direction, requests: seq<Direction>): (r: Direction)
    requires pending != Opposite(current)
    ensures r != Opposite(current)
    ensures requests != [] && requests[|requests| - 1] != Opposite(current) ==> r == requests[|requests| - 1]
    ensures (forall i :: 0 <= i < |requests| ==> requests[i] == Opposite(current)) ==> r == pending
    decreases |requests|
  {
    if requests == [] then pending
    else SteerAll(current, Steer(current, pending, requests[0]), requests[1..])
  }

  /**
   * The last request that is not a reversal of `current` wins, whatever
   * reversals arrive after it.
   */
  lemma {:induction false} SteerAllLastNonReversing(current: Direction, pending: Direction, requests: seq<Direction>, i: nat)
    requires pending != Opposite(current)
    requires i < |requests| && requests[i] != Opposite(current)
    requires forall j :: i < j < |requests| ==> requests[j] == Opposite(current)
    ensures SteerAll(current, pending, requests) == requests[i]
    decreases i
  {
    var next := Steer(current, pending, requests[0]);
    if i == 0 {
      assert forall j :: 0 <= j < |requests[1..]| ==> requests[1..][j] == Opposite(current);
      assert SteerAll(current, next, requests[1..]) == next;
    } else {
      SteerAllLastNonReversing(current, next, requests[1..], i - 1);
    }
  }

  /**
   * The heading a key names: the arrow keys and W, A, S, D in either case;
   * any other key names none.
   */
  function KeyDirection(key: string): (r: Option<Direction>)
    ensures r == Some(Up) <==> key in {"ArrowUp", "w", "W"}
    ensures r == Some(Down) <==> key in {"ArrowDown", "s", "S"}
    ensures r == Some(Left) <==> key in {"ArrowLeft", "a", "A"}
    ensures r == Some(Right) <==> key in {"ArrowRight", "d", "D"}
  {
    match key
    case "ArrowUp" => Some(Up)
    case "w" => Some(Up)
    case "W" => Some(Up)
    case "ArrowDown" => Some(Down)
    case "s" => Some(Down)
    case "S" => Some(Down)
    case "ArrowLeft" => Some(Left)
    case "a" => Some(Left)
    case "A" => Some(Left)
    case "ArrowRight" => Some(Right)
    case "d" => Some(Right)
    case "D" => Some(Right)
    case _ => None
  }

  /**
   * The heading of a swipe, given `xDiff` and `yDiff`, the start of the touch minus
   * its end: the axis with the larger magnitude wins (a tie goes to the vertical
   * axis), a dominant magnitude under 30 pixels is ignored, and a positive
   * difference means the finger moved left or up.
   */
  function SwipeDirection(xDiff: int, yDiff: int): (r: Option<Direction>)
    ensures r.Some? <==> (if Abs(xDiff) > Abs(yDiff) then Abs(xDiff) else Abs(yDiff)) >= MinSwipeDistance
    ensures r == Some(Left) <==> Abs(xDiff) > Abs(yDiff) && xDiff >= MinSwipeDistance
    ensures r == Some(Right) <==> Abs(xDiff) > Abs(yDiff) && xDiff <= -MinSwipeDistance
    ensures r == Some(Up) <==> Abs(xDiff) <= Abs(yDiff) && yDiff >= MinSwipeDistance
    ensures r == Some(Down) <==> Abs(xDiff) <= Abs(yDiff) && yDiff <= -MinSwipeDistance
  {
    if Abs(xDiff) > Abs(yDiff) then
      if Abs(xDiff) < MinSwipeDistance then None
      else if xDiff > 0 then Some(Left) else Some(Right)
    else
      if Abs(yDiff) < MinSwipeDistance then None
      else if yDiff > 0 then Some(Up) else Some(Down)
  }

  /** How far a motion of `(dx, dy)` pixels goes in heading `d` (screen y grows downwards). */
  function Along(d: Direction, dx: int, dy: int): int
  {
    match d
    case Up => -dy
    case Down => dy
    case Left => -dx
    case Right => dx
  }

  /** How far a motion of `(dx, dy)` pixels goes across heading `d`, in either sense. */
  function Across(d: Direction, dx: int, dy: int): nat
  {
    if d == Up || d == Down then Abs(dx) else Abs(dy)
  }

  /**
   * A recognised swipe names the heading the finger travelled in: the motion from
   * (startX, startY) to (endX, endY) goes at least 30 pixels that way, and no less
   * far than it goes across it.
   */
  lemma SwipeFollowsFinger(startX: int, startY: int, endX: int, endY: int)
    ensures var r := SwipeDirection(startX - endX, startY - endY);
      r.Some? ==>
        var dx, dy := endX - startX, endY - startY;
        Along(r.value, dx, dy) >= MinSwipeDistance && Along(r.value, dx, dy) >= Across(r.value, dx, dy)
  {
  }

  /** Reversing a swipe reverses its heading. */
  lemma SwipeReversal(xDiff: int, yDiff: int)
    ensures var r := SwipeDirection(xDiff, yDiff);
      SwipeDirection(-xDiff, -yDiff) == if r.Some? then Some(Opposite(r.value)) else None
  {
  }

  /** A touch ending at `now` is handled only when at least 100 ms have passed since the last handled one. */
  predicate SwipeAllowed(now: int, lastSwipeTime: int)
  {
    now - lastSwipeTime >= SwipeCooldown
  }
}
