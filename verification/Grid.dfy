// The playing field of the snake game: integer cells, the four headings,
// and the facts about a body of distinct cells that the engine relies on.

module Grid {

  /** The four headings; `up` decreases y because the screen's y axis points down. */
  datatype Direction = Up | Down | Left | Right

  /** A grid cell, as the `{ x, y }` objects of the game. */
  datatype Cell = Cell(x: int, y: int)

  /** The exact reverse of a heading. */
  function Opposite(d: Direction): (r: Direction)
    ensures r != d
  {
    match d
    case Up => Down
    case Down => Up
    case Left => Right
    case Right => Left
  }

  function Abs(n: int): (r: nat)
    ensures r == n || r == -n
  {
    if n < 0 then -n else n
  }

  /** Manhattan distance between two cells. */
  function Distance(a: Cell, b: Cell): nat
  {
    Abs(a.x - b.x) + Abs(a.y - b.y)
  }

  /** The cell one step from `c` in heading `d`. */
  function Step(c: Cell, d: Direction): (r: Cell)
    ensures Distance(c, r) == 1
    ensures (d == Up || d == Down) <==> r.x == c.x
    ensures (d == Up ==> r.y < c.y) && (d == Down ==> r.y > c.y)
    ensures (d == Left ==> r.x < c.x) && (d == Right ==> r.x > c.x)
  {
    match d
    case Up => Cell(c.x, c.y - 1)
    case Down => Cell(c.x, c.y + 1)
    case Left => Cell(c.x - 1, c.y)
    case Right => Cell(c.x + 1, c.y)
  }

  /** Stepping from `c` in `d` and then in `e` returns to `c` exactly when `e` reverses `d`. */
  lemma StepBack(c: Cell, d: Direction, e: Direction)
    ensures Step(Step(c, d), e) == c <==> e == Opposite(d)
  {
  }

  predicate InBounds(c: Cell, w: int, h: int)
  {
    0 <= c.x < w && 0 <= c.y < h
  }

  predicate AllInBounds(s: seq<Cell>, w: int, h: int)
  {
    forall i :: 0 <= i < |s| ==> InBounds(s[i], w, h)
  }

  predicate NoDuplicates(s: seq<Cell>)
  {
    forall i, j :: 0 <= i < j < |s| ==> s[i] != s[j]
  }

  /** Each segment is a grid neighbour of the next one. */
  predicate Connected(s: seq<Cell>)
  {
    forall i :: 0 <= i < |s| - 1 ==> Distance(s[i], s[i + 1]) == 1
  }

  /** Some in-bounds cell is not covered by `s`. */
  ghost predicate HasFreeCell(s: seq<Cell>, w: int, h: int)
  {
    exists c :: InBounds(c, w, h) && c !in s
  }

  /** The cells a sequence covers. */
  function Cells(s: seq<Cell>): set<Cell>
  {
    set i | 0 <= i < |s| :: s[i]
  }

  /** Row `y` of a field `w` cells wide. */
  function Row(w: nat, y: int): set<Cell>
  {
    set x | 0 <= x < w :: Cell(x, y)
  }

  /** Every cell of a `w` by `h` field. */
  function Field(w: nat, h: nat): set<Cell>
  {
    set x, y | 0 <= x < w && 0 <= y < h :: Cell(x, y)
  }

  lemma {:induction false} RowSize(w: nat, y: int)
    ensures |Row(w, y)| == w
  {
    if w > 0 {
      assert Row(w, y) == Row(w - 1, y) + {Cell(w - 1, y)};
      RowSize(w - 1, y);
    } else {
      assert Row(w, y) == {};
    }
  }

  lemma {:induction false} FieldSize(w: nat, h: nat)
    ensures |Field(w, h)| == w * h
  {
    if h > 0 {
      var above, last := Field(w, h - 1), Row(w, h - 1);
      assert Field(w, h) == above + last;
      assert above * last == {} by {
        forall c | c in above ensures c !in last {
          assert c.y < h - 1;
        }
      }
      FieldSize(w, h - 1);
      RowSize(w, h - 1);
      assert w * h == w * (h - 1) + w;
    } else {
      assert Field(w, h) == {};
    }
  }

  /** A body of distinct cells covers as many cells as it has segments. */
  lemma {:induction false} DistinctCellsSize(s: seq<Cell>)
    requires NoDuplicates(s)
    ensures |Cells(s)| == |s|
  {
    if s != [] {
      assert Cells(s) == {s[0]} + Cells(s[1..]);
      assert s[0] !in Cells(s[1..]);
      DistinctCellsSize(s[1..]);
    } else {
      assert Cells(s) == {};
    }
  }

  /** Pigeonhole: a body of distinct in-bounds cells shorter than the field leaves a cell free. */
  lemma FreeCellExists(s: seq<Cell>, w: nat, h: nat)
    requires NoDuplicates(s) && AllInBounds(s, w, h)
    requires |s| < w * h
    ensures HasFreeCell(s, w, h)
  {
    var covered, field := Cells(s), Field(w, h);
    DistinctCellsSize(s);
    FieldSize(w, h);
    assert covered <= field by {
      forall c | c in covered ensures c in field {
        var i :| 0 <= i < |s| && s[i] == c;
        assert InBounds(s[i], w, h);
      }
    }
    assert field * covered == covered;
    assert |field - covered| > 0;
    var c :| c in field - covered;
    assert InBounds(c, w, h);
    assert c !in s by {
      forall i | 0 <= i < |s| ensures s[i] != c {
        assert s[i] in covered;
      }
    }
  }
}
