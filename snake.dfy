/**
 * The snake actor: a list of segments in pixel coordinates, tail first and
 * head last, and a heading. Each tick moves the head one cell along the
 * heading, lets every other segment take the old place of the segment ahead
 * of it, then checks the walls, then the body, then the food.
 *
 * The autopilot converts pixels to grid cells (floor division by the cell
 * size), runs the breadth-first search of Pathfinding around the snake's own
 * body, and steers towards the second cell of the route, never turning
 * straight back.
 */
module SnakeActor {
  import opened Wrappers
  import Pathfinding

  // ---------------------------------------------------------------------------
  // Directions and the reversal rule
  // ---------------------------------------------------------------------------

  datatype Direction = Up | Down | Left | Right

  /** The heading pointing the other way. */
  function Opposite(d: Direction): (r: Direction)
    ensures r != d
  {
    match d
    case Up => Down
    case Down => Up
    case Left => Right
    case Right => Left
  }

  /** _is_reverse: turning from current to newDir is a 180-degree turn. */
  predicate IsReverse(current: Direction, newDir: Direction)
    ensures IsReverse(current, newDir) <==> newDir == Opposite(current)
    ensures IsReverse(current, newDir) ==> newDir != current
  {
    (current == Up && newDir == Down) ||
    (current == Down && newDir == Up) ||
    (current == Left && newDir == Right) ||
    (current == Right && newDir == Left)
  }

  /** Opposite is an involution, so the reversal relation is symmetric. */
  lemma ReverseSymmetric(a: Direction, b: Direction)
    ensures Opposite(Opposite(a)) == a
    ensures IsReverse(a, b) <==> IsReverse(b, a)
  {
  }

  // ---------------------------------------------------------------------------
  // Segments, food and one move
  // ---------------------------------------------------------------------------

  /** A body part at pixel (x, y); the screen's y axis points down. */
  datatype Segment = Segment(x: int, y: int)

  /** The food's pixel position. */
  datatype Food = Food(x: int, y: int)

  /** What a tick reports: a plain move, a move that ate the food, game over. */
  datatype Outcome = Advanced | Grew | Collided

  /** The result of one tick: the outcome and the segments afterwards. */
  datatype Step = Step(outcome: Outcome, segments: seq<Segment>)

  /** s moved by one cell of size cell along d. */
  function Moved(s: Segment, d: Direction, cell: int): (r: Segment)
    ensures d == Left || d == Right ==> r.y == s.y && (r.x - s.x == cell || s.x - r.x == cell)
    ensures d == Up || d == Down ==> r.x == s.x && (r.y - s.y == cell || s.y - r.y == cell)
    ensures OneCellApart(s, r, cell)
  {
    match d
    case Right => Segment(s.x + cell, s.y)
    case Left => Segment(s.x - cell, s.y)
    case Up => Segment(s.x, s.y - cell)
    case Down => Segment(s.x, s.y + cell)
  }

  /** b is one cell of size cell from a along one axis. */
  predicate OneCellApart(a: Segment, b: Segment, cell: int) {
    (a.y == b.y && (b.x == a.x + cell || b.x == a.x - cell)) ||
    (a.x == b.x && (b.y == a.y + cell || b.y == a.y - cell))
  }

  /** Moving back along the opposite heading undoes a move. */
  lemma MovedUndone(s: Segment, d: Direction, cell: int)
    ensures Moved(Moved(s, d, cell), Opposite(d), cell) == s
  {
  }

  /** On the window [0, width) x [0, height). */
  predicate InArena(s: Segment, width: int, height: int) {
    0 <= s.x < width && 0 <= s.y < height
  }

  predicate OnFood(s: Segment, food: Food) {
    s.x == food.x && s.y == food.y
  }

  /**
   * One call of update as a value: the new head, the body following the
   * snapshot, then the wall test, the body test and the food test. On game
   * over the segments are the ones already moved.
   */
  function Tick(segments: seq<Segment>, direction: Direction, cell: int, food: Food, width: int, height: int): (r: Step)
    requires |segments| >= 1
    // The length grows by one exactly when the food is eaten.
    ensures |r.segments| == |segments| + (if r.outcome == Grew then 1 else 0)
    // The head stays last and has moved one cell along the heading.
    ensures r.segments[|r.segments| - 1] == Moved(segments[|segments| - 1], direction, cell)
  {
    var n := |segments|;
    var head := Moved(segments[n - 1], direction, cell);
    var moved := segments[1..] + [head];
    if !InArena(head, width, height) || head in moved[..n - 1] then
      Step(Collided, moved)
    else if OnFood(head, food) then
      Step(Grew, [segments[0]] + moved)
    else
      Step(Advanced, moved)
  }

  /**
   * Segment i (counting from the old tail) now sits where segment i + 1 was
   * before the tick, and on growth a new tail appears where the old tail was.
   */
  lemma TickFollowsSnapshot(segments: seq<Segment>, direction: Direction, cell: int, food: Food, width: int, height: int)
    requires |segments| >= 1
    ensures var r := Tick(segments, direction, cell, food, width, height);
      forall i :: 1 <= i < |segments| ==> r.segments[|r.segments| - |segments| + i - 1] == segments[i]
    ensures var r := Tick(segments, direction, cell, food, width, height);
      r.outcome == Grew ==> r.segments[0] == segments[0]
  {
  }

  /**
   * Game over exactly when the moved head is off the window or on the moved
   * position of a non-head segment; growth exactly when the game goes on and
   * the moved head is on the food.
   */
  lemma TickOutcome(segments: seq<Segment>, direction: Direction, cell: int, food: Food, width: int, height: int)
    requires |segments| >= 1
    ensures var r := Tick(segments, direction, cell, food, width, height);
      var h := Moved(segments[|segments| - 1], direction, cell);
      r.outcome == Collided <==> !InArena(h, width, height) || exists i :: 0 < i < |segments| && segments[i] == h
    ensures var r := Tick(segments, direction, cell, food, width, height);
      var h := Moved(segments[|segments| - 1], direction, cell);
      r.outcome == Grew <==> r.outcome != Collided && OnFood(h, food)
  {
    var n := |segments|;
    var h := Moved(segments[n - 1], direction, cell);
    var moved := segments[1..] + [h];
    assert moved[..n - 1] == segments[1..];
  }

  // ---------------------------------------------------------------------------
  // Invariants a tick keeps
  // ---------------------------------------------------------------------------

  /** Each segment is one cell away from the one after it. */
  predicate Connected(segments: seq<Segment>, cell: int) {
    forall i :: 0 <= i < |segments| - 1 ==> OneCellApart(segments[i], segments[i + 1], cell)
  }

  /** No two segments share a position. */
  predicate Distinct(segments: seq<Segment>) {
    forall i, j :: 0 <= i < j < |segments| ==> segments[i] != segments[j]
  }

  predicate FoodOff(food: Food, segments: seq<Segment>) {
    forall i :: 0 <= i < |segments| ==> !OnFood(segments[i], food)
  }

  lemma TickKeepsConnected(segments: seq<Segment>, direction: Direction, cell: int, food: Food, width: int, height: int)
    requires |segments| >= 1 && Connected(segments, cell)
    ensures Connected(Tick(segments, direction, cell, food, width, height).segments, cell)
  {
    var r := Tick(segments, direction, cell, food, width, height).segments;
    var n := |segments|;
    var off := |r| - n;
    forall i | 0 <= i < |r| - 1
      ensures OneCellApart(r[i], r[i + 1], cell)
    {
      if i + 1 == |r| - 1 {
        assert r[i] == segments[n - 1];
      } else if i < off {
        assert r[i] == segments[0] && r[i + 1] == segments[1];
      } else {
        assert r[i] == segments[i - off + 1] && r[i + 1] == segments[i - off + 2];
      }
    }
  }

  /**
   * A tick that does not end the game keeps the segments apart, given the
   * food is not on the snake (respawn places it off the snake).
   */
  lemma TickKeepsDistinct(segments: seq<Segment>, direction: Direction, cell: int, food: Food, width: int, height: int)
    requires |segments| >= 1 && Distinct(segments) && FoodOff(food, segments)
    ensures var r := Tick(segments, direction, cell, food, width, height);
      r.outcome != Collided ==> Distinct(r.segments)
  {
    var r := Tick(segments, direction, cell, food, width, height);
    var n := |segments|;
    var h := Moved(segments[n - 1], direction, cell);
    TickOutcome(segments, direction, cell, food, width, height);
    if r.outcome != Collided {
      assert forall i :: 1 <= i < n ==> segments[i] != h;
      if r.outcome == Grew {
        assert r.segments == segments + [h];
        assert !OnFood(segments[0], food);
        AppendKeepsDistinct(segments, h);
      } else {
        assert r.segments == segments[1..] + [h];
        AppendKeepsDistinct(segments[1..], h);
      }
    }
  }

  lemma AppendKeepsDistinct(s: seq<Segment>, h: Segment)
    requires Distinct(s) && forall i :: 0 <= i < |s| ==> s[i] != h
    ensures Distinct(s + [h])
  {
  }

  /** When nothing is eaten the food stays off the snake. */
  lemma TickKeepsFoodOff(segments: seq<Segment>, direction: Direction, cell: int, food: Food, width: int, height: int)
    requires |segments| >= 1 && FoodOff(food, segments)
    ensures var r := Tick(segments, direction, cell, food, width, height);
      r.outcome == Advanced ==> FoodOff(food, r.segments)
  {
    var r := Tick(segments, direction, cell, food, width, height);
    if r.outcome == Advanced {
      assert r.segments == segments[1..] + [Moved(segments[|segments| - 1], direction, cell)];
    }
  }

  /** A tick that does not end the game keeps every segment on the window. */
  lemma TickStaysInArena(segments: seq<Segment>, direction: Direction, cell: int, food: Food, width: int, height: int)
    requires |segments| >= 1
    requires forall i :: 0 <= i < |segments| ==> InArena(segments[i], width, height)
    ensures var r := Tick(segments, direction, cell, food, width, height);
      r.outcome != Collided ==> forall i :: 0 <= i < |r.segments| ==> InArena(r.segments[i], width, height)
  {
    var r := Tick(segments, direction, cell, food, width, height);
    var n := |segments|;
    var off := |r.segments| - n;
    if r.outcome != Collided {
      forall i | 0 <= i < |r.segments|
        ensures InArena(r.segments[i], width, height)
      {
        if i < off {
          assert r.segments[i] == segments[0];
        } else if i < |r.segments| - 1 {
          assert r.segments[i] == segments[i - off + 1];
        }
      }
    }
  }

  /** A tick never shortens the snake. */
  lemma TickNeverShrinks(segments: seq<Segment>, direction: Direction, cell: int, food: Food, width: int, height: int)
    requires |segments| >= 1
    ensures |Tick(segments, direction, cell, food, width, height).segments| >= |segments|
  {
  }

  // ---------------------------------------------------------------------------
  // Pixels to grid cells
  // ---------------------------------------------------------------------------

  /** Python's floor division a // b (rounds towards minus infinity). */
  function FloorDiv(a: int, b: int): int
    requires b != 0
  {
    if b > 0 then a / b else (-a) / (-b)
  }

  /** a // b is the q with b * q <= a < b * q + b (for b < 0, mirrored). */
  lemma FloorDivBounds(a: int, b: int)
    requires b != 0
    ensures b > 0 ==> b * FloorDiv(a, b) <= a < b * FloorDiv(a, b) + b
    ensures b < 0 ==> b * FloorDiv(a, b) + b < a <= b * FloorDiv(a, b)
  {
  }

  lemma {:induction false} MulGrows(b: int, k: int)
    requires b > 0 && k >= 1
    ensures b * k >= b
  {
    if k > 1 {
      MulGrows(b, k - 1);
      assert b * k == b * (k - 1) + b;
    }
  }

  /** For b > 0 the bounds determine a // b. */
  lemma FloorDivUnique(a: int, b: int, q: int)
    requires b > 0 && b * q <= a < b * q + b
    ensures FloorDiv(a, b) == q
  {
    var p := FloorDiv(a, b);
    FloorDivBounds(a, b);
    if p > q {
      assert b * (p - q) == b * p - b * q;
      MulGrows(b, p - q);
    } else if p < q {
      assert b * (q - p) == b * q - b * p;
      MulGrows(b, q - p);
    }
  }

  lemma FloorDivShift(a: int, b: int)
    requires b > 0
    ensures FloorDiv(a + b, b) == FloorDiv(a, b) + 1
  {
    var q := FloorDiv(a, b);
    FloorDivBounds(a, b);
    assert b * (q + 1) == b * q + b;
    FloorDivUnique(a + b, b, q + 1);
  }

  lemma FloorDivMonotone(a: int, n: int, b: int)
    requires b > 0 && a <= n
    ensures FloorDiv(a, b) <= FloorDiv(n, b)
  {
    var p, q := FloorDiv(a, b), FloorDiv(n, b);
    FloorDivBounds(a, b);
    FloorDivBounds(n, b);
    if p > q {
      assert b * (p - q) == b * p - b * q;
      MulGrows(b, p - q);
    }
  }

  /** The grid cell holding pixel position (x, y). */
  function ToGrid(x: int, y: int, cell: int): Pathfinding.GridPos
    requires cell != 0
  {
    Pathfinding.GridPos(FloorDiv(x, cell), FloorDiv(y, cell))
  }

  /** The grid cell one step along d. */
  function GridStep(c: Pathfinding.GridPos, d: Direction): Pathfinding.GridPos {
    match d
    case Right => Pathfinding.GridPos(c.x + 1, c.y)
    case Left => Pathfinding.GridPos(c.x - 1, c.y)
    case Up => Pathfinding.GridPos(c.x, c.y - 1)
    case Down => Pathfinding.GridPos(c.x, c.y + 1)
  }

  /** A pixel move of one cell is a grid step in the same direction. */
  lemma MovedIsGridStep(s: Segment, d: Direction, cell: int)
    requires cell > 0
    ensures var m := Moved(s, d, cell);
      ToGrid(m.x, m.y, cell) == GridStep(ToGrid(s.x, s.y, cell), d)
  {
    var m := Moved(s, d, cell);
    FloorDivShift(s.x, cell);
    FloorDivShift(s.y, cell);
    FloorDivShift(s.x - cell, cell);
    FloorDivShift(s.y - cell, cell);
    assert s.x - cell + cell == s.x && s.y - cell + cell == s.y;
  }

  /**
   * A grid cell the autopilot treats as on the board is a pixel position on
   * the window.
   */
  lemma GridInBoundsIsInArena(x: int, y: int, width: int, height: int, cell: int)
    requires cell > 0
    requires Pathfinding.InBounds(ToGrid(x, y, cell), FloorDiv(width, cell), FloorDiv(height, cell))
    ensures InArena(Segment(x, y), width, height)
  {
    FloorDivUnique(-1, cell, -1);
    if x < 0 {
      FloorDivMonotone(x, -1, cell);
    }
    if y < 0 {
      FloorDivMonotone(y, -1, cell);
    }
    if x >= width {
      FloorDivMonotone(width, x, cell);
    }
    if y >= height {
      FloorDivMonotone(height, y, cell);
    }
  }

  /**
   * The converse does not hold: on the 800 x 700 window with 40-pixel cells
   * the search board has 17 rows, while the wall test lets the head into the
   * partly visible row at y = 680.
   */
  lemma PartialRowOffBoard()
    ensures FloorDiv(800, 40) == 20 && FloorDiv(700, 40) == 17
    ensures InArena(Segment(0, 680), 800, 700)
    ensures !Pathfinding.InBounds(ToGrid(0, 680, 40), FloorDiv(800, 40), FloorDiv(700, 40))
  {
  }

  // ---------------------------------------------------------------------------
  // The autopilot's pure parts
  // ---------------------------------------------------------------------------

  /**
   * The cells the autopilot must avoid: the cells of every segment but the
   * head, except that with two or more segments the tail's cell is allowed,
   * since the tail moves away during the tick.
   */
  function AutopilotObstacles(segments: seq<Segment>, cell: int): (r: set<Pathfinding.GridPos>)
    requires cell != 0
    ensures forall c :: c in r <==>
      (exists i :: 0 <= i < |segments| - 1 && ToGrid(segments[i].x, segments[i].y, cell) == c) &&
      (|segments| >= 2 ==> c != ToGrid(segments[0].x, segments[0].y, cell))
  {
    var body := seq(|segments|, i requires 0 <= i < |segments| => ToGrid(segments[i].x, segments[i].y, cell));
    var obstacles := set i | 0 <= i < |body| - 1 :: body[i];
    assert forall c :: c in obstacles <==>
      exists i :: 0 <= i < |segments| - 1 && ToGrid(segments[i].x, segments[i].y, cell) == c by {
      forall c | c in obstacles
        ensures exists i :: 0 <= i < |segments| - 1 && ToGrid(segments[i].x, segments[i].y, cell) == c
      {
        var i :| 0 <= i < |body| - 1 && body[i] == c;
        assert ToGrid(segments[i].x, segments[i].y, cell) == c;
      }
      forall i | 0 <= i < |segments| - 1
        ensures ToGrid(segments[i].x, segments[i].y, cell) in obstacles
      {
        assert body[i] in obstacles;
      }
    }
    if |body| >= 2 then obstacles - {body[0]} else obstacles
  }

  /**
   * The heading from one grid cell to the next: +x right, -x left, +y down,
   * -y up, tested in that order; None when the cells are not neighbours in
   * any of these ways.
   */
  function StepDirection(from: Pathfinding.GridPos, to: Pathfinding.GridPos): (r: Option<Direction>)
    ensures Pathfinding.Adjacent(from, to) ==> r.Some? && GridStep(from, r.value) == to
    ensures r.Some? ==> to.x - from.x == 1 || to.x - from.x == -1 || to.y - from.y == 1 || to.y - from.y == -1
  {
    var dx := to.x - from.x;
    var dy := to.y - from.y;
    if dx == 1 then Some(Right)
    else if dx == -1 then Some(Left)
    else if dy == 1 then Some(Down)
    else if dy == -1 then Some(Up)
    else None
  }

  /** Reading a step back gives the direction it was taken in. */
  lemma StepDirectionRoundTrip(c: Pathfinding.GridPos, d: Direction)
    ensures StepDirection(c, GridStep(c, d)) == Some(d)
  {
  }

  /** The order in which the fallback tries directions. */
  const FallbackOrder: seq<Direction> := [Up, Down, Left, Right]

  /** A fallback candidate: no reversal, and its cell is open. */
  predicate SafeTurn(current: Direction, head: Pathfinding.GridPos, d: Direction,
                     obstacles: set<Pathfinding.GridPos>, cols: int, rows: int) {
    !IsReverse(current, d) && Pathfinding.Open(GridStep(head, d), cols, rows, obstacles)
  }

  /** The first safe candidate of options, or current when there is none. */
  function FirstSafe(options: seq<Direction>, current: Direction, head: Pathfinding.GridPos,
                     obstacles: set<Pathfinding.GridPos>, cols: int, rows: int): (r: Direction)
    ensures !IsReverse(current, r)
    ensures (exists k :: 0 <= k < |options| && SafeTurn(current, head, options[k], obstacles, cols, rows)) ==>
      exists k :: 0 <= k < |options| && r == options[k] && SafeTurn(current, head, r, obstacles, cols, rows) &&
        forall j :: 0 <= j < k ==> !SafeTurn(current, head, options[j], obstacles, cols, rows)
    ensures (forall k :: 0 <= k < |options| ==> !SafeTurn(current, head, options[k], obstacles, cols, rows)) ==>
      r == current
  {
    if options == [] then current
    else if SafeTurn(current, head, options[0], obstacles, cols, rows) then options[0]
    else
      var r := FirstSafe(options[1..], current, head, obstacles, cols, rows);
      assert forall k :: 1 <= k < |options| ==> options[k] == options[1..][k - 1];
      r
  }

  /**
   * _safe_fallback_direction: the first of Up, Down, Left, Right that is not a
   * reversal and leads onto an open cell, else the current direction.
   */
  function SafeFallbackDirection(current: Direction, head: Segment, obstacles: set<Pathfinding.GridPos>,
                                 cols: int, rows: int, cell: int): (r: Direction)
    requires cell != 0
    ensures !IsReverse(current, r)
    ensures var g := ToGrid(head.x, head.y, cell);
      (exists k :: 0 <= k < 4 && SafeTurn(current, g, FallbackOrder[k], obstacles, cols, rows)) ==>
        exists k :: 0 <= k < 4 && r == FallbackOrder[k] && SafeTurn(current, g, r, obstacles, cols, rows) &&
          forall j :: 0 <= j < k ==> !SafeTurn(current, g, FallbackOrder[j], obstacles, cols, rows)
    ensures var g := ToGrid(head.x, head.y, cell);
      (forall k :: 0 <= k < 4 ==> !SafeTurn(current, g, FallbackOrder[k], obstacles, cols, rows)) ==> r == current
  {
    FirstSafe(FallbackOrder, current, ToGrid(head.x, head.y, cell), obstacles, cols, rows)
  }

  // ---------------------------------------------------------------------------
  // The snake object
  // ---------------------------------------------------------------------------

  /** The game's start position, tail first. */
  const InitialSegments: seq<Segment> := [Segment(40, 120), Segment(80, 120), Segment(120, 120)]

  class Snake {
    var cell: int
    var direction: Direction
    var segments: seq<Segment>

    /** There is always a head. */
    ghost predicate Valid()
      reads this
    {
      |segments| >= 1
    }

    constructor (cell: int := 40)
      ensures Valid()
      ensures this.cell == cell && direction == Right && segments == InitialSegments
    {
      this.cell := cell;
      direction := Right;
      segments := InitialSegments;
    }

    /** The head property: the last segment. */
    function Head(): (r: Segment)
      reads this
      requires Valid()
      ensures r in segments && r == segments[|segments| - 1]
    {
      segments[|segments| - 1]
    }

    /** The head property's setter: replaces the last segment and nothing else. */
    method SetHead(segment: Segment)
      requires Valid()
      modifies this`segments
      ensures Valid() && Head() == segment
      ensures |segments| == |old(segments)| && segments[..|segments| - 1] == old(segments)[..|segments| - 1]
    {
      segments := segments[|segments| - 1 := segment];
    }

    /** Takes the new heading unless it would turn the snake straight back. */
    method TrySetDirection(newDir: Direction)
      modifies this`direction
      ensures IsReverse(old(direction), newDir) ==> direction == old(direction)
      ensures !IsReverse(old(direction), newDir) ==> direction == newDir
      ensures !IsReverse(old(direction), direction)
    {
      if IsReverse(direction, newDir) {
        return;
      }
      direction := newDir;
    }

    /**
     * One game tick. The positions are copied first; the head moves, then
     * each other segment takes the copied position of the one ahead of it,
     * then walls, body and food are checked in that order.
     */
    method Update(food: Food, width: int, height: int) returns (outcome: Outcome)
      requires Valid()
      modifies this`segments
      ensures Valid()
      ensures Step(outcome, segments) == Tick(old(segments), direction, cell, food, width, height)
      ensures Head() == Moved(old(Head()), direction, cell)
    {
      var prev := segments;
      var n := |segments|;
      var head := segments[n - 1];
      if direction == Right {
        head := Segment(head.x + cell, head.y);
      } else if direction == Left {
        head := Segment(head.x - cell, head.y);
      } else if direction == Up {
        head := Segment(head.x, head.y - cell);
      } else if direction == Down {
        head := Segment(head.x, head.y + cell);
      }
      assert head == Moved(prev[n - 1], direction, cell);
      segments := segments[n - 1 := head];

      for i := 0 to n - 1
        invariant |segments| == n && segments[n - 1] == head
        invariant forall j :: 0 <= j < i ==> segments[j] == prev[j + 1]
        invariant forall j :: i <= j < n - 1 ==> segments[j] == prev[j]
      {
        segments := segments[i := prev[i + 1]];
      }
      assert segments == prev[1..] + [head];
      ghost var expected := Tick(prev, direction, cell, food, width, height);
      assert expected ==
        if !InArena(head, width, height) || head in segments[..n - 1] then Step(Collided, segments)
        else if OnFood(head, food) then Step(Grew, [prev[0]] + segments)
        else Step(Advanced, segments);

      if head.x < 0 || head.x >= width || head.y < 0 || head.y >= height {
        return Collided;
      }
      if head in segments[..n - 1] {
        return Collided;
      }
      if head.x == food.x && head.y == food.y {
        segments := [prev[0]] + segments;
        return Grew;
      }
      return Advanced;
    }

    /**
     * set_direction_autopilot: search a shortest route from the head's cell to
     * the food's cell around the body and head for its second cell; with no
     * route of two or more cells, take the fallback direction.
     */
    method SetDirectionAutopilot(food: Food, width: int, height: int, cell: int)
      returns (ghost route: Option<seq<Pathfinding.GridPos>>)
      requires Valid() && cell != 0
      modifies this`direction
      ensures !IsReverse(old(direction), direction)
      ensures var start := ToGrid(Head().x, Head().y, cell);
        var goal := ToGrid(food.x, food.y, cell);
        var obstacles := AutopilotObstacles(segments, cell);
        var cols := FloorDiv(width, cell);
        var rows := FloorDiv(height, cell);
        (route.None? <==> !Pathfinding.Reachable(start, goal, cols, rows, obstacles)) &&
        (route.Some? ==>
          Pathfinding.IsPath(route.value, start, goal, cols, rows, obstacles) &&
          (forall p :: Pathfinding.IsPath(p, start, goal, cols, rows, obstacles) ==> |route.value| <= |p|)) &&
        ((route.None? || start == goal) ==>
          direction == SafeFallbackDirection(old(direction), Head(), obstacles, cols, rows, cell)) &&
        ((route.Some? && start != goal) ==>
          var d := StepDirection(start, route.value[1]);
          d.Some? && GridStep(start, d.value) == route.value[1] &&
          direction == (if IsReverse(old(direction), d.value) then old(direction) else d.value))
    {
      var h := Head();
      var start := ToGrid(h.x, h.y, cell);
      var goal := ToGrid(food.x, food.y, cell);
      var cols := FloorDiv(width, cell);
      var rows := FloorDiv(height, cell);
      var obstacles := AutopilotObstacles(segments, cell);

      var path;
      ghost var pops;
      path, pops := Pathfinding.Bfs(start, goal, obstacles, cols, rows);
      route := path;
      if path.None? || |path.value| < 2 {
        direction := SafeFallbackDirection(direction, h, obstacles, cols, rows, cell);
        return;
      }

      var next := path.value[1];
      assert Pathfinding.Edge(path.value[0], next, cols, rows, obstacles);
      var desired := StepDirection(start, next);
      if desired.Some? && !IsReverse(direction, desired.value) {
        direction := desired.value;
      }
    }
  }

  /** The snake a game starts with: connected, self-avoiding, on the 800 x 700 window. */
  lemma InitialSnakeWellFormed()
    ensures Connected(InitialSegments, 40)
    ensures Distinct(InitialSegments)
    ensures forall i :: 0 <= i < |InitialSegments| ==> InArena(InitialSegments[i], 800, 700)
  {
    assert Moved(InitialSegments[0], Right, 40) == InitialSegments[1];
    assert Moved(InitialSegments[1], Right, 40) == InitialSegments[2];
  }
}
