/**
 * Grid path search on a cols x rows board with a set of blocked cells: the
 * neighbour generator and the parent-pointer reconstruction shared by every
 * strategy, and the two strategies, breadth-first and depth-first.
 *
 * A search keeps a frontier (a FIFO queue for BFS, a LIFO stack for DFS) and
 * a map from every discovered cell to its parent (None for the start). A cell
 * gets a parent the first time it is generated as a neighbour and never
 * again, so each cell enters the frontier at most once.
 */
module Pathfinding {
  import opened Wrappers

  /** A board cell (column, row). */
  datatype GridPos = GridPos(x: int, y: int)

  /** The two interchangeable search strategies. */
  datatype Strategy = BFS | DFS

  // ---------------------------------------------------------------------------
  // The search graph
  // ---------------------------------------------------------------------------

  predicate InBounds(c: GridPos, cols: int, rows: int) {
    0 <= c.x < cols && 0 <= c.y < rows
  }

  /** A cell a search may enter: on the board and not blocked. */
  predicate Open(c: GridPos, cols: int, rows: int, obstacles: set<GridPos>) {
    InBounds(c, cols, rows) && c !in obstacles
  }

  /** a and b differ by exactly 1 in exactly one coordinate. */
  predicate Adjacent(a: GridPos, b: GridPos) {
    (a.y == b.y && (b.x == a.x + 1 || b.x == a.x - 1)) ||
    (a.x == b.x && (b.y == a.y + 1 || b.y == a.y - 1))
  }

  /** An edge of the search graph: one axis-aligned step onto an open cell. */
  predicate Edge(a: GridPos, b: GridPos, cols: int, rows: int, obstacles: set<GridPos>) {
    Adjacent(a, b) && Open(b, cols, rows, obstacles)
  }

  /**
   * A walk from start: consecutive cells are adjacent, and every cell after
   * the first is on the board and not blocked (the start itself is exempt).
   */
  predicate Walk(p: seq<GridPos>, start: GridPos, cols: int, rows: int, obstacles: set<GridPos>) {
    |p| >= 1 && p[0] == start &&
    forall i :: 0 <= i < |p| - 1 ==> Edge(p[i], p[i + 1], cols, rows, obstacles)
  }

  /** A route as find_path promises it: start..goal inclusive. */
  predicate IsPath(p: seq<GridPos>, start: GridPos, goal: GridPos, cols: int, rows: int, obstacles: set<GridPos>) {
    Walk(p, start, cols, rows, obstacles) && p[|p| - 1] == goal
  }

  ghost predicate Reachable(start: GridPos, goal: GridPos, cols: int, rows: int, obstacles: set<GridPos>) {
    exists p :: IsPath(p, start, goal, cols, rows, obstacles)
  }

  /** Every cell of the board. */
  function Board(cols: int, rows: int): set<GridPos> {
    set x, y | 0 <= x < cols && 0 <= y < rows :: GridPos(x, y)
  }

  /** One row of the board. */
  function BoardRow(cols: int, y: int): set<GridPos> {
    set x | 0 <= x < cols :: GridPos(x, y)
  }

  lemma BoardHasInBounds(c: GridPos, cols: int, rows: int)
    ensures c in Board(cols, rows) <==> InBounds(c, cols, rows)
  {
    if InBounds(c, cols, rows) {
      assert c == GridPos(c.x, c.y);
    }
  }

  lemma {:induction false} BoardRowSize(cols: nat, y: int)
    ensures |BoardRow(cols, y)| == cols
  {
    if cols == 0 {
      assert BoardRow(cols, y) == {};
    } else {
      assert BoardRow(cols, y) == BoardRow(cols - 1, y) + {GridPos(cols - 1, y)};
      BoardRowSize(cols - 1, y);
    }
  }

  /** The board has exactly cols * rows cells. */
  lemma {:induction false} BoardSize(cols: nat, rows: nat)
    ensures |Board(cols, rows)| == cols * rows
  {
    if rows == 0 {
      assert Board(cols, rows) == {};
    } else {
      var above, last := Board(cols, rows - 1), BoardRow(cols, rows - 1);
      BoardSplit(cols, rows);
      BoardSize(cols, rows - 1);
      BoardRowSize(cols, rows - 1);
      DisjointUnionSize(above, last);
      assert |Board(cols, rows)| == cols * (rows - 1) + cols;
      MulSucc(cols, rows - 1);
    }
  }

  lemma MulSucc(a: int, b: int)
    ensures a * b + a == a * (b + 1)
  {
  }

  /** A board is the board one row shorter plus its last row. */
  lemma BoardSplit(cols: int, rows: int)
    requires rows > 0
    ensures Board(cols, rows) == Board(cols, rows - 1) + BoardRow(cols, rows - 1)
    ensures Board(cols, rows - 1) * BoardRow(cols, rows - 1) == {}
  {
  }

  lemma DisjointUnionSize<T>(a: set<T>, b: set<T>)
    requires a * b == {}
    ensures |a + b| == |a| + |b|
  {
  }

  // ---------------------------------------------------------------------------
  // _neighbors
  // ---------------------------------------------------------------------------

  /** The position of n among the four candidates of c, in the order +x, -x, +y, -y. */
  function CandidateRank(c: GridPos, n: GridPos): nat {
    if n == GridPos(c.x + 1, c.y) then 0
    else if n == GridPos(c.x - 1, c.y) then 1
    else if n == GridPos(c.x, c.y + 1) then 2
    else 3
  }

  /**
   * The four axis-aligned cells of c, kept when on the board and not blocked,
   * generated in the order +x, -x, +y, -y.
   */
  function Neighbors(c: GridPos, cols: int, rows: int, obstacles: set<GridPos>): (r: seq<GridPos>)
    ensures forall n :: n in r <==> Edge(c, n, cols, rows, obstacles)
    ensures RankIncreasing(c, r)
  {
    var east, west := GridPos(c.x + 1, c.y), GridPos(c.x - 1, c.y);
    var south, north := GridPos(c.x, c.y + 1), GridPos(c.x, c.y - 1);
    (if Open(east, cols, rows, obstacles) then [east] else []) +
    (if Open(west, cols, rows, obstacles) then [west] else []) +
    (if Open(south, cols, rows, obstacles) then [south] else []) +
    (if Open(north, cols, rows, obstacles) then [north] else [])
  }

  /** The candidates in s come in strictly increasing +x, -x, +y, -y order around c. */
  predicate RankIncreasing(c: GridPos, s: seq<GridPos>) {
    forall i, j :: 0 <= i < j < |s| ==> CandidateRank(c, s[i]) < CandidateRank(c, s[j])
  }

  // ---------------------------------------------------------------------------
  // The relaxation step shared by both strategies
  // ---------------------------------------------------------------------------

  /** next extends parent exactly with the cells of added, each given parent cur. */
  ghost predicate Discovers(parent: map<GridPos, Option<GridPos>>, next: map<GridPos, Option<GridPos>>,
                            added: seq<GridPos>, cur: GridPos)
  {
    (forall c :: c in next <==> c in parent || c in added) &&
    (forall c :: c in parent ==> next[c] == parent[c]) &&
    (forall c :: c in added ==> next[c] == Some(cur))
  }

  /**
   * The relaxation loop as a function: the candidates nbs are taken in
   * order, and each one without a parent yet gets cur as parent and is
   * appended. Returns the final parent map and the appended cells.
   */
  function Relaxed(nbs: seq<GridPos>, parent: map<GridPos, Option<GridPos>>, cur: GridPos)
    : (map<GridPos, Option<GridPos>>, seq<GridPos>)
  {
    if nbs == [] then (parent, [])
    else if nbs[0] in parent then Relaxed(nbs[1..], parent, cur)
    else
      var later := Relaxed(nbs[1..], parent[nbs[0] := Some(cur)], cur);
      (later.0, [nbs[0]] + later.1)
  }

  /**
   * The body of the search loop after the goal test: every neighbour that has
   * no parent yet gets cur as parent and is pushed onto the frontier. The
   * cells pushed are exactly the undiscovered neighbours, each once, in the
   * order they were generated.
   */
  method Relax(cur: GridPos, nbs: seq<GridPos>, parent: map<GridPos, Option<GridPos>>, frontier: seq<GridPos>)
    returns (nextParent: map<GridPos, Option<GridPos>>, nextFrontier: seq<GridPos>, ghost added: seq<GridPos>)
    ensures (nextParent, added) == Relaxed(nbs, parent, cur)
    ensures nextFrontier == frontier + added
    ensures forall c :: c in added <==> c in nbs && c !in parent
    ensures Discovers(parent, nextParent, added, cur)
    ensures |nextParent| == |parent| + |added|
    ensures forall c :: c in nextParent <==> c in parent || c in nbs
    ensures forall c :: c in nextParent ==> nextParent[c] == if c in parent then parent[c] else Some(cur)
  {
    nextParent, nextFrontier, added := parent, frontier, [];
    assert nbs[0..] == nbs && [] + Relaxed(nbs, parent, cur).1 == Relaxed(nbs, parent, cur).1;
    for i := 0 to |nbs|
      invariant nextFrontier == frontier + added
      invariant Relaxed(nbs, parent, cur) ==
        (Relaxed(nbs[i..], nextParent, cur).0, added + Relaxed(nbs[i..], nextParent, cur).1)
    {
      var nb := nbs[i];
      RelaxedStep(nbs, i, nextParent, cur);
      if nb !in nextParent {
        ghost var later := Relaxed(nbs[i + 1..], nextParent[nb := Some(cur)], cur).1;
        nextParent := nextParent[nb := Some(cur)];
        nextFrontier := nextFrontier + [nb];
        assert added + ([nb] + later) == (added + [nb]) + later;
        added := added + [nb];
      }
    }
    assert nbs[|nbs|..] == [] && added + [] == added;
    RelaxedDiscovers(nbs, parent, cur);
  }

  /** Relaxed over a suffix of nbs, unfolded once. */
  lemma RelaxedStep(nbs: seq<GridPos>, i: int, parent: map<GridPos, Option<GridPos>>, cur: GridPos)
    requires 0 <= i < |nbs|
    ensures Relaxed(nbs[i..], parent, cur) ==
      if nbs[i] in parent then Relaxed(nbs[i + 1..], parent, cur)
      else (Relaxed(nbs[i + 1..], parent[nbs[i] := Some(cur)], cur).0,
            [nbs[i]] + Relaxed(nbs[i + 1..], parent[nbs[i] := Some(cur)], cur).1)
  {
    assert nbs[i..][1..] == nbs[i + 1..];
  }

  /**
   * Relaxation adds exactly the candidates without a parent, each once and
   * with parent cur, and leaves every existing parent alone.
   */
  lemma {:induction false} RelaxedDiscovers(nbs: seq<GridPos>, parent: map<GridPos, Option<GridPos>>, cur: GridPos)
    ensures var (next, added) := Relaxed(nbs, parent, cur);
      (forall c :: c in added <==> c in nbs && c !in parent) &&
      Discovers(parent, next, added, cur) &&
      |next| == |parent| + |added|
  {
    if nbs != [] {
      var nb := nbs[0];
      assert nbs == [nb] + nbs[1..];
      if nb in parent {
        RelaxedDiscovers(nbs[1..], parent, cur);
      } else {
        RelaxedDiscovers(nbs[1..], parent[nb := Some(cur)], cur);
      }
    }
  }

  /**
   * From candidates generated in +x, -x, +y, -y order the appended cells come
   * out in that order too.
   */
  lemma {:induction false} RelaxedKeepsOrder(c: GridPos, nbs: seq<GridPos>, parent: map<GridPos, Option<GridPos>>, cur: GridPos)
    requires RankIncreasing(c, nbs)
    ensures forall x :: x in Relaxed(nbs, parent, cur).1 ==> x in nbs
    ensures RankIncreasing(c, Relaxed(nbs, parent, cur).1)
  {
    if nbs != [] {
      var tail := nbs[1..];
      assert RankIncreasing(c, tail) by {
        forall i, j | 0 <= i < j < |tail| ensures CandidateRank(c, tail[i]) < CandidateRank(c, tail[j]) {
          assert tail[i] == nbs[i + 1] && tail[j] == nbs[j + 1];
        }
      }
      if nbs[0] in parent {
        RelaxedKeepsOrder(c, tail, parent, cur);
      } else {
        var more := parent[nbs[0] := Some(cur)];
        RelaxedKeepsOrder(c, tail, more, cur);
        var rest := Relaxed(tail, more, cur).1;
        var r := [nbs[0]] + rest;
        forall i, j | 0 <= i < j < |r| ensures CandidateRank(c, r[i]) < CandidateRank(c, r[j]) {
          assert r[j] == rest[j - 1] && r[j] in tail;
          var k :| 0 <= k < |tail| && tail[k] == r[j];
          assert nbs[k + 1] == r[j];
          if i > 0 {
            assert r[i] == rest[i - 1];
          }
        }
      }
    }
  }

  // ---------------------------------------------------------------------------
  // _reconstruct
  // ---------------------------------------------------------------------------

  /** The parent pointers strictly decrease a rank, so following them stops. */
  ghost predicate Ranked(parent: map<GridPos, Option<GridPos>>, rank: map<GridPos, nat>) {
    forall c {:trigger parent[c]} :: c in parent ==>
      c in rank &&
      (parent[c].Some? ==> parent[c].value in parent && parent[c].value in rank && rank[parent[c].value] < rank[c])
  }

  /** s read back to front (Python's list.reverse). */
  function Reverse<T>(s: seq<T>): (r: seq<T>)
    ensures |r| == |s|
    ensures forall i :: 0 <= i < |s| ==> r[i] == s[|s| - 1 - i]
  {
    if s == [] then [] else Reverse(s[1..]) + [s[0]]
  }

  /**
   * Follows parent pointers from goal until a cell whose parent is None, then
   * reverses. The list ends at goal, starts at a cell without parent, and
   * each cell's predecessor in the list is its parent.
   */
  method Reconstruct(parent: map<GridPos, Option<GridPos>>, goal: GridPos, ghost rank: map<GridPos, nat>)
    returns (path: seq<GridPos>)
    requires goal in parent && Ranked(parent, rank)
    ensures |path| >= 1 && path[|path| - 1] == goal
    ensures forall i :: 0 <= i < |path| ==> path[i] in parent
    ensures parent[path[0]] == None
    ensures forall i :: 0 < i < |path| ==> parent[path[i]] == Some(path[i - 1])
    ensures |path| <= rank[goal] + 1
  {
    var cur: Option<GridPos> := Some(goal);
    var back: seq<GridPos> := [];
    while cur.Some?
      invariant forall i :: 0 <= i < |back| ==> back[i] in parent
      invariant cur.Some? ==> cur.value in parent && rank[cur.value] + |back| <= rank[goal]
      invariant back == [] ==> cur == Some(goal)
      invariant back != [] ==> back[0] == goal && cur == parent[back[|back| - 1]]
      invariant back != [] ==> rank[back[|back| - 1]] + |back| - 1 <= rank[goal]
      invariant forall i :: 0 <= i < |back| - 1 ==> parent[back[i]] == Some(back[i + 1])
      decreases if cur.Some? then rank[cur.value] + 1 else 0
    {
      back := back + [cur.value];
      cur := parent[cur.value];
    }
    path := Reverse(back);
  }

  // ---------------------------------------------------------------------------
  // Invariants of both searches
  // ---------------------------------------------------------------------------

  /**
   * The parent map is a tree rooted at start: only start has parent None,
   * every other discovered cell is reached from its parent by a graph edge,
   * and depth counts the edges back to start.
   */
  ghost predicate SearchTree(start: GridPos, cols: int, rows: int, obstacles: set<GridPos>,
                             parent: map<GridPos, Option<GridPos>>, depth: map<GridPos, nat>)
  {
    parent.Keys == depth.Keys && start in parent && parent[start] == None && depth[start] == 0 &&
    forall c {:trigger parent[c]} :: c in parent && c != start ==>
      parent[c].Some? && parent[c].value in parent &&
      Edge(parent[c].value, c, cols, rows, obstacles) && depth[c] == depth[parent[c].value] + 1
  }

  /**
   * Every frontier cell is discovered; every discovered cell no longer on the
   * frontier was popped: it is not the goal and all its neighbours are
   * discovered.
   */
  ghost predicate Expanded(goal: GridPos, cols: int, rows: int, obstacles: set<GridPos>,
                           parent: map<GridPos, Option<GridPos>>, frontier: seq<GridPos>)
  {
    (forall c :: c in frontier ==> c in parent) &&
    forall c :: c in parent && c !in frontier ==>
      c != goal && forall n :: Edge(c, n, cols, rows, obstacles) ==> n in parent
  }

  lemma TreeIsRanked(start: GridPos, cols: int, rows: int, obstacles: set<GridPos>,
                     parent: map<GridPos, Option<GridPos>>, depth: map<GridPos, nat>)
    requires SearchTree(start, cols, rows, obstacles, parent, depth)
    ensures Ranked(parent, depth)
  {
  }

  /** A parent chain of a search tree, read from its root, is a route from start. */
  lemma ChainIsPath(start: GridPos, goal: GridPos, cols: int, rows: int, obstacles: set<GridPos>,
                    parent: map<GridPos, Option<GridPos>>, depth: map<GridPos, nat>, path: seq<GridPos>)
    requires SearchTree(start, cols, rows, obstacles, parent, depth)
    requires |path| >= 1 && path[|path| - 1] == goal
    requires forall i :: 0 <= i < |path| ==> path[i] in parent
    requires parent[path[0]] == None
    requires forall i :: 0 < i < |path| ==> parent[path[i]] == Some(path[i - 1])
    ensures IsPath(path, start, goal, cols, rows, obstacles)
  {
    forall i | 0 <= i < |path| - 1
      ensures Edge(path[i], path[i + 1], cols, rows, obstacles)
    {
      assert parent[path[i + 1]] == Some(path[i]);
    }
  }

  /** All cells a tree may discover: the board and the start. */
  lemma TreeInUniverse(start: GridPos, cols: int, rows: int, obstacles: set<GridPos>,
                       parent: map<GridPos, Option<GridPos>>, depth: map<GridPos, nat>)
    requires SearchTree(start, cols, rows, obstacles, parent, depth)
    ensures parent.Keys <= Board(cols, rows) + {start}
  {
    forall c | c in parent && c != start ensures c in Board(cols, rows) {
      BoardHasInBounds(c, cols, rows);
    }
  }

  lemma SubsetSize<T>(a: set<T>, b: set<T>)
    requires a <= b
    ensures |a| <= |b|
  {
    assert b == a + (b - a);
  }

  /** One relaxation step keeps the tree and the expansion invariant. */
  lemma RelaxKeepsSearch(start: GridPos, goal: GridPos, cols: int, rows: int, obstacles: set<GridPos>,
                         parent: map<GridPos, Option<GridPos>>, depth: map<GridPos, nat>, frontier: seq<GridPos>,
                         cur: GridPos, rest: seq<GridPos>,
                         nextParent: map<GridPos, Option<GridPos>>, added: seq<GridPos>)
    requires SearchTree(start, cols, rows, obstacles, parent, depth)
    requires Expanded(goal, cols, rows, obstacles, parent, frontier)
    requires cur in frontier && cur != goal
    requires forall c :: c in frontier ==> c == cur || c in rest
    requires forall c :: c in rest ==> c in frontier
    requires forall c :: c in added <==> c in Neighbors(cur, cols, rows, obstacles) && c !in parent
    requires Discovers(parent, nextParent, added, cur)
    ensures SearchTree(start, cols, rows, obstacles, nextParent, depth + map c | c in added :: depth[cur] + 1)
    ensures Expanded(goal, cols, rows, obstacles, nextParent, rest + added)
  {
    var nextDepth := depth + map c | c in added :: depth[cur] + 1;
    forall c | c in nextParent && c != start
      ensures nextParent[c].Some? && nextParent[c].value in nextParent
      ensures Edge(nextParent[c].value, c, cols, rows, obstacles)
      ensures nextDepth[c] == nextDepth[nextParent[c].value] + 1
    {
      if c !in parent {
        assert c in added;
      }
    }
    forall c | c in nextParent && c !in rest + added
      ensures c != goal && forall n :: Edge(c, n, cols, rows, obstacles) ==> n in nextParent
    {
      assert c in parent;
      if c == cur {
        forall n | Edge(c, n, cols, rows, obstacles) ensures n in nextParent {
          assert n in Neighbors(cur, cols, rows, obstacles);
        }
      } else {
        assert c !in frontier;
      }
    }
  }

  /**
   * If every discovered cell has been expanded and none is the goal, the goal
   * is not reachable: the discovered cells contain everything reachable.
   */
  lemma {:induction false} ExhaustedMeansUnreachable(start: GridPos, goal: GridPos, cols: int, rows: int,
                                                     obstacles: set<GridPos>, parent: map<GridPos, Option<GridPos>>)
    requires start in parent
    requires Expanded(goal, cols, rows, obstacles, parent, [])
    ensures !Reachable(start, goal, cols, rows, obstacles)
  {
    forall p | IsPath(p, start, goal, cols, rows, obstacles) ensures false {
      WalkStaysDiscovered(start, goal, cols, rows, obstacles, parent, p, |p| - 1);
    }
  }

  lemma {:induction false} WalkStaysDiscovered(start: GridPos, goal: GridPos, cols: int, rows: int,
                                               obstacles: set<GridPos>, parent: map<GridPos, Option<GridPos>>,
                                               p: seq<GridPos>, k: nat)
    requires start in parent
    requires Expanded(goal, cols, rows, obstacles, parent, [])
    requires Walk(p, start, cols, rows, obstacles) && k < |p|
    ensures p[k] in parent
  {
    if k > 0 {
      WalkStaysDiscovered(start, goal, cols, rows, obstacles, parent, p, k - 1);
      assert Edge(p[k - 1], p[k], cols, rows, obstacles);
    }
  }

  // ---------------------------------------------------------------------------
  // BFS level order
  // ---------------------------------------------------------------------------

  /** The queue's depths never decrease and span at most two consecutive levels. */
  ghost predicate LevelOrdered(depth: map<GridPos, nat>, queue: seq<GridPos>) {
    queue != [] && (forall c :: c in queue ==> c in depth) &&
    (forall i, j :: 0 <= i <= j < |queue| ==> depth[queue[i]] <= depth[queue[j]]) &&
    (forall i :: 0 <= i < |queue| ==> depth[queue[i]] <= depth[queue[0]] + 1)
  }

  /** Every discovered cell that is off the queue is no deeper than level. */
  ghost predicate DoneUpTo(depth: map<GridPos, nat>, queue: seq<GridPos>, level: int) {
    forall c :: c in depth && c !in queue ==> depth[c] <= level
  }

  /**
   * Every cell at the end of a walk of at most bound cells from start is
   * discovered, no deeper than that walk is long.
   */
  ghost predicate ShortWalksFound(start: GridPos, cols: int, rows: int, obstacles: set<GridPos>,
                                  depth: map<GridPos, nat>, bound: int)
  {
    forall p :: Walk(p, start, cols, rows, obstacles) && |p| <= bound ==>
      p[|p| - 1] in depth && depth[p[|p| - 1]] <= |p| - 1
  }

  /**
   * The BFS invariant: the queue is in level order, every expanded cell is no
   * deeper than the queue head, and every cell that some walk of at most
   * (head depth + 1) cells reaches is discovered at its true distance or less.
   */
  ghost predicate Levels(start: GridPos, cols: int, rows: int, obstacles: set<GridPos>,
                         depth: map<GridPos, nat>, queue: seq<GridPos>)
  {
    LevelOrdered(depth, queue) &&
    DoneUpTo(depth, queue, depth[queue[0]]) &&
    ShortWalksFound(start, cols, rows, obstacles, depth, depth[queue[0]] + 1)
  }

  /** nextDepth is depth plus the cells of added, each at depth d + 1. */
  ghost predicate Deepens(depth: map<GridPos, nat>, nextDepth: map<GridPos, nat>, added: seq<GridPos>, d: int) {
    (forall c :: c in nextDepth <==> c in depth || c in added) &&
    (forall c :: c in depth ==> nextDepth[c] == depth[c]) &&
    (forall c :: c in added ==> nextDepth[c] == d + 1)
  }

  /** Popping the head and appending cells one level deeper keeps level order. */
  lemma NextLevelOrdered(depth: map<GridPos, nat>, queue: seq<GridPos>, added: seq<GridPos>,
                         nextDepth: map<GridPos, nat>, next: seq<GridPos>)
    requires LevelOrdered(depth, queue)
    requires forall c :: c in added ==> c !in depth
    requires Deepens(depth, nextDepth, added, depth[queue[0]])
    requires next == queue[1..] + added && next != []
    ensures LevelOrdered(nextDepth, next) && depth[queue[0]] <= nextDepth[next[0]]
  {
    var d := depth[queue[0]];
    forall i | 0 <= i < |next| ensures next[i] in nextDepth && d <= nextDepth[next[i]] <= d + 1 {
      if i < |queue| - 1 {
        assert next[i] == queue[i + 1];
      } else {
        assert next[i] in added;
      }
    }
    forall i, j | 0 <= i <= j < |next| ensures nextDepth[next[i]] <= nextDepth[next[j]] {
      if j < |queue| - 1 {
        assert next[i] == queue[i + 1] && next[j] == queue[j + 1];
      } else {
        assert next[j] in added;
      }
    }
  }

  /** Every discovered cell is at most one level below the queue head. */
  lemma DepthsBelowHead(depth: map<GridPos, nat>, queue: seq<GridPos>, c: GridPos)
    requires LevelOrdered(depth, queue) && DoneUpTo(depth, queue, depth[queue[0]])
    requires c in depth
    ensures depth[c] <= depth[queue[0]] + 1
  {
    if c in queue {
      var k :| 0 <= k < |queue| && queue[k] == c;
    }
  }

  /** After the pop the old head is expanded too, so it is off the queue and no deeper than level. */
  lemma NextDoneUpTo(depth: map<GridPos, nat>, queue: seq<GridPos>, added: seq<GridPos>,
                     nextDepth: map<GridPos, nat>, next: seq<GridPos>, level: int)
    requires LevelOrdered(depth, queue) && DoneUpTo(depth, queue, depth[queue[0]])
    requires Deepens(depth, nextDepth, added, depth[queue[0]])
    requires next == queue[1..] + added
    requires depth[queue[0]] <= level
    ensures DoneUpTo(nextDepth, next, level)
  {
    assert queue == [queue[0]] + queue[1..];
    forall c | c in nextDepth && c !in next ensures nextDepth[c] <= level {
      assert c in depth && nextDepth[c] == depth[c];
    }
  }

  /**
   * Walks one cell longer than before are covered once the queue head moves
   * to the next level: the walk's second-to-last cell is expanded, so its
   * last cell was discovered.
   */
  lemma NextShortWalks(start: GridPos, goal: GridPos, cols: int, rows: int, obstacles: set<GridPos>,
                       depth: map<GridPos, nat>, queue: seq<GridPos>,
                       nextParent: map<GridPos, Option<GridPos>>, nextDepth: map<GridPos, nat>, added: seq<GridPos>,
                       next: seq<GridPos>)
    requires Levels(start, cols, rows, obstacles, depth, queue)
    requires LevelOrdered(nextDepth, next) && depth[queue[0]] <= nextDepth[next[0]]
    requires Deepens(depth, nextDepth, added, depth[queue[0]])
    requires forall c :: c in nextParent <==> c in nextDepth
    requires Expanded(goal, cols, rows, obstacles, nextParent, next)
    ensures ShortWalksFound(start, cols, rows, obstacles, nextDepth, nextDepth[next[0]] + 1)
  {
    var d := depth[queue[0]];
    if next[0] in depth {
      DepthsBelowHead(depth, queue, next[0]);
    }
    forall p | Walk(p, start, cols, rows, obstacles) && |p| <= nextDepth[next[0]] + 1
      ensures p[|p| - 1] in nextDepth && nextDepth[p[|p| - 1]] <= |p| - 1
    {
      if |p| > d + 1 {
        var prefix := p[..|p| - 1];
        assert Walk(prefix, start, cols, rows, obstacles);
        var c := prefix[|prefix| - 1];
        assert c in depth && depth[c] <= d;
        assert c !in next;
        assert Edge(c, p[|p| - 1], cols, rows, obstacles);
        var last := p[|p| - 1];
        if last in depth {
          DepthsBelowHead(depth, queue, last);
        }
      }
    }
  }

  /** Popping the queue head and appending its new neighbours keeps the BFS invariant. */
  lemma BfsKeepsLevels(start: GridPos, goal: GridPos, cols: int, rows: int, obstacles: set<GridPos>,
                       parent: map<GridPos, Option<GridPos>>, depth: map<GridPos, nat>, queue: seq<GridPos>, pops: nat,
                       cur: GridPos, rest: seq<GridPos>,
                       nextParent: map<GridPos, Option<GridPos>>, nextDepth: map<GridPos, nat>,
                       nextQueue: seq<GridPos>, added: seq<GridPos>)
    requires Searching(start, goal, cols, rows, obstacles, parent, depth, queue, pops)
    requires Levels(start, cols, rows, obstacles, depth, queue)
    requires queue == [cur] + rest
    requires forall c :: c in added ==> c !in parent
    requires nextDepth == depth + map c | c in added :: depth[cur] + 1
    requires Searching(start, goal, cols, rows, obstacles, nextParent, nextDepth, nextQueue, pops + 1)
    requires nextQueue == rest + added
    ensures nextQueue != [] ==> Levels(start, cols, rows, obstacles, nextDepth, nextQueue)
  {
    assert queue[0] == cur && queue[1..] == rest;
    assert Deepens(depth, nextDepth, added, depth[cur]);
    if nextQueue != [] {
      NextLevelOrdered(depth, queue, added, nextDepth, nextQueue);
      NextDoneUpTo(depth, queue, added, nextDepth, nextQueue, nextDepth[nextQueue[0]]);
      NextShortWalks(start, goal, cols, rows, obstacles, depth, queue, nextParent, nextDepth, added, nextQueue);
    }
  }

  // ---------------------------------------------------------------------------
  // The strategies
  // ---------------------------------------------------------------------------

  /**
   * The loop invariant of both searches. pops counts the cells taken off the
   * frontier so far; since every discovered cell is either still on the
   * frontier or was popped once, pops + |frontier| is the number of
   * discovered cells.
   */
  ghost predicate Searching(start: GridPos, goal: GridPos, cols: int, rows: int, obstacles: set<GridPos>,
                            parent: map<GridPos, Option<GridPos>>, depth: map<GridPos, nat>,
                            frontier: seq<GridPos>, pops: nat)
  {
    SearchTree(start, cols, rows, obstacles, parent, depth) &&
    Expanded(goal, cols, rows, obstacles, parent, frontier) &&
    pops + |frontier| == |parent|
  }

  /** Discovered cells lie on the board or are the start, so the pops are bounded. */
  lemma PopsBounded(start: GridPos, goal: GridPos, cols: int, rows: int, obstacles: set<GridPos>,
                    parent: map<GridPos, Option<GridPos>>, depth: map<GridPos, nat>,
                    frontier: seq<GridPos>, pops: nat)
    requires Searching(start, goal, cols, rows, obstacles, parent, depth, frontier, pops)
    ensures pops + |frontier| <= |Board(cols, rows)| + 1
  {
    TreeInUniverse(start, cols, rows, obstacles, parent, depth);
    SubsetSize(parent.Keys, Board(cols, rows) + {start});
  }

  /**
   * The loop body after the goal test, for either frontier discipline: cur
   * was taken off frontier, leaving rest; the neighbours of cur that have
   * no parent yet get cur as parent and are appended to rest.
   */
  method Expand(start: GridPos, goal: GridPos, obstacles: set<GridPos>, cols: int, rows: int,
                cur: GridPos, rest: seq<GridPos>, parent: map<GridPos, Option<GridPos>>,
                ghost depth: map<GridPos, nat>, ghost frontier: seq<GridPos>, ghost pops: nat)
    returns (nextParent: map<GridPos, Option<GridPos>>, nextFrontier: seq<GridPos>,
             ghost nextDepth: map<GridPos, nat>, ghost added: seq<GridPos>)
    requires Searching(start, goal, cols, rows, obstacles, parent, depth, frontier, pops)
    requires cur != goal
    requires frontier == [cur] + rest || frontier == rest + [cur]
    ensures Searching(start, goal, cols, rows, obstacles, nextParent, nextDepth, nextFrontier, pops + 1)
    ensures nextFrontier == rest + added
    ensures forall c :: c in added ==> c !in parent
    ensures Discovers(parent, nextParent, added, cur)
    ensures nextDepth == depth + map c | c in added :: depth[cur] + 1
    ensures forall c :: c in nextParent <==> c in parent || Edge(cur, c, cols, rows, obstacles)
    ensures forall i, j :: |rest| <= i < j < |nextFrontier| ==>
      CandidateRank(cur, nextFrontier[i]) < CandidateRank(cur, nextFrontier[j])
  {
    var nbs := Neighbors(cur, cols, rows, obstacles);
    nextParent, nextFrontier, added := Relax(cur, nbs, parent, rest);
    RelaxedKeepsOrder(cur, nbs, parent, cur);
    assert forall i :: |rest| <= i < |nextFrontier| ==> nextFrontier[i] == added[i - |rest|];
    nextDepth := depth + map c | c in added :: depth[cur] + 1;
    RelaxKeepsSearch(start, goal, cols, rows, obstacles, parent, depth, frontier, cur, rest, nextParent, added);
  }

  /** What Reconstruct returns from a search tree is a route from start, of at most depth + 1 cells. */
  lemma TreeRoute(start: GridPos, goal: GridPos, cols: int, rows: int, obstacles: set<GridPos>,
                  parent: map<GridPos, Option<GridPos>>, depth: map<GridPos, nat>, path: seq<GridPos>)
    requires SearchTree(start, cols, rows, obstacles, parent, depth)
    requires |path| >= 1 && path[|path| - 1] == goal
    requires forall i :: 0 <= i < |path| ==> path[i] in parent
    requires parent[path[0]] == None
    requires forall i :: 0 < i < |path| ==> parent[path[i]] == Some(path[i - 1])
    requires |path| <= depth[goal] + 1
    ensures IsPath(path, start, goal, cols, rows, obstacles)
    ensures start == goal ==> path == [start]
  {
    ChainIsPath(start, goal, cols, rows, obstacles, parent, depth, path);
  }

  /**
   * The goal test succeeded: _reconstruct on the search tree gives a route
   * from start to goal of at most depth + 1 cells.
   */
  method TreePath(start: GridPos, goal: GridPos, cols: int, rows: int, obstacles: set<GridPos>,
                  parent: map<GridPos, Option<GridPos>>, ghost depth: map<GridPos, nat>)
    returns (path: seq<GridPos>)
    requires SearchTree(start, cols, rows, obstacles, parent, depth) && goal in parent
    ensures IsPath(path, start, goal, cols, rows, obstacles)
    ensures start == goal ==> path == [start]
    ensures |path| <= depth[goal] + 1
  {
    TreeIsRanked(start, cols, rows, obstacles, parent, depth);
    path := Reconstruct(parent, goal, depth);
    TreeRoute(start, goal, cols, rows, obstacles, parent, depth, path);
  }

  /** When goal heads the BFS queue, no route to it has fewer than depth + 1 cells. */
  lemma LevelsBoundRoutes(start: GridPos, goal: GridPos, cols: int, rows: int, obstacles: set<GridPos>,
                          depth: map<GridPos, nat>, queue: seq<GridPos>)
    requires Levels(start, cols, rows, obstacles, depth, queue) && queue[0] == goal
    ensures forall p :: IsPath(p, start, goal, cols, rows, obstacles) ==> depth[goal] + 1 <= |p|
  {
    forall p | IsPath(p, start, goal, cols, rows, obstacles) ensures depth[goal] + 1 <= |p| {
      assert Walk(p, start, cols, rows, obstacles);
    }
  }

  /** Expand on the FIFO queue: the search invariant and the level order both survive. */
  method BfsExpand(start: GridPos, goal: GridPos, obstacles: set<GridPos>, cols: int, rows: int,
                   cur: GridPos, rest: seq<GridPos>, parent: map<GridPos, Option<GridPos>>,
                   ghost depth: map<GridPos, nat>, ghost queue: seq<GridPos>, ghost pops: nat)
    returns (nextParent: map<GridPos, Option<GridPos>>, nextQueue: seq<GridPos>, ghost nextDepth: map<GridPos, nat>)
    requires Searching(start, goal, cols, rows, obstacles, parent, depth, queue, pops)
    requires Levels(start, cols, rows, obstacles, depth, queue)
    requires cur != goal && queue == [cur] + rest
    ensures Searching(start, goal, cols, rows, obstacles, nextParent, nextDepth, nextQueue, pops + 1)
    ensures nextQueue != [] ==> Levels(start, cols, rows, obstacles, nextDepth, nextQueue)
    ensures forall c :: c in nextParent <==> c in parent || Edge(cur, c, cols, rows, obstacles)
    ensures |rest| <= |nextQueue| && nextQueue[..|rest|] == rest
  {
    ghost var added;
    nextParent, nextQueue, nextDepth, added := Expand(start, goal, obstacles, cols, rows, cur, rest, parent, depth, queue, pops);
    BfsKeepsLevels(start, goal, cols, rows, obstacles, parent, depth, queue, pops, cur, rest,
                   nextParent, nextDepth, nextQueue, added);
  }

  /**
   * BFSStrategy.find_path: a FIFO search that returns a route of fewest
   * cells from start to goal, or None exactly when goal is unreachable.
   * pops counts loop iterations; it never exceeds the board size plus one.
   */
  method Bfs(start: GridPos, goal: GridPos, obstacles: set<GridPos>, cols: int, rows: int)
    returns (r: Option<seq<GridPos>>, ghost pops: nat)
    ensures r.Some? ==> IsPath(r.value, start, goal, cols, rows, obstacles)
    ensures r.None? <==> !Reachable(start, goal, cols, rows, obstacles)
    ensures r.Some? ==> forall p :: IsPath(p, start, goal, cols, rows, obstacles) ==> |r.value| <= |p|
    ensures start == goal ==> r == Some([start])
    ensures pops <= |Board(cols, rows)| + 1
    ensures cols >= 0 && rows >= 0 ==> pops <= cols * rows + 1
  {
    var queue := [start];
    var parent: map<GridPos, Option<GridPos>> := map[start := None];
    ghost var depth: map<GridPos, nat> := map[start := 0];
    pops := 0;
    while queue != []
      invariant Searching(start, goal, cols, rows, obstacles, parent, depth, queue, pops)
      invariant queue != [] ==> Levels(start, cols, rows, obstacles, depth, queue)
      decreases |Board(cols, rows)| + 1 - pops
    {
      PopsBounded(start, goal, cols, rows, obstacles, parent, depth, queue, pops);
      var cur := queue[0];
      ghost var popped := queue;
      queue := queue[1..];
      assert popped == [cur] + queue;
      pops := pops + 1;
      if cur == goal {
        var path := TreePath(start, goal, cols, rows, obstacles, parent, depth);
        LevelsBoundRoutes(start, goal, cols, rows, obstacles, depth, popped);
        r := Some(path);
        if cols >= 0 && rows >= 0 {
          SearchBound(cols, rows, pops);
        }
        return;
      }
      var nextParent, nextQueue, nextDepth := BfsExpand(start, goal, obstacles, cols, rows, cur, queue, parent, depth, popped, pops - 1);
      parent, queue, depth := nextParent, nextQueue, nextDepth;
    }
    ExhaustedMeansUnreachable(start, goal, cols, rows, obstacles, parent);
    PopsBounded(start, goal, cols, rows, obstacles, parent, depth, queue, pops);
    if cols >= 0 && rows >= 0 {
      SearchBound(cols, rows, pops);
    }
    r := None;
  }

  /**
   * DFSStrategy.find_path: a LIFO search that returns some route from start
   * to goal, or None exactly when goal is unreachable.
   */
  method Dfs(start: GridPos, goal: GridPos, obstacles: set<GridPos>, cols: int, rows: int)
    returns (r: Option<seq<GridPos>>, ghost pops: nat)
    ensures r.Some? ==> IsPath(r.value, start, goal, cols, rows, obstacles)
    ensures r.None? <==> !Reachable(start, goal, cols, rows, obstacles)
    ensures start == goal ==> r == Some([start])
    ensures pops <= |Board(cols, rows)| + 1
    ensures cols >= 0 && rows >= 0 ==> pops <= cols * rows + 1
  {
    var stack := [start];
    var parent: map<GridPos, Option<GridPos>> := map[start := None];
    ghost var depth: map<GridPos, nat> := map[start := 0];
    pops := 0;
    while stack != []
      invariant Searching(start, goal, cols, rows, obstacles, parent, depth, stack, pops)
      decreases |Board(cols, rows)| + 1 - pops
    {
      PopsBounded(start, goal, cols, rows, obstacles, parent, depth, stack, pops);
      var cur := stack[|stack| - 1];
      ghost var popped := stack;
      stack := stack[..|stack| - 1];
      assert popped == stack + [cur];
      pops := pops + 1;
      if cur == goal {
        var path := TreePath(start, goal, cols, rows, obstacles, parent, depth);
        r := Some(path);
        if cols >= 0 && rows >= 0 {
          SearchBound(cols, rows, pops);
        }
        return;
      }
      var nextParent, nextStack, nextDepth, added := Expand(start, goal, obstacles, cols, rows, cur, stack, parent, depth, popped, pops - 1);
      parent, stack, depth := nextParent, nextStack, nextDepth;
    }
    ExhaustedMeansUnreachable(start, goal, cols, rows, obstacles, parent);
    PopsBounded(start, goal, cols, rows, obstacles, parent, depth, stack, pops);
    if cols >= 0 && rows >= 0 {
      SearchBound(cols, rows, pops);
    }
    r := None;
  }

  /**
   * PathfindingStrategy.find_path: either strategy returns a route from start
   * to goal or None, None exactly when goal is unreachable; the BFS route is
   * a shortest one.
   */
  method FindPath(strategy: Strategy, start: GridPos, goal: GridPos, obstacles: set<GridPos>, cols: int, rows: int)
    returns (r: Option<seq<GridPos>>)
    ensures r.Some? ==> IsPath(r.value, start, goal, cols, rows, obstacles)
    ensures r.None? <==> !Reachable(start, goal, cols, rows, obstacles)
    ensures strategy == BFS && r.Some? ==>
      forall p :: IsPath(p, start, goal, cols, rows, obstacles) ==> |r.value| <= |p|
    ensures start == goal ==> r == Some([start])
    ensures start != goal && goal in obstacles ==> r == None
  {
    if start != goal && goal in obstacles {
      BlockedGoalUnreachable(start, goal, cols, rows, obstacles);
    }
    ghost var pops;
    match strategy
    case BFS =>
      r, pops := Bfs(start, goal, obstacles, cols, rows);
    case DFS =>
      r, pops := Dfs(start, goal, obstacles, cols, rows);
  }

  /** Either search loop runs at most cols * rows + 1 times. */
  lemma SearchBound(cols: nat, rows: nat, pops: nat)
    requires pops <= |Board(cols, rows)| + 1
    ensures pops <= cols * rows + 1
  {
    BoardSize(cols, rows);
  }

  /** A blocked goal other than the start has no route. */
  lemma BlockedGoalUnreachable(start: GridPos, goal: GridPos, cols: int, rows: int, obstacles: set<GridPos>)
    requires goal != start && goal in obstacles
    ensures !Reachable(start, goal, cols, rows, obstacles)
  {
    forall p | Walk(p, start, cols, rows, obstacles) && |p| >= 2 ensures p[|p| - 1] !in obstacles {
      assert Edge(p[|p| - 2], p[|p| - 1], cols, rows, obstacles);
    }
  }
}
