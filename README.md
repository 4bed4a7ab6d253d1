# Snake game core in Dafny

This project models the logic core of a small Python snake game and proves properties about that model. The core has two parts.

- **Grid path search** (`pathfinding.py`, module `Pathfinding` in `pathfinding.dfy`). The board has `cols x rows` cells plus a set of blocked cells. The neighbour generator tries the four axis-aligned cells in the order +x, -x, +y, -y. The search keeps a parent-pointer map, and `_reconstruct` walks those pointers back. There are two strategies: a breadth-first search (FIFO queue) and a depth-first search (LIFO stack). Each returns a start-to-goal list of cells or `None`.
  - The searches are imperative methods. The frontier is a `seq` and the parent dictionary is a `map` from cell to optional parent.
  - A ghost depth map records the tree structure that makes reconstruction terminate.
  - For the breadth-first strategy, the same depth map gives the level order that makes the route a shortest one.
- **The snake actor** (`snake.py`, module `SnakeActor` in `snake.dfy`). The class `Snake` holds:
  - the cell size;
  - the heading;
  - the segments in pixel coordinates, tail first and head last. The `head` property is `Head()`, and its setter is `SetHead`.

  The operations are:
  - `Update`, the per-tick step. It is proved equal to the pure function `Tick`, and the game's promises are proved about `Tick`.
  - The 180-degree reversal rule (`IsReverse`, `TrySetDirection`).
  - The autopilot (`SetDirectionAutopilot`). It converts pixels to cells with Python's floor division and builds the obstacle set from the body. It runs `Pathfinding.Bfs`, which is the same algorithm as `Snake._bfs_path`, then steers towards the route's second cell or falls back to the first safe turn.

`wrappers.dfy` holds the `Option` type used where the source returns a value or `None`.

Some helpers in `snake.dfy` have no row of their own because the rows of the lemmas about them describe them:
- `FloorDiv` is Python's `//`. Its rows are `FloorDivBounds`, `FloorDivUnique`, `FloorDivShift` and `FloorDivMonotone`.
- `ToGrid` is the pixel-to-cell conversion `(x // cell, y // cell)` at snake.py:39-40, 45 and 111-112. Its rows are `MovedIsGridStep` and `GridInBoundsIsInArena`.
- `SafeTurn` is the test at snake.py:122-124. Its rows are `FirstSafe` and `SafeFallbackDirection`.

The game-over `raise` becomes the outcome `Collided`. A successful meal becomes `Grew`, and `Advanced` stands for the `False` return. On `Collided` the segments are the already-moved ones, as in the source.

## Model

| member | source | states |
|---|---|---|
| Pathfinding.Neighbors | pathfinding.py:27-30 | a cell is yielded exactly when it is one axis step away and in bounds and not blocked; the yielded cells are in the order +x, -x, +y, -y |
| Pathfinding.Relax | pathfinding.py:55-58 | the loop computes the specification function `Relaxed`: the new parent map holds exactly the old cells and the neighbours of `cur`; cells already discovered keep their parent and the others get `cur`; the undiscovered neighbours are appended to the frontier, each once and in generation order (the depth-first loop body at pathfinding.py:76-79 is the same) |
| Pathfinding.RelaxedDiscovers | pathfinding.py:55-58 | relaxation adds exactly the candidates without a parent, each with parent `cur`, keeps every existing parent, and grows the map by the number of appended cells |
| Pathfinding.RelaxedKeepsOrder | pathfinding.py:55-58 | cells appended from candidates in +x, -x, +y, -y order come out in that order, so the neighbour order reaches the frontier |
| Pathfinding.Reverse | pathfinding.py:38 | the result has the same length and reads the input back to front |
| Pathfinding.Reconstruct | pathfinding.py:32-39 | given parent pointers that strictly decrease a rank, the loop ends; the list ends at `goal` and starts at a cell whose parent is `None`; each cell's predecessor in the list is its parent |
| Pathfinding.TreePath | pathfinding.py:51-52 | reconstructing from the search tree gives a route from start to goal of at most depth + 1 cells; when start equals goal it is `[start]` |
| Pathfinding.Expand | pathfinding.py:54-58 | one loop iteration after the goal test discovers exactly the open neighbours of the popped cell, appends them behind the rest of the frontier in +x, -x, +y, -y order, and keeps the search invariant: a tree rooted at start along open edges; expanded cells have all their neighbours discovered; discovered count = pops + frontier size |
| Pathfinding.RelaxKeepsSearch | pathfinding.py:55-58 | relaxing the neighbours of the popped cell extends the search tree by one level below `cur` and marks `cur` as expanded |
| Pathfinding.BfsExpand | pathfinding.py:54-58 | one BFS iteration after the goal test keeps the search invariant and the level order, keeps the queue's remaining cells at its front and discovers exactly the open neighbours of the popped cell |
| Pathfinding.BfsKeepsLevels | pathfinding.py:49-58 | the FIFO queue stays in level order and spans two consecutive levels; cells reachable from start by a walk of at most head depth + 1 cells (head depth steps) are discovered no deeper than their distance |
| Pathfinding.LevelsBoundRoutes | pathfinding.py:50-52 | when the goal is popped from the BFS queue, no route to it has fewer cells than its depth + 1 |
| Pathfinding.ExhaustedMeansUnreachable | pathfinding.py:49-60 | when the frontier is empty without meeting the goal, no route from start to goal exists (every walk stays among discovered cells) |
| Pathfinding.Bfs | pathfinding.py:45-60 | a returned list is a route start..goal along open axis steps; `None` exactly when goal is unreachable; the route has the fewest cells of all routes; `[start]` when start equals goal; at most board size + 1 iterations, which is `cols * rows + 1` (through `SearchBound`) (the snake's own `_bfs_path`, snake.py:74-100, is the same search with the same neighbour order) |
| Pathfinding.Dfs | pathfinding.py:66-81 | a returned list is a route start..goal; `None` exactly when goal is unreachable; `[start]` when start equals goal; at most board size + 1 iterations, which is `cols * rows + 1` (through `SearchBound`) |
| Pathfinding.FindPath | pathfinding.py:16-25 | either strategy returns a route from start to goal (inclusive) or `None`, `None` exactly when unreachable; BFS routes are shortest; `[start]` when start equals goal; `None` when the goal is blocked and differs from start |
| Pathfinding.BlockedGoalUnreachable | pathfinding.py:29 | a blocked goal other than the start has no route, since every step must land on an unblocked cell |
| Pathfinding.SearchBound | pathfinding.py:56-58 | since each cell receives a parent at most once, a search loop runs at most `cols * rows + 1` times |
| Pathfinding.BoardSize | pathfinding.py:29 | the board has exactly `cols * rows` in-bounds cells |
| SnakeActor.IsReverse | snake.py:102-108 | a reversal is exactly a turn to the opposite heading; no heading reverses itself |
| SnakeActor.Opposite | snake.py:102-108 | the opposite heading is never the heading itself |
| SnakeActor.ReverseSymmetric | snake.py:102-108 | the reversal relation is symmetric and the opposite of the opposite is the heading |
| SnakeActor.Snake.TrySetDirection | snake.py:129-138 | a reversal leaves the heading unchanged, anything else is taken; the new heading is never a reversal of the old |
| SnakeActor.Moved | snake.py:147-154 | the head moves by exactly one cell along the heading and the other coordinate is unchanged |
| SnakeActor.MovedUndone | snake.py:147-154 | moving one cell along the opposite heading undoes a move |
| SnakeActor.Tick | snake.py:142-184 | the length grows by one exactly on `Grew`; the head stays last, moved one cell along the heading |
| SnakeActor.TickFollowsSnapshot | snake.py:144-158 | every non-head segment ends at the pre-move position of the segment ahead of it, read from the copy and not from already-moved segments; on growth the old tail position becomes a new tail |
| SnakeActor.TickOutcome | snake.py:161-184 | game over exactly when the moved head is off `[0,width) x [0,height)` or equals the moved position of a non-head segment; growth exactly when the game goes on and the moved head is on the food |
| SnakeActor.TickNeverShrinks | snake.py:176-184 | a tick never shortens the snake |
| SnakeActor.TickKeepsConnected | snake.py:157-158 | consecutive segments one cell apart stay one cell apart after a tick, grown or not |
| SnakeActor.TickKeepsDistinct | snake.py:170-181 | a tick that does not end the game keeps all segments at distinct positions, given the food is off the snake |
| SnakeActor.TickKeepsFoodOff | snake.py:176-184 | a tick that ends `Advanced` leaves the food off the snake (a `Collided` tick can end with the head on the food) |
| SnakeActor.TickStaysInArena | snake.py:161-167 | a tick that does not end the game keeps every segment on the window |
| SnakeActor.Snake.Update | snake.py:142-184 | the outcome and the new segments are those of `Tick` on the old segments; the snake stays non-empty; the new head is the old head moved one cell along the heading |
| SnakeActor.Snake.constructor | snake.py:14-21 | heading right; segments (40,120), (80,120), (120,120) with the head last; the given cell size, 40 when none is given |
| SnakeActor.Snake.Head | snake.py:29-30 | the head is the last segment, and a segment of the snake |
| SnakeActor.Snake.SetHead | snake.py:32-33 | the head becomes the given segment; the length and every other segment are unchanged |
| SnakeActor.InitialSnakeWellFormed | snake.py:17-21 | the start snake is connected for 40-pixel cells, has distinct segments and lies on the 800 x 700 window |
| SnakeActor.FloorDivBounds | snake.py:39-45 | `a // b` is the q with `b*q <= a < b*q + b` (mirrored for negative b), as Python's floor division |
| SnakeActor.FloorDivUnique | snake.py:39-45 | for a positive divisor those bounds determine `a // b` |
| SnakeActor.FloorDivShift | snake.py:39-45 | adding the divisor raises the quotient by one |
| SnakeActor.FloorDivMonotone | snake.py:39-45 | floor division by a positive divisor is monotone |
| SnakeActor.MovedIsGridStep | snake.py:39-45 | for a positive cell size, a pixel move of one cell is a grid step in the same direction |
| SnakeActor.GridInBoundsIsInArena | snake.py:42-43 | a cell on the autopilot's `width // cell` by `height // cell` board is a pixel position on the window |
| SnakeActor.PartialRowOffBoard | snake.py:42-43 | the converse fails: on 800 x 700 with 40-pixel cells the board has 20 x 17 cells, but the wall test admits y = 680 |
| SnakeActor.AutopilotObstacles | snake.py:45-50 | a cell is an obstacle exactly when a non-head segment lies in it, and with two or more segments it is not the tail's cell |
| SnakeActor.StepDirection | snake.py:57-69 | for adjacent cells the decoded direction steps from one to the other; a result exists only when x or y differs by one |
| SnakeActor.StepDirectionRoundTrip | snake.py:57-69 | decoding a grid step gives back its direction |
| SnakeActor.FirstSafe | snake.py:121-127 | returns the first option that is not a reversal and leads onto an open cell, or the current heading when there is none; never a reversal |
| SnakeActor.SafeFallbackDirection | snake.py:110-127 | the first of Up, Down, Left, Right that is safe, else the current heading; never a reversal |
| SnakeActor.Snake.SetDirectionAutopilot | snake.py:38-72 | the route is a shortest one from the head's cell to the food's cell around the obstacles, or none exactly when unreachable; with no route or a one-cell route the fallback heading is taken; otherwise the step to the second cell is taken unless it is a reversal; the new heading is never a reversal of the old |

## Left out

- The game loop in `game.py` is not modelled: the pygame event handling, the menu / playing / game-over state changes, the score and the frame clock. Its per-frame glue is autopilot, then `update`, then score on growth, then game over on the exception. That glue is covered by `SetDirectionAutopilot`, `Update` and the `Outcome` value.
- Rendering is not modelled: `Snake.draw`, `Food.draw` and all pygame calls.
- `Food.respawn` is not modelled. It is random rejection sampling in an unbounded loop. The model takes the food as a given position, and the `Grew` outcome marks where `update` calls it. Its one promise, that the food is off the snake, is a precondition of `TickKeepsDistinct` and `TickKeepsFoodOff`.
- `direction.py` is not part of this model. `Direction` is a local four-valued datatype.
- Segment aliasing is not modelled. Segments are values, so `update`'s in-place edits of segment objects become replacements of sequence elements. The source never shares a segment object between two list positions, so nothing is lost.
- The search strategies are not modelled as objects. The class hierarchy is replaced by a `Strategy` value and the `FindPath` dispatch. The abstract method's `NotImplementedError` is not modelled.
- Pathfinding.Bfs: repeated calls giving identical results is not stated. The inputs are immutable values and the method changes no state, but Dafny methods carry no determinism clause. What fixes the result is the frontier order, which `Expand` and `RelaxedKeepsOrder` state.
- Pathfinding.Dfs: repeated calls giving identical results is not stated, for the same reason as for `Bfs`; the order in which neighbours are pushed is stated by `Expand`.
- Pathfinding.FindPath: repeated calls giving identical results is not stated, for the same reason as for `Bfs`.
- SnakeActor.Snake.SetDirectionAutopilot: when several shortest routes lead to the food, which of them, and so which heading, is taken is not stated. The route comes from `Pathfinding.Bfs`, whose contract allows any shortest route, for the same reason as given for `Pathfinding.Bfs`. In the source the +x, -x, +y, -y neighbour order breaks the tie.
- SnakeActor.Snake.SetDirectionAutopilot: requires `cell != 0`. The source raises `ZeroDivisionError` there, and the model does not represent that error.
