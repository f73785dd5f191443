/**
 * The theory behind the maze carver: a depth-first backtracker with an explicit
 * stack over a grid that starts as all walls. Rooms sit at even coordinates;
 * carving towards a room two steps away opens the wall cell in between and the
 * room itself. This module states the carving loop's invariant and proves that
 * each carving step and each backtracking step keeps it.
 *
 * `Unfolded`, `OpenInvariant` and `PackInvariant` carry no meaning of their own: they
 * keep the invariant folded into one fact wherever a proof does not need its parts,
 * which is only to keep the solver fast.
 */
module MazeCarving {
  import opened Grid

  /** The cell two steps from `c` in direction `d`. */
  function Beyond(c: Cell, d: (int, int)): Cell {
    (c.0 + 2 * d.0, c.1 + 2 * d.1)
  }

  /** The cell one step from `c` in direction `d`: the wall between `c` and `Beyond(c, d)`. */
  function Between(c: Cell, d: (int, int)): Cell {
    (c.0 + d.0, c.1 + d.1)
  }

  /** The room two steps away is inside the grid and still a wall. */
  predicate CanCarve(g: Grid, width: int, height: int, c: Cell, d: (int, int))
    requires IsGrid(g, width, height)
  {
    var n := Beyond(c, d);
    InBounds(width, height, n.0, n.1) && g[n.1][n.0] == Wall
  }

  /** Connectivity survives adding cells. */
  lemma ConnectedGrows(s: set<Cell>, t: set<Cell>, a: Cell, b: Cell)
    requires s <= t && Connected(s, a, b)
    ensures Connected(t, a, b)
  {
    var p :| IsWalk(s, p) && |p| >= 1 && p[0] == a && p[|p| - 1] == b;
    assert IsWalk(t, p);
  }

  /**
   * A set of rooms that holds (0, 0) and, with each of its members, every
   * in-bounds room two steps away holds every in-bounds room.
   */
  lemma {:induction false} RoomsReached(visited: set<Cell>, width: int, height: int, x: int, y: int)
    requires (0, 0) in visited
    requires forall c {:trigger Finished(visited, c, width, height)} | c in visited :: Finished(visited, c, width, height)
    requires InBounds(width, height, x, y) && IsEven(x) && IsEven(y)
    ensures (x, y) in visited
    decreases x + y
  {
    if x > 0 {
      RoomsReached(visited, width, height, x - 2, y);
      assert Finished(visited, (x - 2, y), width, height);
      assert (1, 0) in DIRS && Beyond((x - 2, y), (1, 0)) == (x, y);
    } else if y > 0 {
      RoomsReached(visited, width, height, x, y - 2);
      assert Finished(visited, (x, y - 2), width, height);
      assert (0, 1) in DIRS && Beyond((x, y - 2), (0, 1)) == (x, y);
    }
  }

  /** The open tiles of `maze` are exactly the cells of `carved`, all inside the grid. */
  ghost predicate Mirrors(maze: Grid, width: int, height: int, carved: set<Cell>) {
    IsGrid(maze, width, height) &&
    (forall c | c in carved :: InBounds(width, height, c.0, c.1)) &&
    (forall x, y {:trigger maze[y][x]} | InBounds(width, height, x, y) :: maze[y][x] == Open <==> (x, y) in carved)
  }

  /** A cell with an odd coordinate lies between two visited rooms along that axis. */
  ghost predicate Flanked(visited: set<Cell>, c: Cell) {
    (!IsEven(c.0) ==> (c.0 - 1, c.1) in visited && (c.0 + 1, c.1) in visited) &&
    (!IsEven(c.1) ==> (c.0, c.1 - 1) in visited && (c.0, c.1 + 1) in visited)
  }

  /**
   * The carved cells are the visited rooms plus connectors: a connector has
   * exactly one odd coordinate and lies between two visited rooms.
   */
  ghost predicate RoomsAndConnectors(carved: set<Cell>, visited: set<Cell>) {
    (forall c | c in carved :: IsEven(c.0) || IsEven(c.1)) &&
    (forall c {:trigger Flanked(visited, c)} | c in carved :: Flanked(visited, c)) &&
    (forall c | c in carved && IsRoom(c) :: c in visited) &&
    (forall c | c in visited :: c in carved && IsRoom(c)) &&
    (0, 0) in visited
  }

  /** Every carved cell is connected to the start through carved cells. */
  ghost predicate Linked(carved: set<Cell>) {
    forall c {:trigger Connected(carved, (0, 0), c)} | c in carved :: Connected(carved, (0, 0), c)
  }

  /** No room two steps from `c` inside the grid is left unvisited. */
  ghost predicate Finished(visited: set<Cell>, c: Cell, width: int, height: int) {
    forall d | d in DIRS && InBounds(width, height, Beyond(c, d).0, Beyond(c, d).1) :: Beyond(c, d) in visited
  }

  /**
   * The backtracking stack holds visited rooms; every visited room is still
   * on the stack or done, and a done room is finished.
   */
  ghost predicate Backtracking(stack: seq<Cell>, visited: set<Cell>, done: set<Cell>, width: int, height: int) {
    (forall i | 0 <= i < |stack| :: stack[i] in visited) &&
    done <= visited &&
    (forall c | c in visited :: c in done || c in stack) &&
    (forall c {:trigger Finished(visited, c, width, height)} | c in done :: Finished(visited, c, width, height))
  }

  /** Opening (0, 0) in a grid of walls, with (0, 0) alone on the stack, establishes the invariant. */
  lemma StartCarving(width: int, height: int)
    requires width >= 1 && height >= 1
    ensures CarvingInvariant(SetTile(AllWalls(width, height), 0, 0, Open), width, height, [(0, 0)], {(0, 0)}, {(0, 0)}, {})
  {
    assert Flanked({(0, 0)}, (0, 0));
    assert IsWalk({(0, 0)}, [(0, 0)]);
    assert Connected({(0, 0)}, (0, 0), (0, 0));
    assert (0, 0) in RoomCells(width, height);
    PackInvariant(SetTile(AllWalls(width, height), 0, 0, Open), width, height, [(0, 0)], {(0, 0)}, {(0, 0)}, {});
  }

  /** One carve from the room `top` towards `d`: the connector and the room are in bounds and still walls. */
  lemma CarveTargets(maze: Grid, width: int, height: int, carved: set<Cell>, visited: set<Cell>, top: Cell, d: (int, int))
    requires Mirrors(maze, width, height, carved) && RoomsAndConnectors(carved, visited)
    requires top in visited && d in DIRS && CanCarve(maze, width, height, top, d)
    ensures InBounds(width, height, Between(top, d).0, Between(top, d).1)
    ensures IsRoom(Beyond(top, d)) && !IsRoom(Between(top, d))
    ensures Beyond(top, d) !in carved && Between(top, d) !in carved
    ensures Beyond(top, d) in RoomCells(width, height) - visited
  {
    var mid, dest := Between(top, d), Beyond(top, d);
    assert dest !in carved;
    assert dest !in visited;
    assert mid in carved ==> Flanked(visited, mid);
  }

  /** Opening the connector and the room towards (dx, dy) from (x, y) keeps the open tiles mirrored by the carved set. */
  lemma CarveMirrors(maze: Grid, width: int, height: int, carved: set<Cell>, x: int, y: int, dx: int, dy: int)
    requires Mirrors(maze, width, height, carved)
    requires InBounds(width, height, x + dx, y + dy) && InBounds(width, height, x + 2 * dx, y + 2 * dy)
    ensures Mirrors(SetTile(SetTile(maze, x + dx, y + dy, Open), x + 2 * dx, y + 2 * dy, Open), width, height,
                    carved + {(x + dx, y + dy), (x + 2 * dx, y + 2 * dy)})
  {
  }

  /** The connector between a room and the room two steps away is flanked by exactly those two. */
  lemma ConnectorFlanked(top: Cell, d: (int, int), visited: set<Cell>)
    requires IsRoom(top) && d in DIRS && top in visited && Beyond(top, d) in visited
    ensures Flanked(visited, Between(top, d))
    ensures IsRoom(Beyond(top, d)) && !IsRoom(Between(top, d))
  {
    if d == (0, 1) || d == (0, -1) {
      assert IsEven(Between(top, d).0) && !IsEven(Between(top, d).1);
    } else {
      assert !IsEven(Between(top, d).0) && IsEven(Between(top, d).1);
    }
  }

  /** Carving adds one room and one connector, keeping the shape and the count 2 * rooms - 1. */
  lemma CarveShape(maze: Grid, width: int, height: int, carved: set<Cell>, visited: set<Cell>, top: Cell, d: (int, int))
    requires Mirrors(maze, width, height, carved) && RoomsAndConnectors(carved, visited)
    requires |carved| == 2 * |visited| - 1
    requires top in visited && d in DIRS && CanCarve(maze, width, height, top, d)
    ensures RoomsAndConnectors(carved + {Between(top, d), Beyond(top, d)}, visited + {Beyond(top, d)})
    ensures |carved + {Between(top, d), Beyond(top, d)}| == 2 * |visited + {Beyond(top, d)}| - 1
  {
    CarveTargets(maze, width, height, carved, visited, top, d);
    var mid, dest := Between(top, d), Beyond(top, d);
    var carved', visited' := carved + {mid, dest}, visited + {dest};
    assert carved' == (carved + {mid}) + {dest};
    forall c | c in carved'
      ensures Flanked(visited', c)
    {
      if c in carved {
        assert Flanked(visited, c);
      } else if c == mid {
        ConnectorFlanked(top, d, visited');
      }
    }
  }

  /** Carving keeps every carved cell connected to the start. */
  lemma CarveLinked(carved: set<Cell>, top: Cell, d: (int, int))
    requires Linked(carved) && top in carved && d in DIRS
    ensures Linked(carved + {Between(top, d), Beyond(top, d)})
  {
    var mid, dest := Between(top, d), Beyond(top, d);
    var after := carved + {mid, dest};
    assert Connected(carved, (0, 0), top);
    var p :| IsWalk(carved, p) && |p| >= 1 && p[0] == (0, 0) && p[|p| - 1] == top;
    assert IsWalk(after, p + [mid]);
    assert IsWalk(after, p + [mid, dest]);
    forall c | c in after
      ensures Connected(after, (0, 0), c)
    {
      if c in carved {
        ConnectedGrows(carved, after, (0, 0), c);
      } else if c == mid {
        assert (p + [mid])[|p + [mid]| - 1] == mid;
      } else {
        assert (p + [mid, dest])[|p + [mid, dest]| - 1] == dest;
      }
    }
  }

  /** Pushing a freshly carved room keeps the backtracking invariant. */
  lemma Advance(stack: seq<Cell>, visited: set<Cell>, done: set<Cell>, width: int, height: int, dest: Cell)
    requires Backtracking(stack, visited, done, width, height)
    ensures Backtracking(stack + [dest], visited + {dest}, done, width, height)
  {
    forall c | c in done
      ensures Finished(visited + {dest}, c, width, height)
    {
      assert Finished(visited, c, width, height);
    }
  }

  /** Popping a room with nothing left to carve around it marks it done. */
  lemma Backtrack(maze: Grid, width: int, height: int, carved: set<Cell>, visited: set<Cell>,
                  stack: seq<Cell>, done: set<Cell>)
    requires Mirrors(maze, width, height, carved) && RoomsAndConnectors(carved, visited)
    requires Backtracking(stack, visited, done, width, height) && stack != []
    requires forall d | d in DIRS :: !CanCarve(maze, width, height, stack[|stack| - 1], d)
    ensures Backtracking(stack[..|stack| - 1], visited, done + {stack[|stack| - 1]}, width, height)
  {
    var top := stack[|stack| - 1];
    assert stack == stack[..|stack| - 1] + [top];
    forall d | d in DIRS && InBounds(width, height, Beyond(top, d).0, Beyond(top, d).1)
      ensures Beyond(top, d) in visited
    {
      assert !CanCarve(maze, width, height, top, d);
    }
    assert Finished(visited, top, width, height);
    forall c | c in done + {top}
      ensures Finished(visited, c, width, height)
    {
      if c in done {
        assert Finished(visited, c, width, height);
      }
    }
  }

  /** Once the stack is empty every visited room is finished, so every room was visited. */
  lemma AllRoomsVisited(visited: set<Cell>, done: set<Cell>, width: int, height: int)
    requires Backtracking([], visited, done, width, height) && (0, 0) in visited
    ensures forall x, y | InBounds(width, height, x, y) && IsEven(x) && IsEven(y) :: (x, y) in visited
  {
    forall c | c in visited
      ensures Finished(visited, c, width, height)
    {
      assert c in done;
    }
    forall x, y | InBounds(width, height, x, y) && IsEven(x) && IsEven(y)
      ensures (x, y) in visited
    {
      RoomsReached(visited, width, height, x, y);
    }
  }

  /** Everything the carving loop keeps, for a given grid, stack and ghost bookkeeping. */
  ghost predicate CarvingFacts(maze: Grid, width: int, height: int, stack: seq<Cell>,
                               carved: set<Cell>, visited: set<Cell>, done: set<Cell>) {
    Mirrors(maze, width, height, carved) &&
    RoomsAndConnectors(carved, visited) &&
    |carved| == 2 * |visited| - 1 &&
    Linked(carved) &&
    Backtracking(stack, visited, done, width, height) &&
    visited <= RoomCells(width, height)
  }

  /**
   * Always true; the trigger that releases the facts of `CarvingInvariant`. The solver
   * sees those facts only in a proof that calls `OpenInvariant`, so the carving loop
   * and the steps that only pass the invariant on handle it as a single fact.
   */
  ghost predicate Unfolded(k: int) {
    true
  }

  /** The carving loop's invariant: `CarvingFacts`, released on demand by `OpenInvariant`. */
  ghost predicate CarvingInvariant(maze: Grid, width: int, height: int, stack: seq<Cell>,
                                   carved: set<Cell>, visited: set<Cell>, done: set<Cell>) {
    forall k {:trigger Unfolded(k)} | Unfolded(k) :: CarvingFacts(maze, width, height, stack, carved, visited, done)
  }

  /** The folded invariant gives its facts. */
  lemma OpenInvariant(maze: Grid, width: int, height: int, stack: seq<Cell>,
                      carved: set<Cell>, visited: set<Cell>, done: set<Cell>)
    requires CarvingInvariant(maze, width, height, stack, carved, visited, done)
    ensures CarvingFacts(maze, width, height, stack, carved, visited, done)
  {
    assert Unfolded(0);
  }

  /** The facts fold back into the invariant. */
  lemma PackInvariant(maze: Grid, width: int, height: int, stack: seq<Cell>,
                      carved: set<Cell>, visited: set<Cell>, done: set<Cell>)
    requires CarvingFacts(maze, width, height, stack, carved, visited, done)
    ensures CarvingInvariant(maze, width, height, stack, carved, visited, done)
  {
  }

  /**
   * `CarveTargets` and `CarveMirrors` restated for the carving loop: from the folded
   * invariant and the stack top (x, y), carving opens the connector and the room, both
   * in bounds, mirrored by the carved set.
   */
  lemma StepMirrors(maze: Grid, width: int, height: int, stack: seq<Cell>, carved: set<Cell>, visited: set<Cell>,
                    done: set<Cell>, x: int, y: int, dx: int, dy: int)
    requires IsGrid(maze, width, height) && CarvingInvariant(maze, width, height, stack, carved, visited, done)
    requires stack != [] && stack[|stack| - 1] == (x, y)
    requires (dx, dy) in DIRS && CanCarve(maze, width, height, (x, y), (dx, dy))
    ensures InBounds(width, height, x + dx, y + dy) && InBounds(width, height, x + 2 * dx, y + 2 * dy)
    ensures Mirrors(SetTile(SetTile(maze, x + dx, y + dy, Open), x + 2 * dx, y + 2 * dy, Open), width, height,
                    carved + {(x + dx, y + dy), (x + 2 * dx, y + 2 * dy)})
  {
    OpenInvariant(maze, width, height, stack, carved, visited, done);
    var top, d := (x, y), (dx, dy);
    assert top in visited;
    assert Between(top, d) == (x + dx, y + dy) && Beyond(top, d) == (x + 2 * dx, y + 2 * dy);
    CarveTargets(maze, width, height, carved, visited, top, d);
    CarveMirrors(maze, width, height, carved, x, y, dx, dy);
  }

  /**
   * `CarveShape` restated for the carving loop: carving from the stack top keeps rooms
   * and connectors apart and the count 2 * rooms - 1.
   */
  lemma StepShape(maze: Grid, width: int, height: int, stack: seq<Cell>, carved: set<Cell>, visited: set<Cell>,
                  done: set<Cell>, x: int, y: int, dx: int, dy: int)
    requires IsGrid(maze, width, height) && CarvingInvariant(maze, width, height, stack, carved, visited, done)
    requires stack != [] && stack[|stack| - 1] == (x, y)
    requires (dx, dy) in DIRS && CanCarve(maze, width, height, (x, y), (dx, dy))
    ensures RoomsAndConnectors(carved + {(x + dx, y + dy), (x + 2 * dx, y + 2 * dy)}, visited + {(x + 2 * dx, y + 2 * dy)})
    ensures |carved + {(x + dx, y + dy), (x + 2 * dx, y + 2 * dy)}| == 2 * |visited + {(x + 2 * dx, y + 2 * dy)}| - 1
  {
    OpenInvariant(maze, width, height, stack, carved, visited, done);
    var top, d := (x, y), (dx, dy);
    assert top in visited;
    assert Between(top, d) == (x + dx, y + dy) && Beyond(top, d) == (x + 2 * dx, y + 2 * dy);
    CarveShape(maze, width, height, carved, visited, top, d);
  }

  /** `CarveLinked` restated for the carving loop: carving from the stack top keeps every carved cell connected to the start. */
  lemma StepLinked(maze: Grid, width: int, height: int, stack: seq<Cell>, carved: set<Cell>, visited: set<Cell>,
                   done: set<Cell>, x: int, y: int, dx: int, dy: int)
    requires IsGrid(maze, width, height) && CarvingInvariant(maze, width, height, stack, carved, visited, done)
    requires stack != [] && stack[|stack| - 1] == (x, y)
    requires (dx, dy) in DIRS
    ensures Linked(carved + {(x + dx, y + dy), (x + 2 * dx, y + 2 * dy)})
  {
    OpenInvariant(maze, width, height, stack, carved, visited, done);
    var top, d := (x, y), (dx, dy);
    assert top in visited;
    assert Between(top, d) == (x + dx, y + dy) && Beyond(top, d) == (x + 2 * dx, y + 2 * dy);
    CarveLinked(carved, top, d);
  }

  /**
   * `Advance` restated for the carving loop: pushing the freshly carved room keeps the
   * backtracking facts and visits a room not visited before.
   */
  lemma StepBacktracking(maze: Grid, width: int, height: int, stack: seq<Cell>, carved: set<Cell>, visited: set<Cell>,
                         done: set<Cell>, x: int, y: int, dx: int, dy: int)
    requires IsGrid(maze, width, height) && CarvingInvariant(maze, width, height, stack, carved, visited, done)
    requires stack != [] && stack[|stack| - 1] == (x, y)
    requires (dx, dy) in DIRS && CanCarve(maze, width, height, (x, y), (dx, dy))
    ensures Backtracking(stack + [(x + 2 * dx, y + 2 * dy)], visited + {(x + 2 * dx, y + 2 * dy)}, done, width, height)
    ensures visited + {(x + 2 * dx, y + 2 * dy)} <= RoomCells(width, height)
    ensures RoomCells(width, height) - (visited + {(x + 2 * dx, y + 2 * dy)}) < RoomCells(width, height) - visited
  {
    OpenInvariant(maze, width, height, stack, carved, visited, done);
    var top, d := (x, y), (dx, dy);
    assert top in visited;
    assert Beyond(top, d) == (x + 2 * dx, y + 2 * dy);
    CarveTargets(maze, width, height, carved, visited, top, d);
    Advance(stack, visited, done, width, height, (x + 2 * dx, y + 2 * dy));
  }

  /** One carve from the top of the stack towards (dx, dy) keeps the invariant and visits a new room. */
  lemma CarveStep(maze: Grid, width: int, height: int, stack: seq<Cell>, carved: set<Cell>, visited: set<Cell>,
                  done: set<Cell>, x: int, y: int, dx: int, dy: int)
    requires IsGrid(maze, width, height) && CarvingInvariant(maze, width, height, stack, carved, visited, done)
    requires stack != [] && stack[|stack| - 1] == (x, y)
    requires (dx, dy) in DIRS && CanCarve(maze, width, height, (x, y), (dx, dy))
    ensures InBounds(width, height, x + dx, y + dy) && InBounds(width, height, x + 2 * dx, y + 2 * dy)
    ensures CarvingInvariant(SetTile(SetTile(maze, x + dx, y + dy, Open), x + 2 * dx, y + 2 * dy, Open), width, height,
                             stack + [(x + 2 * dx, y + 2 * dy)], carved + {(x + dx, y + dy), (x + 2 * dx, y + 2 * dy)},
                             visited + {(x + 2 * dx, y + 2 * dy)}, done)
    ensures RoomCells(width, height) - (visited + {(x + 2 * dx, y + 2 * dy)}) < RoomCells(width, height) - visited
  {
    StepMirrors(maze, width, height, stack, carved, visited, done, x, y, dx, dy);
    StepShape(maze, width, height, stack, carved, visited, done, x, y, dx, dy);
    StepLinked(maze, width, height, stack, carved, visited, done, x, y, dx, dy);
    StepBacktracking(maze, width, height, stack, carved, visited, done, x, y, dx, dy);
    PackInvariant(SetTile(SetTile(maze, x + dx, y + dy, Open), x + 2 * dx, y + 2 * dy, Open), width, height,
                  stack + [(x + 2 * dx, y + 2 * dy)], carved + {(x + dx, y + dy), (x + 2 * dx, y + 2 * dy)},
                  visited + {(x + 2 * dx, y + 2 * dy)}, done);
  }

  /** Popping a room with nothing left to carve around it keeps the invariant. */
  lemma BacktrackStep(maze: Grid, width: int, height: int, stack: seq<Cell>, carved: set<Cell>, visited: set<Cell>,
                      done: set<Cell>)
    requires IsGrid(maze, width, height) && CarvingInvariant(maze, width, height, stack, carved, visited, done)
    requires stack != [] && forall d | d in DIRS :: !CanCarve(maze, width, height, stack[|stack| - 1], d)
    ensures CarvingInvariant(maze, width, height, stack[..|stack| - 1], carved, visited, done + {stack[|stack| - 1]})
  {
    OpenInvariant(maze, width, height, stack, carved, visited, done);
    Backtrack(maze, width, height, carved, visited, stack, done);
    PackInvariant(maze, width, height, stack[..|stack| - 1], carved, visited, done + {stack[|stack| - 1]});
  }

  /** When the stack is empty the maze is complete: the facts the carver promises. */
  lemma CarvingComplete(maze: Grid, width: int, height: int, carved: set<Cell>, visited: set<Cell>, done: set<Cell>)
    requires width >= 1 && height >= 1 && IsGrid(maze, width, height)
    requires CarvingInvariant(maze, width, height, [], carved, visited, done)
    ensures maze[0][0] == Open
    ensures RoomsOpen(maze, width, height)
    ensures forall x, y | InBounds(width, height, x, y) && !IsEven(x) && !IsEven(y) :: maze[y][x] == Wall
    ensures |OpenCells(maze, width, height)| == 2 * |RoomCells(width, height)| - 1
    ensures forall c | c in OpenCells(maze, width, height) :: Connected(OpenCells(maze, width, height), (0, 0), c)
  {
    OpenInvariant(maze, width, height, [], carved, visited, done);
    AllRoomsVisited(visited, done, width, height);
    assert OpenCells(maze, width, height) == carved;
    assert RoomCells(width, height) == visited;
  }
}
