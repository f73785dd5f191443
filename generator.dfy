/**
 * The maze carver: a randomized depth-first backtracker with an explicit stack.
 * The random choice among the carvable directions is a nondeterministic choice.
 */
module MazeGenerator {
  import opened Grid
  import opened MazeCarving

  /** The directions of `ds` towards a carvable room, in the order of `ds`. */
  function Candidates(g: Grid, width: int, height: int, c: Cell, ds: seq<(int, int)>): (r: seq<(int, int)>)
    requires IsGrid(g, width, height)
    ensures |r| <= |ds|
    ensures forall i | 0 <= i < |r| :: r[i] in ds && CanCarve(g, width, height, c, r[i])
  {
    if ds == [] then []
    else
      var rest := Candidates(g, width, height, c, ds[..|ds| - 1]);
      if CanCarve(g, width, height, c, ds[|ds| - 1]) then rest + [ds[|ds| - 1]] else rest
  }

  /** A direction is a candidate exactly when it is listed and its room can be carved. */
  lemma {:induction false} CandidatesExact(g: Grid, width: int, height: int, c: Cell, ds: seq<(int, int)>)
    requires IsGrid(g, width, height)
    ensures forall d :: d in Candidates(g, width, height, c, ds) <==> d in ds && CanCarve(g, width, height, c, d)
  {
    if ds != [] {
      CandidatesExact(g, width, height, c, ds[..|ds| - 1]);
      assert ds == ds[..|ds| - 1] + [ds[|ds| - 1]];
    }
  }

  /** The neighbour scan of one carving step: the directions whose room is in bounds and a wall. */
  method CarveCandidates(g: Grid, width: int, height: int, c: Cell) returns (neighbors: seq<(int, int)>)
    requires IsGrid(g, width, height)
    ensures neighbors == Candidates(g, width, height, c, DIRS)
    ensures forall d :: d in neighbors <==> d in DIRS && CanCarve(g, width, height, c, d)
  {
    neighbors := [];
    for i := 0 to |DIRS|
      invariant neighbors == Candidates(g, width, height, c, DIRS[..i])
    {
      var (dx, dy) := DIRS[i];
      var nx, ny := c.0 + 2 * dx, c.1 + 2 * dy;
      if 0 <= nx < width && 0 <= ny < height && g[ny][nx] == Wall {
        neighbors := neighbors + [(dx, dy)];
      }
      assert DIRS[..i + 1][..i] == DIRS[..i];
    }
    assert DIRS[..|DIRS|] == DIRS;
    CandidatesExact(g, width, height, c, DIRS);
  }

  /**
   * Carves a perfect maze: every room is open, no cell with two odd
   * coordinates is, the open cells number 2 * rooms - 1 (rooms plus one
   * connector per tree edge), and every open cell is connected to (0, 0).
   */
  method GenerateMaze(width: int, height: int) returns (maze: Grid)
    requires width >= 1 && height >= 1
    ensures IsGrid(maze, width, height)
    ensures maze[0][0] == Open
    ensures RoomsOpen(maze, width, height)
    ensures forall x, y | InBounds(width, height, x, y) && !IsEven(x) && !IsEven(y) :: maze[y][x] == Wall
    ensures |OpenCells(maze, width, height)| == 2 * |RoomCells(width, height)| - 1
    ensures forall c | c in OpenCells(maze, width, height) :: Connected(OpenCells(maze, width, height), (0, 0), c)
  {
    maze := AllWalls(width, height);
    var stack: seq<Cell> := [(0, 0)];
    maze := SetTile(maze, 0, 0, Open);
    // carved mirrors the open tiles, visited holds the rooms ever pushed,
    // done the rooms popped once no wall room was left around them.
    ghost var carved: set<Cell> := {(0, 0)};
    ghost var visited: set<Cell> := {(0, 0)};
    ghost var done: set<Cell> := {};
    StartCarving(width, height);
    while stack != []
      invariant IsGrid(maze, width, height)
      invariant CarvingInvariant(maze, width, height, stack, carved, visited, done)
      decreases RoomCells(width, height) - visited, |stack|
    {
      var (x, y) := stack[|stack| - 1];
      var neighbors := CarveCandidates(maze, width, height, (x, y));
      if neighbors != [] {
        assert neighbors[0] in neighbors;
        var d :| d in neighbors;
        var (dx, dy) := d;
        CarveStep(maze, width, height, stack, carved, visited, done, x, y, dx, dy);
        maze := SetTile(maze, x + dx, y + dy, Open);
        maze := SetTile(maze, x + 2 * dx, y + 2 * dy, Open);
        stack := stack + [(x + 2 * dx, y + 2 * dy)];
        carved := carved + {(x + dx, y + dy), (x + 2 * dx, y + 2 * dy)};
        visited := visited + {(x + 2 * dx, y + 2 * dy)};
      } else {
        BacktrackStep(maze, width, height, stack, carved, visited, done);
        stack := stack[..|stack| - 1];
        done := done + {(x, y)};
      }
    }
    CarvingComplete(maze, width, height, carved, visited, done);
  }
}
