/** Values shared by the maze engine: optional results, the 0/1 grid, cells, directions. */
module Wrappers {
  datatype Option<+T> = None | Some(value: T)
}

module Grid {
  /** A grid cell: the source stores 0 for an open cell and 1 for a wall. */
  datatype Tile = Open | Wall

  /** A coordinate pair (x, y): x is the column, y the row. */
  type Cell = (int, int)

  /** A maze is a list of rows, read as maze[y][x]. */
  type Grid = seq<seq<Tile>>

  /** The four unit steps used by the carver, in the source's order. */
  const DIRS: seq<(int, int)> := [(0, 1), (1, 0), (0, -1), (-1, 0)]

  /** `height` rows of `width` tiles each. */
  predicate IsGrid(g: Grid, width: int, height: int) {
    |g| == height && forall y | 0 <= y < height :: |g[y]| == width
  }

  predicate InBounds(width: int, height: int, x: int, y: int) {
    0 <= x < width && 0 <= y < height
  }

  predicate IsEven(n: int) {
    n % 2 == 0
  }

  /** Both coordinates even: the cells the carver visits and pushes. */
  predicate IsRoom(c: Cell) {
    IsEven(c.0) && IsEven(c.1)
  }

  /** The cell is inside the grid and open. */
  predicate OpenAt(g: Grid, width: int, height: int, x: int, y: int)
    requires IsGrid(g, width, height)
  {
    InBounds(width, height, x, y) && g[y][x] == Open
  }

  /** A grid of walls only (`[[1] * width for _ in range(height)]`). */
  function AllWalls(width: nat, height: nat): (g: Grid)
    ensures IsGrid(g, width, height)
    ensures forall x, y | InBounds(width, height, x, y) :: g[y][x] == Wall
  {
    seq(height, _ => seq(width, _ => Wall))
  }

  /** The grid with the single tile at (x, y) replaced by `t`. */
  function SetTile(g: Grid, x: int, y: int, t: Tile): (r: Grid)
    requires 0 <= y < |g| && 0 <= x < |g[y]|
    ensures |r| == |g|
    ensures forall j | 0 <= j < |g| :: |r[j]| == |g[j]|
    ensures forall i, j | 0 <= j < |g| && 0 <= i < |g[j]| :: r[j][i] == if i == x && j == y then t else g[j][i]
  {
    g[y := g[y][x := t]]
  }

  /** The set of open cells of a grid. */
  ghost function OpenCells(g: Grid, width: int, height: int): set<Cell>
    requires IsGrid(g, width, height)
  {
    set x, y | 0 <= x < width && 0 <= y < height && g[y][x] == Open :: (x, y)
  }

  /** The in-bounds cells with both coordinates even. */
  ghost function RoomCells(width: int, height: int): set<Cell> {
    set x, y | 0 <= x < width && 0 <= y < height && IsEven(x) && IsEven(y) :: (x, y)
  }

  /** Every in-bounds cell with both coordinates even is open. */
  ghost predicate RoomsOpen(g: Grid, width: int, height: int)
    requires IsGrid(g, width, height)
  {
    forall x, y | InBounds(width, height, x, y) && IsEven(x) && IsEven(y) :: g[y][x] == Open
  }

  /** Cells that differ by one step along one axis. */
  predicate Adjacent(a: Cell, b: Cell) {
    (a.0 == b.0 && (a.1 - b.1 == 1 || b.1 - a.1 == 1)) ||
    (a.1 == b.1 && (a.0 - b.0 == 1 || b.0 - a.0 == 1))
  }

  /** A walk through cells of `s`, each step to a 4-neighbour. */
  ghost predicate IsWalk(s: set<Cell>, p: seq<Cell>) {
    (forall i | 0 <= i < |p| :: p[i] in s) &&
    (forall i | 0 <= i < |p| - 1 :: Adjacent(p[i], p[i + 1]))
  }

  /** Some walk through `s` leads from `a` to `b`. */
  ghost predicate Connected(s: set<Cell>, a: Cell, b: Cell) {
    exists p: seq<Cell> :: IsWalk(s, p) && |p| >= 1 && p[0] == a && p[|p| - 1] == b
  }
}
