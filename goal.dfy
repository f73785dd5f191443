/**
 * Goal placement: rejection sampling over random cells until one is open, is not the
 * start and lies at least `minDistance` steps (Manhattan) from the start.
 * The random draws are supplied as a finite sequence of samples; running out of
 * samples yields `None`.
 */
module GoalPlacer {
  import opened Wrappers
  import opened Grid
  import opened Config

  function Abs(n: int): int {
    if n < 0 then -n else n
  }

  /** Manhattan distance of cell (x, y) from the start (0, 0). */
  function DistanceFromStart(x: int, y: int): (d: int)
    ensures d >= 0
    ensures x >= 0 && y >= 0 ==> d == x + y
  {
    Abs(x - 0) + Abs(y - 0)
  }

  /** A cell `generate_goal` accepts: inside the maze, open, not the start, and far enough. */
  predicate IsGoal(maze: Grid, minDistance: int, c: Cell)
    requires |maze| >= 1 && IsGrid(maze, |maze[0]|, |maze|)
  {
    InBounds(|maze[0]|, |maze|, c.0, c.1) &&
    maze[c.1][c.0] == Open &&
    c != (0, 0) &&
    DistanceFromStart(c.0, c.1) >= minDistance
  }

  /** A sample the source's `randint` calls can produce: both coordinates inside the maze. */
  predicate SamplesInRange(maze: Grid, samples: seq<Cell>)
    requires |maze| >= 1
  {
    forall i | 0 <= i < |samples| :: InBounds(|maze[0]|, |maze|, samples[i].0, samples[i].1)
  }

  /**
   * Draw samples in order and return the first that is accepted. The result is the
   * first accepted sample when there is one, and `None` exactly when no sample is.
   */
  method GenerateGoal(maze: Grid, minDistance: int, samples: seq<Cell>) returns (goal: Option<Cell>)
    requires |maze| >= 1 && |maze[0]| >= 1 && IsGrid(maze, |maze[0]|, |maze|)
    requires SamplesInRange(maze, samples)
    ensures goal.Some? ==> IsGoal(maze, minDistance, goal.value)
    ensures goal.Some? ==>
      exists i | 0 <= i < |samples| ::
        samples[i] == goal.value && forall j | 0 <= j < i :: !IsGoal(maze, minDistance, samples[j])
    ensures goal.None? <==> forall i | 0 <= i < |samples| :: !IsGoal(maze, minDistance, samples[i])
  {
    var i := 0;
    while i < |samples|
      invariant 0 <= i <= |samples|
      invariant forall j | 0 <= j < i :: !IsGoal(maze, minDistance, samples[j])
    {
      var (goalX, goalY) := samples[i];
      if maze[goalY][goalX] == Open && (goalX, goalY) != (0, 0) {
        var distance := Abs(goalX - 0) + Abs(goalY - 0);
        if distance >= minDistance {
          return Some((goalX, goalY));
        }
      }
      i := i + 1;
    }
    return None;
  }

  /** The last even index below `n`: the far coordinate of the last room on an axis of length `n`. */
  function LastRoom(n: int): (r: int)
    requires n >= 1
    ensures 0 <= r < n && r % 2 == 0 && n - 2 <= r
  {
    if (n - 1) % 2 == 0 then n - 1 else n - 2
  }

  /**
   * When every room is open, the last room (the even cell farthest from the start) is
   * a goal for any `minDistance` up to its distance, provided it is not the start.
   */
  lemma FarRoomIsGoal(maze: Grid, width: int, height: int, minDistance: int)
    requires width >= 1 && height >= 1 && IsGrid(maze, width, height)
    requires RoomsOpen(maze, width, height)
    requires (LastRoom(width), LastRoom(height)) != (0, 0)
    requires minDistance <= LastRoom(width) + LastRoom(height)
    ensures IsGoal(maze, minDistance, (LastRoom(width), LastRoom(height)))
  {
    var x, y := LastRoom(width), LastRoom(height);
    assert InBounds(width, height, x, y) && IsEven(x) && IsEven(y);
  }

  /**
   * No cell of a `width` by `height` maze is a goal once `minDistance` exceeds the
   * largest distance inside it; the source's sampling loop then never returns.
   */
  lemma NoGoalBeyondDiameter(maze: Grid, minDistance: int, c: Cell)
    requires |maze| >= 1 && IsGrid(maze, |maze[0]|, |maze|)
    requires minDistance > |maze[0]| - 1 + |maze| - 1
    ensures !IsGoal(maze, minDistance, c)
  {
  }

  /**
   * Every difficulty preset admits a goal in every maze the carver produces for it:
   * its last room is open, is not the start and is at least `minDistance` away.
   */
  lemma PresetHasGoal(difficulty: string, maze: Grid)
    requires difficulty in DIFFICULTY_SETTINGS
    requires IsGrid(maze, DIFFICULTY_SETTINGS[difficulty].mazeWidth, DIFFICULTY_SETTINGS[difficulty].mazeHeight)
    requires RoomsOpen(maze, DIFFICULTY_SETTINGS[difficulty].mazeWidth, DIFFICULTY_SETTINGS[difficulty].mazeHeight)
    ensures exists c :: IsGoal(maze, DIFFICULTY_SETTINGS[difficulty].minDistance, c)
  {
    var s := DIFFICULTY_SETTINGS[difficulty];
    assert s.mazeWidth >= 20 && s.mazeHeight >= 15 && s.minDistance <= 15 by {
      assert difficulty == "easy" || difficulty == "medium" || difficulty == "hard";
    }
    FarRoomIsGoal(maze, s.mazeWidth, s.mazeHeight, s.minDistance);
  }
}
