/**
 * One game session: the per-tick step of the game loop. It handles the tick's events
 * (pause toggle, restart, quit), chooses a move from the held keys, advances the move
 * animation, computes the remaining time, and checks for a win and then for a timeout.
 * Positions are exact reals; the wall clock is an input (`elapsed` seconds).
 */
module Session {
  import opened Wrappers
  import opened Grid
  import opened Config
  import opened GoalPlacer
  import opened MazeGenerator

  /** Python's `int()` on a float: truncation toward zero. */
  function Trunc(r: real): (n: int)
    ensures r >= 0.0 ==> n >= 0 && n as real <= r < n as real + 1.0
    ensures r < 0.0 ==> n <= 0 && r <= n as real < r + 1.0
  {
    if r >= 0.0 then r.Floor else -((-r).Floor)
  }

  function Min(a: real, b: real): real {
    if a <= b then a else b
  }

  /** The progress a move gains per tick: animation speed over frame rate. */
  const STEP: real := ANIMATION_SPEED as real / FPS as real

  /** The movement keys held this tick; each covers an arrow key and its WASD twin. */
  datatype Held = Held(left: bool, right: bool, up: bool, down: bool)

  const NO_KEYS := Held(false, false, false, false)

  /** The player's drawn position, the cell it is moving to, and the move's progress. */
  datatype Motion = Motion(x: real, y: real, targetX: real, targetY: real, progress: real)

  /** The state at the start of a game: standing on (0, 0), no move under way. */
  const START := Motion(0.0, 0.0, 0.0, 0.0, 1.0)

  predicate IsWhole(r: real) {
    r.Floor as real == r
  }

  /**
   * The states a session passes through. Either the player stands on its target, a whole
   * in-bounds cell, with progress 1; or it is halfway (progress one step) from a whole
   * in-bounds origin cell to a different target cell at most one column and one row away.
   */
  predicate MotionOk(width: int, height: int, m: Motion) {
    IsWhole(m.targetX) && IsWhole(m.targetY) &&
    InBounds(width, height, m.targetX.Floor, m.targetY.Floor) &&
    if m.progress == 1.0 then
      m.x == m.targetX && m.y == m.targetY
    else
      var originX, originY := 2.0 * m.x - m.targetX, 2.0 * m.y - m.targetY;
      m.progress == STEP &&
      IsWhole(originX) && IsWhole(originY) &&
      InBounds(width, height, originX.Floor, originY.Floor) &&
      -1.0 <= m.targetX - originX <= 1.0 && -1.0 <= m.targetY - originY <= 1.0 &&
      (originX, originY) != (m.targetX, m.targetY)
  }

  /** The player's cell, as the source truncates the drawn position, always lies inside the maze. */
  lemma PlayerCellInBounds(width: int, height: int, m: Motion)
    requires MotionOk(width, height, m)
    ensures InBounds(width, height, Trunc(m.x), Trunc(m.y))
  {
    if m.progress != 1.0 {
      var originX, originY := 2.0 * m.x - m.targetX, 2.0 * m.y - m.targetY;
      HalfwayCell(originX.Floor, m.targetX.Floor, m.x);
      HalfwayCell(originY.Floor, m.targetY.Floor, m.y);
    }
  }

  /** Halfway between two whole cells at most one apart, truncation gives the smaller one. */
  lemma HalfwayCell(a: int, b: int, p: real)
    requires 0 <= a && 0 <= b && -1 <= b - a <= 1
    requires 2.0 * p == a as real + b as real
    ensures Trunc(p) == if a <= b then a else b
  {
  }

  /**
   * The target the held keys select from position (x, y). Horizontal and vertical are
   * decided independently, so a diagonal is possible. A step is taken only toward an
   * open neighbour of the player's cell; right overrides left and down overrides up.
   */
  function SelectMove(maze: Grid, width: int, height: int, x: real, y: real, keys: Held): (r: (real, real))
    requires IsGrid(maze, width, height) && InBounds(width, height, Trunc(x), Trunc(y))
    ensures r.0 == x || r.0 == x + 1.0 || r.0 == x - 1.0
    ensures r.1 == y || r.1 == y + 1.0 || r.1 == y - 1.0
    ensures r.0 == x + 1.0 <==> keys.right && OpenAt(maze, width, height, Trunc(x) + 1, Trunc(y))
    ensures r.0 == x - 1.0 <==>
      keys.left && OpenAt(maze, width, height, Trunc(x) - 1, Trunc(y)) &&
      !(keys.right && OpenAt(maze, width, height, Trunc(x) + 1, Trunc(y)))
    ensures r.1 == y + 1.0 <==> keys.down && OpenAt(maze, width, height, Trunc(x), Trunc(y) + 1)
    ensures r.1 == y - 1.0 <==>
      keys.up && OpenAt(maze, width, height, Trunc(x), Trunc(y) - 1) &&
      !(keys.down && OpenAt(maze, width, height, Trunc(x), Trunc(y) + 1))
  {
    var cx, cy := Trunc(x), Trunc(y);
    // The right and down tests come later in the source and overwrite the left and up results.
    var newX :=
      if keys.right && cx < width - 1 && maze[cy][cx + 1] == Open then x + 1.0
      else if keys.left && cx > 0 && maze[cy][cx - 1] == Open then x - 1.0
      else x;
    var newY :=
      if keys.down && cy < height - 1 && maze[cy + 1][cx] == Open then y + 1.0
      else if keys.up && cy > 0 && maze[cy - 1][cx] == Open then y - 1.0
      else y;
    (newX, newY)
  }

  /**
   * One unpaused tick of movement, in closed form: a move under way lands on its target
   * and settles; a settled player whose keys select another cell ends the tick halfway
   * to it, one step of progress in; a settled player whose keys select nothing stays.
   */
  function Step(maze: Grid, width: int, height: int, m: Motion, keys: Held): Motion
    requires IsGrid(maze, width, height) && MotionOk(width, height, m)
  {
    if m.progress != 1.0 then
      Motion(m.targetX, m.targetY, m.targetX, m.targetY, 1.0)
    else
      var target := SelectMove(maze, width, height, m.x, m.y, keys);
      if target == (m.x, m.y) then m
      else Motion((m.x + target.0) / 2.0, (m.y + target.1) / 2.0, target.0, target.1, STEP)
  }

  /**
   * Move selection as the game loop writes it: only a settled player (progress at least 1)
   * looks at the keys, and a selected cell other than its own becomes the target of a
   * new move with progress 0.
   */
  function Choose(maze: Grid, width: int, height: int, m: Motion, keys: Held): (r: Motion)
    requires IsGrid(maze, width, height)
    requires m.progress >= 1.0 ==> InBounds(width, height, Trunc(m.x), Trunc(m.y))
    ensures r.x == m.x && r.y == m.y
    ensures r != m <==> m.progress >= 1.0 && SelectMove(maze, width, height, m.x, m.y, keys) != (m.x, m.y)
    ensures r != m ==>
      m.progress >= 1.0 && r.progress == 0.0 &&
      (r.targetX, r.targetY) == SelectMove(maze, width, height, m.x, m.y, keys)
  {
    if m.progress >= 1.0 then
      var target := SelectMove(maze, width, height, m.x, m.y, keys);
      if target != (m.x, m.y) then m.(targetX := target.0, targetY := target.1, progress := 0.0) else m
    else m
  }

  /**
   * The animation as the game loop writes it: a move under way gains one step of
   * progress, capped at 1, and the drawn position is moved that fraction of the
   * remaining way to the target.
   */
  function Animate(m: Motion): (r: Motion)
    ensures r.targetX == m.targetX && r.targetY == m.targetY
    ensures m.progress >= 1.0 ==> r == m
    ensures m.progress < 1.0 ==> m.progress < r.progress <= 1.0
    ensures m.progress < 1.0 && r.progress == 1.0 ==> r.x == m.targetX && r.y == m.targetY
  {
    assert STEP == 0.5;
    if m.progress < 1.0 then
      var p := Min(m.progress + STEP, 1.0);
      m.(progress := p, x := m.x + (m.targetX - m.x) * p, y := m.y + (m.targetY - m.y) * p)
    else m
  }

  /** The game loop's selection and animation, one after the other, make exactly the tick `Step` describes. */
  lemma ChooseThenAnimateIsStep(maze: Grid, width: int, height: int, m: Motion, keys: Held)
    requires IsGrid(maze, width, height) && MotionOk(width, height, m)
    ensures Animate(Choose(maze, width, height, m, keys)) == Step(maze, width, height, m, keys)
  {
    assert STEP == 0.5;
    var chosen := Choose(maze, width, height, m, keys);
    if m.progress == 1.0 {
      var target := SelectMove(maze, width, height, m.x, m.y, keys);
      if target != (m.x, m.y) {
        assert chosen.progress == 0.0;
        assert m.x + (target.0 - m.x) * 0.5 == (m.x + target.0) / 2.0;
        assert m.y + (target.1 - m.y) * 0.5 == (m.y + target.1) / 2.0;
      }
    } else {
      assert chosen == m && m.progress == 0.5;
      assert m.x + (m.targetX - m.x) * 1.0 == m.targetX;
      assert m.y + (m.targetY - m.y) * 1.0 == m.targetY;
    }
  }

  /** The cell a move selects is whole, inside the maze and at most one column and one row away. */
  lemma SelectedCellOk(maze: Grid, width: int, height: int, m: Motion, keys: Held)
    requires IsGrid(maze, width, height) && MotionOk(width, height, m) && m.progress == 1.0
    ensures
      var target := SelectMove(maze, width, height, m.x, m.y, keys);
      IsWhole(target.0) && IsWhole(target.1) && InBounds(width, height, target.0.Floor, target.1.Floor) &&
      -1.0 <= target.0 - m.x <= 1.0 && -1.0 <= target.1 - m.y <= 1.0
  {
    var target := SelectMove(maze, width, height, m.x, m.y, keys);
    var cx, cy := Trunc(m.x), Trunc(m.y);
    assert m.x == cx as real && m.y == cy as real;
    if target.0 == m.x + 1.0 {
      assert target.0 == (cx + 1) as real;
    } else if target.0 == m.x - 1.0 {
      assert target.0 == (cx - 1) as real;
    }
    if target.1 == m.y + 1.0 {
      assert target.1 == (cy + 1) as real;
    } else if target.1 == m.y - 1.0 {
      assert target.1 == (cy - 1) as real;
    }
  }

  /** Every tick leads from one of the session's states to another. */
  lemma StepKeepsMotionOk(maze: Grid, width: int, height: int, m: Motion, keys: Held)
    requires IsGrid(maze, width, height) && MotionOk(width, height, m)
    ensures MotionOk(width, height, Step(maze, width, height, m, keys))
  {
    if m.progress == 1.0 && SelectMove(maze, width, height, m.x, m.y, keys) != (m.x, m.y) {
      SelectedCellOk(maze, width, height, m, keys);
      var r := Step(maze, width, height, m, keys);
      assert 2.0 * r.x - r.targetX == m.x && 2.0 * r.y - r.targetY == m.y;
    }
  }

  /**
   * A move takes exactly two ticks: the first goes halfway toward the selected cell,
   * the second lands on it whatever keys are held, leaving the player settled there.
   */
  lemma MoveSettlesInTwoTicks(maze: Grid, width: int, height: int, m: Motion, keys: Held, later: Held)
    requires IsGrid(maze, width, height) && MotionOk(width, height, m) && m.progress == 1.0
    requires SelectMove(maze, width, height, m.x, m.y, keys) != (m.x, m.y)
    ensures
      var target := SelectMove(maze, width, height, m.x, m.y, keys);
      var halfway := Step(maze, width, height, m, keys);
      halfway == Motion((m.x + target.0) / 2.0, (m.y + target.1) / 2.0, target.0, target.1, STEP) &&
      MotionOk(width, height, halfway) &&
      Step(maze, width, height, halfway, later) == Motion(target.0, target.1, target.0, target.1, 1.0)
  {
    StepKeepsMotionOk(maze, width, height, m, keys);
  }

  /**
   * Seconds left on the clock: the duration minus the whole seconds elapsed, never below
   * zero. It reaches zero exactly when the whole seconds elapsed reach the duration.
   */
  function RemainingTime(timerDuration: int, elapsed: real): (r: int)
    ensures r >= 0
    ensures elapsed >= 0.0 ==> r <= timerDuration || timerDuration < 0
    ensures r == 0 <==> timerDuration <= Trunc(elapsed)
    ensures r > 0 ==> r == timerDuration - Trunc(elapsed)
  {
    if timerDuration - Trunc(elapsed) > 0 then timerDuration - Trunc(elapsed) else 0
  }

  /** As time passes the remaining time never grows. */
  lemma RemainingTimeNeverGrows(timerDuration: int, earlier: real, later: real)
    requires 0.0 <= earlier <= later
    ensures RemainingTime(timerDuration, later) <= RemainingTime(timerDuration, earlier)
  {
    assert Trunc(earlier) <= Trunc(later);
  }

  /** What a tick decides once the player has moved. */
  datatype Status = Running | Won | TimeUp

  /**
   * The win check on the player's truncated cell comes first; the timeout is reported
   * only when the player is not on the goal.
   */
  function Outcome(m: Motion, goal: Cell, remaining: int): (s: Status)
    ensures s == Won <==> (Trunc(m.x), Trunc(m.y)) == goal
    ensures s == TimeUp <==> (Trunc(m.x), Trunc(m.y)) != goal && remaining <= 0
    ensures s == Running <==> (Trunc(m.x), Trunc(m.y)) != goal && remaining > 0
  {
    if Trunc(m.x) == goal.0 && Trunc(m.y) == goal.1 then Won
    else if remaining <= 0 then TimeUp
    else Running
  }

  /** The keys the event handlers look at. */
  datatype Key = KeyP | KeyR | KeyQ | OtherKey

  /** The window events of one tick. */
  datatype Event = WindowClosed | KeyDown(key: Key) | OtherEvent

  /** How a game ends: back to the main menu (the loop returns true) or leave the program (false). */
  datatype Exit = BackToMenu | QuitGame

  /** The exit an event requests: closing the window or Q quits, R returns to the main menu. */
  function ExitRequest(e: Event): Option<Exit> {
    match e
    case WindowClosed => Some(QuitGame)
    case KeyDown(k) => if k == KeyR then Some(BackToMenu) else if k == KeyQ then Some(QuitGame) else None
    case OtherEvent => None
  }

  /**
   * The game-over wait: the first event that requests an exit decides; `None` when the
   * events run out first (the source keeps waiting for more).
   */
  function GameOverChoice(events: seq<Event>): (r: Option<Exit>)
    ensures r.None? <==> forall i | 0 <= i < |events| :: ExitRequest(events[i]).None?
    ensures r.Some? ==>
      exists i | 0 <= i < |events| ::
        ExitRequest(events[i]) == r && forall j | 0 <= j < i :: ExitRequest(events[j]).None?
  {
    if events == [] then None
    else if ExitRequest(events[0]).Some? then ExitRequest(events[0])
    else
      var rest := GameOverChoice(events[1..]);
      assert forall i | 1 <= i < |events| :: events[i] == events[1..][i - 1];
      rest
  }

  /** The pause key presses among the events. */
  function PauseCount(events: seq<Event>): (n: nat)
    ensures n <= |events|
  {
    if events == [] then 0
    else (if events[0] == KeyDown(KeyP) then 1 else 0) + PauseCount(events[1..])
  }

  /**
   * A tick's events handled in order: each P toggles the pause flag, and the first
   * exit request ends the game, leaving the later events unread.
   */
  function ProcessEvents(paused: bool, events: seq<Event>): (r: (bool, Option<Exit>))
    ensures r.1.None? <==> forall i | 0 <= i < |events| :: ExitRequest(events[i]).None?
    decreases |events|
  {
    if events == [] then (paused, None)
    else if ExitRequest(events[0]).Some? then (paused, ExitRequest(events[0]))
    else
      var rest := ProcessEvents(if events[0] == KeyDown(KeyP) then !paused else paused, events[1..]);
      assert forall i | 1 <= i < |events| :: events[i] == events[1..][i - 1];
      rest
  }

  /** Pausing never changes which exit is taken: it is the same as the game-over wait's. */
  lemma {:induction false} ExitIgnoresPause(paused: bool, events: seq<Event>)
    ensures ProcessEvents(paused, events).1 == GameOverChoice(events)
    decreases |events|
  {
    if events != [] && ExitRequest(events[0]).None? {
      ExitIgnoresPause(if events[0] == KeyDown(KeyP) then !paused else paused, events[1..]);
    }
  }

  /** Without an exit request the flag ends toggled once per P press: even counts cancel out. */
  lemma {:induction false} PauseParity(paused: bool, events: seq<Event>)
    requires forall i | 0 <= i < |events| :: ExitRequest(events[i]).None?
    ensures ProcessEvents(paused, events) == (if PauseCount(events) % 2 == 0 then paused else !paused, None)
    decreases |events|
  {
    if events != [] {
      assert ExitRequest(events[0]).None?;
      assert forall i | 0 <= i < |events| - 1 :: events[1..][i] == events[i + 1];
      PauseParity(if events[0] == KeyDown(KeyP) then !paused else paused, events[1..]);
    }
  }

  /** What one pass of the game loop ends in. */
  datatype TickResult = Exited(exit: Exit) | Continue | GameOver(status: Status)

  /** The live state of one game: its fixed maze, goal and timer, the player and the pause flag. */
  class GameSession {
    const maze: Grid
    const mazeWidth: int
    const mazeHeight: int
    const goal: Cell
    const timerDuration: int
    var playerX: real
    var playerY: real
    var targetX: real
    var targetY: real
    var animationProgress: real
    var paused: bool

    function Current(): Motion
      reads this
    {
      Motion(playerX, playerY, targetX, targetY, animationProgress)
    }

    ghost predicate Valid()
      reads this
    {
      IsGrid(maze, mazeWidth, mazeHeight) && MotionOk(mazeWidth, mazeHeight, Current())
    }

    /** A fresh game: the player on (0, 0) with no move under way, not paused. */
    constructor (maze: Grid, width: int, height: int, goal: Cell, timerDuration: int)
      requires width >= 1 && height >= 1 && IsGrid(maze, width, height)
      ensures Valid() && Current() == START && !paused
      ensures this.maze == maze && mazeWidth == width && mazeHeight == height
      ensures this.goal == goal && this.timerDuration == timerDuration
    {
      this.maze := maze;
      mazeWidth := width;
      mazeHeight := height;
      this.goal := goal;
      this.timerDuration := timerDuration;
      playerX, playerY := 0.0, 0.0;
      targetX, targetY := playerX, playerY;
      animationProgress := 1.0;
      paused := false;
    }

    /** Handle the tick's events in order; returns the exit the first request asks for. */
    method HandleEvents(events: seq<Event>) returns (exit: Option<Exit>)
      modifies this`paused
      ensures (paused, exit) == ProcessEvents(old(paused), events)
    {
      for i := 0 to |events|
        invariant ProcessEvents(old(paused), events) == ProcessEvents(paused, events[i..])
      {
        assert events[i..][0] == events[i] && events[i..][1..] == events[i + 1..];
        match events[i]
        case WindowClosed =>
          return Some(QuitGame);
        case KeyDown(key) =>
          if key == KeyP {
            paused := !paused;
          }
          if key == KeyR {
            return Some(BackToMenu);
          }
          if key == KeyQ {
            return Some(QuitGame);
          }
        case OtherEvent =>
      }
      return None;
    }

    /** The tick's move selection, as `Choose` describes it. */
    method SelectTarget(keys: Held)
      requires IsGrid(maze, mazeWidth, mazeHeight)
      requires animationProgress >= 1.0 ==> InBounds(mazeWidth, mazeHeight, Trunc(playerX), Trunc(playerY))
      modifies this`targetX, this`targetY, this`animationProgress
      ensures Current() == Choose(maze, mazeWidth, mazeHeight, old(Current()), keys)
    {
      if animationProgress >= 1.0 {
        var (newX, newY) := SelectMove(maze, mazeWidth, mazeHeight, playerX, playerY, keys);
        if (newX, newY) != (playerX, playerY) {
          targetX, targetY := newX, newY;
          animationProgress := 0.0;
        }
      }
    }

    /** The tick's animation step, as `Animate` describes it. */
    method AnimateMove()
      modifies this`playerX, this`playerY, this`animationProgress
      ensures Current() == Animate(old(Current()))
    {
      if animationProgress < 1.0 {
        animationProgress := animationProgress + STEP;
        animationProgress := Min(animationProgress, 1.0);
        playerX := playerX + (targetX - playerX) * animationProgress;
        playerY := playerY + (targetY - playerY) * animationProgress;
      }
    }

    /**
     * The rest of the tick: when paused nothing changes; otherwise the player steps as
     * `Step` says and the outcome is decided on the new position and the remaining time.
     */
    method Advance(keys: Held, elapsed: real) returns (status: Status)
      requires Valid()
      modifies this`playerX, this`playerY, this`targetX, this`targetY, this`animationProgress
      ensures Valid()
      ensures paused ==> Current() == old(Current()) && status == Running
      ensures !paused ==>
        Current() == Step(maze, mazeWidth, mazeHeight, old(Current()), keys) &&
        status == Outcome(Current(), goal, RemainingTime(timerDuration, elapsed))
    {
      status := Running;
      if !paused {
        ghost var before := Current();
        PlayerCellInBounds(mazeWidth, mazeHeight, before);
        SelectTarget(keys);
        AnimateMove();
        ChooseThenAnimateIsStep(maze, mazeWidth, mazeHeight, before, keys);
        StepKeepsMotionOk(maze, mazeWidth, mazeHeight, before, keys);
        var remainingTime := RemainingTime(timerDuration, elapsed);
        status := Outcome(Current(), goal, remainingTime);
      }
    }

    /** One pass of the game loop: events first, then the movement and the end checks. */
    method Tick(events: seq<Event>, keys: Held, elapsed: real) returns (result: TickResult)
      requires Valid()
      modifies this
      ensures Valid()
      ensures ProcessEvents(old(paused), events).1.Some? ==>
        result == Exited(ProcessEvents(old(paused), events).1.value) &&
        paused == ProcessEvents(old(paused), events).0 && Current() == old(Current())
      ensures ProcessEvents(old(paused), events).1.None? ==>
        paused == ProcessEvents(old(paused), events).0 &&
        (paused ==> Current() == old(Current()) && result == Continue) &&
        (!paused ==>
          Current() == Step(maze, mazeWidth, mazeHeight, old(Current()), keys) &&
          var status := Outcome(Current(), goal, RemainingTime(timerDuration, elapsed));
          result == if status == Running then Continue else GameOver(status))
    {
      var exit := HandleEvents(events);
      if exit.Some? {
        return Exited(exit.value);
      }
      var status := Advance(keys, elapsed);
      if status == Running {
        result := Continue;
      } else {
        result := GameOver(status);
      }
    }
  }

  /**
   * Start a game at a preset difficulty: carve the maze, place the goal from the samples
   * and put the player on the start. The session is `null` exactly when no sample is
   * accepted as the goal.
   */
  method NewGame(difficulty: string, samples: seq<Cell>) returns (maze: Grid, session: GameSession?)
    requires difficulty in DIFFICULTY_SETTINGS
    requires forall i | 0 <= i < |samples| ::
      InBounds(DIFFICULTY_SETTINGS[difficulty].mazeWidth, DIFFICULTY_SETTINGS[difficulty].mazeHeight,
               samples[i].0, samples[i].1)
    ensures
      var settings := DIFFICULTY_SETTINGS[difficulty];
      var width, height := settings.mazeWidth, settings.mazeHeight;
      IsGrid(maze, width, height) && maze[0][0] == Open && RoomsOpen(maze, width, height) &&
      (forall x, y | InBounds(width, height, x, y) && !IsEven(x) && !IsEven(y) :: maze[y][x] == Wall) &&
      |OpenCells(maze, width, height)| == 2 * |RoomCells(width, height)| - 1 &&
      (forall c | c in OpenCells(maze, width, height) :: Connected(OpenCells(maze, width, height), (0, 0), c))
    ensures
      var settings := DIFFICULTY_SETTINGS[difficulty];
      session == null <==> forall i | 0 <= i < |samples| :: !IsGoal(maze, settings.minDistance, samples[i])
    ensures session != null ==>
      var settings := DIFFICULTY_SETTINGS[difficulty];
      fresh(session) && session.Valid() && session.Current() == START && !session.paused &&
      session.maze == maze && session.mazeWidth == settings.mazeWidth && session.mazeHeight == settings.mazeHeight &&
      session.timerDuration == settings.timerDuration &&
      IsGoal(maze, settings.minDistance, session.goal) &&
      exists i | 0 <= i < |samples| ::
        samples[i] == session.goal && forall j | 0 <= j < i :: !IsGoal(maze, settings.minDistance, samples[j])
  {
    var settings := DIFFICULTY_SETTINGS[difficulty];
    assert settings.mazeWidth >= 1 && settings.mazeHeight >= 1 by {
      assert difficulty == "easy" || difficulty == "medium" || difficulty == "hard";
    }
    maze := GenerateMaze(settings.mazeWidth, settings.mazeHeight);
    var goal := GenerateGoal(maze, settings.minDistance, samples);
    if goal.None? {
      return maze, null;
    }
    session := new GameSession(maze, settings.mazeWidth, settings.mazeHeight, goal.value, settings.timerDuration);
  }

  /**
   * A 5 by 3 maze the carver produces when it carves (0, 0) -> (2, 0) -> (2, 2) -> (4, 2)
   * -> (4, 0), backtracks to (2, 2) and carves (2, 2) -> (0, 2).
   */
  const CARVED_MAZE: Grid := [
    [Open, Open, Open, Wall, Open],
    [Wall, Wall, Open, Wall, Open],
    [Open, Open, Open, Open, Open]
  ]

  /**
   * Settled on (2, 0) with left and down held, each axis checks only its own neighbour:
   * (1, 0) and (2, 1) are open, so the player moves diagonally and two ticks later stands
   * on the wall at (1, 1).
   */
  lemma DiagonalMoveEndsInWall()
    ensures IsGrid(CARVED_MAZE, 5, 3) && RoomsOpen(CARVED_MAZE, 5, 3) && CARVED_MAZE[1][1] == Wall
    ensures forall x, y | InBounds(5, 3, x, y) && !IsEven(x) && !IsEven(y) :: CARVED_MAZE[y][x] == Wall
    ensures
      var start := Motion(2.0, 0.0, 2.0, 0.0, 1.0);
      var halfway := Step(CARVED_MAZE, 5, 3, start, Held(true, false, false, true));
      MotionOk(5, 3, start) && MotionOk(5, 3, halfway) &&
      Step(CARVED_MAZE, 5, 3, halfway, NO_KEYS) == Motion(1.0, 1.0, 1.0, 1.0, 1.0)
  {
    var start := Motion(2.0, 0.0, 2.0, 0.0, 1.0);
    var keys := Held(true, false, false, true);
    assert IsGrid(CARVED_MAZE, 5, 3);
    assert MotionOk(5, 3, start);
    assert SelectMove(CARVED_MAZE, 5, 3, 2.0, 0.0, keys) == (1.0, 1.0);
    MoveSettlesInTwoTicks(CARVED_MAZE, 5, 3, start, keys, NO_KEYS);
  }
}
