# PygameMaze engine in Dafny

A model of the maze engine of the PygameMaze game (`game.py`). It covers three parts:

- **Maze carver** (`generate_maze`): a randomized depth-first backtracker that uses an explicit stack.
  - It works on a grid that starts with every cell a wall.
  - Rooms are the cells with two even coordinates. Carving towards a room two steps away opens that room and the wall cell in between.
  - The random pick among the carvable directions is a nondeterministic choice, so every property holds for every possible sequence of picks.
- **Goal placer** (`generate_goal`): rejection sampling over random cells.
- **Per-tick step of the game loop**:
  - the pause, restart and quit keys;
  - move selection from the held keys;
  - the move animation;
  - the remaining time;
  - the win check, then the timeout check;
  - the game-over wait.

Files:

- `grid.dfy`: the 0/1 grid (`Tile`), cells, `DIRS`, grid predicates, and walks and connectivity between cells.
- `config.dfy`: `FPS`, the animation speed and the three difficulty presets.
- `carving.dfy`: the carving loop's invariant. It proves that one carve and one backtrack each keep the invariant, and what holds once the stack is empty.
- `generator.dfy`: the carver itself, an imperative loop over the grid and the stack.
- `goal.dfy`: goal sampling over a supplied sequence of random draws, the far room of a maze (`LastRoom`), and the proof that every preset admits a goal.
- `session.dfy`: the per-tick step.
  - It has a `GameSession` class. Its fields are the ones the loop updates in place: the player position, the target, the animation progress and the pause flag.
  - It also has pure functions for the move selection, the timer and the outcome, and a closed form `Step` of one tick's movement.

Positions are exact reals. In the source every position is a whole or half number, because the progress step `15 / 30` is `0.5`. So the double-precision arithmetic of the source is exact, and so is this model. Python's `int()` on a float is `Trunc` (truncation toward zero).

Two behaviours of the code worth knowing:

- **Key precedence.** The code decides the horizontal and vertical axes independently, so right and down held together select a diagonal move. Right overrides left and down overrides up, because their tests come later and overwrite the earlier result. One consequence is that a diagonal move can end on a wall cell, even in a maze the carver produces (`DiagonalMoveEndsInWall`).
- **Timer during pauses.** The clock used for the timer is not stopped while the game is paused. The elapsed time is the wall-clock time since the game started. A pause only suppresses the timeout check.

R on a game-over screen or during play makes `game_loop` return true, and `main` then shows the main menu again; the model calls that exit `BackToMenu`.

## Model

| member | source | states |
|---|---|---|
| Grid.AllWalls | game.py:43 | The starting grid has `height` rows of `width` cells, and every cell is a wall. |
| Grid.SetTile | game.py:55-56 | Writing one tile keeps the grid's shape and changes only the cell written: that cell holds the new tile and every other cell keeps its old one. |
| MazeCarving.CanCarve | game.py:50-51 | The carver's test of one direction: the room two steps away is inside the grid and still a wall. |
| GoalPlacer.LastRoom | game.py:42-60 | The last room index on an axis of length n is even, lies inside the axis and is at least n - 2. |
| MazeGenerator.Candidates | game.py:48-52 | The directions the scan collects, in the order of `DIRS`: each collected direction is one of those scanned and its room two steps away is in bounds and still a wall, and there are never more than were scanned. |
| MazeGenerator.CandidatesExact | game.py:48-52 | A direction is a candidate exactly when it is one of `DIRS` and the room two steps that way is in bounds and still a wall. |
| MazeGenerator.CarveCandidates | game.py:47-52 | The neighbour scan returns the directions of `DIRS` in order whose room is in bounds and a wall, and no others. |
| MazeGenerator.GenerateMaze | game.py:42-60 | For every sequence of random picks, the carver returns `height` rows of `width` cells with (0, 0) open and every room open. No cell with two odd coordinates is open. There are exactly 2 * rooms - 1 open cells, and every open cell is connected to (0, 0) through open cells, which makes the maze a spanning tree. |
| MazeCarving.ConnectedGrows | game.py:55-57 | Cells connected through a set of open cells stay connected when more cells are opened. |
| MazeCarving.RoomsReached | game.py:46-59 | A set of rooms that holds (0, 0) and is closed under "room two steps away" holds every room of the grid. |
| MazeCarving.StartCarving | game.py:43-45 | An all-wall grid with (0, 0) opened and pushed satisfies the carving invariant. |
| MazeCarving.CarveTargets | game.py:49-57 | The cell in between and the room a carve opens are in bounds. Neither was open before, and the room was not visited before. |
| MazeCarving.CarveMirrors | game.py:55-56 | After the two writes of a carve, the open tiles are exactly the carved cells plus the two new ones. |
| MazeCarving.ConnectorFlanked | game.py:55-56 | The opened cell in between has exactly one odd coordinate and lies between the two rooms it joins. |
| MazeCarving.CarveShape | game.py:55-57 | A carve adds one room and one connector, which keeps the open-cell count at 2 * rooms - 1. |
| MazeCarving.CarveLinked | game.py:55-56 | A carve keeps every open cell connected to (0, 0). |
| MazeCarving.Advance | game.py:57 | Pushing the new room keeps the stack's bookkeeping: every visited room is on the stack or finished. |
| MazeCarving.Backtrack | game.py:58-59 | Popping a room none of whose neighbours two steps away can be carved marks it finished. |
| MazeCarving.AllRoomsVisited | game.py:46-59 | When the stack is empty, every room of the grid has been visited. |
| MazeCarving.StepMirrors | game.py:54-56 | A carve from the top of the stack writes only in-bounds cells and keeps the open tiles mirrored. |
| MazeCarving.StepShape | game.py:54-57 | A carve from the top of the stack keeps the room/connector shape and the count 2 * rooms - 1. |
| MazeCarving.StepLinked | game.py:54-56 | A carve from the top of the stack keeps every open cell connected to (0, 0). |
| MazeCarving.StepBacktracking | game.py:54-57 | A carve from the top of the stack keeps the stack bookkeeping and visits a new room, so the loop's measure decreases. |
| MazeCarving.CarveStep | game.py:53-57 | One carve keeps the whole loop invariant, indexes only in-bounds cells, and decreases the set of unvisited rooms. |
| MazeCarving.BacktrackStep | game.py:58-59 | One pop keeps the whole loop invariant. |
| MazeCarving.CarvingComplete | game.py:46-60 | With the stack empty, the grid has every postcondition of `GenerateMaze`. |
| GoalPlacer.DistanceFromStart | game.py:67 | The distance from (0, 0) is never negative, and for non-negative coordinates it is x + y. |
| GoalPlacer.IsGoal | game.py:66-68 | The acceptance test of one sample: the cell is inside the grid, open, not (0, 0), and at Manhattan distance at least `minDistance` from (0, 0). |
| GoalPlacer.GenerateGoal | game.py:62-69 | A returned goal is in bounds, open, not (0, 0) and at least `minDistance` away. It is the first sample that meets all four conditions. `None` is returned exactly when no sample meets them. |
| GoalPlacer.FarRoomIsGoal | game.py:62-69 | Once every room is open, the farthest room is accepted as a goal for any `minDistance` up to its distance. |
| GoalPlacer.NoGoalBeyondDiameter | game.py:62-69 | When `minDistance` exceeds the largest distance in the grid, no cell is accepted, so the sampling loop never ends. |
| GoalPlacer.PresetHasGoal | game.py:17-69 | For each of the three presets, every carved maze has a cell the goal sampler accepts. |
| Session.Trunc | game.py:279 | `int()` truncates toward zero: for a non-negative value it gives the whole part, and for a negative value it rounds up. |
| Session.PlayerCellInBounds | game.py:256-263 | In every reachable state the player's truncated cell is inside the maze, so every maze read of the move selection is in bounds. |
| Session.HalfwayCell | game.py:279 | Halfway between two adjacent whole cells, truncation gives the smaller of the two. |
| Session.SelectMove | game.py:254-263 | Each axis moves by 0 or 1. The step right happens exactly when right is held and the cell to the right is in bounds and open. The step left happens exactly when left is held, that cell is open, and no step right happens. The vertical axis works the same way, with down overriding up. |
| Session.Step | game.py:254-274 | One unpaused tick of movement in closed form: a move under way lands on its target and settles; a settled player whose keys select another cell goes halfway to it with progress 0.5; otherwise nothing changes. `ChooseThenAnimateIsStep` proves the loop's own code computes it. |
| Session.Choose | game.py:254-267 | The selection block never moves the drawn position. It changes the motion exactly when the player is settled (progress at least 1) and the keys select a cell other than its own, and then sets that cell as the target with progress 0. |
| Session.Animate | game.py:269-274 | The animation block never changes the target, leaves a settled player alone, raises the progress of a move under way without passing 1, and puts the player exactly on the target when the progress reaches 1. |
| Session.ChooseThenAnimateIsStep | game.py:254-274 | The loop's move selection followed by its animation (progress += 15/30, clamped at 1, then interpolation) is exactly `Step`'s closed form. A move under way lands on its target. A selected cell is reached halfway in one tick. With no selection, nothing changes. |
| Session.SelectedCellOk | game.py:256-263 | A selected target is a whole cell inside the maze, at most one cell away from the player on each axis. |
| Session.StepKeepsMotionOk | game.py:254-274 | Each tick leads from a reachable motion state to another: either settled on a whole in-bounds cell, or halfway between two such cells. |
| Session.MoveSettlesInTwoTicks | game.py:265-274 | A move takes exactly two ticks. The first goes halfway to the selected cell, and the second lands exactly on it whatever keys are held. |
| Session.RemainingTime | game.py:277 | The remaining time is never negative and never exceeds the duration. It is 0 exactly when the whole seconds elapsed reach the duration, and otherwise it is the duration minus the whole seconds elapsed. |
| Session.RemainingTimeNeverGrows | game.py:276-277 | As the elapsed time grows, the remaining time never increases. |
| Session.Outcome | game.py:279-294 | The tick is won exactly when the player's truncated cell is the goal. It times out exactly when the player is not on the goal and no time remains, so the win check takes precedence. |
| Session.ExitRequest | game.py:240-250 | How one event maps to an exit: closing the window or Q quits, R returns to the main menu, and any other event (P included) requests none. |
| Session.GameOverChoice | game.py:282-307 | The game-over wait ends on the first event that asks for an exit: closing the window or Q quits, R returns to the main menu. It gives `None` exactly when no event asks for one. |
| Session.ProcessEvents | game.py:239-250 | The tick's events handled in order, each P toggling the pause flag and the first quit or R ending the handling: it ends in an exit exactly when some event requests one. |
| Session.ExitIgnoresPause | game.py:239-250 | The exit a tick's events take does not depend on the pause flag or on P presses. It is the one the game-over wait would take. |
| Session.PauseParity | game.py:244-245 | Without an exit request, each P press toggles the pause flag, so the flag ends flipped exactly when the number of P presses is odd. |
| Session.GameSession.constructor | game.py:227-236 | A new game stands on (0, 0), settled (progress 1), not paused, with the given maze, goal and duration. |
| Session.GameSession.HandleEvents | game.py:239-250 | Handling the events in order leaves the pause flag and returns the exit exactly as `ProcessEvents` says: each P toggles the flag, and the first quit or restart request ends the handling. |
| Session.GameSession.SelectTarget | game.py:254-267 | The loop's selection block changes the target and progress as `Choose` says: only when settled, and only when a different cell is selected. |
| Session.GameSession.AnimateMove | game.py:269-274 | The loop's animation block advances the progress and the position as `Animate` says. |
| Session.GameSession.Advance | game.py:252-294 | When paused, nothing changes and no end check runs. Otherwise the motion becomes `Step` of the old motion, the state stays reachable, and the status is the win-before-timeout outcome on the new position. |
| Session.GameSession.Tick | game.py:238-294 | An exit request ends the tick before any movement, with the pause flag as the events before it left it. Otherwise the pause flag ends as the events leave it and the tick moves as `Advance` says. A win or timeout ends in `GameOver`. |
| Session.NewGame | game.py:213-236 | The returned maze has every property `GenerateMaze` promises at the preset's size. A session is started exactly when some sample is accepted as the goal under the preset's `minDistance`; it is fresh, holds that maze, the preset's size and duration, and as its goal the first sample accepted, and the player starts on (0, 0), settled and not paused. |
| Session.DiagonalMoveEndsInWall | game.py:256-274 | In a 5 by 3 maze the carver produces (every room open, every odd-odd cell a wall), a player settled on (2, 0) holding left and down moves diagonally and two ticks later stands on the wall cell (1, 1). |

## Left out

- Randomness: `random.choice` (game.py:54) is a nondeterministic choice. The `random.randint` draws of `generate_goal` (game.py:64-65) are a supplied finite sequence of samples.
- GoalPlacer.GenerateGoal: the source samples forever. The model returns `None` when the supplied samples run out, and `NoGoalBeyondDiameter` states when the source loop could never return.
- The wall clock (`time.time()`): the elapsed seconds are an input to `Advance` and `Tick`.
- The goal blink, all drawing (`draw_maze`, `display_game_over_screen`), the menus, `show_instructions` and `main`: these are presentation with no stateable logic.
- `clock.tick(FPS)` frame pacing and `pygame.quit()`: these are side effects with no logic.
- The polling of `pygame.event.get()` and `pygame.key.get_pressed()`: a tick's events are a sequence and the held keys a `Held` record. Each arrow key and its WASD twin count as one flag.
- The game-over wait loops (game.py:282-292, 297-307) wait for events forever. `GameOverChoice` takes a finite event sequence and gives `None` when it holds no exit request.
- Session.GameSession.Tick: a win or timeout is reported as `GameOver(status)`. The caller then runs the wait with `GameOverChoice`; the model does not loop there.
- GoalPlacer.GenerateGoal: the default `min_distance=10` of `generate_goal` (game.py:62) is not modelled; `game_loop` always passes the preset's value.
- MazeGenerator.GenerateMaze: requires `width >= 1 && height >= 1`. For a width or height of 0 or less the source raises an `IndexError` at `maze[0][0] = 0` (game.py:43-45); the presets never ask for one.
- Floating point in general: the model uses exact reals, which agree with the source because every value the animation reaches is a whole or half number.
