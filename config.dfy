/** The game's constants: frame rate, animation speed and the difficulty presets. */
module Config {
  /** Frames (ticks) per second. */
  const FPS: int := 30

  /** Animation speed of one move, in progress units per second (set at the start of a game). */
  const ANIMATION_SPEED: int := 15

  /** The parameters of one difficulty level. */
  datatype DifficultySettings = DifficultySettings(
    mazeWidth: int,
    mazeHeight: int,
    timerDuration: int,
    minDistance: int
  )

  /** The presets, keyed by the names the difficulty menu returns. */
  const DIFFICULTY_SETTINGS: map<string, DifficultySettings> := map[
    "easy" := DifficultySettings(20, 15, 120, 5),
    "medium" := DifficultySettings(30, 22, 90, 10),
    "hard" := DifficultySettings(40, 30, 60, 15)
  ]
}
