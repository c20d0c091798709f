/** Configuration constants of the game: the board size is derived from the
    window size and the cell size, as in the source. */
module Config {
  const SCREEN_WIDTH: int := 300
  const SCREEN_HEIGHT: int := 600
  const GRID_SIZE: int := 30

  /** Board width in cells: 300 / 30 = 10. */
  const COLUMNS: int := SCREEN_WIDTH / GRID_SIZE
  /** Board height in cells: 600 / 30 = 20. */
  const ROWS: int := SCREEN_HEIGHT / GRID_SIZE

  /** Number of entries in the colour palette; a colour tag is an index into it plus one. */
  const PALETTE_SIZE: int := 7

  /** Gravity fires once more than this many milliseconds have accumulated
      (the source compares `fall_time / 1000 > 0.5`). */
  const FALL_INTERVAL_MS: int := 500
}
