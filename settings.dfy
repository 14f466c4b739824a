/** Layout and size constants of the memory game. */
module Settings {
  /** Cards per row of the board grid. */
  const MaxCardsPerRow := 10
  /** Largest number of card sets (pairs) a game can be played with. */
  const MaxSets := 20
  /** Width and height of one card cell, in pixels. */
  const CardWidth := 50
  const CardHeight := 100
  /** Margin between the canvas edge and the first card cover, in pixels. */
  const DisplayOffset := 3
}
