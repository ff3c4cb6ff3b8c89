/** Grid and buffer dimensions shared by every part of the typewriter. */
module Config {

  /** A memory cell or glyph identifier (`u8` in the program). */
  newtype byte = x: int | 0 <= x < 256

  /** Printable columns per row. */
  const CHAR_WIDTH: nat := 42
  /** Rows of the canvas. */
  const CHAR_HEIGHT: nat := 10
  /** Capacity of the gap buffer. */
  const MEMORY_SIZE: nat := 0x1000

  /** The cell value that marks a line break (`-1i8 as u8`). */
  const NEWLINE: byte := 255

  const CHAR_WIDTH_UPPER_BOUND: nat := CHAR_WIDTH - 1
  const CHAR_HEIGHT_UPPER_BOUND: nat := CHAR_HEIGHT - 1

  /** Number of drawing slots on the canvas. */
  const CELL_COUNT: nat := CHAR_WIDTH * CHAR_HEIGHT
}
