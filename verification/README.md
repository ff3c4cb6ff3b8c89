# NotSoHardwareTextEditor typewriter core, in Dafny

The editor is a full-screen typewriter. Text goes into a gap buffer of `0x1000` one-byte glyph
ids: `255` marks a line break and `0` is the blank. A cursor moves over a grid of 42 x 10
character cells. Each key press edits the buffer, moves the cursor and emits a list of
`LetterInstruction`s ("draw glyph `id` into cell `(x, y)`"). A renderer, not modelled here,
turns that list into pixels. Glyphs come from a font file. It has one 18-character bit line
per drawing instruction, and a start bit opens each new symbol.

The model is a value model. A `Typewriter` holds the cursor, the buffer and the line cache
(the length of the last line in each visible row). Each key press is a method. It takes the
state and returns the new state plus the emitted instructions, or the reason the program
would panic.

| module | file | models |
|---|---|---|
| `Config` | `config.dfy` | grid size, buffer size, the line-break id (`src/config.rs`) |
| `Wrappers` | `wrappers.dfy` | `Option` and `Result` |
| `Memory` | `memory.dfy` | the gap buffer (`src/memory.rs`) |
| `Cursor` | `cursor.dfy` | the cursor and its backup slot (`src/cursor.rs`) |
| `Font` | `font.dfy` | decoding font lines, grouping them into symbols, numbering the symbols (`src/font.rs`) |
| `Keyboard` | `keyboard.dfy` | `resolve_symbol`: which character a key types (`src/typewriter.rs`) |
| `Typewriter` | `typewriter.dfy` | `handle_input` and its drawing helpers (`src/typewriter.rs`) |

Modelling conventions:

- A Rust panic becomes a `Failure` naming its cause:
  - `PreviousLineUnderflow`: Backspace over a line break on row 0;
  - `LineCacheUnderflow`: `line_cache[i] - 1` with a zero entry in `redraw_before_cursor`;
  - `MissingGlyph`: the `unwrap` of `ids_by_key.get` in `handle_input`, before the insert;
  - `FontError`: each `panic!` of the font loader.
- The source calls `is_at_end` and `is_at_start` on the cursor, but `src/cursor.rs` defines
  only `is_at_canvas_end` and `is_at_canvas_start`. The model reads the two calls as
  `IsAtCanvasEnd` and `IsAtCanvasStart`.
- The editor's design says the first line's cache entry is its full length. `update_line_cache`
  does not count the cell at index 0, because it writes the counter when it reaches that
  cell. When the text's first line is on screen, its entry is therefore one less than its
  length. The model follows the code (`Typewriter.CacheHeadIsLineEnd` states both cases).
- `redraw_before_cursor` computes `line_cache[line_index] - 1` in `usize`. This underflows,
  and the program panics, whenever the scan meets a line break whose row entry is 0. Return
  on the last row right after an empty line reaches it (`Typewriter.NewLine`). The model
  reports `LineCacheUnderflow`; it does not guess at a corrected behaviour.
- `write_letter_by_id` and `write_space` are `Typewriter.WriteLetter` with `id` and with 0.
- `redraw_from_cursor` emits the line-break id 255 for a line break after the caret, like
  any other character. A loaded font has no glyph under 255 (`Font.LineBreakHasNoGlyph`), so
  the renderer's `symbols_by_id` lookup in `src/main.rs` has nothing to draw for it. The
  model emits the instruction as the code does; what the renderer should do instead is not
  evident from the code.
- `write_letter_by_id` draws at the raw cursor. A letter typed when the caret is past the
  last column (`x == 42`, any row but the last) is drawn in column 42. The canvas is
  `1 + 42 * 6` pixels wide, so that column lies outside it. `increment` then moves to column 1
  of the next row, and column 0 stays empty. The comments in `src/cursor.rs` suggest that
  the letter was meant for `get_draw_letter_position`, i.e. column 0 of the next row. The
  model draws where the code draws: `Typewriter.WriteLetter` and
  `Cursor.GetDrawCursorPosition` state the column-42 cell.
- The drawing contracts name three shapes of output. `ForwardRedraw` is what
  `redraw_from_cursor` emits: the k-th character after the caret at the k-th caret step.
  `ClearedAndRedrawn` blanks everything from a cell to the canvas end and then draws that
  forward redraw. `ScrolledRedraw` blanks the rows above the cursor's and then draws the
  backward redraw.

## Model

| member | source | states |
|---|---|---|
| Memory.Default | src/memory.rs:9-18 | the fresh buffer is valid and empty, with the caret both at the beginning and at the end, and not full |
| Memory.CursorAtBeginning | src/memory.rs:30-32 | holds exactly when no text precedes the caret |
| Memory.MemoryFull | src/memory.rs:34-36 | holds exactly when the text fills all `MEMORY_SIZE` cells |
| Memory.CursorAtEnd | src/memory.rs:38-40 | holds exactly when no text follows the caret |
| Memory.Insert | src/memory.rs:21-24 | the id is appended to the text before the caret; the text after the caret is unchanged |
| Memory.DeleteBackwards | src/memory.rs:26-28 | the last character before the caret leaves the text and stays readable at the new `before` index, which is what Backspace inspects |
| Memory.MoveAfterCursor | src/memory.rs:43-47 | caret left keeps the whole text; the last character before the caret becomes the first one after it |
| Memory.MoveBeforeCursor | src/memory.rs:50-54 | caret right keeps the whole text; the first character after the caret becomes the last one before it |
| Memory.LeftThenRightRestores | src/memory.rs:43-54 | left then right restores both indices and the text; only the vacated gap cell may differ |
| Memory.RightThenLeftRestores | src/memory.rs:43-54 | right then left restores both indices and the text |
| Memory.InsertThenDeleteRestores | src/memory.rs:21-28 | insert then delete restores both indices and the text |
| Memory.MoveAfterCursorAsWritten | src/memory.rs:43-47 | the `usize` decrement of `pointer_after_cursor` fails exactly when it is already 0; otherwise the move agrees with the corrected one |
| Memory.MoveAfterCursorUnderflows | src/memory.rs:43-47 | a full buffer with one character before the caret passes the caret-left guard, yet the as-written move underflows |
| Cursor.Default | src/cursor.rs:3-9 | the default cursor is at the canvas start and in range |
| Cursor.Increment | src/cursor.rs:12-21 | keeps the backup slot; from an in-range position it stays in range with a column of at least 1 |
| Cursor.Decrement | src/cursor.rs:23-34 | keeps the backup slot; from an in-range position it stays in range with a column of at least 1 |
| Cursor.DecrementSlot | src/cursor.rs:39-50 | keeps the backup slot and lands on a drawable slot |
| Cursor.IncrementAdvancesCaret | src/cursor.rs:12-21 | increment adds one to the row-major caret index, modulo the canvas size |
| Cursor.DecrementRetreatsCaret | src/cursor.rs:23-34 | decrement subtracts one from the caret index, modulo the canvas size; column 0 acts like column 1 |
| Cursor.DecrementSlotRetreatsSlot | src/cursor.rs:39-50 | slot decrement subtracts one from the slot index, modulo the canvas size |
| Cursor.IncrementDecrementInverse | src/cursor.rs:12-34 | from column 1 or more, increment and decrement undo each other |
| Cursor.BoundaryPredicates | src/cursor.rs:62-84 | canvas end, canvas start, line end and line start, stated through the row-major indices |
| Cursor.Backup | src/cursor.rs:52-55 | the backup slot takes the live position, which is kept |
| Cursor.Restore | src/cursor.rs:57-60 | the live position takes the backup slot, which is kept |
| Cursor.BackupRestore | src/cursor.rs:52-60 | whatever legal moves follow a backup, restore returns to the saved position |
| Cursor.MovesKeepBackup | src/cursor.rs:12-96 | no cursor move touches the backup slot |
| Cursor.ToLineBeginning | src/cursor.rs:86-88 | column 0 on the same row |
| Cursor.ToNextLine | src/cursor.rs:90-92 | one row down, same column |
| Cursor.ToPreviousLine | src/cursor.rs:94-96 | one row up, same column; row 0 is excluded because the `usize` decrement panics there |
| Cursor.GetDrawCursorPosition | src/cursor.rs:100-102 | the cursor cell itself: the letter position while the caret is inside a row; past the last column it is `(42, y)`, one column past the last drawing slot and one row above the letter position, which wraps to column 0 |
| Cursor.GetDrawLetterPosition | src/cursor.rs:104-114 | a caret past the last column draws at column 0 of the next row (same row on the last row); the result is the slot after the caret's index |
| Keyboard.SwapYZ | src/typewriter.rs:395-403 | offsets 24 and 25 (Y and Z) trade places, in both directions; the others are kept |
| Keyboard.ResolveSymbol | src/typewriter.rs:390-455 | Backspace, the arrows, Return and the other keys type nothing; space types a space; a letter key types a letter, upper case exactly with shift; whatever is typed is ASCII |
| Keyboard.SwapInvolution | src/typewriter.rs:395-403 | the Y/Z swap undoes itself |
| Keyboard.ResolveLetterAndDigit | src/typewriter.rs:390-455 | letter keys type their letter, upper case with shift, with Y and Z swapped; unshifted digit keys type their digit |
| Keyboard.ResolveNone | src/typewriter.rs:390-455 | exactly which keys, with which shift state, type nothing |
| Keyboard.ResolveKeyFor | src/typewriter.rs:390-455 | every character a key types is typed by the key the inverse table gives |
| Keyboard.KeyForResolve | src/typewriter.rs:390-455 | the inverse table maps each typed character back to its key and shift state |
| Keyboard.TypedHasGlyph | src/typewriter.rs:390-455 | every typable character is the space or one of the font's keys |
| Keyboard.ResolvedHasGlyph | src/typewriter.rs:390-455 | whatever a key types has a glyph in a loaded font |
| Font.RankOfKeys | src/font.rs:8-14 | the key string has 80 characters and `Rank` gives each one its position |
| Font.KeysDistinct | src/font.rs:8-14 | the 80 keys are pairwise distinct and do not include the space |
| Font.Utf8Length | src/font.rs:89-91 | the byte length is at least the character count, and equal for ASCII text |
| Font.FromToBits | src/font.rs:111-121 | reading back the binary digits of a value gives the value |
| Font.ToFromBits | src/font.rs:111-121 | writing out the value of a digit string gives the string |
| Font.SignExtend4 | src/font.rs:114-121 | the 4-bit sign extension gives a value in `-8..8` congruent to the nibble modulo 16, negative exactly when the top bit is set |
| Font.Nibble | src/font.rs:114-121 | the nibble of a value in `-8..8` sign-extends back to that value |
| Font.SplitFields | src/font.rs:110-123 | the field widths bound each field |
| Font.CheckFields | src/font.rs:125-150 | exactly the bounds, enable-bit and fill checks of the loader accept a field set, and an accepted one is a well-formed instruction |
| Font.DecodeLine | src/font.rs:88-171 | a line is rejected as invalid exactly when it is not 18 bytes; an all-zero line is skipped; an accepted line is all bits and decodes to a well-formed instruction |
| Font.EncodeBits | src/font.rs:110-123 | the encoder places each field at the position the decoder reads it from |
| Font.DecodeEncode | src/font.rs:88-171 | decoding an encoded instruction gives it back |
| Font.EncodeDecode | src/font.rs:88-171 | encoding a decoded line gives the line back |
| Font.LoadInstructions | src/font.rs:83-175 | the loader fails on the first bad line or an instruction before any start bit, else it splits the decoded instructions at the start bits into non-empty symbols; there is one symbol per start bit |
| Font.CollectSpec | src/font.rs:86-173 | the grouping loop reaches that outcome from any state that keeps its invariant |
| Font.CountMarks | src/font.rs:152-158 | each non-empty symbol holds exactly one start mark |
| Font.BuildFont | src/font.rs:44-80 | the space gets id 0; the i-th key gets id i + 1 and the i-th symbol, in all four maps; the highest id is 80 |
| Font.LoadFont | src/font.rs:38-81 | the font loads exactly when the instructions load and give 80 symbols; the error otherwise |
| Font.LineBreakHasNoGlyph | src/font.rs:54-71 | a loaded font has neither a glyph nor a key under the line-break id 255 |
| Font.NumberedInverse | src/font.rs:54-71 | the key-to-id and id-to-key maps are inverse bijections, and the two symbol maps agree through them |
| Typewriter.WriteLetter | src/typewriter.rs:374-388 | draws the id at the cursor cell, which is the letter position while the caret is inside a row |
| Typewriter.Default | src/typewriter.rs:20-28 | the default editor is valid and empty, with the cursor top left and a zero line cache |
| Typewriter.ClearFromCursor | src/typewriter.rs:179-187 | one blank cell for each column from the cursor's to the end of its row, in order, and none past the last column |
| Typewriter.ClearRows | src/typewriter.rs:189-211 | every cell of the given rows, blanked row by row |
| Typewriter.BlankRowsCells | src/typewriter.rs:189-211 | the i-th emitted cell is column `i % 42` of row `lo + i / 42` |
| Typewriter.ClearBelowCursor | src/typewriter.rs:189-199 | blanks exactly the rows below the cursor's |
| Typewriter.ClearAboveCursor | src/typewriter.rs:201-211 | blanks exactly the rows above the cursor's |
| Typewriter.LineStart | src/typewriter.rs:247-265 | the start of the last line before an index: no line break from there on, a line break (or the buffer start) just before it |
| Typewriter.FindLineEnd | src/typewriter.rs:247-265 | the length of the last line before the caret modulo the row width, i.e. the caret's column on that line's last row |
| Typewriter.LineCacheFrom | src/typewriter.rs:213-245 | the per-line reference for the cache: at most one entry per remaining row, each a column |
| Typewriter.ScanIsLineCache | src/typewriter.rs:220-244 | the cell-by-cell backward scan equals the per-line reference on every input |
| Typewriter.UpdateLineCache | src/typewriter.rs:213-245 | the rebuilt cache holds the per-line reference entries for as many rows as the scan reaches; later rows keep their old entries |
| Typewriter.CacheHeadIsLineEnd | src/typewriter.rs:213-265 | the first cache entry is the caret column `find_line_end` gives, except when the line reaches the buffer start (one less then) |
| Typewriter.EmptyLineCacheZero | src/typewriter.rs:223-228 | a text ending in an empty line gets zero as its first two cache entries |
| Typewriter.AdvancedCaretIndex | src/cursor.rs:12-21 | k increments add k to the caret index, modulo the canvas size |
| Typewriter.RedrawFromCursor | src/typewriter.rs:340-372 | the k-th instruction draws the k-th character after the caret at the k-th caret step; it stops at the end of the text or after drawing at the canvas end; the cursor returns to where it was |
| Typewriter.RedrawFitsCanvas | src/typewriter.rs:350-369 | the forward redraw never draws more characters than cells remain after the caret |
| Typewriter.LettersOfLine | src/typewriter.rs:300-335 | the backward scan meets a text without line breaks in reverse |
| Typewriter.RedrawBeforeCursor | src/typewriter.rs:271-338 | draws a reversed tail of the text before the caret, line breaks skipped; returns at once on row 0 with a zero entry; panics only on a zero entry at a later row and certainly when the text ends in an empty line; the cursor returns to where it was |
| Typewriter.ScrollRedraw | src/typewriter.rs:57-64 | the last-row path: the cursor goes to column 0 and the cache is rebuilt; the output is exactly the rows above blanked, then the backward redraw (`ScrolledRedraw`); the panic after an empty line |
| Typewriter.TypeId | src/typewriter.rs:40-81 | the id is inserted before the caret. Away from the canvas end the output is the blank and the glyph at the cursor, then, when text follows and the advanced cursor is not at the canvas end, everything after it blanked and the text redrawn (`ClearedAndRedrawn`), else nothing more. At the canvas end the output is the last row blanked, the scroll redraw, then the same clear-and-redraw from column 0 when text follows; the cache holds the rebuilt entries, the entries past them keep their old values |
| Typewriter.TypeAtCanvasEnd | src/typewriter.rs:51-79 | the canvas-end path of typing: the whole output, from the last row's blank to the trailing clear-and-redraw, and the cache: the rebuilt entries, the entries past them unchanged |
| Typewriter.Backspace | src/typewriter.rs:84-114 | the character before the caret is removed. Over a line break the output starts with the caret's row blanked and the caret goes to the previous line's end column, panicking exactly on row 0; otherwise the cursor steps back. The rest of the output is exactly the redraw of the text after the new caret, or the blank of its cell when there is none |
| Typewriter.BackspaceCursor | src/typewriter.rs:91-108 | the cursor step of Backspace and its panic condition |
| Typewriter.RedrawOrBlank | src/typewriter.rs:109-113 | exactly the forward redraw from the caret, with its ids and cells, or the single blank at the caret cell when no text follows |
| Typewriter.RedrawAfter | src/typewriter.rs:91-113 | the blanked row of a removed line break, then exactly the redraw or the blank of `RedrawOrBlank` |
| Typewriter.CaretLeft | src/typewriter.rs:115-122 | the caret moves one character back in the text and one step back on the canvas; the text is unchanged; ignored at the text start |
| Typewriter.CaretRight | src/typewriter.rs:123-130 | the caret moves one character forward in the text and one step forward on the canvas; ignored at the text end |
| Typewriter.CaretLeftRight | src/typewriter.rs:115-130 | left then right returns to the same caret and text (caret not in column 0) |
| Typewriter.CaretRightLeft | src/typewriter.rs:115-130 | right then left returns to the same caret and text (caret not in column 0) |
| Typewriter.NewLine | src/typewriter.rs:131-168 | a line break is inserted before the caret. Away from the last row the output is exactly the rest of the row blanked, then everything from the next row's start blanked and the text after the caret redrawn there. On the last row it is the scroll redraw, then the same clear-and-redraw from column 0 of the last row; the cache holds the rebuilt entries, the entries past them keep their old values, and it panics after an empty line. A full buffer changes nothing |
| Typewriter.ReturnOnLastRow | src/typewriter.rs:140-167 | Return on the last row: the whole output (scroll redraw, then clear-and-redraw from column 0), the cache (rebuilt entries, the entries past them unchanged) and the panic after an empty line |
| Typewriter.ReturnBelow | src/typewriter.rs:149-167 | Return away from the last row: the output is exactly the rest of the row blanked, then the clear-and-redraw from the next row's start, where the caret ends |
| Typewriter.ClearAndRedraw | src/typewriter.rs:161-167 | exactly the rest of the caret's row and every row below blanked, then the forward redraw from the caret when text follows it, else nothing more |
| Typewriter.HandleInput | src/typewriter.rs:31-171 | each key's effect on the text, that ignored keys change nothing, that a missing glyph happens only with a font the loader cannot produce, and that the row-underflow panic needs Backspace on row 0 |

## Left out

- `src/main.rs`: the SDL window, the event loop, the renderer and the pixel drawing of glyph
  instructions are I/O.
- The font file is read with `read_to_string`. The model starts from its lines, as
  `str::lines` splits them. A missing file is I/O.
- SDL `Scancode` numbering and `Mod` bits: a key is a `Keyboard.Scancode` constructor and
  the shift state is one boolean. Both shift keys count.
- `println!` diagnostics and `dump_debug` produce only console output.
- `usize` arithmetic is unbounded here. An underflow the code can reach becomes a `Failure`
  or a Finding; release-mode wrap-around is not modelled.
- `WIDTH`, `HEIGHT`, `PIXEL_SIDE` and `TARGET_DISPLAY` in `src/config.rs` size the window
  only.
- Typewriter.RedrawBeforeCursor: the drawn characters are stated as a reversed tail of the
  text before the caret, and the positions as in range. Which tail and which exact cells
  depend on the line cache and are not stated.
- Typewriter.HandleInput: the drawing instructions are stated by TypeId, Backspace and
  NewLine, which it calls. HandleInput itself states only the effect on the text.
- Typewriter.CaretLeft / Typewriter.HandleInput: the Left key uses the corrected
  `Memory.MoveAfterCursor`. On a full buffer with one character before the caret, the source
  panics in `src/memory.rs` (the `usize` decrement of the after-caret index); the model
  succeeds there with that index at -1 (see Findings).

## Findings

| source | as written | input that shows it | evidently intended | confidence | as-written member | corrected member |
|---|---|---|---|---|---|---|
| src/memory.rs:43-47 | `pointer_after_cursor -= 1` on a `usize` | full buffer (`before == 1`, `after == 0`), caret-left key: `cursor_at_beginning` is false, so the move runs and the decrement underflows | the move keeps the text, with the gap empty and `after` one below the first cell | not executed | Memory.MoveAfterCursorAsWritten, Memory.MoveAfterCursorUnderflows | Memory.MoveAfterCursor |
