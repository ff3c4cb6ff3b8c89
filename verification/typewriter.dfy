/** The editor: it turns key presses into edits of the gap buffer, moves of the cursor and
    a list of cells to redraw. */
module Typewriter {
  import opened Config
  import opened Wrappers
  import Memory
  import Cursor
  import Font
  import Keyboard

  /** Draw glyph `id` into cell `(posX, posY)`; id 0 is the blank. */
  datatype LetterInstruction = LetterInstruction(posX: nat, posY: nat, id: byte)

  /** Cursor, text and the per-row line lengths of the last rebuild. */
  datatype Typewriter = Typewriter(cursor: Cursor.CursorPointer, memory: Memory.Memory, lineCache: seq<nat>)

  /** The reasons handling a key aborts the program. */
  datatype PanicReason =
    | PreviousLineUnderflow   // Backspace over a line break with the cursor on row 0
    | LineCacheUnderflow      // a zero line-cache entry read while redrawing backwards
    | MissingGlyph            // a typed character without an id in the font

  /** The state every key press keeps: a consistent buffer, the cursor on the canvas and one
      cache entry per row, each a column. */
  ghost predicate Valid(t: Typewriter) {
    && Memory.Valid(t.memory)
    && Cursor.InCaretRange(t.cursor)
    && |t.lineCache| == CHAR_HEIGHT
    && forall k :: 0 <= k < CHAR_HEIGHT ==> t.lineCache[k] < CHAR_WIDTH
  }

  /** An empty editor with the cursor in the top-left corner. */
  function Default(): (t: Typewriter)
    ensures Valid(t) && Memory.Text(t.memory) == []
    ensures Cursor.IsAtCanvasStart(t.cursor)
    ensures forall k :: 0 <= k < |t.lineCache| ==> t.lineCache[k] == 0
  {
    Typewriter(Cursor.Default(), Memory.Default(), seq(CHAR_HEIGHT, _ => 0))
  }

  /** The instruction that draws `id` at the cursor's raw position. */
  function WriteLetter(c: Cursor.CursorPointer, id: byte): (r: LetterInstruction)
    ensures (r.posX, r.posY) == Cursor.GetDrawCursorPosition(c) && r.id == id
    ensures c.x < CHAR_WIDTH ==> (r.posX, r.posY) == Cursor.GetDrawLetterPosition(c)
  {
    LetterInstruction(c.x, c.y, id)
  }

  /** A cursor at `(x, y)` with an empty backup slot: where drawing goes depends on the
      position alone (see `AdvancedIgnoresBackup`). */
  function At(x: nat, y: nat): Cursor.CursorPointer {
    Cursor.CursorPointer(0, 0, x, y)
  }

  /** The glyph ids the instructions draw, in order. */
  function Ids(out: seq<LetterInstruction>): (r: seq<byte>)
    ensures |r| == |out| && forall i :: 0 <= i < |out| ==> r[i] == out[i].id
  {
    seq(|out|, i requires 0 <= i < |out| => out[i].id)
  }

  // ---------------------------------------------------------------------------------------
  // Blank-cell emitters

  /** Every cell of row `y`, blanked, left to right. */
  function BlankRow(y: nat): (r: seq<LetterInstruction>)
    ensures |r| == CHAR_WIDTH
  {
    seq(CHAR_WIDTH, i requires 0 <= i < CHAR_WIDTH => LetterInstruction(i, y, 0))
  }

  /** Every cell of rows `lo..hi`, blanked, row by row. */
  function BlankRows(lo: nat, hi: nat): (r: seq<LetterInstruction>)
    decreases hi
  {
    if hi <= lo then [] else BlankRows(lo, hi - 1) + BlankRow(hi - 1)
  }

  /** `BlankRows` lists the cells of the rows in row-major order, each blank. */
  lemma {:induction false} BlankRowsCells(lo: nat, hi: nat)
    ensures |BlankRows(lo, hi)| == if hi <= lo then 0 else (hi - lo) * CHAR_WIDTH
    ensures forall i :: 0 <= i < |BlankRows(lo, hi)| ==>
      BlankRows(lo, hi)[i] == LetterInstruction(i % CHAR_WIDTH, lo + i / CHAR_WIDTH, 0)
    decreases hi
  {
    if hi > lo {
      BlankRowsCells(lo, hi - 1);
      var prev := BlankRows(lo, hi - 1);
      assert |prev| == (hi - 1 - lo) * CHAR_WIDTH;
      forall i | 0 <= i < |BlankRows(lo, hi)|
        ensures BlankRows(lo, hi)[i] == LetterInstruction(i % CHAR_WIDTH, lo + i / CHAR_WIDTH, 0)
      {
        if i >= |prev| {
          var j := i - |prev|;
          assert i == (hi - 1 - lo) * CHAR_WIDTH + j;
          assert i % CHAR_WIDTH == j && i / CHAR_WIDTH == hi - 1 - lo;
        }
      }
    }
  }

  /** The blank cells of row `y` from column `x` to the end of the row. */
  function RowRest(x: nat, y: nat): (r: seq<LetterInstruction>)
    ensures |r| == if x < CHAR_WIDTH then CHAR_WIDTH - x else 0
    ensures forall i :: 0 <= i < |r| ==> r[i] == LetterInstruction(x + i, y, 0)
  {
    seq(if x < CHAR_WIDTH then CHAR_WIDTH - x else 0, i requires 0 <= i => LetterInstruction(x + i, y, 0))
  }

  /** `clear_from_cursor`: blanks row `y` from column `x` to the end of the row. */
  method ClearFromCursor(c: Cursor.CursorPointer) returns (out: seq<LetterInstruction>)
    ensures |out| == if c.x < CHAR_WIDTH then CHAR_WIDTH - c.x else 0
    ensures forall i :: 0 <= i < |out| ==> out[i] == LetterInstruction(c.x + i, c.y, 0)
    ensures out == RowRest(c.x, c.y)
  {
    out := [];
    var x := c.x;
    while x < CHAR_WIDTH
      invariant x == c.x || c.x < x <= CHAR_WIDTH
      invariant |out| == if x <= c.x then 0 else x - c.x
      invariant forall i :: 0 <= i < |out| ==> out[i] == LetterInstruction(c.x + i, c.y, 0)
    {
      out := out + [LetterInstruction(x, c.y, 0)];
      x := x + 1;
    }
  }

  /** Blanks every row of `lo..hi`. */
  method ClearRows(lo: nat, hi: nat) returns (out: seq<LetterInstruction>)
    ensures out == BlankRows(lo, hi)
  {
    out := [];
    var y := lo;
    while y < hi
      invariant y == lo || lo < y <= hi
      invariant out == BlankRows(lo, if y <= lo then lo else y)
    {
      var x := 0;
      ghost var rowStart := out;
      while x < CHAR_WIDTH
        invariant 0 <= x <= CHAR_WIDTH
        invariant out == rowStart + BlankRow(y)[..x]
      {
        out := out + [LetterInstruction(x, y, 0)];
        x := x + 1;
        assert BlankRow(y)[..x] == BlankRow(y)[..x - 1] + [LetterInstruction(x - 1, y, 0)];
      }
      assert BlankRow(y)[..x] == BlankRow(y);
      y := y + 1;
    }
  }

  /** `clear_below_cursor`: blanks every row below the cursor's row. */
  method ClearBelowCursor(c: Cursor.CursorPointer) returns (out: seq<LetterInstruction>)
    ensures out == BlankRows(c.y + 1, CHAR_HEIGHT)
  {
    out := ClearRows(c.y + 1, CHAR_HEIGHT);
  }

  /** `clear_above_cursor`: blanks every row above the cursor's row. */
  method ClearAboveCursor(c: Cursor.CursorPointer) returns (out: seq<LetterInstruction>)
    ensures out == BlankRows(0, c.y)
  {
    out := ClearRows(0, c.y);
  }

  // ---------------------------------------------------------------------------------------
  // Backward scans

  /** Index just after the last line break among the first `j` cells of `p`, or 0 when
      they hold none. */
  function LineStart(p: seq<byte>, j: nat): (ls: nat)
    requires j <= |p|
    ensures ls <= j
    ensures forall i :: ls <= i < j ==> p[i] != NEWLINE
    ensures ls > 0 ==> p[ls - 1] == NEWLINE
    decreases j
  {
    if j == 0 then 0 else if p[j - 1] == NEWLINE then j else LineStart(p, j - 1)
  }

  /** The column, on the last row of its line, of the slot just after the first `j` cells
      of `p`: the characters since the last line break before it, modulo the row width. */
  function LineEndColumn(p: seq<byte>, j: nat): nat
    requires j <= |p|
  {
    (j - LineStart(p, j)) % CHAR_WIDTH
  }

  /** The three properties of `LineStart` single it out. */
  lemma LineStartUnique(p: seq<byte>, j: nat, ls: nat)
    requires ls <= j <= |p| && (ls == 0 || p[ls - 1] == NEWLINE)
    requires forall i :: ls <= i < j ==> p[i] != NEWLINE
    ensures LineStart(p, j) == ls
  {
  }

  /** `find_line_end`: the number of characters between the last line break before the
      caret (or the buffer start) and the caret, modulo the row width: the column the caret
      has on the last row of that line. */
  method FindLineEnd(m: Memory.Memory) returns (r: nat)
    requires Memory.Valid(m)
    ensures r < CHAR_WIDTH
    ensures r == LineEndColumn(m.cells, m.before)
  {
    var counter := 0;
    var index := m.before;
    while index != 0
      invariant 0 <= index <= m.before
      invariant counter == (m.before - index) % CHAR_WIDTH
      invariant forall i :: index <= i < m.before ==> m.cells[i] != NEWLINE
    {
      index := index - 1;
      var value := m.cells[index];
      if value == NEWLINE {
        LineStartUnique(m.cells, m.before, index + 1);
        return counter;
      }
      counter := counter + 1;
      if counter == CHAR_WIDTH {
        counter := 0;
      }
    }
    LineStartUnique(m.cells, m.before, 0);
    return counter;
  }

  /** The line-cache entries a backward scan writes when the cells `p[..j]` are still to
      scan (the last one first), `visible` rows are accounted for and `counter` characters
      are counted on the current row. Per logical line: its characters are counted, each
      row-width worth takes one more visible row, and the remainder is written as the entry.
      The cell at index 0 ends the scan without being counted. */
  function LineCacheFrom(p: seq<byte>, j: nat, visible: nat, counter: nat): (e: seq<nat>)
    requires 0 < j <= |p| && counter < CHAR_WIDTH
    ensures 1 <= |e| <= (if visible < CHAR_HEIGHT then CHAR_HEIGHT - visible else 1)
    ensures forall k :: 0 <= k < |e| ==> e[k] < CHAR_WIDTH
    decreases j
  {
    var ls := LineStart(p, j);
    var counted := if ls == 0 then j - 1 else j - ls;
    var total := counter + counted;
    var v := visible + Rows(total) + 1;
    [Column(total)] + (if v >= CHAR_HEIGHT || ls <= 1 then [] else LineCacheFrom(p, ls - 1, v, 0))
  }

  /** A line break, or the cell at index 0, writes the current counter. */
  lemma WriteStep(p: seq<byte>, j: nat, visible: nat, counter: nat)
    requires 0 < j <= |p| && counter < CHAR_WIDTH
    requires p[j - 1] == NEWLINE || j == 1
    ensures LineCacheFrom(p, j, visible, counter) == [counter] +
      (if visible + 1 >= CHAR_HEIGHT || j == 1 then [] else LineCacheFrom(p, j - 1, visible + 1, 0))
  {
    if visible + 1 >= CHAR_HEIGHT || j == 1 {
      LastWriteStep(p, j, visible, counter);
    } else {
      MidWriteStep(p, j, visible, counter);
    }
  }

  /** The write that ends the scan: at the cell at index 0 or on the last visible row. */
  lemma LastWriteStep(p: seq<byte>, j: nat, visible: nat, counter: nat)
    requires 0 < j <= |p| && counter < CHAR_WIDTH
    requires p[j - 1] == NEWLINE || j == 1
    requires visible + 1 >= CHAR_HEIGHT || j == 1
    ensures LineCacheFrom(p, j, visible, counter) == [counter]
  {
  }

  /** A write that continues the scan on the next visible row. */
  lemma MidWriteStep(p: seq<byte>, j: nat, visible: nat, counter: nat)
    requires 1 < j <= |p| && counter < CHAR_WIDTH && p[j - 1] == NEWLINE
    requires visible + 1 < CHAR_HEIGHT
    ensures LineCacheFrom(p, j, visible, counter) == [counter] + LineCacheFrom(p, j - 1, visible + 1, 0)
  {
  }

  /** Any other cell is counted, and a full row takes one more visible row. */
  lemma CountStep(p: seq<byte>, j: nat, visible: nat, counter: nat)
    requires 1 < j <= |p| && counter < CHAR_WIDTH && p[j - 1] != NEWLINE
    ensures LineCacheFrom(p, j, visible, counter) ==
      if counter + 1 == CHAR_WIDTH then LineCacheFrom(p, j - 1, visible + 1, 0)
      else LineCacheFrom(p, j - 1, visible, counter + 1)
  {
    if counter + 1 == CHAR_WIDTH {
      WrapCountStep(p, j, visible, counter);
    } else {
      RowCountStep(p, j, visible, counter);
    }
  }

  /** A counted cell inside the current row. */
  lemma RowCountStep(p: seq<byte>, j: nat, visible: nat, counter: nat)
    requires 1 < j <= |p| && counter + 1 < CHAR_WIDTH && p[j - 1] != NEWLINE
    ensures LineCacheFrom(p, j, visible, counter) == LineCacheFrom(p, j - 1, visible, counter + 1)
  {
    assert LineStart(p, j) == LineStart(p, j - 1);
  }

  /** A counted cell that fills the current row. */
  lemma WrapCountStep(p: seq<byte>, j: nat, visible: nat, counter: nat)
    requires 1 < j <= |p| && counter + 1 == CHAR_WIDTH && p[j - 1] != NEWLINE
    ensures LineCacheFrom(p, j, visible, counter) == LineCacheFrom(p, j - 1, visible + 1, 0)
  {
    assert LineStart(p, j) == LineStart(p, j - 1);
  }

  /** `total` characters fill `Rows(total)` whole rows and leave `Column(total)` characters
      on the row after them. */
  function Rows(total: nat): nat
    decreases total
  {
    if total < CHAR_WIDTH then 0 else Rows(total - CHAR_WIDTH) + 1
  }

  function Column(total: nat): (col: nat)
    ensures col < CHAR_WIDTH
    decreases total
  {
    if total < CHAR_WIDTH then total else Column(total - CHAR_WIDTH)
  }

  /** Rows and column are the quotient and remainder by the row width. */
  lemma {:induction false} RowsColumn(total: nat)
    ensures Rows(total) == total / CHAR_WIDTH && Column(total) == total % CHAR_WIDTH
    decreases total
  {
    if total >= CHAR_WIDTH {
      RowsColumn(total - CHAR_WIDTH);
    }
  }

  /** The same entries, one cell at a time, as the backward scan of `update_line_cache`
      produces them: a line break or the cell at index 0 writes the counter, any other cell
      is counted, and a full row starts a new visible row. */
  function ScanFrom(p: seq<byte>, j: nat, visible: nat, counter: nat): (e: seq<nat>)
    requires 0 < j <= |p| && counter < CHAR_WIDTH
    ensures 1 <= |e| <= (if visible < CHAR_HEIGHT then CHAR_HEIGHT - visible else 1)
    decreases j
  {
    if p[j - 1] == NEWLINE || j == 1 then
      [counter] + (if visible + 1 >= CHAR_HEIGHT || j == 1 then [] else ScanFrom(p, j - 1, visible + 1, 0))
    else if counter + 1 == CHAR_WIDTH then ScanFrom(p, j - 1, visible + 1, 0)
    else ScanFrom(p, j - 1, visible, counter + 1)
  }

  /** The cell-by-cell scan and the per-line definition agree on every input. */
  lemma {:induction false} ScanIsLineCache(p: seq<byte>, j: nat, visible: nat, counter: nat)
    requires 0 < j <= |p| && counter < CHAR_WIDTH
    ensures ScanFrom(p, j, visible, counter) == LineCacheFrom(p, j, visible, counter)
    decreases j, 1
  {
    if p[j - 1] == NEWLINE || j == 1 {
      ScanIsLineCacheWrite(p, j, visible, counter);
    } else {
      ScanIsLineCacheCount(p, j, visible, counter);
    }
  }

  lemma {:induction false} ScanIsLineCacheWrite(p: seq<byte>, j: nat, visible: nat, counter: nat)
    requires 0 < j <= |p| && counter < CHAR_WIDTH && (p[j - 1] == NEWLINE || j == 1)
    ensures ScanFrom(p, j, visible, counter) == LineCacheFrom(p, j, visible, counter)
    decreases j, 0
  {
    if visible + 1 >= CHAR_HEIGHT || j == 1 {
      LastWriteStep(p, j, visible, counter);
    } else {
      var rest := ScanFrom(p, j - 1, visible + 1, 0);
      assert ScanFrom(p, j, visible, counter) == [counter] + rest;
      ScanIsLineCache(p, j - 1, visible + 1, 0);
      MidWriteStep(p, j, visible, counter);
    }
  }

  lemma {:induction false} ScanIsLineCacheCount(p: seq<byte>, j: nat, visible: nat, counter: nat)
    requires 1 < j <= |p| && counter < CHAR_WIDTH && p[j - 1] != NEWLINE
    ensures ScanFrom(p, j, visible, counter) == LineCacheFrom(p, j, visible, counter)
    decreases j, 0
  {
    CountStep(p, j, visible, counter);
    if counter + 1 == CHAR_WIDTH {
      ScanIsLineCache(p, j - 1, visible + 1, 0);
    } else {
      ScanIsLineCache(p, j - 1, visible, counter + 1);
    }
  }

  /** `update_line_cache`: scans backwards from the caret and overwrites the first entries of
      the cache with the line lengths of `LineCacheFrom`; the other entries keep their old
      values. At most `CHAR_HEIGHT` entries are written and each is below `CHAR_WIDTH`. */
  method UpdateLineCache(m: Memory.Memory, cache: seq<nat>) returns (cache': seq<nat>)
    requires Memory.Valid(m) && m.before >= 1 && |cache| == CHAR_HEIGHT
    ensures |cache'| == CHAR_HEIGHT
    ensures var e := LineCacheFrom(m.cells, m.before, 0, 0);
      forall k :: 0 <= k < CHAR_HEIGHT ==> cache'[k] == if k < |e| then e[k] else cache[k]
  {
    cache' := ScanLineCache(m, cache);
    ScanIsLineCache(m.cells, m.before, 0, 0);
  }

  /** The loop of `update_line_cache`, stated against the cell-by-cell `ScanFrom`. */
  method ScanLineCache(m: Memory.Memory, cache: seq<nat>) returns (cache': seq<nat>)
    requires Memory.Valid(m) && m.before >= 1 && |cache| == CHAR_HEIGHT
    ensures |cache'| == CHAR_HEIGHT
    ensures var e := ScanFrom(m.cells, m.before, 0, 0);
      forall k :: 0 <= k < CHAR_HEIGHT ==> cache'[k] == if k < |e| then e[k] else cache[k]
  {
    ghost var e := ScanFrom(m.cells, m.before, 0, 0);
    var memIndex: nat := m.before - 1;
    var lineIndex: nat := 0;
    var counter: nat := 0;
    var visible: nat := 0;
    cache' := cache;
    while true
      invariant memIndex < m.before && counter < CHAR_WIDTH
      invariant lineIndex <= |e| && e[lineIndex..] == ScanFrom(m.cells, memIndex + 1, visible, counter)
      invariant cache' == e[..lineIndex] + cache[lineIndex..]
      decreases memIndex
    {
      var value := m.cells[memIndex];
      if value == NEWLINE || memIndex == 0 {
        WriteKeepsScan(m.cells, e, cache, lineIndex, memIndex, visible, counter);
        cache' := cache'[lineIndex := counter];
        if visible + 1 >= CHAR_HEIGHT || memIndex == 0 {
          CacheFull(cache, e);
          break;
        }
        lineIndex := lineIndex + 1;
        counter := 0;
        visible := visible + 1;
      } else {
        ScanCountStep(m.cells, memIndex + 1, visible, counter);
        counter := counter + 1;
        if counter == CHAR_WIDTH {
          counter := 0;
          visible := visible + 1;
        }
      }
      memIndex := memIndex - 1;
    }
  }

  /** One step of `ScanFrom` over a line break or the first cell: the counter is the next
      entry, and the scan goes on past it unless the rows or the text run out. */
  lemma ScanWriteStep(p: seq<byte>, j: nat, visible: nat, counter: nat)
    requires 0 < j <= |p| && counter < CHAR_WIDTH && (p[j - 1] == NEWLINE || j == 1)
    ensures ScanFrom(p, j, visible, counter)[0] == counter
    ensures visible + 1 >= CHAR_HEIGHT || j == 1 ==> |ScanFrom(p, j, visible, counter)| == 1
    ensures !(visible + 1 >= CHAR_HEIGHT || j == 1) ==>
      ScanFrom(p, j, visible, counter)[1..] == ScanFrom(p, j - 1, visible + 1, 0)
  {
  }

  /** One step of `ScanFrom` over any other character: it is counted, and a full row starts
      the next visible row. */
  lemma ScanCountStep(p: seq<byte>, j: nat, visible: nat, counter: nat)
    requires 1 < j <= |p| && counter < CHAR_WIDTH && p[j - 1] != NEWLINE
    ensures ScanFrom(p, j, visible, counter) ==
      if counter + 1 == CHAR_WIDTH then ScanFrom(p, j - 1, visible + 1, 0)
      else ScanFrom(p, j - 1, visible, counter + 1)
  {
  }

  /** The write branch of `ScanLineCache`'s loop keeps its invariant: the counter is entry
      `li` of the scan, and either the scan ends there or goes on at the previous cell. */
  lemma WriteKeepsScan(p: seq<byte>, e: seq<nat>, cache: seq<nat>, li: nat, mi: nat,
                       visible: nat, counter: nat)
    requires mi < |p| && counter < CHAR_WIDTH && (p[mi] == NEWLINE || mi == 0)
    requires li <= |e| <= |cache| && e[li..] == ScanFrom(p, mi + 1, visible, counter)
    ensures li < |e| && e[li] == counter
    ensures (e[..li] + cache[li..])[li := counter] == e[..li + 1] + cache[li + 1..]
    ensures visible + 1 >= CHAR_HEIGHT || mi == 0 ==> li + 1 == |e|
    ensures !(visible + 1 >= CHAR_HEIGHT || mi == 0) ==>
      e[li + 1..] == ScanFrom(p, mi, visible + 1, 0)
  {
    ScanWriteStep(p, mi + 1, visible, counter);
    assert e[li..][0] == counter;
    CacheWrite(cache, e, li);
    assert e[li + 1..] == e[li..][1..];
  }

  /** Writing entry `i` of `e` into a cache that already holds `e[..i]`. */
  lemma CacheWrite(cache: seq<nat>, e: seq<nat>, i: nat)
    requires i < |e| <= |cache|
    ensures (e[..i] + cache[i..])[i := e[i]] == e[..i + 1] + cache[i + 1..]
  {
    assert e[..i + 1] == e[..i] + [e[i]];
  }

  /** A cache holding all of `e` agrees with `e` on its first entries and with the old
      cache on the rest. */
  lemma CacheFull(cache: seq<nat>, e: seq<nat>)
    requires |e| <= |cache|
    ensures |e[..|e|] + cache[|e|..]| == |cache|
    ensures forall k :: 0 <= k < |cache| ==>
      (e[..|e|] + cache[|e|..])[k] == if k < |e| then e[k] else cache[k]
  {
  }

  /** The first entry is the caret's column as `FindLineEnd` computes it, except when the
      line reaches back to the buffer start: the cell at index 0 is not counted then. */
  lemma CacheHeadIsLineEnd(p: seq<byte>, j: nat)
    requires 0 < j <= |p|
    ensures LineStart(p, j) > 0 ==> LineCacheFrom(p, j, 0, 0)[0] == (j - LineStart(p, j)) % CHAR_WIDTH
    ensures LineStart(p, j) == 0 ==> LineCacheFrom(p, j, 0, 0)[0] == (j - 1) % CHAR_WIDTH
  {
    var ls := LineStart(p, j);
    RowsColumn(if ls == 0 then j - 1 else j - ls);
  }

  /** A text before the caret that ends in an empty line has zero as its first two entries. */
  lemma EmptyLineCacheZero(p: seq<byte>, j: nat)
    requires 2 <= j <= |p| && p[j - 1] == NEWLINE && p[j - 2] == NEWLINE
    ensures |LineCacheFrom(p, j, 0, 0)| >= 2
    ensures LineCacheFrom(p, j, 0, 0)[0] == 0 && LineCacheFrom(p, j, 0, 0)[1] == 0
  {
    WriteStep(p, j, 0, 0);
    WriteStep(p, j - 1, 1, 0);
  }

  // ---------------------------------------------------------------------------------------
  // Forward redraw

  /** The cursor after `k` increments. */
  function Advanced(c: Cursor.CursorPointer, k: nat): (r: Cursor.CursorPointer)
    ensures Cursor.SameBackup(r, c)
    ensures Cursor.InCaretRange(c) ==> Cursor.InCaretRange(r)
    ensures k > 0 && Cursor.InCaretRange(c) ==> 1 <= r.x
    decreases k
  {
    if k == 0 then c else Cursor.Increment(Advanced(c, k - 1))
  }

  /** The backup slot plays no part in where the increments lead. */
  lemma {:induction false} AdvancedIgnoresBackup(c: Cursor.CursorPointer, d: Cursor.CursorPointer, k: nat)
    requires c.x == d.x && c.y == d.y
    ensures Advanced(c, k).x == Advanced(d, k).x && Advanced(c, k).y == Advanced(d, k).y
    decreases k
  {
    if k > 0 {
      AdvancedIgnoresBackup(c, d, k - 1);
    }
  }

  /** From a caret position with column at least 1, `k` increments add `k` to the caret index,
      modulo the canvas size. */
  lemma {:induction false} AdvancedCaretIndex(c: Cursor.CursorPointer, k: nat)
    requires Cursor.InCaretRange(c) && 1 <= c.x
    ensures Cursor.CaretIndex(Advanced(c, k)) == (Cursor.CaretIndex(c) + k) % CELL_COUNT
    decreases k
  {
    if k > 0 {
      AdvancedCaretIndex(c, k - 1);
      Cursor.IncrementAdvancesCaret(Advanced(c, k - 1));
      ModSucc(Cursor.CaretIndex(c) + k - 1);
    }
  }

  /** Adding one commutes with reduction modulo the canvas size. */
  lemma ModSucc(n: nat)
    ensures (n % CELL_COUNT + 1) % CELL_COUNT == (n + 1) % CELL_COUNT
  {
    assert CELL_COUNT == 420;
  }

  /** `redraw_from_cursor`: draws the text after the caret from the caret on, one character per
      caret step, until the text ends or a character has been drawn at the canvas end; the
      cursor comes back to where it started, with the backup slot holding that position.
      The caller guarantees that some text follows the caret. */
  method RedrawFromCursor(m: Memory.Memory, c: Cursor.CursorPointer)
    returns (out: seq<LetterInstruction>, c': Cursor.CursorPointer)
    requires Memory.Valid(m) && !Memory.CursorAtEnd(m)
    ensures c' == Cursor.Backup(c)
    ensures 1 <= |out| <= |Memory.Suffix(m)|
    ensures forall k :: 0 <= k < |out| ==>
      out[k] == LetterInstruction(Advanced(c, k).x, Advanced(c, k).y, Memory.Suffix(m)[k])
    ensures forall k :: 0 <= k < |out| - 1 ==> !Cursor.IsAtCanvasEnd(Advanced(c, k))
    ensures |out| < |Memory.Suffix(m)| ==> Cursor.IsAtCanvasEnd(Advanced(c, |out| - 1))
    ensures Ids(out) == Memory.Suffix(m)[..|out|]
    ensures ForwardRedraw(out, m, c.x, c.y)
  {
    var cur;
    out, cur := DrawForward(m, Cursor.Backup(c));
    c' := Cursor.Restore(cur);
    forall k | 0 <= k <= |out|
      ensures Advanced(c, k).x == Advanced(Cursor.Backup(c), k).x
      ensures Advanced(c, k).y == Advanced(Cursor.Backup(c), k).y
      ensures Advanced(c, k).x == Advanced(At(c.x, c.y), k).x
      ensures Advanced(c, k).y == Advanced(At(c.x, c.y), k).y
    {
      AdvancedIgnoresBackup(c, Cursor.Backup(c), k);
      AdvancedIgnoresBackup(c, At(c.x, c.y), k);
    }
    IdsPrefix(out, Memory.Suffix(m));
  }

  /** The drawing loop of `redraw_from_cursor`, before the cursor is restored. */
  method DrawForward(m: Memory.Memory, c: Cursor.CursorPointer)
    returns (out: seq<LetterInstruction>, cur: Cursor.CursorPointer)
    requires Memory.Valid(m) && !Memory.CursorAtEnd(m)
    ensures Cursor.SameBackup(cur, c)
    ensures 1 <= |out| <= MEMORY_SIZE - 1 - m.after
    ensures forall k :: 0 <= k < |out| ==> out[k] == WriteLetter(Advanced(c, k), m.cells[m.after + 1 + k])
    ensures forall k :: 0 <= k < |out| - 1 ==> !Cursor.IsAtCanvasEnd(Advanced(c, k))
    ensures |out| < MEMORY_SIZE - 1 - m.after ==> Cursor.IsAtCanvasEnd(Advanced(c, |out| - 1))
  {
    cur := c;
    var pointer: nat := m.after + 1;
    out := [];
    while true
      invariant m.after + 1 <= pointer < MEMORY_SIZE
      invariant |out| == pointer - (m.after + 1)
      invariant cur == Advanced(c, |out|)
      invariant forall k :: 0 <= k < |out| ==> out[k] == WriteLetter(Advanced(c, k), m.cells[m.after + 1 + k])
      invariant forall k :: 0 <= k < |out| ==> !Cursor.IsAtCanvasEnd(Advanced(c, k))
      decreases MEMORY_SIZE - pointer
    {
      DrawStep(m.cells, m.after + 1, c, out);
      out := out + [WriteLetter(cur, m.cells[pointer])];
      if Cursor.IsAtCanvasEnd(cur) {
        break;
      }
      cur := Cursor.Increment(cur);
      if pointer == MEMORY_SIZE - 1 {
        break;
      }
      pointer := pointer + 1;
    }
  }

  /** One more character drawn at the next caret step. */
  lemma DrawStep(cells: seq<byte>, from: nat, c: Cursor.CursorPointer, out: seq<LetterInstruction>)
    requires from + |out| < |cells|
    requires forall k :: 0 <= k < |out| ==> out[k] == WriteLetter(Advanced(c, k), cells[from + k])
    ensures var out' := out + [WriteLetter(Advanced(c, |out|), cells[from + |out|])];
      forall k :: 0 <= k < |out'| ==> out'[k] == WriteLetter(Advanced(c, k), cells[from + k])
  {
  }

  /** Instructions whose ids run along `s` draw a prefix of `s`. */
  lemma IdsPrefix(out: seq<LetterInstruction>, s: seq<byte>)
    requires |out| <= |s| && forall k :: 0 <= k < |out| ==> out[k].id == s[k]
    ensures Ids(out) == s[..|out|]
  {
  }

  /** Started at a caret position with column at least 1, the forward redraw never runs past
      the canvas end: it draws at most as many characters as cells remain. */
  lemma RedrawFitsCanvas(c: Cursor.CursorPointer, n: nat)
    requires Cursor.InCaretRange(c) && 1 <= c.x && n >= 1
    requires forall k :: 0 <= k < n - 1 ==> !Cursor.IsAtCanvasEnd(Advanced(c, k))
    ensures Cursor.CaretIndex(c) + n <= CELL_COUNT
    ensures Cursor.CaretIndex(Advanced(c, n - 1)) == Cursor.CaretIndex(c) + n - 1
  {
    var i := Cursor.CaretIndex(c);
    var k := 0;
    while k < n - 1
      invariant 0 <= k <= n - 1
      invariant i + k < CELL_COUNT
      invariant Cursor.CaretIndex(Advanced(c, k)) == i + k
    {
      Cursor.BoundaryPredicates(Advanced(c, k));
      AdvancedCaretIndex(c, k + 1);
      k := k + 1;
    }
  }

  /** What `redraw_from_cursor` emits when started at `(x, y)`: the k-th character after the
      caret drawn at the k-th caret step, up to the end of the text or up to and including the
      first step that lands on the canvas end. */
  ghost predicate ForwardRedraw(d: seq<LetterInstruction>, m: Memory.Memory, x: nat, y: nat)
    requires Memory.Valid(m)
  {
    var s := Memory.Suffix(m);
    && 1 <= |d| <= |s|
    && (forall k :: 0 <= k < |d| ==> d[k] == WriteLetter(Advanced(At(x, y), k), s[k]))
    && (forall k :: 0 <= k < |d| - 1 ==> !Cursor.IsAtCanvasEnd(Advanced(At(x, y), k)))
    && (|d| < |s| ==> Cursor.IsAtCanvasEnd(Advanced(At(x, y), |d| - 1)))
  }

  /** The forward redraw from `(x, y)`, or the blank at `(x, y)` when no text follows the
      caret. */
  ghost predicate RedrawnOrBlanked(d: seq<LetterInstruction>, m: Memory.Memory, x: nat, y: nat)
    requires Memory.Valid(m)
  {
    if Memory.CursorAtEnd(m) then d == [LetterInstruction(x, y, 0)] else ForwardRedraw(d, m, x, y)
  }

  /** Everything from `(x, y)` to the canvas end blanked, then the forward redraw from `(x, y)`
      when text follows the caret. */
  ghost predicate ClearedAndRedrawn(d: seq<LetterInstruction>, m: Memory.Memory, x: nat, y: nat)
    requires Memory.Valid(m)
  {
    var blank := RowRest(x, y) + BlankRows(y + 1, CHAR_HEIGHT);
    && |blank| <= |d| && d[..|blank|] == blank
    && (if Memory.CursorAtEnd(m) then |d| == |blank| else ForwardRedraw(d[|blank|..], m, x, y))
  }

  // ---------------------------------------------------------------------------------------
  // Backward redraw

  /** The characters among `p[lo..hi]`, line breaks left out, from the last one to the first:
      the order in which a backward scan from `hi` meets them. */
  function Letters(p: seq<byte>, lo: nat, hi: nat): (r: seq<byte>)
    requires lo <= hi <= |p|
    ensures |r| <= hi - lo
    ensures forall i :: 0 <= i < |r| ==> r[i] != NEWLINE
    decreases hi - lo
  {
    if lo == hi then [] else Letters(p, lo + 1, hi) + (if p[lo] == NEWLINE then [] else [p[lo]])
  }

  /** `Letters` reverses the text with its line breaks removed: a text without line breaks
      comes back reversed in full. */
  lemma {:induction false} LettersOfLine(p: seq<byte>, lo: nat, hi: nat)
    requires lo <= hi <= |p|
    requires forall i :: lo <= i < hi ==> p[i] != NEWLINE
    ensures |Letters(p, lo, hi)| == hi - lo
    ensures forall i :: 0 <= i < hi - lo ==> Letters(p, lo, hi)[i] == p[hi - 1 - i]
    decreases hi - lo
  {
    if lo < hi {
      LettersOfLine(p, lo + 1, hi);
    }
  }

  lemma IdsAppend(out: seq<LetterInstruction>, li: LetterInstruction)
    ensures Ids(out + [li]) == Ids(out) + [li.id]
  {
  }

  /** `redraw_before_cursor`: redraws the text before the caret backwards, starting from the
      end of the last line as the line cache records it, moving up one row per line break,
      until the text, the canvas top or `CHAR_HEIGHT` line breaks run out. The caller
      guarantees that some text precedes the caret. A zero line-cache entry read at a line
      break makes the program panic (the `usize` subtraction `cache - 1` underflows). */
  method RedrawBeforeCursor(m: Memory.Memory, c: Cursor.CursorPointer, cache: seq<nat>)
    returns (r: Result<(seq<LetterInstruction>, Cursor.CursorPointer), PanicReason>)
    requires Memory.Valid(m) && m.before >= 1 && |cache| == CHAR_HEIGHT
    ensures r.Success? ==> r.value.1 == Cursor.Backup(c)
    ensures r.Success? ==> exists stop :: 0 <= stop <= m.before && Ids(r.value.0) == Letters(m.cells, stop, m.before)
    ensures cache[0] == 0 && c.y == 0 ==> r == Success(([], Cursor.Backup(c)))
    ensures r.Failure? ==> r.error == LineCacheUnderflow && exists k :: 1 <= k < CHAR_HEIGHT && cache[k] == 0
    ensures (&& cache[0] == 0 && cache[1] == 0 && m.cells[m.before - 1] == NEWLINE
             && 1 <= c.y && (c.x != 0 || 2 <= c.y)) ==> r == Failure(LineCacheUnderflow)
    ensures Cursor.InCaretRange(c) && (forall k :: 0 <= k < CHAR_HEIGHT ==> cache[k] <= CHAR_WIDTH) && r.Success? ==>
      forall i :: 0 <= i < |r.value.0| ==> r.value.0[i].posX <= CHAR_WIDTH && r.value.0[i].posY < CHAR_HEIGHT
  {
    var cur := Cursor.Backup(c);
    var lineIndex: nat := 0;
    var cacheNumber := cache[lineIndex];
    var cacheNumberOff := (if cacheNumber == 0 then CHAR_WIDTH else cacheNumber) - 1;
    if cacheNumber != cur.x {
      cur := cur.(x := cacheNumberOff);
    }
    if cache[lineIndex] == 0 {
      if Cursor.IsFirstLine(cur) {
        assert Ids([]) == Letters(m.cells, m.before, m.before);
        return Success(([], Cursor.Restore(cur)));
      }
      cur := Cursor.ToPreviousLine(cur);
    }
    var drawn := DrawBackward(m, cur, cache);
    if drawn.Failure? {
      return Failure(drawn.error);
    }
    return Success((drawn.value.0, Cursor.Restore(drawn.value.1)));
  }

  /** The drawing loop of `redraw_before_cursor`, from the start position the line cache gave,
      before the cursor is restored. */
  method DrawBackward(m: Memory.Memory, start: Cursor.CursorPointer, cache: seq<nat>)
    returns (r: Result<(seq<LetterInstruction>, Cursor.CursorPointer), PanicReason>)
    requires Memory.Valid(m) && m.before >= 1 && |cache| == CHAR_HEIGHT
    ensures r.Success? ==> Cursor.SameBackup(r.value.1, start)
    ensures r.Success? ==> exists stop :: 0 <= stop <= m.before && Ids(r.value.0) == Letters(m.cells, stop, m.before)
    ensures r.Failure? ==> r.error == LineCacheUnderflow && exists k :: 1 <= k < CHAR_HEIGHT && cache[k] == 0
    ensures (&& cache[1] == 0 && m.cells[m.before - 1] == NEWLINE
             && (Cursor.IsAtLineEnd(start) || !Cursor.IsFirstLine(start))) ==> r == Failure(LineCacheUnderflow)
    ensures Cursor.InCaretRange(start) && (forall k :: 0 <= k < CHAR_HEIGHT ==> cache[k] <= CHAR_WIDTH) && r.Success? ==>
      forall i :: 0 <= i < |r.value.0| ==> r.value.0[i].posX <= CHAR_WIDTH && r.value.0[i].posY < CHAR_HEIGHT
  {
    ghost var inRange := Cursor.InCaretRange(start) && forall k :: 0 <= k < CHAR_HEIGHT ==> cache[k] <= CHAR_WIDTH;
    ghost var doomed := && cache[1] == 0 && m.cells[m.before - 1] == NEWLINE
                        && (Cursor.IsAtLineEnd(start) || !Cursor.IsFirstLine(start));
    var cur := start;
    var lineIndex: nat := 0;
    var out: seq<LetterInstruction> := [];
    var pointer: nat := m.before - 1;
    while true
      invariant pointer < m.before && lineIndex < CHAR_HEIGHT
      invariant Cursor.SameBackup(cur, start)
      invariant Ids(out) == Letters(m.cells, pointer + 1, m.before)
      invariant inRange ==> Cursor.InCaretRange(cur)
      invariant inRange ==> forall i :: 0 <= i < |out| ==> out[i].posX <= CHAR_WIDTH && out[i].posY < CHAR_HEIGHT
      invariant doomed ==> pointer == m.before - 1 && lineIndex == 0 && cur == start
      decreases pointer
    {
      var value := m.cells[pointer];
      if value == NEWLINE {
        lineIndex := lineIndex + 1;
        if lineIndex == CHAR_HEIGHT {
          break;
        }
        if !Cursor.IsAtLineEnd(cur) {
          if Cursor.IsFirstLine(cur) {
            break;
          }
          cur := Cursor.ToPreviousLine(cur);
        }
        if cache[lineIndex] == 0 {
          return Failure(LineCacheUnderflow);
        }
        cur := cur.(x := cache[lineIndex] - 1);
      } else {
        IdsAppend(out, WriteLetter(cur, value));
        out := out + [WriteLetter(cur, value)];
        if Cursor.IsAtCanvasStart(cur) {
          break;
        }
        cur := Cursor.Decrement(cur);
      }
      if pointer == 0 {
        break;
      }
      pointer := pointer - 1;
    }
    assert Ids(out) == Letters(m.cells, pointer, m.before);
    return Success((out, cur));
  }

  /** What `redraw_before_cursor` emits: the characters of a tail of the text before the
      caret, last first and line breaks skipped, each in a cell of the canvas. */
  ghost predicate BackwardRedraw(d: seq<LetterInstruction>, m: Memory.Memory)
    requires Memory.Valid(m)
  {
    && (exists stop :: 0 <= stop <= m.before && Ids(d) == Letters(m.cells, stop, m.before))
    && forall i :: 0 <= i < |d| ==> d[i].posX <= CHAR_WIDTH && d[i].posY < CHAR_HEIGHT
  }

  /** The rows above row `y` blanked, then the backward redraw. */
  ghost predicate ScrolledRedraw(d: seq<LetterInstruction>, m: Memory.Memory, y: nat)
    requires Memory.Valid(m)
  {
    && |d| >= y * CHAR_WIDTH
    && d[..y * CHAR_WIDTH] == BlankRows(0, y)
    && BackwardRedraw(d[y * CHAR_WIDTH..], m)
  }

  // ---------------------------------------------------------------------------------------
  // Key handling

  lemma IdsConcat(a: seq<LetterInstruction>, b: seq<LetterInstruction>)
    ensures Ids(a + b) == Ids(a) + Ids(b)
  {
  }

  /** The redraw shared by a key press on the last row: the caret goes to the start of its row,
      the line cache is rebuilt from the text before the caret, the rows above are blanked and
      the text before the caret is redrawn backwards. */
  method ScrollRedraw(m: Memory.Memory, c: Cursor.CursorPointer, cache: seq<nat>)
    returns (r: Result<(Cursor.CursorPointer, seq<nat>, seq<LetterInstruction>), PanicReason>)
    requires Memory.Valid(m) && m.before >= 1 && Cursor.InCaretRange(c)
    requires |cache| == CHAR_HEIGHT && forall k :: 0 <= k < CHAR_HEIGHT ==> cache[k] < CHAR_WIDTH
    ensures r.Success? ==> r.value.0.x == 0 && r.value.0.y == c.y && Cursor.InCaretRange(r.value.0)
    ensures r.Success? ==> |r.value.1| == CHAR_HEIGHT
    ensures r.Success? ==> var e := LineCacheFrom(m.cells, m.before, 0, 0);
      forall k :: 0 <= k < CHAR_HEIGHT ==> r.value.1[k] == if k < |e| then e[k] else cache[k]
    ensures r.Success? ==> |r.value.2| >= c.y * CHAR_WIDTH && r.value.2[..c.y * CHAR_WIDTH] == BlankRows(0, c.y)
    ensures r.Success? ==> ScrolledRedraw(r.value.2, m, c.y)
    ensures r.Failure? ==> r.error == LineCacheUnderflow
    ensures 2 <= c.y && 2 <= m.before && m.cells[m.before - 1] == NEWLINE && m.cells[m.before - 2] == NEWLINE ==>
      r == Failure(LineCacheUnderflow)
  {
    var cur := Cursor.ToLineBeginning(c);
    var cache' := UpdateLineCache(m, cache);
    var above := ClearAboveCursor(cur);
    BlankRowsCells(0, cur.y);
    if 2 <= c.y && 2 <= m.before && m.cells[m.before - 1] == NEWLINE && m.cells[m.before - 2] == NEWLINE {
      EmptyLineCacheZero(m.cells, m.before);
    }
    var redrawn := RedrawBeforeCursor(m, cur, cache');
    if redrawn.Failure? {
      return Failure(redrawn.error);
    }
    assert (above + redrawn.value.0)[..cur.y * CHAR_WIDTH] == above;
    assert (above + redrawn.value.0)[cur.y * CHAR_WIDTH..] == redrawn.value.0;
    return Success((redrawn.value.1, cache', above + redrawn.value.0));
  }

  /** The part of `handle_input` after the typed character's id is known: the id goes into the
      buffer and is drawn at the caret, or, with the caret at the canvas end, the canvas is
      redrawn with the caret on a fresh last row; the text after the caret is then redrawn. */
  method TypeId(t: Typewriter, id: byte) returns (r: Result<(Typewriter, seq<LetterInstruction>), PanicReason>)
    requires Valid(t) && !Memory.MemoryFull(t.memory)
    ensures r.Success? ==> Valid(r.value.0)
    ensures r.Success? ==> r.value.0.memory == Memory.Insert(t.memory, id)
    ensures r.Failure? ==> r.error == LineCacheUnderflow && Cursor.IsAtCanvasEnd(t.cursor)
    ensures !Cursor.IsAtCanvasEnd(t.cursor) ==> r.Success?
    ensures !Cursor.IsAtCanvasEnd(t.cursor) ==>
      var next := Cursor.Increment(t.cursor);
      && r.value.0.cursor.x == next.x && r.value.0.cursor.y == next.y
      && r.value.0.lineCache == t.lineCache
      && |r.value.1| >= 2
      && r.value.1[..2] == [WriteLetter(t.cursor, 0), WriteLetter(t.cursor, id)]
      && (if !Memory.CursorAtEnd(t.memory) && !Cursor.IsAtCanvasEnd(next)
          then ClearedAndRedrawn(r.value.1[2..], r.value.0.memory, next.x, next.y)
          else |r.value.1| == 2)
    ensures Cursor.IsAtCanvasEnd(t.cursor) && r.Success? ==>
      && r.value.0.cursor.x == 0 && r.value.0.cursor.y == CHAR_HEIGHT_UPPER_BOUND
      && |r.value.1| >= CHAR_WIDTH
      && r.value.1[..CHAR_WIDTH] == BlankRow(CHAR_HEIGHT_UPPER_BOUND)
      && (var e := LineCacheFrom(r.value.0.memory.cells, r.value.0.memory.before, 0, 0);
          forall k :: 0 <= k < CHAR_HEIGHT ==> r.value.0.lineCache[k] == if k < |e| then e[k] else t.lineCache[k])
      && exists n :: CHAR_WIDTH <= n <= |r.value.1|
           && ScrolledRedraw(r.value.1[CHAR_WIDTH..n], r.value.0.memory, CHAR_HEIGHT_UPPER_BOUND)
           && (if Memory.CursorAtEnd(t.memory) then n == |r.value.1|
               else ClearedAndRedrawn(r.value.1[n..], r.value.0.memory, 0, CHAR_HEIGHT_UPPER_BOUND))
  {
    var memory := Memory.Insert(t.memory, id);
    if Cursor.IsAtCanvasEnd(t.cursor) {
      r := TypeAtCanvasEnd(t, memory);
      return;
    }
    var head := [WriteLetter(t.cursor, 0), WriteLetter(t.cursor, id)];
    var cur := Cursor.Increment(t.cursor);
    var tail: seq<LetterInstruction> := [];
    if !Memory.CursorAtEnd(memory) && !Cursor.IsAtCanvasEnd(cur) {
      tail, cur := ClearAndRedraw(memory, cur);
    }
    var out := head + tail;
    assert out[..2] == head && out[2..] == tail;
    return Success((Typewriter(cur, memory, t.lineCache), out));
  }

  /** A character typed at the canvas end, once it is in the buffer: the caret goes to the
      start of the last row, that row is blanked, the canvas above it redrawn from the text
      before the caret, and then the rest of the canvas cleared and redrawn from the text
      after the caret. */
  method TypeAtCanvasEnd(t: Typewriter, memory: Memory.Memory)
    returns (r: Result<(Typewriter, seq<LetterInstruction>), PanicReason>)
    requires Valid(t) && Cursor.IsLastLine(t.cursor)
    requires Memory.Valid(memory) && memory.before >= 1 && memory.after == t.memory.after
    ensures r.Success? ==> Valid(r.value.0) && r.value.0.memory == memory
    ensures r.Failure? ==> r.error == LineCacheUnderflow
    ensures r.Success? ==>
      && r.value.0.cursor.x == 0 && r.value.0.cursor.y == CHAR_HEIGHT_UPPER_BOUND
      && |r.value.1| >= CHAR_WIDTH
      && r.value.1[..CHAR_WIDTH] == BlankRow(CHAR_HEIGHT_UPPER_BOUND)
      && (var e := LineCacheFrom(memory.cells, memory.before, 0, 0);
          forall k :: 0 <= k < CHAR_HEIGHT ==> r.value.0.lineCache[k] == if k < |e| then e[k] else t.lineCache[k])
      && exists n :: CHAR_WIDTH <= n <= |r.value.1|
           && ScrolledRedraw(r.value.1[CHAR_WIDTH..n], memory, CHAR_HEIGHT_UPPER_BOUND)
           && (if Memory.CursorAtEnd(memory) then n == |r.value.1|
               else ClearedAndRedrawn(r.value.1[n..], memory, 0, CHAR_HEIGHT_UPPER_BOUND))
  {
    var cur := Cursor.ToLineBeginning(t.cursor);
    var blank := ClearFromCursor(cur);
    assert blank == BlankRow(CHAR_HEIGHT_UPPER_BOUND);
    var scrolled := ScrollRedraw(memory, cur, t.lineCache);
    if scrolled.Failure? {
      return Failure(scrolled.error);
    }
    var cur', cache, drawn := scrolled.value.0, scrolled.value.1, scrolled.value.2;
    var tail: seq<LetterInstruction> := [];
    if !Memory.CursorAtEnd(memory) {
      tail, cur' := ClearAndRedraw(memory, cur');
    }
    var out := blank + drawn + tail;
    var n := CHAR_WIDTH + |drawn|;
    assert out[..CHAR_WIDTH] == blank && out[CHAR_WIDTH..n] == drawn && out[n..] == tail;
    return Success((Typewriter(cur', memory, cache), out));
  }

  /** Backspace: removes the character before the caret. A removed line break blanks the
      caret's row and puts the caret at the end of the previous line, which panics on the first
      row (the `usize` row index underflows); any other character moves the caret one back.
      Then the text after the caret is redrawn, or the cell at the caret blanked when there is
      none. */
  method Backspace(t: Typewriter) returns (r: Result<(Typewriter, seq<LetterInstruction>), PanicReason>)
    requires Valid(t)
    ensures Memory.CursorAtBeginning(t.memory) ==> r == Success((t, []))
    ensures r.Failure? <==>
      && !Memory.CursorAtBeginning(t.memory)
      && t.memory.cells[t.memory.before - 1] == NEWLINE
      && t.cursor.y == 0
    ensures r.Failure? ==> r.error == PreviousLineUnderflow
    ensures r.Success? ==> Valid(r.value.0) && r.value.0.lineCache == t.lineCache
    ensures r.Success? && !Memory.CursorAtBeginning(t.memory) ==>
      r.value.0.memory == Memory.DeleteBackwards(t.memory)
    ensures !Memory.CursorAtBeginning(t.memory) && t.memory.cells[t.memory.before - 1] != NEWLINE ==>
      && r.Success?
      && r.value.0.cursor.x == Cursor.Decrement(t.cursor).x
      && r.value.0.cursor.y == Cursor.Decrement(t.cursor).y
    ensures (&& !Memory.CursorAtBeginning(t.memory)
             && t.memory.cells[t.memory.before - 1] == NEWLINE && t.cursor.y > 0) ==>
      && r.Success?
      && r.value.0.cursor.y == t.cursor.y - 1
      && |r.value.1| >= CHAR_WIDTH && r.value.1[..CHAR_WIDTH] == BlankRow(t.cursor.y)
    ensures r.Success? && !Memory.CursorAtBeginning(t.memory)
            && t.memory.cells[t.memory.before - 1] == NEWLINE ==>
      r.value.0.cursor.x == LineEndColumn(t.memory.cells, t.memory.before - 1)
    ensures r.Success? && !Memory.CursorAtBeginning(t.memory) && Memory.CursorAtEnd(t.memory) ==>
      |r.value.1| >= 1 && r.value.1[|r.value.1| - 1] == WriteLetter(r.value.0.cursor, 0)
    ensures r.Success? && !Memory.CursorAtBeginning(t.memory) ==>
      var head := if t.memory.cells[t.memory.before - 1] == NEWLINE then CHAR_WIDTH else 0;
      && |r.value.1| >= head
      && RedrawnOrBlanked(r.value.1[head..], r.value.0.memory, r.value.0.cursor.x, r.value.0.cursor.y)
  {
    if Memory.CursorAtBeginning(t.memory) {
      return Success((t, []));
    }
    var memory := Memory.DeleteBackwards(t.memory);
    assert memory.before == t.memory.before - 1 && memory.cells == t.memory.cells;
    var moved := BackspaceCursor(memory, t.cursor);
    if moved.Failure? {
      return Failure(moved.error);
    }
    var cur, head := moved.value.0, moved.value.1;
    var out, cur' := RedrawAfter(memory, cur, head);
    r := Success((Typewriter(cur', memory, t.lineCache), out));
  }

  /** The blanked row `head`, then the redraw of the text after the caret or the blanking
      of the cell at the caret. */
  method RedrawAfter(m: Memory.Memory, c: Cursor.CursorPointer, head: seq<LetterInstruction>)
    returns (out: seq<LetterInstruction>, c': Cursor.CursorPointer)
    requires Memory.Valid(m)
    ensures c'.x == c.x && c'.y == c.y
    ensures |out| >= |head| && out[..|head|] == head
    ensures RedrawnOrBlanked(out[|head|..], m, c.x, c.y)
    ensures Memory.CursorAtEnd(m) ==> |out| >= 1 && out[|out| - 1] == WriteLetter(c', 0)
  {
    var tail;
    tail, c' := RedrawOrBlank(m, c);
    out := head + tail;
    assert out[..|head|] == head;
    assert out[|head|..] == tail;
  }

  /** The caret step of Backspace once the character at `m.before` has been removed from the
      text: a removed line break blanks row `c.y` and moves the caret to the end of the
      previous line, or panics on the first row; any other character moves the caret one
      back. */
  method BackspaceCursor(m: Memory.Memory, c: Cursor.CursorPointer)
    returns (r: Result<(Cursor.CursorPointer, seq<LetterInstruction>), PanicReason>)
    requires Memory.Valid(m) && m.before < MEMORY_SIZE && Cursor.InCaretRange(c)
    ensures r.Failure? <==> m.cells[m.before] == NEWLINE && c.y == 0
    ensures r.Failure? ==> r.error == PreviousLineUnderflow
    ensures r.Success? ==> Cursor.InCaretRange(r.value.0)
    ensures m.cells[m.before] != NEWLINE ==>
      r.Success? && r.value == (Cursor.Decrement(c), [])
    ensures m.cells[m.before] == NEWLINE && c.y > 0 ==>
      && r.Success?
      && r.value.0.y == c.y - 1
      && r.value.0.x == LineEndColumn(m.cells, m.before)
      && r.value.1 == BlankRow(c.y)
  {
    if m.cells[m.before] == NEWLINE {
      var xPos := FindLineEnd(m);
      if c.y == 0 {
        return Failure(PreviousLineUnderflow);
      }
      return Success((Cursor.ToPreviousLine(c.(x := xPos)), BlankRow(c.y)));
    }
    return Success((Cursor.Decrement(c), []));
  }

  /** The end of Backspace: the text after the caret is redrawn, or the cell at the caret is
      blanked when no text follows the caret. The cursor ends where it started. */
  method RedrawOrBlank(m: Memory.Memory, c: Cursor.CursorPointer)
    returns (out: seq<LetterInstruction>, c': Cursor.CursorPointer)
    requires Memory.Valid(m)
    ensures c'.x == c.x && c'.y == c.y
    ensures Memory.CursorAtEnd(m) ==> out == [WriteLetter(c, 0)] && c' == c
    ensures !Memory.CursorAtEnd(m) ==> 1 <= |out| <= |Memory.Suffix(m)| && Ids(out) == Memory.Suffix(m)[..|out|]
    ensures RedrawnOrBlanked(out, m, c.x, c.y)
  {
    if !Memory.CursorAtEnd(m) {
      out, c' := RedrawFromCursor(m, c);
    } else {
      out, c' := [WriteLetter(c, 0)], c;
    }
  }

  /** Left arrow: the caret moves one character back in the text and one step back on the
      canvas; nothing is drawn. Ignored at the start of the text. */
  function CaretLeft(t: Typewriter): (r: Typewriter)
    requires Valid(t)
    ensures Valid(r) && r.lineCache == t.lineCache
    ensures Memory.CursorAtBeginning(t.memory) ==> r == t
    ensures !Memory.CursorAtBeginning(t.memory) ==>
      && Memory.Text(r.memory) == Memory.Text(t.memory)
      && r.memory.before == t.memory.before - 1
      && r.cursor == Cursor.Decrement(t.cursor)
  {
    if Memory.CursorAtBeginning(t.memory) then t
    else t.(cursor := Cursor.Decrement(t.cursor), memory := Memory.MoveAfterCursor(t.memory))
  }

  /** Right arrow: the caret moves one character forward in the text and one step forward on
      the canvas; nothing is drawn. Ignored at the end of the text. */
  function CaretRight(t: Typewriter): (r: Typewriter)
    requires Valid(t)
    ensures Valid(r) && r.lineCache == t.lineCache
    ensures Memory.CursorAtEnd(t.memory) ==> r == t
    ensures !Memory.CursorAtEnd(t.memory) ==>
      && Memory.Text(r.memory) == Memory.Text(t.memory)
      && r.memory.before == t.memory.before + 1
      && r.cursor == Cursor.Increment(t.cursor)
  {
    if Memory.CursorAtEnd(t.memory) then t
    else t.(cursor := Cursor.Increment(t.cursor), memory := Memory.MoveBeforeCursor(t.memory))
  }

  /** Left then right returns the caret to where it was in the text and on the canvas, as long
      as the caret is not in column 0 (where `Decrement` behaves like column 1). */
  lemma CaretLeftRight(t: Typewriter)
    requires Valid(t) && !Memory.CursorAtBeginning(t.memory) && 1 <= t.cursor.x
    ensures var r := CaretRight(CaretLeft(t));
      && r.cursor == t.cursor
      && r.memory.before == t.memory.before && r.memory.after == t.memory.after
      && Memory.Text(r.memory) == Memory.Text(t.memory)
  {
    Memory.LeftThenRightRestores(t.memory);
    Cursor.IncrementDecrementInverse(t.cursor);
  }

  /** Right then left returns the caret to where it was in the text and on the canvas, as long
      as the caret is not in column 0. */
  lemma CaretRightLeft(t: Typewriter)
    requires Valid(t) && !Memory.CursorAtEnd(t.memory) && 1 <= t.cursor.x
    ensures var r := CaretLeft(CaretRight(t));
      && r.cursor == t.cursor
      && r.memory.before == t.memory.before && r.memory.after == t.memory.after
      && Memory.Text(r.memory) == Memory.Text(t.memory)
  {
    Memory.RightThenLeftRestores(t.memory);
    Cursor.IncrementDecrementInverse(t.cursor);
  }

  /** Return: a line break goes into the buffer before the caret and the caret moves to the
      start of the next row, blanking the rest of its row; on the last row the canvas is
      redrawn instead, with the caret staying on that row. Then everything after the caret
      is blanked and the text after the caret redrawn. */
  method NewLine(t: Typewriter) returns (r: Result<(Typewriter, seq<LetterInstruction>), PanicReason>)
    requires Valid(t)
    ensures Memory.MemoryFull(t.memory) ==> r == Success((t, []))
    ensures r.Success? ==> Valid(r.value.0)
    ensures r.Success? && !Memory.MemoryFull(t.memory) ==> r.value.0.memory == Memory.Insert(t.memory, NEWLINE)
    ensures r.Failure? ==> r.error == LineCacheUnderflow && Cursor.IsLastLine(t.cursor)
    ensures !Memory.MemoryFull(t.memory) && !Cursor.IsLastLine(t.cursor) ==>
      var rest := RowRest(t.cursor.x, t.cursor.y);
      && r.Success?
      && r.value.0.cursor.x == 0 && r.value.0.cursor.y == t.cursor.y + 1
      && r.value.0.lineCache == t.lineCache
      && |r.value.1| >= |rest| && r.value.1[..|rest|] == rest
      && ClearedAndRedrawn(r.value.1[|rest|..], r.value.0.memory, 0, t.cursor.y + 1)
    ensures !Memory.MemoryFull(t.memory) && Cursor.IsLastLine(t.cursor) && r.Success? ==>
      && r.value.0.cursor.x == 0 && r.value.0.cursor.y == CHAR_HEIGHT_UPPER_BOUND
      && (var e := LineCacheFrom(r.value.0.memory.cells, r.value.0.memory.before, 0, 0);
          forall k :: 0 <= k < CHAR_HEIGHT ==> r.value.0.lineCache[k] == if k < |e| then e[k] else t.lineCache[k])
      && exists n :: 0 <= n <= |r.value.1|
           && ScrolledRedraw(r.value.1[..n], r.value.0.memory, CHAR_HEIGHT_UPPER_BOUND)
           && ClearedAndRedrawn(r.value.1[n..], r.value.0.memory, 0, CHAR_HEIGHT_UPPER_BOUND)
    ensures (&& !Memory.MemoryFull(t.memory) && Cursor.IsLastLine(t.cursor)
             && t.memory.before >= 1 && t.memory.cells[t.memory.before - 1] == NEWLINE) ==>
      r == Failure(LineCacheUnderflow)
  {
    if Memory.MemoryFull(t.memory) {
      return Success((t, []));
    }
    var memory := Memory.Insert(t.memory, NEWLINE);
    if Cursor.IsLastLine(t.cursor) {
      r := ReturnOnLastRow(t, memory);
      return;
    }
    var out, cur := ReturnBelow(memory, t.cursor);
    return Success((Typewriter(cur, memory, t.lineCache), out));
  }

  /** Return on the last row, after the line break is stored: the caret goes to the start of
      the row, the canvas above it is redrawn from the text before the caret, then the rest
      of the canvas is cleared and redrawn from the text after the caret. After an empty line
      the backward redraw reads a zero cache entry and panics. */
  method ReturnOnLastRow(t: Typewriter, memory: Memory.Memory)
    returns (r: Result<(Typewriter, seq<LetterInstruction>), PanicReason>)
    requires Valid(t) && Cursor.IsLastLine(t.cursor)
    requires !Memory.MemoryFull(t.memory) && memory == Memory.Insert(t.memory, NEWLINE)
    ensures r.Success? ==> Valid(r.value.0) && r.value.0.memory == memory
    ensures r.Failure? ==> r.error == LineCacheUnderflow
    ensures r.Success? ==>
      && r.value.0.cursor.x == 0 && r.value.0.cursor.y == CHAR_HEIGHT_UPPER_BOUND
      && (var e := LineCacheFrom(memory.cells, memory.before, 0, 0);
          forall k :: 0 <= k < CHAR_HEIGHT ==> r.value.0.lineCache[k] == if k < |e| then e[k] else t.lineCache[k])
      && exists n :: 0 <= n <= |r.value.1|
           && ScrolledRedraw(r.value.1[..n], memory, CHAR_HEIGHT_UPPER_BOUND)
           && ClearedAndRedrawn(r.value.1[n..], memory, 0, CHAR_HEIGHT_UPPER_BOUND)
    ensures t.memory.before >= 1 && t.memory.cells[t.memory.before - 1] == NEWLINE ==>
      r == Failure(LineCacheUnderflow)
  {
    var scrolled := ScrollRedraw(memory, t.cursor, t.lineCache);
    if scrolled.Failure? {
      return Failure(scrolled.error);
    }
    var cur, cache, out := scrolled.value.0, scrolled.value.1, scrolled.value.2;
    var tail, cur' := ClearAndRedraw(memory, cur);
    var all := out + tail;
    assert all[..|out|] == out && all[|out|..] == tail;
    return Success((Typewriter(cur', memory, cache), all));
  }

  /** Return away from the last row, after the line break is stored: the rest of the caret's
      row is blanked and the caret moves to the start of the next row, from where the canvas
      is cleared and the text after the caret redrawn. */
  method ReturnBelow(m: Memory.Memory, c: Cursor.CursorPointer)
    returns (out: seq<LetterInstruction>, c': Cursor.CursorPointer)
    requires Memory.Valid(m) && Cursor.InCaretRange(c) && !Cursor.IsLastLine(c)
    ensures c'.x == 0 && c'.y == c.y + 1 && Cursor.InCaretRange(c')
    ensures |out| >= |RowRest(c.x, c.y)| && out[..|RowRest(c.x, c.y)|] == RowRest(c.x, c.y)
    ensures ClearedAndRedrawn(out[|RowRest(c.x, c.y)|..], m, 0, c.y + 1)
  {
    var head := ClearFromCursor(c);
    var cur := Cursor.ToNextLine(Cursor.ToLineBeginning(c));
    var tail;
    tail, c' := ClearAndRedraw(m, cur);
    out := head + tail;
    assert out[..|head|] == head;
    assert out[|head|..] == tail;
  }

  /** The end of Return: everything from the caret to the end of the canvas is blanked, then
      the text after the caret is redrawn from the caret on. The cursor ends where it
      started. */
  method ClearAndRedraw(m: Memory.Memory, c: Cursor.CursorPointer)
    returns (out: seq<LetterInstruction>, c': Cursor.CursorPointer)
    requires Memory.Valid(m)
    ensures c'.x == c.x && c'.y == c.y
    ensures ClearedAndRedrawn(out, m, c.x, c.y)
  {
    var rest := ClearFromCursor(c);
    var below := ClearBelowCursor(c);
    out, c' := rest + below, c;
    if !Memory.CursorAtEnd(m) {
      var forward;
      forward, c' := RedrawFromCursor(m, c);
      out := out + forward;
      assert out[..|rest + below|] == rest + below;
      assert out[|rest + below|..] == forward;
    }
  }

  /** `handle_input`: one key press. A key that types a character inserts that character's
      glyph id (nothing happens when the buffer is full); Backspace, the two arrows and Return
      edit as their own methods describe; every other key is ignored. The font has to hold an
      id for every typed character, or the program panics. */
  method HandleInput(t: Typewriter, key: Keyboard.Scancode, shift: bool, font: Font.Font)
    returns (r: Result<(Typewriter, seq<LetterInstruction>), PanicReason>)
    requires Valid(t)
    ensures r.Success? ==> Valid(r.value.0)
    ensures Keyboard.ResolveSymbol(key, shift).Some? ==>
      var c := Keyboard.ResolveSymbol(key, shift).value;
      && (Memory.MemoryFull(t.memory) ==> r == Success((t, [])))
      && (!Memory.MemoryFull(t.memory) && c !in font.idsByKey ==> r == Failure(MissingGlyph))
      && (!Memory.MemoryFull(t.memory) && c in font.idsByKey && r.Success? ==>
            && Memory.Prefix(r.value.0.memory) == Memory.Prefix(t.memory) + [font.idsByKey[c]]
            && Memory.Suffix(r.value.0.memory) == Memory.Suffix(t.memory))
    ensures key.Backspace? ==>
      && (Memory.CursorAtBeginning(t.memory) ==> r == Success((t, [])))
      && (!Memory.CursorAtBeginning(t.memory) && r.Success? ==>
            && Memory.Prefix(r.value.0.memory) == Memory.Prefix(t.memory)[..t.memory.before - 1]
            && Memory.Suffix(r.value.0.memory) == Memory.Suffix(t.memory))
    ensures key.Left? ==> r == Success((CaretLeft(t), []))
    ensures key.Right? ==> r == Success((CaretRight(t), []))
    ensures key.Return? ==>
      && (Memory.MemoryFull(t.memory) ==> r == Success((t, [])))
      && (!Memory.MemoryFull(t.memory) && r.Success? ==>
            && Memory.Prefix(r.value.0.memory) == Memory.Prefix(t.memory) + [NEWLINE]
            && Memory.Suffix(r.value.0.memory) == Memory.Suffix(t.memory))
    ensures Keyboard.ResolveSymbol(key, shift).None? && !key.Backspace? && !key.Left? && !key.Right? && !key.Return? ==>
      r == Success((t, []))
    ensures r.Failure? && r.error == MissingGlyph ==> forall syms :: !Font.Numbered(font, syms)
    ensures r.Failure? && r.error == PreviousLineUnderflow ==> key.Backspace? && t.cursor.y == 0
  {
    var typed := Keyboard.ResolveSymbol(key, shift);
    if typed.Some? {
      if Memory.MemoryFull(t.memory) {
        return Success((t, []));
      }
      var c := typed.value;
      if c !in font.idsByKey {
        Keyboard.ResolvedHasGlyph(key, shift);
        return Failure(MissingGlyph);
      }
      r := TypeId(t, font.idsByKey[c]);
      return;
    }
    match key
    case Backspace =>
      r := Backspace(t);
    case Left =>
      r := Success((CaretLeft(t), []));
    case Right =>
      r := Success((CaretRight(t), []));
    case Return =>
      r := NewLine(t);
    case _ =>
      r := Success((t, []));
  }
}
