/** The on-screen cursor over the CHAR_WIDTH x CHAR_HEIGHT grid.

    Two coordinate conventions coexist. In caret space (`Increment`, `Decrement`) column 0 is
    skipped after a wrap and `x == CHAR_WIDTH` means "after the last column, not yet wrapped".
    In slot space (`DecrementSlot`) the columns are the drawable cells `0..CHAR_WIDTH - 1`. */
module Cursor {
  import opened Config

  /** Live position `(x, y)` plus a one-slot backup of it. */
  datatype CursorPointer = CursorPointer(xBackup: nat, yBackup: nat, x: nat, y: nat)

  /** Every field zero. */
  function Default(): (c: CursorPointer)
    ensures IsAtCanvasStart(c) && InCaretRange(c)
  {
    CursorPointer(0, 0, 0, 0)
  }

  /** The positions the editor keeps the live cursor in. */
  ghost predicate InCaretRange(c: CursorPointer) {
    c.x <= CHAR_WIDTH && c.y < CHAR_HEIGHT
  }

  /** Two cursors that share the backup slot. */
  ghost predicate SameBackup(c: CursorPointer, d: CursorPointer) {
    c.xBackup == d.xBackup && c.yBackup == d.yBackup
  }

  /** Row-major index of a caret position with `1 <= x <= CHAR_WIDTH`: the number of
      characters typed since the canvas start when the caret sits there. */
  function CaretIndex(c: CursorPointer): (i: int)
    requires InCaretRange(c) && 1 <= c.x
    ensures 0 <= i < CELL_COUNT
  {
    c.y * CHAR_WIDTH + c.x - 1
  }

  /** Row-major index of a drawing slot `x < CHAR_WIDTH`. */
  function SlotIndex(x: nat, y: nat): (i: nat)
    requires x < CHAR_WIDTH && y < CHAR_HEIGHT
    ensures i < CELL_COUNT
  {
    y * CHAR_WIDTH + x
  }

  /** Caret one character forward; past the last column it wraps to column 1 of the next row,
      and past the last row to row 0. */
  function Increment(c: CursorPointer): (r: CursorPointer)
    ensures SameBackup(r, c)
    ensures InCaretRange(c) ==> InCaretRange(r) && 1 <= r.x
  {
    var x := c.x + 1;
    if x > CHAR_WIDTH then
      var y := c.y + 1;
      c.(x := 1, y := if y > CHAR_HEIGHT_UPPER_BOUND then 0 else y)
    else
      c.(x := x)
  }

  /** Caret one character back; at column 0 or 1 it goes to column CHAR_WIDTH of the previous
      row, and above row 0 to the last row. */
  function Decrement(c: CursorPointer): (r: CursorPointer)
    ensures SameBackup(r, c)
    ensures InCaretRange(c) ==> InCaretRange(r) && 1 <= r.x
  {
    if c.x <= 1 then
      c.(x := CHAR_WIDTH, y := if c.y == 0 then CHAR_HEIGHT_UPPER_BOUND else c.y - 1)
    else
      c.(x := c.x - 1)
  }

  /** Previous drawing slot: column 0 goes to the last drawable column of the previous row. */
  function DecrementSlot(c: CursorPointer): (r: CursorPointer)
    ensures SameBackup(r, c)
    ensures InCaretRange(c) ==> r.x < CHAR_WIDTH && r.y < CHAR_HEIGHT
  {
    if c.x < 1 then
      c.(x := CHAR_WIDTH_UPPER_BOUND, y := if c.y == 0 then CHAR_HEIGHT_UPPER_BOUND else c.y - 1)
    else
      c.(x := c.x - 1)
  }

  /** Saves the live position into the backup slot. */
  function Backup(c: CursorPointer): (r: CursorPointer)
    ensures r.x == c.x && r.y == c.y
    ensures r.xBackup == c.x && r.yBackup == c.y
  {
    c.(xBackup := c.x, yBackup := c.y)
  }

  /** Returns the live position to the saved one. */
  function Restore(c: CursorPointer): (r: CursorPointer)
    ensures r.x == c.xBackup && r.y == c.yBackup
    ensures SameBackup(r, c)
  {
    c.(x := c.xBackup, y := c.yBackup)
  }

  predicate IsAtCanvasStart(c: CursorPointer) {
    c.x == 0 && c.y == 0
  }

  predicate IsAtCanvasEnd(c: CursorPointer) {
    c.x == CHAR_WIDTH && c.y == CHAR_HEIGHT_UPPER_BOUND
  }

  predicate IsAtLineEnd(c: CursorPointer) {
    c.x == CHAR_WIDTH_UPPER_BOUND
  }

  predicate IsAtLineStart(c: CursorPointer) {
    c.x == 0
  }

  predicate IsLastLine(c: CursorPointer) {
    c.y == CHAR_HEIGHT_UPPER_BOUND
  }

  predicate IsFirstLine(c: CursorPointer) {
    c.y == 0
  }

  function ToLineBeginning(c: CursorPointer): (r: CursorPointer)
    ensures r.x == 0 && r.y == c.y && SameBackup(r, c)
  {
    c.(x := 0)
  }

  /** Next row, without wrapping; the caller keeps the row in range. */
  function ToNextLine(c: CursorPointer): (r: CursorPointer)
    ensures r.x == c.x && r.y == c.y + 1 && SameBackup(r, c)
  {
    c.(y := c.y + 1)
  }

  /** Previous row, without wrapping: on row 0 the `usize` decrement would underflow, so the
      caller must not be on the first row. */
  function ToPreviousLine(c: CursorPointer): (r: CursorPointer)
    requires c.y > 0
    ensures r.x == c.x && r.y == c.y - 1 && SameBackup(r, c)
  {
    c.(y := c.y - 1)
  }

  /** Where the visible caret is drawn: its raw position. */
  function GetDrawCursorPosition(c: CursorPointer): (p: (nat, nat))
    ensures c.x < CHAR_WIDTH ==> p == GetDrawLetterPosition(c)
    ensures c.x == CHAR_WIDTH ==> p == (CHAR_WIDTH, c.y)
    ensures c.x == CHAR_WIDTH && c.y < CHAR_HEIGHT_UPPER_BOUND ==>
      p.1 + 1 == GetDrawLetterPosition(c).1 && GetDrawLetterPosition(c).0 == 0
    ensures InCaretRange(c) ==> p.0 <= CHAR_WIDTH && p.1 < CHAR_HEIGHT
  {
    (c.x, c.y)
  }

  /** The drawing slot a letter typed at the caret lands in: a caret after the last column
      maps to column 0 of the next row. On the last row there is no next row and the program
      reports a violation and answers column 0 of the same row. */
  function GetDrawLetterPosition(c: CursorPointer): (p: (nat, nat))
    ensures c.x <= CHAR_WIDTH ==> p.0 < CHAR_WIDTH
    ensures c.x == CHAR_WIDTH && c.y != CHAR_HEIGHT_UPPER_BOUND ==> p == (0, c.y + 1)
    ensures c.x == CHAR_WIDTH && c.y == CHAR_HEIGHT_UPPER_BOUND ==> p == (0, c.y)
    ensures c.x != CHAR_WIDTH ==> p == (c.x, c.y)
    ensures InCaretRange(c) && !IsAtCanvasEnd(c) ==>
      p.1 < CHAR_HEIGHT && SlotIndex(p.0, p.1) == c.y * CHAR_WIDTH + c.x
  {
    if c.x == CHAR_WIDTH then
      if c.y == CHAR_HEIGHT_UPPER_BOUND then (0, c.y) else (0, c.y + 1)
    else
      (c.x, c.y)
  }

  /** In caret space `Increment` is "+1" on the row-major caret index, wrapping at the end
      of the canvas; from column 0 it moves to column 1 of the same row. */
  lemma IncrementAdvancesCaret(c: CursorPointer)
    requires InCaretRange(c)
    ensures c.x == 0 ==> Increment(c).x == 1 && Increment(c).y == c.y
    ensures 1 <= c.x ==> CaretIndex(Increment(c)) == (CaretIndex(c) + 1) % CELL_COUNT
  {
  }

  /** In caret space `Decrement` is "-1" on the row-major caret index, wrapping at the start
      of the canvas; column 0 behaves like column 1. */
  lemma DecrementRetreatsCaret(c: CursorPointer)
    requires InCaretRange(c)
    ensures 1 <= c.x ==> CaretIndex(Decrement(c)) == (CaretIndex(c) + CELL_COUNT - 1) % CELL_COUNT
    ensures c.x == 0 ==> Decrement(c) == Decrement(c.(x := 1))
  {
  }

  /** In slot space `DecrementSlot` is "-1" on the row-major slot index, wrapping at the start
      of the canvas. */
  lemma DecrementSlotRetreatsSlot(c: CursorPointer)
    requires c.x < CHAR_WIDTH && c.y < CHAR_HEIGHT
    ensures var r := DecrementSlot(c);
      SlotIndex(r.x, r.y) == (SlotIndex(c.x, c.y) + CELL_COUNT - 1) % CELL_COUNT
  {
  }

  /** On caret positions with column at least 1, `Increment` and `Decrement` undo each other. */
  lemma IncrementDecrementInverse(c: CursorPointer)
    requires InCaretRange(c) && 1 <= c.x
    ensures Decrement(Increment(c)) == c
    ensures Increment(Decrement(c)) == c
  {
  }

  /** The boundary predicates in terms of the row-major indices. */
  lemma BoundaryPredicates(c: CursorPointer)
    requires InCaretRange(c)
    ensures 1 <= c.x ==> (IsAtCanvasEnd(c) <==> CaretIndex(c) == CELL_COUNT - 1)
    ensures c.x < CHAR_WIDTH ==> (IsAtCanvasStart(c) <==> SlotIndex(c.x, c.y) == 0)
    ensures c.x < CHAR_WIDTH ==> (IsAtLineEnd(c) <==> SlotIndex(c.x, c.y) % CHAR_WIDTH == CHAR_WIDTH - 1)
    ensures c.x < CHAR_WIDTH ==> (IsAtLineStart(c) <==> SlotIndex(c.x, c.y) % CHAR_WIDTH == 0)
  {
  }

  /** The cursor moves the editor makes between a `Backup` and a `Restore`. */
  datatype Move = Inc | Dec | DecSlot | LineBeginning | NextLine | PreviousLine | SetX(x: nat)

  /** A move is legal when the program would not panic on it. */
  predicate Legal(c: CursorPointer, mv: Move) {
    mv.PreviousLine? ==> c.y > 0
  }

  function ApplyMove(c: CursorPointer, mv: Move): (r: CursorPointer)
    requires Legal(c, mv)
    ensures SameBackup(r, c)
  {
    match mv
    case Inc => Increment(c)
    case Dec => Decrement(c)
    case DecSlot => DecrementSlot(c)
    case LineBeginning => ToLineBeginning(c)
    case NextLine => ToNextLine(c)
    case PreviousLine => ToPreviousLine(c)
    case SetX(x) => c.(x := x)
  }

  /** Every move of the sequence is legal at the position it is applied to. */
  ghost predicate AllLegal(c: CursorPointer, moves: seq<Move>)
    decreases |moves|
  {
    |moves| == 0 || (Legal(c, moves[0]) && AllLegal(ApplyMove(c, moves[0]), moves[1..]))
  }

  /** The cursor after applying the moves in order. */
  ghost function ApplyMoves(c: CursorPointer, moves: seq<Move>): CursorPointer
    requires AllLegal(c, moves)
    decreases |moves|
  {
    if |moves| == 0 then c else ApplyMoves(ApplyMove(c, moves[0]), moves[1..])
  }

  /** No move touches the backup slot. */
  lemma {:induction false} MovesKeepBackup(c: CursorPointer, moves: seq<Move>)
    requires AllLegal(c, moves)
    ensures SameBackup(ApplyMoves(c, moves), c)
    decreases |moves|
  {
    if |moves| > 0 {
      MovesKeepBackup(ApplyMove(c, moves[0]), moves[1..]);
    }
  }

  /** `Restore` after `Backup` returns the cursor to the saved position whatever moves
      happened in between. */
  lemma {:induction false} BackupRestore(c: CursorPointer, moves: seq<Move>)
    requires AllLegal(Backup(c), moves)
    ensures var r := Restore(ApplyMoves(Backup(c), moves));
      r.x == c.x && r.y == c.y && r.xBackup == c.x && r.yBackup == c.y
  {
    MovesKeepBackup(Backup(c), moves);
  }
}
