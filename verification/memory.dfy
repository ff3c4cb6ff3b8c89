/** The gap buffer that stores the typed text.

    `cells[..before]` is the text before the caret and `cells[after + 1..]` the text after it;
    the cells in between form the unused gap. Every operation is O(1): it moves one index and
    copies at most one cell. */
module Memory {
  import opened Config
  import opened Wrappers

  /** `before` is one past the text before the caret; `after` is one before the text after
      the caret. `after` is -1 exactly when the buffer is full and the caret is at the very
      start (see `MoveAfterCursorAsWritten`). */
  datatype Memory = Memory(cells: seq<byte>, before: nat, after: int)

  /** The index invariant every reachable buffer keeps. */
  ghost predicate Valid(m: Memory) {
    |m.cells| == MEMORY_SIZE && m.before <= m.after + 1 <= MEMORY_SIZE
  }

  /** Logical text before the caret. */
  function Prefix(m: Memory): seq<byte>
    requires Valid(m)
  {
    m.cells[..m.before]
  }

  /** Logical text after the caret. */
  function Suffix(m: Memory): seq<byte>
    requires Valid(m)
  {
    m.cells[m.after + 1..]
  }

  /** The whole logical text; its length is what the two stacks hold together. */
  function Text(m: Memory): (r: seq<byte>)
    requires Valid(m)
    ensures |r| == m.before + (MEMORY_SIZE - 1 - m.after)
    ensures |r| <= MEMORY_SIZE
  {
    Prefix(m) + Suffix(m)
  }

  /** An empty buffer of zeroed cells. */
  function Default(): (m: Memory)
    ensures Valid(m)
    ensures Text(m) == [] && Prefix(m) == [] && Suffix(m) == []
    ensures CursorAtBeginning(m) && CursorAtEnd(m) && !MemoryFull(m)
  {
    Memory(seq(MEMORY_SIZE, _ => 0), 0, MEMORY_SIZE - 1)
  }

  /** Nothing precedes the caret. */
  predicate CursorAtBeginning(m: Memory)
    ensures Valid(m) ==> (CursorAtBeginning(m) <==> Prefix(m) == [])
  {
    m.before == 0
  }

  /** The gap is empty. */
  predicate MemoryFull(m: Memory)
    ensures Valid(m) ==> (MemoryFull(m) <==> |Text(m)| == MEMORY_SIZE)
  {
    m.before == m.after + 1
  }

  /** Nothing follows the caret. */
  predicate CursorAtEnd(m: Memory)
    ensures Valid(m) ==> (CursorAtEnd(m) <==> Suffix(m) == [])
  {
    m.after == |m.cells| - 1
  }

  /** Writes `id` just before the caret. The caller checks `MemoryFull` first. */
  function Insert(m: Memory, id: byte): (r: Memory)
    requires Valid(m) && !MemoryFull(m)
    ensures Valid(r)
    ensures Prefix(r) == Prefix(m) + [id]
    ensures Suffix(r) == Suffix(m)
    ensures r.after == m.after
    ensures Text(r) == Prefix(m) + [id] + Suffix(m)
  {
    var r := Memory(m.cells[m.before := id], m.before + 1, m.after);
    assert Prefix(r) == Prefix(m) + [id];
    assert Suffix(r) == Suffix(m);
    r
  }

  /** Drops the character before the caret into the gap. The caller checks
      `CursorAtBeginning` first. */
  function DeleteBackwards(m: Memory): (r: Memory)
    requires Valid(m) && m.before > 0
    ensures Valid(r)
    ensures Prefix(r) == Prefix(m)[..|Prefix(m)| - 1]
    ensures Suffix(r) == Suffix(m)
    ensures r.cells == m.cells && r.after == m.after
    ensures r.cells[r.before] == Prefix(m)[|Prefix(m)| - 1]
  {
    Memory(m.cells, m.before - 1, m.after)
  }

  /** Caret left: the last character before the caret becomes the first one after it. */
  function MoveAfterCursor(m: Memory): (r: Memory)
    requires Valid(m) && m.before > 0
    ensures Valid(r)
    ensures Text(r) == Text(m)
    ensures Prefix(r) == Prefix(m)[..|Prefix(m)| - 1]
    ensures Suffix(r) == [Prefix(m)[|Prefix(m)| - 1]] + Suffix(m)
  {
    var b := m.before - 1;
    var r := Memory(m.cells[m.after := m.cells[b]], b, m.after - 1);
    assert Prefix(r) == Prefix(m)[..|Prefix(m)| - 1];
    assert Suffix(r) == [Prefix(m)[|Prefix(m)| - 1]] + Suffix(m);
    r
  }

  /** Caret right: the first character after the caret becomes the last one before it. */
  function MoveBeforeCursor(m: Memory): (r: Memory)
    requires Valid(m) && m.after < MEMORY_SIZE - 1
    ensures Valid(r)
    ensures Text(r) == Text(m)
    ensures Prefix(r) == Prefix(m) + [Suffix(m)[0]]
    ensures Suffix(r) == Suffix(m)[1..]
  {
    var a := m.after + 1;
    var r := Memory(m.cells[m.before := m.cells[a]], m.before + 1, a);
    assert Prefix(r) == Prefix(m) + [Suffix(m)[0]];
    assert Suffix(r) == Suffix(m)[1..];
    r
  }

  /** Moving left then right restores both indices and the text; only the gap cell at
      `after` may hold a different value. */
  lemma LeftThenRightRestores(m: Memory)
    requires Valid(m) && m.before > 0
    ensures MoveAfterCursor(m).after < MEMORY_SIZE - 1
    ensures var r := MoveBeforeCursor(MoveAfterCursor(m));
      && r.before == m.before && r.after == m.after && Text(r) == Text(m)
      && forall i :: 0 <= i < MEMORY_SIZE && i != m.after ==> r.cells[i] == m.cells[i]
  {
  }

  /** Moving right then left restores both indices and the text; only the gap cell at
      `before` may hold a different value. */
  lemma RightThenLeftRestores(m: Memory)
    requires Valid(m) && m.after < MEMORY_SIZE - 1
    ensures MoveBeforeCursor(m).before > 0
    ensures var r := MoveAfterCursor(MoveBeforeCursor(m));
      && r.before == m.before && r.after == m.after && Text(r) == Text(m)
      && forall i :: 0 <= i < MEMORY_SIZE && i != m.before ==> r.cells[i] == m.cells[i]
  {
  }

  /** Inserting then deleting restores both indices and the text; only the gap cell at
      `before` keeps the inserted value. */
  lemma InsertThenDeleteRestores(m: Memory, id: byte)
    requires Valid(m) && !MemoryFull(m)
    ensures var r := DeleteBackwards(Insert(m, id));
      && r.before == m.before && r.after == m.after && Text(r) == Text(m)
      && forall i :: 0 <= i < MEMORY_SIZE && i != m.before ==> r.cells[i] == m.cells[i]
  {
  }

  /** `move_after_cursor` exactly as written: `pointer_after_cursor` is a `usize`, so the
      final decrement fails when it is already 0. */
  function MoveAfterCursorAsWritten(m: Memory): (r: Option<Memory>)
    requires Valid(m) && m.before > 0
    ensures r.None? <==> m.after == 0
    ensures r.Some? ==> r.value == MoveAfterCursor(m) && r.value.after >= 0
  {
    if m.after == 0 then None else Some(MoveAfterCursor(m))
  }

  /** A full buffer with one character before the caret passes the caret-left guard
      (`cursor_at_beginning` is false), yet the as-written decrement underflows; the
      corrected `MoveAfterCursor` handles it and keeps the text. */
  lemma MoveAfterCursorUnderflows()
    ensures var m := Memory(seq(MEMORY_SIZE, _ => 1), 1, 0);
      && Valid(m) && MemoryFull(m) && !CursorAtBeginning(m)
      && MoveAfterCursorAsWritten(m).None?
      && MoveAfterCursor(m).after == -1
      && Text(MoveAfterCursor(m)) == Text(m)
  {
  }
}
