/**
 * The gap buffer of code/gap_buffer.h, as pure functions on snapshots of
 * its state.  The class in gap_buffer.dfy is proved to step exactly as
 * these functions say; the lemmas here state what those steps do to the
 * text the buffer holds.
 *
 * The snapshot keeps the source's own arithmetic, including its quirks:
 * add_character writes when cursor <= back (so one write overruns an
 * empty gap), and move_right moves both indices before it copies.  A
 * move_right that takes back up to the capacity reads data[capacity], the
 * byte just after the allocation; after an overrun the routines also
 * touch the byte just before it and the second byte after it.  So a
 * snapshot holds capacity + 3 bytes: byte i of the buffer
 * (-1 <= i <= capacity + 1) is mem[i + 1].
 */
module GapSpec {
  import opened Basics

  datatype Gap = Gap(mem: seq<U8>, capacity: int, cursor: int, back: int)
  {
    /**
     * A superset of the states reachable from make_gap_buffer: the gap
     * may be overrun by one byte, no more.
     */
    predicate Wf() {
      0 <= capacity && |mem| == capacity + 3 && 0 <= cursor <= back + 1 && back <= capacity
    }

    /** `data[i]` in the source, for every index its routines can reach. */
    function At(i: int): U8
      requires Wf() && -1 <= i <= capacity + 1
    {
      mem[i + 1]
    }

    /** `data[0..cursor)`: the text before the cursor. */
    function Front(): seq<U8>
      requires Wf()
    {
      mem[1..cursor + 1]
    }

    /** `data[back..capacity)`: the text after the cursor. */
    function Back(): seq<U8>
      requires Wf()
    {
      mem[back + 1..capacity + 1]
    }

    /** The text, in the order draw_buffer visits it. */
    function Content(): seq<U8>
      requires Wf()
    {
      Front() + Back()
    }

    function Width(): int {
      back - cursor
    }

    /**
     * The byte at the gap's left edge equals the first byte after it.
     * move_right keeps the text intact exactly in such a state.
     */
    predicate Mirrored()
      requires Wf()
    {
      At(cursor) == At(back)
    }
  }

  /**
   * make_gap_buffer: the gap spans all of the storage.  The storage is
   * not cleared, so its bytes are whatever it held.
   */
  function Make(capacity: nat, storage: seq<U8>): (g: Gap)
    requires |storage| == capacity + 3
    ensures g.Wf() && g.capacity == capacity
    ensures g.Content() == [] && g.Width() == capacity
  {
    Gap(storage, capacity, 0, capacity)
  }

  /** add_character: write at the cursor when cursor <= back. */
  function AddCharacter(g: Gap, c: U8): (r: Gap)
    requires g.Wf()
    ensures r.Wf() && r.capacity == g.capacity && r.back == g.back
  {
    if g.cursor <= g.back then
      g.(mem := g.mem[g.cursor + 1 := c], cursor := g.cursor + 1)
    else
      g
  }

  /** delete_character: drop the byte before the cursor, touching no byte. */
  function DeleteCharacter(g: Gap): (r: Gap)
    requires g.Wf()
    ensures r.Wf() && r.capacity == g.capacity && r.mem == g.mem && r.back == g.back
  {
    if g.cursor > 0 then g.(cursor := g.cursor - 1) else g
  }

  /** move_left: both indices drop by one, then data[back] := data[cursor]. */
  function MoveLeft(g: Gap): (r: Gap)
    requires g.Wf()
    ensures r.Wf() && r.capacity == g.capacity && r.Width() == g.Width()
    ensures g.cursor > 0 ==> r.cursor == g.cursor - 1 && r.Mirrored()
    ensures g.cursor == 0 ==> r == g
  {
    if g.cursor > 0 then
      var cursor, back := g.cursor - 1, g.back - 1;
      g.(mem := g.mem[back + 1 := g.mem[cursor + 1]], cursor := cursor, back := back)
    else
      g
  }

  /** move_right: both indices rise by one, then data[cursor] := data[back]. */
  function MoveRight(g: Gap): (r: Gap)
    requires g.Wf()
    ensures r.Wf() && r.capacity == g.capacity && r.Width() == g.Width()
    ensures g.back < g.capacity ==> r.back == g.back + 1 && r.Mirrored()
    ensures g.back == g.capacity ==> r == g
  {
    if g.back < g.capacity then
      var cursor, back := g.cursor + 1, g.back + 1;
      g.(mem := g.mem[cursor + 1 := g.mem[back + 1]], cursor := cursor, back := back)
    else
      g
  }

  /** The leftward scan the navigation routines share: move left until the cursor is 0 or data[cursor] is a newline. */
  function ScanLeft(g: Gap): (r: Gap)
    requires g.Wf()
    ensures r.Wf() && r.capacity == g.capacity && r.Width() == g.Width()
    ensures r.cursor <= g.cursor
    decreases g.cursor
  {
    if g.cursor > 0 && g.At(g.cursor) != Newline then ScanLeft(MoveLeft(g)) else g
  }

  /** The leftward scan stops at the start of the buffer or on a newline at the gap's left edge. */
  lemma {:induction false} ScanLeftStops(g: Gap)
    requires g.Wf()
    ensures var r := ScanLeft(g); r.cursor == 0 || r.At(r.cursor) == Newline
    decreases g.cursor
  {
    if g.cursor > 0 && g.At(g.cursor) != Newline {
      ScanLeftStops(MoveLeft(g));
    }
  }

  /** The rightward scan: move right until back is capacity or data[cursor] is a newline. */
  function ScanRight(g: Gap): (r: Gap)
    requires g.Wf()
    ensures r.Wf() && r.capacity == g.capacity && r.Width() == g.Width()
    ensures r.back >= g.back
    decreases g.capacity - g.back
  {
    if g.back < g.capacity && g.At(g.cursor) != Newline then ScanRight(MoveRight(g)) else g
  }

  /** The rightward scan stops at the end of the buffer or on a newline at the gap's left edge. */
  lemma {:induction false} ScanRightStops(g: Gap)
    requires g.Wf()
    ensures var r := ScanRight(g); r.back == r.capacity || r.At(r.cursor) == Newline
    decreases g.capacity - g.back
  {
    if g.back < g.capacity && g.At(g.cursor) != Newline {
      ScanRightStops(MoveRight(g));
    }
  }

  /** n calls of move_right (none when n <= 0), each a no-op once back reaches capacity. */
  function RightTimes(g: Gap, n: int): (r: Gap)
    requires g.Wf()
    ensures r.Wf() && r.capacity == g.capacity && r.Width() == g.Width()
    ensures n <= 0 ==> r == g
    ensures n >= 0 ==> r.back == if g.back + n <= g.capacity then g.back + n else g.capacity
    decreases n
  {
    if n <= 0 then g else RightTimes(MoveRight(g), n - 1)
  }

  /** move_up: count the column while scanning left, step left, scan left, then move right column - 1 times. */
  function MoveUp(g: Gap): (r: Gap)
    requires g.Wf()
    ensures r.Wf() && r.capacity == g.capacity && r.Width() == g.Width()
  {
    var a := ScanLeft(g);
    var column := g.cursor - a.cursor;
    RightTimes(ScanLeft(MoveLeft(a)), column - 1)
  }

  /** move_down: count the column while scanning left, step right, scan right, then move right column + 1 times. */
  function MoveDown(g: Gap): (r: Gap)
    requires g.Wf()
    ensures r.Wf() && r.capacity == g.capacity && r.Width() == g.Width()
  {
    var a := ScanLeft(g);
    var column := g.cursor - a.cursor;
    RightTimes(ScanRight(MoveRight(a)), column + 1)
  }

  /**
   * An unfolding helper: move_up as its phases, the scan that counts the
   * column, the step and scan left, and the column's right moves.  Naming
   * the phases keeps the proofs that use it small.
   */
  lemma MoveUpBySteps(g: Gap, a: Gap, b: Gap)
    requires g.Wf() && a == ScanLeft(g) && b == ScanLeft(MoveLeft(a))
    ensures MoveUp(g) == RightTimes(b, g.cursor - a.cursor - 1)
  {
  }

  /**
   * An unfolding helper: move_down as its phases, the scan that counts
   * the column, the step and scan right, and the column's right moves.
   */
  lemma MoveDownBySteps(g: Gap, a: Gap, c: Gap)
    requires g.Wf() && a == ScanLeft(g) && c == ScanRight(MoveRight(a))
    ensures MoveDown(g) == RightTimes(c, g.cursor - a.cursor + 1)
  {
  }

  /** move_to_line_start: scan left, then step right if data[cursor] is a newline. */
  function MoveToLineStart(g: Gap): (r: Gap)
    requires g.Wf()
    ensures r.Wf() && r.capacity == g.capacity && r.Width() == g.Width()
  {
    var a := ScanLeft(g);
    if a.At(a.cursor) == Newline then MoveRight(a) else a
  }

  /** move_to_line_end: scan right. */
  function MoveToLineEnd(g: Gap): (r: Gap)
    requires g.Wf()
    ensures r.Wf() && r.capacity == g.capacity && r.Width() == g.Width()
    ensures r.back == r.capacity || r.At(r.cursor) == Newline
  {
    ScanRightStops(g);
    ScanRight(g)
  }
}
