/**
 * What the gap buffer's operations do to the text it holds, as the code
 * in code/gap_buffer.h is written.
 */
module GapProperties {
  import opened Basics
  import opened GapSpec

  /** With room in the gap, add_character appends c to the text before the cursor. */
  lemma AddCharacterInGap(g: Gap, c: U8)
    requires g.Wf() && g.cursor < g.back
    ensures AddCharacter(g, c).Front() == g.Front() + [c]
    ensures AddCharacter(g, c).Back() == g.Back()
    ensures AddCharacter(g, c).Width() == g.Width() - 1
  {
    var r := AddCharacter(g, c);
    assert r.mem[1..r.cursor + 1] == g.mem[1..g.cursor + 1] + [c];
    assert r.mem[r.back + 1..r.capacity + 1] == g.mem[g.back + 1..g.capacity + 1];
  }

  /**
   * With an empty gap the guard still lets add_character write: it
   * overruns the gap (width -1) and c lands on the first byte after the
   * cursor, which then shows twice.
   */
  lemma AddCharacterIntoFullGap(g: Gap, c: U8)
    requires g.Wf() && g.cursor == g.back
    ensures AddCharacter(g, c).Width() == -1
    ensures g.back < g.capacity ==>
      AddCharacter(g, c).Content() == g.Front() + [c, c] + g.Back()[1..]
    ensures g.back == g.capacity ==> AddCharacter(g, c).Content() == g.Front() + [c]
  {
    var r := AddCharacter(g, c);
    assert r.Front() == g.Front() + [c] by {
      assert r.mem[1..r.cursor + 1] == g.mem[1..g.cursor + 1] + [c];
    }
    if g.back < g.capacity {
      OverrunWriteShowsTwice(g, c);
    }
  }

  /** The byte written into an empty gap is also the first byte after the cursor. */
  lemma OverrunWriteShowsTwice(g: Gap, c: U8)
    requires g.Wf() && g.cursor == g.back && g.back < g.capacity
    ensures AddCharacter(g, c).Back() == [c] + g.Back()[1..]
  {
    var r := AddCharacter(g, c);
    var k := g.back + 1;
    assert r.mem == g.mem[k := c];
    assert r.mem[k + 1..g.capacity + 1] == g.mem[k + 1..g.capacity + 1];
    assert r.mem[k..g.capacity + 1] == [c] + r.mem[k + 1..g.capacity + 1];
  }

  /** Once the gap is overrun, add_character does nothing. */
  lemma AddCharacterAfterOverrun(g: Gap, c: U8)
    requires g.Wf() && g.Width() < 0
    ensures AddCharacter(g, c) == g
  {
  }

  /** delete_character drops the last byte before the cursor and leaves the rest. */
  lemma DeleteCharacterDropsLast(g: Gap)
    requires g.Wf()
    ensures g.cursor > 0 ==> DeleteCharacter(g).Content() == g.Front()[..g.cursor - 1] + g.Back()
    ensures g.cursor == 0 ==> DeleteCharacter(g) == g
  {
    if g.cursor > 0 {
      assert DeleteCharacter(g).Front() == g.Front()[..g.cursor - 1];
    }
  }

  /** move_left, from a state whose gap is not overrun, keeps the text. */
  lemma MoveLeftKeepsContent(g: Gap)
    requires g.Wf() && g.Width() >= 0
    ensures MoveLeft(g).Content() == g.Content()
  {
    if g.cursor > 0 {
      MoveLeftSegments(g);
      var f := g.Front();
      assert f == f[..g.cursor - 1] + [g.At(g.cursor - 1)];
      assert MoveLeft(g).Content() == f[..g.cursor - 1] + ([g.At(g.cursor - 1)] + g.Back());
    }
  }

  /**
   * The two segments after move_left from a state whose gap is not
   * overrun: the last byte before the cursor moves to the front of the
   * text after it.
   */
  lemma MoveLeftSegments(g: Gap)
    requires g.Wf() && g.Width() >= 0 && g.cursor > 0
    ensures MoveLeft(g).Front() == g.Front()[..g.cursor - 1]
    ensures MoveLeft(g).Back() == [g.At(g.cursor - 1)] + g.Back()
  {
    var r := MoveLeft(g);
    assert r.mem == g.mem[g.back := g.mem[g.cursor]];
    assert r.mem[1..r.cursor + 1] == g.mem[1..g.cursor];
    assert r.mem[r.back + 1..r.capacity + 1] == [g.mem[g.cursor]] + g.mem[g.back + 1..g.capacity + 1];
  }

  /**
   * move_right, from a state whose gap is not overrun, puts the byte at
   * the gap's left edge before the cursor and drops the first byte after
   * it; the text survives exactly when the two bytes are equal.
   */
  lemma MoveRightContent(g: Gap)
    requires g.Wf() && g.Width() >= 0 && g.back < g.capacity
    ensures MoveRight(g).Content() == g.Front() + [g.At(g.cursor)] + g.Back()[1..]
    ensures MoveRight(g).Content() == g.Content() <==> g.Mirrored()
  {
    var r := MoveRight(g);
    MoveRightSegments(g);
    var f, b := g.Front(), g.Back();
    assert b == [g.At(g.back)] + b[1..];
    assert g.Content() == f + [g.At(g.back)] + b[1..];
    if r.Content() == g.Content() {
      assert (f + [g.At(g.cursor)] + b[1..])[|f|] == g.At(g.cursor);
      assert (f + [g.At(g.back)] + b[1..])[|f|] == g.At(g.back);
    }
  }

  /**
   * The two segments after move_right from a state whose gap is not
   * overrun: one byte more before the cursor, one fewer after it.
   */
  lemma MoveRightSegments(g: Gap)
    requires g.Wf() && g.Width() >= 0 && g.back < g.capacity
    ensures MoveRight(g).Front() == g.Front() + [g.At(g.cursor)]
    ensures MoveRight(g).Back() == g.Back()[1..]
  {
    var r := MoveRight(g);
    assert r.mem[1..r.cursor + 1] == g.mem[1..g.cursor + 1] + [g.mem[g.cursor + 1]];
    assert r.mem[r.back + 1..r.capacity + 1] == g.mem[g.back + 2..g.capacity + 1];
  }

  /** From a state whose gap is not overrun, with the cursor above 0, move_left then move_right restores the cursor, the gap and the text. */
  lemma MoveLeftThenRight(g: Gap)
    requires g.Wf() && g.Width() >= 0 && g.cursor > 0
    ensures MoveRight(MoveLeft(g)).cursor == g.cursor
    ensures MoveRight(MoveLeft(g)).back == g.back
    ensures MoveRight(MoveLeft(g)).Content() == g.Content()
  {
    var l := MoveLeft(g);
    MoveLeftKeepsContent(g);
    MoveRightContent(l);
  }

  /**
   * A move_right that takes back up to the capacity reads data[capacity],
   * the byte just past the storage, and leaves it at the gap's left edge.
   * This holds in ordinary use, not only after an overrun.
   */
  lemma MoveRightReadsPastStorage(g: Gap)
    requires g.Wf() && g.back == g.capacity - 1
    ensures var r := MoveRight(g);
      r.back == r.capacity && r.At(r.cursor) == g.At(g.capacity)
  {
  }

  /**
   * From a state whose gap is not overrun, with back below the capacity,
   * move_right then move_left restores the cursor and the gap, and keeps
   * the text exactly when the state was mirrored.
   */
  lemma MoveRightThenLeft(g: Gap)
    requires g.Wf() && g.Width() >= 0 && g.back < g.capacity
    ensures MoveLeft(MoveRight(g)).cursor == g.cursor
    ensures MoveLeft(MoveRight(g)).back == g.back
    ensures MoveLeft(MoveRight(g)).Content() == g.Content() <==> g.Mirrored()
  {
    var r := MoveRight(g);
    MoveRightContent(g);
    MoveLeftKeepsContent(r);
  }

  /**
   * From a state whose gap is not overrun, the leftward scan keeps the
   * text; once it has moved, or if it starts so, the state is mirrored.
   */
  lemma {:induction false} ScanLeftKeepsContent(g: Gap)
    requires g.Wf() && g.Width() >= 0
    ensures ScanLeft(g).Content() == g.Content()
    ensures ScanLeft(g).cursor < g.cursor || g.Mirrored() ==> ScanLeft(g).Mirrored()
    decreases g.cursor
  {
    if g.cursor > 0 && g.At(g.cursor) != Newline {
      MoveLeftKeepsContent(g);
      ScanLeftKeepsContent(MoveLeft(g));
    }
  }

  /** The rightward scan from a mirrored state whose gap is not overrun keeps the text and the mirror. */
  lemma {:induction false} ScanRightKeepsContent(g: Gap)
    requires g.Wf() && g.Width() >= 0 && g.Mirrored()
    ensures ScanRight(g).Content() == g.Content()
    ensures ScanRight(g).Mirrored()
    decreases g.capacity - g.back
  {
    if g.back < g.capacity && g.At(g.cursor) != Newline {
      MoveRightContent(g);
      ScanRightKeepsContent(MoveRight(g));
    }
  }

  /**
   * One move_right from a mirrored state whose gap is not overrun keeps
   * the text and the mirror, whether or not it moves.
   */
  lemma MoveRightKeepsMirror(g: Gap)
    requires g.Wf() && g.Width() >= 0 && g.Mirrored()
    ensures MoveRight(g).Content() == g.Content() && MoveRight(g).Mirrored()
  {
    if g.back < g.capacity {
      MoveRightContent(g);
    }
  }

  /** Repeated move_right from a mirrored state whose gap is not overrun keeps the text and the mirror. */
  lemma {:induction false} RightTimesKeepsContent(g: Gap, n: int)
    requires g.Wf() && g.Width() >= 0 && g.Mirrored()
    ensures RightTimes(g, n).Content() == g.Content()
    ensures RightTimes(g, n).Mirrored()
    decreases n, 1
  {
    if n > 0 {
      RightTimesStepKeepsContent(g, n);
    }
  }

  /** One step of the induction: the first move_right, then the other n - 1. */
  lemma {:induction false} RightTimesStepKeepsContent(g: Gap, n: int)
    requires g.Wf() && g.Width() >= 0 && g.Mirrored() && n > 0
    ensures RightTimes(g, n).Content() == g.Content()
    ensures RightTimes(g, n).Mirrored()
    decreases n, 0
  {
    MoveRightKeepsMirror(g);
    RightTimesKeepsContent(MoveRight(g), n - 1);
  }

  /**
   * From a state whose gap is not overrun, move_up keeps the text: its
   * right moves only run after at least one left move, and a left move
   * leaves the state mirrored.
   */
  lemma MoveUpKeepsContent(g: Gap)
    requires g.Wf() && g.Width() >= 0
    ensures MoveUp(g).Content() == g.Content()
  {
    var a := ScanLeft(g);
    ScanLeftKeepsContent(g);
    var b := MoveLeft(a);
    MoveLeftKeepsContent(a);
    var c := ScanLeft(b);
    ScanLeftKeepsContent(b);
    var column := g.cursor - a.cursor;
    if column - 1 > 0 {
      RightTimesKeepsContent(c, column - 1);
    }
  }

  /**
   * From a state whose gap is not overrun, move_down keeps the text when
   * its first scan moves or the state is mirrored; otherwise its first
   * move_right may overwrite a byte.
   */
  lemma MoveDownKeepsContent(g: Gap)
    requires g.Wf() && g.Width() >= 0
    requires g.Mirrored() || (g.cursor > 0 && g.At(g.cursor) != Newline)
    ensures MoveDown(g).Content() == g.Content()
  {
    var a := ScanLeft(g);
    ScanLeftKeepsContent(g);
    var b := MoveRight(a);
    if a.back < a.capacity {
      MoveRightContent(a);
    }
    var c := ScanRight(b);
    ScanRightKeepsContent(b);
    RightTimesKeepsContent(c, g.cursor - a.cursor + 1);
  }

  /** From a state whose gap is not overrun, move_to_line_start keeps the text under the same condition as move_down. */
  lemma MoveToLineStartKeepsContent(g: Gap)
    requires g.Wf() && g.Width() >= 0
    requires g.Mirrored() || (g.cursor > 0 && g.At(g.cursor) != Newline)
    ensures MoveToLineStart(g).Content() == g.Content()
  {
    var a := ScanLeft(g);
    ScanLeftKeepsContent(g);
    if a.At(a.cursor) == Newline && a.back < a.capacity {
      MoveRightContent(a);
    }
  }

  /**
   * move_to_line_start leaves the cursor at the start of the text, just
   * after a newline, or where its scan stopped with nothing after the cursor.
   */
  lemma MoveToLineStartLands(g: Gap)
    requires g.Wf()
    ensures var r := MoveToLineStart(g);
      r.cursor == 0 || r.back == r.capacity || r.Front()[r.cursor - 1] == Newline
  {
    var a := ScanLeft(g);
    ScanLeftStops(g);
    if a.At(a.cursor) == Newline && a.back < a.capacity {
      // move_right writes one byte past the newline, so the newline stays just before the cursor.
      var r := MoveRight(a);
      assert r.mem[r.cursor] == a.mem[a.cursor + 1];
    }
  }

  /**
   * From a mirrored state whose gap is not overrun, move_to_line_end keeps
   * the text and stops at its end or just before a newline.
   */
  lemma MoveToLineEndLands(g: Gap)
    requires g.Wf() && g.Width() >= 0 && g.Mirrored()
    ensures MoveToLineEnd(g).Content() == g.Content()
    ensures MoveToLineEnd(g).Back() == [] || MoveToLineEnd(g).Back()[0] == Newline
  {
    ScanRightKeepsContent(g);
  }
}
