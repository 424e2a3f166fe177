/**
 * Concrete editing sessions on the gap buffer of code/gap_buffer.h,
 * worked through the snapshot functions.  Bytes are written as their
 * ASCII codes: 97 'a', 98 'b', 99 'c', 100 'd', 120 'x', 10 newline.
 */
module GapScenarios {
  import opened Basics
  import opened GapSpec

  /** Typing "ab\ncd" into a fresh buffer of capacity 10 leaves the cursor after the fifth byte. */
  lemma TypeTwoLines(z: seq<U8>)
    requires z == [0, 0, 0, 0, 0, 0, 0, 0, 0, 0, 0, 0, 0]
    ensures AddCharacter(AddCharacter(AddCharacter(AddCharacter(AddCharacter(Make(10, z), 97), 98), Newline), 99), 100)
            == Gap([0, 97, 98, Newline, 99, 100, 0, 0, 0, 0, 0, 0, 0], 10, 5, 10)
  {
  }

  /** move_up from the end of "ab\ncd" lands after "ab" and keeps the text. */
  lemma MoveUpOnTwoLines(g: Gap)
    requires g == Gap([0, 97, 98, Newline, 99, 100, 0, 0, 0, 0, 0, 0, 0], 10, 5, 10)
    ensures g.Content() == [97, 98, Newline, 99, 100]
    ensures MoveUp(g).cursor == 2 && MoveUp(g).Content() == g.Content()
  {
    assert g.Content() == [97, 98, Newline, 99, 100];
    // The first scan: three left moves, counting column 3, stopping before the newline.
    var l3 := Gap([0, 97, 98, Newline, 99, 100, 0, 0, Newline, 99, 100, 0, 0], 10, 2, 7);
    ScanLeftOnTwoLines(g);
    // The step over the newline and the second scan, to the buffer start.
    var l5 := Gap([0, 97, 98, Newline, 99, 100, 97, 98, Newline, 99, 100, 0, 0], 10, 0, 5);
    UpToFirstLine(l3, l5);
    MoveUpBySteps(g, l3, l5);
    // column - 1 == 2 right moves.
    var r2 := Gap([0, 97, 98, Newline, 99, 100, 97, 98, Newline, 99, 100, 0, 0], 10, 2, 7);
    RightTwiceOnFirstLine(l5, r2);
    assert r2.Content() == [97, 98, Newline, 99, 100];
  }

  /** From just after the newline of "ab\ncd", move_left and the leftward scan reach the buffer start. */
  lemma UpToFirstLine(l3: Gap, l5: Gap)
    requires l3 == Gap([0, 97, 98, Newline, 99, 100, 0, 0, Newline, 99, 100, 0, 0], 10, 2, 7)
    requires l5 == Gap([0, 97, 98, Newline, 99, 100, 97, 98, Newline, 99, 100, 0, 0], 10, 0, 5)
    ensures ScanLeft(MoveLeft(l3)) == l5
  {
    var l4 := MoveLeft(l3);
    assert l4 == Gap([0, 97, 98, Newline, 99, 100, 0, 98, Newline, 99, 100, 0, 0], 10, 1, 6);
    assert MoveLeft(l4) == l5;
    assert ScanLeft(l5) == l5;
    assert ScanLeft(l4) == l5;
  }

  /** The two right moves of move_up's column loop, from the buffer start of "ab\ncd". */
  lemma RightTwiceOnFirstLine(l5: Gap, r2: Gap)
    requires l5 == Gap([0, 97, 98, Newline, 99, 100, 97, 98, Newline, 99, 100, 0, 0], 10, 0, 5)
    requires r2 == Gap([0, 97, 98, Newline, 99, 100, 97, 98, Newline, 99, 100, 0, 0], 10, 2, 7)
    ensures RightTimes(l5, 2) == r2
  {
    var r1 := MoveRight(l5);
    assert r1 == Gap([0, 97, 98, Newline, 99, 100, 97, 98, Newline, 99, 100, 0, 0], 10, 1, 6);
    assert MoveRight(r1) == r2;
    assert RightTimes(r1, 1) == r2;
  }

  /** The leftward scan from the end of "ab\ncd" stops before the newline, three bytes to the left. */
  lemma ScanLeftOnTwoLines(g: Gap)
    requires g == Gap([0, 97, 98, Newline, 99, 100, 0, 0, 0, 0, 0, 0, 0], 10, 5, 10)
    ensures ScanLeft(g) == Gap([0, 97, 98, Newline, 99, 100, 0, 0, Newline, 99, 100, 0, 0], 10, 2, 7)
  {
    var l1 := MoveLeft(g);
    assert l1 == Gap([0, 97, 98, Newline, 99, 100, 0, 0, 0, 0, 100, 0, 0], 10, 4, 9);
    var l2 := MoveLeft(l1);
    assert l2 == Gap([0, 97, 98, Newline, 99, 100, 0, 0, 0, 99, 100, 0, 0], 10, 3, 8);
    var l3 := MoveLeft(l2);
    assert l3 == Gap([0, 97, 98, Newline, 99, 100, 0, 0, Newline, 99, 100, 0, 0], 10, 2, 7);
    assert ScanLeft(l3) == l3;
    assert ScanLeft(l2) == l3;
    assert ScanLeft(l1) == l3;
  }

  /**
   * From the end of "ab\ncd", move_to_line_start lands after the newline
   * and move_to_line_end then returns to the end: the two span "cd".
   */
  lemma LineStartAndEndOnTwoLines(g: Gap)
    requires g == Gap([0, 97, 98, Newline, 99, 100, 0, 0, 0, 0, 0, 0, 0], 10, 5, 10)
    ensures var s := MoveToLineStart(g);
      var e := MoveToLineEnd(s);
      s.cursor == 3 && e.cursor == 5 && e.Content()[s.cursor..e.cursor] == [99, 100]
  {
    ScanLeftOnTwoLines(g);
    var l3 := Gap([0, 97, 98, Newline, 99, 100, 0, 0, Newline, 99, 100, 0, 0], 10, 2, 7);
    var s := MoveRight(l3);
    assert s == Gap([0, 97, 98, Newline, 99, 100, 0, 0, Newline, 99, 100, 0, 0], 10, 3, 8);
    assert MoveToLineStart(g) == s;
    var e1 := MoveRight(s);
    assert e1 == Gap([0, 97, 98, Newline, 99, 100, 0, 0, Newline, 99, 100, 0, 0], 10, 4, 9);
    var e2 := MoveRight(e1);
    assert e2 == Gap([0, 97, 98, Newline, 99, 100, 0, 0, Newline, 99, 100, 0, 0], 10, 5, 10);
    assert ScanRight(e1) == e2;
    assert MoveToLineEnd(s) == e2;
    assert e2.Content()[3..5] == [99, 100];
  }

  /**
   * move_right right after an insertion in the middle of the text: type
   * "abc", move left twice, type 'x', move right.  The text "axbc"
   * becomes "axcc", because the byte at the gap's left edge is a stale
   * copy of 'c' rather than the 'b' that follows the cursor.
   */
  lemma MoveRightAfterInsertLosesByte(z: seq<U8>)
    requires z == [0, 0, 0, 0, 0, 0, 0, 0]
    ensures var g := AddCharacter(MoveLeft(MoveLeft(
              AddCharacter(AddCharacter(AddCharacter(Make(5, z), 97), 98), 99))), 120);
      g.Content() == [97, 120, 98, 99] && MoveRight(g).Content() == [97, 120, 99, 99]
  {
    var t := Gap([0, 97, 98, 99, 0, 0, 0, 0], 5, 3, 5);
    TypeABC(z, t);
    var g := Gap([0, 97, 120, 99, 98, 99, 0, 0], 5, 2, 3);
    LeftTwiceAndInsert(t, g);
    InsertThenMoveRight(g);
  }

  /** Typing "abc" into a fresh buffer of capacity 5. */
  lemma TypeABC(z: seq<U8>, t: Gap)
    requires z == [0, 0, 0, 0, 0, 0, 0, 0]
    requires t == Gap([0, 97, 98, 99, 0, 0, 0, 0], 5, 3, 5)
    ensures AddCharacter(AddCharacter(AddCharacter(Make(5, z), 97), 98), 99) == t
  {
  }

  /** Two left moves after "abc", then 'x' typed after the 'a'. */
  lemma LeftTwiceAndInsert(t: Gap, g: Gap)
    requires t == Gap([0, 97, 98, 99, 0, 0, 0, 0], 5, 3, 5)
    requires g == Gap([0, 97, 120, 99, 98, 99, 0, 0], 5, 2, 3)
    ensures AddCharacter(MoveLeft(MoveLeft(t)), 120) == g
  {
    var l1 := MoveLeft(t);
    assert l1 == Gap([0, 97, 98, 99, 0, 99, 0, 0], 5, 2, 4);
    var l2 := MoveLeft(l1);
    assert l2 == Gap([0, 97, 98, 99, 98, 99, 0, 0], 5, 1, 3);
  }

  /** The move_right that copies the stale 'c' over the 'b' after the cursor. */
  lemma InsertThenMoveRight(g: Gap)
    requires g == Gap([0, 97, 120, 99, 98, 99, 0, 0], 5, 2, 3)
    ensures g.Content() == [97, 120, 98, 99] && MoveRight(g).Content() == [97, 120, 99, 99]
  {
    assert g.Content() == [97, 120, 98, 99];
    var r := MoveRight(g);
    assert r == Gap([0, 97, 120, 99, 99, 99, 0, 0], 5, 3, 4);
    assert r.Content() == [97, 120, 99, 99];
  }

  /** Typing "abc", moving left, typing a newline and deleting it. */
  lemma NewlineTypedAndDeleted(z: seq<U8>)
    requires z == [0, 0, 0, 0, 0, 0, 0]
    ensures DeleteCharacter(AddCharacter(MoveLeft(
              AddCharacter(AddCharacter(AddCharacter(Make(4, z), 97), 98), 99)), Newline))
            == Gap([0, 97, 98, Newline, 99, 0, 0], 4, 2, 3)
  {
    var t := AddCharacter(AddCharacter(AddCharacter(Make(4, z), 97), 98), 99);
    assert t.mem == [0, 97, 98, 99, 0, 0, 0];
    var l := MoveLeft(t);
    assert l.mem == [0, 97, 98, 99, 99, 0, 0] && l.cursor == 2 && l.back == 3;
  }

  /**
   * move_to_line_start right after deleting a newline: type "abc", move
   * left, type a newline, delete it.  The text is "abc" with the cursor
   * after "ab", and the stale newline at the gap's left edge makes
   * move_to_line_start step right at once, turning the text into "ab\n"
   * with a byte read from past the end of the storage.
   */
  lemma LineStartAfterDeleteLosesByte(g: Gap)
    requires g == Gap([0, 97, 98, Newline, 99, 0, 0], 4, 2, 3)
    ensures g.Content() == [97, 98, 99] && MoveToLineStart(g).Content() == [97, 98, Newline]
  {
    assert g.Content() == [97, 98, 99];
    assert ScanLeft(g) == g;
    var r := MoveRight(g);
    assert MoveToLineStart(g) == r;
    assert r.mem == [0, 97, 98, Newline, 0, 0, 0] && r.cursor == 3 && r.back == 4;
    assert r.Content() == [97, 98, Newline];
  }

  /**
   * A buffer of capacity 2 takes three bytes: the third is written one
   * byte past the storage, and the fourth is dropped.
   */
  lemma OverrunPastTheEnd(z: seq<U8>)
    requires z == [0, 0, 0, 0, 0]
    ensures var g := AddCharacter(AddCharacter(AddCharacter(Make(2, z), 97), 98), 99);
      g.Content() == [97, 98, 99] && g.cursor == 3 && g.back == 2
      && AddCharacter(g, 100) == g
  {
    var g := AddCharacter(AddCharacter(AddCharacter(Make(2, z), 97), 98), 99);
    assert g.mem == [0, 97, 98, 99, 0];
  }

  /**
   * From the overrun state that OverrunPastTheEnd ends in, with the text
   * "abc" and a gap of width -1, move_left copies 'c' over 'b' and gives
   * "acc".
   */
  lemma MoveLeftAfterOverrun(g: Gap)
    requires g == Gap([0, 97, 98, 99, 0], 2, 3, 2)
    ensures g.Content() == [97, 98, 99]
    ensures MoveLeft(g) == Gap([0, 97, 99, 99, 0], 2, 2, 1)
    ensures MoveLeft(g).Content() == [97, 99, 99]
  {
    assert g.Content() == [97, 98, 99];
    var l := MoveLeft(g);
    assert l == Gap([0, 97, 99, 99, 0], 2, 2, 1);
    assert l.Content() == [97, 99, 99];
  }

  /**
   * An overrun state can be mirrored and still lose a byte to move_right:
   * with the text "abbbc" and a gap of width -1, move_right copies the
   * second 'b' over 'c' and gives "abbbb".
   */
  lemma MoveRightAfterOverrun(g: Gap)
    requires g == Gap([0, 97, 98, 98, 99, 0, 0], 4, 2, 1)
    ensures g.Width() == -1 && g.Mirrored() && g.Content() == [97, 98, 98, 98, 99]
    ensures MoveRight(g).Content() == [97, 98, 98, 98, 98]
  {
    assert g.Content() == [97, 98, 98, 98, 99];
    var r := MoveRight(g);
    assert r == Gap([0, 97, 98, 98, 98, 0, 0], 4, 3, 2);
    assert r.Content() == [97, 98, 98, 98, 98];
  }

  /**
   * move_up from the same overrun state: the leftward scan copies 'c'
   * down to the start, so the text "abc" becomes "ccc".
   */
  lemma MoveUpAfterOverrun(g: Gap)
    requires g == Gap([0, 97, 98, 99, 0], 2, 3, 2)
    ensures MoveUp(g).Content() == [99, 99, 99]
  {
    var a := Gap([99, 99, 99, 99, 0], 2, 0, -1);
    var r := Gap([99, 99, 99, 99, 0], 2, 2, 1);
    ScanLeftAfterOverrun(g, a);
    StillAtStart(a);
    MoveUpBySteps(g, a, a);
    RightTwiceFromStart(a, r);
  }

  /** At the start of the buffer move_left and the leftward scan do nothing. */
  lemma StillAtStart(a: Gap)
    requires a.Wf() && a.cursor == 0
    ensures ScanLeft(MoveLeft(a)) == a
  {
  }

  /** The leftward scan from the overrun state runs to the buffer start, copying 'c' as it goes. */
  lemma ScanLeftAfterOverrun(g: Gap, a: Gap)
    requires g == Gap([0, 97, 98, 99, 0], 2, 3, 2)
    requires a == Gap([99, 99, 99, 99, 0], 2, 0, -1)
    ensures ScanLeft(g) == a
  {
    MoveLeftAfterOverrun(g);
    var l1 := Gap([0, 97, 99, 99, 0], 2, 2, 1);
    var l2 := MoveLeft(l1);
    assert l2 == Gap([0, 99, 99, 99, 0], 2, 1, 0);
    assert MoveLeft(l2) == a;
    assert ScanLeft(a) == a;
    assert ScanLeft(l2) == a;
    assert ScanLeft(l1) == a;
  }

  /** Two right moves from the buffer start of the scanned state. */
  lemma RightTwiceFromStart(a: Gap, r: Gap)
    requires a == Gap([99, 99, 99, 99, 0], 2, 0, -1)
    requires r == Gap([99, 99, 99, 99, 0], 2, 2, 1)
    ensures RightTimes(a, 2) == r && r.Content() == [99, 99, 99]
  {
    var r1 := MoveRight(a);
    assert r1 == Gap([99, 99, 99, 99, 0], 2, 1, 0);
    assert MoveRight(r1) == r;
    assert RightTimes(r1, 1) == r;
    assert r.Content() == [99, 99, 99];
  }
}
