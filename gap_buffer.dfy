/**
 * The GapBuffer of code/gap_buffer.h as an object updated in place.
 * Every method is proved to change the state exactly as the matching
 * function of GapSpec says; the navigation routines keep the source's
 * loops, each proved against the scan it performs.
 */
module GapBuffers {
  import opened Basics
  import GapSpec

  class GapBuffer {
    const capacity: int
    /**
     * The storage: buffer byte i (the source's data[i]) is mem[i + 1].
     * mem[capacity + 1] stands for data[capacity], just after the
     * allocation, which move_right reads when it takes back up to the
     * capacity; mem[0] and mem[capacity + 2] stand for the bytes the
     * source reaches only once its gap has been overrun.
     */
    const mem: array<U8>
    var cursor: int
    var back: int

    function State(): GapSpec.Gap
      reads this, mem
    {
      GapSpec.Gap(mem[..], capacity, cursor, back)
    }

    ghost predicate Valid()
      reads this, mem
    {
      State().Wf()
    }

    /** make_gap_buffer: the gap spans the whole (uncleared) storage. */
    constructor (capacity: nat)
      ensures Valid() && fresh(mem)
      ensures this.capacity == capacity && cursor == 0 && back == capacity
      ensures State() == GapSpec.Make(capacity, mem[..])
    {
      this.capacity := capacity;
      mem := new U8[capacity + 3];
      cursor := 0;
      back := capacity;
    }

    /** add_character */
    method AddCharacter(c: U8)
      requires Valid()
      modifies this, mem
      ensures Valid()
      ensures State() == GapSpec.AddCharacter(old(State()), c)
    {
      if cursor <= back {
        mem[cursor + 1] := c;
        cursor := cursor + 1;
      }
    }

    /** delete_character */
    method DeleteCharacter()
      requires Valid()
      modifies this
      ensures Valid()
      ensures State() == GapSpec.DeleteCharacter(old(State()))
    {
      if cursor > 0 {
        cursor := cursor - 1;
      }
    }

    /** move_left */
    method MoveLeft()
      requires Valid()
      modifies this, mem
      ensures Valid()
      ensures State() == GapSpec.MoveLeft(old(State()))
    {
      if cursor > 0 {
        back := back - 1;
        cursor := cursor - 1;
        mem[back + 1] := mem[cursor + 1];
      }
    }

    /** move_right */
    method MoveRight()
      requires Valid()
      modifies this, mem
      ensures Valid()
      ensures State() == GapSpec.MoveRight(old(State()))
    {
      if back < capacity {
        back := back + 1;
        cursor := cursor + 1;
        mem[cursor + 1] := mem[back + 1];
      }
    }

    /** The leftward scan loop shared by the navigation routines; returns how many steps it took. */
    method ScanLeft() returns (steps: int)
      requires Valid()
      modifies this, mem
      ensures Valid()
      ensures State() == GapSpec.ScanLeft(old(State()))
      ensures steps == old(cursor) - cursor
    {
      ghost var start := State();
      steps := 0;
      while cursor > 0 && mem[cursor + 1] != Newline
        invariant Valid()
        invariant GapSpec.ScanLeft(State()) == GapSpec.ScanLeft(start)
        invariant steps == start.cursor - cursor
        decreases cursor
      {
        ghost var before := State();
        steps := steps + 1;
        MoveLeft();
        assert GapSpec.ScanLeft(before) == GapSpec.ScanLeft(State());
      }
      assert GapSpec.ScanLeft(State()) == State();
    }

    /** The rightward scan loop of move_down and move_to_line_end. */
    method ScanRight()
      requires Valid()
      modifies this, mem
      ensures Valid()
      ensures State() == GapSpec.ScanRight(old(State()))
    {
      ghost var start := State();
      while back < capacity && mem[cursor + 1] != Newline
        invariant Valid()
        invariant GapSpec.ScanRight(State()) == GapSpec.ScanRight(start)
        decreases capacity - back
      {
        ghost var before := State();
        MoveRight();
        assert GapSpec.ScanRight(before) == GapSpec.ScanRight(State());
      }
      assert GapSpec.ScanRight(State()) == State();
    }

    /** The column loop of move_up and move_down: n calls of move_right. */
    method RightTimes(n: int)
      requires Valid()
      modifies this, mem
      ensures Valid()
      ensures State() == GapSpec.RightTimes(old(State()), n)
    {
      ghost var start := State();
      var i := 0;
      while i < n
        invariant Valid()
        invariant n <= 0 ==> i == 0 && State() == start
        invariant n > 0 ==> 0 <= i <= n
        invariant GapSpec.RightTimes(State(), n - i) == GapSpec.RightTimes(start, n)
      {
        MoveRight();
        i := i + 1;
      }
    }

    /** move_up */
    method MoveUp()
      requires Valid()
      modifies this, mem
      ensures Valid()
      ensures State() == GapSpec.MoveUp(old(State()))
    {
      ghost var g := State();
      var column := ScanLeft();
      ghost var a := State();
      MoveLeft();
      var _ := ScanLeft();
      GapSpec.MoveUpBySteps(g, a, State());
      RightTimes(column - 1);
    }

    /** move_down */
    method MoveDown()
      requires Valid()
      modifies this, mem
      ensures Valid()
      ensures State() == GapSpec.MoveDown(old(State()))
    {
      ghost var g := State();
      var column := ScanLeft();
      ghost var a := State();
      MoveRight();
      ScanRight();
      GapSpec.MoveDownBySteps(g, a, State());
      RightTimes(column + 1);
    }

    /** move_to_line_start */
    method MoveToLineStart()
      requires Valid()
      modifies this, mem
      ensures Valid()
      ensures State() == GapSpec.MoveToLineStart(old(State()))
    {
      var _ := ScanLeft();
      if mem[cursor + 1] == Newline {
        MoveRight();
      }
    }

    /** move_to_line_end */
    method MoveToLineEnd()
      requires Valid()
      modifies this, mem
      ensures Valid()
      ensures State() == GapSpec.MoveToLineEnd(old(State()))
    {
      ScanRight();
    }

    /**
     * The traversal of draw_buffer: data[0..cursor) in index order, the
     * cursor's place, then data[back..capacity) in index order.
     */
    method Traverse() returns (visited: seq<U8>, cursorAt: int)
      requires Valid()
      ensures visited == State().Content()
      ensures 0 <= cursorAt <= |visited| && visited[..cursorAt] == State().Front()
    {
      visited := [];
      var i := 0;
      while i < cursor
        invariant 0 <= i <= cursor
        invariant visited == mem[1..i + 1]
      {
        visited := visited + [mem[i + 1]];
        i := i + 1;
      }
      cursorAt := |visited|;
      i := back;
      while i < capacity
        invariant back <= i <= capacity
        invariant visited == mem[1..cursor + 1] + mem[back + 1..i + 1]
      {
        visited := visited + [mem[i + 1]];
        i := i + 1;
      }
    }
  }
}
