/** The interpreter's memory: a list of integer cells that grows to the right on
    demand, with a cursor. The value-level functions below specify the operations;
    the class `Tape` performs them in place, as the interpreter does. */
module Tapes {
  import opened Wrappers

  /** The value of a tape: its cells and its cursor. The cursor is an `int`
      because moving left from cell 0 makes it negative. Cells are unbounded
      integers, as in the original, which never wraps them. */
  datatype TapeState = TapeState(cells: seq<int>, position: int)

  /** What every tape operation keeps: at least one cell, and the cursor never
      right of the last cell (moving left may take it below 0). */
  predicate WellFormed(t: TapeState)
  {
    |t.cells| > 0 && t.position < |t.cells|
  }

  /** The cursor addresses an existing cell: what reading and writing need. */
  predicate InBounds(t: TapeState)
  {
    0 <= t.position < |t.cells|
  }

  /** A new tape: one cell holding 0, the cursor on it. */
  function Blank(): (t: TapeState)
    ensures WellFormed(t) && InBounds(t)
    ensures |t.cells| == 1 && Read(t) == 0
  {
    TapeState([0], 0)
  }

  /** The value under the cursor. */
  function Read(t: TapeState): (r: int)
    requires InBounds(t)
    ensures r in t.cells
  {
    t.cells[t.position]
  }

  /** Overwrite the cell under the cursor; nothing else changes. */
  function Write(t: TapeState, v: int): (r: TapeState)
    requires InBounds(t)
    ensures InBounds(r) && Read(r) == v
    ensures r.position == t.position && |r.cells| == |t.cells|
  {
    t.(cells := t.cells[t.position := v])
  }

  /** Writing leaves every other cell as it was. */
  lemma WriteKeepsOthers(t: TapeState, v: int, i: int)
    requires InBounds(t) && 0 <= i < |t.cells| && i != t.position
    ensures Write(t, v).cells[i] == t.cells[i]
  {
  }

  /** Add one to the cell under the cursor. */
  function Increment(t: TapeState): (r: TapeState)
    requires InBounds(t)
    ensures r == Write(t, Read(t) + 1)
  {
    TapeState(t.cells[t.position := t.cells[t.position] + 1], t.position)
  }

  /** Subtract one from the cell under the cursor. */
  function Decrement(t: TapeState): (r: TapeState)
    requires InBounds(t)
    ensures r == Write(t, Read(t) - 1)
  {
    TapeState(t.cells[t.position := t.cells[t.position] - 1], t.position)
  }

  /** Move the cursor one cell right, appending a zero cell when it runs past
      the end, and only then: the tape grows lazily. Existing cells are kept;
      the only new cell is 0. */
  function MoveRight(t: TapeState): (r: TapeState)
    ensures r.position == t.position + 1
    ensures |t.cells| <= |r.cells| <= |t.cells| + 1
    ensures WellFormed(t) ==> (|r.cells| > |t.cells| <==> t.position == |t.cells| - 1)
    ensures t.position + 1 < |t.cells| ==> r.cells == t.cells
    ensures WellFormed(t) ==> WellFormed(r)
    ensures WellFormed(t) && -1 <= t.position ==> InBounds(r)
  {
    var p := t.position + 1;
    if |t.cells| <= p then TapeState(t.cells + [0], p) else TapeState(t.cells, p)
  }

  /** Moving right keeps the existing cells; the only cell it may add is 0. */
  lemma MoveRightKeepsCells(t: TapeState)
    ensures MoveRight(t).cells[..|t.cells|] == t.cells
    ensures forall i :: |t.cells| <= i < |MoveRight(t).cells| ==> MoveRight(t).cells[i] == 0
  {
  }

  /** Move the cursor one cell left: no bound check, no new cell. */
  function MoveLeft(t: TapeState): (r: TapeState)
    ensures r.position == t.position - 1 && r.cells == t.cells
    ensures WellFormed(t) ==> WellFormed(r)
    ensures t.position == 0 ==> !InBounds(r)
  {
    TapeState(t.cells, t.position - 1)
  }

  /** Incrementing then decrementing (or the reverse) restores the tape. */
  lemma IncrementDecrementCancel(t: TapeState)
    requires InBounds(t)
    ensures Decrement(Increment(t)) == t
    ensures Increment(Decrement(t)) == t
  {
    assert Decrement(Increment(t)).cells == t.cells;
    assert Increment(Decrement(t)).cells == t.cells;
  }

  /** Moving right then left returns the cursor to where it was, keeps every
      existing cell, and reads the same value. */
  lemma MoveRightThenLeft(t: TapeState)
    requires WellFormed(t)
    ensures MoveLeft(MoveRight(t)).position == t.position
    ensures MoveLeft(MoveRight(t)).cells[..|t.cells|] == t.cells
    ensures WellFormed(MoveLeft(MoveRight(t)))
    ensures InBounds(t) ==> InBounds(MoveLeft(MoveRight(t))) && Read(MoveLeft(MoveRight(t))) == Read(t)
  {
    var r := MoveRight(t);
    MoveRightKeepsCells(t);
    if InBounds(t) {
      assert r.cells[..|t.cells|][t.position] == r.cells[t.position];
    }
  }

  /** Writing twice to the same cell keeps only the second value. */
  lemma WriteTwice(t: TapeState, a: int, b: int)
    requires InBounds(t)
    ensures Write(Write(t, a), b) == Write(t, b)
  {
    assert Write(Write(t, a), b).cells == Write(t, b).cells;
  }

  /** What the original's `get` does when the cursor is outside the cells:
      Python list indexing, where a negative index counts from the end of the
      list; `None` where Python raises IndexError. */
  function PythonRead(t: TapeState): (r: Option<int>)
    ensures InBounds(t) ==> r == Some(Read(t))
    ensures r.Some? <==> -|t.cells| <= t.position < |t.cells|
  {
    if 0 <= t.position < |t.cells| then Some(t.cells[t.position])
    else if -|t.cells| <= t.position < 0 then Some(t.cells[|t.cells| + t.position])
    else None
  }

  /** The tape object: `cells` is the growable list, `position` the cursor.
      Every method but `Get` updates the fields in place. */
  class Tape {
    var cells: seq<int>
    var position: int

    /** The current value of the tape. */
    function State(): TapeState
      reads this
    {
      TapeState(cells, position)
    }

    constructor ()
      ensures State() == Blank()
    {
      cells := [0];
      position := 0;
    }

    method Get() returns (v: int)
      requires InBounds(State())
      ensures v == Read(State())
    {
      v := cells[position];
    }

    method Set(v: int)
      requires InBounds(State())
      modifies this
      ensures State() == Write(old(State()), v)
    {
      cells := cells[position := v];
    }

    method Inc()
      requires InBounds(State())
      modifies this
      ensures State() == Increment(old(State()))
    {
      cells := cells[position := cells[position] + 1];
    }

    method Dec()
      requires InBounds(State())
      modifies this
      ensures State() == Decrement(old(State()))
    {
      cells := cells[position := cells[position] - 1];
    }

    method Advance()
      modifies this
      ensures State() == MoveRight(old(State()))
    {
      position := position + 1;
      if |cells| <= position {
        cells := cells + [0];
      }
    }

    method Devance()
      modifies this
      ensures State() == MoveLeft(old(State()))
    {
      position := position - 1;
    }
  }
}
