/** Whole runs of small programs, from parsing to the last instruction: what
    each prints, and how the unusual cases end (an unclosed `[`, an unmatched
    `]`, a read left of the first cell, input running out). */
module Examples {
  import opened Wrappers
  import opened Tapes
  import opened Parser
  import opened EvalLoop

  /** `+++.` on empty input prints 3. */
  lemma IncrementThriceThenPrint()
    ensures Interpret("+++.", [], 4) == Ok(Halted(Machine(4, TapeState([3], 0), [], [3])))
  {
    NoCloserParsesToItself("+++.");
    var p := "+++.";
    var m1 := Step(p, map[], Start([])).value;
    assert m1 == Machine(1, TapeState([1], 0), [], []);
    var m2 := Step(p, map[], m1).value;
    assert m2 == Machine(2, TapeState([2], 0), [], []);
    var m3 := Step(p, map[], m2).value;
    assert m3 == Machine(3, TapeState([3], 0), [], []);
    var m4 := Step(p, map[], m3).value;
    assert m4 == Machine(4, TapeState([3], 0), [], [3]);
    assert Run(p, map[], m2, 2) == Halted(m4);
  }

  /** `,.` echoes its one input item. */
  lemma EchoOneItem()
    ensures Interpret(",.", [65], 2) == Ok(Halted(Machine(2, TapeState([65], 0), [], [65])))
  {
    NoCloserParsesToItself(",.");
    var m1 := Step(",.", map[], Start([65])).value;
    assert m1 == Machine(1, TapeState([65], 0), [], []);
    var m2 := Step(",.", map[], m1).value;
    assert m2 == Machine(2, TapeState([65], 0), [], [65]);
  }

  /** The copy loop parses to itself, with its two brackets paired. */
  lemma CopyLoopParses()
    ensures ParseResult("+[>+<-]>.") == Ok(Program("+[>+<-]>.", map[1 := 6, 6 := 1]))
  {
    var j := map[1 := 6, 6 := 1];
    CopyLoopInnerScans();
    assert "+[>+<-" + [']'] == "+[>+<-]";
    ScanAllSnoc("+[>+<-", ']');
    assert ScanAll("+[>+<-]") == Ok(Scan("+[>+<-]", [], j));
    assert "+[>+<-]" + ['>'] == "+[>+<-]>";
    ScanAllSnoc("+[>+<-]", '>');
    assert ScanAll("+[>+<-]>") == Ok(Scan("+[>+<-]>", [], j));
    assert "+[>+<-]>" + ['.'] == "+[>+<-]>.";
    ScanAllSnoc("+[>+<-]>", '.');
  }

  /** Up to the `>` after it, the copy loop leaves its `[` open on the stack. */
  lemma CopyLoopOpenerScans()
    ensures ScanAll("+[>") == Ok(Scan("+[>", [1], map[]))
  {
    assert "" + ['+'] == "+";
    ScanAllSnoc("", '+');
    assert ScanAll("+") == Ok(Scan("+", [], map[]));
    assert "+" + ['['] == "+[";
    ScanAllSnoc("+", '[');
    assert [] + [1 as nat] == [1];
    assert ScanAll("+[") == Ok(Scan("+[", [1], map[]));
    assert "+[" + ['>'] == "+[>";
    ScanAllSnoc("+[", '>');
    assert ScanAll("+[>") == Ok(Scan("+[>", [1], map[]));
  }

  /** The inner `+<-` of the copy loop adds nothing to the stack or the table. */
  lemma CopyLoopInnerScans()
    ensures ScanAll("+[>+<-") == Ok(Scan("+[>+<-", [1], map[]))
  {
    CopyLoopOpenerScans();
    assert "+[>" + ['+'] == "+[>+";
    ScanAllSnoc("+[>", '+');
    assert ScanAll("+[>+") == Ok(Scan("+[>+", [1], map[]));
    assert "+[>+" + ['<'] == "+[>+<";
    ScanAllSnoc("+[>+", '<');
    assert ScanAll("+[>+<") == Ok(Scan("+[>+<", [1], map[]));
    assert "+[>+<" + ['-'] == "+[>+<-";
    ScanAllSnoc("+[>+<", '-');
  }

  /** Run from the start, the copy loop moves the 1 of the first cell to the
      second and prints it. */
  lemma CopyLoopRuns()
    ensures Run("+[>+<-]>.", map[1 := 6, 6 := 1], Start([]), 9) == Halted(Machine(9, TapeState([0, 1], 1), [], [1]))
  {
    var j := map[1 := 6, 6 := 1];
    var p := "+[>+<-]>.";
    var m1 := Step(p, j, Start([])).value;
    assert m1 == Machine(1, TapeState([1], 0), [], []);
    var m2 := Step(p, j, m1).value;
    assert m2 == Machine(2, TapeState([1], 0), [], []);
    var m3 := Step(p, j, m2).value;
    assert m3 == Machine(3, TapeState([1, 0], 1), [], []);
    var m4 := Step(p, j, m3).value;
    assert m4 == Machine(4, TapeState([1, 1], 1), [], []);
    CopyLoopFinishes();
    assert Run(p, j, m2, 7) == Run(p, j, m4, 5);
  }

  /** The second half of the copy loop: from the second `+` to the end. */
  lemma CopyLoopFinishes()
    ensures Run("+[>+<-]>.", map[1 := 6, 6 := 1], Machine(4, TapeState([1, 1], 1), [], []), 5) ==
            Halted(Machine(9, TapeState([0, 1], 1), [], [1]))
  {
    var j := map[1 := 6, 6 := 1];
    var p := "+[>+<-]>.";
    var m4 := Machine(4, TapeState([1, 1], 1), [], []);
    var m5 := Step(p, j, m4).value;
    assert m5 == Machine(5, TapeState([1, 1], 0), [], []);
    var m6 := Step(p, j, m5).value;
    assert m6 == Machine(6, TapeState([0, 1], 0), [], []);
    var m7 := Step(p, j, m6).value;
    assert m7 == Machine(7, TapeState([0, 1], 0), [], []);
    var m8 := Step(p, j, m7).value;
    assert m8 == Machine(8, TapeState([0, 1], 1), [], []);
    var m9 := Step(p, j, m8).value;
    assert m9 == Machine(9, TapeState([0, 1], 1), [], [1]);
    assert Run(p, j, m8, 1) == Halted(m9);
    assert Run(p, j, m6, 3) == Halted(m9);
  }

  /** `+[>+<-]>.` prints 1: the classic copy-loop check. */
  lemma CopyLoop()
    ensures Interpret("+[>+<-]>.", [], 9) == Ok(Halted(Machine(9, TapeState([0, 1], 1), [], [1])))
  {
    CopyLoopParses();
    CopyLoopRuns();
  }

  /** `[-]` parses to itself with its brackets paired. */
  lemma ClearLoopParses()
    ensures ParseResult("[-]") == Ok(Program("[-]", map[0 := 2, 2 := 0]))
  {
    assert "" + ['['] == "[";
    ScanAllSnoc("", '[');
    assert [] + [0 as nat] == [0];
    assert ScanAll("[") == Ok(Scan("[", [0], map[]));
    assert "[" + ['-'] == "[-";
    ScanAllSnoc("[", '-');
    assert ScanAll("[-") == Ok(Scan("[-", [0], map[]));
    assert "[-" + [']'] == "[-]";
    ScanAllSnoc("[-", ']');
  }

  /** Inside `[-]` with the cell at `w >= 1`: `w` rounds of `-` and `]` empty
      the cell and leave the loop. */
  lemma {:induction false} ClearLoopBody(t: TapeState, w: int, input: seq<int>, output: seq<int>)
    requires InBounds(t) && w >= 1
    ensures Run("[-]", map[0 := 2, 2 := 0], Machine(1, Write(t, w), input, output), 2 * w) ==
            Halted(Machine(3, Write(t, 0), input, output))
    ensures Run("[-]", map[0 := 2, 2 := 0], Machine(1, Write(t, w), input, output), 2 * w - 1).Running?
    decreases w
  {
    var p, j := "[-]", map[0 := 2, 2 := 0];
    var m := Machine(1, Write(t, w), input, output);
    WriteTwice(t, w, w - 1);
    var m1 := Step(p, j, m).value;
    assert m1 == Machine(2, Write(t, w - 1), input, output);
    assert Run(p, j, m, 2 * w - 1) == Run(p, j, m1, 2 * w - 2);
    var m2 := Step(p, j, m1).value;
    assert Run(p, j, m, 2 * w) == Run(p, j, m2, 2 * w - 2);
    if w == 1 {
      assert m2 == Machine(3, Write(t, 0), input, output);
    } else {
      assert m2 == Machine(1, Write(t, w - 1), input, output);
      assert Run(p, j, m1, 2 * w - 2) == Run(p, j, m2, 2 * (w - 1) - 1);
      ClearLoopBody(t, w - 1, input, output);
    }
  }

  /** `[-]` on a cell holding `v >= 0` stops after exactly `2v + 1` turns with
      the cell at 0 (the body runs `v` times); on 0 it skips the body at once. */
  lemma ClearLoopTerminates(t: TapeState, input: seq<int>, output: seq<int>)
    requires InBounds(t) && Read(t) >= 0
    ensures Run("[-]", map[0 := 2, 2 := 0], Machine(0, t, input, output), 2 * Read(t) + 1) ==
            Halted(Machine(3, Write(t, 0), input, output))
    ensures Run("[-]", map[0 := 2, 2 := 0], Machine(0, t, input, output), 2 * Read(t)).Running?
  {
    var p, j := "[-]", map[0 := 2, 2 := 0];
    var v := Read(t);
    var m := Machine(0, t, input, output);
    assert Write(t, v) == t by {
      assert Write(t, v).cells == t.cells;
    }
    var m1 := Step(p, j, m).value;
    if v == 0 {
      assert m1 == Machine(3, t, input, output);
    } else {
      assert m1 == Machine(1, Write(t, v), input, output);
      assert Run(p, j, m, 2 * v) == Run(p, j, m1, 2 * v - 1);
      ClearLoopBody(t, v, input, output);
    }
  }

  /** Inside `[-]` with a negative cell the loop never ends: cells are
      unbounded integers, so decrementing never reaches 0. */
  lemma {:induction false} ClearLoopBodyDiverges(t: TapeState, w: int, input: seq<int>, output: seq<int>, fuel: nat)
    requires InBounds(t) && w < 0
    ensures Run("[-]", map[0 := 2, 2 := 0], Machine(1, Write(t, w), input, output), fuel).Running?
    decreases fuel
  {
    var p, j := "[-]", map[0 := 2, 2 := 0];
    var m := Machine(1, Write(t, w), input, output);
    WriteTwice(t, w, w - 1);
    var m1 := Step(p, j, m).value;
    assert m1 == Machine(2, Write(t, w - 1), input, output);
    if fuel >= 2 {
      var m2 := Step(p, j, m1).value;
      assert m2 == Machine(1, Write(t, w - 1), input, output);
      assert Run(p, j, m, fuel) == Run(p, j, m2, fuel - 2);
      ClearLoopBodyDiverges(t, w - 1, input, output, fuel - 2);
    }
  }

  /** `[-]` on a negative cell runs out of any amount of fuel. */
  lemma ClearLoopDiverges(t: TapeState, input: seq<int>, output: seq<int>, fuel: nat)
    requires InBounds(t) && Read(t) < 0
    ensures Run("[-]", map[0 := 2, 2 := 0], Machine(0, t, input, output), fuel).Running?
  {
    var p, j := "[-]", map[0 := 2, 2 := 0];
    var m := Machine(0, t, input, output);
    assert Write(t, Read(t)) == t by {
      assert Write(t, Read(t)).cells == t.cells;
    }
    if fuel > 0 {
      var m1 := Step(p, j, m).value;
      assert m1 == Machine(1, Write(t, Read(t)), input, output);
      ClearLoopBodyDiverges(t, Read(t), input, output, fuel - 1);
    }
  }

  /** An unclosed `[` is accepted by the parser; when its jump is not taken
      the program simply runs on (`+[` halts normally). */
  lemma UnclosedOpenerRuns()
    ensures Interpret("+[", [], 2) == Ok(Halted(Machine(2, TapeState([1], 0), [], [])))
  {
    NoCloserParsesToItself("+[");
    var m1 := Step("+[", map[], Start([])).value;
    assert m1 == Machine(1, TapeState([1], 0), [], []);
    var m2 := Step("+[", map[], m1).value;
    assert m2 == Machine(2, TapeState([1], 0), [], []);
  }

  /** When the jump of an unclosed `[` is taken there is no target: the run
      stops with MissingTarget at that `[`. */
  lemma UnclosedOpenerMissesTarget()
    ensures Interpret("[", [], 1) == Ok(Crashed(MissingTarget(0), Start([])))
  {
    NoCloserParsesToItself("[");
    assert Step("[", map[], Start([])) == Err(MissingTarget(0));
    assert Run("[", map[], Start([]), 1) == Crashed(MissingTarget(0), Start([]));
  }

  /** In `[[]` the `]` closes the latest `[`, at 1; the first `[` stays
      unmapped, and its taken jump stops the run at pc 0. */
  lemma InnerPairOfUnclosed()
    ensures Interpret("[[]", [], 1) == Ok(Crashed(MissingTarget(0), Start([])))
  {
    NoCloserScans("[[");
    assert ScanAll("[[").value.stack == [0, 1] by {
      assert "[" + ['['] == "[[";
      ScanAllSnoc("[", '[');
      NoCloserScans("[");
      assert "" + ['['] == "[";
      ScanAllSnoc("", '[');
    }
    assert "[[" + [']'] == "[[]";
    ScanAllSnoc("[[", ']');
    assert ParseResult("[[]") == Ok(Program("[[]", map[1 := 2, 2 := 1]));
    assert Step("[[]", map[1 := 2, 2 := 1], Start([])) == Err(MissingTarget(0));
  }

  /** A `]` with nothing to close is a parse error at its own position. */
  lemma UnmatchedCloserRejected()
    ensures Interpret("[]]", [], 0) == Err(UnmatchedClose(2))
  {
    assert "" + ['['] == "[";
    ScanAllSnoc("", '[');
    assert [] + [0 as nat] == [0];
    assert ScanAll("[") == Ok(Scan("[", [0], map[]));
    assert "[" + [']'] == "[]";
    ScanAllSnoc("[", ']');
    assert ScanAll("[]") == Ok(Scan("[]", [], map[0 := 1, 1 := 0]));
    assert "[]" + [']'] == "[]]";
    ScanAllSnoc("[]", ']');
  }

  /** `,` with the input exhausted stops the run at that instruction. */
  lemma ReadPastEndOfInput()
    ensures Interpret(",", [], 1) == Ok(Crashed(InputExhausted(0), Start([])))
  {
    NoCloserParsesToItself(",");
    assert Step(",", map[], Start([])) == Err(InputExhausted(0));
    assert Run(",", map[], Start([]), 1) == Crashed(InputExhausted(0), Start([]));
  }

  /** `>+<<.` moves the cursor to -1 and then prints. Python's negative
      indexing would make `get` return the last cell, 1, which no instruction
      wrote to the left of the first cell; the model stops with OutOfBounds. */
  lemma ReadLeftOfOrigin()
    ensures Run(">+<<.", map[], Start([]), 4) == Running(Machine(4, TapeState([0, 1], -1), [], []))
    ensures PythonRead(TapeState([0, 1], -1)) == Some(1)
    ensures Run(">+<<.", map[], Start([]), 5) == Crashed(OutOfBounds(4), Machine(4, TapeState([0, 1], -1), [], []))
  {
    var p := ">+<<.";
    var m1 := Step(p, map[], Start([])).value;
    assert m1 == Machine(1, TapeState([0, 0], 1), [], []);
    var m2 := Step(p, map[], m1).value;
    assert m2 == Machine(2, TapeState([0, 1], 1), [], []);
    var m3 := Step(p, map[], m2).value;
    assert m3 == Machine(3, TapeState([0, 1], 0), [], []);
    var m4 := Step(p, map[], m3).value;
    assert m4 == Machine(4, TapeState([0, 1], -1), [], []);
  }
}
