/** The execution loop: a state machine over the program counter, the tape and
    the two I/O streams. `Step` is one turn of the loop, `Run` at most `fuel`
    turns of it, and `MainLoop` the loop itself, driving a `Tape` object. */
module EvalLoop {
  import opened Wrappers
  import opened Tapes
  import opened Parser

  /** Everything one turn of the loop reads and writes: the program counter,
      the tape, the input still unread and the output written so far. */
  datatype Machine = Machine(pc: nat, tape: TapeState, input: seq<int>, output: seq<int>)

  /** Why a run stops before the end of the program, with the pc of the
      instruction that stopped it: the cursor is left of the first cell, a taken
      jump has no jump-table entry, or `,` finds the input exhausted. */
  datatype Fault = OutOfBounds(pc: nat) | MissingTarget(pc: nat) | InputExhausted(pc: nat)

  /** How a bounded run ends: past the last instruction, out of fuel, or
      stopped by a fault (with the machine as it was at the faulting instruction). */
  datatype Outcome = Halted(final: Machine) | Running(final: Machine) | Crashed(fault: Fault, final: Machine)

  /** The state before the first instruction: pc 0, a fresh tape, no output. */
  function Start(input: seq<int>): (m: Machine)
    ensures m.pc == 0 && InBounds(m.tape) && |m.tape.cells| == 1 && Read(m.tape) == 0
    ensures m.input == input && m.output == []
  {
    Machine(0, Blank(), input, [])
  }

  predicate IsBracket(code: char)
  {
    code == '[' || code == ']'
  }

  /** The instructions that read or write the cell under the cursor. */
  predicate NeedsCell(code: char)
  {
    code == '+' || code == '-' || code == '.' || code == ',' || IsBracket(code)
  }

  /** A bracket jumps when `[` sees 0 or `]` sees anything else. */
  predicate Taken(code: char, v: int)
  {
    (code == '[' && v == 0) || (code == ']' && v != 0)
  }

  /** The instructions that change the tape. */
  predicate ChangesTape(code: char)
  {
    code == '>' || code == '<' || code == '+' || code == '-' || code == ','
  }

  /** The input is `before` with some items taken from its front. */
  predicate Consumed(after: seq<int>, before: seq<int>)
  {
    |after| <= |before| && after == before[|before| - |after|..]
  }

  /** One turn of the loop at an instruction of the program. A taken jump sets
      pc to the partner's position and then, like every other instruction,
      adds one. */
  function Step(program: string, jumps: map<nat, nat>, m: Machine): (r: Result<Machine, Fault>)
    requires m.pc < |program| && WellFormed(m.tape)
    ensures r.Ok? ==> WellFormed(r.value.tape)
    ensures r.Err? ==> r.error.pc == m.pc
  {
    var code := program[m.pc];
    if code == '>' then Ok(m.(pc := m.pc + 1, tape := MoveRight(m.tape)))
    else if code == '<' then Ok(m.(pc := m.pc + 1, tape := MoveLeft(m.tape)))
    else if code == ',' && m.input == [] then Err(InputExhausted(m.pc))
    else if NeedsCell(code) && !InBounds(m.tape) then Err(OutOfBounds(m.pc))
    else if code == '+' then Ok(m.(pc := m.pc + 1, tape := Increment(m.tape)))
    else if code == '-' then Ok(m.(pc := m.pc + 1, tape := Decrement(m.tape)))
    else if code == '.' then Ok(m.(pc := m.pc + 1, output := m.output + [Read(m.tape)]))
    else if code == ',' then Ok(m.(pc := m.pc + 1, tape := Write(m.tape, m.input[0]), input := m.input[1..]))
    else if IsBracket(code) && Taken(code, Read(m.tape)) then
      if m.pc in jumps then Ok(m.(pc := jumps[m.pc] + 1)) else Err(MissingTarget(m.pc))
    else Ok(m.(pc := m.pc + 1))
  }

  /** The program counter: one forward, except a taken jump, which lands one
      past its partner; brackets touch neither the tape nor the streams. */
  lemma StepPc(program: string, jumps: map<nat, nat>, m: Machine)
    requires m.pc < |program| && WellFormed(m.tape)
    requires Step(program, jumps, m).Ok?
    ensures !IsBracket(program[m.pc]) ==> Step(program, jumps, m).value.pc == m.pc + 1
    ensures IsBracket(program[m.pc]) ==>
      var n := Step(program, jumps, m).value;
      && InBounds(m.tape) && n.tape == m.tape && n.input == m.input && n.output == m.output
      && (Taken(program[m.pc], Read(m.tape)) ==> m.pc in jumps && n.pc == jumps[m.pc] + 1)
      && (!Taken(program[m.pc], Read(m.tape)) ==> n.pc == m.pc + 1)
  {
  }

  /** The tape changes only by the operation the symbol names. */
  lemma StepTape(program: string, jumps: map<nat, nat>, m: Machine)
    requires m.pc < |program| && WellFormed(m.tape)
    requires Step(program, jumps, m).Ok?
    ensures var t := Step(program, jumps, m).value.tape;
      && (program[m.pc] == '>' ==> t == MoveRight(m.tape))
      && (program[m.pc] == '<' ==> t == MoveLeft(m.tape))
      && (program[m.pc] == '+' ==> InBounds(m.tape) && t == Increment(m.tape))
      && (program[m.pc] == '-' ==> InBounds(m.tape) && t == Decrement(m.tape))
      && (program[m.pc] == ',' ==> InBounds(m.tape) && m.input != [] && t == Write(m.tape, m.input[0]))
      && (!ChangesTape(program[m.pc]) ==> t == m.tape)
  {
  }

  /** `.` appends the cell under the cursor to the output, `,` consumes one
      input item; every other instruction leaves both streams alone. */
  lemma StepStreams(program: string, jumps: map<nat, nat>, m: Machine)
    requires m.pc < |program| && WellFormed(m.tape)
    requires Step(program, jumps, m).Ok?
    ensures var n := Step(program, jumps, m).value;
      && (program[m.pc] == '.' ==> InBounds(m.tape) && n.output == m.output + [Read(m.tape)] && n.tape == m.tape)
      && (program[m.pc] != '.' ==> n.output == m.output)
      && (program[m.pc] == ',' ==> m.input != [] && n.input == m.input[1..])
      && (program[m.pc] != ',' ==> n.input == m.input)
  {
  }

  /** Each fault happens exactly when its condition holds; in particular no
      instruction ever reads or writes left of the first cell. */
  lemma StepFaults(program: string, jumps: map<nat, nat>, m: Machine)
    requires m.pc < |program| && WellFormed(m.tape)
    ensures Step(program, jumps, m) == Err(InputExhausted(m.pc)) <==>
      program[m.pc] == ',' && m.input == []
    ensures Step(program, jumps, m) == Err(OutOfBounds(m.pc)) <==>
      NeedsCell(program[m.pc]) && !InBounds(m.tape) && !(program[m.pc] == ',' && m.input == [])
    ensures Step(program, jumps, m) == Err(MissingTarget(m.pc)) <==>
      IsBracket(program[m.pc]) && InBounds(m.tape) && Taken(program[m.pc], Read(m.tape)) && m.pc !in jumps
  {
  }

  /** At most `fuel` turns of the loop. The loop stops exactly when pc is past
      the last instruction, and the tape stays well formed throughout. */
  function Run(program: string, jumps: map<nat, nat>, m: Machine, fuel: nat): (r: Outcome)
    requires WellFormed(m.tape)
    ensures WellFormed(r.final.tape)
    ensures r.Halted? <==> r.final.pc >= |program|
    ensures m.pc >= |program| ==> r == Halted(m)
    decreases fuel
  {
    if m.pc >= |program| then Halted(m)
    else if fuel == 0 then Running(m)
    else
      match Step(program, jumps, m)
      case Err(f) => Crashed(f, m)
      case Ok(next) => Run(program, jumps, next, fuel - 1)
  }

  /** `after` is reachable from `before` as far as the streams go: the output
      has only grown and the input has only been consumed from the front. */
  predicate Follows(after: Machine, before: Machine)
  {
    before.output <= after.output && Consumed(after.input, before.input)
  }

  lemma FollowsTransitive(c: Machine, b: Machine, a: Machine)
    requires Follows(c, b) && Follows(b, a)
    ensures Follows(c, a)
  {
    assert a.input[|a.input| - |b.input|..][|b.input| - |c.input|..] == a.input[|a.input| - |c.input|..];
  }

  lemma StepFollows(program: string, jumps: map<nat, nat>, m: Machine)
    requires m.pc < |program| && WellFormed(m.tape)
    requires Step(program, jumps, m).Ok?
    ensures Follows(Step(program, jumps, m).value, m)
  {
    StepStreams(program, jumps, m);
  }

  /** Over a whole run the output only grows and the input is only consumed
      from the front. */
  lemma {:induction false} RunStreams(program: string, jumps: map<nat, nat>, m: Machine, fuel: nat)
    requires WellFormed(m.tape)
    ensures Follows(Run(program, jumps, m, fuel).final, m)
    decreases fuel
  {
    if m.pc < |program| && fuel > 0 {
      var r := Step(program, jumps, m);
      if r.Ok? {
        StepFollows(program, jumps, m);
        RunStreams(program, jumps, r.value, fuel - 1);
        FollowsTransitive(Run(program, jumps, r.value, fuel - 1).final, r.value, m);
      }
    }
  }

  /** Continue a run that ran out of fuel; a finished run stays as it is. */
  function Resume(program: string, jumps: map<nat, nat>, r: Outcome, fuel: nat): Outcome
    requires WellFormed(r.final.tape)
  {
    if r.Running? then Run(program, jumps, r.final, fuel) else r
  }

  /** Running for `a + b` turns is running for `a` and then for `b` more. */
  lemma {:induction false} RunSplit(program: string, jumps: map<nat, nat>, m: Machine, a: nat, b: nat)
    requires WellFormed(m.tape)
    ensures Run(program, jumps, m, a + b) == Resume(program, jumps, Run(program, jumps, m, a), b)
    decreases a
  {
    if m.pc >= |program| {
      assert Run(program, jumps, m, a) == Halted(m);
    } else if a == 0 {
      assert Run(program, jumps, m, a) == Running(m);
    } else {
      var r := Step(program, jumps, m);
      if r.Ok? {
        RunSplit(program, jumps, r.value, a - 1, b);
        assert Run(program, jumps, m, a + b) == Run(program, jumps, r.value, a - 1 + b);
        assert Run(program, jumps, m, a) == Run(program, jumps, r.value, a - 1);
      } else {
        assert Run(program, jumps, m, a) == Crashed(r.error, m);
      }
    }
  }

  /** A run that halted or crashed gives the same outcome with any more fuel. */
  lemma RunMonotone(program: string, jumps: map<nat, nat>, m: Machine, a: nat, b: nat)
    requires WellFormed(m.tape) && a <= b
    requires !Run(program, jumps, m, a).Running?
    ensures Run(program, jumps, m, b) == Run(program, jumps, m, a)
  {
    RunSplit(program, jumps, m, a, b - a);
  }

  /** Parse the text and run the program on the input for at most `fuel` turns. */
  function Interpret(source: string, input: seq<int>, fuel: nat): (r: Result<Outcome, ParseError>)
    ensures r.Err? <==> ParseResult(source).Err?
    ensures r.Err? ==> r.error == ParseResult(source).error
    ensures r.Ok? ==> (r.value.Halted? <==> r.value.final.pc >= |Filter(source)|)
  {
    match ParseResult(source)
    case Err(e) => Err(e)
    case Ok(p) =>
      ParseKeepsSymbols(source);
      Ok(Run(p.code, p.jumps, Start(input), fuel))
  }

  /** A taken jump in a parsed program lands one past the matching bracket:
      past the `]` that closes a `[`, past the `[` that opens a `]`. */
  lemma TakenJumpLandsPastPartner(source: string, m: Machine)
    requires ParseResult(source).Ok?
    requires m.pc < |ParseResult(source).value.code| && WellFormed(m.tape)
    requires var p := ParseResult(source).value; Step(p.code, p.jumps, m).Ok?
    requires var p := ParseResult(source).value;
      IsBracket(p.code[m.pc]) && InBounds(m.tape) && Taken(p.code[m.pc], Read(m.tape))
    ensures var p := ParseResult(source).value; var n := Step(p.code, p.jumps, m).value.pc;
      && 0 < n <= |p.code| && n - 1 in p.jumps && p.jumps[n - 1] == m.pc
      && (p.code[m.pc] == '[' ==> m.pc < n - 1 && p.code[n - 1] == ']')
      && (p.code[m.pc] == ']' ==> n - 1 < m.pc && p.code[n - 1] == '[')
  {
    var p := ParseResult(source).value;
    JumpTableInvolution(source);
    StepPc(p.code, p.jumps, m);
    assert m.pc in p.jumps && Step(p.code, p.jumps, m).value.pc == p.jumps[m.pc] + 1;
  }

  /** A balanced program never meets a jump without a target. */
  lemma {:induction false} BalancedNeverMissesTarget(source: string, m: Machine, fuel: nat)
    requires ParseResult(source).Ok? && Depth(source) == 0 && WellFormed(m.tape)
    ensures var p := ParseResult(source).value; var r := Run(p.code, p.jumps, m, fuel);
      !(r.Crashed? && r.fault.MissingTarget?)
    decreases fuel
  {
    var p := ParseResult(source).value;
    BalancedJumpTable(source);
    if m.pc < |p.code| && fuel > 0 {
      match Step(p.code, p.jumps, m)
      case Err(f) =>
        assert !f.MissingTarget?;
      case Ok(next) =>
        BalancedNeverMissesTarget(source, next, fuel - 1);
    }
  }

  /** The body of the execution loop: dispatch on the instruction at pc,
      updating the tape object in place. Returns the new pc, input and output,
      or the fault that stops the run (before the tape is touched). */
  method Dispatch(program: string, jumps: map<nat, nat>, tape: Tape, pc: nat, rest: seq<int>, output: seq<int>)
    returns (r: Result<(nat, seq<int>, seq<int>), Fault>)
    requires pc < |program| && WellFormed(tape.State())
    modifies tape
    ensures var next := Step(program, jumps, Machine(pc, old(tape.State()), rest, output));
      match r
      case Err(f) => next == Err(f)
      case Ok(t) => next == Ok(Machine(t.0, tape.State(), t.1, t.2))
    ensures r.Err? ==> tape.State() == old(tape.State())
  {
    var code := program[pc];
    if code == '>' {
      tape.Advance();
    } else if code == '<' {
      tape.Devance();
    } else if code == ',' && rest == [] {
      return Err(InputExhausted(pc));
    } else if NeedsCell(code) && tape.position < 0 {
      return Err(OutOfBounds(pc));
    } else if code == '+' {
      tape.Inc();
    } else if code == '-' {
      tape.Dec();
    } else if code == '.' {
      var v := tape.Get();
      return Ok((pc + 1, rest, output + [v]));
    } else if code == ',' {
      tape.Set(rest[0]);
      return Ok((pc + 1, rest[1..], output));
    } else if IsBracket(code) {
      var v := tape.Get();
      if Taken(code, v) {
        if pc !in jumps {
          return Err(MissingTarget(pc));
        }
        return Ok((jumps[pc] + 1, rest, output));
      }
    }
    return Ok((pc + 1, rest, output));
  }

  /** The execution loop: pc and the I/O streams are local variables, the tape
      an object updated in place; one iteration per turn, at most `fuel` of them. */
  method MainLoop(program: string, jumps: map<nat, nat>, input: seq<int>, fuel: nat) returns (outcome: Outcome)
    ensures outcome == Run(program, jumps, Start(input), fuel)
  {
    var tape := new Tape();
    var pc: nat := 0;
    var rest := input;
    var output: seq<int> := [];
    var steps: nat := 0;
    while pc < |program|
      invariant steps <= fuel
      invariant WellFormed(tape.State())
      invariant Run(program, jumps, Start(input), fuel) ==
                Run(program, jumps, Machine(pc, tape.State(), rest, output), fuel - steps)
      decreases fuel - steps
    {
      var before := Machine(pc, tape.State(), rest, output);
      if steps == fuel {
        return Running(before);
      }
      var r := Dispatch(program, jumps, tape, pc, rest, output);
      if r.Err? {
        return Crashed(r.error, before);
      }
      pc, rest, output := r.value.0, r.value.1, r.value.2;
      steps := steps + 1;
    }
    return Halted(Machine(pc, tape.State(), rest, output));
  }
}
