# A verified model of a small Brainfuck interpreter

The interpreter has two parts. `tape.py` holds the memory: a list of integer
cells that starts as one zero cell and grows to the right when the cursor runs
past its end. `evalloop.py` holds the two passes. `parse` keeps the eight
instruction symbols of the program text and builds a jump table that pairs
each `[` with its `]`, both ways. `mainloop` runs the program one instruction
at a time against a tape.

The model has four modules:

- `Tapes` (tape.dfy) describes the tape as a value, `TapeState`, with one
  function per operation. The class `Tapes.Tape` then performs those
  operations in place on its `cells` and `position` fields. Each of its
  methods is proved to leave `State()` equal to the matching function applied
  to the old state.
- `Parser` (parser.dfy) specifies the parse pass as a fold `ScanAll` over the
  text, one character at a time. The loop invariant of the pass is
  `Consistent`. The method `Parser.Parse` is the pass as the source writes it:
  a loop over the characters, with the kept symbols, the stack of open `[`
  positions and the jump table as loop variables.
- `EvalLoop` (evalloop.dfy) gives one turn of the execution loop as `Step`, and
  at most `fuel` turns as `Run`. The method `EvalLoop.MainLoop` is the loop
  itself, driving a `Tape` object. It is proved to return exactly what `Run`
  returns.
- `Examples` (examples.dfy) works through whole runs of small programs: an
  echo, a copy loop, a clear loop that terminates or runs forever depending
  on the sign of its cell, and every error case.

The input and output streams are sequences of integers. Reading pops the front
of the input; writing appends to the output. Each way the original stops with
an exception becomes a value:

- `ParseError.UnmatchedClose` is a `]` with nothing open, where `pop()` fails.
- `Fault.MissingTarget` is a taken jump with no table entry, where the
  dictionary lookup fails.
- `Fault.InputExhausted` is `,` at the end of the input, where `ord` of the
  empty string fails.
- `Fault.OutOfBounds` is a read or write left of the first cell (see
  Findings).

## Model

| member | source | states |
|---|---|---|
| `Tapes.Blank` | tape.py:7-8 | A new tape has exactly one cell, it holds 0, and the cursor is on it. |
| `Tapes.Read` | tape.py:10-11 | The value under the cursor is one of the tape's cells. Which cell it is follows from `Write` reading back and from `PythonRead` agreeing with it in bounds. |
| `Tapes.Write` | tape.py:13-14 | After a write the cell under the cursor reads back the value written. The cursor and the number of cells do not change. |
| `Tapes.WriteKeepsOthers` | tape.py:13-14 | A write leaves every other cell as it was. |
| `Tapes.WriteTwice` | tape.py:13-14 | Writing twice to the same cell is the same as writing only the second value. |
| `Tapes.Increment` | tape.py:16-17 | Incrementing is writing the current cell's value plus one. |
| `Tapes.Decrement` | tape.py:19-20 | Decrementing is writing the current cell's value minus one. |
| `Tapes.IncrementDecrementCancel` | tape.py:16-20 | An increment followed by a decrement, or the reverse, restores the tape exactly. |
| `Tapes.MoveRight` | tape.py:22-25 | The cursor moves up by one. The tape grows by at most one cell, and on a well-formed tape it grows exactly when the cursor was on the last cell. While the new cursor is inside the tape the cells do not change. The tape stays well formed. From a cursor at -1 or more, the new cursor addresses a cell. |
| `Tapes.MoveRightKeepsCells` | tape.py:24-25 | Moving right keeps every existing cell, and the only cell it may add holds 0. |
| `Tapes.MoveLeft` | tape.py:27-28 | The cursor moves down by one and the cells do not change. From cell 0 the cursor leaves the tape. |
| `Tapes.MoveRightThenLeft` | tape.py:22-28 | Moving right then left returns the cursor to where it was, keeps the old cells, and reads the same value. |
| `Tapes.PythonRead` | tape.py:10-11 | Models `get` as written. It agrees with `Read` in bounds. It returns a value exactly when the cursor lies between minus the tape length and the last cell. |
| `Tapes.Tape.constructor` | tape.py:2-8 | The new object's state is the blank tape. |
| `Tapes.Tape.Get` | tape.py:10-11 | Returns the value under the cursor. |
| `Tapes.Tape.Set` | tape.py:13-14 | The new state is `Write` of the old state. |
| `Tapes.Tape.Inc` | tape.py:16-17 | The new state is `Increment` of the old state. |
| `Tapes.Tape.Dec` | tape.py:19-20 | The new state is `Decrement` of the old state. |
| `Tapes.Tape.Advance` | tape.py:22-25 | The new state is `MoveRight` of the old state. |
| `Tapes.Tape.Devance` | tape.py:27-28 | The new state is `MoveLeft` of the old state. |
| `Parser.Filter` | evalloop.py:42-44 | The kept text is no longer than the original and holds only the eight symbols. |
| `Parser.FilterAppend` | evalloop.py:42-44 | Filtering a concatenation is concatenating the filtered parts. |
| `Parser.FilterOfSymbols` | evalloop.py:43-44 | A text made only of symbols is kept whole. |
| `Parser.FilterIdempotent` | evalloop.py:42-44 | Filtering twice is the same as filtering once. |
| `Parser.Feed` | evalloop.py:43-53 | One turn of the parse loop. A character that is not a symbol changes nothing. The turn fails exactly on a `]` with no `[` open, and the error names the position that `]` would take. Otherwise at most one symbol is kept, and the stack grows by one for `[` and shrinks by one for `]`. |
| `Parser.FeedOpenKeepsConsistent` | evalloop.py:46-47 | Feeding a `[` succeeds: the `[` is appended, its position is pushed, and the jump table is unchanged. The invariant of the pass still holds. |
| `Parser.FeedCloseKeepsConsistent` | evalloop.py:48-52 | With a `[` open, feeding a `]` succeeds. The `]` is appended, the latest open `[` is popped, and the table records the pair both ways. The invariant still holds. |
| `Parser.FeedKeepsConsistent` | evalloop.py:42-53 | Any character keeps the invariant. Only symbols are appended, and the stack grows by one for `[` and shrinks by one for `]`. |
| `Parser.ScanAll` | evalloop.py:42-53 | The whole pass as a fold over the text. It keeps at most as many symbols as the text has characters, and an error names a position inside the text. |
| `Parser.ParseResult` | evalloop.py:36-55 | What `parse` returns: the program is no longer than the text, and an error position lies inside the text. |
| `Parser.ScanAllFacts` | evalloop.py:36-55 | The pass succeeds exactly when no prefix closes more brackets than it opened. On success the invariant holds, the kept text is the filtered source, and the stack holds one entry per unclosed `[`. |
| `Parser.ScanAllErrSticky` | evalloop.py:48-49 | Once a prefix has failed, the whole text fails with the same error. |
| `Parser.ScanAllIgnoresNonSymbols` | evalloop.py:42-43 | The pass gives the same result on the filtered text as on the original. |
| `Parser.ScanAllErrorPosition` | evalloop.py:48-53 | The error names the offending `]` of the kept symbols. The symbols before it never close more brackets than they opened, and with it they do. |
| `Parser.NoCloserParsesToItself` | evalloop.py:43-47 | A text of symbols with no `]` parses to itself with an empty jump table. |
| `Parser.ParseKeepsSymbols` | evalloop.py:42-55 | A successful parse returns exactly the symbols of the source, in order. |
| `Parser.ParseFailsIff` | evalloop.py:48-49 | Parsing fails exactly when some prefix has more `]` than `[`. The error names the first `]` at which the kept symbols close more brackets than they opened. |
| `Parser.JumpTableInvolution` | evalloop.py:46-52 | The table pairs positions of the program both ways: each `[` with a later `]` and each `]` with an earlier `[`. Pairs nest, and every `]` is paired. |
| `Parser.BalancedJumpTable` | evalloop.py:46-52 | On balanced text, the keys of the table are exactly the bracket positions. |
| `Parser.NoPairEnclosesUnmappedOpener` | evalloop.py:46-52 | On every successful parse, every pair that opens before an unmapped `[` also closes before it. With the pairing and nesting above, this fixes the table to last-in-first-out matching. |
| `Parser.UnclosedOpenerUnmapped` | evalloop.py:46-47 | Text that never underflows but leaves a `[` open still parses. Some `[` of the program has no table entry, and no pair encloses such a `[`. |
| `Parser.ParseIgnoresNonSymbols` | evalloop.py:42-44 | Dropping the non-symbols first does not change what parsing returns. |
| `Parser.ReparseIsIdentity` | evalloop.py:55 | Parsing the returned program again gives back the same program and table. |
| `Parser.Parse` | evalloop.py:36-55 | The loop returns exactly what the fold `ParseResult` specifies, including the error of the first unmatched `]`. |
| `EvalLoop.Start` | evalloop.py:5-6 | The loop starts at pc 0 on a fresh tape: one cell holding 0 with the cursor on it. All the input is unread and nothing is written. |
| `EvalLoop.Step` | evalloop.py:8-34 | A successful turn leaves the tape well formed. A fault names the pc of the instruction that caused it. |
| `EvalLoop.StepPc` | evalloop.py:28-34 | Every instruction but a bracket advances pc by one. A bracket touches neither the tape nor the streams. A taken jump lands one past its table entry, and an untaken one advances by one. |
| `EvalLoop.StepTape` | evalloop.py:10-26 | Each instruction changes the tape only by the operation it names. `.`, brackets and non-tape instructions leave it unchanged. |
| `EvalLoop.StepStreams` | evalloop.py:22-26 | `.` appends the current cell to the output and `,` consumes one input item. No other instruction touches either stream. |
| `EvalLoop.StepFaults` | evalloop.py:25-32 | Each fault happens exactly when its condition holds, in both directions. No cell left of the first is ever read or written. |
| `EvalLoop.Run` | evalloop.py:7-34 | A run stops exactly when pc is past the last instruction, and the tape stays well formed. A run that starts past the end halts at once. |
| `EvalLoop.RunStreams` | evalloop.py:22-26 | Over a whole run the output only grows, and the input is only consumed from its front. |
| `EvalLoop.RunSplit` | evalloop.py:7-34 | Running for `a + b` turns is running for `a` turns and then resuming for `b` more. |
| `EvalLoop.RunMonotone` | evalloop.py:7 | A run that halted or crashed gives the same outcome with any larger fuel. |
| `EvalLoop.Interpret` | evalloop.py:57-59 | Parse, then run from the start state. Fails exactly when parsing fails, with the parser's error. Otherwise the run halts exactly when pc passes the last of the source's kept symbols. |
| `EvalLoop.TakenJumpLandsPastPartner` | evalloop.py:28-34 | In a parsed program a taken `[` lands just past its matching later `]`, and a taken `]` just past its earlier `[`. |
| `EvalLoop.BalancedNeverMissesTarget` | evalloop.py:28-32 | A run of a balanced program never stops with a missing jump target. |
| `EvalLoop.Dispatch` | evalloop.py:8-34 | The body of the loop, updating the tape object in place, agrees with `Step`. On a fault the tape is unchanged. |
| `EvalLoop.MainLoop` | evalloop.py:4-34 | The loop with a fresh tape object returns exactly `Run` from the start state. |
| `Examples.IncrementThriceThenPrint` | evalloop.py:16-23 | `+++.` on empty input halts with a single cell 3 and outputs `[3]`. |
| `Examples.EchoOneItem` | evalloop.py:22-26 | `,.` on input `[65]` outputs `[65]` and consumes the input. |
| `Examples.CopyLoop` | evalloop.py:28-34 | `+[>+<-]>.` on empty input halts after 9 turns with pc 9, cells `[0, 1]`, the cursor on cell 1 and output `[1]`. |
| `Examples.ClearLoopParses` | evalloop.py:46-52 | `[-]` parses to itself with positions 0 and 2 paired. |
| `Examples.ClearLoopTerminates` | evalloop.py:28-34 | `[-]` on a cell holding `v >= 0` halts after exactly `2v + 1` turns, so the body runs `v` times. The cell ends at 0 and nothing else changes. After `2v` turns the run is still going. |
| `Examples.ClearLoopDiverges` | evalloop.py:28-34 | `[-]` on a negative cell is still running after any number of turns. |
| `Examples.UnclosedOpenerRuns` | evalloop.py:46-47 | `+[` parses, and its untaken unclosed `[` lets the program halt normally. |
| `Examples.UnclosedOpenerMissesTarget` | evalloop.py:28-29 | `[` parses, and its taken jump stops the run with a missing target at pc 0. |
| `Examples.InnerPairOfUnclosed` | evalloop.py:46-52 | In `[[]` the `]` pairs with the latest `[`, at 1. The first `[` stays unmapped, and its taken jump stops the run with a missing target at pc 0. |
| `Examples.UnmatchedCloserRejected` | evalloop.py:48-49 | `[]]` is a parse error at position 2. |
| `Examples.ReadPastEndOfInput` | evalloop.py:25-26 | `,` on empty input stops with InputExhausted at pc 0. |
| `Examples.ReadLeftOfOrigin` | tape.py:27-28 | After `>+<<` the cursor is at -1. `get` as written would return 1, the last cell. The model stops the following `.` with OutOfBounds. |

## Left out

- The `__main__` block (evalloop.py:61-63) and the file reading in `run`
  are left out. `EvalLoop.Interpret` takes the text and the input directly.
- `chr` on output and `ord` on input, and the real stdin and stdout, are not
  modelled. Both streams are sequences of integers. A `chr` of a value
  outside the character range, which fails in Python, is not modelled.
- `EvalLoop.Run` and `EvalLoop.MainLoop` take a `fuel` bound on the number of
  turns. The original loop has no bound and can run forever.
  `Outcome.Running` is the state when the fuel runs out.
  `Examples.ClearLoopDiverges` shows a program that never halts.
- The commented-out code at tape.py:29-34, which would grow the tape to the
  left, is not modelled, because it is not executed.
- An unclosed `[` is accepted by the parser, as the code does. It fails only
  if its jump is taken (`Examples.UnclosedOpenerMissesTarget`). Rejecting
  every unbalanced text at parse time, as many Brainfuck implementations do,
  is not modelled.
- `,` at the end of the input is the fault `InputExhausted`, because the code
  then fails in `ord`. Storing 0 or leaving the cell unchanged, which other
  Brainfuck dialects do, is not modelled.
- `EvalLoop.Step`: when `,` meets a cursor left of the first cell while input
  remains, Python reads one item before the write to the negative index. The
  model stops first, so the crashed state still holds that item.
- Cells and the cursor are unbounded integers, as in Python. There is no
  8-bit wrap-around, because the original has none.
- The Python list's aliasing and amortised growth are not modelled. The tape
  object's list is a sequence field that the methods reassign.

## Findings

| source | as written | input that shows it | evidently intended | confidence | as-written member | corrected member |
|---|---|---|---|---|---|---|
| tape.py:10-11 | `devance` lets the cursor go below 0. `get`, `set`, `inc` and `dec` then index the list with a negative number, which Python reads from the end of the list. A read left of the first cell silently returns the last cell. | `>+<<.` prints 1, the value of cell 1, although no instruction wrote left of cell 0. | A cell left of the first is never aliased to the last cell; the commented-out lines at tape.py:29-34 show the authors meant to handle this case. The model stops with `OutOfBounds` instead. | medium, not executed | `Tapes.PythonRead`, `Examples.ReadLeftOfOrigin` | `EvalLoop.StepFaults` |
