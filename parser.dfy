/** The parser: one left-to-right pass over the source text that keeps the eight
    instruction symbols and pairs every `]` with the most recent unpaired `[`.
    `ScanAll` specifies the pass character by character; `Parse` is the loop. */
module Parser {
  import opened Wrappers

  /** The eight instruction symbols; every other character is a comment. */
  predicate IsSymbol(c: char)
  {
    c == '[' || c == ']' || c == '<' || c == '>' || c == '+' || c == '-' || c == ',' || c == '.'
  }

  /** The alphabet projection of a text: its instruction symbols, in order. */
  function Filter(s: string): (r: string)
    ensures |r| <= |s|
    ensures forall i :: 0 <= i < |r| ==> IsSymbol(r[i])
  {
    if s == [] then []
    else if IsSymbol(s[0]) then [s[0]] + Filter(s[1..])
    else Filter(s[1..])
  }

  /** How a character changes the count of open brackets. */
  function Delta(c: char): int
  {
    if c == '[' then 1 else if c == ']' then -1 else 0
  }

  /** The number of `[` minus the number of `]` in a text. */
  function Depth(s: string): int
  {
    if s == [] then 0 else Depth(s[..|s| - 1]) + Delta(s[|s| - 1])
  }

  /** No prefix of the text closes more brackets than it opened. */
  ghost predicate NeverUnderflows(s: string)
  {
    forall n :: 0 <= n <= |s| ==> Depth(s[..n]) >= 0
  }

  /** A parsed program: the kept symbols and the jump table. */
  datatype Program = Program(code: string, jumps: map<nat, nat>)

  /** The only failure the pass can meet: a `]` with no open `[` to pop,
      identified by its position in the kept symbols. */
  datatype ParseError = UnmatchedClose(pc: nat)

  /** The state of the pass: the symbols kept so far, the positions of the `[`
      still open (most recent last) and the jump table built so far. The next
      symbol's position is `|parsed|`. */
  datatype Scan = Scan(parsed: string, stack: seq<nat>, jumps: map<nat, nat>)

  /** One character of the pass. */
  function Feed(s: Scan, c: char): (r: Result<Scan, ParseError>)
    ensures !IsSymbol(c) ==> r == Ok(s)
    ensures r.Err? <==> c == ']' && s.stack == []
    ensures r.Err? ==> r.error.pc == |s.parsed|
    ensures r.Ok? ==> |r.value.parsed| <= |s.parsed| + 1 && |r.value.stack| == |s.stack| + Delta(c)
  {
    if !IsSymbol(c) then Ok(s)
    else
      var pc := |s.parsed|;
      var parsed := s.parsed + [c];
      if c == '[' then Ok(Scan(parsed, s.stack + [pc], s.jumps))
      else if c == ']' then
        if s.stack == [] then Err(UnmatchedClose(pc))
        else
          var left := s.stack[|s.stack| - 1];
          Ok(Scan(parsed, s.stack[..|s.stack| - 1], s.jumps[left := pc][pc := left]))
      else Ok(Scan(parsed, s.stack, s.jumps))
  }

  /** The pass over a whole text, from left to right; the first failure stops it. */
  function ScanAll(source: string): (r: Result<Scan, ParseError>)
    ensures r.Ok? ==> |r.value.parsed| <= |source|
    ensures r.Err? ==> r.error.pc < |source|
  {
    if source == [] then Ok(Scan([], [], map[]))
    else
      match ScanAll(source[..|source| - 1])
      case Err(e) => Err(e)
      case Ok(s) => Feed(s, source[|source| - 1])
  }

  /** What parsing a text yields: the kept symbols and the jump table. */
  function ParseResult(source: string): (r: Result<Program, ParseError>)
    ensures r.Ok? ==> |r.value.code| <= |source|
    ensures r.Err? ==> r.error.pc < |source|
  {
    match ScanAll(source)
    case Err(e) => Err(e)
    case Ok(s) => Ok(Program(s.parsed, s.jumps))
  }

  /** The jump table pairs bracket positions of `p` both ways: every key is a
      position of `p`, maps to a partner that maps back to it, and each `[`
      maps to a later `]`, each `]` to an earlier `[`. */
  ghost predicate Paired(p: string, jumps: map<nat, nat>)
  {
    forall i :: i in jumps ==>
      && i < |p| && jumps[i] < |p|
      && jumps[i] in jumps && jumps[jumps[i]] == i
      && ((p[i] == '[' && i < jumps[i] && p[jumps[i]] == ']') ||
          (p[i] == ']' && jumps[i] < i && p[jumps[i]] == '['))
  }

  /** Pairs nest: a pair opened inside another closes inside it too. */
  ghost predicate Nested(p: string, jumps: map<nat, nat>)
  {
    forall i, j :: i in jumps && j in jumps && i < j < jumps[i] && i < |p| && j < |p| && p[i] == '[' && p[j] == '[' ==>
      jumps[j] < jumps[i]
  }

  /** Every `]` of `p` has an entry in the jump table. */
  ghost predicate ClosersMapped(p: string, jumps: map<nat, nat>)
  {
    forall i :: 0 <= i < |p| && p[i] == ']' ==> i in jumps
  }

  /** The open-bracket stack holds increasing positions of `[` that have no
      jump-table entry yet; every other `[` has one; and every pair that opens
      before a stacked `[` also closes before it. */
  ghost predicate StackOk(s: Scan)
  {
    && (forall k :: 0 <= k < |s.stack| ==>
          s.stack[k] < |s.parsed| && s.parsed[s.stack[k]] == '[' && s.stack[k] !in s.jumps)
    && (forall k, l :: 0 <= k < l < |s.stack| ==> s.stack[k] < s.stack[l])
    && (forall i :: 0 <= i < |s.parsed| && s.parsed[i] == '[' ==> i in s.jumps || i in s.stack)
    && (forall k, i :: 0 <= k < |s.stack| && i in s.jumps && i < s.stack[k] ==> s.jumps[i] < s.stack[k])
  }

  /** Everything the pass maintains. */
  ghost predicate Consistent(s: Scan)
  {
    Paired(s.parsed, s.jumps) && Nested(s.parsed, s.jumps) &&
    ClosersMapped(s.parsed, s.jumps) && StackOk(s)
  }

  lemma {:induction false} FilterAppend(a: string, b: string)
    ensures Filter(a + b) == Filter(a) + Filter(b)
  {
    if a == [] {
      assert a + b == b;
    } else {
      assert (a + b)[1..] == a[1..] + b;
      FilterAppend(a[1..], b);
    }
  }

  /** A text made only of symbols is its own projection. */
  lemma {:induction false} FilterOfSymbols(s: string)
    requires forall i :: 0 <= i < |s| ==> IsSymbol(s[i])
    ensures Filter(s) == s
  {
    if s != [] {
      FilterOfSymbols(s[1..]);
    }
  }

  /** Filtering twice is filtering once. */
  lemma FilterIdempotent(s: string)
    ensures Filter(Filter(s)) == Filter(s)
  {
    FilterOfSymbols(Filter(s));
  }

  /** Feeding a `[` appends it and pushes its position. */
  lemma FeedOpenKeepsConsistent(s: Scan)
    requires Consistent(s)
    ensures Feed(s, '[') == Ok(Scan(s.parsed + ['['], s.stack + [|s.parsed|], s.jumps))
    ensures Consistent(Feed(s, '[').value)
  {
    var r := Feed(s, '[').value;
    var pc := |s.parsed|;
    var p := r.parsed;
    assert forall i :: 0 <= i < pc ==> p[i] == s.parsed[i];
    assert r.jumps == s.jumps;
    assert Paired(p, r.jumps);
    assert Nested(p, r.jumps);
    assert ClosersMapped(p, r.jumps);
    OpenStackOk(s);
  }

  lemma OpenStackOk(s: Scan)
    requires Consistent(s)
    ensures Feed(s, '[').Ok? && StackOk(Feed(s, '[').value)
  {
    var r := Feed(s, '[').value;
    var pc := |s.parsed|;
    var p := r.parsed;
    assert forall i :: 0 <= i < pc ==> p[i] == s.parsed[i];
    assert r.jumps == s.jumps && r.stack == s.stack + [pc];
    assert forall k :: 0 <= k < |s.stack| ==> r.stack[k] == s.stack[k];
    assert r.stack[|s.stack|] == pc;
    forall i | 0 <= i < |p| && p[i] == '['
      ensures i in r.jumps || i in r.stack
    {
      if i < pc {
        assert i in s.jumps || i in s.stack;
        if i in s.stack {
          var k :| 0 <= k < |s.stack| && s.stack[k] == i;
          assert r.stack[k] == i;
        }
      } else {
        assert r.stack[|s.stack|] == i;
      }
    }
  }

  /** Feeding a `]` with a `[` open pops it and records the pair both ways. */
  lemma FeedCloseKeepsConsistent(s: Scan)
    requires Consistent(s) && s.stack != []
    ensures var left, pc := s.stack[|s.stack| - 1], |s.parsed|;
      Feed(s, ']') == Ok(Scan(s.parsed + [']'], s.stack[..|s.stack| - 1], s.jumps[left := pc][pc := left]))
    ensures Consistent(Feed(s, ']').value)
  {
    var r := Feed(s, ']').value;
    var pc := |s.parsed|;
    var p := r.parsed;
    var top := |s.stack| - 1;
    var left := s.stack[top];
    assert forall i :: 0 <= i < pc ==> p[i] == s.parsed[i];
    assert p[pc] == ']';
    assert r.stack == s.stack[..top];
    assert r.jumps == s.jumps[left := pc][pc := left];
    assert left < pc && p[left] == '[' && left !in s.jumps;
    ClosePaired(s);
    CloseNested(s);
    assert ClosersMapped(p, r.jumps);
    CloseStackOk(s);
  }

  lemma ClosePaired(s: Scan)
    requires Consistent(s) && s.stack != []
    ensures Feed(s, ']').Ok? && Paired(Feed(s, ']').value.parsed, Feed(s, ']').value.jumps)
  {
    var r := Feed(s, ']').value;
    var pc := |s.parsed|;
    var p := r.parsed;
    var left := s.stack[|s.stack| - 1];
    assert forall i :: 0 <= i < pc ==> p[i] == s.parsed[i];
    assert r.jumps == s.jumps[left := pc][pc := left];
    forall i | i in r.jumps
      ensures i < |p| && r.jumps[i] < |p|
      ensures r.jumps[i] in r.jumps && r.jumps[r.jumps[i]] == i
      ensures (p[i] == '[' && i < r.jumps[i] && p[r.jumps[i]] == ']') ||
              (p[i] == ']' && r.jumps[i] < i && p[r.jumps[i]] == '[')
    {
      if i != pc && i != left {
        assert i in s.jumps;
        assert s.jumps[i] in s.jumps && s.jumps[i] < pc;
        assert s.jumps[i] != left;
      }
    }
  }

  lemma CloseNested(s: Scan)
    requires Consistent(s) && s.stack != []
    ensures Feed(s, ']').Ok? && Nested(Feed(s, ']').value.parsed, Feed(s, ']').value.jumps)
  {
    var r := Feed(s, ']').value;
    var pc := |s.parsed|;
    var p := r.parsed;
    var left := s.stack[|s.stack| - 1];
    assert forall i :: 0 <= i < pc ==> p[i] == s.parsed[i];
    assert r.jumps == s.jumps[left := pc][pc := left];
    forall i, j | i in r.jumps && j in r.jumps && i < j < r.jumps[i] && i < |p| && j < |p| && p[i] == '[' && p[j] == '['
      ensures r.jumps[j] < r.jumps[i]
    {
      if i == left {
        assert j != pc;
        if j != left {
          assert j in s.jumps && s.jumps[j] < pc;
        }
      } else {
        assert i != pc && i in s.jumps;
        // a pair that opens before the stacked `[` at left also closes before it
        assert j != left by {
          assert i < left ==> s.jumps[i] < left;
        }
        assert j != pc && j in s.jumps;
      }
    }
  }

  lemma CloseStackOk(s: Scan)
    requires Consistent(s) && s.stack != []
    ensures Feed(s, ']').Ok? && StackOk(Feed(s, ']').value)
  {
    CloseOpenersCovered(s);
    ClosePairsBeforeStack(s);
    var r := Feed(s, ']').value;
    var top := |s.stack| - 1;
    assert r.stack == s.stack[..top];
    assert forall k :: 0 <= k < |r.stack| ==> r.stack[k] == s.stack[k];
    assert forall k :: 0 <= k < |r.stack| ==> r.stack[k] < s.stack[top];
  }

  /** After a `]` every `[` is still either paired or on the stack. */
  lemma CloseOpenersCovered(s: Scan)
    requires Consistent(s) && s.stack != []
    ensures Feed(s, ']').Ok?
    ensures var r := Feed(s, ']').value;
      forall i :: 0 <= i < |r.parsed| && r.parsed[i] == '[' ==> i in r.jumps || i in r.stack
  {
    var r := Feed(s, ']').value;
    var pc := |s.parsed|;
    var p := r.parsed;
    var top := |s.stack| - 1;
    var left := s.stack[top];
    assert forall i :: 0 <= i < pc ==> p[i] == s.parsed[i];
    assert r.stack == s.stack[..top];
    assert left in r.jumps;
    forall i | 0 <= i < |p| && p[i] == '['
      ensures i in r.jumps || i in r.stack
    {
      if i != left {
        assert i < pc;
        assert i in s.jumps || i in s.stack;
        if i in s.stack && i !in s.jumps {
          var k :| 0 <= k < |s.stack| && s.stack[k] == i;
          assert k != top;
          assert r.stack[k] == i;
        }
      }
    }
  }

  /** After a `]` every pair opened before a stacked `[` still closes before it. */
  lemma ClosePairsBeforeStack(s: Scan)
    requires Consistent(s) && s.stack != []
    ensures Feed(s, ']').Ok?
    ensures var r := Feed(s, ']').value;
      forall k, i :: 0 <= k < |r.stack| && i in r.jumps && i < r.stack[k] ==> r.jumps[i] < r.stack[k]
  {
    var r := Feed(s, ']').value;
    var pc := |s.parsed|;
    var top := |s.stack| - 1;
    var left := s.stack[top];
    assert r.stack == s.stack[..top];
    assert r.jumps == s.jumps[left := pc][pc := left];
    forall k, i | 0 <= k < |r.stack| && i in r.jumps && i < r.stack[k]
      ensures r.jumps[i] < r.stack[k]
    {
      assert r.stack[k] == s.stack[k] && s.stack[k] < left;
      assert i != left && i != pc;
    }
  }

  /** Every character keeps the scan consistent, keeps exactly the symbols,
      and changes the stack height by the character's bracket count. */
  lemma FeedKeepsConsistent(s: Scan, c: char)
    requires Consistent(s)
    requires Feed(s, c).Ok?
    ensures Consistent(Feed(s, c).value)
    ensures Feed(s, c).value.parsed == s.parsed + Filter([c])
    ensures |Feed(s, c).value.stack| == |s.stack| + Delta(c)
  {
    assert [c][1..] == [];
    if c == '[' {
      FeedOpenKeepsConsistent(s);
    } else if c == ']' {
      FeedCloseKeepsConsistent(s);
    } else if IsSymbol(c) {
      var r := Feed(s, c).value;
      assert forall i :: 0 <= i < |s.parsed| ==> r.parsed[i] == s.parsed[i];
      assert r.parsed[|s.parsed|] == c;
      assert r.jumps == s.jumps && r.stack == s.stack;
    }
  }

  /** The pass succeeds exactly when no prefix closes more brackets than it
      opened; then its state is consistent, it has kept exactly the symbols of
      the text, and its stack holds one entry per `[` left open. */
  lemma {:induction false} ScanAllFacts(source: string)
    ensures ScanAll(source).Ok? <==> NeverUnderflows(source)
    ensures ScanAll(source).Ok? ==>
      && Consistent(ScanAll(source).value)
      && ScanAll(source).value.parsed == Filter(source)
      && |ScanAll(source).value.stack| == Depth(source)
    decreases |source|
  {
    if source == [] {
      assert source[..0] == [];
      assert Consistent(Scan([], [], map[]));
    } else {
      var pre := source[..|source| - 1];
      var c := source[|source| - 1];
      assert pre + [c] == source;
      ScanAllFacts(pre);
      FilterAppend(pre, [c]);
      assert NeverUnderflows(source) <==> NeverUnderflows(pre) && Depth(source) >= 0 by {
        forall n | 0 <= n < |source| ensures source[..n] == pre[..n] { }
        assert source[..|source|] == source;
      }
      if ScanAll(pre).Ok? {
        var s := ScanAll(pre).value;
        if Feed(s, c).Ok? {
          FeedKeepsConsistent(s, c);
        }
      }
    }
  }

  /** The pass over a text with one more character: the character is fed to
      the state the shorter text left, unless that text already failed. */
  lemma ScanAllSnoc(pre: string, c: char)
    ensures ScanAll(pre + [c]) == match ScanAll(pre) case Err(e) => Err(e) case Ok(s) => Feed(s, c)
  {
    assert (pre + [c])[..|pre|] == pre;
  }

  /** Once the pass has failed, reading more text does not change the failure. */
  lemma {:induction false} ScanAllErrSticky(source: string, n: nat)
    requires n <= |source|
    requires ScanAll(source[..n]).Err?
    ensures ScanAll(source) == ScanAll(source[..n])
    decreases |source| - n
  {
    if n < |source| {
      assert source[..n + 1][..n] == source[..n];
      ScanAllErrSticky(source, n + 1);
    } else {
      assert source[..n] == source;
    }
  }

  /** The scan of a text and of its projection agree: characters outside the
      alphabet are no-ops. */
  lemma {:induction false} ScanAllIgnoresNonSymbols(source: string)
    ensures ScanAll(Filter(source)) == ScanAll(source)
    decreases |source|
  {
    if source != [] {
      var pre := source[..|source| - 1];
      var c := source[|source| - 1];
      assert pre + [c] == source;
      ScanAllIgnoresNonSymbols(pre);
      FilterAppend(pre, [c]);
      assert [c][1..] == [];
      if IsSymbol(c) {
        var f := Filter(pre) + [c];
        assert Filter(source) == f;
        assert f[..|f| - 1] == Filter(pre);
      } else {
        assert Filter(source) == Filter(pre);
      }
    }
  }

  /** Position `k` of the kept symbols `f` is the offending `]`: the symbols
      before it never close more brackets than they opened, and with it the
      count drops below zero. */
  ghost predicate OffendingClose(f: string, k: int)
  {
    0 <= k < |f| && f[k] == ']' && NeverUnderflows(f[..k]) && Depth(f[..k + 1]) < 0
  }

  /** Appending symbols after the offending `]` does not move it. */
  lemma OffendingCloseExtends(g: string, h: string, k: int)
    requires OffendingClose(g, k)
    ensures OffendingClose(g + h, k)
  {
    assert (g + h)[..k] == g[..k];
    assert (g + h)[..k + 1] == g[..k + 1];
  }

  /** An unmatched `]` is reported at its own position among the kept symbols,
      and it is the offending one: the first at which the kept text closes
      more brackets than it opened. */
  lemma {:induction false} ScanAllErrorPosition(source: string)
    requires ScanAll(source).Err?
    ensures OffendingClose(Filter(source), ScanAll(source).error.pc)
    decreases |source|
  {
    var pre := source[..|source| - 1];
    var c := source[|source| - 1];
    assert pre + [c] == source;
    if ScanAll(pre).Err? {
      ScanAllErrorPosition(pre);
      FilterAppend(pre, [c]);
      OffendingCloseExtends(Filter(pre), Filter([c]), ScanAll(pre).error.pc);
    } else {
      FirstUnmatchedClose(pre, c);
    }
  }

  /** The first failure of the pass: `c` is a `]` met with no `[` open, and it
      is the offending `]` of the kept symbols. */
  lemma FirstUnmatchedClose(pre: string, c: char)
    requires ScanAll(pre).Ok? && Feed(ScanAll(pre).value, c).Err?
    ensures OffendingClose(Filter(pre + [c]), Feed(ScanAll(pre).value, c).error.pc)
  {
    ScanAllFacts(pre);
    FilterAppend(pre, [c]);
    assert [c][1..] == [];
    var g := Filter(pre);
    assert Filter(pre + [c]) == g + [']'];
    EmptyStackThenClose(pre);
    assert (g + [']'])[..|g|] == g && (g + [']'])[..|g| + 1] == g + [']'];
  }

  /** When the pass over `pre` succeeds with no `[` open, its kept symbols
      never underflow, and a further `]` makes them underflow. */
  lemma EmptyStackThenClose(pre: string)
    requires ScanAll(pre).Ok? && ScanAll(pre).value.stack == []
    ensures NeverUnderflows(Filter(pre)) && Depth(Filter(pre) + [']']) < 0
  {
    var g := Filter(pre);
    ScanAllIgnoresNonSymbols(pre);
    ScanAllFacts(g);
    assert (g + [']'])[..|g|] == g;
  }

  /** A text of symbols without `]` is scanned without error: every symbol is
      kept and no pair is recorded. */
  lemma {:induction false} NoCloserScans(s: string)
    requires forall i :: 0 <= i < |s| ==> IsSymbol(s[i]) && s[i] != ']'
    ensures ScanAll(s).Ok? && ScanAll(s).value.parsed == s && ScanAll(s).value.jumps == map[]
    decreases |s|
  {
    if s != [] {
      var pre := s[..|s| - 1];
      NoCloserScans(pre);
      assert pre + [s[|s| - 1]] == s;
    }
  }

  /** A text of symbols without `]` parses to itself with an empty jump table. */
  lemma NoCloserParsesToItself(s: string)
    requires forall i :: 0 <= i < |s| ==> IsSymbol(s[i]) && s[i] != ']'
    ensures ParseResult(s) == Ok(Program(s, map[]))
  {
    NoCloserScans(s);
  }

  /** Parsing keeps exactly the symbols of the text, in their order: the
      program it returns is the alphabet projection of the source. */
  lemma ParseKeepsSymbols(source: string)
    requires ParseResult(source).Ok?
    ensures ParseResult(source).value.code == Filter(source)
  {
    ScanAllFacts(source);
  }

  /** Parsing fails exactly when some prefix has more `]` than `[`; the error
      names the position of the offending `]` among the kept symbols: the
      first at which the kept text has closed more brackets than it opened. */
  lemma ParseFailsIff(source: string)
    ensures ParseResult(source).Err? <==> exists n :: 0 <= n <= |source| && Depth(source[..n]) < 0
    ensures ParseResult(source).Err? ==> OffendingClose(Filter(source), ParseResult(source).error.pc)
  {
    ScanAllFacts(source);
    if ScanAll(source).Err? {
      ScanAllErrorPosition(source);
    }
  }

  /** On success the jump table pairs brackets both ways (an involution on its
      keys), pairs nest, and every `]` is paired. */
  lemma JumpTableInvolution(source: string)
    requires ParseResult(source).Ok?
    ensures var p := ParseResult(source).value;
      Paired(p.code, p.jumps) && Nested(p.code, p.jumps) && ClosersMapped(p.code, p.jumps)
    ensures var p := ParseResult(source).value;
      forall i :: i in p.jumps ==> p.jumps[i] in p.jumps && p.jumps[p.jumps[i]] == i
  {
    ScanAllFacts(source);
  }

  /** On balanced text the keys of the jump table are exactly the bracket
      positions of the program. */
  lemma BalancedJumpTable(source: string)
    requires ParseResult(source).Ok? && Depth(source) == 0
    ensures var p := ParseResult(source).value;
      forall i :: 0 <= i < |p.code| ==> (i in p.jumps <==> p.code[i] == '[' || p.code[i] == ']')
  {
    ScanAllFacts(source);
  }

  /** No pair of the jump table encloses a `[` left without an entry: every
      pair that opens before an unmapped `[` also closes before it. With the
      pairing and nesting of `JumpTableInvolution` this pins the table down to
      last-in-first-out matching. */
  lemma NoPairEnclosesUnmappedOpener(source: string)
    requires ParseResult(source).Ok?
    ensures var p := ParseResult(source).value;
      forall i, k :: i in p.jumps && 0 <= k < |p.code| && p.code[k] == '[' && k !in p.jumps && i < k ==>
        p.jumps[i] < k
  {
    ScanAllFacts(source);
    var s := ScanAll(source).value;
    forall i, k | i in s.jumps && 0 <= k < |s.parsed| && s.parsed[k] == '[' && k !in s.jumps && i < k
      ensures s.jumps[i] < k
    {
      var m :| 0 <= m < |s.stack| && s.stack[m] == k;
    }
  }

  /** An unclosed `[` is not reported: parsing succeeds, some `[` of the
      program has no jump-table entry, and no pair encloses such a `[`. */
  lemma UnclosedOpenerUnmapped(source: string)
    requires NeverUnderflows(source) && Depth(source) > 0
    ensures ParseResult(source).Ok?
    ensures var p := ParseResult(source).value;
      exists i :: 0 <= i < |p.code| && p.code[i] == '[' && i !in p.jumps
    ensures var p := ParseResult(source).value;
      forall i, k :: i in p.jumps && 0 <= k < |p.code| && p.code[k] == '[' && k !in p.jumps && i < k ==>
        p.jumps[i] < k
  {
    ScanAllFacts(source);
    var s := ScanAll(source).value;
    assert s.stack[0] < |s.parsed|;
    NoPairEnclosesUnmappedOpener(source);
  }

  /** Characters that are not symbols play no part in parsing: dropping them
      first changes neither the program, the table nor the error. */
  lemma ParseIgnoresNonSymbols(source: string)
    ensures ParseResult(Filter(source)) == ParseResult(source)
  {
    ScanAllIgnoresNonSymbols(source);
  }

  /** Parsing the program a parse returned gives back the same program and
      table: the joined string of kept symbols loses nothing. */
  lemma ReparseIsIdentity(source: string)
    requires ParseResult(source).Ok?
    ensures ParseResult(ParseResult(source).value.code) == ParseResult(source)
  {
    ParseKeepsSymbols(source);
    ParseIgnoresNonSymbols(source);
  }

  /** The parser's loop: kept symbols, open-bracket stack and jump table are
      updated in place, one character at a time. */
  method Parse(source: string) returns (result: Result<Program, ParseError>)
    ensures result == ParseResult(source)
  {
    var parsed: string := [];
    var jumps: map<nat, nat> := map[];
    var leftStack: seq<nat> := [];
    var pc: nat := 0;
    for i := 0 to |source|
      invariant pc == |parsed|
      invariant ScanAll(source[..i]) == Ok(Scan(parsed, leftStack, jumps))
    {
      var c := source[i];
      assert source[..i + 1][..i] == source[..i];
      if IsSymbol(c) {
        parsed := parsed + [c];
        if c == '[' {
          leftStack := leftStack + [pc];
        } else if c == ']' {
          if leftStack == [] {
            ScanAllErrSticky(source, i + 1);
            return Err(UnmatchedClose(pc));
          }
          var left := leftStack[|leftStack| - 1];
          leftStack := leftStack[..|leftStack| - 1];
          jumps := jumps[left := pc][pc := left];
        }
        pc := pc + 1;
      }
    }
    assert source[..|source|] == source;
    return Ok(Program(parsed, jumps));
  }
}
