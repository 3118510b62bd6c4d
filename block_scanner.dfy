/** `findExceptionBlocks`: a single pass over the lines of the window that cuts
    out exception blocks. The scan keeps a rolling buffer of the most recent
    lines (the current line included), a flag telling whether a block is open,
    the lines of the open block and the blocks finished so far. */
module BlockScanner {
  import opened Seqs
  import opened JavaText

  /** An exception block, as its lines; the source joins them with the line
      separator when it stores the block. */
  type Block = seq<string>

  /** `ArrayDeque.removeFirst()` on an empty deque throws
      `NoSuchElementException`; the scan as a whole then fails. */
  datatype ScanError = NoSuchElement

  datatype Scan = Scan(buffer: seq<string>, inBlock: bool, current: Block, result: seq<Block>)

  const Start: Scan := Scan([], false, [], [])

  function Min(a: int, b: int): int
  {
    if a <= b then a else b
  }

  /** Capacity of the rolling buffer: `Math.max(0, contextLines)`. */
  function Capacity(contextLines: int): nat
  {
    if contextLines > 0 then contextLines else 0
  }

  /** The buffer after `line` arrives: the oldest line leaves a full buffer,
      then `line` joins at the end. */
  function Roll(buffer: seq<string>, cap: nat, line: string): seq<string>
    requires |buffer| == cap ==> buffer != []
  {
    (if |buffer| == cap then buffer[1..] else buffer) + [line]
  }

  /** Where the run of `[ERR]`-tagged lines that ends at position `i` of the
      buffer begins: walking back from `i` while the line before also carries
      the tag. */
  function ErrRunStart(buf: seq<string>, i: nat): (k: nat)
    requires i < |buf|
    ensures k <= i
    decreases i
  {
    if i >= 1 && HasErrTag(buf[i - 1]) then ErrRunStart(buf, i - 1) else i
  }

  /** Every line from the run start up to `i` (exclusive) carries `[ERR]`, and
      the line before the run start does not. */
  lemma {:induction false} ErrRunStartIsRunStart(buf: seq<string>, i: nat)
    requires i < |buf|
    ensures forall j :: ErrRunStart(buf, i) <= j < i ==> HasErrTag(buf[j])
    ensures ErrRunStart(buf, i) == 0 || !HasErrTag(buf[ErrRunStart(buf, i) - 1])
    decreases i
  {
    if i >= 1 && HasErrTag(buf[i - 1]) {
      ErrRunStartIsRunStart(buf, i - 1);
    }
  }

  /** Seed of a block whose start line carries `[ERR]` (the buffer's last line). */
  function ErrSeed(buf: seq<string>): Block
    requires |buf| > 0
  {
    buf[ErrRunStart(buf, |buf| - 1)..]
  }

  function Differs(line: string): string -> bool
  {
    l => l != line
  }

  /** Seed of a block whose start line has no `[ERR]` tag: the buffered lines
      that differ from the start line, then the start line unless the seed
      already ends with it. */
  function ContextSeed(buf: seq<string>, line: string): Block
  {
    var kept := Filter(buf, Differs(line));
    if kept == [] || Last(kept) != line then kept + [line] else kept
  }

  /** One iteration of the loop of lines 134-202. */
  function Step(pt: Patterns, cap: nat, st: Scan, line: string): Scan
    requires cap >= 1
    requires |st.buffer| <= cap
  {
    var buffer := Roll(st.buffer, cap, line);
    if pt.exceptionLine(line) then
      if st.inBlock then
        Scan(buffer, true, st.current + [line], st.result)
      else
        var result := if st.current != [] then st.result + [st.current] else st.result;
        var seed := if HasErrTag(line) then ErrSeed(buffer) else ContextSeed(buffer, line);
        Scan(buffer, true, seed, result)
    else if st.inBlock then
      if pt.stackOrCause(line) then
        Scan(buffer, true, st.current + [line], st.result)
      else
        Scan(buffer, false, [], st.result + [st.current + [line]])
    else
      Scan(buffer, st.inBlock, st.current, st.result)
  }

  /** The scan state once `lines` have been consumed. */
  function Run(pt: Patterns, cap: nat, lines: seq<string>): (st: Scan)
    requires cap >= 1
    ensures |st.buffer| <= cap
    decreases |lines|
  {
    if lines == [] then Start
    else Step(pt, cap, Run(pt, cap, DropLast(lines)), Last(lines))
  }

  /** The finished blocks plus the block still open at the end of input. */
  function Emitted(st: Scan): seq<Block>
  {
    st.result + (if st.current != [] then [st.current] else [])
  }

  /** What `findExceptionBlocks` returns or throws. */
  function ExceptionBlocks(pt: Patterns, contextLines: int, lines: seq<string>): Result<seq<Block>, ScanError>
  {
    var cap := Capacity(contextLines);
    if cap == 0 then (if lines == [] then Ok([]) else Err(NoSuchElement))
    else Ok(Emitted(Run(pt, cap, lines)))
  }

  /** Lines 157-165: the block starts at the first line of the contiguous run of
      `[ERR]` lines that ends with the start line. */
  method AnchorAtErrRun(bufferList: seq<string>) returns (seed: Block)
    requires |bufferList| > 0
    ensures seed == ErrSeed(bufferList)
  {
    var idx := |bufferList| - 1;
    var startIdx := idx;
    while startIdx - 1 >= 0 && HasErrTag(bufferList[startIdx - 1])
      invariant 0 <= startIdx <= idx
      invariant ErrRunStart(bufferList, startIdx) == ErrRunStart(bufferList, idx)
    {
      startIdx := startIdx - 1;
    }
    seed := [];
    for i := startIdx to |bufferList|
      invariant seed == bufferList[startIdx..i]
    {
      seed := seed + [bufferList[i]];
    }
  }

  /** Lines 167-176: the buffered context without copies of the start line,
      then the start line. */
  method PrependContext(bufferList: seq<string>, line: string) returns (seed: Block)
    ensures seed == ContextSeed(bufferList, line)
  {
    seed := [];
    for i := 0 to |bufferList|
      invariant seed == Filter(bufferList[..i], Differs(line))
    {
      PrefixStep(bufferList, i);
      if bufferList[i] != line {
        seed := seed + [bufferList[i]];
      }
    }
    assert bufferList[..|bufferList|] == bufferList;
    if seed == [] || Last(seed) != line {
      seed := seed + [line];
    }
  }

  /** The exception blocks of `lines`, in the order they close. A capacity of
      zero makes the first line fail; otherwise every block is non-empty and
      is made of input lines in input order. */
  method FindExceptionBlocks(pt: Patterns, contextLines: int, lines: seq<string>)
    returns (r: Result<seq<Block>, ScanError>)
    ensures r == ExceptionBlocks(pt, contextLines, lines)
    ensures r.Err? <==> contextLines <= 0 && lines != []
    ensures r.Ok? ==> forall k :: 0 <= k < |r.value| ==> r.value[k] != [] && IsSubseq(r.value[k], lines)
  {
    var result: seq<Block> := [];
    var inBlock := false;
    var current: Block := [];
    var cap := Capacity(contextLines);
    var prevBuffer: seq<string> := [];

    for i := 0 to |lines|
      invariant cap == 0 ==> i == 0
      invariant cap == 0 ==> Scan(prevBuffer, inBlock, current, result) == Start
      invariant cap >= 1 ==> Scan(prevBuffer, inBlock, current, result) == Run(pt, cap, lines[..i])
    {
      PrefixStep(lines, i);
      var line := lines[i];
      if |prevBuffer| == cap {
        if prevBuffer == [] {
          r := Err(NoSuchElement);
          return;
        }
        prevBuffer := prevBuffer[1..];
      }
      prevBuffer := prevBuffer + [line];

      var isStart := pt.exceptionLine(line);
      if isStart {
        if inBlock {
          current := current + [line];
          continue;
        }
        if current != [] {
          result := result + [current];
          current := [];
        }
        inBlock := true;
        var bufferList := prevBuffer;
        if HasErrTag(line) {
          current := AnchorAtErrRun(bufferList);
        } else {
          current := PrependContext(bufferList, line);
        }
        continue;
      }
      if inBlock {
        if pt.stackOrCause(line) {
          current := current + [line];
        } else {
          inBlock := false;
          current := current + [line];
          if current != [] {
            result := result + [current];
            current := [];
          }
        }
      }
    }
    if current != [] {
      result := result + [current];
    }
    r := Ok(result);

    if cap >= 1 {
      assert lines[..|lines|] == lines;
      assert result == Emitted(Run(pt, cap, lines));
    }
    ExceptionBlocksWithin(pt, contextLines, lines);
  }

  /** `findExceptionBlocks` fails exactly when the buffer has no room and there
      is a line to read; otherwise every block is non-empty and is made of
      input lines in input order. */
  lemma ExceptionBlocksWithin(pt: Patterns, contextLines: int, lines: seq<string>)
    ensures ExceptionBlocks(pt, contextLines, lines).Err? <==> contextLines <= 0 && lines != []
    ensures ExceptionBlocks(pt, contextLines, lines).Ok? ==>
              forall k :: 0 <= k < |ExceptionBlocks(pt, contextLines, lines).value| ==>
                ExceptionBlocks(pt, contextLines, lines).value[k] != [] &&
                IsSubseq(ExceptionBlocks(pt, contextLines, lines).value[k], lines)
  {
    var cap := Capacity(contextLines);
    if cap >= 1 {
      PendingIffInBlock(pt, cap, lines);
      BlocksAreSubsequences(pt, cap, lines);
    }
  }

  /** After any number of lines the rolling buffer holds the most recent
      `min(n, cap)` of them in input order, so it never exceeds its capacity
      and ends with the line just read. */
  lemma {:induction false} BufferIsRecentLines(pt: Patterns, cap: nat, lines: seq<string>)
    requires cap >= 1
    ensures Run(pt, cap, lines).buffer == lines[|lines| - Min(|lines|, cap)..]
    ensures lines != [] ==> Run(pt, cap, lines).buffer != [] && Last(Run(pt, cap, lines).buffer) == Last(lines)
    decreases |lines|
  {
    if lines != [] {
      BufferIsRecentLines(pt, cap, DropLast(lines));
      RollKeepsRecent(lines, cap);
    }
  }

  /** Rolling the most recent `min(n - 1, cap)` lines gives the most recent
      `min(n, cap)` lines once the `n`-th arrives. */
  lemma RollKeepsRecent(lines: seq<string>, cap: nat)
    requires cap >= 1 && lines != []
    ensures var prev := DropLast(lines);
      var b := prev[|prev| - Min(|prev|, cap)..];
      && (|b| == cap ==> b != [])
      && Roll(b, cap, Last(lines)) == lines[|lines| - Min(|lines|, cap)..]
      && Last(Roll(b, cap, Last(lines))) == Last(lines)
  {
    var prev := DropLast(lines);
    var b := prev[|prev| - Min(|prev|, cap)..];
    if |prev| >= cap {
      assert b[1..] + [Last(lines)] == lines[|lines| - cap..];
    } else {
      assert b + [Last(lines)] == lines;
    }
  }

  /** A block is open exactly when lines are pending, and every finished block
      is non-empty. In particular the flush of lines 148-151 never emits
      anything: when a start line is met outside a block, nothing is pending. */
  lemma {:induction false} PendingIffInBlock(pt: Patterns, cap: nat, lines: seq<string>)
    requires cap >= 1
    ensures Run(pt, cap, lines).inBlock <==> Run(pt, cap, lines).current != []
    ensures forall k :: 0 <= k < |Run(pt, cap, lines).result| ==> Run(pt, cap, lines).result[k] != []
    decreases |lines|
  {
    if lines != [] {
      PendingIffInBlock(pt, cap, DropLast(lines));
      BufferIsRecentLines(pt, cap, lines);
    }
  }

  /** The `[ERR]` seed is non-empty, is a suffix of the buffer ending with the
      start line, every line of it carries `[ERR]`, and the line just before
      it (if the buffer reaches that far) does not: the maximal tagged run,
      reaching no further back. */
  lemma ErrSeedIsMaximalRun(buf: seq<string>)
    requires |buf| > 0 && HasErrTag(Last(buf))
    ensures var k := |buf| - |ErrSeed(buf)|;
      && 0 <= k < |buf|
      && ErrSeed(buf) == buf[k..]
      && (forall j :: k <= j < |buf| ==> HasErrTag(buf[j]))
      && (k == 0 || !HasErrTag(buf[k - 1]))
  {
    ErrRunStartIsRunStart(buf, |buf| - 1);
  }

  /** The context seed is the buffered lines other than the start line, in
      buffer order, followed by the start line exactly once: the check on
      line 174 always adds it. */
  lemma ContextSeedShape(buf: seq<string>, line: string)
    ensures ContextSeed(buf, line) == Filter(buf, Differs(line)) + [line]
    ensures forall j :: 0 <= j < |ContextSeed(buf, line)| - 1 ==> ContextSeed(buf, line)[j] != line
  {
    var kept := Filter(buf, Differs(line));
    if kept != [] {
      assert Differs(line)(kept[|kept| - 1]);
    }
  }

  /** How one more line changes a reachable state. Inside a block, a start
      line or a stack/cause line is appended and the block stays open; any
      other line is appended as the block's last line, the block is finished
      and the scan returns to Idle. Outside a block, a start line opens a block
      seeded from the buffer without finishing any block, and any other line
      only moves the buffer. */
  lemma ScanTransitions(pt: Patterns, cap: nat, lines: seq<string>, line: string)
    requires cap >= 1
    ensures var st, st' := Run(pt, cap, lines), Run(pt, cap, lines + [line]);
      && st'.buffer == Roll(st.buffer, cap, line)
      && (st.inBlock && (pt.exceptionLine(line) || pt.stackOrCause(line)) ==>
            st'.inBlock && st'.current == st.current + [line] && st'.result == st.result)
      && (st.inBlock && !pt.exceptionLine(line) && !pt.stackOrCause(line) ==>
            !st'.inBlock && st'.current == [] && st'.result == st.result + [st.current + [line]])
      && (!st.inBlock && pt.exceptionLine(line) ==>
            st'.inBlock && st'.result == st.result &&
            st'.current == (if HasErrTag(line) then ErrSeed(st'.buffer) else ContextSeed(st'.buffer, line)))
      && (!st.inBlock && !pt.exceptionLine(line) ==>
            !st'.inBlock && st'.current == [] && st'.result == st.result)
  {
    assert DropLast(lines + [line]) == lines;
    PendingIffInBlock(pt, cap, lines);
  }

  /** Every finished block was closed by a line that is neither a start line
      nor a stack/cause line, and that line is the block's last. */
  lemma {:induction false} FinishedBlocksEndWithTerminator(pt: Patterns, cap: nat, lines: seq<string>)
    requires cap >= 1
    ensures forall k :: 0 <= k < |Run(pt, cap, lines).result| ==>
      var b := Run(pt, cap, lines).result[k];
      b != [] && !pt.exceptionLine(Last(b)) && !pt.stackOrCause(Last(b))
    decreases |lines|
  {
    if lines != [] {
      FinishedBlocksEndWithTerminator(pt, cap, DropLast(lines));
      PendingIffInBlock(pt, cap, DropLast(lines));
    }
  }

  /** The pending block and every finished block are subsequences of `lines`. */
  ghost predicate BlocksWithin(st: Scan, lines: seq<string>)
  {
    && IsSubseq(st.current, lines)
    && forall k :: 0 <= k < |st.result| ==> IsSubseq(st.result[k], lines)
  }

  /** One step keeps the blocks within the input, given that the rolled buffer
      is the suffix of the input from position `m`. */
  lemma StepKeepsBlocksWithin(pt: Patterns, cap: nat, st: Scan, lines: seq<string>, m: nat)
    requires cap >= 1 && |st.buffer| <= cap && lines != []
    requires BlocksWithin(st, DropLast(lines))
    requires m < |lines| && Roll(st.buffer, cap, Last(lines)) == lines[m..]
    ensures BlocksWithin(Step(pt, cap, st, Last(lines)), lines)
  {
    var line := Last(lines);
    var st' := Step(pt, cap, st, line);
    ResultsStayWithin(st, lines);
    if pt.exceptionLine(line) {
      if st.inBlock {
        assert st'.result == st.result && st'.current == st.current + [line];
      } else {
        SeedIsSubseq(lines, m);
        assert st'.result == st.result + (if st.current != [] then [st.current] else []);
        assert st'.current == ErrSeed(lines[m..]) || st'.current == ContextSeed(lines[m..], line);
      }
    } else if st.inBlock {
      if pt.stackOrCause(line) {
        assert st'.result == st.result && st'.current == st.current + [line];
      } else {
        assert st'.result == st.result + [st.current + [line]] && st'.current == [];
      }
    } else {
      SubseqOfDropLast(st.current, lines);
      assert st'.result == st.result && st'.current == st.current;
    }
  }

  /** The finished blocks, the pending block and the pending block extended
      by the new line all stay within the input once the line is read. */
  lemma ResultsStayWithin(st: Scan, lines: seq<string>)
    requires lines != [] && BlocksWithin(st, DropLast(lines))
    ensures forall k :: 0 <= k < |st.result| ==> IsSubseq(st.result[k], lines)
    ensures IsSubseq(st.current, lines)
    ensures IsSubseq(st.current + [Last(lines)], lines)
    ensures var extended := st.result + (if st.current != [] then [st.current] else []);
      forall k :: 0 <= k < |extended| ==> IsSubseq(extended[k], lines)
    ensures forall k :: 0 <= k < |st.result + [st.current + [Last(lines)]]| ==>
      IsSubseq((st.result + [st.current + [Last(lines)]])[k], lines)
  {
    forall k | 0 <= k < |st.result|
      ensures IsSubseq(st.result[k], lines)
    {
      SubseqOfDropLast(st.result[k], lines);
    }
    SubseqOfDropLast(st.current, lines);
    SubseqAppendLast(st.current, lines);
  }

  /** Every finished block and the pending block consist of input lines in
      input order. Blocks may share lines: the lookback seed can reach lines
      that an earlier block already holds. */
  lemma {:induction false} BlocksAreSubsequences(pt: Patterns, cap: nat, lines: seq<string>)
    requires cap >= 1
    ensures BlocksWithin(Run(pt, cap, lines), lines)
    decreases |lines|
  {
    if lines != [] {
      BlocksAreSubsequences(pt, cap, DropLast(lines));
      BufferIsRecentLines(pt, cap, DropLast(lines));
      RollKeepsRecent(lines, cap);
      StepKeepsBlocksWithin(pt, cap, Run(pt, cap, DropLast(lines)), lines, |lines| - Min(|lines|, cap));
    }
  }

  /** A seed taken from a suffix of the input consists of input lines in input
      order. */
  lemma SeedIsSubseq(lines: seq<string>, m: nat)
    requires m < |lines|
    ensures IsSubseq(ErrSeed(lines[m..]), lines)
    ensures IsSubseq(ContextSeed(lines[m..], Last(lines)), lines)
  {
    ErrSeedIsSubseq(lines, m);
    ContextSeedIsSubseq(lines, m);
  }

  lemma ErrSeedIsSubseq(lines: seq<string>, m: nat)
    requires m < |lines|
    ensures IsSubseq(ErrSeed(lines[m..]), lines)
  {
    SuffixOfSuffixIsSubseq(lines, m, ErrRunStart(lines[m..], |lines[m..]| - 1));
  }

  lemma ContextSeedIsSubseq(lines: seq<string>, m: nat)
    requires m < |lines|
    ensures IsSubseq(ContextSeed(lines[m..], Last(lines)), lines)
  {
    var buf, prev := lines[m..], DropLast(lines);
    var p := Differs(Last(lines));
    ContextSeedShape(buf, Last(lines));
    assert Last(buf) == Last(lines);
    assert DropLast(buf) == prev[m..] by {
      assert forall i :: 0 <= i < |prev| - m ==> DropLast(buf)[i] == prev[m..][i];
    }
    assert Filter(buf, p) == Filter(prev[m..], p);
    FilterIsSubseq(prev[m..], p);
    SuffixIsSubseq(prev, m);
    SubseqTransitive(Filter(prev[m..], p), prev[m..], prev);
    SubseqAppendLast(Filter(prev[m..], p), lines);
  }

  /** An `[ERR]` exception line, one stack frame and then a plain line,
      scanned with two context lines: one block, and it holds all three lines,
      because the line that ends a block is appended to it (lines 191-193). */
  lemma ScenarioErrFrameInfo(pt: Patterns, l1: string, l2: string, l3: string)
    requires pt.exceptionLine(l1) && HasErrTag(l1)
    requires !pt.exceptionLine(l2) && pt.stackOrCause(l2)
    requires !pt.exceptionLine(l3) && !pt.stackOrCause(l3)
    ensures ExceptionBlocks(pt, 2, [l1, l2, l3]) == Ok([[l1, l2, l3]])
  {
    assert DropLast([l1]) == [] && Last([l1]) == l1;
    assert ErrRunStart([l1], 0) == 0;
    assert Run(pt, 2, [l1]) == Scan([l1], true, [l1], []);
    assert DropLast([l1, l2]) == [l1] && Last([l1, l2]) == l2;
    assert Run(pt, 2, [l1, l2]) == Scan([l1, l2], true, [l1, l2], []);
    assert DropLast([l1, l2, l3]) == [l1, l2] && Last([l1, l2, l3]) == l3;
    assert Roll([l1, l2], 2, l3) == [l2, l3];
    assert [l1, l2] + [l3] == [l1, l2, l3];
    assert Run(pt, 2, [l1, l2, l3]) == Scan([l2, l3], false, [], [[l1, l2, l3]]);
    assert Emitted(Run(pt, 2, [l1, l2, l3])) == [[l1, l2, l3]];
  }
}
