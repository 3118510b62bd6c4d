/** `filterByLastHour`: the lines of the log whose timestamp prefix falls in a
    half-open window of the local time line. */
module TimeWindow {
  import opened Seqs
  import opened JavaText

  /** Length of the prefix `yyyy-MM-dd HH:mm:ss.SSS`. */
  const TimestampWidth: nat := 23

  /** One hour on the nanosecond time line (`minusHours(1)`). */
  const NanosPerHour: int := 3_600_000_000_000

  /** The timestamp of a line: absent for a line shorter than the prefix or
      whose prefix does not parse. */
  function LineTime(lib: Library, line: string): Option<int>
  {
    if |line| < TimestampWidth then None else lib.parseTimestamp(line[..TimestampWidth])
  }

  /** The line has a timestamp `ts` with `from <= ts < to`. */
  predicate InWindow(lib: Library, from: int, to: int, line: string)
  {
    var ts := LineTime(lib, line);
    ts.Some? && from <= ts.value < to
  }

  function InWindowTest(lib: Library, from: int, to: int): string -> bool
  {
    line => InWindow(lib, from, to, line)
  }

  /** Lines whose timestamp lies in `[from, to)`, in log order. Short and
      unparsable lines are skipped, never an error. */
  method FilterByLastHour(lib: Library, lines: seq<string>, from: int, to: int)
    returns (out: seq<string>)
    ensures out == Filter(lines, InWindowTest(lib, from, to))
    ensures forall i :: 0 <= i < |out| ==> out[i] in lines && InWindow(lib, from, to, out[i])
    ensures forall i :: 0 <= i < |lines| && InWindow(lib, from, to, lines[i]) ==> lines[i] in out
    ensures IsSubseq(out, lines)
  {
    out := [];
    for i := 0 to |lines|
      invariant out == Filter(lines[..i], InWindowTest(lib, from, to))
    {
      PrefixStep(lines, i);
      var line := lines[i];
      if |line| < TimestampWidth {
        continue;
      }
      var tsPart := line[..TimestampWidth];
      var ts := lib.parseTimestamp(tsPart);
      if ts.None? {
        // the DateTimeParseException is caught and ignored
        continue;
      }
      if ts.value >= from && ts.value < to {
        out := out + [line];
      }
    }
    assert lines[..|lines|] == lines;
    FilterIsSubseq(lines, InWindowTest(lib, from, to));
  }

  /** The window is closed at `from` and open at `to`: of a line stamped exactly
      `from`, one stamped exactly `to` and one too short to carry a stamp, only
      the first is kept. */
  lemma WindowBoundaries(lib: Library, from: int, to: int, atFrom: string, atTo: string, short: string)
    requires from < to
    requires LineTime(lib, atFrom) == Some(from) && LineTime(lib, atTo) == Some(to)
    requires |short| < TimestampWidth
    ensures Filter([atFrom, atTo, short], InWindowTest(lib, from, to)) == [atFrom]
  {
    var p := InWindowTest(lib, from, to);
    assert DropLast([atFrom, atTo, short]) == [atFrom, atTo];
    assert DropLast([atFrom, atTo]) == [atFrom];
    assert DropLast([atFrom]) == [];
    assert p(atFrom) && !p(atTo) && !p(short);
    assert Filter([atFrom], p) == Filter([], p) + [atFrom];
    assert Filter([atFrom, atTo], p) == Filter([atFrom], p);
    assert Filter([atFrom, atTo, short], p) == Filter([atFrom, atTo], p);
  }
}
