/** The parts of the Java platform the exception scan relies on. `String.contains`
    and `String.startsWith` are written out; everything that runs the
    `java.util.regex` engine, `java.time` parsing or a library string transform
    is a parameter of the model, gathered in the two records below, so that every
    stage is proved for whatever those library calls return. */
module JavaText {
  import opened Seqs

  /** `s.startsWith(p)` */
  predicate StartsWith(s: string, p: string)
  {
    |p| <= |s| && s[..|p|] == p
  }

  /** `p` occurs in `s` starting at position `k`. */
  predicate OccursAt(s: string, p: string, k: nat)
  {
    k + |p| <= |s| && s[k..k + |p|] == p
  }

  /** `s.contains(p)` */
  predicate Contains(s: string, p: string)
  {
    exists k: nat :: k <= |s| && OccursAt(s, p, k)
  }

  /** The level tag the logger writes for errors; `line.contains("[ERR]")`
      (ExceptionMonitorService.java line 156 and 159). */
  const ErrTag: string := "[ERR]"

  predicate HasErrTag(line: string)
  {
    Contains(line, ErrTag)
  }

  /** Library calls that transform or parse text. */
  datatype Library = Library(
    // LocalDateTime.parse(text, "yyyy-MM-dd HH:mm:ss.SSS") as a point on the
    // local time line in nanoseconds; None where parse throws
    parseTimestamp: string -> Option<int>,
    // String.join(System.lineSeparator(), lines)
    joinLines: seq<string> -> string,
    // String.toLowerCase()
    toLower: string -> string,
    // String.trim()
    trim: string -> string,
    // String.split("\\R")
    splitLines: string -> seq<string>,
    // the chain of five replaceAll calls that erases the log prefix of the
    // first line, object addresses, hexadecimal literals, thread ids and long
    // numbers (ExceptionMonitorService.java lines 47-52)
    normalize: string -> string,
    // line.replaceAll("\\(.*\\)", "()")
    collapseArguments: string -> string)

  /** Regular-expression tests, each as `Matcher.matches()` or `Matcher.find()`
      is used at its call site. */
  datatype Patterns = Patterns(
    // EXCEPTION_LINE.matcher(line).matches(), line 43 and 141
    exceptionLine: string -> bool,
    // the four stack-trace continuation tests of lines 183-186, applied to the
    // line with its log prefix removed as on line 182
    stackOrCause: string -> bool,
    // javaExc.matcher(text).find(), line 216
    javaException: string -> bool,
    // stackFrame.matcher(text).find(), line 214; anchored at the start of the
    // whole block text, since the pattern is compiled without MULTILINE
    stackFrame: string -> bool,
    // causedBy.matcher(text).find(), line 215; anchored the same way
    causedBy: string -> bool,
    // codePattern.matcher(text).find(), line 211
    errorCode: string -> bool,
    // adapterDesc.matcher(text).find(), line 212
    adapterDescription: string -> bool,
    // adapterReason.matcher(text).find(), line 213
    adapterReason: string -> bool)
}
