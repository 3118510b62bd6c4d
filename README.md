# Exception monitor scan, modelled in Dafny

This project models the hourly exception scan of the log-monitoring service
(`ExceptionMonitorService`). Every hour the service reads the application
log and keeps the lines stamped within the last hour. It cuts those lines
into exception blocks with a small state machine and a rolling buffer of
recent lines. It then drops the blocks that are business errors reported by
the adapter rather than defects in the code. Blocks that share a normalised
signature are collapsed to the first one, and whatever is left is mailed.

The model follows the Java code stage by stage, in the same imperative style:

- `TimeWindow.FilterByLastHour` is the line filter.
- `BlockScanner.FindExceptionBlocks` is the scanner loop. Its two seeding
  policies are the methods `AnchorAtErrRun` and `PrependContext`.
- `DeveloperFilter.FilterDeveloperExceptions` is the classifier.
- `Signatures.SignatureOf` builds the fingerprint line by line, as the
  `StringBuilder` loop does.
- `Dedupe.DedupeBlocks` fills a `LinkedHashMap` with `putIfAbsent`. The map
  is modelled as its key insertion order plus its table.
- `ExceptionMonitor.ScanLastHourLogs` composes the stages in the order of
  lines 93-96.

Each method is proved equal to a specification function on values:
`Filter`, `ExceptionBlocks` (a fold of `Step` over the lines), `Signature`,
`FirstPerKey` and `MonitorOutcome`. The lemmas state the properties of those
functions.

The Java library calls whose meaning lives in the regex engine, in `java.time`
or in the string library are parameters of the model. They are gathered in two
records, `JavaText.Library` and `JavaText.Patterns`, so every property holds
for whatever those calls return. String containment and `startsWith` are
written out, which makes the `[ERR]` tag and the signature line tests
concrete. A timestamp is a point on the nanosecond local time line, and one
hour is 3,600,000,000,000 of them. Blocks are sequences of lines. The
`String.join` that turns a block into text is applied only where the code
looks at that text: in the developer filter and in the signature.

Two consequences of the scanner's code shape what is proved about blocks:

- The line that ends a block is the block's last line (lines 191-193).
  `BlockScanner.ScenarioErrFrameInfo` shows this for an `[ERR]` exception
  line, a stack frame and a plain line: one block holding all three lines.
- A seed taken from the rolling buffer can repeat lines that an earlier block
  already holds, so blocks do not partition the input. Only the in-order
  subsequence property is proved (`BlockScanner.BlocksAreSubsequences`).

## Model

All source paths are under `src/main/java/stream/api/adapter/log/service/`,
and every row cites `ExceptionMonitorService.java`.

| member | source | states |
|---|---|---|
| TimeWindow.FilterByLastHour | src/main/java/stream/api/adapter/log/service/ExceptionMonitorService.java:111-125 | The output is the in-order filter of the lines by "at least 23 characters, the 23-character prefix parses, and `from <= ts < to`". A line is in the output iff it is an input line passing that test. The output is a subsequence of the input. Short and unparsable lines are skipped without error. |
| TimeWindow.WindowBoundaries | src/main/java/stream/api/adapter/log/service/ExceptionMonitorService.java:114-118 | A line stamped exactly `from` is kept. A line stamped exactly `to` is dropped. A line too short to carry a stamp is dropped. |
| BlockScanner.FindExceptionBlocks | src/main/java/stream/api/adapter/log/service/ExceptionMonitorService.java:127-207 | The loop returns exactly `ExceptionBlocks`. It fails with `NoSuchElement` iff `contextLines <= 0` and there is a line to read. Otherwise every block is non-empty and is an in-order subsequence of the input. |
| BlockScanner.ExceptionBlocksWithin | src/main/java/stream/api/adapter/log/service/ExceptionMonitorService.java:131-139 | The same failure condition and the same block shape, stated on the specification function. |
| BlockScanner.AnchorAtErrRun | src/main/java/stream/api/adapter/log/service/ExceptionMonitorService.java:156-165 | The backward walk and the copy loop produce exactly the `[ERR]` seed: the buffer from the start of the tagged run that ends at the start line. |
| BlockScanner.PrependContext | src/main/java/stream/api/adapter/log/service/ExceptionMonitorService.java:166-177 | The copy loop and the final check produce exactly the context seed. |
| BlockScanner.BufferIsRecentLines | src/main/java/stream/api/adapter/log/service/ExceptionMonitorService.java:131-139 | After any prefix of the input, the rolling buffer is the most recent `min(n, contextLines)` lines in input order. It is non-empty and ends with the current line. |
| BlockScanner.PendingIffInBlock | src/main/java/stream/api/adapter/log/service/ExceptionMonitorService.java:142-200 | A block is open iff lines are pending, and every finished block is non-empty. So the flush at lines 148-151 never emits anything. |
| BlockScanner.ErrRunStartIsRunStart | src/main/java/stream/api/adapter/log/service/ExceptionMonitorService.java:157-161 | Every line from the run start up to the start line carries `[ERR]`. The line before the run start, when there is one, does not. |
| BlockScanner.ErrSeedIsMaximalRun | src/main/java/stream/api/adapter/log/service/ExceptionMonitorService.java:156-165 | The `[ERR]` seed is a non-empty suffix of the buffer. Every line of it is tagged, and the line just before it is not: it is the maximal tagged run ending at the start line. |
| BlockScanner.ContextSeedShape | src/main/java/stream/api/adapter/log/service/ExceptionMonitorService.java:166-177 | The context seed is the buffer lines that differ from the start line, in order, then the start line exactly once. |
| BlockScanner.ScanTransitions | src/main/java/stream/api/adapter/log/service/ExceptionMonitorService.java:141-201 | This is the state machine for one more line. In a block, start and stack/cause lines are appended and the block stays open. Any other line is appended, the block is finished and the scan goes idle. Outside a block, a start line opens a block with the `[ERR]` or context seed and finishes nothing. Any other line leaves the blocks alone. |
| BlockScanner.FinishedBlocksEndWithTerminator | src/main/java/stream/api/adapter/log/service/ExceptionMonitorService.java:187-199 | Every finished block is non-empty. Its last line is neither a start line nor a stack/cause line: it is the line that closed it. |
| BlockScanner.BlocksAreSubsequences | src/main/java/stream/api/adapter/log/service/ExceptionMonitorService.java:134-205 | The pending block and every finished block are in-order subsequences of the input. |
| BlockScanner.ScenarioErrFrameInfo | src/main/java/stream/api/adapter/log/service/ExceptionMonitorService.java:141-205 | Take an `[ERR]` exception line, a stack line and a plain line, with two context lines. The scan gives exactly one block holding all three lines. |
| DeveloperFilter.FilterDeveloperExceptions | src/main/java/stream/api/adapter/log/service/ExceptionMonitorService.java:209-237 | The output is the in-order filter of the blocks by `javaExc(lower) or stackFrame or causedBy`. The adapter test never keeps or drops anything on its own. A block is kept iff it passes, and the output is a subsequence of the input. |
| DeveloperFilter.AdapterOnlyBlocksDropped | src/main/java/stream/api/adapter/log/service/ExceptionMonitorService.java:219-228 | A block that looks like an adapter error and shows no Java failure is never in the output. |
| DeveloperFilter.FilterDeveloperIdempotent | src/main/java/stream/api/adapter/log/service/ExceptionMonitorService.java:217-236 | Applying the filter twice gives the same result as applying it once. |
| Signatures.SignatureOf | src/main/java/stream/api/adapter/log/service/ExceptionMonitorService.java:45-69 | The builder loop returns exactly `Signature`. That is the retained lines of the normalised text, in order, each followed by a newline, then trimmed. Frame lines have their arguments collapsed and failure-naming lines are lower-cased. If nothing is retained, the result is the lower-cased normalised text. |
| Signatures.BuilderEmptyIffNothingRetained | src/main/java/stream/api/adapter/log/service/ExceptionMonitorService.java:56-67 | The builder is empty iff no line is a `"\tat "` frame line or names `Exception` or `Error`. So the fallback is taken exactly for such blocks. |
| Signatures.SameRetainedLinesSameSignature | src/main/java/stream/api/adapter/log/service/ExceptionMonitorService.java:53-68 | Two blocks that retain the same non-empty lines share a signature, however their other lines differ. |
| Dedupe.DedupeBlocks | src/main/java/stream/api/adapter/log/service/ExceptionMonitorService.java:71-78 | The `putIfAbsent` loop returns exactly `FirstPerKey` of the blocks under the signature. Its signatures are pairwise distinct. It covers every input signature, and it is a subsequence of the input. |
| Dedupe.PutIfAbsentStep | src/main/java/stream/api/adapter/log/service/ExceptionMonitorService.java:73-76 | After each `putIfAbsent`, the map's keys are the signatures seen so far, in first-seen order. Each key holds the first block with that signature. |
| Dedupe.FirstPerKeyKeys | src/main/java/stream/api/adapter/log/service/ExceptionMonitorService.java:71-78 | Deduplication keeps every key that occurs in the input. |
| Dedupe.FirstPerKeyDistinct | src/main/java/stream/api/adapter/log/service/ExceptionMonitorService.java:71-78 | No two output elements share a key. |
| Dedupe.FirstPerKeySubseq | src/main/java/stream/api/adapter/log/service/ExceptionMonitorService.java:71-78 | The output is an in-order subsequence of the input and is no longer than it. |
| Dedupe.FirstPerKeyEarliest | src/main/java/stream/api/adapter/log/service/ExceptionMonitorService.java:75 | The element kept for each key is the earliest input element with that key. |
| Dedupe.FirstPerKeyOfDistinct | src/main/java/stream/api/adapter/log/service/ExceptionMonitorService.java:71-78 | An input whose keys are already distinct comes back unchanged. |
| Dedupe.FirstPerKeyIdempotent | src/main/java/stream/api/adapter/log/service/ExceptionMonitorService.java:71-78 | `dedupe(dedupe(x)) == dedupe(x)`. |
| Dedupe.DedupedFilterWithin | src/main/java/stream/api/adapter/log/service/ExceptionMonitorService.java:94-96 | Filtering and then deduplicating blocks drawn from the window gives distinct-keyed, accepted, non-empty blocks. Every line of them comes from the window. |
| ExceptionMonitor.ScanLastHourLogs | src/main/java/stream/api/adapter/log/service/ExceptionMonitorService.java:82-104 | The scan returns exactly `MonitorOutcome`. It is disabled, the log is empty, it fails with the caught exception, it finds nothing, or it mails the deduplicated developer blocks of the hour before `now`. |
| ExceptionMonitor.MonitorFailsIff | src/main/java/stream/api/adapter/log/service/ExceptionMonitorService.java:86-103 | The scan fails iff it is enabled, `contextLines <= 0` and the last hour holds at least one line. |
| ExceptionMonitor.MonitorAlertsIff | src/main/java/stream/api/adapter/log/service/ExceptionMonitorService.java:93-100 | A mail is sent iff the scan is enabled, the log is not empty, the scanner succeeds and some block of the last hour is developer-relevant. |
| ExceptionMonitor.AlertBlocksAreRecentAndDistinct | src/main/java/stream/api/adapter/log/service/ExceptionMonitorService.java:93-99 | Every mailed block is non-empty and developer-relevant. Every line of it is a log line stamped within the last hour. No two mailed blocks share a signature. |

## Left out

- Reading the log file, the `@Scheduled` trigger, `LocalDateTime.now()` and
  sending mail are I/O, clock and delivery. The lines and `now` are
  parameters, and a mail is the `Alert` outcome carrying the blocks it would
  contain.
- The recipient handling and the mail body of `sendEmail` are left out, and
  so is its blank-recipient skip. These are delivery details with no effect
  on which blocks are reported.
- An `IOException` while reading the file is left out: the file's lines are
  given.
- `printNowForTesting` is left out. It runs the same four stages over the
  last twenty hours and prints the result.
- The `java.util.regex` patterns, `LocalDateTime.parse`, `String.join`,
  `toLowerCase`, `trim`, `split("\\R")`, the `replaceAll` normalisation chain
  and the argument-collapsing `replaceAll` are abstract functions. Their
  exact matching and parsing rules are not modelled.
- `Signatures.SameRetainedLinesSameSignature`: this is weaker than "blocks
  that differ only in timestamps, thread ids, addresses and long numbers
  share a signature". That claim depends on what the abstract
  normalisation erases. The model proves only that the signature depends on
  nothing but the retained lines of the normalised text.
- Java strings are UTF-16 code-unit sequences, while the model's strings are
  sequences of Dafny characters. Length 23 and the `substring` prefix agree
  for the ASCII timestamp prefix.
- `LogReaderService`, `LogController`, `LogSaverService`, the mapper, the
  repository, the entities, the DTOs, `LogViewApplication` and
  `OpenBrowserOnStartup` are not part of this model. They are Spring, JPA,
  HTTP and desktop glue.
- Transaction correlation, paged token search and adapter-error parsing are
  not part of this model. Their code is not among the source files.
