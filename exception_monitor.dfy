/** `scanLastHourLogs`: the hourly scan that keeps the log lines of the last
    hour, cuts them into exception blocks, keeps the developer-relevant ones,
    removes recurring failures and mails what is left. Reading the log file
    and sending the mail are outside the model: the lines and the clock are
    parameters and the outcome says whether a mail would be sent, and with
    which blocks. */
module ExceptionMonitor {
  import opened Seqs
  import opened JavaText
  import opened TimeWindow
  import opened BlockScanner
  import opened DeveloperFilter
  import opened Signatures
  import opened Dedupe

  /** `log.monitor.enabled` and `log.monitor.context-lines`. */
  datatype MonitorConfig = MonitorConfig(enabled: bool, contextLines: int)

  /** How one scan ends: switched off, an empty log, an exception caught and
      logged at lines 101-103, nothing left to report, or a mail with the
      given blocks. */
  datatype Outcome =
    | Disabled
    | EmptyLog
    | Failed(error: ScanError)
    | NothingSuspicious
    | Alert(blocks: seq<Block>)

  /** The lines of the hour before `now`. */
  function Window(lib: Library, lines: seq<string>, now: int): seq<string>
  {
    Filter(lines, InWindowTest(lib, now - NanosPerHour, now))
  }

  /** Lines 94-96 as one function of the window. */
  function Suspicious(pt: Patterns, lib: Library, contextLines: int, window: seq<string>): Result<seq<Block>, ScanError>
  {
    match ExceptionBlocks(pt, contextLines, window)
    case Err(e) => Err(e)
    case Ok(blocks) => Ok(FirstPerKey(Filter(blocks, Relevant(pt, lib)), SignatureKey(lib)))
  }

  /** Reference definition of the scan's outcome. */
  function MonitorOutcome(cfg: MonitorConfig, pt: Patterns, lib: Library, lines: seq<string>, now: int): Outcome
  {
    if !cfg.enabled then Disabled
    else if lines == [] then EmptyLog
    else match Suspicious(pt, lib, cfg.contextLines, Window(lib, lines, now))
      case Err(e) => Failed(e)
      case Ok(s) => if s == [] then NothingSuspicious else Alert(s)
  }

  /** Lines 82-104 with `now` and the file's lines given. */
  method ScanLastHourLogs(cfg: MonitorConfig, pt: Patterns, lib: Library, lines: seq<string>, now: int)
    returns (outcome: Outcome)
    ensures outcome == MonitorOutcome(cfg, pt, lib, lines, now)
  {
    if !cfg.enabled {
      return Disabled;
    }
    if lines == [] {
      return EmptyLog;
    }
    var from := now - NanosPerHour;
    var window := FilterByLastHour(lib, lines, from, now);
    var found := FindExceptionBlocks(pt, cfg.contextLines, window);
    if found.Err? {
      // the exception is caught and logged
      return Failed(found.error);
    }
    var devOnly := FilterDeveloperExceptions(pt, lib, found.value);
    var suspicious := DedupeBlocks(lib, devOnly);
    if suspicious == [] {
      return NothingSuspicious;
    }
    // the mail is sent at line 99
    return Alert(suspicious);
  }

  /** The scan fails exactly when it is enabled, the buffer has no room and
      the last hour holds at least one line. */
  lemma MonitorFailsIff(cfg: MonitorConfig, pt: Patterns, lib: Library, lines: seq<string>, now: int)
    ensures MonitorOutcome(cfg, pt, lib, lines, now).Failed? <==>
              cfg.enabled && lines != [] && cfg.contextLines <= 0 && Window(lib, lines, now) != []
  {
    ExceptionBlocksWithin(pt, cfg.contextLines, Window(lib, lines, now));
  }

  /** A mail is sent exactly when the scan is enabled, the log is not empty and
      some exception block of the last hour is developer-relevant. */
  lemma MonitorAlertsIff(cfg: MonitorConfig, pt: Patterns, lib: Library, lines: seq<string>, now: int)
    ensures MonitorOutcome(cfg, pt, lib, lines, now).Alert? <==>
              cfg.enabled && lines != [] && ExceptionBlocks(pt, cfg.contextLines, Window(lib, lines, now)).Ok? &&
              exists k :: 0 <= k < |ExceptionBlocks(pt, cfg.contextLines, Window(lib, lines, now)).value| &&
                DeveloperRelevant(pt, lib, ExceptionBlocks(pt, cfg.contextLines, Window(lib, lines, now)).value[k])
  {
    var found := ExceptionBlocks(pt, cfg.contextLines, Window(lib, lines, now));
    if cfg.enabled && lines != [] && found.Ok? {
      var devOnly := Filter(found.value, Relevant(pt, lib));
      var key := SignatureKey(lib);
      FirstPerKeyKeys(devOnly, key);
      FirstPerKeySubseq(devOnly, key);
      if devOnly != [] {
        assert key(devOnly[0]) in KeysOf(FirstPerKey(devOnly, key), key);
        assert DeveloperRelevant(pt, lib, devOnly[0]) && devOnly[0] in found.value;
      }
    }
  }

  /** Every mailed block is a non-empty developer-relevant block whose lines
      all come from the last hour of the log, and no two mailed blocks share a
      signature. */
  lemma AlertBlocksAreRecentAndDistinct(cfg: MonitorConfig, pt: Patterns, lib: Library, lines: seq<string>, now: int)
    requires MonitorOutcome(cfg, pt, lib, lines, now).Alert?
    ensures DistinctKeys(MonitorOutcome(cfg, pt, lib, lines, now).blocks, SignatureKey(lib))
    ensures forall k :: 0 <= k < |MonitorOutcome(cfg, pt, lib, lines, now).blocks| ==>
              var b := MonitorOutcome(cfg, pt, lib, lines, now).blocks[k];
              b != [] && DeveloperRelevant(pt, lib, b) &&
              forall j :: 0 <= j < |b| ==> b[j] in lines && InWindow(lib, now - NanosPerHour, now, b[j])
  {
    AlertIsSuspicious(cfg, pt, lib, lines, now);
    SuspiciousBlocksAreRecentAndDistinct(pt, lib, cfg.contextLines, lines, now - NanosPerHour, now, SignatureKey(lib));
  }

  lemma AlertIsSuspicious(cfg: MonitorConfig, pt: Patterns, lib: Library, lines: seq<string>, now: int)
    requires MonitorOutcome(cfg, pt, lib, lines, now).Alert?
    ensures ExceptionBlocks(pt, cfg.contextLines, Window(lib, lines, now)).Ok?
    ensures MonitorOutcome(cfg, pt, lib, lines, now).blocks ==
            FirstPerKey(Filter(ExceptionBlocks(pt, cfg.contextLines, Window(lib, lines, now)).value, Relevant(pt, lib)), SignatureKey(lib))
  {
  }

  /** The deduplicated relevant blocks of the last hour, for any key. */
  lemma SuspiciousBlocksAreRecentAndDistinct<K>(pt: Patterns, lib: Library, contextLines: int, lines: seq<string>,
                                                from: int, to: int, key: Block -> K)
    requires ExceptionBlocks(pt, contextLines, Filter(lines, InWindowTest(lib, from, to))).Ok?
    ensures var s := FirstPerKey(Filter(ExceptionBlocks(pt, contextLines, Filter(lines, InWindowTest(lib, from, to))).value, Relevant(pt, lib)), key);
      && DistinctKeys(s, key)
      && forall k :: 0 <= k < |s| ==>
           s[k] != [] && DeveloperRelevant(pt, lib, s[k]) &&
           forall j :: 0 <= j < |s[k]| ==> s[k][j] in lines && InWindow(lib, from, to, s[k][j])
  {
    ExceptionBlocksWithin(pt, contextLines, Filter(lines, InWindowTest(lib, from, to)));
    DedupedFilterWithin(ExceptionBlocks(pt, contextLines, Filter(lines, InWindowTest(lib, from, to))).value,
                        Relevant(pt, lib), key, Filter(lines, InWindowTest(lib, from, to)), lines, InWindowTest(lib, from, to));
  }
}
