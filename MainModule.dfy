/**
 * `MainModule.Main` (MainModule.cs, lines 69-272) as one run: the command line is processed
 * against the six options, a failed parse shows the usage text, the options are resolved, the
 * event instant and the window are computed, the matching files are gathered, and every line of
 * every file is checked against the window.  Creating the output file is a parameter: it tells
 * whether `new StreamWriter(outputFilename)` succeeds.  An exception that escapes `Main` ends the
 * run, keeping what was written before it.
 */
module MainModule {
  import opened Wrappers
  import opened Calendar
  import opened CommandLineHandling
  import opened Options
  import opened FileCollectionMod
  import opened Window
  import opened Search
  import opened LogScan

  /** Lines 73-79: the six options, the event date and time flagged as required. */
  const MainArguments: map<string, bool> :=
    map[EventDate := true, EventTime := true, Directory := false,
        TimeWindow := false, OutputFilename := false, SearchDepth := false]

  /** Whether `new StreamWriter(path)` can create the file. */
  type Writable = string -> bool

  /**
   * How a run ends: the usage text (after the processor's message, if any), an exception that
   * escapes `Main` with the records written and the directories skipped before it, or a
   * completed collection over the matching files.
   */
  datatype Run =
    | Usage(message: Option<string>)
    | Aborted(error: Exception, records: seq<LogRecord>, unsearchable: seq<string>)
    | Completed(config: Config, window: SearchWindow, files: seq<string>, records: seq<LogRecord>, unsearchable: seq<string>)

  /** The text `DateTime.Parse` is given at line 121. */
  function EventText(config: Config): (r: string)
    ensures Parse(r).Some? ==>
              FormatDate(Parse(r).value) == config.eventDate && FormatTime(Parse(r).value) == config.eventTime
  {
    var r := config.eventDate + "T" + config.eventTime;
    if Parse(r).Some? then ParsedParts(config.eventDate, config.eventTime); r else r
  }

  /**
   * One run of `Main`, in the source's order.  The usage text is shown exactly when the
   * processor returns with ParseStatus "False".  A completed run had every option resolved, the
   * event text parsed to the end of the window computed from it, the files found by the
   * directory search, the output file created and every one of those files opened; what it
   * wrote are lines of those files, under their listed paths, whose timestamps lie inside the
   * window.  Records are written only once the output file exists, and a run that stops after
   * writing some stopped at a file it could not open.
   */
  function Outcome(args: seq<string>, listing: Listing, writable: Writable, reader: Reader): (run: Run)
    ensures run.Usage? <==>
              ProcessResult(args, MainArguments).Ok? && ProcessResult(args, MainArguments).value[ParseStatus] == "False"
    ensures run.Completed? ==>
              && ProcessResult(args, MainArguments).Ok?
              && Resolve(ProcessResult(args, MainArguments).value) == Ok(run.config)
              && Parse(EventText(run.config)) == Some(run.window.event)
              && ComputeWindow(run.window.event, run.config.timeWindow) == Ok(run.window)
              && Discover(run.config.directory, SearchPatternFor(run.config.searchDepth), listing) ==
                   Ok(Gathered(run.files, run.unsearchable))
              && ValidWindow(run.window)
              && writable(run.config.outputFilename)
              && (forall i :: 0 <= i < |run.files| ==> reader(run.files[i]).Some?)
              && ScanAll(LineEmitter(run.window), run.files, reader) == Emission(run.records, None)
    ensures run.Completed? ==>
              forall i :: 0 <= i < |run.records| ==>
                && InWindow(run.window, run.records[i].time)
                && exists k :: 0 <= k < |run.files| && run.files[k] == run.records[i].path &&
                                 reader(run.files[k]).Some? && run.records[i].line in reader(run.files[k]).value
    ensures run.Aborted? && run.records != [] ==> run.error.Unreadable?
  {
    match ProcessResult(args, MainArguments)
    case Err(e) => Aborted(e, [], [])
    case Ok(processArgs) =>
      if processArgs[ParseStatus] == "False" then
        Usage(if ParseMessage in processArgs then Some(processArgs[ParseMessage]) else None)
      else
        match Resolve(processArgs)
        case Err(e) => Aborted(e, [], [])
        case Ok(config) =>
          match Parse(EventText(config))
          case None => Aborted(BadFormat(EventText(config)), [], [])
          case Some(eventDateTime) =>
            match ComputeWindow(eventDateTime, config.timeWindow)
            case Err(e) => Aborted(e, [], [])
            case Ok(w) =>
              match Discover(config.directory, SearchPatternFor(config.searchDepth), listing)
              case Err(e) => Aborted(e, [], [])
              case Ok(g) =>
                if !writable(config.outputFilename) then Aborted(Unwritable(config.outputFilename), [], g.unsearchable)
                else
                  var emission := ScanAll(LineEmitter(w), g.files, reader);
                  ScanAllCompletesIff(LineEmitter(w), g.files, reader);
                  WindowScanSound(w, g.files, reader);
                  match emission.failed
                  case Some(path) => Aborted(Unreadable(path), emission.records, g.unsearchable)
                  case None => Completed(config, w, g.files, emission.records, g.unsearchable)
  }

  /**
   * The converse of `Outcome`'s completion contract: when every step succeeds (the options are
   * resolved, the event text parses, the window is computed, the search succeeds, the output file
   * can be created and every file found can be opened), the run completes, over exactly the files
   * found, with what the scan of those files emitted.
   */
  lemma CompletesWhenEveryStepSucceeds(args: seq<string>, listing: Listing, writable: Writable, reader: Reader,
                                       config: Config, t: int, w: SearchWindow, g: Gathered)
    requires ProcessResult(args, MainArguments).Ok?
    requires ProcessResult(args, MainArguments).value[ParseStatus] != "False"
    requires Resolve(ProcessResult(args, MainArguments).value) == Ok(config)
    requires Parse(EventText(config)) == Some(t)
    requires ComputeWindow(t, config.timeWindow) == Ok(w)
    requires Discover(config.directory, SearchPatternFor(config.searchDepth), listing) == Ok(g)
    requires writable(config.outputFilename)
    requires forall i :: 0 <= i < |g.files| ==> reader(g.files[i]).Some?
    ensures Outcome(args, listing, writable, reader) ==
              Completed(config, w, g.files, ScanAll(LineEmitter(w), g.files, reader).records, g.unsearchable)
  {
    ScanAllCompletesIff(LineEmitter(w), g.files, reader);
  }

  /** `Main`, with the dictionary, the file list and the written records built step by step. */
  method CollectLogData(args: seq<string>, listing: Listing, writable: Writable, reader: Reader) returns (run: Run)
    ensures run == Outcome(args, listing, writable, reader)
  {
    var cmdArguments: map<string, bool> := map[];
    cmdArguments := cmdArguments[EventDate := true];
    cmdArguments := cmdArguments[EventTime := true];
    cmdArguments := cmdArguments[Directory := false];
    cmdArguments := cmdArguments[TimeWindow := false];
    cmdArguments := cmdArguments[OutputFilename := false];
    cmdArguments := cmdArguments[SearchDepth := false];
    assert cmdArguments == MainArguments;

    var processed := Process(args, cmdArguments);
    if processed.Err? {
      return Aborted(processed.error, [], []);
    }
    var processArgs := processed.value;
    if processArgs[ParseStatus] == "False" {
      var message := if ParseMessage in processArgs then Some(processArgs[ParseMessage]) else None;
      return Usage(message);
    }

    var resolved := ResolveOptions(processArgs);
    if resolved.Err? {
      return Aborted(resolved.error, [], []);
    }
    var config := resolved.value;

    var eventText := config.eventDate + "T" + config.eventTime;
    var eventDateTime := Parse(eventText);
    if eventDateTime.None? {
      return Aborted(BadFormat(eventText), [], []);
    }

    var window := ComputeWindow(eventDateTime.value, config.timeWindow);
    if window.Err? {
      return Aborted(window.error, [], []);
    }
    var w := window.value;

    var searchPattern := SearchPatternFor(config.searchDepth);
    var found := FindMatchingFiles(config.directory, searchPattern, listing);
    if found.Err? {
      return Aborted(found.error, [], []);
    }
    var matchingFiles := found.value.files;

    if !writable(config.outputFilename) {
      return Aborted(Unwritable(config.outputFilename), [], found.value.unsearchable);
    }
    var records, failed := ScanFiles(w, matchingFiles, reader);
    ScanAllCompletesIff(LineEmitter(w), matchingFiles, reader);
    if failed.Some? {
      return Aborted(Unreadable(failed.value), records, found.value.unsearchable);
    }
    run := Completed(config, w, matchingFiles, records, found.value.unsearchable);
  }

  // ----- Properties of a run -----

  /** Two of the six options are required. */
  lemma MainRequiredCount()
    ensures RequiredKeys(MainArguments) == {EventDate, EventTime}
    ensures RequiredCount(MainArguments) == 2
  {
    assert forall k :: k in RequiredKeys(MainArguments) <==> k == EventDate || k == EventTime;
    assert RequiredKeys(MainArguments) == {EventDate, EventTime};
    assert EventDate != EventTime by { assert EventDate[7] != EventTime[7]; }
  }

  /** With fewer than two arguments, the run only shows the usage text after the missing-arguments message. */
  lemma TooFewArguments(args: seq<string>, listing: Listing, writable: Writable, reader: Reader)
    requires |args| < 2
    ensures Outcome(args, listing, writable, reader) == Usage(Some(MissingRequiredMessage))
  {
    MainRequiredCount();
  }

  /** The option names and the processor's status key differ from each other. */
  lemma NamesDiffer()
    ensures Directory != TimeWindow
    ensures ParseStatus !in {Directory, TimeWindow}
    ensures EventDate !in {Directory, TimeWindow, ParseStatus}
    ensures EventTime !in {Directory, TimeWindow, ParseStatus}
    ensures OutputFilename !in {Directory, TimeWindow, ParseStatus}
  {
    assert Directory[2] != TimeWindow[2];
    assert ParseStatus[0] != Directory[0] && ParseStatus[0] != TimeWindow[0];
    assert EventDate[2] != Directory[2] && EventDate[2] != TimeWindow[2] && EventDate[0] != ParseStatus[0];
    assert EventTime[2] != Directory[2] && EventTime[2] != TimeWindow[2] && EventTime[0] != ParseStatus[0];
    assert OutputFilename[2] != Directory[2] && OutputFilename[2] != TimeWindow[2] && OutputFilename[0] != ParseStatus[0];
  }

  /** Two supported options other than the event date and time are processed without complaint. */
  lemma TwoOptionsProcessed(directory: string, timeWindow: string)
    requires '=' !in directory && '=' !in timeWindow
    ensures ProcessResult([Directory + "=" + directory, TimeWindow + "=" + timeWindow], MainArguments) ==
            Ok(map[Directory := directory, TimeWindow := timeWindow, ParseStatus := "True"])
  {
    TwoOptionsScanned(directory, timeWindow);
    MainRequiredCount();
    NamesDiffer();
  }

  /** The loop over those two arguments stores both values and keeps the arguments valid. */
  lemma TwoOptionsScanned(directory: string, timeWindow: string)
    requires '=' !in directory && '=' !in timeWindow
    ensures Scan([Directory + "=" + directory, TimeWindow + "=" + timeWindow], MainArguments) ==
            Ok(Progress(map[Directory := directory, TimeWindow := timeWindow], true))
  {
    var a1, a2 := Directory + "=" + directory, TimeWindow + "=" + timeWindow;
    var args := [a1, a2];
    assert a1 == Directory + "=" + directory + [];
    assert a2 == TimeWindow + "=" + timeWindow + [];
    ArgumentParts(Directory, directory, []);
    ArgumentParts(TimeWindow, timeWindow, []);
    NamesDiffer();
    assert args[..1] == [a1] && [a1][..0] == [];
    var p1 := Progress(map[Directory := directory], true);
    assert Step(Progress(map[], true), a1, MainArguments) == Ok(p1);
    assert Scan([a1], MainArguments) == Ok(p1);
    assert Step(p1, a2, MainArguments) == Ok(Progress(map[Directory := directory, TimeWindow := timeWindow], true));
  }

  /**
   * The count check is by number only: two supported options other than the event date and
   * time pass it, and the run then throws at the missing event date.
   */
  lemma CountByNumberOnly(directory: string, timeWindow: string, listing: Listing, writable: Writable, reader: Reader)
    requires '=' !in directory && '=' !in timeWindow
    ensures Outcome([Directory + "=" + directory, TimeWindow + "=" + timeWindow], listing, writable, reader) ==
            Aborted(KeyNotFound(EventDate), [], [])
  {
    TwoOptionsProcessed(directory, timeWindow);
    TwoOptionsUnresolved(directory, timeWindow);
  }

  /** Without the event date and the output filename, resolving the options throws at the event date. */
  lemma TwoOptionsUnresolved(directory: string, timeWindow: string)
    ensures Resolve(map[Directory := directory, TimeWindow := timeWindow, ParseStatus := "True"]) ==
            Err(KeyNotFound(EventDate))
  {
    NamesDiffer();
  }

  /**
   * An unsupported argument among otherwise admissible ones shows the usage text after the
   * message naming it.
   */
  lemma UnsupportedShowsUsage(args: seq<string>, i: nat, listing: Listing, writable: Writable, reader: Reader)
    requires |args| >= 2
    requires WellFormed(args, MainArguments) && ParseStatus !in KeysOf(args)
    requires i < |args| && Key(args[i]) !in MainArguments
    ensures Outcome(args, listing, writable, reader) == Usage(Some(UnsupportedMessage(Key(args[i]))))
  {
    MainRequiredCount();
    ProcessReturnsIff(args, MainArguments);
    ProcessReturns(args, MainArguments);
  }
}
