/**
 * The options `Main` reads from the processed command line (MainModule.cs, lines 97-118):
 * `--directory`, `--timeWindow` and `--searchDepth` get their defaults when absent, the output
 * filename is generated from the other options when it is not given, and the six values are
 * then read out of the dictionary, whose indexer throws on a missing key.
 */
module Options {
  import opened Wrappers
  import opened Text

  const EventDate := "--eventDate"
  const EventTime := "--eventTime"
  const Directory := "--directory"
  const TimeWindow := "--timeWindow"
  const OutputFilename := "--outputFilename"
  const SearchDepth := "--searchDepth"

  const DefaultDirectory := "."
  const DefaultTimeWindow := "1[h]"
  const DefaultSearchDepth := "shallow"

  /** The six option values `Main` works with. */
  datatype Config = Config(
    eventDate: string,
    eventTime: string,
    directory: string,
    timeWindow: string,
    outputFilename: string,
    searchDepth: string)

  /**
   * The generated output filename: "CLD_", the date without '-', "T", the time without ':',
   * "_", the window without '[' and ']', "_", the depth and ".csv".
   */
  function GeneratedFilename(eventDate: string, eventTime: string, timeWindow: string, searchDepth: string): (r: string)
    ensures |r| >= 10 && r[..4] == "CLD_" && r[|r| - 4..] == ".csv"
  {
    "CLD_" + RemoveChar(eventDate, '-') + "T" + RemoveChar(eventTime, ':') + "_" +
    RemoveChar(RemoveChar(timeWindow, '['), ']') + "_" + searchDepth + ".csv"
  }

  /** The value of `key`, or `default` when the key is absent. */
  function ValueOr(d: map<string, string>, key: string, default: string): string
  {
    if key in d then d[key] else default
  }

  /** `if (!processArgs.ContainsKey(key)) processArgs.Add(key, value)`. */
  function WithDefault(d: map<string, string>, key: string, value: string): (r: map<string, string>)
    ensures key in r && r[key] == ValueOr(d, key, value)
    ensures forall k :: k != key ==> (k in r <==> k in d)
    ensures forall k :: k != key && k in d ==> r[k] == d[k]
  {
    if key in d then d else d[key := value]
  }

  /** The dictionary after lines 97-110, or the KeyNotFoundException of the filename generation. */
  function Defaulted(d: map<string, string>): (r: Result<map<string, string>>)
    ensures r.Err? <==> OutputFilename !in d && (EventDate !in d || EventTime !in d)
    ensures r.Err? ==> r.error == KeyNotFound(if EventDate !in d then EventDate else EventTime)
    ensures r.Ok? ==> forall k :: k in d ==> k in r.value && r.value[k] == d[k]
    ensures r.Ok? ==> Directory in r.value && TimeWindow in r.value && SearchDepth in r.value && OutputFilename in r.value
  {
    var d' := WithDefault(WithDefault(WithDefault(d, Directory, DefaultDirectory),
                                      TimeWindow, DefaultTimeWindow),
                          SearchDepth, DefaultSearchDepth);
    if OutputFilename in d' then Ok(d')
    else if EventDate !in d' then Err(KeyNotFound(EventDate))
    else if EventTime !in d' then Err(KeyNotFound(EventTime))
    else Ok(d'[OutputFilename := GeneratedFilename(d'[EventDate], d'[EventTime], d'[TimeWindow], d'[SearchDepth])])
  }

  /** Lines 113-118: the six values read in the source's order, the first missing one throwing. */
  function Unpack(d: map<string, string>): (r: Result<Config>)
    ensures r.Ok? <==> {EventDate, EventTime, Directory, TimeWindow, OutputFilename, SearchDepth} <= d.Keys
    ensures r.Err? ==> r.error.KeyNotFound? && r.error.key !in d
    ensures r.Ok? ==> r.value == Config(d[EventDate], d[EventTime], d[Directory], d[TimeWindow], d[OutputFilename], d[SearchDepth])
  {
    if EventTime !in d then Err(KeyNotFound(EventTime))
    else if EventDate !in d then Err(KeyNotFound(EventDate))
    else if Directory !in d then Err(KeyNotFound(Directory))
    else if TimeWindow !in d then Err(KeyNotFound(TimeWindow))
    else if OutputFilename !in d then Err(KeyNotFound(OutputFilename))
    else if SearchDepth !in d then Err(KeyNotFound(SearchDepth))
    else Ok(Config(d[EventDate], d[EventTime], d[Directory], d[TimeWindow], d[OutputFilename], d[SearchDepth]))
  }

  /**
   * The options `Main` goes on with.  Only the event date and time are needed; the defaults fill
   * in exactly the absent options and leave given ones as they are; a missing event date or time
   * throws, the event date first when the filename has to be generated and the event time first
   * otherwise.
   */
  function Resolve(processArgs: map<string, string>): (r: Result<Config>)
    ensures r.Ok? <==> EventDate in processArgs && EventTime in processArgs
    ensures r.Err? ==> r.error == KeyNotFound(
              if OutputFilename !in processArgs && EventDate !in processArgs then EventDate
              else if EventTime !in processArgs then EventTime
              else EventDate)
    ensures r.Ok? ==>
              && r.value.eventDate == processArgs[EventDate]
              && r.value.eventTime == processArgs[EventTime]
              && r.value.directory == ValueOr(processArgs, Directory, DefaultDirectory)
              && r.value.timeWindow == ValueOr(processArgs, TimeWindow, DefaultTimeWindow)
              && r.value.searchDepth == ValueOr(processArgs, SearchDepth, DefaultSearchDepth)
              && r.value.outputFilename == ValueOr(processArgs, OutputFilename,
                   GeneratedFilename(r.value.eventDate, r.value.eventTime, r.value.timeWindow, r.value.searchDepth))
  {
    match Defaulted(processArgs)
    case Err(e) => Err(e)
    case Ok(d) => Unpack(d)
  }

  /** Lines 97-118 of `Main`, with the dictionary updated in place. */
  method ResolveOptions(processArgs: map<string, string>) returns (r: Result<Config>)
    ensures r == Resolve(processArgs)
  {
    var args := processArgs;
    if Directory !in args {
      args := args[Directory := DefaultDirectory];
    }
    if TimeWindow !in args {
      args := args[TimeWindow := DefaultTimeWindow];
    }
    if SearchDepth !in args {
      args := args[SearchDepth := DefaultSearchDepth];
    }
    if OutputFilename !in args {
      if EventDate !in args {
        return Err(KeyNotFound(EventDate));
      }
      var generatedFilename := "CLD_" + RemoveChar(args[EventDate], '-') + "T";
      if EventTime !in args {
        return Err(KeyNotFound(EventTime));
      }
      generatedFilename := generatedFilename + RemoveChar(args[EventTime], ':') + "_";
      generatedFilename := generatedFilename + RemoveChar(RemoveChar(args[TimeWindow], '['), ']') + "_";
      generatedFilename := generatedFilename + args[SearchDepth] + ".csv";
      args := args[OutputFilename := generatedFilename];
    }
    if EventTime !in args {
      return Err(KeyNotFound(EventTime));
    }
    var eventTime := args[EventTime];
    if EventDate !in args {
      return Err(KeyNotFound(EventDate));
    }
    var eventDate := args[EventDate];
    var dirToSearch := args[Directory];
    var timeWindow := args[TimeWindow];
    var outputFilename := args[OutputFilename];
    var searchDepth := args[SearchDepth];
    r := Ok(Config(eventDate, eventTime, dirToSearch, timeWindow, outputFilename, searchDepth));
  }

  /** Deleting the separators of `x + [c] + b` when `b` has none. */
  lemma RemoveLastSeparator(x: string, c: char, b: string)
    requires c !in b
    ensures RemoveChar(x + [c] + b, c) == RemoveChar(x, c) + b
  {
    RemoveCharAppend(x + [c], b, c);
    RemoveCharAppend(x, [c], c);
  }

  /** Deleting `c` from three `c`-separated pieces that have none of their own. */
  lemma RemoveTwoSeparators(a: string, b: string, d: string, c: char)
    requires c !in a && c !in b && c !in d
    ensures RemoveChar(a + [c] + b + [c] + d, c) == a + b + d
  {
    RemoveLastSeparator(a + [c] + b, c, d);
    RemoveLastSeparator(a, c, b);
  }

  /** Deleting '[' and then ']' from `n[u]`. */
  lemma WindowWithoutBrackets(n: string, u: string)
    requires '[' !in n && ']' !in n && '[' !in u && ']' !in u
    ensures RemoveChar(RemoveChar(n + "[" + u + "]", '['), ']') == n + u
  {
    assert n + "[" + u + "]" == n + ['['] + (u + "]");
    assert '[' !in u + "]";
    RemoveLastSeparator(n, '[', u + "]");
    assert n + (u + "]") == (n + u) + [']'] + [];
    RemoveLastSeparator(n + u, ']', []);
  }

  /**
   * The generated filename of a date `y-mo-d`, a time `h:mi:s` and a window `n[u]`: the
   * separators are dropped and every piece is kept in order.
   */
  lemma GeneratedFilenameOfParts(y: string, mo: string, d: string, h: string, mi: string, s: string,
                                 n: string, u: string, searchDepth: string)
    requires '-' !in y && '-' !in mo && '-' !in d
    requires ':' !in h && ':' !in mi && ':' !in s
    requires '[' !in n && ']' !in n && '[' !in u && ']' !in u
    ensures GeneratedFilename(y + "-" + mo + "-" + d, h + ":" + mi + ":" + s, n + "[" + u + "]", searchDepth) ==
            "CLD_" + (y + mo + d) + "T" + (h + mi + s) + "_" + (n + u) + "_" + searchDepth + ".csv"
  {
    var date, time := y + "-" + mo + "-" + d, h + ":" + mi + ":" + s;
    assert date == y + ['-'] + mo + ['-'] + d;
    assert time == h + [':'] + mi + [':'] + s;
    RemoveTwoSeparators(y, mo, d, '-');
    RemoveTwoSeparators(h, mi, s, ':');
    WindowWithoutBrackets(n, u);
  }

  /** A run with only the event date and time given searches the current directory shallowly over 1[h]. */
  lemma AllDefaults(eventDate: string, eventTime: string, rest: map<string, string>)
    requires rest.Keys !! {Directory, TimeWindow, SearchDepth, OutputFilename, EventDate, EventTime}
    ensures Resolve(rest[EventDate := eventDate][EventTime := eventTime]) ==
            Ok(Config(eventDate, eventTime, ".", "1[h]",
                      GeneratedFilename(eventDate, eventTime, "1[h]", "shallow"), "shallow"))
  {
  }
}
