# CollectLogData, modelled in Dafny

CollectLogData is a command-line tool. It takes an event date and time, and it gathers the log
lines that were written in a window of time ending at that event. The tool:

- processes `--key=value` arguments against a table of supported options;
- fills in defaults and an output filename for the options left out;
- computes the window start from a `n[u]` time window (minutes, or hours for `h`);
- lists the log files of one or more directories that match a shallow or deep set of patterns;
- reads every line of every file;
- writes `yyyy-MM-dd|HH:mm:ss|path|line` for each line whose embedded timestamp lies in the window.

## Modules

The Dafny modules follow the program's three source files:

- `CommandLineHandling` is `Processor.Process`.
  - The dictionary is a `map`, filled in place.
  - An exception thrown by `Dictionary.Add` or by `tempArg[1]` is an `Err` result.
  - The method is proved against the functions `Step`, `Scan` and `ProcessResult`.
- `FileCollectionMod` is the class `FileCollection`.
  - It has two mutable fields.
  - `BuildFileCollection` runs nested loops over an abstract directory listing.
- `Options`, `Window`, `Search`, `LogScan` and `MainModule` cover the logic of `Main`:
  - `Options`: option defaults and the generated filename.
  - `Window`: the window and the anchor count.
  - `Search`: the choice of pattern and the aggregation over several directories.
  - `LogScan`: the per-line extraction, normalisation, parsing and window test.
  - `MainModule`: the whole run.

Two supporting modules stand for .NET library behaviour:

- `Text`: `Split`, `IndexOf`, `Replace` and `ToLower`, on `seq<char>` with ordinal semantics.
- `Calendar`: `DateTime`.
  - A `DateTime` is a whole number of seconds since 0001-01-01T00:00:00.
  - The conversion to and from civil dates is proved in both directions.
  - `DateTime.Parse` is a strict parser of `yyyy-MM-ddTHH:mm:ss`.

## Parameters for the outside world

The things `Main` does to the outside world are parameters:

- `Listing`: `Directory.EnumerateFiles(directory, pattern)`. It gives the files in the order the file system reports them, or `None` when it throws.
- `Reader`: opening a file, or its `.roCopy` copy, and reading its lines to the end. It gives `None` when the open that is read from throws (MainModule.cs:209). That covers `File.Copy` throwing after a failed test open, and the second `File.OpenText` throwing even after the test open succeeded. A `ReadLine` that throws part way through a file is not representable; see "## Left out".
- `Writable`: whether `new StreamWriter(outputFilename)` succeeds.

## How a run ends

A run of `Main` (`MainModule.Outcome`) ends in one of three ways:

- `Usage`: the usage text, after the processor's message if there is one.
- `Aborted`: an exception escaped `Main`. It keeps the records already written and the directories already skipped.
- `Completed`: the collection finished.

## Behaviour worth knowing

The model follows the code as written, including these behaviours:

- **Patterns with empty entries.** The pattern list keeps empty entries, because `Split(";")` is called without options (FileCollection.cs:23).
- **The date/time separator.** The test `stringDT.Substring(11).CompareTo(";") != 0` (MainModule.cs:234) compares an eight-character string with ";". It always holds, so every ';' of the 19 characters becomes 'T', not only the one between date and time.
- **Unopenable files.** When a file cannot be opened, the code copies it to `.roCopy` and opens the copy. The test open at MainModule.cs:198 is caught (MainModule.cs:202). An exception from `File.Copy` (MainModule.cs:204), or from the `File.OpenText` at MainModule.cs:209 on the original or on the copy, escapes `Main`, so the run ends there, as `Aborted` with `Unreadable`.
- **A single directory.** Only a `;`-separated directory list skips a directory whose listing throws (MainModule.cs:164-172). A single directory's listing failure escapes `Main` (MainModule.cs:178-179).
- **Negative windows.** The start is never after the event for `n >= 0`, nor for `int.MinValue`, whose negation wraps to itself. A negative count above `int.MinValue` puts the start after the event, and then no line is in the window.
- **Bypass-copy cleanup.** The copy is deleted only after its scan ends normally (MainModule.cs:266-269); there is no `finally`.
- **The help text's filename.** The help text gives `20201231T112233_CLD_1h_shallow.csv` as an example output filename. The code builds `CLD_20201231T112233_1h_shallow.csv` (MainModule.cs:105-108).

## Model

| member | source | states |
|---|---|---|
| CommandLineHandling.BoolText | CommandLineHandling.cs:39 | `bool.ToString()`: "True" exactly for true and "False" exactly for false |
| CommandLineHandling.Key | CommandLineHandling.cs:28-30 | `tempArg[0]` is the argument's text before its first '=' (all of it when there is none) |
| CommandLineHandling.HasValue | CommandLineHandling.cs:28-30 | `tempArg[1]` exists exactly when the argument holds a '=' |
| CommandLineHandling.Value | CommandLineHandling.cs:28-30 | `tempArg[1]` is the text right after the first '=', up to the next '=' or the end |
| CommandLineHandling.CountRequired | CommandLineHandling.cs:12-17 | the loop counts exactly the options flagged as required |
| CommandLineHandling.Step | CommandLineHandling.cs:28-36 | a supported key without '=' throws IndexOutOfRange. A successful turn adds the argument's new key, keeps every earlier entry, and keeps the arguments valid iff the key is supported |
| CommandLineHandling.Scan | CommandLineHandling.cs:27-37 | a loop that returns has every argument's key in the dictionary, and the arguments are valid iff every key is supported |
| CommandLineHandling.ProcessArgument | CommandLineHandling.cs:28-36 | one turn of the loop updates the dictionary and the validity flag as `Step` does, or throws as it does |
| CommandLineHandling.Process | CommandLineHandling.cs:8-42 | returns what `ProcessResult` gives. With fewer arguments than required options it returns exactly {ParseStatus: "False", ParseMessage: "  Unable to find all required arguments!"} |
| CommandLineHandling.ProcessResult | CommandLineHandling.cs:19-41 | every dictionary returned holds ParseStatus |
| CommandLineHandling.Add | CommandLineHandling.cs:30-34 | `Dictionary.Add` succeeds exactly for a new key, adds that one entry and keeps the others. On a present key it throws DuplicateKey |
| CommandLineHandling.ArgumentParts | CommandLineHandling.cs:28-30 | the key is the text before the first '='. The stored value is the text between the first and the second '=' |
| CommandLineHandling.ArgumentWithoutEquals | CommandLineHandling.cs:28-30 | an argument without '=' is all key and has no `tempArg[1]` |
| CommandLineHandling.ScanStopsAtError | CommandLineHandling.cs:27-37 | once an argument has thrown, the whole loop has thrown with that exception |
| CommandLineHandling.StepSucceedsIff | CommandLineHandling.cs:28-36 | one more argument is taken exactly when it is admissible: a new key, a value for a supported key, and no second ParseMessage |
| CommandLineHandling.StepCharacterised | CommandLineHandling.cs:27-37 | a step that succeeds keeps what is known of the dictionary: its keys, values, "Unsupported Argument" entries and message |
| CommandLineHandling.ScanCharacterised | CommandLineHandling.cs:26-37 | the loop returns exactly for well-formed arguments, and then describes them |
| CommandLineHandling.ProcessReturnsIff | CommandLineHandling.cs:26-39 | given enough arguments, `Process` returns exactly when keys are distinct, supported keys have values, at most one key is unsupported and no key is ParseStatus or a clashing ParseMessage |
| CommandLineHandling.FinalDictionary | CommandLineHandling.cs:39 | the final dictionary holds exactly the argument keys, ParseStatus and the message if one is needed. ParseStatus is "True" iff every key is supported |
| CommandLineHandling.ProcessReturns | CommandLineHandling.cs:26-41 | every supported key maps to `tempArg[1]` and every unsupported one to "Unsupported Argument". ParseMessage names the unsupported key, and ParseStatus is "True" iff all keys are supported |
| CommandLineHandling.RepeatedKeyThrows | CommandLineHandling.cs:30-32 | a key given twice makes `Process` throw |
| CommandLineHandling.TwoUnsupportedThrow | CommandLineHandling.cs:34 | two unsupported arguments make `Process` throw (ParseMessage is added twice) |
| CommandLineHandling.MissingValueThrows | CommandLineHandling.cs:30 | a supported key without '=' makes `Process` throw |
| FileCollectionMod.FileCollection.constructor | FileCollection.cs:15-19 | stores the directory and the pattern unchanged |
| FileCollectionMod.FileCollection.SetDirectoryToSearch | FileCollection.cs:12 | sets the directory and leaves the pattern |
| FileCollectionMod.FileCollection.SetSearchPattern | FileCollection.cs:13 | sets the pattern and leaves the directory |
| FileCollectionMod.Patterns | FileCollection.cs:23 | the patterns joined again with ';' give the search pattern back |
| FileCollectionMod.Collect | FileCollection.cs:23-32 | a failure is the directory's listing exception. A success means every pattern's listing succeeded and all its files, with their multiplicities, are in the result |
| FileCollectionMod.FileCollection.BuildFileCollection | FileCollection.cs:21-34 | returns the listings of the ';'-separated patterns, concatenated in pattern order, or the exception of the first listing that throws |
| FileCollectionMod.CollectStopsAtError | FileCollection.cs:28 | a listing that throws ends the collection with its exception |
| FileCollectionMod.CollectSucceedsIff | FileCollection.cs:26-32 | the collection succeeds exactly when every pattern's listing does |
| FileCollectionMod.CollectAppend | FileCollection.cs:26-32 | collecting over two pattern lists gives the first result followed by the second, so order is kept |
| FileCollectionMod.CollectSingle | FileCollection.cs:28-31 | one pattern gives exactly its listing, in its own order |
| FileCollectionMod.CollectCounts | FileCollection.cs:26-31 | each pattern adds its listing's files with their multiplicities |
| FileCollectionMod.NoDeduplication | FileCollection.cs:30 | a file matched by two patterns appears at least twice |
| FileCollectionMod.ShallowPatterns | FileCollection.cs:23 | "messages.p*;TBT*" gives the two patterns in order |
| FileCollectionMod.DeepPatterns | FileCollection.cs:23 | "*" gives the one pattern "*" |
| FileCollectionMod.EmptyPatternsKept | FileCollection.cs:23 | a doubled, leading or trailing ';' gives an empty pattern |
| Options.GeneratedFilename | MainModule.cs:103-110 | the generated name starts with "CLD_" and ends with ".csv" |
| Options.Defaulted | MainModule.cs:97-110 | lines 97-110 throw iff no output filename is given and the event date or time is missing. The exception names the event date if it is missing, else the event time. Given entries are kept, and the directory, window, depth and filename are then all present |
| Options.Unpack | MainModule.cs:113-118 | the six reads succeed iff all six options are present, each field being its option's value. A failure names an option that is missing |
| Options.WithDefault | MainModule.cs:97-102 | adds the default only to an absent option and changes no other entry |
| Options.Resolve | MainModule.cs:97-118 | succeeds iff the event date and time are given. Absent options get ".", "1[h]", "shallow" and the generated filename, and given ones are kept. Otherwise it throws KeyNotFound. It names the event date when the filename must be generated and the date is missing. Otherwise it names a missing event time, and else the event date |
| Options.ResolveOptions | MainModule.cs:97-118 | the in-place updates of the dictionary give `Resolve`'s result |
| Options.RemoveLastSeparator | MainModule.cs:105-107 | `Replace(c, "")` deletes the separators and keeps the rest of the text |
| Options.RemoveTwoSeparators | MainModule.cs:105-106 | `y-mo-d` loses its dashes and `h:mi:s` its colons |
| Options.WindowWithoutBrackets | MainModule.cs:107 | `n[u]` becomes `nu` |
| Options.GeneratedFilenameOfParts | MainModule.cs:103-110 | the generated name is "CLD_" + date digits + "T" + time digits + "_" + window without brackets + "_" + depth + ".csv" |
| Options.AllDefaults | MainModule.cs:97-118 | with only the event date and time given, the run uses ".", "1[h]", "shallow" and the generated filename |
| Window.Wrap32 | MainModule.cs:131 | 32-bit wrap-around: the result is an int32, congruent to the input, and an int32 input is unchanged |
| Window.NegateInt32 | MainModule.cs:131 | `-1 * n` is `-n`, except that int.MinValue stays itself |
| Window.ParseInt32 | MainModule.cs:126 | `Int32.Parse` gives an int32 or throws FormatException/OverflowException |
| Window.ParseDecimalText | MainModule.cs:126 | the decimal text of every int32 parses back to it |
| Window.ParseWindow | MainModule.cs:125-127 | a parsed count is an int32 |
| Window.ParseWindowOfParts | MainModule.cs:125-127 | `n[u...]` reads as count n and unit u |
| Window.WindowWithoutBracket | MainModule.cs:125-127 | a count without '[' throws IndexOutOfRange |
| Window.UnitSeconds | MainModule.cs:128-139 | a unit is an hour iff it lower-cases to 'h', and otherwise a minute ("m", "d" and any other unit) |
| Window.ComputeWindow | MainModule.cs:125-146 | The window ends at the event and starts at event − n units, with the int.MinValue wrap. Also: start ≤ event for n ≥ 0; one anchor iff n = 0 iff start = event; exceptions of parsing and of the DateTime range are passed on |
| Window.HoursWindow | MainModule.cs:133-134 | `n[h]` and `n[H]` move the start back n hours |
| Window.MinutesWindow | MainModule.cs:130-138 | every unit other than h/H moves the start back n minutes |
| Window.NegativeWindow | MainModule.cs:131-146 | a negative count other than int.MinValue puts the start after the event |
| Search.SearchPatternFor | MainModule.cs:149-153 | "*" iff the depth is exactly "deep", else "messages.p*;TBT*" |
| Search.PatternsForDepth | MainModule.cs:149-153 | the pattern lists those two choices lead to |
| Search.GatherPieces | MainModule.cs:160-174 | at most one skipped directory per piece |
| Search.Discover | MainModule.cs:156-180 | a ';' list never throws. A single directory gives its collection's files or its exception |
| Search.FindMatchingFiles | MainModule.cs:156-180 | the loop with one `FileCollection` per directory gives `Discover`'s result |
| Search.GatherAppend | MainModule.cs:162-174 | the directories are gathered in order: files and skipped names of consecutive runs add up |
| Search.GatherSingle | MainModule.cs:164-172 | a piece contributes all its files, or is skipped and named |
| Search.UnsearchableIff | MainModule.cs:162-172 | a directory is reported unsearchable iff it is one of the pieces and its collection throws |
| Search.FirstDirectoryFails | MainModule.cs:158-174 | for `D1;D2` with D1 unreadable, the files are exactly D2's and D1 is reported |
| LogScan.Anchor | MainModule.cs:218-229 | with two anchors, the start date wins when its first occurrence is past offset 0. Otherwise there is an anchor iff the event date's first occurrence is past offset 0, and then it is that occurrence. A date first found at offset 0 is not found |
| LogScan.IndexOfFound | MainModule.cs:220-227 | `IndexOf(line, d) > 0` holds exactly when the first occurrence of `d` is past offset 0, and then gives it |
| LogScan.Candidate | MainModule.cs:233-235 | a candidate exists iff 19 characters remain, and it is those characters with every ';' replaced by 'T' |
| LogScan.LineTime | MainModule.cs:227-256 | a timestamp read off a line is a valid DateTime |
| LogScan.LineRecord | MainModule.cs:227-262 | a record's time lies in the window, both ends included. It carries the listed path and the line |
| LogScan.FileRecords | MainModule.cs:213-263 | a file gives at most one record per line |
| LogScan.ProcessLine | MainModule.cs:215-262 | the imperative line test gives `LineRecord`'s result |
| LogScan.ScanLines | MainModule.cs:213-264 | the loop over the lines gives the records of the lines, in line order |
| LogScan.ScanAll | MainModule.cs:192-270 | a scan that fails names a listed file that cannot be opened |
| LogScan.ScanFiles | MainModule.cs:192-270 | the loop over the files gives `ScanAll`'s records and first failure |
| LogScan.ScanAllStopsAtFailure | MainModule.cs:209 | a file that cannot be opened ends the scan |
| LogScan.FileRecordsAppend | MainModule.cs:213-215 | records of consecutive runs of lines follow each other |
| LogScan.FileRecordsSingle | MainModule.cs:215-262 | one line gives its own record, if any |
| LogScan.FileRecordsSound | MainModule.cs:258-261 | every record is the record of one of the file's lines |
| LogScan.Stamp | MainModule.cs:260-261 | the 19-character `yyyy-MM-dd\|HH:mm:ss` stamp reads back, with 'T' for '\|', to its instant |
| LogScan.Render | MainModule.cs:260-261 | the written line is the stamp, '\|', the listed path, '\|' and the log line, in that order |
| LogScan.RenderReadsBack | MainModule.cs:260-261 | the written `date\|time` prefix parses back to the record's instant |
| LogScan.DateAtLineStartIgnored | MainModule.cs:218-227 | with one anchor, an event date first found at offset 0 writes nothing |
| LogScan.NoDateNoRecord | MainModule.cs:227 | a line with neither date writes nothing |
| LogScan.NoRetryAtEventDate | MainModule.cs:229-241 | a start-date anchor whose text does not parse drops the line, with no retry at the event date |
| LogScan.NoSemicolon | MainModule.cs:63-65 | a formatted date and time hold no ';' |
| LogScan.SeparatorReadAsT | MainModule.cs:234-235 | in `date;time` and `dateTtime` only the separator can change, and the text reads as the instant's ISO text |
| LogScan.AnchoredStampRead | MainModule.cs:227-261 | when the text at the anchor, with ';' read as 'T', is an instant's ISO text, the line is written with that instant iff it lies in the window |
| LogScan.EventDateStampWritten | MainModule.cs:227-261 | a `;`- or `T`-separated stamp at the first event-date occurrence past offset 0, inside the window, is written, unless the start date takes precedence |
| LogScan.StartDateStampWritten | MainModule.cs:229-236 | with two anchors, a `;`- or `T`-separated stamp at the first start-date occurrence past offset 0, inside the window, is written wherever the event date occurs |
| LogScan.ScanAllAppend | MainModule.cs:192 | files are scanned in order, and the scan stops at the first failure |
| LogScan.ScanAllSound | MainModule.cs:192-261 | every record comes from a line of a file that could be opened |
| LogScan.WindowScanSound | MainModule.cs:258-261 | every record written lies in the window and is a line of one of the files under its listed path, never the copy's |
| LogScan.ScanAllCompletesIff | MainModule.cs:192-209 | the scan completes iff every file can be opened |
| LogScan.ScanAllFailure | MainModule.cs:209 | a failure names the first unopenable file, after exactly the records of the files before it |
| MainModule.Outcome | MainModule.cs:69-272 | Usage iff the processor returns ParseStatus "False". A completed run resolved its options, parsed the event, computed its window from the event and the time window, searched exactly the files and skipped exactly the directories the directory search gives, created the output and opened every file, and wrote only in-window lines of those files under their paths. A run that stops after writing stopped at an unopenable file |
| MainModule.CompletesWhenEveryStepSucceeds | MainModule.cs:69-272 | when the options resolve, the event parses, the window is computed, the search succeeds, the output can be created and every file found can be opened, the run completes over exactly those files with what their scan wrote |
| MainModule.EventText | MainModule.cs:121 | a date and time that parse together are exactly the `yyyy-MM-dd` and `HH:mm:ss` renderings of the parsed DateTime |
| MainModule.CollectLogData | MainModule.cs:69-272 | `Main` step by step gives `Outcome`'s run |
| MainModule.MainRequiredCount | MainModule.cs:73-79 | exactly the event date and time are required |
| MainModule.TooFewArguments | MainModule.cs:84-94 | fewer than two arguments show the usage text after the missing-arguments message |
| MainModule.TwoOptionsProcessed | CommandLineHandling.cs:19-39 | the count check is by number only: `--directory` and `--timeWindow` alone pass it with ParseStatus "True" |
| MainModule.CountByNumberOnly | MainModule.cs:84-114 | such a run throws KeyNotFound for `--eventDate` rather than showing the usage text |
| MainModule.TwoOptionsUnresolved | MainModule.cs:103-105 | without the event date and an output filename, resolution throws at the event date |
| MainModule.UnsupportedShowsUsage | MainModule.cs:87-93 | an unsupported argument shows the usage text after the message naming it |
| Calendar.Parse | MainModule.cs:121 | a parsed text is a DateTime in range |
| Calendar.ParseFormat | MainModule.cs:236 | the `yyyy-MM-ddTHH:mm:ss` text of every DateTime parses back to it |
| Calendar.ParsedParts | MainModule.cs:121 | a date and a time joined by 'T' that parse are the date and time renderings of what they parse to |
| Calendar.FormatParse | MainModule.cs:250 | every text that parses is the formatted text of its DateTime |
| Calendar.FromSeconds | MainModule.cs:220 | the civil date of a DateTime is valid and converts back to it |
| Calendar.ToSeconds | MainModule.cs:121 | every valid civil date and time is a DateTime in range |
| Calendar.FormatDate | MainModule.cs:220 | the `yyyy-MM-dd` text shows the year, month and day of the instant, in digits, separated by '-' |
| Calendar.FormatTime | MainModule.cs:63-65 | the `HH:mm:ss` text shows the hour, minute and second of the instant, in digits, separated by ':' |
| Calendar.FormatIso | MainModule.cs:121 | the ISO text has the shape `Parse` accepts and exactly the fields of the instant |
| Calendar.ToSecondsInjective | MainModule.cs:143 | distinct civil dates and times are distinct DateTimes |
| Calendar.AddSeconds | MainModule.cs:131-137 | `AddMinutes`/`AddHours` succeed iff the result is in the DateTime range |
| Text.Split | CommandLineHandling.cs:28 | no piece holds the separator, and there is at least one piece |
| Text.SplitAtFirst | CommandLineHandling.cs:28 | the first piece is the text before the first separator |
| Text.SplitFirstPiece | CommandLineHandling.cs:28 | the first piece is the text before the first separator (the whole text without one), and the other pieces are those of the text after that separator |
| Text.SplitMany | CommandLineHandling.cs:28 | there are two pieces or more exactly when the text holds the separator |
| Text.ToLowerAscii | MainModule.cs:128 | an upper-case ASCII letter becomes the same letter in lower case, every other character is kept, and no result is upper case |
| Text.SplitWithoutSeparator | FileCollection.cs:23 | without a separator the text is a single piece |
| Text.JoinSplit | FileCollection.cs:23 | joining the pieces with the separator gives the text back |
| Text.SplitJoin | FileCollection.cs:23 | splitting joined separator-free pieces gives the pieces back |
| Text.SplitLength | FileCollection.cs:23 | there is one piece more than there are separators |
| Text.IndexOf | MainModule.cs:220 | the first occurrence, or -1 when there is none |
| Text.ReplaceChar | MainModule.cs:235 | same length; exactly the occurrences of the character change |
| Text.RemoveChar | MainModule.cs:105 | the character is gone, and a text without it is unchanged |
| Text.RemoveCharKeepsOthers | MainModule.cs:105 | every other character keeps its number of occurrences |
| Text.RemoveCharAppend | MainModule.cs:105-107 | deleting commutes with concatenation, so order is kept |

## Left out

- Console and `StreamWriter` output (MainModule.cs:184-189, 260-261). The written records are the `records` sequence of a run, and `LogScan.Render` gives their text. The start-of-collection and column-header lines, the "Unable to search" lines and the usage text are not modelled. The directories named in those lines are the run's `unsearchable` list.
- `ShowCommandLineMessage` and the usage text (MainModule.cs:10-62, 274-278). They are constant output.
- The read-only copy fallback (MainModule.cs:196-209, 265-269). The `Reader` parameter stands for "open the file, or else copy it and open the copy". The copy's creation and deletion are file-system effects and are not modelled. In particular the model makes no claim that the copy is deleted. The code deletes it only after a normal scan, with no `finally`.
- `Directory.EnumerateFiles` glob matching is the `Listing` parameter. A listing that throws part way gives `None`; its partial results were never added, because the exception leaves `BuildFileCollection` before `AddRange`.
- Creating the output file is the `Writable` parameter. Flushing and closing it are not modelled.
- Culture: `DateTime.Parse` and `Int32.Parse` are strict; the culture-dependent leniency of .NET is not modelled. `DateTime.Parse` accepts only `yyyy-MM-ddTHH:mm:ss`, with no spaces, single digits, fractions or offsets. `Int32.Parse` accepts an optional sign and decimal digits, with no surrounding white space or thousands separators.
- Culture: `ToString(format)` (MainModule.cs:220, 222 and 260) is rendered with the Gregorian calendar, ASCII digits and ':' as the time separator. Under a culture such as th-TH the year is the Buddhist year, and the time separator is the culture's own.
- Culture: `IndexOf`, `CompareTo` and `ToLower` are ordinal and ASCII in the model. .NET uses culture-sensitive comparison for `string.IndexOf(string)` and `CompareTo`.
- Exceptions are constructors of `Wrappers.Exception`. Their message texts and stack traces are not modelled.
- `ReadLine`'s splitting of a stream into lines is part of the `Reader` parameter. A read error part way through a file (MainModule.cs:213-215) is not modelled. It would escape `Main` after some of that file's records were written, and the `Reader` gives a file's lines whole or not at all.
- `Calendar`: DateTime ticks below one second are not modelled. Every value here comes from parsing whole seconds or from adding whole minutes or hours.
- `FileCollectionMod.FileCollection`: the property getters are reads of the fields `directoryToSearch` and `searchPattern`.
- `MainModule.CollectLogData`: the options table is built with map updates rather than with `Dictionary.Add`. The six keys are distinct, so `Add` cannot throw there.
