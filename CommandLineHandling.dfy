/**
 * The command-line processor (`CommandLineHandling.Processor.Process`).  It checks that there are
 * at least as many arguments as required options, then splits every `--key=value` argument at
 * '=' and fills a dictionary with the values, adding the meta-entries ParseStatus and
 * ParseMessage.  `Dictionary.Add` throws on a key that is already present; those exceptions
 * escape the processor and are modelled as `Err` results.
 */
module CommandLineHandling {
  import opened Wrappers
  import opened Text

  const ParseStatus := "ParseStatus"
  const ParseMessage := "ParseMessage"
  const MissingRequiredMessage := "  Unable to find all required arguments!"
  const UnsupportedValue := "Unsupported Argument"

  function UnsupportedMessage(key: string): string
  {
    "  Unsupported argument found on command line: [" + key + "]"
  }

  /** `Boolean.ToString()`. */
  function BoolText(b: bool): (r: string)
    ensures r == "True" <==> b
    ensures r == "False" <==> !b
  {
    if b then "True" else "False"
  }

  /** The options flagged as required. */
  function RequiredKeys(programArguments: map<string, bool>): set<string>
  {
    set k | k in programArguments && programArguments[k]
  }

  function RequiredCount(programArguments: map<string, bool>): nat
  {
    |RequiredKeys(programArguments)|
  }

  /** The key of an argument (`tempArg[0]`): the text before its first '='. */
  function Key(argument: string): (r: string)
    ensures |r| <= |argument| && r == argument[..|r|] && '=' !in r
    ensures |r| < |argument| ==> argument[|r|] == '='
  {
    SplitFirstPiece(argument, '=');
    Split(argument, '=')[0]
  }

  /** Whether `tempArg[1]` exists: exactly when the argument holds a '='. */
  predicate HasValue(argument: string)
    ensures HasValue(argument) <==> '=' in argument
  {
    SplitMany(argument, '=');
    |Split(argument, '=')| >= 2
  }

  /** The value of an argument (`tempArg[1]`): the text between its first and its second '='. */
  function Value(argument: string): (r: string)
    requires HasValue(argument)
    ensures var start := |Key(argument)| + 1;
            && start + |r| <= |argument| && r == argument[start..start + |r|] && '=' !in r
            && (start + |r| < |argument| ==> argument[start + |r|] == '=')
  {
    var k := Key(argument);
    var rest := argument[|k| + 1..];
    SplitFirstPiece(argument, '=');
    SplitFirstPiece(rest, '=');
    assert Split(argument, '=')[1] == Split(rest, '=')[0];
    var r := Split(argument, '=')[1];
    assert rest[..|r|] == argument[|k| + 1..|k| + 1 + |r|];
    r
  }

  /** The key is the text before the first '=' and the value the text between the first and the second. */
  lemma ArgumentParts(key: string, value: string, rest: string)
    requires '=' !in key && '=' !in value
    requires rest == [] || rest[0] == '='
    ensures Key(key + "=" + value + rest) == key
    ensures HasValue(key + "=" + value + rest) && Value(key + "=" + value + rest) == value
  {
    assert key + "=" + value + rest == key + ['='] + (value + rest);
    SplitAtFirst(key, '=', value + rest);
    if rest == [] {
      assert value + rest == value;
      SplitWithoutSeparator(value, '=');
    } else {
      assert value + rest == value + ['='] + rest[1..];
      SplitAtFirst(value, '=', rest[1..]);
    }
  }

  /** An argument without '=' is all key, and has no value. */
  lemma ArgumentWithoutEquals(argument: string)
    requires '=' !in argument
    ensures Key(argument) == argument && !HasValue(argument)
  {
    SplitWithoutSeparator(argument, '=');
  }

  /** `Dictionary.Add`: the dictionary with one more entry, or an ArgumentException when the key is present. */
  function Add(d: map<string, string>, key: string, value: string): (r: Result<map<string, string>>)
    ensures r.Ok? <==> key !in d
    ensures r.Err? ==> r.error == DuplicateKey(key)
    ensures r.Ok? ==> r.value.Keys == d.Keys + {key} && r.value[key] == value
    ensures r.Ok? ==> forall k :: k in d ==> r.value[k] == d[k]
  {
    if key in d then Err(DuplicateKey(key)) else Ok(d[key := value])
  }

  /** What the loop over the arguments has built so far: the dictionary and `cmdArgumentsAreValid`. */
  datatype Progress = Progress(output: map<string, string>, valid: bool)

  /** One turn of the loop over the arguments. */
  function Step(p: Progress, argument: string, programArguments: map<string, bool>): (r: Result<Progress>)
    ensures Key(argument) in programArguments && !HasValue(argument) ==> r == Err(IndexOutOfRange(argument))
    ensures r.Ok? ==> Key(argument) !in p.output && Key(argument) in r.value.output
    ensures r.Ok? ==> forall k :: k in p.output ==> k in r.value.output && r.value.output[k] == p.output[k]
    ensures r.Ok? ==> (r.value.valid <==> p.valid && Key(argument) in programArguments)
  {
    var key := Key(argument);
    if key in programArguments then
      if !HasValue(argument) then Err(IndexOutOfRange(argument))
      else
        match Add(p.output, key, Value(argument))
        case Err(e) => Err(e)
        case Ok(d) => Ok(Progress(d, p.valid))
    else
      match Add(p.output, key, UnsupportedValue)
      case Err(e) => Err(e)
      case Ok(d) =>
        match Add(d, ParseMessage, UnsupportedMessage(key))
        case Err(e) => Err(e)
        case Ok(d') => Ok(Progress(d', false))
  }

  /** The loop run over `arguments` in order; the first exception ends it. */
  function Scan(arguments: seq<string>, programArguments: map<string, bool>): (r: Result<Progress>)
    ensures r.Ok? ==> KeysOf(arguments) <= r.value.output.Keys
    ensures r.Ok? ==> (r.value.valid <==> AllSupported(arguments, programArguments))
  {
    if arguments == [] then Ok(Progress(map[], true))
    else
      var init, a := arguments[..|arguments| - 1], arguments[|arguments| - 1];
      assert arguments == init + [a];
      KeysOfSnoc(init, a);
      AllSupportedSnoc(init, a, programArguments);
      match Scan(init, programArguments)
      case Err(e) => Err(e)
      case Ok(p) => Step(p, arguments[|arguments| - 1], programArguments)
  }

  /** What `Process` returns, or the exception it throws. */
  function ProcessResult(inputArguments: seq<string>, programArguments: map<string, bool>): (r: Result<map<string, string>>)
    ensures r.Ok? ==> ParseStatus in r.value
  {
    if |inputArguments| < RequiredCount(programArguments) then
      Ok(map[ParseStatus := BoolText(false), ParseMessage := MissingRequiredMessage])
    else
      match Scan(inputArguments, programArguments)
      case Err(e) => Err(e)
      case Ok(p) => Add(p.output, ParseStatus, BoolText(p.valid))
  }

  /** Once an argument has thrown, the whole loop has thrown, with that exception. */
  lemma {:induction false} ScanStopsAtError(arguments: seq<string>, i: nat, programArguments: map<string, bool>)
    requires i <= |arguments| && Scan(arguments[..i], programArguments).Err?
    ensures Scan(arguments, programArguments) == Scan(arguments[..i], programArguments)
    decreases |arguments| - i
  {
    if i < |arguments| {
      var next := arguments[..i + 1];
      assert next[..|next| - 1] == arguments[..i];
      ScanStopsAtError(arguments, i + 1, programArguments);
    } else {
      assert arguments[..i] == arguments;
    }
  }

  /** The counting loop at the start of `Process`: the number of options flagged as required. */
  method CountRequired(programArguments: map<string, bool>) returns (requiredArguments: nat)
    ensures requiredArguments == RequiredCount(programArguments)
  {
    requiredArguments := 0;
    var entries := programArguments.Keys;
    while entries != {}
      invariant entries <= programArguments.Keys
      invariant requiredArguments == |RequiredKeys(programArguments) - entries|
      decreases |entries|
    {
      var k :| k in entries;
      assert k in RequiredKeys(programArguments) <==> programArguments[k];
      CountStep(RequiredKeys(programArguments), entries, k, programArguments[k]);
      if programArguments[k] {
        requiredArguments := requiredArguments + 1;
      }
      entries := entries - {k};
    }
    assert RequiredKeys(programArguments) - entries == RequiredKeys(programArguments);
  }

  /** Taking one more key out of the unvisited ones counts it exactly when it is required. */
  lemma CountStep(required: set<string>, entries: set<string>, k: string, isRequired: bool)
    requires k in entries && (k in required <==> isRequired)
    ensures |required - (entries - {k})| == |required - entries| + (if isRequired then 1 else 0)
  {
    var before, after := required - entries, required - (entries - {k});
    if isRequired {
      assert after == before + {k};
    } else {
      assert after == before;
    }
  }

  /** The body of the loop over the arguments, adding to the dictionary in place. */
  method ProcessArgument(outputArguments: map<string, string>, cmdArgumentsAreValid: bool, argument: string,
                         programArguments: map<string, bool>) returns (r: Result<Progress>)
    ensures r == Step(Progress(outputArguments, cmdArgumentsAreValid), argument, programArguments)
  {
    var output := outputArguments;
    var tempArg := Split(argument, '=');
    if tempArg[0] in programArguments {
      if |tempArg| < 2 {
        return Err(IndexOutOfRange(argument));
      }
      if tempArg[0] in output {
        return Err(DuplicateKey(tempArg[0]));
      }
      output := output[tempArg[0] := tempArg[1]];
      r := Ok(Progress(output, cmdArgumentsAreValid));
    } else {
      if tempArg[0] in output {
        return Err(DuplicateKey(tempArg[0]));
      }
      output := output[tempArg[0] := UnsupportedValue];
      var errMessage := UnsupportedMessage(tempArg[0]);
      if ParseMessage in output {
        return Err(DuplicateKey(ParseMessage));
      }
      output := output[ParseMessage := errMessage];
      r := Ok(Progress(output, false));
    }
  }

  /** `Processor.Process`. */
  method Process(inputArguments: seq<string>, programArguments: map<string, bool>) returns (r: Result<map<string, string>>)
    ensures r == ProcessResult(inputArguments, programArguments)
    ensures |inputArguments| < RequiredCount(programArguments) ==>
              r == Ok(map[ParseStatus := "False", ParseMessage := MissingRequiredMessage])
  {
    var outputArguments: map<string, string> := map[];

    var requiredArguments := CountRequired(programArguments);

    if |inputArguments| < requiredArguments {
      outputArguments := outputArguments[ParseStatus := BoolText(false)];
      outputArguments := outputArguments[ParseMessage := MissingRequiredMessage];
      return Ok(outputArguments);
    }

    var cmdArgumentsAreValid := true;
    for i := 0 to |inputArguments|
      invariant Scan(inputArguments[..i], programArguments) == Ok(Progress(outputArguments, cmdArgumentsAreValid))
    {
      var prefix := inputArguments[..i + 1];
      assert prefix[..i] == inputArguments[..i];
      var stepped := ProcessArgument(outputArguments, cmdArgumentsAreValid, inputArguments[i], programArguments);
      if stepped.Err? {
        ScanStopsAtError(inputArguments, i + 1, programArguments);
        return Err(stepped.error);
      }
      outputArguments, cmdArgumentsAreValid := stepped.value.output, stepped.value.valid;
    }
    assert inputArguments[..|inputArguments|] == inputArguments;

    if ParseStatus in outputArguments {
      return Err(DuplicateKey(ParseStatus));
    }
    outputArguments := outputArguments[ParseStatus := BoolText(cmdArgumentsAreValid)];
    r := Ok(outputArguments);
  }

  // ----- What the loop builds -----

  /** The keys of the arguments. */
  function KeysOf(arguments: seq<string>): set<string>
  {
    set i | 0 <= i < |arguments| :: Key(arguments[i])
  }

  predicate AllSupported(arguments: seq<string>, programArguments: map<string, bool>)
  {
    forall i :: 0 <= i < |arguments| ==> Key(arguments[i]) in programArguments
  }

  predicate DistinctKeys(arguments: seq<string>)
  {
    forall i, j :: 0 <= i < j < |arguments| ==> Key(arguments[i]) != Key(arguments[j])
  }

  predicate ValuesPresent(arguments: seq<string>, programArguments: map<string, bool>)
  {
    forall i :: 0 <= i < |arguments| && Key(arguments[i]) in programArguments ==> HasValue(arguments[i])
  }

  predicate AtMostOneUnsupported(arguments: seq<string>, programArguments: map<string, bool>)
  {
    forall i, j :: 0 <= i < j < |arguments| ==>
      Key(arguments[i]) in programArguments || Key(arguments[j]) in programArguments
  }

  predicate NoParseMessageKey(arguments: seq<string>, programArguments: map<string, bool>)
  {
    !AllSupported(arguments, programArguments) ==> ParseMessage !in KeysOf(arguments)
  }

  /**
   * The arguments for which the loop does not throw: no key twice, a value for every supported
   * key, at most one unsupported argument, and no key ParseMessage beside an unsupported argument.
   */
  predicate WellFormed(arguments: seq<string>, programArguments: map<string, bool>)
  {
    && DistinctKeys(arguments)
    && ValuesPresent(arguments, programArguments)
    && AtMostOneUnsupported(arguments, programArguments)
    && NoParseMessageKey(arguments, programArguments)
  }

  predicate StoresValues(p: Progress, arguments: seq<string>, programArguments: map<string, bool>)
    requires KeysOf(arguments) <= p.output.Keys
  {
    forall i :: 0 <= i < |arguments| && Key(arguments[i]) in programArguments ==>
      HasValue(arguments[i]) && p.output[Key(arguments[i])] == Value(arguments[i])
  }

  predicate StoresUnsupported(p: Progress, arguments: seq<string>, programArguments: map<string, bool>)
    requires KeysOf(arguments) <= p.output.Keys
  {
    forall i :: 0 <= i < |arguments| && Key(arguments[i]) !in programArguments ==>
      p.output[Key(arguments[i])] == UnsupportedValue
  }

  predicate StoresMessage(p: Progress, arguments: seq<string>, programArguments: map<string, bool>)
    requires !p.valid ==> ParseMessage in p.output
  {
    forall i :: 0 <= i < |arguments| && Key(arguments[i]) !in programArguments ==>
      !p.valid && p.output[ParseMessage] == UnsupportedMessage(Key(arguments[i]))
  }

  /** What the dictionary holds after the loop has run over `arguments` without throwing. */
  predicate Describes(p: Progress, arguments: seq<string>, programArguments: map<string, bool>)
  {
    && p.output.Keys == KeysOf(arguments) + (if p.valid then {} else {ParseMessage})
    && (p.valid <==> AllSupported(arguments, programArguments))
    && StoresValues(p, arguments, programArguments)
    && StoresUnsupported(p, arguments, programArguments)
    && StoresMessage(p, arguments, programArguments)
  }

  /** What a further argument `a` must satisfy for the loop not to throw on it. */
  predicate Admissible(init: seq<string>, a: string, programArguments: map<string, bool>)
  {
    && Key(a) !in KeysOf(init)
    && (Key(a) in programArguments ==> HasValue(a))
    && (Key(a) !in programArguments ==> AllSupported(init, programArguments))
    && (!AllSupported(init, programArguments) || Key(a) !in programArguments ==>
          ParseMessage !in KeysOf(init) + {Key(a)})
  }

  lemma KeysOfSnoc(init: seq<string>, a: string)
    ensures KeysOf(init + [a]) == KeysOf(init) + {Key(a)}
  {
    var args := init + [a];
    forall k | k in KeysOf(args) ensures k in KeysOf(init) + {Key(a)} {
      var i :| 0 <= i < |args| && Key(args[i]) == k;
      if i < |init| { assert Key(init[i]) == k; }
    }
    forall k | k in KeysOf(init) ensures k in KeysOf(args) {
      var i :| 0 <= i < |init| && Key(init[i]) == k;
      assert Key(args[i]) == k;
    }
    assert Key(args[|init|]) == Key(a);
  }

  lemma AllSupportedSnoc(init: seq<string>, a: string, programArguments: map<string, bool>)
    ensures AllSupported(init + [a], programArguments) <==>
              AllSupported(init, programArguments) && Key(a) in programArguments
  {
    var args := init + [a];
    assert forall i :: 0 <= i < |init| ==> args[i] == init[i];
    assert args[|init|] == a;
  }

  lemma DistinctKeysSnoc(init: seq<string>, a: string)
    ensures DistinctKeys(init + [a]) <==> DistinctKeys(init) && Key(a) !in KeysOf(init)
  {
    var args := init + [a];
    var n := |init|;
    assert forall i :: 0 <= i < n ==> args[i] == init[i];
    assert args[n] == a;
    if Key(a) in KeysOf(init) {
      var i :| 0 <= i < n && Key(init[i]) == Key(a);
      assert Key(args[i]) == Key(args[n]);
    }
    if DistinctKeys(init) && Key(a) !in KeysOf(init) {
      forall i, j | 0 <= i < j < |args| ensures Key(args[i]) != Key(args[j]) {
        if j == n { assert Key(init[i]) in KeysOf(init); }
      }
    }
  }

  lemma ValuesPresentSnoc(init: seq<string>, a: string, programArguments: map<string, bool>)
    ensures ValuesPresent(init + [a], programArguments) <==>
              ValuesPresent(init, programArguments) && (Key(a) in programArguments ==> HasValue(a))
  {
    var args := init + [a];
    assert forall i :: 0 <= i < |init| ==> args[i] == init[i];
    assert args[|init|] == a;
  }

  lemma AtMostOneUnsupportedSnoc(init: seq<string>, a: string, programArguments: map<string, bool>)
    ensures AtMostOneUnsupported(init + [a], programArguments) <==>
              AtMostOneUnsupported(init, programArguments) &&
              (Key(a) !in programArguments ==> AllSupported(init, programArguments))
  {
    var args := init + [a];
    var n := |init|;
    assert forall i :: 0 <= i < n ==> args[i] == init[i];
    assert args[n] == a;
    if Key(a) !in programArguments && !AllSupported(init, programArguments) {
      var i :| 0 <= i < n && Key(init[i]) !in programArguments;
      assert Key(args[i]) !in programArguments && Key(args[n]) !in programArguments;
    }
  }

  lemma WellFormedSnoc(init: seq<string>, a: string, programArguments: map<string, bool>)
    ensures WellFormed(init + [a], programArguments) <==>
              WellFormed(init, programArguments) && Admissible(init, a, programArguments)
  {
    KeysOfSnoc(init, a);
    AllSupportedSnoc(init, a, programArguments);
    DistinctKeysSnoc(init, a);
    ValuesPresentSnoc(init, a, programArguments);
    AtMostOneUnsupportedSnoc(init, a, programArguments);
  }

  /** One more argument is taken exactly when it is admissible after the ones before it. */
  lemma StepSucceedsIff(p: Progress, init: seq<string>, a: string, programArguments: map<string, bool>)
    requires WellFormed(init, programArguments) && Describes(p, init, programArguments)
    ensures Step(p, a, programArguments).Ok? <==> Admissible(init, a, programArguments)
  {
    KeysOfSnoc(init, a);
  }

  lemma StepCharacterised(p: Progress, init: seq<string>, a: string, programArguments: map<string, bool>)
    requires WellFormed(init, programArguments) && Describes(p, init, programArguments)
    ensures Step(p, a, programArguments).Ok? <==> Admissible(init, a, programArguments)
    ensures Step(p, a, programArguments).Ok? ==> Describes(Step(p, a, programArguments).value, init + [a], programArguments)
  {
    StepSucceedsIff(p, init, a, programArguments);
    if Step(p, a, programArguments).Ok? {
      StepKeys(p, init, a, programArguments);
      StepStoresValues(p, init, a, programArguments);
      StepStoresUnsupported(p, init, a, programArguments);
      StepStoresMessage(p, init, a, programArguments);
    }
  }

  /** After a step, the keys are those of the arguments so far, and ParseMessage once one was unsupported. */
  lemma StepKeys(p: Progress, init: seq<string>, a: string, programArguments: map<string, bool>)
    requires WellFormed(init, programArguments) && Describes(p, init, programArguments)
    requires Step(p, a, programArguments).Ok?
    ensures var q := Step(p, a, programArguments).value;
            && q.output.Keys == KeysOf(init + [a]) + (if q.valid then {} else {ParseMessage})
            && (q.valid <==> AllSupported(init + [a], programArguments))
  {
    KeysOfSnoc(init, a);
    AllSupportedSnoc(init, a, programArguments);
  }

  lemma StepStoresValues(p: Progress, init: seq<string>, a: string, programArguments: map<string, bool>)
    requires WellFormed(init, programArguments) && Describes(p, init, programArguments)
    requires Step(p, a, programArguments).Ok?
    ensures KeysOf(init + [a]) <= Step(p, a, programArguments).value.output.Keys
    ensures StoresValues(Step(p, a, programArguments).value, init + [a], programArguments)
  {
    StepKeys(p, init, a, programArguments);
    var q, args, n := Step(p, a, programArguments).value, init + [a], |init|;
    assert forall k :: k in p.output ==> k in q.output && q.output[k] == p.output[k] by {
      if Key(a) in programArguments {
        assert q.output == p.output[Key(a) := Value(a)];
      } else {
        var d := Add(p.output, Key(a), UnsupportedValue).value;
        assert ParseMessage !in d;
        assert q.output == d[ParseMessage := UnsupportedMessage(Key(a))];
      }
    }
    assert Key(a) in programArguments ==> HasValue(a) && q.output[Key(a)] == Value(a);
    forall i | 0 <= i < |args| && Key(args[i]) in programArguments
      ensures HasValue(args[i]) && q.output[Key(args[i])] == Value(args[i])
    {
      if i < n {
        assert args[i] == init[i];
        assert Key(init[i]) in KeysOf(init);
      } else {
        assert args[i] == a;
      }
    }
  }

  lemma StepStoresUnsupported(p: Progress, init: seq<string>, a: string, programArguments: map<string, bool>)
    requires WellFormed(init, programArguments) && Describes(p, init, programArguments)
    requires Step(p, a, programArguments).Ok?
    ensures KeysOf(init + [a]) <= Step(p, a, programArguments).value.output.Keys
    ensures StoresUnsupported(Step(p, a, programArguments).value, init + [a], programArguments)
  {
    StepKeys(p, init, a, programArguments);
    var q, args, n := Step(p, a, programArguments).value, init + [a], |init|;
    forall i | 0 <= i < |args| && Key(args[i]) !in programArguments
      ensures q.output[Key(args[i])] == UnsupportedValue
    {
      if i < n {
        assert args[i] == init[i];
        assert Key(init[i]) in KeysOf(init);
      } else {
        assert args[i] == a;
      }
    }
  }

  lemma StepStoresMessage(p: Progress, init: seq<string>, a: string, programArguments: map<string, bool>)
    requires WellFormed(init, programArguments) && Describes(p, init, programArguments)
    requires Step(p, a, programArguments).Ok?
    ensures !Step(p, a, programArguments).value.valid ==> ParseMessage in Step(p, a, programArguments).value.output
    ensures StoresMessage(Step(p, a, programArguments).value, init + [a], programArguments)
  {
    StepKeys(p, init, a, programArguments);
    var q, args, n := Step(p, a, programArguments).value, init + [a], |init|;
    forall i | 0 <= i < |args| && Key(args[i]) !in programArguments
      ensures !q.valid && q.output[ParseMessage] == UnsupportedMessage(Key(args[i]))
    {
      if i < n {
        assert args[i] == init[i];
        assert Key(init[i]) !in programArguments;
      } else {
        assert args[i] == a;
      }
    }
  }

  /** The loop runs without throwing exactly on well-formed arguments, and then builds what `Describes` says. */
  lemma {:induction false} ScanCharacterised(arguments: seq<string>, programArguments: map<string, bool>)
    ensures Scan(arguments, programArguments).Ok? <==> WellFormed(arguments, programArguments)
    ensures Scan(arguments, programArguments).Ok? ==> Describes(Scan(arguments, programArguments).value, arguments, programArguments)
    decreases |arguments|
  {
    if arguments == [] {
      assert KeysOf(arguments) == {};
    } else {
      var init, a := arguments[..|arguments| - 1], arguments[|arguments| - 1];
      assert init + [a] == arguments;
      ScanCharacterised(init, programArguments);
      WellFormedSnoc(init, a, programArguments);
      if Scan(init, programArguments).Ok? {
        StepCharacterised(Scan(init, programArguments).value, init, a, programArguments);
      }
    }
  }

  /**
   * With enough arguments, `Process` returns exactly when the arguments are well formed and none
   * of them has the key ParseStatus; otherwise it throws.
   */
  lemma ProcessReturnsIff(inputArguments: seq<string>, programArguments: map<string, bool>)
    requires |inputArguments| >= RequiredCount(programArguments)
    ensures ProcessResult(inputArguments, programArguments).Ok? <==>
              WellFormed(inputArguments, programArguments) && ParseStatus !in KeysOf(inputArguments)
  {
    ScanCharacterised(inputArguments, programArguments);
  }

  /** The dictionary `Process` hands back, read off from what the loop built. */
  lemma FinalDictionary(p: Progress, arguments: seq<string>, programArguments: map<string, bool>)
    requires Describes(p, arguments, programArguments) && ParseStatus !in p.output
    ensures var d := p.output[ParseStatus := BoolText(p.valid)];
      && d.Keys == KeysOf(arguments) + {ParseStatus} +
                   (if AllSupported(arguments, programArguments) then {} else {ParseMessage})
      && (d[ParseStatus] == "True" <==> AllSupported(arguments, programArguments))
      && (d[ParseStatus] == "False" <==> !AllSupported(arguments, programArguments))
      && (forall i :: 0 <= i < |arguments| && Key(arguments[i]) in programArguments ==>
            HasValue(arguments[i]) && d[Key(arguments[i])] == Value(arguments[i]))
      && (forall i :: 0 <= i < |arguments| && Key(arguments[i]) !in programArguments ==>
            d[Key(arguments[i])] == UnsupportedValue &&
            d[ParseMessage] == UnsupportedMessage(Key(arguments[i])))
  {
    var d := p.output[ParseStatus := BoolText(p.valid)];
    assert StoresValues(p, arguments, programArguments);
    assert StoresUnsupported(p, arguments, programArguments);
    assert StoresMessage(p, arguments, programArguments);
    forall i | 0 <= i < |arguments| ensures d[Key(arguments[i])] == p.output[Key(arguments[i])] {
      assert Key(arguments[i]) in KeysOf(arguments);
    }
  }

  /**
   * What `Process` returns when it has enough arguments: every key with its value (or
   * "Unsupported Argument"), ParseStatus "True" exactly when every key is supported, and a
   * ParseMessage naming the unsupported argument otherwise.
   */
  lemma ProcessReturns(inputArguments: seq<string>, programArguments: map<string, bool>)
    requires |inputArguments| >= RequiredCount(programArguments)
    requires ProcessResult(inputArguments, programArguments).Ok?
    ensures var d := ProcessResult(inputArguments, programArguments).value;
      && d.Keys == KeysOf(inputArguments) + {ParseStatus} +
                   (if AllSupported(inputArguments, programArguments) then {} else {ParseMessage})
      && (d[ParseStatus] == "True" <==> AllSupported(inputArguments, programArguments))
      && (d[ParseStatus] == "False" <==> !AllSupported(inputArguments, programArguments))
      && (forall i :: 0 <= i < |inputArguments| && Key(inputArguments[i]) in programArguments ==>
            HasValue(inputArguments[i]) && d[Key(inputArguments[i])] == Value(inputArguments[i]))
      && (forall i :: 0 <= i < |inputArguments| && Key(inputArguments[i]) !in programArguments ==>
            d[Key(inputArguments[i])] == UnsupportedValue &&
            d[ParseMessage] == UnsupportedMessage(Key(inputArguments[i])))
  {
    ScanCharacterised(inputArguments, programArguments);
    var p := Scan(inputArguments, programArguments).value;
    assert ParseStatus !in p.output;
    assert ProcessResult(inputArguments, programArguments) == Ok(p.output[ParseStatus := BoolText(p.valid)]);
    FinalDictionary(p, inputArguments, programArguments);
  }

  /** A key given twice makes `Process` throw. */
  lemma RepeatedKeyThrows(inputArguments: seq<string>, programArguments: map<string, bool>, i: nat, j: nat)
    requires |inputArguments| >= RequiredCount(programArguments)
    requires i < j < |inputArguments| && Key(inputArguments[i]) == Key(inputArguments[j])
    ensures ProcessResult(inputArguments, programArguments).Err?
  {
    ProcessReturnsIff(inputArguments, programArguments);
  }

  /** Two unsupported arguments make `Process` throw: the second adds ParseMessage again. */
  lemma TwoUnsupportedThrow(inputArguments: seq<string>, programArguments: map<string, bool>, i: nat, j: nat)
    requires |inputArguments| >= RequiredCount(programArguments)
    requires i < j < |inputArguments|
    requires Key(inputArguments[i]) !in programArguments && Key(inputArguments[j]) !in programArguments
    ensures ProcessResult(inputArguments, programArguments).Err?
  {
    ProcessReturnsIff(inputArguments, programArguments);
  }

  /** A supported key without '=' makes `Process` throw: `tempArg[1]` does not exist. */
  lemma MissingValueThrows(inputArguments: seq<string>, programArguments: map<string, bool>, i: nat)
    requires |inputArguments| >= RequiredCount(programArguments)
    requires i < |inputArguments| && '=' !in inputArguments[i] && inputArguments[i] in programArguments
    ensures ProcessResult(inputArguments, programArguments).Err?
  {
    ArgumentWithoutEquals(inputArguments[i]);
    ProcessReturnsIff(inputArguments, programArguments);
  }
}
