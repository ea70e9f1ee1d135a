/**
 * The search window of `Main` (MainModule.cs, lines 121-146): the `--timeWindow` value `n[u]`
 * is parsed into a count and a unit, the window start is the event time moved back by `n`
 * minutes, or hours when the unit is 'h', and one date anchor is searched for when start and
 * event coincide, two otherwise.
 */
module Window {
  import opened Wrappers
  import opened Text
  import opened Calendar

  const MinInt32 := -0x8000_0000
  const MaxInt32 := 0x7fff_ffff

  predicate IsInt32(n: int)
  {
    MinInt32 <= n <= MaxInt32
  }

  /** The 32-bit two's-complement value of `x`, as unchecked C# arithmetic keeps it. */
  function Wrap32(x: int): (r: int)
    ensures IsInt32(r)
    ensures IsInt32(x) ==> r == x
    ensures (x - r) % 0x1_0000_0000 == 0
  {
    (x - MinInt32) % 0x1_0000_0000 + MinInt32
  }

  /** `-1 * n` on an `int`: the negation, except that `int.MinValue` stays itself. */
  lemma NegateInt32(n: int)
    requires IsInt32(n)
    ensures Wrap32(-1 * n) == if n == MinInt32 then MinInt32 else -n
  {
    if n == MinInt32 {
      assert -1 * n - 0x1_0000_0000 == MinInt32;
      assert (-1 * n - MinInt32) % 0x1_0000_0000 == 0;
    }
  }

  /** `Int32.Parse`: an optional sign and at least one decimal digit, within the 32-bit range. */
  function ParseInt32(s: string): (r: Result<int>)
    ensures r.Ok? ==> IsInt32(r.value)
    ensures r.Err? ==> r.error == BadFormat(s) || r.error == Overflow(s)
  {
    var signed := |s| > 0 && (s[0] == '-' || s[0] == '+');
    var digits := if signed then s[1..] else s;
    if digits == [] || !AllDigits(digits) then Err(BadFormat(s))
    else
      var magnitude: int := DigitsValue(digits);
      var v := if signed && s[0] == '-' then -magnitude else magnitude;
      if IsInt32(v) then Ok(v) else Err(Overflow(s))
  }

  /** The decimal digits of `n`, without leading zeros. */
  function DecimalText(n: nat): (r: string)
    ensures |r| >= 1 && AllDigits(r) && DigitsValue(r) == n
    ensures r[0] != '0' || n == 0
  {
    if n < 10 then [Digit(n)]
    else
      var prefix := DecimalText(n / 10);
      var r := prefix + [Digit(n % 10)];
      assert r[..|r| - 1] == prefix;
      r
  }

  /** Parsing the decimal text of a 32-bit value gives the value back. */
  lemma ParseDecimalText(n: int)
    requires IsInt32(n)
    ensures ParseInt32(if n < 0 then "-" + DecimalText(-n) else DecimalText(n)) == Ok(n)
  {
    if n < 0 {
      var s := "-" + DecimalText(-n);
      assert s[1..] == DecimalText(-n);
    } else {
      assert DecimalText(n)[0] != '-' && DecimalText(n)[0] != '+' by {
        assert IsDigit(DecimalText(n)[0]);
      }
    }
  }

  /** A count and a unit character, as `n[u...]` writes them. */
  datatype Span = Span(count: int, unit: char)

  /**
   * Lines 125-127: the text before the first '[' is the count, the character after it the unit.
   * A count that does not parse throws first; then a missing '[' (IndexOutOfRangeException) or
   * nothing after it (`Substring(0, 1)`, ArgumentOutOfRangeException).
   */
  function ParseWindow(timeWindow: string): (r: Result<Span>)
    ensures r.Ok? ==> IsInt32(r.value.count)
  {
    var timeWindowValues := Split(timeWindow, '[');
    match ParseInt32(timeWindowValues[0])
    case Err(e) => Err(e)
    case Ok(timeWindowValue) =>
      if |timeWindowValues| < 2 then Err(IndexOutOfRange(timeWindow))
      else if timeWindowValues[1] == [] then Err(OutOfRange(timeWindowValues[1]))
      else Ok(Span(timeWindowValue, timeWindowValues[1][0]))
  }

  /** The window `n[u...]` reads as count `n` and unit `u`. */
  lemma ParseWindowOfParts(count: int, u: char, rest: string)
    requires IsInt32(count)
    requires u != '['
    ensures ParseWindow((if count < 0 then "-" + DecimalText(-count) else DecimalText(count)) + "[" + [u] + rest) ==
            Ok(Span(count, u))
  {
    var digits := if count < 0 then "-" + DecimalText(-count) else DecimalText(count);
    assert '[' !in digits by {
      if count < 0 {
        assert forall i :: 0 < i < |digits| ==> digits[i] == DecimalText(-count)[i - 1];
      }
    }
    assert digits + "[" + [u] + rest == digits + ['['] + ([u] + rest);
    SplitAtFirst(digits, '[', [u] + rest);
    var pieces := Split([u] + rest, '[');
    assert pieces[0] != [] && pieces[0][0] == u;
    ParseDecimalText(count);
  }

  /**
   * The seconds one unit stands for (the `switch` on the lower-cased unit): an hour for "h"; a
   * minute for "m" and for every other unit, the "d" the usage text offers included.
   */
  function UnitSeconds(unit: char): (r: int)
    ensures r == 3600 <==> ToLowerAscii(unit) == 'h'
    ensures r == 60 <==> ToLowerAscii(unit) != 'h'
  {
    match ToLowerAscii(unit)
    case 'm' => 60
    case 'h' => 3600
    case _ => 60
  }

  /** The two ends of the search window and the number of date anchors to search lines for. */
  datatype SearchWindow = SearchWindow(start: int, event: int, anchors: nat)

  predicate ValidWindow(w: SearchWindow)
  {
    InRange(w.start) && InRange(w.event) && (w.anchors == 1 <==> w.start == w.event) && 1 <= w.anchors <= 2
  }

  /**
   * Lines 125-146.  The start is the event moved by `-1 * n` units through
   * `AddMinutes`/`AddHours`, which throw when the result leaves the DateTime range.  It is the
   * event minus `n` units, except for `n == int.MinValue`, whose negation wraps to itself, so
   * the start is then earlier than the event by 2^31 units.  The start is never after the event
   * for `n >= 0`, and there is one anchor exactly when `n == 0`.
   */
  function ComputeWindow(eventDateTime: int, timeWindow: string): (r: Result<SearchWindow>)
    requires InRange(eventDateTime)
    ensures ParseWindow(timeWindow).Err? ==> r == Err(ParseWindow(timeWindow).error)
    ensures r.Ok? ==> ParseWindow(timeWindow).Ok? && ValidWindow(r.value) && r.value.event == eventDateTime
    ensures r.Ok? ==>
              var span := ParseWindow(timeWindow).value;
              && r.value.start == eventDateTime -
                   (if span.count == MinInt32 then -MinInt32 else span.count) * UnitSeconds(span.unit)
              && (span.count >= 0 || span.count == MinInt32 ==> r.value.start <= r.value.event)
              && (r.value.anchors == 1 <==> span.count == 0)
    ensures r.Err? && ParseWindow(timeWindow).Ok? ==> r.error == OutOfRange("DateTime")
  {
    match ParseWindow(timeWindow)
    case Err(e) => Err(e)
    case Ok(span) =>
      var delta := Wrap32(-1 * span.count);
      NegateInt32(span.count);
      match AddSeconds(eventDateTime, delta * UnitSeconds(span.unit))
      case Err(e) => Err(e)
      case Ok(startDateTime) =>
        Ok(SearchWindow(startDateTime, eventDateTime, if eventDateTime == startDateTime then 1 else 2))
  }

  /** A window given in hours, in either case, moves the start back by whole hours. */
  lemma HoursWindow(eventDateTime: int, count: nat, u: char, rest: string)
    requires InRange(eventDateTime) && IsInt32(count) && (u == 'h' || u == 'H')
    requires InRange(eventDateTime - 3600 * count)
    ensures ComputeWindow(eventDateTime, DecimalText(count) + "[" + [u] + rest) ==
            Ok(SearchWindow(eventDateTime - 3600 * count, eventDateTime, if count == 0 then 1 else 2))
  {
    var timeWindow := DecimalText(count) + "[" + [u] + rest;
    ParseWindowOfParts(count, u, rest);
    assert ParseWindow(timeWindow) == Ok(Span(count, u));
    assert UnitSeconds(u) == 3600;
    NegateInt32(count);
    assert Wrap32(-1 * count) * 3600 == -(3600 * count);
    assert AddSeconds(eventDateTime, -(3600 * count)) == Ok(eventDateTime - 3600 * count);
  }

  /** Any unit other than 'h' or 'H' counts minutes: "30[m]", "30[d]" and "30[x]" all mean thirty minutes. */
  lemma MinutesWindow(eventDateTime: int, count: nat, u: char, rest: string)
    requires InRange(eventDateTime) && IsInt32(count) && u != '[' && ToLowerAscii(u) != 'h'
    requires InRange(eventDateTime - 60 * count)
    ensures ComputeWindow(eventDateTime, DecimalText(count) + "[" + [u] + rest) ==
            Ok(SearchWindow(eventDateTime - 60 * count, eventDateTime, if count == 0 then 1 else 2))
  {
    var timeWindow := DecimalText(count) + "[" + [u] + rest;
    ParseWindowOfParts(count, u, rest);
    assert ParseWindow(timeWindow) == Ok(Span(count, u));
    assert UnitSeconds(u) == 60;
    NegateInt32(count);
    assert Wrap32(-1 * count) * 60 == -(60 * count);
    assert AddSeconds(eventDateTime, -(60 * count)) == Ok(eventDateTime - 60 * count);
  }

  /** A negative count (other than int.MinValue) puts the start after the event. */
  lemma NegativeWindow(eventDateTime: int, timeWindow: string)
    requires InRange(eventDateTime)
    requires ComputeWindow(eventDateTime, timeWindow).Ok?
    requires MinInt32 < ParseWindow(timeWindow).value.count < 0
    ensures ComputeWindow(eventDateTime, timeWindow).value.start > eventDateTime
  {
  }

  /** A window without '[' throws once its count has parsed. */
  lemma WindowWithoutBracket(count: int)
    requires IsInt32(count)
    ensures ParseWindow(if count < 0 then "-" + DecimalText(-count) else DecimalText(count)) ==
            Err(IndexOutOfRange(if count < 0 then "-" + DecimalText(-count) else DecimalText(count)))
  {
    var digits := if count < 0 then "-" + DecimalText(-count) else DecimalText(count);
    assert '[' !in digits by {
      if count < 0 {
        assert forall i :: 0 < i < |digits| ==> digits[i] == DecimalText(-count)[i - 1];
      }
    }
    SplitWithoutSeparator(digits, '[');
    ParseDecimalText(count);
  }
}
