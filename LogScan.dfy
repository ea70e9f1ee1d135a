/**
 * The scan of `Main` over the matching files (MainModule.cs, lines 192-263).  Every line is
 * searched for the event date and, when the window spans two instants, for the start date; the
 * 19 characters from the anchor found, with ';' read as 'T', are parsed as a timestamp, and the
 * line is written out as `date|time|path|line` when that timestamp lies inside the window.
 * Reading a file is a parameter: it gives the file's lines, or `None` when neither the file nor
 * a read-only copy of it can be opened, in which case the exception escapes `Main`.
 */
module LogScan {
  import opened Wrappers
  import opened Text
  import opened Calendar
  import opened Window

  /** `File.OpenText` (on the file or its ".roCopy") followed by `ReadLine` up to the end of the stream. */
  type Reader = string -> Option<seq<string>>

  /** A line selected for output: the timestamp read from it, the listed path and the line itself. */
  datatype LogRecord = LogRecord(time: int, path: string, line: string)

  /** `DateTime.ToString("yyyy-MM-dd'|'HH:mm:ss")`. */
  function Stamp(t: int): (r: string)
    requires InRange(t)
    ensures |r| == 19 && r[10] == '|' && Parse(r[..10] + "T" + r[11..]) == Some(t)
  {
    var r := FormatDate(t) + "|" + FormatTime(t);
    assert r[..10] + "T" + r[11..] == FormatIso(t);
    ParseFormat(t);
    r
  }

  /** The text written for a record, `"{0}|{1}|{2}"` of its stamp, path and line. */
  function Render(r: LogRecord): (text: string)
    requires InRange(r.time)
    ensures |text| == 21 + |r.path| + |r.line|
    ensures text[..19] == Stamp(r.time) && text[19] == '|'
    ensures text[20..20 + |r.path|] == r.path && text[20 + |r.path|] == '|' && text[21 + |r.path|..] == r.line
  {
    var text := Stamp(r.time) + "|" + r.path + "|" + r.line;
    assert text == Stamp(r.time) + "|" + (r.path + "|" + r.line);
    text
  }

  predicate InWindow(w: SearchWindow, t: int)
  {
    w.start <= t <= w.event
  }

  /**
   * Lines 218-229: where the timestamp of a line is read.  An offset of 0 or -1 from `IndexOf`
   * counts as no match; the start date is preferred, and with one anchor its offset is 0.
   */
  function Anchor(w: SearchWindow, line: string): (r: Option<nat>)
    requires ValidWindow(w)
    ensures w.anchors == 2 && (exists k :: FoundAt(line, FormatDate(w.start), k)) ==>
              r.Some? && FoundAt(line, FormatDate(w.start), r.value)
    ensures !(w.anchors == 2 && exists k :: FoundAt(line, FormatDate(w.start), k)) ==>
              && (r.Some? <==> exists k :: FoundAt(line, FormatDate(w.event), k))
              && (r.Some? ==> FoundAt(line, FormatDate(w.event), r.value))
  {
    IndexOfFound(line, FormatDate(w.start));
    IndexOfFound(line, FormatDate(w.event));
    var eventDateIndex := IndexOf(line, FormatDate(w.event));
    var startDateIndex := if w.anchors == 2 then IndexOf(line, FormatDate(w.start)) else 0;
    if startDateIndex > 0 then Some(startDateIndex)
    else if eventDateIndex > 0 then Some(eventDateIndex)
    else None
  }

  /**
   * `d` first occurs in `line` at offset `k`, and `k` is past the line's start: the offsets
   * `IndexOf(line, d) > 0` counts.  An occurrence at offset 0 hides every later one.
   */
  predicate FoundAt(line: string, d: string, k: int)
  {
    0 < k && OccursAt(line, d, k) && forall j :: 0 <= j < k ==> !OccursAt(line, d, j)
  }

  /** `IndexOf` is past offset 0 exactly when the text is found there, and then gives that offset. */
  lemma IndexOfFound(line: string, d: string)
    ensures IndexOf(line, d) > 0 <==> exists k :: FoundAt(line, d, k)
    ensures IndexOf(line, d) > 0 ==> FoundAt(line, d, IndexOf(line, d))
  {
    var i := IndexOf(line, d);
    if i > 0 {
      assert FoundAt(line, d, i);
    }
    if k :| FoundAt(line, d, k) {
      assert i != -1;
      assert OccursAt(line, d, i);
      assert !(i < k) && !(k < i);
    }
  }

  /** `d` is found at no more than one offset. */
  lemma FoundAtUnique(line: string, d: string, k1: int, k2: int)
    requires FoundAt(line, d, k1) && FoundAt(line, d, k2)
    ensures k1 == k2
  {
    assert !(k1 < k2) && !(k2 < k1);
  }

  /**
   * Lines 233-235 and 247-249: the 19 characters from offset `k`, none when the line is too
   * short (`Substring` throws).  `stringDT.Substring(11)` has 8 characters, so it never equals
   * ";" and every ';' of the candidate is replaced by 'T'.
   */
  function Candidate(line: string, k: nat): (r: Option<string>)
    ensures r.Some? <==> k + 19 <= |line|
    ensures r.Some? ==> r.value == ReplaceChar(line[k..k + 19], ';', 'T')
  {
    if k + 19 > |line| then None
    else
      var stringDT := line[k..k + 19];
      Some(if stringDT[11..] != ";" then ReplaceChar(stringDT, ';', 'T') else stringDT)
  }

  /** The timestamp read off a line, if any: nothing is retried at the other anchor. */
  function LineTime(w: SearchWindow, line: string): (r: Option<int>)
    requires ValidWindow(w)
    ensures r.Some? ==> InRange(r.value)
  {
    match Anchor(w, line)
    case None => None
    case Some(k) =>
      match Candidate(line, k)
      case None => None
      case Some(stringDT) => Parse(stringDT)
  }

  /** Lines 227-263 for one line: its record when its timestamp lies in the window, both ends included. */
  function LineRecord(w: SearchWindow, path: string, line: string): (r: Option<LogRecord>)
    requires ValidWindow(w)
    ensures r.Some? ==> InRange(r.value.time) && InWindow(w, r.value.time)
    ensures r.Some? ==> r.value.path == path && r.value.line == line
  {
    match LineTime(w, line)
    case None => None
    case Some(t) => if InWindow(w, t) then Some(LogRecord(t, path, line)) else None
  }

  /** What is written for a line of a listed file: the record, if any, for a path and a line. */
  type Emitter = (string, string) -> Option<LogRecord>

  /** The per-line engine for the window `w`. */
  function LineEmitter(w: SearchWindow): Emitter
    requires ValidWindow(w)
  {
    (path, line) => LineRecord(w, path, line)
  }

  /** The records of a file's lines, in line order. */
  function FileRecords(emit: Emitter, path: string, lines: seq<string>): (r: seq<LogRecord>)
    ensures |r| <= |lines|
  {
    if lines == [] then []
    else
      FileRecords(emit, path, lines[..|lines| - 1]) +
      match emit(path, lines[|lines| - 1])
      case None => []
      case Some(record) => [record]
  }

  /** What the scan of the files writes, and the file whose opening threw, if one did. */
  datatype Emission = Emission(records: seq<LogRecord>, failed: Option<string>)

  /** The scan over the files in order; a file that cannot be opened ends it. */
  function ScanAll(emit: Emitter, files: seq<string>, reader: Reader): (e: Emission)
    ensures e.failed.Some? ==> e.failed.value in files && reader(e.failed.value).None?
  {
    if files == [] then Emission([], None)
    else
      var e := ScanAll(emit, files[..|files| - 1], reader);
      var s := files[|files| - 1];
      if e.failed.Some? then e
      else
        match reader(s)
        case None => Emission(e.records, Some(s))
        case Some(lines) => Emission(e.records + FileRecords(emit, s, lines), None)
  }

  /** Lines 215-263 for one line. */
  method ProcessLine(w: SearchWindow, s: string, line: string) returns (record: Option<LogRecord>)
    requires ValidWindow(w)
    ensures record == LineRecord(w, s, line)
  {
    record := None;
    ghost var anchor := Anchor(w, line);
    var eventDateIndex := IndexOf(line, FormatDate(w.event));
    var startDateIndex := 0;
    if w.anchors == 2 {
      startDateIndex := IndexOf(line, FormatDate(w.start));
    } else {
      startDateIndex := 0;
    }

    if startDateIndex > 0 || eventDateIndex > 0 {
      var index := if startDateIndex > 0 then startDateIndex else eventDateIndex;
      assert anchor == Some(index);
      if index + 19 > |line| {
        assert LineTime(w, line) == None;
        return;
      }
      var stringDT := line[index..index + 19];
      if stringDT[11..] != ";" {
        stringDT := ReplaceChar(stringDT, ';', 'T');
      }
      assert Candidate(line, index) == Some(stringDT);
      var dateDT := Parse(stringDT);
      assert LineTime(w, line) == dateDT;
      if dateDT.None? {
        return;
      }
      if w.start <= dateDT.value && dateDT.value <= w.event {
        record := Some(LogRecord(dateDT.value, s, line));
      }
    } else {
      assert anchor == None;
    }
  }

  /** Lines 213-264: the loop over the lines of one file. */
  method ScanLines(w: SearchWindow, s: string, lines: seq<string>) returns (records: seq<LogRecord>)
    requires ValidWindow(w)
    ensures records == FileRecords(LineEmitter(w), s, lines)
  {
    records := [];
    var n := 0;
    while n < |lines|
      invariant n <= |lines|
      invariant records == FileRecords(LineEmitter(w), s, lines[..n])
    {
      var line := lines[n];
      n := n + 1;
      assert lines[..n][..n - 1] == lines[..n - 1];
      var record := ProcessLine(w, s, line);
      if record.Some? {
        records := records + [record.value];
      }
    }
    assert lines[..n] == lines;
  }

  /** Lines 192-270: every file in turn, its lines read from the file itself or its read-only copy. */
  method ScanFiles(w: SearchWindow, matchingFiles: seq<string>, reader: Reader) returns (records: seq<LogRecord>, failed: Option<string>)
    requires ValidWindow(w)
    ensures Emission(records, failed) == ScanAll(LineEmitter(w), matchingFiles, reader)
  {
    records := [];
    for i := 0 to |matchingFiles|
      invariant ScanAll(LineEmitter(w), matchingFiles[..i], reader) == Emission(records, None)
    {
      var s := matchingFiles[i];
      assert matchingFiles[..i + 1][..i] == matchingFiles[..i];
      var lines := reader(s);
      if lines.None? {
        ScanAllStopsAtFailure(LineEmitter(w), matchingFiles, i + 1, reader);
        return records, Some(s);
      }
      var more := ScanLines(w, s, lines.value);
      records := records + more;
    }
    assert matchingFiles[..|matchingFiles|] == matchingFiles;
    failed := None;
  }

  /** Once a file could not be opened, the later files are not scanned. */
  lemma {:induction false} ScanAllStopsAtFailure(emit: Emitter, files: seq<string>, i: nat, reader: Reader)
    requires i <= |files| && ScanAll(emit, files[..i], reader).failed.Some?
    ensures ScanAll(emit, files, reader) == ScanAll(emit, files[..i], reader)
    decreases |files| - i
  {
    if i < |files| {
      assert files[..i + 1][..i] == files[..i];
      ScanAllStopsAtFailure(emit, files, i + 1, reader);
    } else {
      assert files[..i] == files;
    }
  }

  // ----- Properties of the line engine -----

  /** The records of consecutive runs of lines follow each other: lines keep their order. */
  lemma {:induction false} FileRecordsAppend(emit: Emitter, path: string, a: seq<string>, b: seq<string>)
    ensures FileRecords(emit, path, a + b) == FileRecords(emit, path, a) + FileRecords(emit, path, b)
    decreases |b|
  {
    if b == [] {
      assert a + b == a;
    } else {
      var all := a + b;
      var init := b[..|b| - 1];
      assert all[..|all| - 1] == a + init && all[|all| - 1] == b[|b| - 1];
      FileRecordsAppend(emit, path, a, init);
    }
  }

  /** A single line gives its own record, if any. */
  lemma FileRecordsSingle(emit: Emitter, path: string, line: string)
    ensures FileRecords(emit, path, [line]) ==
              match emit(path, line)
              case None => []
              case Some(record) => [record]
  {
    assert [line][..0] == [];
  }

  /** Every record is the record of one of the file's lines. */
  lemma {:induction false} FileRecordsSound(emit: Emitter, path: string, lines: seq<string>)
    ensures forall i :: 0 <= i < |FileRecords(emit, path, lines)| ==>
              exists j :: 0 <= j < |lines| && emit(path, lines[j]) == Some(FileRecords(emit, path, lines)[i])
  {
    if lines != [] {
      var init := lines[..|lines| - 1];
      FileRecordsSound(emit, path, init);
      var rs, rs0 := FileRecords(emit, path, lines), FileRecords(emit, path, init);
      var n := |lines| - 1;
      var tail := match emit(path, lines[n]) case None => [] case Some(record) => [record];
      assert rs == rs0 + tail;
      forall i | 0 <= i < |rs|
        ensures exists j :: 0 <= j < |lines| && emit(path, lines[j]) == Some(rs[i])
      {
        if i < |rs0| {
          var j :| 0 <= j < |init| && emit(path, init[j]) == Some(rs0[i]);
          assert rs[i] == rs0[i];
          assert lines[j] == init[j];
        } else {
          assert emit(path, lines[n]) == Some(rs[i]);
        }
      }
    } else {
      assert FileRecords(emit, path, lines) == [];
    }
  }

  /** The written text starts with the record's timestamp, which reads back to that instant. */
  lemma RenderReadsBack(r: LogRecord)
    requires InRange(r.time)
    ensures var text := Render(r);
            |text| >= 19 && text[10] == '|' && text[19] == '|' && Parse(text[..10] + "T" + text[11..19]) == Some(r.time)
  {
    var text := Render(r);
    var date, time := FormatDate(r.time), FormatTime(r.time);
    assert text == date + "|" + time + "|" + r.path + "|" + r.line;
    assert |date| == 10 && |time| == 8;
    assert text[..10] == date;
    assert text[11..19] == time;
    ParseFormat(r.time);
  }

  /** With a single anchor, a line whose first occurrence of the event date is at its very start is never written. */
  lemma DateAtLineStartIgnored(w: SearchWindow, path: string, line: string)
    requires ValidWindow(w) && w.anchors == 1
    requires OccursAt(line, FormatDate(w.event), 0)
    ensures LineRecord(w, path, line) == None
  {
    assert IndexOf(line, FormatDate(w.event)) == 0;
  }

  /** A line holding neither date is never written. */
  lemma NoDateNoRecord(w: SearchWindow, path: string, line: string)
    requires ValidWindow(w)
    requires forall k :: !OccursAt(line, FormatDate(w.event), k)
    requires forall k :: !OccursAt(line, FormatDate(w.start), k)
    ensures LineRecord(w, path, line) == None
  {
  }

  /**
   * When the start date is found past offset 0 but what follows it does not parse, the line is
   * dropped even if the event date elsewhere is followed by a timestamp in the window.
   */
  lemma NoRetryAtEventDate(w: SearchWindow, path: string, line: string)
    requires ValidWindow(w) && w.anchors == 2
    requires IndexOf(line, FormatDate(w.start)) > 0
    requires var k := IndexOf(line, FormatDate(w.start));
             k + 19 > |line| || Parse(ReplaceChar(line[k..k + 19], ';', 'T')).None?
    ensures LineRecord(w, path, line) == None
  {
    var k := IndexOf(line, FormatDate(w.start));
    assert Anchor(w, line) == Some(k);
    assert LineTime(w, line) == None by {
      if k + 19 <= |line| {
        assert Candidate(line, k) == Some(ReplaceChar(line[k..k + 19], ';', 'T'));
      }
    }
  }

  /** A timestamp's date and time have no ';'. */
  lemma NoSemicolon(t: int)
    requires InRange(t)
    ensures ';' !in FormatDate(t) && ';' !in FormatTime(t)
  {
    var date, time := FormatDate(t), FormatTime(t);
    forall i | 0 <= i < |date|
      ensures date[i] != ';'
    {
      if i < 4 { assert date[0..4][i] == date[i]; }
      else if 4 < i < 7 { assert date[5..7][i - 5] == date[i]; }
      else if 7 < i { assert date[8..10][i - 8] == date[i]; }
    }
    forall i | 0 <= i < |time|
      ensures time[i] != ';'
    {
      if i < 2 { assert time[0..2][i] == time[i]; }
      else if 2 < i < 5 { assert time[3..5][i - 3] == time[i]; }
      else if 5 < i { assert time[6..8][i - 6] == time[i]; }
    }
  }

  /**
   * A line whose anchor is followed by the text of an instant, with ';' read as 'T', is written
   * with that instant exactly when the instant lies inside the window.
   */
  lemma AnchoredStampRead(w: SearchWindow, path: string, line: string, k: nat, t: int)
    requires ValidWindow(w) && InRange(t)
    requires Anchor(w, line) == Some(k) && k + 19 <= |line|
    requires ReplaceChar(line[k..k + 19], ';', 'T') == FormatIso(t)
    ensures LineRecord(w, path, line) == if InWindow(w, t) then Some(LogRecord(t, path, line)) else None
  {
    assert Candidate(line, k) == Some(FormatIso(t));
    ParseFormat(t);
    assert LineTime(w, line) == Some(t);
  }

  /** The date and time of `t` joined by ';' or by 'T' read as the ISO text of `t`. */
  lemma SeparatorReadAsT(t: int, sep: char)
    requires InRange(t) && (sep == ';' || sep == 'T')
    ensures ReplaceChar(FormatDate(t) + [sep] + FormatTime(t), ';', 'T') == FormatIso(t)
  {
    var date, time := FormatDate(t), FormatTime(t);
    NoSemicolon(t);
    var text, iso := date + [sep] + time, date + "T" + time;
    var replaced := ReplaceChar(text, ';', 'T');
    assert |replaced| == |iso|;
    forall i | 0 <= i < |text|
      ensures replaced[i] == iso[i]
    {
      if i < |date| {
        assert text[i] == date[i] && iso[i] == date[i];
      } else if i > |date| {
        assert text[i] == time[i - |date| - 1] && iso[i] == time[i - |date| - 1];
      }
    }
  }

  /** The stamp `date sep time` of `t` starting at offset |pre| of the line. */
  lemma StampAt(pre: string, t: int, sep: char, post: string, line: string)
    requires InRange(t) && (sep == ';' || sep == 'T')
    requires line == pre + FormatDate(t) + [sep] + FormatTime(t) + post
    ensures |pre| + 19 <= |line| && OccursAt(line, FormatDate(t), |pre|)
    ensures ReplaceChar(line[|pre|..|pre| + 19], ';', 'T') == FormatIso(t)
  {
    var date, time := FormatDate(t), FormatTime(t);
    var k := |pre|;
    var text := date + [sep] + time;
    assert line == pre + text + post;
    assert line[k..k + 19] == text;
    assert line[k..k + 10] == date;
    SeparatorReadAsT(t, sep);
  }

  /**
   * A line `pre + "yyyy-MM-dd?HH:mm:ss" + post`, '?' being ';' or 'T', whose stamp is the first
   * occurrence of the event date, past offset 0, is written with that instant when it lies inside
   * the window, provided the start date does not take precedence: there is one anchor, the start
   * falls on the event day, or the start date is found at no offset past 0.
   */
  lemma EventDateStampWritten(w: SearchWindow, path: string, pre: string, t: int, sep: char, post: string, line: string)
    requires ValidWindow(w) && InRange(t) && InWindow(w, t) && (sep == ';' || sep == 'T')
    requires FormatDate(t) == FormatDate(w.event)
    requires w.anchors == 1 || FormatDate(w.start) == FormatDate(w.event) ||
             forall j :: !FoundAt(line, FormatDate(w.start), j)
    requires line == pre + FormatDate(t) + [sep] + FormatTime(t) + post
    requires |pre| > 0 && forall k :: 0 <= k < |pre| ==> !OccursAt(line, FormatDate(w.event), k)
    ensures LineRecord(w, path, line) == Some(LogRecord(t, path, line))
  {
    var k := |pre|;
    StampAt(pre, t, sep, post, line);
    assert FoundAt(line, FormatDate(w.event), k);
    var a := Anchor(w, line);
    if w.anchors == 2 && exists j :: FoundAt(line, FormatDate(w.start), j) {
      FoundAtUnique(line, FormatDate(w.start), a.value, k);
    } else {
      FoundAtUnique(line, FormatDate(w.event), a.value, k);
    }
    AnchoredStampRead(w, path, line, k, t);
  }

  /**
   * With two anchors, a line `pre + "yyyy-MM-dd?HH:mm:ss" + post` whose stamp is the first
   * occurrence of the start date, past offset 0, is written with that instant when it lies
   * inside the window, wherever the event date occurs.
   */
  lemma StartDateStampWritten(w: SearchWindow, path: string, pre: string, t: int, sep: char, post: string, line: string)
    requires ValidWindow(w) && w.anchors == 2 && InRange(t) && InWindow(w, t) && (sep == ';' || sep == 'T')
    requires FormatDate(t) == FormatDate(w.start)
    requires line == pre + FormatDate(t) + [sep] + FormatTime(t) + post
    requires |pre| > 0 && forall k :: 0 <= k < |pre| ==> !OccursAt(line, FormatDate(w.start), k)
    ensures LineRecord(w, path, line) == Some(LogRecord(t, path, line))
  {
    var k := |pre|;
    StampAt(pre, t, sep, post, line);
    assert FoundAt(line, FormatDate(w.start), k);
    FoundAtUnique(line, FormatDate(w.start), Anchor(w, line).value, k);
    AnchoredStampRead(w, path, line, k, t);
  }

  // ----- Properties of the scan over the files -----

  /** Scanning two runs of files one after the other: records in file order, stopping at the first failure. */
  lemma {:induction false} ScanAllAppend(emit: Emitter, a: seq<string>, b: seq<string>, reader: Reader)
    ensures ScanAll(emit, a + b, reader) ==
              if ScanAll(emit, a, reader).failed.Some? then ScanAll(emit, a, reader)
              else Emission(ScanAll(emit, a, reader).records + ScanAll(emit, b, reader).records, ScanAll(emit, b, reader).failed)
    decreases |b|
  {
    var ea := ScanAll(emit, a, reader);
    if b == [] {
      assert a + b == a;
      assert ea.records + [] == ea.records;
    } else {
      var init, s := b[..|b| - 1], b[|b| - 1];
      assert a + b == (a + init) + [s];
      assert b == init + [s];
      ScanAllAppend(emit, a, init, reader);
      ScanAllSnoc(emit, a + init, s, reader);
      ScanAllSnoc(emit, init, s, reader);
      if ea.failed.None? {
        var ei := ScanAll(emit, init, reader);
        if ei.failed.None? {
          match reader(s)
          case None =>
          case Some(lines) =>
            assert ea.records + ei.records + FileRecords(emit, s, lines) ==
                   ea.records + (ei.records + FileRecords(emit, s, lines));
        }
      }
    }
  }

  /** One more file after `files`: its records follow, unless the scan already stopped or it cannot be opened. */
  lemma ScanAllSnoc(emit: Emitter, files: seq<string>, s: string, reader: Reader)
    ensures var e := ScanAll(emit, files, reader);
            ScanAll(emit, files + [s], reader) ==
              if e.failed.Some? then e
              else match reader(s)
                   case None => Emission(e.records, Some(s))
                   case Some(lines) => Emission(e.records + FileRecords(emit, s, lines), None)
  {
    var all := files + [s];
    assert all[..|all| - 1] == files && all[|all| - 1] == s;
  }

  /**
   * Every record written comes from a line of one of the files that could be opened, under that
   * file's listed path.
   */
  lemma {:induction false} ScanAllSound(emit: Emitter, files: seq<string>, reader: Reader)
    ensures FromFiles(emit, files, reader, ScanAll(emit, files, reader).records)
  {
    if files != [] {
      var init, s := files[..|files| - 1], files[|files| - 1];
      assert files == init + [s];
      ScanAllSound(emit, init, reader);
      ScanAllSnoc(emit, init, s, reader);
      var e := ScanAll(emit, init, reader);
      var rs := ScanAll(emit, files, reader).records;
      forall i | 0 <= i < |rs|
        ensures exists k :: 0 <= k < |files| && reader(files[k]).Some? && FromFile(emit, files[k], reader(files[k]).value, rs[i])
      {
        if i < |e.records| {
          assert rs[i] == e.records[i];
          var k :| 0 <= k < |init| && reader(init[k]).Some? && FromFile(emit, init[k], reader(init[k]).value, e.records[i]);
          assert files[k] == init[k];
        } else {
          var lines := reader(s).value;
          var more := FileRecords(emit, s, lines);
          assert rs == e.records + more;
          assert rs[i] == more[i - |e.records|];
          FileRecordsSound(emit, s, lines);
          assert files[|files| - 1] == s;
        }
      }
    }
  }

  /**
   * What the scan over the files writes with the line engine of `w`: records inside the window,
   * each a line of one of the files, under that file's listed path.
   */
  lemma WindowScanSound(w: SearchWindow, files: seq<string>, reader: Reader)
    requires ValidWindow(w)
    ensures var rs := ScanAll(LineEmitter(w), files, reader).records;
            forall i :: 0 <= i < |rs| ==>
              && InWindow(w, rs[i].time)
              && exists k :: 0 <= k < |files| && files[k] == rs[i].path && reader(files[k]).Some? &&
                               rs[i].line in reader(files[k]).value
  {
    var emit := LineEmitter(w);
    var rs := ScanAll(emit, files, reader).records;
    ScanAllSound(emit, files, reader);
    forall i | 0 <= i < |rs|
      ensures && InWindow(w, rs[i].time)
              && exists k :: 0 <= k < |files| && files[k] == rs[i].path && reader(files[k]).Some? &&
                               rs[i].line in reader(files[k]).value
    {
      var k :| 0 <= k < |files| && reader(files[k]).Some? && FromFile(emit, files[k], reader(files[k]).value, rs[i]);
      var lines := reader(files[k]).value;
      var j :| 0 <= j < |lines| && emit(files[k], lines[j]) == Some(rs[i]);
      assert LineRecord(w, files[k], lines[j]) == Some(rs[i]);
    }
  }

  /** Every one of `rs` is what `emit` gives for a line of one of the `files` that could be opened. */
  predicate FromFiles(emit: Emitter, files: seq<string>, reader: Reader, rs: seq<LogRecord>)
  {
    forall i :: 0 <= i < |rs| ==>
      exists k :: 0 <= k < |files| && reader(files[k]).Some? && FromFile(emit, files[k], reader(files[k]).value, rs[i])
  }

  /** `r` is what `emit` gives for one of `lines` of the file at `path`. */
  predicate FromFile(emit: Emitter, path: string, lines: seq<string>, r: LogRecord)
  {
    exists j :: 0 <= j < |lines| && emit(path, lines[j]) == Some(r)
  }

  /** The scan completes exactly when every file can be opened. */
  lemma {:induction false} ScanAllCompletesIff(emit: Emitter, files: seq<string>, reader: Reader)
    ensures ScanAll(emit, files, reader).failed.None? <==> forall i :: 0 <= i < |files| ==> reader(files[i]).Some?
  {
    if files != [] {
      var init := files[..|files| - 1];
      ScanAllCompletesIff(emit, init, reader);
      assert forall i :: 0 <= i < |init| ==> init[i] == files[i];
    }
  }

  /**
   * When a file cannot be opened, it is the first such file, and what was written before is
   * exactly the records of the files before it.
   */
  lemma {:induction false} ScanAllFailure(emit: Emitter, files: seq<string>, reader: Reader)
    requires ScanAll(emit, files, reader).failed.Some?
    ensures exists i :: 0 <= i < |files| && files[i] == ScanAll(emit, files, reader).failed.value &&
              reader(files[i]).None? && ScanAll(emit, files[..i], reader) == Emission(ScanAll(emit, files, reader).records, None)
  {
    var init, s := files[..|files| - 1], files[|files| - 1];
    if ScanAll(emit, init, reader).failed.Some? {
      ScanAllFailure(emit, init, reader);
      var i :| 0 <= i < |init| && init[i] == ScanAll(emit, init, reader).failed.value &&
               reader(init[i]).None? && ScanAll(emit, init[..i], reader) == Emission(ScanAll(emit, init, reader).records, None);
      assert files[i] == init[i] && files[..i] == init[..i];
    } else {
      assert files[..|files| - 1] == init;
    }
  }
}
