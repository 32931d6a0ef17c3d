/**
 * The list processing of `load_logs`, over the lines of the file already read:
 * parse every line that is not blank after stripping (the list
 * comprehension), then keep the results that are records (the filter that
 * drops the empty dictionaries).
 */
module LogLoader {
  import opened Text
  import opened Wrappers
  import opened LogParser
  import opened Seqs

  /** `[parse_log_line(line) for line in lines if line.strip()]` */
  function ParseNonBlank(lines: seq<string>): (parsed: seq<Option<LogRecord>>)
    ensures |parsed| <= |lines|
  {
    if lines == [] then [] else ParseIfNonBlank(lines[0]) + ParseNonBlank(lines[1..])
  }

  /** One step of the comprehension: the parse result of a non-blank line, nothing for a blank one. */
  function ParseIfNonBlank(line: string): (parsed: seq<Option<LogRecord>>)
    ensures |parsed| <= 1
  {
    if Strip(line) != [] then [ParseLogLine(line)] else []
  }

  /** `list(filter(lambda log: log, parsed))`: the records, without the failed parses. */
  function KeepRecords(parsed: seq<Option<LogRecord>>): (logs: seq<LogRecord>)
    ensures |logs| <= |parsed|
  {
    if parsed == [] then []
    else (if parsed[0].Some? then [parsed[0].value] else []) + KeepRecords(parsed[1..])
  }

  /** `load_logs` once the file's lines are in hand. */
  function LoadLogs(lines: seq<string>): (logs: seq<LogRecord>)
    ensures |logs| <= |lines|
  {
    KeepRecords(ParseNonBlank(lines))
  }

  /** What loading does with a single line: its record if it parses, nothing otherwise. */
  function LineRecords(line: string): seq<LogRecord> {
    match ParseLogLine(line)
    case Some(r) => [r]
    case None => []
  }

  lemma {:induction false} ParseNonBlankAppend(a: seq<string>, b: seq<string>)
    ensures ParseNonBlank(a + b) == ParseNonBlank(a) + ParseNonBlank(b)
  {
    if a == [] {
      assert a + b == b;
    } else {
      AppendFront(a, b);
      ParseNonBlankAppend(a[1..], b);
      AppendAssoc(ParseIfNonBlank(a[0]), ParseNonBlank(a[1..]), ParseNonBlank(b));
    }
  }

  lemma {:induction false} KeepRecordsAppend(a: seq<Option<LogRecord>>, b: seq<Option<LogRecord>>)
    ensures KeepRecords(a + b) == KeepRecords(a) + KeepRecords(b)
  {
    if a == [] {
      assert a + b == b;
    } else {
      AppendFront(a, b);
      KeepRecordsAppend(a[1..], b);
      AppendAssoc(if a[0].Some? then [a[0].value] else [], KeepRecords(a[1..]), KeepRecords(b));
    }
  }

  /** Loading works line by line: the records of two stretches of lines, in order. */
  lemma LoadLogsAppend(a: seq<string>, b: seq<string>)
    ensures LoadLogs(a + b) == LoadLogs(a) + LoadLogs(b)
  {
    ParseNonBlankAppend(a, b);
    KeepRecordsAppend(ParseNonBlank(a), ParseNonBlank(b));
  }

  /**
   * One line yields its parse result when that is a record and nothing
   * otherwise; a blank line yields nothing, so skipping blank lines before
   * parsing does not change the result.
   */
  lemma LoadLogsSingle(line: string)
    ensures LoadLogs([line]) == LineRecords(line)
  {
    assert [line][1..] == [];
    if Strip(line) == [] {
      assert ParseLogLine(line).None?;
    }
  }

  /**
   * The records loaded from `lines` are exactly the parse results of its
   * lines, in line order: a line-by-line description with no blank-line test.
   */
  lemma {:induction false} LoadLogsByLine(lines: seq<string>)
    ensures LoadLogs(lines) == if lines == [] then [] else LineRecords(lines[0]) + LoadLogs(lines[1..])
  {
    if lines != [] {
      assert lines == [lines[0]] + lines[1..];
      LoadLogsAppend([lines[0]], lines[1..]);
      LoadLogsSingle(lines[0]);
    }
  }

  /** Every line parsed, blank or not: `[parse_log_line(line) for line in lines]`. */
  function ParseAll(lines: seq<string>): (parsed: seq<Option<LogRecord>>)
    ensures |parsed| == |lines| && forall i :: 0 <= i < |lines| ==> parsed[i] == ParseLogLine(lines[i])
  {
    if lines == [] then [] else [ParseLogLine(lines[0])] + ParseAll(lines[1..])
  }

  /** Skipping blank lines before parsing loses nothing: a blank line never parses to a record. */
  lemma {:induction false} LoadLogsParseAll(lines: seq<string>)
    ensures LoadLogs(lines) == KeepRecords(ParseAll(lines))
  {
    if lines != [] {
      var first, rest := lines[0], lines[1..];
      LoadLogsParseAll(rest);
      KeepRecordsAppend(ParseIfNonBlank(first), ParseNonBlank(rest));
      KeepRecordsAppend([ParseLogLine(first)], ParseAll(rest));
      assert [ParseLogLine(first)][1..] == [];
      if Strip(first) == [] {
        assert ParseLogLine(first).None?;
      }
    }
  }

  /** The records kept are exactly the successful parse results. */
  lemma {:induction false} KeepRecordsMember(parsed: seq<Option<LogRecord>>, r: LogRecord)
    ensures r in KeepRecords(parsed) <==> Some(r) in parsed
  {
    if parsed != [] {
      KeepRecordsMember(parsed[1..], r);
      assert parsed == [parsed[0]] + parsed[1..];
    }
  }

  /**
   * A record is loaded exactly when some line of the file parses to it: no
   * record is invented, and none that parses is lost.
   */
  lemma LoadLogsMember(lines: seq<string>, r: LogRecord)
    ensures r in LoadLogs(lines) <==> exists i :: 0 <= i < |lines| && ParseLogLine(lines[i]) == Some(r)
  {
    var parsed := ParseAll(lines);
    LoadLogsParseAll(lines);
    KeepRecordsMember(parsed, r);
    if exists i :: 0 <= i < |lines| && ParseLogLine(lines[i]) == Some(r) {
      var i :| 0 <= i < |lines| && ParseLogLine(lines[i]) == Some(r);
      assert parsed[i] == Some(r);
    }
  }

  /** A record with an empty level, from a doubled space, is still loaded. */
  lemma EmptyLevelKept()
    ensures LoadLogs(["d t  x y"]) == [LogRecord("d", "t", "", "x y")]
  {
    DoubledSpaceGivesEmptyLevel();
    LoadLogsSingle("d t  x y");
  }

  /** A file whose only line is `bad line` loads no record. */
  lemma BadLineDropped()
    ensures LoadLogs(["bad line"]) == []
  {
    BadLineRejected();
    LoadLogsSingle("bad line");
  }
}
