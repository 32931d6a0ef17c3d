/**
 * Parsing one log line into a record (`parse_log_line`). The stripped line is
 * cut at its first three single space characters: the three pieces before the
 * cuts become date, time and level, and the rest of the line the message.
 * Because the separator is one space and not a run of whitespace, doubled
 * spaces give empty fields, and the message keeps any spaces of its own.
 */
module LogParser {
  import opened Text
  import opened Wrappers

  /** One parsed log entry; the source keeps it as a dictionary with these four keys. */
  datatype LogRecord = LogRecord(date: string, time: string, level: string, message: string)

  /** The four fields joined by single spaces, as they stood on the stripped line. */
  function Line(r: LogRecord): string {
    r.date + " " + r.time + " " + r.level + " " + r.message
  }

  /** The record has the shape parsing gives: no space in date, time or level. */
  predicate WellFormed(r: LogRecord) {
    ' ' !in r.date && ' ' !in r.time && ' ' !in r.level
  }

  lemma JoinFour(parts: seq<string>, sep: char)
    requires |parts| == 4
    ensures Join(parts, sep) == parts[0] + [sep] + parts[1] + [sep] + parts[2] + [sep] + parts[3]
  {
    assert parts[1..][0] == parts[1] && parts[1..][1..] == parts[2..];
    assert parts[2..][0] == parts[2] && parts[2..][1..] == [parts[3]];
    assert Join(parts[2..], sep) == parts[2] + [sep] + parts[3];
    assert Join(parts[1..], sep) == parts[1] + [sep] + (parts[2] + [sep] + parts[3]);
  }

  /**
   * `parse_log_line`: no record (the source's empty dictionary) exactly when
   * the stripped line holds fewer than three spaces; otherwise a well-formed
   * record whose fields, joined by single spaces, give back the stripped line.
   */
  function ParseLogLine(line: string): (r: Option<LogRecord>)
    ensures r.None? <==> Occurrences(Strip(line), ' ') < 3
    ensures r.Some? ==> WellFormed(r.value) && Line(r.value) == Strip(line)
  {
    var parts := Split(Strip(line), ' ', 3);
    SplitLength(Strip(line), ' ', 3);
    if |parts| < 4 then None
    else
      SplitJoin(Strip(line), ' ', 3);
      SplitPartsFree(Strip(line), ' ', 3);
      JoinFour(parts, ' ');
      Some(LogRecord(parts[0], parts[1], parts[2], parts[3]))
  }

  /**
   * The converse of the round trip: a well-formed record, written out as a
   * line with nothing to strip, parses back to itself.
   */
  lemma ParseLine(r: LogRecord)
    requires WellFormed(r) && IsStripped(Line(r))
    ensures ParseLogLine(Line(r)) == Some(r)
  {
    SplitLine(r);
    StripStripped(Line(r));
  }

  /** Splitting the written-out line of a well-formed record gives its four fields. */
  lemma SplitLine(r: LogRecord)
    requires WellFormed(r)
    ensures Split(Line(r), ' ', 3) == [r.date, r.time, r.level, r.message]
  {
    assert Line(r) == r.date + [' '] + r.time + [' '] + r.level + [' '] + r.message;
    SplitThreeWords(r.date, r.time, r.level, r.message, ' ');
  }

  /** A doubled space before the level gives a record with an empty level. */
  lemma DoubledSpaceGivesEmptyLevel()
    ensures ParseLogLine("d t  x y") == Some(LogRecord("d", "t", "", "x y"))
  {
    var r := LogRecord("d", "t", "", "x y");
    assert Line(r) == "d t  x y";
    ParseLine(r);
  }

  /** A doubled space after the level puts a leading space into the message. */
  lemma DoubledSpaceGivesLeadingSpaceInMessage()
    ensures ParseLogLine("d t x  y") == Some(LogRecord("d", "t", "x", " y"))
  {
    var r := LogRecord("d", "t", "x", " y");
    assert Line(r) == "d t x  y";
    ParseLine(r);
  }

  /** A line with a single space in it is not a log record. */
  lemma BadLineRejected()
    ensures ParseLogLine("bad line") == None
  {
    StripStripped("bad line");
    assert "bad line" == "bad" + " " + "line";
    OccurrencesAbsent("bad", ' ');
    OccurrencesAbsent("line", ' ');
    OccurrencesAppend("bad", " ", ' ');
    OccurrencesAppend("bad" + " ", "line", ' ');
  }
}
