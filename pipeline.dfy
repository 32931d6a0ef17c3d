/**
 * `main` without the command line and the file system: given the lines of the
 * log file and the optional level argument, what the script reports. Either
 * the log holds no record (the script then prints a notice and exits with
 * status 1), or it prints the summary table and, when a non-empty level was
 * given, the details for that level.
 */
module Pipeline {
  import opened Wrappers
  import opened Maps
  import opened LogParser
  import opened LogLoader
  import opened LevelCounter
  import opened Reporter

  /** What one run reports. */
  datatype Outcome =
    | EmptyLog
    | Summary(rows: seq<Row>, details: Option<Details>)

  /**
   * `main`: load the records; stop when there are none; otherwise count them
   * by level, lay out the table, and add the details when the level argument
   * is present and not empty (Python treats `""` as false).
   */
  method Summarize(lines: seq<string>, levelFilter: Option<string>) returns (outcome: Outcome)
    ensures outcome.EmptyLog? <==> LoadLogs(lines) == []
    ensures outcome.Summary? ==> SummaryRows(LevelCounts(LoadLogs(lines)), outcome.rows)
    ensures outcome.Summary? ==> RowsTotal(outcome.rows) == NonEmptyLevels(LoadLogs(lines))
    ensures outcome.Summary? ==>
      outcome.details == if levelFilter.Some? && levelFilter.value != "" then Some(DisplayLogDetails(LoadLogs(lines), levelFilter.value)) else None
  {
    var logs := LoadLogs(lines);
    if logs == [] {
      return EmptyLog;
    }
    var counts := CountLogsByLevel(logs);
    var rows := DisplayLogCounts(counts);
    SummaryRowsTotal(counts, rows);
    var details := None;
    if levelFilter.Some? && levelFilter.value != "" {
      details := Some(DisplayLogDetails(logs, levelFilter.value));
    }
    outcome := Summary(rows, details);
  }
}
