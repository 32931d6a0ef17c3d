/**
 * `filter_logs_by_level`: the records whose level equals the requested level
 * once both are upper-cased, in their original order.
 */
module LevelFilter {
  import opened Text
  import opened Seqs
  import opened LogParser

  /** The lambda passed to `filter`: the record's level matches, ignoring case. */
  predicate MatchesLevel(r: LogRecord, level: string) {
    Upper(r.level) == Upper(level)
  }

  /**
   * `filter_logs_by_level`: every record of the result matches the level,
   * and every matching record of the input is in the result.
   */
  function FilterByLevel(logs: seq<LogRecord>, level: string): (matching: seq<LogRecord>)
    ensures |matching| <= |logs|
    ensures forall r :: r in matching ==> r in logs && MatchesLevel(r, level)
    ensures forall r :: r in logs && MatchesLevel(r, level) ==> r in matching
  {
    if logs == [] then []
    else (if MatchesLevel(logs[0], level) then [logs[0]] else []) + FilterByLevel(logs[1..], level)
  }

  /** The result keeps the input's order: it is a subsequence of the input. */
  lemma {:induction false} FilterIsSubsequence(logs: seq<LogRecord>, level: string)
    ensures IsSubsequence(FilterByLevel(logs, level), logs)
  {
    if logs != [] {
      var rest := FilterByLevel(logs[1..], level);
      FilterIsSubsequence(logs[1..], level);
      if MatchesLevel(logs[0], level) {
        assert ([logs[0]] + rest)[1..] == rest;
      } else {
        assert [] + rest == rest;
        if rest != [] {
          assert IsSubsequence(rest, logs[1..]);
        }
      }
    }
  }

  /**
   * Each matching record occurs in the result as often as in the input, and
   * no other record occurs at all; with the subsequence property this pins
   * the result down.
   */
  lemma {:induction false} FilterMultiplicity(logs: seq<LogRecord>, level: string, r: LogRecord)
    ensures multiset(FilterByLevel(logs, level))[r] == if MatchesLevel(r, level) then multiset(logs)[r] else 0
  {
    if logs != [] {
      var head := if MatchesLevel(logs[0], level) then [logs[0]] else [];
      var rest := FilterByLevel(logs[1..], level);
      FilterMultiplicity(logs[1..], level, r);
      assert multiset(head + rest) == multiset(head) + multiset(rest);
      assert logs == [logs[0]] + logs[1..];
      assert multiset(logs) == multiset([logs[0]]) + multiset(logs[1..]);
    }
  }

  /** Levels that agree once upper-cased select the same records. */
  lemma {:induction false} FilterCaseInsensitive(logs: seq<LogRecord>, a: string, b: string)
    requires Upper(a) == Upper(b)
    ensures FilterByLevel(logs, a) == FilterByLevel(logs, b)
  {
    if logs != [] {
      FilterCaseInsensitive(logs[1..], a, b);
    }
  }

  /** Asking for `error` or for `ERROR` gives the same records. */
  lemma FilterErrorEitherCase(logs: seq<LogRecord>)
    ensures FilterByLevel(logs, "error") == FilterByLevel(logs, "ERROR")
  {
    assert Upper("error") == "ERROR";
    assert Upper("ERROR") == "ERROR";
    FilterCaseInsensitive(logs, "error", "ERROR");
  }
}
