/**
 * `count_logs_by_level`: how many records carry each level, keyed by the
 * level exactly as written (no case folding); records with an empty level,
 * which a doubled space in a line produces, are not counted.
 */
module LevelCounter {
  import opened Maps
  import opened LogParser

  /** The number of records whose level is exactly `level`. */
  function LevelCount(logs: seq<LogRecord>, level: string): nat {
    if logs == [] then 0
    else LevelCount(logs[..|logs| - 1], level) + (if logs[|logs| - 1].level == level then 1 else 0)
  }

  /** The number of records whose level is not empty. */
  function NonEmptyLevels(logs: seq<LogRecord>): nat {
    if logs == [] then 0
    else NonEmptyLevels(logs[..|logs| - 1]) + (if logs[|logs| - 1].level != "" then 1 else 0)
  }

  /** The levels that occur in `logs`. */
  function LevelsOf(logs: seq<LogRecord>): set<string> {
    set i | 0 <= i < |logs| :: logs[i].level
  }

  /** The table `count_logs_by_level` is meant to build: every non-empty level that occurs, with its number of records. */
  function LevelCounts(logs: seq<LogRecord>): map<string, nat> {
    map level | level in LevelsOf(logs) && level != "" :: LevelCount(logs, level)
  }

  /** A level occurs in `logs` exactly when some record carries it. */
  lemma {:induction false} LevelCountPositive(logs: seq<LogRecord>, level: string)
    ensures level in LevelsOf(logs) <==> LevelCount(logs, level) > 0
  {
    if logs != [] {
      var init := logs[..|logs| - 1];
      LevelCountPositive(init, level);
      assert LevelsOf(logs) == LevelsOf(init) + {logs[|logs| - 1].level} by {
        forall x | x in LevelsOf(logs) ensures x in LevelsOf(init) + {logs[|logs| - 1].level} {
          var i :| 0 <= i < |logs| && logs[i].level == x;
          if i < |logs| - 1 { assert init[i] == logs[i]; }
        }
        forall x | x in LevelsOf(init) ensures x in LevelsOf(logs) {
          var i :| 0 <= i < |init| && init[i].level == x;
          assert logs[i] == init[i];
        }
      }
    }
  }

  /** Every key of the table is a non-empty level, counted by how many records carry it. */
  lemma LevelCountsKeys(logs: seq<LogRecord>, level: string)
    ensures level in LevelCounts(logs) <==> level != "" && LevelCount(logs, level) > 0
    ensures level in LevelCounts(logs) ==> LevelCounts(logs)[level] == LevelCount(logs, level)
  {
    LevelCountPositive(logs, level);
  }

  /** One more record adds one to its level's count, or changes nothing when its level is empty. */
  lemma LevelCountsSnoc(logs: seq<LogRecord>, r: LogRecord)
    ensures LevelCounts(logs + [r]) ==
      if r.level == "" then LevelCounts(logs)
      else LevelCounts(logs)[r.level := (if r.level in LevelCounts(logs) then LevelCounts(logs)[r.level] else 0) + 1]
  {
    var logs' := logs + [r];
    assert logs'[..|logs'| - 1] == logs;
    var before, after := LevelCounts(logs), LevelCounts(logs');
    var expected := if r.level == "" then before
      else before[r.level := (if r.level in before then before[r.level] else 0) + 1];
    forall level ensures level in after <==> level in expected {
      LevelCountsKeys(logs', level);
      LevelCountsKeys(logs, level);
    }
    forall level | level in after ensures after[level] == expected[level] {
      LevelCountsKeys(logs', level);
      LevelCountsKeys(logs, level);
    }
    assert after == expected;
  }

  /** The counts add up to the number of records with a non-empty level. */
  lemma {:induction false} LevelCountsTotal(logs: seq<LogRecord>)
    ensures Total(LevelCounts(logs)) == NonEmptyLevels(logs)
  {
    if logs == [] {
      assert LevelCounts(logs) == map[];
    } else {
      var init := logs[..|logs| - 1];
      var r := logs[|logs| - 1];
      assert logs == init + [r];
      LevelCountsTotal(init);
      LevelCountsSnoc(init, r);
      if r.level != "" {
        TotalAdd(LevelCounts(init), r.level, 1);
      }
    }
  }

  /** When no level is empty, the counts add up to the number of records. */
  lemma {:induction false} NonEmptyLevelsAll(logs: seq<LogRecord>)
    requires forall i :: 0 <= i < |logs| ==> logs[i].level != ""
    ensures NonEmptyLevels(logs) == |logs|
  {
    if logs != [] {
      NonEmptyLevelsAll(logs[..|logs| - 1]);
    }
  }

  /**
   * `count_logs_by_level`: one pass over the records, adding one to the
   * count of each non-empty level (a missing key counts as zero).
   */
  method CountLogsByLevel(logs: seq<LogRecord>) returns (counts: map<string, nat>)
    ensures counts == LevelCounts(logs)
    ensures Total(counts) == NonEmptyLevels(logs)
  {
    counts := map[];
    for i := 0 to |logs|
      invariant counts == LevelCounts(logs[..i])
    {
      var level := logs[i].level;
      if level != "" {
        var count := if level in counts then counts[level] else 0;
        counts := counts[level := count + 1];
      }
      assert logs[..i + 1] == logs[..i] + [logs[i]];
      LevelCountsSnoc(logs[..i], logs[i]);
    }
    assert logs[..|logs|] == logs;
    LevelCountsTotal(logs);
  }
}
