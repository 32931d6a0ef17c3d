/**
 * What `display_log_counts` and `display_log_details` print, as data: the
 * rows of the summary table in the order they are printed, and the detail
 * listing for one level. Column widths and header text are not modelled.
 */
module Reporter {
  import opened Text
  import opened LogParser
  import opened LevelFilter
  import opened Maps
  import opened Seqs

  /** One row of the summary table: a level and its count. */
  datatype Row = Row(level: string, count: nat)

  /** The levels printed first, in this order, when they are keys of the counts. */
  const LevelOrder: seq<string> := ["INFO", "DEBUG", "ERROR", "WARNING"]

  predicate StrictlyAscending(s: seq<string>) {
    forall i, j :: 0 <= i < j < |s| ==> LexLess(s[i], s[j])
  }

  function Levels(rows: seq<Row>): (levels: seq<string>)
    ensures |levels| == |rows| && forall i :: 0 <= i < |rows| ==> levels[i] == rows[i].level
  {
    seq(|rows|, i requires 0 <= i < |rows| => rows[i].level)
  }

  /**
   * The levels of `order` that are keys of `counts`, in the order of `order`
   * (the first loop of `display_log_counts`): every such level, once each
   * when `order` has no repeats, and nothing else.
   */
  function PresentLevels(order: seq<string>, counts: map<string, nat>): (present: seq<string>)
    ensures forall level :: level in present <==> level in order && level in counts
    ensures (forall i, j :: 0 <= i < j < |order| ==> order[i] != order[j]) ==>
              forall i, j :: 0 <= i < j < |present| ==> present[i] != present[j]
  {
    if order == [] then []
    else
      var init := order[..|order| - 1];
      var last := order[|order| - 1];
      assert order == init + [last];
      PresentLevels(init, counts) + (if last in counts then [last] else [])
  }

  /** `x` stands before `y` in `order`. */
  ghost predicate Before(order: seq<string>, x: string, y: string) {
    exists a, b :: 0 <= a < b < |order| && order[a] == x && order[b] == y
  }

  /** The present levels keep the order they have in `order`. */
  lemma {:induction false} PresentLevelsOrder(order: seq<string>, counts: map<string, nat>)
    ensures forall i, j :: 0 <= i < j < |PresentLevels(order, counts)| ==>
              Before(order, PresentLevels(order, counts)[i], PresentLevels(order, counts)[j])
  {
    if order != [] {
      var init := order[..|order| - 1];
      var last := order[|order| - 1];
      var q := PresentLevels(init, counts);
      var p := PresentLevels(order, counts);
      PresentLevelsOrder(init, counts);
      assert p == q + (if last in counts then [last] else []);
      forall i, j | 0 <= i < j < |p| ensures Before(order, p[i], p[j]) {
        if j < |q| {
          assert Before(init, q[i], q[j]);
          var a, b :| 0 <= a < b < |init| && init[a] == q[i] && init[b] == q[j];
          assert order[a] == p[i] && order[b] == p[j];
        } else {
          assert q[i] in q;
          var a :| 0 <= a < |init| && init[a] == q[i];
          assert order[a] == p[i] && order[|order| - 1] == p[j];
        }
      }
    }
  }

  /**
   * Insert a new string into an ascending sequence, keeping it ascending:
   * one step of the sort behind `sorted(counts.items())`.
   */
  function Insert(s: seq<string>, x: string): (r: seq<string>)
    requires StrictlyAscending(s) && x !in s
    ensures StrictlyAscending(r)
    ensures forall y :: y in r <==> y in s || y == x
  {
    if s == [] then [x]
    else if LexLess(x, s[0]) then
      assert forall j :: 0 <= j < |s| ==> LexLess(x, s[j]) by {
        forall j | 0 < j < |s| ensures LexLess(x, s[j]) {
          LexLessTransitive(x, s[0], s[j]);
        }
      }
      [x] + s
    else
      LexLessTotal(x, s[0]);
      var rest := Insert(s[1..], x);
      assert forall y :: y in rest ==> LexLess(s[0], y);
      [s[0]] + rest
  }

  /**
   * `sorted(counts.items())` on the keys (they are distinct, so the counts
   * never decide): the keys in strictly ascending code-point order.
   */
  method SortedLevels(levels: set<string>) returns (sorted: seq<string>)
    ensures StrictlyAscending(sorted)
    ensures forall level :: level in sorted <==> level in levels
  {
    sorted := [];
    var rest := levels;
    while rest != {}
      invariant StrictlyAscending(sorted)
      invariant forall level :: level in levels <==> level in sorted || level in rest
      invariant forall level :: level in sorted ==> level !in rest
      decreases |rest|
    {
      var level :| level in rest;
      sorted := Insert(sorted, level);
      rest := rest - {level};
    }
  }

  /** Every row shows a key of the counts together with that key's count. */
  predicate RowsCounted(counts: map<string, nat>, rows: seq<Row>) {
    forall i :: 0 <= i < |rows| ==> rows[i].level in counts && rows[i].count == counts[rows[i].level]
  }

  /**
   * The rows of the summary table for `counts`, in printing order: every row
   * shows a key with its count; first come the keys among INFO, DEBUG, ERROR,
   * WARNING in that order, then every other key, in strictly ascending order.
   */
  predicate SummaryRows(counts: map<string, nat>, rows: seq<Row>) {
    var known := PresentLevels(LevelOrder, counts);
    var levels := Levels(rows);
    && RowsCounted(counts, rows)
    && |known| <= |rows|
    && levels[..|known|] == known
    && StrictlyAscending(levels[|known|..])
    && (forall level :: level in levels[|known|..] ==> level in counts && level !in LevelOrder)
    && (forall level :: level in counts && level !in LevelOrder ==> level in levels[|known|..])
  }

  /** The rows the first loop prints for the levels of `order`: those that are keys, with their counts. */
  function FixedRows(order: seq<string>, counts: map<string, nat>): seq<Row> {
    if order == [] then []
    else
      var last := order[|order| - 1];
      FixedRows(order[..|order| - 1], counts) + (if last in counts then [Row(last, counts[last])] else [])
  }

  /** The rows the second loop prints for `levels`: the keys outside the fixed order, with their counts. */
  function OtherRows(levels: seq<string>, counts: map<string, nat>): seq<Row> {
    if levels == [] then []
    else
      var last := levels[|levels| - 1];
      OtherRows(levels[..|levels| - 1], counts) + (if last in counts && last !in LevelOrder then [Row(last, counts[last])] else [])
  }

  /** `display_log_counts`: the two loops that print the table rows. */
  method DisplayLogCounts(counts: map<string, nat>) returns (rows: seq<Row>)
    ensures SummaryRows(counts, rows)
  {
    rows := [];
    for i := 0 to |LevelOrder|
      invariant rows == FixedRows(LevelOrder[..i], counts)
    {
      var level := LevelOrder[i];
      assert LevelOrder[..i + 1][..i] == LevelOrder[..i];
      if level in counts {
        rows := rows + [Row(level, counts[level])];
      } else {
        AppendEmpty(rows);
      }
    }
    assert LevelOrder[..|LevelOrder|] == LevelOrder;
    var sorted := SortedLevels(counts.Keys);
    for j := 0 to |sorted|
      invariant rows == FixedRows(LevelOrder, counts) + OtherRows(sorted[..j], counts)
    {
      var level := sorted[j];
      assert sorted[..j + 1][..j] == sorted[..j];
      if level !in LevelOrder {
        AppendAssoc(FixedRows(LevelOrder, counts), OtherRows(sorted[..j], counts), [Row(level, counts[level])]);
        rows := rows + [Row(level, counts[level])];
      } else {
        AppendEmpty(OtherRows(sorted[..j], counts));
      }
    }
    assert sorted[..|sorted|] == sorted;
    TableLayout(counts, sorted);
  }

  lemma LevelsSnoc(rows: seq<Row>, r: Row)
    ensures Levels(rows + [r]) == Levels(rows) + [r.level]
  {
  }

  /** The first loop prints exactly the fixed levels that are keys, in the fixed order, each with its count. */
  lemma {:induction false} FixedRowsLayout(order: seq<string>, counts: map<string, nat>)
    ensures Levels(FixedRows(order, counts)) == PresentLevels(order, counts)
    ensures RowsCounted(counts, FixedRows(order, counts))
  {
    if order != [] {
      var init := order[..|order| - 1];
      var last := order[|order| - 1];
      FixedRowsLayout(init, counts);
      if last in counts {
        LevelsSnoc(FixedRows(init, counts), Row(last, counts[last]));
      } else {
        AppendEmpty(FixedRows(init, counts));
        AppendEmpty(PresentLevels(init, counts));
      }
    }
  }

  /**
   * The second loop, run over ascending levels, prints each key among them
   * that is outside the fixed order, with its count, in ascending order.
   */
  lemma {:induction false} OtherRowsLayout(levels: seq<string>, counts: map<string, nat>)
    requires StrictlyAscending(levels)
    ensures RowsCounted(counts, OtherRows(levels, counts))
    ensures StrictlyAscending(Levels(OtherRows(levels, counts)))
    ensures forall level :: level in Levels(OtherRows(levels, counts)) <==> level in levels && level in counts && level !in LevelOrder
  {
    if levels != [] {
      var init := levels[..|levels| - 1];
      var last := levels[|levels| - 1];
      assert levels == init + [last];
      assert StrictlyAscending(init);
      OtherRowsLayout(init, counts);
      var o := Levels(OtherRows(init, counts));
      if last in counts && last !in LevelOrder {
        LevelsSnoc(OtherRows(init, counts), Row(last, counts[last]));
        forall i | 0 <= i < |o| ensures LexLess(o[i], last) {
          assert o[i] in init;
        }
      } else {
        AppendEmpty(OtherRows(init, counts));
      }
    }
  }

  lemma LevelsAppend(a: seq<Row>, b: seq<Row>)
    ensures Levels(a + b) == Levels(a) + Levels(b)
  {
  }

  /**
   * The fixed rows followed by the other rows, over the keys in ascending
   * order, are laid out as the summary table must be.
   */
  lemma TableLayout(counts: map<string, nat>, sorted: seq<string>)
    requires StrictlyAscending(sorted)
    requires forall level :: level in sorted <==> level in counts
    ensures SummaryRows(counts, FixedRows(LevelOrder, counts) + OtherRows(sorted, counts))
  {
    var fixed, others := FixedRows(LevelOrder, counts), OtherRows(sorted, counts);
    FixedRowsLayout(LevelOrder, counts);
    OtherRowsLayout(sorted, counts);
    LevelsAppend(fixed, others);
    var levels := Levels(fixed + others);
    assert levels[..|fixed|] == Levels(fixed);
    assert levels[|fixed|..] == Levels(others);
  }

  /** Every key of the counts has a row. */
  lemma SummaryRowsComplete(counts: map<string, nat>, rows: seq<Row>, level: string)
    requires SummaryRows(counts, rows) && level in counts
    ensures level in Levels(rows)
  {
    var known := PresentLevels(LevelOrder, counts);
    var levels := Levels(rows);
    if level in LevelOrder {
      var i :| 0 <= i < |known| && known[i] == level;
      assert levels[..|known|][i] == level;
    } else {
      var i :| 0 <= i < |levels| - |known| && levels[|known|..][i] == level;
      assert levels[|known| + i] == level;
    }
  }

  /**
   * Two rows of fixed levels appear in the fixed order: INFO before DEBUG
   * before ERROR before WARNING.
   */
  lemma SummaryRowsFixedOrder(counts: map<string, nat>, rows: seq<Row>, i: nat, j: nat)
    requires SummaryRows(counts, rows) && i < j < |rows|
    requires rows[i].level in LevelOrder && rows[j].level in LevelOrder
    ensures Before(LevelOrder, rows[i].level, rows[j].level)
  {
    var levels := Levels(rows);
    PresentLevelsOrder(LevelOrder, counts);
    LayoutFixedOrder(PresentLevels(LevelOrder, counts), levels, i, j);
  }

  /** Levels of the fixed order in a layout of fixed levels followed by other levels keep the fixed order. */
  lemma LayoutFixedOrder(known: seq<string>, levels: seq<string>, i: nat, j: nat)
    requires |known| <= |levels| && levels[..|known|] == known
    requires forall level :: level in levels[|known|..] ==> level !in LevelOrder
    requires forall i, j :: 0 <= i < j < |known| ==> Before(LevelOrder, known[i], known[j])
    requires i < j < |levels| && levels[i] in LevelOrder && levels[j] in LevelOrder
    ensures Before(LevelOrder, levels[i], levels[j])
  {
    var k := |known|;
    assert forall q :: k <= q < |levels| ==> levels[q] !in LevelOrder by {
      forall q | k <= q < |levels| ensures levels[q] !in LevelOrder {
        assert levels[k..][q - k] == levels[q];
      }
    }
    assert known[i] == levels[i] && known[j] == levels[j];
  }

  /** An INFO row comes before a DEBUG row. */
  lemma SummaryRowsInfoBeforeDebug(counts: map<string, nat>, rows: seq<Row>, i: nat, j: nat)
    requires SummaryRows(counts, rows) && i < |rows| && j < |rows|
    requires rows[i].level == "INFO" && rows[j].level == "DEBUG"
    ensures i < j
  {
    if j < i {
      SummaryRowsFixedOrder(counts, rows, j, i);
      DebugNotBeforeInfo();
    }
  }

  lemma DebugNotBeforeInfo()
    ensures !Before(LevelOrder, "DEBUG", "INFO")
  {
  }

  /** No level has two rows. */
  lemma SummaryRowsDistinct(counts: map<string, nat>, rows: seq<Row>)
    requires SummaryRows(counts, rows)
    ensures forall i, j :: 0 <= i < j < |rows| ==> rows[i].level != rows[j].level
  {
    var levels := Levels(rows);
    LayoutDistinct(PresentLevels(LevelOrder, counts), levels);
    forall i, j | 0 <= i < j < |rows| ensures rows[i].level != rows[j].level {
      assert levels[i] != levels[j];
    }
  }

  /**
   * Distinct fixed levels followed by strictly ascending levels outside the
   * fixed order repeat no level.
   */
  lemma LayoutDistinct(known: seq<string>, levels: seq<string>)
    requires |known| <= |levels| && levels[..|known|] == known
    requires forall i, j :: 0 <= i < j < |known| ==> known[i] != known[j]
    requires forall level :: level in known ==> level in LevelOrder
    requires StrictlyAscending(levels[|known|..])
    requires forall level :: level in levels[|known|..] ==> level !in LevelOrder
    ensures forall i, j :: 0 <= i < j < |levels| ==> levels[i] != levels[j]
  {
    var k := |known|;
    forall i, j | 0 <= i < j < |levels| ensures levels[i] != levels[j] {
      if k <= i {
        assert levels[k..][i - k] == levels[i] && levels[k..][j - k] == levels[j];
        LexLessIrreflexive(levels[i]);
      } else if j < k {
        assert known[i] == levels[i] && known[j] == levels[j];
      } else {
        assert known[i] == levels[i] && known[i] in known;
        assert levels[k..][j - k] == levels[j];
      }
    }
  }

  /** In a strictly ascending sequence the tail holds everything but the head. */
  lemma AscendingTail(s: seq<string>, x: string)
    requires StrictlyAscending(s) && s != []
    ensures x in s[1..] <==> x in s && x != s[0]
  {
    if x in s[1..] {
      var i :| 0 <= i < |s| - 1 && s[1..][i] == x;
      assert LexLess(s[0], s[i + 1]);
      LexLessIrreflexive(s[0]);
    }
    if x in s && x != s[0] {
      var i :| 0 <= i < |s| && s[i] == x;
      assert s[1..][i - 1] == x;
    }
  }

  /** Two strictly ascending sequences with the same elements are equal. */
  lemma {:induction false} AscendingUnique(a: seq<string>, b: seq<string>)
    requires StrictlyAscending(a) && StrictlyAscending(b)
    requires forall x :: x in a <==> x in b
    ensures a == b
    decreases |a|
  {
    if a != [] {
      assert a[0] in b;
    }
    if b != [] {
      assert b[0] in a;
    }
    if a != [] && b != [] {
      if a[0] != b[0] {
        assert a[0] in b;
        assert b[0] in a;
        var i :| 0 <= i < |b| && b[i] == a[0];
        var j :| 0 <= j < |a| && a[j] == b[0];
        LexLessAsymmetric(a[0], b[0]);
        assert false;
      }
      forall x ensures x in a[1..] <==> x in b[1..] {
        AscendingTail(a, x);
        AscendingTail(b, x);
      }
      AscendingUnique(a[1..], b[1..]);
      assert a == [a[0]] + a[1..] && b == [b[0]] + b[1..];
    }
  }

  /**
   * The layout above leaves no choice: for given counts there is exactly one
   * sequence of rows with it, so it describes what `display_log_counts` prints.
   */
  lemma SummaryRowsUnique(counts: map<string, nat>, rows1: seq<Row>, rows2: seq<Row>)
    requires SummaryRows(counts, rows1) && SummaryRows(counts, rows2)
    ensures rows1 == rows2
  {
    SummaryLevelsUnique(counts, rows1, rows2);
    var levels1, levels2 := Levels(rows1), Levels(rows2);
    forall i | 0 <= i < |rows1| ensures rows1[i] == rows2[i] {
      assert levels1[i] == levels2[i];
    }
  }

  /** The levels of two tables laid out as above agree. */
  lemma SummaryLevelsUnique(counts: map<string, nat>, rows1: seq<Row>, rows2: seq<Row>)
    requires SummaryRows(counts, rows1) && SummaryRows(counts, rows2)
    ensures Levels(rows1) == Levels(rows2)
  {
    var k := |PresentLevels(LevelOrder, counts)|;
    var levels1, levels2 := Levels(rows1), Levels(rows2);
    forall level ensures level in levels1[k..] <==> level in levels2[k..] {
      if level in levels1[k..] || level in levels2[k..] {
        assert level in counts && level !in LevelOrder;
      }
    }
    AscendingUnique(levels1[k..], levels2[k..]);
    TakeDrop(levels1, k);
    TakeDrop(levels2, k);
  }

  /** The sum of the counts shown in the rows. */
  function RowsTotal(rows: seq<Row>): nat {
    if rows == [] then 0 else RowsTotal(rows[..|rows| - 1]) + rows[|rows| - 1].count
  }

  /**
   * Rows that show each key of the counts exactly once, with its count, add
   * up to the sum of the counts.
   */
  lemma {:induction false} RowsTotalIsTotal(counts: map<string, nat>, rows: seq<Row>)
    requires RowsCounted(counts, rows)
    requires forall i, j :: 0 <= i < j < |rows| ==> rows[i].level != rows[j].level
    requires forall level :: level in counts ==> level in Levels(rows)
    ensures RowsTotal(rows) == Total(counts)
  {
    if rows == [] {
      assert counts == map[];
    } else {
      var init := rows[..|rows| - 1];
      var last := rows[|rows| - 1];
      var rest := counts - {last.level};
      forall level | level in rest ensures level in Levels(init) {
        var i :| 0 <= i < |rows| && Levels(rows)[i] == level;
        assert Levels(init)[i] == level;
      }
      RowsTotalIsTotal(rest, init);
      TotalRemove(counts, last.level);
    }
  }

  /** The table's counts add up to the sum of the counts it was built from. */
  lemma SummaryRowsTotal(counts: map<string, nat>, rows: seq<Row>)
    requires SummaryRows(counts, rows)
    ensures RowsTotal(rows) == Total(counts)
  {
    SummaryRowsDistinct(counts, rows);
    forall level | level in counts ensures level in Levels(rows) {
      SummaryRowsComplete(counts, rows, level);
    }
    RowsTotalIsTotal(counts, rows);
  }

  /** One detail line: date, time, a dash, and the message. */
  function DetailLine(r: LogRecord): string {
    r.date + " " + r.time + " - " + r.message
  }

  /**
   * A detail line of a parsed record splits back into its date, its time,
   * the dash and its message.
   */
  lemma DetailLineSplits(r: LogRecord)
    requires WellFormed(r)
    ensures Split(DetailLine(r), ' ', 3) == [r.date, r.time, "-", r.message]
  {
    assert DetailLine(r) == r.date + [' '] + r.time + [' '] + "-" + [' '] + r.message;
    SplitThreeWords(r.date, r.time, "-", r.message, ' ');
  }

  /** What `display_log_details` prints: a "not found" notice, or the listing. */
  datatype Details = NotFound(level: string) | Listing(level: string, lines: seq<string>)

  /**
   * `display_log_details`: a notice naming the upper-cased level when no
   * record matches it; otherwise one detail line per matching record, in
   * the order the filter returns them.
   */
  function DisplayLogDetails(logs: seq<LogRecord>, level: string): (d: Details)
    ensures d.level == Upper(level)
    ensures d.NotFound? <==> forall r :: r in logs ==> !MatchesLevel(r, level)
    ensures d.Listing? ==>
      var matching := FilterByLevel(logs, level);
      |d.lines| == |matching| > 0 && forall i :: 0 <= i < |matching| ==> d.lines[i] == DetailLine(matching[i])
  {
    var matching := FilterByLevel(logs, level);
    if matching == [] then NotFound(Upper(level))
    else
      assert matching[0] in matching;
      Listing(Upper(level), seq(|matching|, i requires 0 <= i < |matching| => DetailLine(matching[i])))
  }
}
