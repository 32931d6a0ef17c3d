# Log analyser model

A Dafny model of the log analyser in `task3.py`. The script reads a log file
whose lines look like `2024-01-22 08:30:01 INFO Server started`. It parses each
line into a record with a date, a time, a level and a message. It counts the
records by level and prints a summary table. When a level is given on the
command line, it also lists the records of that level.

The model covers each step of that pipeline on values:

- `Text` writes out the Python string operations the script relies on:
  - `str.strip()`, with the exact `str.isspace()` character set;
  - `str.upper()`, for ASCII letters;
  - `str.split(sep, maxsplit)` for a one-character separator;
  - the code-point order that `sorted` uses on strings.
- `LogParser` models `parse_log_line`.
- `LogLoader` models the list processing of `load_logs`, over the lines of the file already read.
- `LevelFilter` models `filter_logs_by_level`.
- `LevelCounter` models `count_logs_by_level` as a method with a loop over a map. Its result is proved equal to a declarative table of counts.
- `Reporter` models what `display_log_counts` and `display_log_details` print, as data:
  - the table rows in printing order, built by two loops;
  - the detail listing.
- `Pipeline` models `main` once the command line and the file are out of the way.
- `Seqs`, `Maps` and `Wrappers` are small supporting modules:
  - subsequences and a few list identities;
  - the sum of a map's values;
  - `Option`.

The parser follows the code: the stripped line is cut at single space
characters (`split(' ', 3)`), not at runs of whitespace. A doubled space
therefore gives an empty field. For example, `d t  x y` parses to a record
whose level is empty. That record is kept by loading. It is never counted,
because `count_logs_by_level` skips empty levels.

## Model

| member | source | states |
|---|---|---|
| Text.Strip | task3.py:16 | `line.strip()` leaves no whitespace at either end and is no longer than the line |
| Text.TrimStart | task3.py:16 | the leading-whitespace half of `strip`: the result is a suffix of the input, everything cut off is whitespace, and the result does not start with whitespace |
| Text.TrimEnd | task3.py:16 | the trailing half, symmetrically: a prefix, only whitespace cut, no whitespace at the end |
| Text.StripInfix | task3.py:16 | stripping removes only whitespace: the line is the stripped line with whitespace before and after |
| Text.StripEmpty | task3.py:43 | `line.strip()` is empty (the blank-line test of `load_logs`) exactly when every character is whitespace |
| Text.StripIdempotent | task3.py:16 | stripping twice is stripping once |
| Text.SplitLength | task3.py:16-17 | `split(sep, maxsplit)` gives one part more than the number of separators, capped at `maxsplit` cuts |
| Text.SplitJoin | task3.py:16 | joining the parts of `split` with the separator gives back the string |
| Text.SplitPartsFree | task3.py:16 | every part of `split` but the last is free of the separator |
| Text.SplitNoCut | task3.py:16 | with no cuts allowed the string is its only part |
| Text.SplitAfterWord | task3.py:16 | a separator-free word followed by the separator is peeled off as the first part, using up one cut |
| Text.SplitThreeWords | task3.py:16 | three separator-free words and a remainder, joined by the separator, split with `maxsplit` 3 into exactly those four parts |
| Text.OccurrencesAppend | task3.py:16-17 | the separator count of a concatenation is the sum of the counts |
| Text.LexLessIrreflexive | task3.py:118 | the string order `sorted` uses is irreflexive |
| Text.LexLessAsymmetric | task3.py:118 | it is asymmetric |
| Text.LexLessTotal | task3.py:118 | any two different strings are ordered one way or the other |
| Text.LexLessTransitive | task3.py:118 | it is transitive |
| LogParser.ParseLogLine | task3.py:16-25 | no record exactly when the stripped line has fewer than three spaces; otherwise date, time and level hold no space, and the four fields joined by single spaces give back the stripped line |
| LogParser.ParseLine | task3.py:16-25 | the converse: a record with no space in date, time or level, written as a line with nothing to strip, parses back to itself |
| LogParser.SplitLine | task3.py:16 | the written-out line of such a record splits into its four fields |
| LogParser.DoubledSpaceGivesEmptyLevel | task3.py:16-25 | `d t  x y` parses to a record with an empty level and message `x y` |
| LogParser.DoubledSpaceGivesLeadingSpaceInMessage | task3.py:16-25 | `d t x  y` parses to a record whose message keeps a leading space |
| LogParser.BadLineRejected | task3.py:16-18 | `bad line`, with one space, is not a record |
| LogLoader.ParseNonBlank | task3.py:43 | the comprehension yields at most one parse result per line |
| LogLoader.KeepRecords | task3.py:45 | dropping the failed parses leaves at most as many entries |
| LogLoader.LoadLogs | task3.py:43-45 | loading yields at most as many records as there are lines |
| LogLoader.LoadLogsAppend | task3.py:43-45 | loading two stretches of lines gives the records of the first followed by those of the second |
| LogLoader.LoadLogsSingle | task3.py:43-45 | one line yields its record when it parses and nothing otherwise; skipping blank lines first changes nothing |
| LogLoader.LoadLogsByLine | task3.py:43-45 | the loaded records are the successful parse results of the lines, in line order |
| LogLoader.ParseAll | task3.py:43 | parsing every line gives one result per line, the parse of that line |
| LogLoader.LoadLogsParseAll | task3.py:43-45 | skipping blank lines before parsing changes nothing: the records are the successful parses of all lines |
| LogLoader.KeepRecordsMember | task3.py:45 | the filter keeps a record exactly when it is among the parse results |
| LogLoader.LoadLogsMember | task3.py:43-45 | a record is loaded exactly when some line parses to it |
| LogLoader.EmptyLevelKept | task3.py:43-45 | a record with an empty level is kept by loading |
| LogLoader.BadLineDropped | task3.py:43-45 | a file holding only `bad line` loads no record |
| LevelFilter.FilterByLevel | task3.py:73-75 | every record of the result is from the input and matches the level once both are upper-cased, and every matching input record is in the result |
| LevelFilter.FilterIsSubsequence | task3.py:73-75 | the result keeps the input order: it is a subsequence of the input |
| LevelFilter.FilterMultiplicity | task3.py:73-75 | a matching record occurs in the result as often as in the input; no other record occurs |
| LevelFilter.FilterCaseInsensitive | task3.py:74 | levels equal once upper-cased select the same records |
| LevelFilter.FilterErrorEitherCase | task3.py:74 | `error` and `ERROR` select the same records |
| LevelCounter.LevelCountPositive | task3.py:90-93 | a level occurs among the records exactly when its count is positive |
| LevelCounter.LevelCountsKeys | task3.py:88-95 | a level is a key of the table exactly when it is non-empty and some record has exactly that level, case preserved; its value is the number of such records |
| LevelCounter.LevelCountsSnoc | task3.py:90-93 | one more record adds one to its level's count, or changes nothing when its level is empty |
| LevelCounter.LevelCountsTotal | task3.py:88-95 | the counts add up to the number of records with a non-empty level |
| LevelCounter.NonEmptyLevelsAll | task3.py:92 | when no level is empty, that number is the number of records |
| LevelCounter.CountLogsByLevel | task3.py:88-95 | the loop builds exactly the table of counts, whose values add up to the number of records with a non-empty level |
| Reporter.PresentLevels | task3.py:113-115 | the first loop's levels are exactly the keys among INFO, DEBUG, ERROR, WARNING, each once |
| Reporter.PresentLevelsOrder | task3.py:113-115 | those levels keep the order they have in the fixed list |
| Reporter.Insert | task3.py:118 | inserting a new string into a strictly ascending sequence keeps it strictly ascending and adds just that string |
| Reporter.SortedLevels | task3.py:118 | `sorted` on the keys gives each key once, in strictly ascending code-point order |
| Reporter.FixedRowsLayout | task3.py:113-115 | the first loop prints exactly the fixed levels that are keys, in the fixed order, each with its count |
| Reporter.OtherRowsLayout | task3.py:118-120 | the second loop, run over ascending keys, prints every key outside the fixed order with its count, in strictly ascending order, and nothing else |
| Reporter.TableLayout | task3.py:110-120 | the rows of the first loop followed by those of the second have the layout of the summary table |
| Reporter.DisplayLogCounts | task3.py:98-120 | each row shows a key with its count; the fixed levels present come first in the fixed order, then all other keys in strictly ascending order |
| Reporter.SummaryRowsComplete | task3.py:110-120 | every key of the counts has a row |
| Reporter.SummaryRowsFixedOrder | task3.py:110-115 | two rows of fixed levels appear in the order INFO, DEBUG, ERROR, WARNING |
| Reporter.LayoutFixedOrder | task3.py:110-115 | in fixed levels followed by levels outside the fixed list, any two fixed levels keep the fixed order |
| Reporter.SummaryRowsInfoBeforeDebug | task3.py:110-115 | an INFO row comes before a DEBUG row |
| Reporter.SummaryRowsDistinct | task3.py:110-120 | no level has two rows |
| Reporter.LayoutDistinct | task3.py:110-120 | distinct fixed levels followed by strictly ascending levels outside the fixed order repeat no level |
| Reporter.AscendingUnique | task3.py:118 | two strictly ascending sequences with the same elements are equal |
| Reporter.SummaryLevelsUnique | task3.py:110-120 | two tables laid out this way for the same counts list the same levels |
| Reporter.SummaryRowsUnique | task3.py:110-120 | for given counts exactly one sequence of rows has this layout |
| Reporter.RowsTotalIsTotal | task3.py:110-120 | rows that show each key once with its count add up to the sum of the counts |
| Reporter.SummaryRowsTotal | task3.py:110-120 | the table's counts add up to the sum of the counts |
| Reporter.DetailLineSplits | task3.py:139 | a detail line splits back into date, time, the dash and the message |
| Reporter.DisplayLogDetails | task3.py:131-139 | a "not found" notice naming the upper-cased level exactly when no record matches; otherwise one `date time - message` line per matching record, in filter order |
| Pipeline.Summarize | task3.py:157-167 | nothing but the empty-log notice exactly when no record loads; otherwise the table of the loaded records' counts, whose counts add up to the number of records with a non-empty level, and the details exactly when a non-empty level was given |

## Left out

- Opening and decoding the file, the `FileNotFoundError`, `PermissionError` and generic exception handlers, and `sys.exit`: `LogLoader.LoadLogs` takes the file's lines as a sequence. The empty-log exit is the `EmptyLog` outcome of `Pipeline.Summarize`.
- `sys.argv` handling and the usage message: `Pipeline.Summarize` takes the optional level argument as an `Option`.
- Printing: the table header, the `:<17` padding and the message wording are not modelled. The table is a sequence of `(level, count)` rows, and the details are a `Details` value holding the level and the lines.
- `Text.Upper`: maps ASCII letters only; Python's full Unicode case mapping is not modelled.
- `Text.Strip`: uses the characters `str.isspace()` accepts, written out. Characters outside that list are never stripped.
- Records are datatypes with four fields, not dictionaries. `log.get('level', '')` always finds the key, because every parsed record has all four.
- `Reporter.SortedLevels`: sorts the keys by insertion into an ascending sequence. `sorted(counts.items())` sorts pairs, but the keys are distinct, so the counts never decide the order and the result is the same.
