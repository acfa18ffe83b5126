# Subject overview of the course-evaluation store

This project models `get_subject_overview_df` in `evaluation_db.py` in Dafny. That function builds the read-side report of the evaluation store. For one subject it returns a table with:

- one row per year;
- the column "År";
- one column per question (`"<id> <label>"`);
- optionally the statistics columns "Antall svar", "Antall invitert" and "Svar%".

The database is represented by what the function reads from it. A `StoreView` value holds:

- the column names that the two `PRAGMA table_info` statements return;
- the rows of the result query and the statistics query for the subject, in query order.

The model follows the function's pipeline, one module per stage:

- `SchemaResolver` (schema.dfy) finds the subject reference column of `Evaluation`. The order is `subject_code`, then `subject`, then `subject_id`, and only `subject_id` needs a join through `Subject`. With none of the three the function fails. `SchemaResolver` also maps the `EvaluationStats` columns onto `responses`, `invited` and `percent`. The match ignores case and keeps the column's own spelling, and a later match overrides an earlier one. Both resolvers are methods shaped like the source: an if/elif chain and a loop. Each is proved equal to a specification function whose properties are proved separately.
- `OverviewPivot` (pivot.dfy) covers four steps:
  - it keeps a result row when its question id starts with one of the given prefixes, or keeps every row when there is no filter;
  - it names each question column;
  - it pivots with `aggfunc="first"`, so each cell holds the first non-NULL value for its year and question, with no averaging;
  - it gives one row per distinct year, ascending.
- `StatsAggregation` (stats.dfy) reduces the statistics rows to one row per year. If there is a count column it sums the counts per year. If not, it keeps each year's first row. When both counts exist, it renames them to "Antall svar" and "Antall invitert" and derives "Svar%" from them. Without counts, it renames a stored percentage to "Svar%".
- `PercentFormat` (percent.dfy) computes "Svar%" as `round(responses / invited * 100)` followed by `" %"`. Python's `round` rounds ties to even; `RoundHalfEven` models this on exact rationals. When invited is 0, "Svar%" is the empty string.
- `Tables` (tables.dfy) provides:
  - the left merge on the year;
  - the sort by year;
  - the move of "År" to the front of the column list;
  - the column rename.
- `Overview` (overview.dfy) composes the stages into `OverviewOf`. The method `SubjectOverview` follows the source step by step and is proved equal to it. The final reordering is done by the class `Frame`, whose methods update its `rows` and `columns` in place, as `sort_values(inplace=True)` and `cols.insert(0, cols.pop(...))` do.

A cell missing from a row's map is a blank (NaN) cell.

Question columns are ordered as pandas' `pivot_table` orders them: ascending by code point (`StrLess`). They are not in order of first appearance, because `pivot_table` sorts its columns.

The statistics columns are not always present. They appear only when the statistics query returns rows, and their names depend on the schema's branch. With exactly one count column, the sum keeps its query alias and no "Svar%" is derived. A stored percentage is then dropped, because only the count column is grouped and the later rename of "response_percent" finds nothing (StatsFrameSingleCount).

## Model

| member | source | states |
|---|---|---|
| SchemaResolver.SubjectRefOf | evaluation_db.py:64-79 | fails with the fixed message exactly when none of subject_code, subject, subject_id is a column; otherwise picks the first present in that priority order, and requires the join exactly when subject_id is picked |
| SchemaResolver.ResolveSubjectRef | evaluation_db.py:64-79 | the if/elif chain computes exactly the resolution of SubjectRefOf |
| SchemaResolver.AliasFieldIgnoresCase | evaluation_db.py:142-147 | alias matching does not depend on the case of the column name |
| SchemaResolver.LowerIdempotent | evaluation_db.py:142 | lower-casing twice is the same as lower-casing once |
| SchemaResolver.LastMatchIsLast | evaluation_db.py:141-148 | a field is resolved exactly when some column matches its aliases, and the column resolved is a matching one with no matching column after it (later columns overwrite) |
| SchemaResolver.StatsColumnsOf | evaluation_db.py:137-148 | each resolved field is a column of the table in its original spelling and matches that field's alias set; no column is resolved to two fields |
| SchemaResolver.ResolveStatsColumns | evaluation_db.py:137-148 | the loop over the columns computes exactly StatsColumnsOf |
| StatsAggregation.StatsQueryColumns | evaluation_db.py:150-156 | the statistics query returns "year" first, and "responses", "invited", "response_percent" exactly when the respective field was resolved |
| OverviewPivot.FilterRowsSpec | evaluation_db.py:116-118 | a row is kept exactly when it is a fetched row whose question id has one of the prefixes; without a filter all rows are kept, in order |
| OverviewPivot.FirstPresentIsFirst | evaluation_db.py:119-124 | the reference value of a (year, question) pair is that of the earliest kept row with a non-NULL value for it, and absent when there is none |
| OverviewPivot.CellsForFirstWins | evaluation_db.py:119-124 | the pivot's cells of a year hold exactly the reference first values of the filtered rows: first wins, no averaging |
| OverviewPivot.CellsForKeys | evaluation_db.py:115-124 | a cell exists only under the column name of some fetched row |
| OverviewPivot.QuestionColumns | evaluation_db.py:115-124 | the question columns are ascending and are exactly the `id + " " + label` names of the rows |
| OverviewPivot.PivotYears | evaluation_db.py:119-125 | the pivot's years are ascending and are exactly the years of the rows |
| OverviewPivot.PivotShape | evaluation_db.py:115-125 | the pivot has one row per distinct year, ascending; its first column is "År", followed by exactly the question columns |
| OverviewPivot.PivotCell | evaluation_db.py:115-125 | a pivot cell holds the first non-NULL kept value for its year and question, and is blank when there is none |
| StatsAggregation.GroupSumsConserve | evaluation_db.py:188 | summing the per-year group sums over the grouped years gives the total over all statistics rows: grouping loses and duplicates nothing |
| StatsAggregation.GroupYears | evaluation_db.py:188 | the grouped years are ascending and are exactly the years of the statistics rows |
| StatsAggregation.DropDuplicateYearsSpec | evaluation_db.py:190 | after dropping duplicates each year occurs once, each kept row is the first of its year, and every year is kept |
| StatsAggregation.StatsFrameShape | evaluation_db.py:179-206 | the statistics frame has exactly one row per year of the statistics rows, and its columns are the display columns of the schema's branch |
| StatsAggregation.StatsFrameCounts | evaluation_db.py:181-203 | with both counts, a year's row holds the year's summed counts as "Antall svar" and "Antall invitert" and the "Svar%" derived from them, and nothing else |
| StatsAggregation.StatsFrameSingleCount | evaluation_db.py:181-198 | with exactly one count, the year's row holds only the sum, under the query alias: no "Svar%" is added and a stored percentage is dropped |
| StatsAggregation.StatsFrameFirstRow | evaluation_db.py:190-206 | without counts, a year's row is that year's first statistics row, with the precomputed percentage (if any) shown verbatim as "Svar%" |
| PercentFormat.RoundHalfEven | evaluation_db.py:200 | the quotient is within half a unit of n/d, and an exact tie goes to the even neighbour |
| PercentFormat.RoundHalfEvenNearest | evaluation_db.py:200 | no integer is nearer to n/d than the rounded quotient |
| PercentFormat.NatToString | evaluation_db.py:200 | integer printing gives decimal digits without a leading zero |
| PercentFormat.IntToStringRoundTrip | evaluation_db.py:200 | reading a printed integer back yields that integer |
| PercentFormat.IntToString | evaluation_db.py:200 | integer printing gives a minus sign exactly for a negative number, then decimal digits without a leading zero |
| PercentFormat.SvarPercent | evaluation_db.py:199-203 | empty exactly when invited is 0 (no division by zero); otherwise the printed form of 100·responses/invited rounded half to even, followed by " %" |
| PercentFormat.SvarPercentTie | evaluation_db.py:200 | on the exact tie 23 of 40 the model gives "58 %" |
| PercentFormat.SvarPercentExample | evaluation_db.py:199-203 | 37 of 50 gives "74 %", 30 of 40 gives "75 %", and 12 of 0 gives the empty string |
| Tables.MergeLeft | evaluation_db.py:208 | the left merge keeps the left table's rows and years, and its columns are the left columns followed by the right ones |
| Tables.MergeLeftCells | evaluation_db.py:208 | a merged row holds the right row's cells for the same year over the left row's cells, and is the left row unchanged when no right row has its year |
| Tables.RenameColumnSpec | evaluation_db.py:193-206 | renaming moves a column's name and its cells to the new name and touches nothing else |
| Tables.FindYear | evaluation_db.py:208 | the lookup finds a row of that year exactly when one exists |
| Tables.SortByYear | evaluation_db.py:210 | the sorted rows are in non-decreasing year order and are a permutation of the input |
| Tables.SortByYearOfIncreasing | evaluation_db.py:210 | the sort leaves rows already strictly ascending by year unchanged |
| Tables.MoveToFrontSpec | evaluation_db.py:211-214 | moving "År" puts it first, keeps the other columns in their relative order and loses no column; without "År" nothing moves |
| Tables.IndexOf | evaluation_db.py:213 | `list.index` gives the first position of the column |
| Tables.RemoveFirstAt | evaluation_db.py:213 | `pop` at `index` removes exactly the first occurrence |
| Overview.Frame.SortRowsByYear | evaluation_db.py:210 | the in-place sort replaces the rows by their sort by year and leaves the columns as they were |
| Overview.Frame.MoveColumnToFront | evaluation_db.py:211-214 | the in-place column move replaces the columns by their reordering with the name first, and leaves the rows as they were |
| Overview.SubjectOverview | evaluation_db.py:60-215 | the step-by-step pipeline returns exactly OverviewOf |
| Overview.OverviewFails | evaluation_db.py:76-178 | the overview fails exactly when the Evaluation table has none of the three subject columns (with the fixed message, whatever the queries return), or when statistics are asked for a subject with results and the EvaluationStats table is absent (empty PRAGMA output), which makes the statistics query raise "no such table" |
| Overview.OverviewOfNoResults | evaluation_db.py:111-113 | without result rows the overview is the empty table, whatever the statistics are |
| Overview.OverviewWithoutStats | evaluation_db.py:132 | without include_stats the statistics schema and rows play no part |
| Overview.QuestionColumnIsNotYear | evaluation_db.py:115 | a question column name is never "År" |
| Overview.MergedShape | evaluation_db.py:119-208 | the merged table keeps the pivot's years, ascending, and its columns are "År", the question columns and then the statistics columns |
| Overview.OverviewIsMerged | evaluation_db.py:210-214 | with results, sorting and moving "År" leave the merged table as it is |
| Overview.OverviewLayout | evaluation_db.py:115-214 | exactly the years of the kept result rows, ascending, one row each; columns "År", the question columns, then the statistics columns |
| Overview.OverviewQuestionCell | evaluation_db.py:115-214 | each question cell of the overview is the first non-NULL kept value for its year and question, blank when there is none |
| Overview.StatsCellNames | evaluation_db.py:193-206 | every cell of the statistics frame is under one of its display columns |
| Overview.OverviewStatsCells | evaluation_db.py:179-214 | with both counts, a year with statistics shows the summed counts and the Svar% derived from them; a year without statistics has these cells blank |
| Overview.MergedRowStats | evaluation_db.py:208 | merging a frame of per-year summed cells into a row adds the year's cells when the statistics have that year and nothing otherwise |
| Overview.PivotHasNoStatsCells | evaluation_db.py:115-125 | without name clashes, no pivot cell is under a statistics column name |
| Ordering.SortedDistinct | evaluation_db.py:119-124 | the sorted distinct list is strictly increasing and has exactly the input's elements |
| Ordering.StrLessIsStrictTotalOrder | evaluation_db.py:119-124 | code-point order on strings, as pandas uses for the column index, is a strict total order |

## Left out

- SQLite access is not modelled: connecting, the `PRAGMA` statements, building the SQL text and `read_sql_query` (evaluation_db.py:53-111, 150-178) are I/O. Their outputs are fields of `StoreView`, and the query's subject filter is taken as already applied.
  - The queries are taken to succeed, except the statistics query on an absent EvaluationStats table, which the empty PRAGMA output reveals and the model turns into an error. The model does not capture a failing result query (a missing EvaluationResult, Question or Subject table or column), nor pandas wrapping the SQLite message in its own error text.
  - The `subject_id` branch filters the query on `s.id` and passes the subject code as that id (evaluation_db.py:106-107). This lives in the SQL text and is outside the model.
- `conn.close()` in `finally`, and any concurrency and connection lifetime (evaluation_db.py:216-217): these are resource handling.
- pandas' handling of NaN and dtypes is not modelled:
  - `pivot_table` drops columns and rows whose values are all NaN. In the model such a question keeps its column, with blank cells.
  - Likewise, a year whose kept values are all NULL keeps its row in the model. PivotYears, PivotShape and OverviewLayout count that year, and the statistics are merged into it. pandas drops that year, and its statistics with it.
  - Counts are mathematical integers, and a NULL count adds 0 to a sum, as pandas' `sum` does.
- PercentFormat.RoundHalfEven: rounds the exact rational 100·responses/invited, while Python rounds the binary floating-point value of `responses / invited * 100`. On an exact tie the two can differ. For 23 of 40 the model gives "58 %" (SvarPercentTie), while the float code computes 57.49999999999999 and gives "57 %". SvarPercent, StatsFrameCounts and OverviewStatsCells inherit this difference on ties.
- Overview.OverviewQuestionCell: when statistics are merged, stated only for question columns not named like a statistics column. On such a clash pandas adds `_x`/`_y` suffixes, which the model does not reproduce. Without merged statistics it holds for every question column.
- Overview.OverviewStatsCells: stated only when no question column shares its name with a statistics column. On a name clash pandas adds `_x`/`_y` suffixes, which the model does not reproduce; in the model the statistics cell takes the name.
- Tables.MergeLeft, Overview.MergedShape, Overview.OverviewLayout: on such a name clash their column lists hold the shared name twice (e.g. "Antall svar"), where pandas lists "Antall svar_x" and "Antall svar_y".
- SchemaResolver.AliasFieldIgnoresCase: `Lower` changes only ASCII letters, while Python's `str.lower` also changes non-ASCII ones. Only the Kelvin sign lowers to an ASCII letter ("k"), and no alias contains a "k", so whether a name is an alias does not change.
- The only-one-count branch is modelled only as far as StatsFrameSingleCount goes. The sum stays under its query alias ("responses" or "invited"), without a "Svar%".
- csv_upload_server.py is not part of this model. It renders HTTP forms, parses uploads and runs a TCP server. It calls an importer that is not in evaluation_db.py.
- evaluation_api.py is not part of this model. It does HTTP routing and HTML/JSON output. It has three defects:
  - it passes `question_ids=` (evaluation_api.py:41-46), while the parameter is named `columns` (evaluation_db.py:29);
  - its `/api/subjects` branch (evaluation_api.py:59) is nested inside the `/api/subject` branch, so it is unreachable;
  - it calls a `get_subjects` that evaluation_db.py does not define.
