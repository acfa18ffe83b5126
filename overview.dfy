/**
 * The subject overview: resolve the schema, pivot the subject's results to
 * one row per year, merge the per-year statistics, then sort by year and
 * put "År" first. The database is represented by what the two PRAGMA
 * statements and the two queries return for the requested subject.
 */
module Overview {
  import opened Wrappers
  import opened Ordering
  import opened Tables
  import opened SchemaResolver
  import opened OverviewPivot
  import opened StatsAggregation
  import opened PercentFormat

  /**
   * What the database yields for one subject: the column names of the
   * Evaluation and EvaluationStats tables, and the rows of the result and
   * statistics queries filtered on that subject, in query order.
   */
  datatype StoreView = StoreView(
    evaluationColumns: seq<string>,
    statsColumns: seq<string>,
    results: seq<ResultRow>,
    stats: seq<StatsRow>)

  /** Every column name the statistics frame can contribute. */
  const StatsNames: set<string> := {ResponsesColumn, InvitedColumn, PercentColumn, "responses", "invited"}

  /**
   * The SQLite error of the statistics query when the EvaluationStats table
   * does not exist. Every SQLite table has a column, so an empty
   * `PRAGMA table_info(EvaluationStats)` means the table is absent.
   */
  const NoStatsTable: string := "no such table: EvaluationStats"

  /** The empty table returned when the subject has no results. */
  const EmptyTable: Table := Table([], [])

  /** A table whose rows and columns are reordered in place. */
  class Frame {
    var columns: seq<string>
    var rows: seq<Row>

    constructor (t: Table)
      ensures columns == t.columns && rows == t.rows
    {
      columns := t.columns;
      rows := t.rows;
    }

    /** `sort_values(by="År", ascending=True, inplace=True)`. */
    method SortRowsByYear()
      modifies this
      ensures rows == SortByYear(old(rows)) && columns == old(columns)
    {
      rows := SortByYear(rows);
    }

    /** `cols.insert(0, cols.pop(cols.index(name)))` if `name` is a column. */
    method MoveColumnToFront(name: string)
      modifies this
      ensures columns == MoveToFront(old(columns), name) && rows == old(rows)
    {
      var cols := columns;
      if name in cols {
        var k := IndexOf(cols, name);
        cols := [cols[k]] + cols[..k] + cols[k + 1..];
      }
      columns := cols;
    }
  }

  /** The merged table before the final reordering (results non-empty). */
  function MergedTable(store: StoreView, includeStats: bool, filter: Option<seq<string>>): Table
  {
    var pivot := PivotTable(FilterRows(store.results, filter));
    if includeStats && store.stats != [] then
      MergeLeft(pivot, StatsFrame(store.stats, StatsColumnsOf(store.statsColumns)))
    else pivot
  }

  /** The overview `get_subject_overview_df` returns, or its error. */
  function OverviewOf(store: StoreView, includeStats: bool, filter: Option<seq<string>>): Result<Table>
  {
    match SubjectRefOf(store.evaluationColumns)
    case Err(e) => Err(e)
    case Ok(_) =>
      if store.results == [] then Ok(EmptyTable)
      else if includeStats && store.statsColumns == [] then Err(NoStatsTable)
      else
        var merged := MergedTable(store, includeStats, filter);
        Ok(Table(MoveToFront(merged.columns, YearColumn), SortByYear(merged.rows)))
  }

  /** `get_subject_overview_df`, step by step. */
  method SubjectOverview(store: StoreView, includeStats: bool, filter: Option<seq<string>>)
    returns (r: Result<Table>)
    ensures r == OverviewOf(store, includeStats, filter)
  {
    var subject := ResolveSubjectRef(store.evaluationColumns);
    if subject.Err? {
      return Err(subject.error);
    }
    if store.results == [] {
      return Ok(EmptyTable);
    }
    var table := PivotTable(FilterRows(store.results, filter));
    if includeStats {
      if store.statsColumns == [] {
        return Err(NoStatsTable);
      }
      var sc := ResolveStatsColumns(store.statsColumns);
      if store.stats != [] {
        table := MergeLeft(table, StatsFrame(store.stats, sc));
      }
    }
    var frame := new Frame(table);
    frame.SortRowsByYear();
    frame.MoveColumnToFront(YearColumn);
    r := Ok(Table(frame.columns, frame.rows));
  }

  // ---------------------------------------------------------------------
  // What the overview promises
  // ---------------------------------------------------------------------

  /**
   * The overview fails exactly when the Evaluation table has no subject
   * reference column, whatever the queries would return, or when
   * statistics are asked for a subject with results and the
   * EvaluationStats table does not exist; each failure has its own message.
   */
  lemma OverviewFails(store: StoreView, includeStats: bool, filter: Option<seq<string>>)
    ensures OverviewOf(store, includeStats, filter).Err? <==>
      (forall c :: c in SubjectColumns ==> c !in store.evaluationColumns) ||
      (includeStats && store.results != [] && store.statsColumns == [])
    ensures (forall c :: c in SubjectColumns ==> c !in store.evaluationColumns) ==>
      OverviewOf(store, includeStats, filter) == Err(NoSubjectColumn)
    ensures ((exists c :: c in SubjectColumns && c in store.evaluationColumns) &&
             includeStats && store.results != [] && store.statsColumns == []) ==>
      OverviewOf(store, includeStats, filter) == Err(NoStatsTable)
  {
  }

  /**
   * A subject without results gives the empty table, and the statistics
   * rows and columns play no part in it.
   */
  lemma OverviewOfNoResults(store: StoreView, includeStats: bool, filter: Option<seq<string>>,
                            statsColumns: seq<string>, stats: seq<StatsRow>)
    requires SubjectRefOf(store.evaluationColumns).Ok? && store.results == []
    ensures OverviewOf(store, includeStats, filter) == Ok(EmptyTable)
    ensures OverviewOf(store.(statsColumns := statsColumns, stats := stats), includeStats, filter) == Ok(EmptyTable)
  {
  }

  /** Without stats the statistics queries play no part in the overview. */
  lemma OverviewWithoutStats(store: StoreView, filter: Option<seq<string>>,
                             statsColumns: seq<string>, stats: seq<StatsRow>)
    ensures OverviewOf(store, false, filter) ==
      OverviewOf(store.(statsColumns := statsColumns, stats := stats), false, filter)
  {
  }

  /** A question column holds a space, so it is never the year column. */
  lemma QuestionColumnIsNotYear(r: ResultRow)
    ensures QuestionColumn(r) != YearColumn
  {
    var k := QuestionColumn(r);
    assert k[|r.questionId|] == ' ';
    assert forall c :: c in YearColumn ==> c != ' ';
  }

  /**
   * The merged table keeps the pivot's years, ascending, and its columns are
   * "År", the question columns and the statistics columns, with "År" only once.
   */
  lemma MergedShape(store: StoreView, includeStats: bool, filter: Option<seq<string>>)
    ensures var kept := FilterRows(store.results, filter);
      var merged := MergedTable(store, includeStats, filter);
      RowYears(merged.rows) == RowYears(PivotTable(kept).rows) &&
      YearsIncreasing(merged.rows) &&
      merged.columns == [YearColumn] + QuestionColumns(kept) + MergedStatsColumns(store, includeStats) &&
      YearColumn !in merged.columns[1..]
  {
    MergedYears(store, includeStats, filter);
    MergedColumns(store, includeStats, filter);
  }

  /** The statistics columns the merge appends. */
  function MergedStatsColumns(store: StoreView, includeStats: bool): seq<string>
  {
    if includeStats && store.stats != [] then StatsFrameColumns(StatsColumnsOf(store.statsColumns)) else []
  }

  lemma MergedYears(store: StoreView, includeStats: bool, filter: Option<seq<string>>)
    ensures var kept := FilterRows(store.results, filter);
      var merged := MergedTable(store, includeStats, filter);
      RowYears(merged.rows) == RowYears(PivotTable(kept).rows) &&
      YearsIncreasing(merged.rows)
  {
    var kept := FilterRows(store.results, filter);
    var pivot := PivotTable(kept);
    var merged := MergedTable(store, includeStats, filter);
    PivotShape(kept);
    assert RowYears(merged.rows) == RowYears(pivot.rows);
    forall a, b | 0 <= a < b < |merged.rows| ensures merged.rows[a].year < merged.rows[b].year {
      assert RowYears(merged.rows)[a] == RowYears(pivot.rows)[a];
      assert RowYears(merged.rows)[b] == RowYears(pivot.rows)[b];
    }
  }

  lemma MergedColumns(store: StoreView, includeStats: bool, filter: Option<seq<string>>)
    ensures var kept := FilterRows(store.results, filter);
      var merged := MergedTable(store, includeStats, filter);
      merged.columns == [YearColumn] + QuestionColumns(kept) + MergedStatsColumns(store, includeStats) &&
      YearColumn !in merged.columns[1..]
  {
    var kept := FilterRows(store.results, filter);
    var merged := MergedTable(store, includeStats, filter);
    var qs := QuestionColumns(kept);
    assert YearColumn !in qs by {
      forall k | k in qs ensures k != YearColumn {
        var r :| r in kept && QuestionColumn(r) == k;
        QuestionColumnIsNotYear(r);
      }
    }
    var pivot := PivotTable(kept);
    assert pivot.columns == [YearColumn] + qs;
    var extra := MergedStatsColumns(store, includeStats);
    if includeStats && store.stats != [] {
      var sf := StatsFrame(store.stats, StatsColumnsOf(store.statsColumns));
      StatsFrameShape(store.stats, StatsColumnsOf(store.statsColumns));
      assert merged == MergeLeft(pivot, sf);
      assert merged.columns == pivot.columns + extra;
    } else {
      assert merged == pivot && extra == [];
    }
    assert YearColumn !in extra;
    assert merged.columns == [YearColumn] + (qs + extra);
  }

  /** With results, the final reordering leaves the merged table as it is. */
  lemma OverviewIsMerged(store: StoreView, includeStats: bool, filter: Option<seq<string>>)
    requires OverviewOf(store, includeStats, filter).Ok? && store.results != []
    ensures OverviewOf(store, includeStats, filter).value == MergedTable(store, includeStats, filter)
  {
    var merged := MergedTable(store, includeStats, filter);
    MergedShape(store, includeStats, filter);
    SortByYearOfIncreasing(merged.rows);
    MoveToFrontSpec(merged.columns, YearColumn);
    assert merged.columns == [YearColumn] + merged.columns[1..];
    assert RemoveFirst(merged.columns, YearColumn) == merged.columns[1..];
  }

  /**
   * The layout of a successful overview with results: the rows are the
   * distinct years of the kept result rows, ascending, one row each (a
   * statistics year without results adds no row); "År" is the first
   * column, followed by the question columns and then the statistics
   * columns, in their order.
   */
  lemma OverviewLayout(store: StoreView, includeStats: bool, filter: Option<seq<string>>)
    requires OverviewOf(store, includeStats, filter).Ok? && store.results != []
    ensures var t := OverviewOf(store, includeStats, filter).value;
      var kept := FilterRows(store.results, filter);
      YearsIncreasing(t.rows) &&
      (forall y :: y in RowYears(t.rows) <==> exists r :: r in store.results && Kept(r, filter) && r.year == y) &&
      t.columns == [YearColumn] + QuestionColumns(kept) + MergedStatsColumns(store, includeStats)
  {
    var kept := FilterRows(store.results, filter);
    OverviewIsMerged(store, includeStats, filter);
    MergedShape(store, includeStats, filter);
    PivotShape(kept);
    FilterRowsSpec(store.results, filter);
  }

  /**
   * A question cell of the overview holds the first non-NULL value that the
   * filter kept for its year and question, in query order, and is blank
   * when there is none; no values are averaged. (When statistics are
   * merged, for a question column that does not share its name with a
   * statistics column.)
   */
  lemma OverviewQuestionCell(store: StoreView, includeStats: bool, filter: Option<seq<string>>, i: int, k: string)
    requires OverviewOf(store, includeStats, filter).Ok? && store.results != []
    requires 0 <= i < |OverviewOf(store, includeStats, filter).value.rows|
    requires k !in StatsNames || !includeStats || store.stats == []
    ensures var row := OverviewOf(store, includeStats, filter).value.rows[i];
      (k in row.cells <==> FirstPresent(store.results, filter, row.year, k).Some?) &&
      (k in row.cells ==> row.cells[k] == Num(FirstPresent(store.results, filter, row.year, k).value))
  {
    var kept := FilterRows(store.results, filter);
    var pivot := PivotTable(kept);
    var merged := MergedTable(store, includeStats, filter);
    OverviewIsMerged(store, includeStats, filter);
    MergedShape(store, includeStats, filter);
    PivotCell(store.results, filter, i, k);
    assert RowYears(merged.rows)[i] == RowYears(pivot.rows)[i];
    if includeStats && store.stats != [] {
      var sc := StatsColumnsOf(store.statsColumns);
      var sf := StatsFrame(store.stats, sc);
      StatsFrameShape(store.stats, sc);
      MergeLeftCells(pivot, sf, i, k);
      forall j | 0 <= j < |sf.rows| ensures k !in sf.rows[j].cells {
        StatsCellNames(store.stats, sc, j);
      }
    }
  }

  /** Every cell of the statistics frame is under one of its display columns. */
  lemma StatsCellNames(rows: seq<StatsRow>, sc: StatsColumns, j: int)
    requires 0 <= j < |StatsFrame(rows, sc).rows|
    ensures StatsFrame(rows, sc).rows[j].cells.Keys <= StatsNames
  {
    if sc.responses.Some? && sc.invited.Some? {
      StatsFrameCounts(rows, sc, j);
    } else if sc.responses.Some? || sc.invited.Some? {
      StatsFrameSingleCount(rows, sc, j);
    } else {
      StatsFrameFirstRow(rows, sc, j);
    }
  }

  /**
   * With both count columns and non-empty statistics, a year's row holds the
   * counts summed over all that year's evaluations, and the "Svar%" derived
   * from them; a year without statistics has these cells blank. (For
   * question columns that do not share a name with a statistics column.)
   */
  lemma OverviewStatsCells(store: StoreView, filter: Option<seq<string>>, i: int)
    requires OverviewOf(store, true, filter).Ok? && store.results != [] && store.stats != []
    requires var sc := StatsColumnsOf(store.statsColumns); sc.responses.Some? && sc.invited.Some?
    requires 0 <= i < |OverviewOf(store, true, filter).value.rows|
    requires forall r :: r in store.results ==> QuestionColumn(r) !in StatsNames
    ensures var row := OverviewOf(store, true, filter).value.rows[i];
      var resp := SumFor(store.stats, row.year, ResponsesCount);
      var inv := SumFor(store.stats, row.year, InvitedCount);
      if exists s :: s in store.stats && s.year == row.year then
        ResponsesColumn in row.cells && row.cells[ResponsesColumn] == Count(resp) &&
        InvitedColumn in row.cells && row.cells[InvitedColumn] == Count(inv) &&
        PercentColumn in row.cells && row.cells[PercentColumn] == Text(SvarPercent(resp, inv))
      else
        ResponsesColumn !in row.cells && InvitedColumn !in row.cells && PercentColumn !in row.cells
  {
    OverviewIsMerged(store, true, filter);
    MergedYears(store, true, filter);
    MergedStatsCells(store, filter, i);
  }

  lemma MergedStatsCells(store: StoreView, filter: Option<seq<string>>, i: int)
    requires store.stats != []
    requires var sc := StatsColumnsOf(store.statsColumns); sc.responses.Some? && sc.invited.Some?
    requires 0 <= i < |MergedTable(store, true, filter).rows|
    requires forall r :: r in store.results ==> QuestionColumn(r) !in StatsNames
    ensures var row := MergedTable(store, true, filter).rows[i];
      var resp := SumFor(store.stats, row.year, ResponsesCount);
      var inv := SumFor(store.stats, row.year, InvitedCount);
      if exists s :: s in store.stats && s.year == row.year then
        ResponsesColumn in row.cells && row.cells[ResponsesColumn] == Count(resp) &&
        InvitedColumn in row.cells && row.cells[InvitedColumn] == Count(inv) &&
        PercentColumn in row.cells && row.cells[PercentColumn] == Text(SvarPercent(resp, inv))
      else
        ResponsesColumn !in row.cells && InvitedColumn !in row.cells && PercentColumn !in row.cells
  {
    var pivot := PivotTable(FilterRows(store.results, filter));
    var sc := StatsColumnsOf(store.statsColumns);
    var sf := StatsFrame(store.stats, sc);
    assert MergedTable(store, true, filter) == MergeLeft(pivot, sf);
    StatsFrameShape(store.stats, sc);
    forall j | 0 <= j < |sf.rows| ensures sf.rows[j].cells == SummedCells(store.stats, sf.rows[j].year) {
      StatsFrameCounts(store.stats, sc, j);
    }
    PivotHasNoStatsCells(store.results, filter, i);
    MergedRowStats(pivot, sf, store.stats, i);
    var row := MergeLeft(pivot, sf).rows[i];
    var cells := SummedCells(store.stats, row.year);
    assert ResponsesColumn in cells && InvitedColumn in cells && PercentColumn in cells;
  }

  /**
   * Merging a frame of summed statistics into a row without statistics
   * cells: the row gains the year's summed cells when the statistics have
   * that year, and stays without them otherwise.
   */
  lemma MergedRowStats(pivot: Table, sf: Table, stats: seq<StatsRow>, i: int)
    requires YearsDistinct(sf.rows) && 0 <= i < |pivot.rows|
    requires forall j :: 0 <= j < |sf.rows| ==> sf.rows[j].cells == SummedCells(stats, sf.rows[j].year)
    requires forall y :: y in RowYears(sf.rows) <==> exists s :: s in stats && s.year == y
    requires forall k :: k in StatsNames ==> k !in pivot.rows[i].cells
    ensures var row := MergeLeft(pivot, sf).rows[i];
      var cells := SummedCells(stats, row.year);
      row.year == pivot.rows[i].year &&
      if exists s :: s in stats && s.year == row.year then
        forall k :: k in cells ==> k in row.cells && row.cells[k] == cells[k]
      else
        forall k :: k in StatsNames ==> k !in row.cells
  {
    var row := MergeLeft(pivot, sf).rows[i];
    var y := pivot.rows[i].year;
    assert row.year == y by {
      assert RowYears(MergeLeft(pivot, sf).rows)[i] == RowYears(pivot.rows)[i];
    }
    var cells := SummedCells(stats, y);
    if exists s :: s in stats && s.year == y {
      assert y in RowYears(sf.rows);
      var j :| 0 <= j < |sf.rows| && sf.rows[j].year == y;
      forall k | k in cells ensures k in row.cells && row.cells[k] == cells[k] {
        MergeLeftCells(pivot, sf, i, k);
      }
    } else {
      assert y !in RowYears(sf.rows);
      forall j | 0 <= j < |sf.rows| ensures sf.rows[j].year != y {
        assert RowYears(sf.rows)[j] == sf.rows[j].year;
      }
      MergeLeftCells(pivot, sf, i, YearColumn);
    }
  }

  /** Without name clashes, the pivot holds no cell under a statistics column. */
  lemma PivotHasNoStatsCells(results: seq<ResultRow>, filter: Option<seq<string>>, i: int)
    requires 0 <= i < |PivotTable(FilterRows(results, filter)).rows|
    requires forall r :: r in results ==> QuestionColumn(r) !in StatsNames
    ensures forall k :: k in StatsNames ==> k !in PivotTable(FilterRows(results, filter)).rows[i].cells
  {
    var kept := FilterRows(results, filter);
    FilterRowsSpec(results, filter);
    forall k | k in StatsNames ensures k !in PivotTable(kept).rows[i].cells {
      CellsForKeys(kept, PivotTable(kept).rows[i].year, k);
    }
  }
}
