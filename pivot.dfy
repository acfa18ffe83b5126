/**
 * The question part of the overview: the fetched result rows
 * (year, question id, question label, value), the optional filter on
 * question-id prefixes, and the pivot to one row per year with one column
 * per question, each cell holding the first value found (`aggfunc="first"`).
 */
module OverviewPivot {
  import opened Wrappers
  import opened Ordering
  import opened Tables

  /** One row of the result query; `value` is None for an SQL NULL. */
  datatype ResultRow = ResultRow(year: int, questionId: string, questionLabel: string, value: Option<real>)

  /** The question column of a row: id and label separated by one space. */
  function QuestionColumn(r: ResultRow): string
  {
    r.questionId + " " + r.questionLabel
  }

  // ---------------------------------------------------------------------
  // Prefix filter
  // ---------------------------------------------------------------------

  /** With no filter every row is kept; otherwise its question id must start with a given prefix. */
  predicate Kept(r: ResultRow, filter: Option<seq<string>>)
  {
    match filter
    case None => true
    case Some(prefixes) => exists p :: p in prefixes && p <= r.questionId
  }

  function FilterRows(rows: seq<ResultRow>, filter: Option<seq<string>>): seq<ResultRow>
  {
    if rows == [] then []
    else if Kept(rows[0], filter) then [rows[0]] + FilterRows(rows[1..], filter)
    else FilterRows(rows[1..], filter)
  }

  /**
   * The filter keeps exactly the rows whose question id starts with one of
   * the prefixes (all rows when there is no filter), and only input rows.
   */
  lemma {:induction false} FilterRowsSpec(rows: seq<ResultRow>, filter: Option<seq<string>>)
    ensures forall r :: r in FilterRows(rows, filter) <==> r in rows && Kept(r, filter)
    ensures filter.None? ==> FilterRows(rows, filter) == rows
    ensures |FilterRows(rows, filter)| <= |rows|
  {
    if rows != [] {
      FilterRowsSpec(rows[1..], filter);
      assert rows == [rows[0]] + rows[1..];
    }
  }

  // ---------------------------------------------------------------------
  // First value per (year, question)
  // ---------------------------------------------------------------------

  /**
   * Reference definition: the value of the first row in fetch order that
   * the filter keeps, that has year `y` and question column `k`, and whose
   * value is not NULL.
   */
  function FirstPresent(rows: seq<ResultRow>, filter: Option<seq<string>>, y: int, k: string): Option<real>
  {
    if rows == [] then None
    else if Kept(rows[0], filter) && rows[0].year == y && QuestionColumn(rows[0]) == k && rows[0].value.Some?
    then rows[0].value
    else FirstPresent(rows[1..], filter, y, k)
  }

  /** A row that FirstPresent may choose. */
  predicate Candidate(r: ResultRow, filter: Option<seq<string>>, y: int, k: string)
  {
    Kept(r, filter) && r.year == y && QuestionColumn(r) == k && r.value.Some?
  }

  /** FirstPresent is the value of the earliest candidate row, and None when there is none. */
  lemma {:induction false} FirstPresentIsFirst(rows: seq<ResultRow>, filter: Option<seq<string>>, y: int, k: string)
    ensures FirstPresent(rows, filter, y, k).None? <==>
      forall i :: 0 <= i < |rows| ==> !Candidate(rows[i], filter, y, k)
    ensures FirstPresent(rows, filter, y, k).Some? ==>
      exists i :: 0 <= i < |rows| && Candidate(rows[i], filter, y, k) &&
        rows[i].value == FirstPresent(rows, filter, y, k) &&
        forall j :: 0 <= j < i ==> !Candidate(rows[j], filter, y, k)
  {
    if rows != [] {
      FirstPresentIsFirst(rows[1..], filter, y, k);
      assert forall i :: 1 <= i < |rows| ==> rows[i] == rows[1..][i - 1];
      if !Candidate(rows[0], filter, y, k) && FirstPresent(rows[1..], filter, y, k).Some? {
        var i :| 0 <= i < |rows[1..]| && Candidate(rows[1..][i], filter, y, k) &&
          rows[1..][i].value == FirstPresent(rows[1..], filter, y, k) &&
          forall j :: 0 <= j < i ==> !Candidate(rows[1..][j], filter, y, k);
        assert rows[i + 1] == rows[1..][i];
        assert forall j :: 0 <= j < i + 1 ==> !Candidate(rows[j], filter, y, k) by {
          forall j | 0 <= j < i + 1 ensures !Candidate(rows[j], filter, y, k) {
            if j > 0 {
              assert rows[j] == rows[1..][j - 1];
            }
          }
        }
      }
    }
  }

  /**
   * The question cells of year `y`: for every question column, the first
   * non-NULL value of that year. Later rows are folded in first, so an
   * earlier row overwrites them.
   */
  function CellsFor(rows: seq<ResultRow>, y: int): map<string, real>
  {
    if rows == [] then map[]
    else
      var rest := CellsFor(rows[1..], y);
      if rows[0].year == y && rows[0].value.Some? then rest[QuestionColumn(rows[0]) := rows[0].value.value]
      else rest
  }

  /** The pivot of the filtered rows holds, per year and question, the reference value FirstPresent. */
  lemma {:induction false} CellsForFirstWins(rows: seq<ResultRow>, filter: Option<seq<string>>, y: int, k: string)
    ensures var cells := CellsFor(FilterRows(rows, filter), y);
      (k in cells <==> FirstPresent(rows, filter, y, k).Some?) &&
      (k in cells ==> cells[k] == FirstPresent(rows, filter, y, k).value)
  {
    if rows != [] {
      CellsForFirstWins(rows[1..], filter, y, k);
      if Kept(rows[0], filter) {
        var kept := FilterRows(rows, filter);
        assert kept[1..] == FilterRows(rows[1..], filter);
      }
    }
  }

  /** Only question columns of the input get a cell. */
  lemma {:induction false} CellsForKeys(rows: seq<ResultRow>, y: int, k: string)
    ensures k in CellsFor(rows, y) ==> exists r :: r in rows && QuestionColumn(r) == k
  {
    if rows != [] && (QuestionColumn(rows[0]) != k || rows[0].year != y || rows[0].value.None?) {
      CellsForKeys(rows[1..], y, k);
      assert forall r :: r in rows[1..] ==> r in rows;
    }
  }

  // ---------------------------------------------------------------------
  // Pivot
  // ---------------------------------------------------------------------

  function Years(rows: seq<ResultRow>): (ys: seq<int>)
    ensures forall y :: y in ys <==> exists r :: r in rows && r.year == y
  {
    var ys := seq(|rows|, i requires 0 <= i < |rows| => rows[i].year);
    assert forall r :: r in rows ==> r.year in ys by {
      forall r | r in rows ensures r.year in ys {
        var i :| 0 <= i < |rows| && rows[i] == r;
        assert ys[i] == r.year;
      }
    }
    ys
  }

  function Questions(rows: seq<ResultRow>): (ks: seq<string>)
    ensures forall k :: k in ks <==> exists r :: r in rows && QuestionColumn(r) == k
  {
    var ks := seq(|rows|, i requires 0 <= i < |rows| => QuestionColumn(rows[i]));
    assert forall r :: r in rows ==> QuestionColumn(r) in ks by {
      forall r | r in rows ensures QuestionColumn(r) in ks {
        var i :| 0 <= i < |rows| && rows[i] == r;
        assert ks[i] == QuestionColumn(r);
      }
    }
    ks
  }

  /** The question columns of the pivot: distinct, in ascending code-point order. */
  function QuestionColumns(rows: seq<ResultRow>): (ks: seq<string>)
    ensures Increasing(ks, StrLess)
    ensures forall k :: k in ks <==> exists r :: r in rows && QuestionColumn(r) == k
  {
    StrLessIsStrictTotalOrder();
    SortedDistinct(Questions(rows), StrLess)
  }

  /** The years of the pivot: distinct, ascending. */
  function PivotYears(rows: seq<ResultRow>): (ys: seq<int>)
    ensures Increasing(ys, IntLess)
    ensures forall y :: y in ys <==> exists r :: r in rows && r.year == y
  {
    IntLessIsStrictTotalOrder();
    SortedDistinct(Years(rows), IntLess)
  }

  function NumCells(m: map<string, real>): map<string, Cell>
  {
    map k | k in m :: Num(m[k])
  }

  /**
   * `pivot_table(index="year", columns="question", values="value",
   * aggfunc="first")` followed by `reset_index` and the renaming of "year"
   * to "År".
   */
  function PivotTable(rows: seq<ResultRow>): Table
  {
    var years := PivotYears(rows);
    Table([YearColumn] + QuestionColumns(rows),
          seq(|years|, i requires 0 <= i < |years| => Row(years[i], NumCells(CellsFor(rows, years[i])))))
  }

  /**
   * The pivot has one row per distinct year of its input, in ascending
   * order, and its columns are "År" followed by the distinct question
   * columns.
   */
  lemma PivotShape(rows: seq<ResultRow>)
    ensures var t := PivotTable(rows);
      YearsIncreasing(t.rows) &&
      (forall y :: y in RowYears(t.rows) <==> exists r :: r in rows && r.year == y) &&
      t.columns[0] == YearColumn &&
      (forall k :: k in t.columns[1..] <==> exists r :: r in rows && QuestionColumn(r) == k)
  {
    var t := PivotTable(rows);
    var years := PivotYears(rows);
    assert RowYears(t.rows) == years;
    assert t.columns[1..] == QuestionColumns(rows);
  }

  /**
   * A cell of the pivot of the filtered rows holds the first non-NULL value the
   * filter kept for that year and question, and is blank when there is none.
   */
  lemma PivotCell(rows: seq<ResultRow>, filter: Option<seq<string>>, i: int, k: string)
    requires 0 <= i < |PivotTable(FilterRows(rows, filter)).rows|
    ensures var row := PivotTable(FilterRows(rows, filter)).rows[i];
      (k in row.cells <==> FirstPresent(rows, filter, row.year, k).Some?) &&
      (k in row.cells ==> row.cells[k] == Num(FirstPresent(rows, filter, row.year, k).value))
  {
    var row := PivotTable(FilterRows(rows, filter)).rows[i];
    CellsForFirstWins(rows, filter, row.year, k);
  }
}
