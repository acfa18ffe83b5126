/**
 * The table values the overview is built from, and the table operations
 * the overview applies to them: renaming a column, a left merge on the
 * year column, sorting the rows by year and moving a column to the front.
 *
 * A row carries its year (the "År" key) apart from its other cells; a cell
 * that is missing from `cells` is blank (NaN in pandas), never zero.
 */
module Tables {
  import opened Wrappers

  /** A non-blank cell: a question mean, a count, or a display string. */
  datatype Cell = Num(x: real) | Count(n: int) | Text(s: string)

  datatype Row = Row(year: int, cells: map<string, Cell>)

  /**
   * `columns` lists the columns in display order. A pivot lists the year
   * column; a statistics frame, the right side of a merge, lists only its
   * other columns, since the year is the merge key.
   */
  datatype Table = Table(columns: seq<string>, rows: seq<Row>)

  const YearColumn: string := "År"

  function RowYears(rows: seq<Row>): (ys: seq<int>)
    ensures |ys| == |rows| && forall i :: 0 <= i < |rows| ==> ys[i] == rows[i].year
  {
    seq(|rows|, i requires 0 <= i < |rows| => rows[i].year)
  }

  predicate YearsDistinct(rows: seq<Row>)
  {
    forall i, j :: 0 <= i < j < |rows| ==> rows[i].year != rows[j].year
  }

  predicate YearsIncreasing(rows: seq<Row>)
  {
    forall i, j :: 0 <= i < j < |rows| ==> rows[i].year < rows[j].year
  }

  predicate YearsNonDecreasing(rows: seq<Row>)
  {
    forall i, j :: 0 <= i < j < |rows| ==> rows[i].year <= rows[j].year
  }

  // ---------------------------------------------------------------------
  // Renaming a column
  // ---------------------------------------------------------------------

  function RenameCells(m: map<string, Cell>, from: string, to: string): map<string, Cell>
  {
    if from in m then (m - {from})[to := m[from]] else m
  }

  /** `rename(columns={from: to})`: a table without `from` is returned as it is. */
  function RenameColumn(t: Table, from: string, to: string): (r: Table)
    ensures |r.rows| == |t.rows| && RowYears(r.rows) == RowYears(t.rows)
  {
    var cols := seq(|t.columns|, i requires 0 <= i < |t.columns| =>
      if t.columns[i] == from then to else t.columns[i]);
    var rows := seq(|t.rows|, i requires 0 <= i < |t.rows| =>
      Row(t.rows[i].year, RenameCells(t.rows[i].cells, from, to)));
    assert RowYears(rows) == RowYears(t.rows);
    Table(cols, rows)
  }

  /**
   * Renaming replaces the column name in place, moves each row's `from`
   * cell to `to`, leaves every other cell alone, and changes nothing when
   * the table has no `from` column or cell.
   */
  lemma RenameColumnSpec(t: Table, from: string, to: string)
    ensures var r := RenameColumn(t, from, to);
      |r.columns| == |t.columns| &&
      (forall i :: 0 <= i < |t.columns| ==>
        r.columns[i] == (if t.columns[i] == from then to else t.columns[i])) &&
      ((from !in t.columns && forall i :: 0 <= i < |t.rows| ==> from !in t.rows[i].cells) ==> r == t) &&
      (forall i :: 0 <= i < |t.rows| && from in t.rows[i].cells ==>
        to in r.rows[i].cells && r.rows[i].cells[to] == t.rows[i].cells[from] && (from != to ==> from !in r.rows[i].cells)) &&
      (forall i, k :: 0 <= i < |t.rows| && k != from && k != to ==>
        (k in r.rows[i].cells <==> k in t.rows[i].cells) &&
        (k in t.rows[i].cells ==> r.rows[i].cells[k] == t.rows[i].cells[k]))
  {
    var r := RenameColumn(t, from, to);
    if from !in t.columns && forall i :: 0 <= i < |t.rows| ==> from !in t.rows[i].cells {
      assert r.columns == t.columns;
      assert r.rows == t.rows;
    }
  }

  // ---------------------------------------------------------------------
  // Left merge on the year column
  // ---------------------------------------------------------------------

  /** The first row of `rows` with year `y`. */
  function FindYear(rows: seq<Row>, y: int): (r: Option<Row>)
    ensures r.Some? ==> r.value in rows && r.value.year == y
    ensures r.None? <==> forall i :: 0 <= i < |rows| ==> rows[i].year != y
  {
    if rows == [] then None
    else if rows[0].year == y then Some(rows[0])
    else
      var r := FindYear(rows[1..], y);
      assert forall i :: 1 <= i < |rows| ==> rows[i] == rows[1..][i - 1];
      r
  }

  lemma {:induction false} FindYearOfDistinct(rows: seq<Row>, j: int)
    requires YearsDistinct(rows) && 0 <= j < |rows|
    ensures FindYear(rows, rows[j].year) == Some(rows[j])
  {
    if j > 0 {
      assert YearsDistinct(rows[1..]);
      FindYearOfDistinct(rows[1..], j - 1);
    }
  }

  function MergeRow(left: Row, right: seq<Row>): Row
  {
    match FindYear(right, left.year)
    case Some(s) => Row(left.year, left.cells + s.cells)
    case None => left
  }

  /**
   * `left.merge(right, on="År", how="left")` when `right` has at most one row
   * per year: every left row is kept in order with its year, and gains the
   * cells of the right row of the same year; right rows with no left
   * counterpart are dropped. The right table's columns leave out the year
   * key, so appending them lists the key once, as pandas does.
   */
  function MergeLeft(left: Table, right: Table): (r: Table)
    ensures r.columns == left.columns + right.columns
    ensures |r.rows| == |left.rows|
    ensures RowYears(r.rows) == RowYears(left.rows)
  {
    var rows := seq(|left.rows|, i requires 0 <= i < |left.rows| => MergeRow(left.rows[i], right.rows));
    assert RowYears(rows) == RowYears(left.rows);
    Table(left.columns + right.columns, rows)
  }

  /** What a merged row holds: the right row's cells where the years match, the left row's elsewhere. */
  lemma MergeLeftCells(left: Table, right: Table, i: int, k: string)
    requires YearsDistinct(right.rows)
    requires 0 <= i < |left.rows|
    ensures var row := MergeLeft(left, right).rows[i];
      var y := left.rows[i].year;
      (forall j :: 0 <= j < |right.rows| && right.rows[j].year == y ==>
        (k in row.cells <==> k in left.rows[i].cells || k in right.rows[j].cells) &&
        (k in right.rows[j].cells ==> row.cells[k] == right.rows[j].cells[k]) &&
        (k !in right.rows[j].cells && k in left.rows[i].cells ==> row.cells[k] == left.rows[i].cells[k])) &&
      ((forall j :: 0 <= j < |right.rows| ==> right.rows[j].year != y) ==> row == left.rows[i])
  {
    forall j | 0 <= j < |right.rows| && right.rows[j].year == left.rows[i].year {
      FindYearOfDistinct(right.rows, j);
    }
  }

  // ---------------------------------------------------------------------
  // Sorting the rows by year (insertion sort)
  // ---------------------------------------------------------------------

  function InsertByYear(s: seq<Row>, x: Row): (r: seq<Row>)
    requires YearsNonDecreasing(s)
    ensures YearsNonDecreasing(r)
    ensures forall y :: y in r <==> y in s || y == x
    ensures multiset(r) == multiset(s) + multiset{x}
  {
    if s == [] then [x]
    else if s[|s| - 1].year <= x.year then s + [x]
    else
      var init := s[..|s| - 1];
      var last := s[|s| - 1];
      assert s == init + [last];
      var r := InsertByYear(init, x);
      assert forall i :: 0 <= i < |r| ==> r[i].year <= last.year by {
        forall i | 0 <= i < |r| ensures r[i].year <= last.year {
          assert r[i] in init || r[i] == x;
        }
      }
      r + [last]
  }

  /**
   * `sort_values(by="År")`: the rows in non-decreasing year order, a
   * permutation of the input. pandas' default sort is not stable, but the
   * overview's years are distinct, so the order of equal years never arises.
   */
  function SortByYear(s: seq<Row>): (r: seq<Row>)
    ensures YearsNonDecreasing(r)
    ensures multiset(r) == multiset(s)
  {
    if s == [] then []
    else
      var init := s[..|s| - 1];
      assert s == init + [s[|s| - 1]];
      InsertByYear(SortByYear(init), s[|s| - 1])
  }

  /** Sorting rows whose years already increase changes nothing. */
  lemma {:induction false} SortByYearOfIncreasing(s: seq<Row>)
    requires YearsIncreasing(s)
    ensures SortByYear(s) == s
  {
    if s != [] {
      var init := s[..|s| - 1];
      assert YearsIncreasing(init);
      SortByYearOfIncreasing(init);
      assert init + [s[|s| - 1]] == s;
    }
  }

  // ---------------------------------------------------------------------
  // Moving a column to the front
  // ---------------------------------------------------------------------

  /** `list.index`: the position of the first occurrence of `x`. */
  function IndexOf(s: seq<string>, x: string): (k: nat)
    requires x in s
    ensures k < |s| && s[k] == x
    ensures forall j :: 0 <= j < k ==> s[j] != x
  {
    if s[0] == x then 0 else 1 + IndexOf(s[1..], x)
  }

  /** `cols.insert(0, cols.pop(cols.index(x)))` when `x` is a column. */
  function MoveToFront(cols: seq<string>, x: string): seq<string>
  {
    if x in cols then
      var k := IndexOf(cols, x);
      [cols[k]] + cols[..k] + cols[k + 1..]
    else cols
  }

  /** `s` without the first occurrence of `x`. */
  function RemoveFirst(s: seq<string>, x: string): seq<string>
  {
    if s == [] then []
    else if s[0] == x then s[1..]
    else [s[0]] + RemoveFirst(s[1..], x)
  }

  /** `s` without any occurrence of `x`, the rest in order. */
  function Without(s: seq<string>, x: string): seq<string>
  {
    if s == [] then []
    else if s[0] == x then Without(s[1..], x)
    else [s[0]] + Without(s[1..], x)
  }

  lemma {:induction false} RemoveFirstAt(s: seq<string>, x: string)
    requires x in s
    ensures RemoveFirst(s, x) == s[..IndexOf(s, x)] + s[IndexOf(s, x) + 1..]
  {
    if s[0] != x {
      RemoveFirstAt(s[1..], x);
      assert s[1..][..IndexOf(s[1..], x)] == s[1..IndexOf(s, x)];
      assert s[1..][IndexOf(s[1..], x) + 1..] == s[IndexOf(s, x) + 1..];
    }
  }

  lemma {:induction false} WithoutRemoveFirst(s: seq<string>, x: string)
    ensures Without(RemoveFirst(s, x), x) == Without(s, x)
  {
    if s != [] && s[0] != x {
      WithoutRemoveFirst(s[1..], x);
      assert ([s[0]] + RemoveFirst(s[1..], x))[1..] == RemoveFirst(s[1..], x);
    }
  }

  /**
   * Moving `x` to the front puts it first, keeps every other column in its
   * relative order and loses no column; without `x` nothing moves.
   */
  lemma MoveToFrontSpec(cols: seq<string>, x: string)
    ensures x !in cols ==> MoveToFront(cols, x) == cols
    ensures x in cols ==> MoveToFront(cols, x) == [x] + RemoveFirst(cols, x)
    ensures Without(MoveToFront(cols, x), x) == Without(cols, x)
    ensures multiset(MoveToFront(cols, x)) == multiset(cols)
  {
    if x in cols {
      RemoveFirstAt(cols, x);
      MoveToFrontKeepsOthers(cols, x);
      MoveToFrontPermutes(cols, x);
    }
  }

  lemma MoveToFrontKeepsOthers(cols: seq<string>, x: string)
    requires x in cols
    requires MoveToFront(cols, x) == [x] + RemoveFirst(cols, x)
    ensures Without(MoveToFront(cols, x), x) == Without(cols, x)
  {
    var rest := RemoveFirst(cols, x);
    var r := [x] + rest;
    WithoutRemoveFirst(cols, x);
    assert r[0] == x && r[1..] == rest;
    assert Without(r, x) == Without(rest, x);
  }

  lemma MoveToFrontPermutes(cols: seq<string>, x: string)
    requires x in cols
    ensures multiset(MoveToFront(cols, x)) == multiset(cols)
  {
    var k := IndexOf(cols, x);
    var a, b := cols[..k], cols[k + 1..];
    assert cols == a + [x] + b;
    assert MoveToFront(cols, x) == [x] + a + b;
  }
}
