/**
 * The statistics part of the overview: the rows of the statistics query,
 * their aggregation to one row per year (summing the counts when the schema
 * has a count column, otherwise keeping the first row of each year), the
 * renaming to the display columns and the derived "Svar%" column.
 */
module StatsAggregation {
  import opened Wrappers
  import opened Ordering
  import opened Tables
  import opened SchemaResolver
  import opened PercentFormat

  /**
   * One row of the statistics query. A field whose column the schema lacks
   * is not selected and is ignored; None is an SQL NULL.
   */
  datatype StatsRow = StatsRow(year: int, responses: Option<int>, invited: Option<int>, percent: Option<string>)

  /** The columns the statistics query returns, under their SQL aliases. */
  function StatsQueryColumns(sc: StatsColumns): (cols: seq<string>)
    ensures |cols| > 0 && cols[0] == "year"
    ensures "responses" in cols <==> sc.responses.Some?
    ensures "invited" in cols <==> sc.invited.Some?
    ensures "response_percent" in cols <==> sc.percent.Some?
  {
    ["year"]
      + (if sc.responses.Some? then ["responses"] else [])
      + (if sc.invited.Some? then ["invited"] else [])
      + (if sc.percent.Some? then ["response_percent"] else [])
  }

  // ---------------------------------------------------------------------
  // Sums per year
  // ---------------------------------------------------------------------

  datatype CountField = ResponsesCount | InvitedCount

  /** A count of one row; NULL adds nothing to a sum. */
  function CountOf(r: StatsRow, f: CountField): int
  {
    var v := if f == ResponsesCount then r.responses else r.invited;
    if v.Some? then v.value else 0
  }

  /** The sum of a count over the rows of year `y`. */
  function SumFor(rows: seq<StatsRow>, y: int, f: CountField): int
  {
    if rows == [] then 0
    else (if rows[0].year == y then CountOf(rows[0], f) else 0) + SumFor(rows[1..], y, f)
  }

  /** The sum of a count over all rows. */
  function Total(rows: seq<StatsRow>, f: CountField): int
  {
    if rows == [] then 0 else CountOf(rows[0], f) + Total(rows[1..], f)
  }

  function StatsYears(rows: seq<StatsRow>): (ys: seq<int>)
    ensures forall y :: y in ys <==> exists r :: r in rows && r.year == y
  {
    var ys := seq(|rows|, i requires 0 <= i < |rows| => rows[i].year);
    assert forall r :: r in rows ==> r.year in ys by {
      forall r | r in rows ensures r.year in ys {
        var i :| 0 <= i < |rows| && rows[i] == r;
        assert ys[i] == r.year;
      }
    }
    ys
  }

  /** The group keys of `groupby("year")`: the distinct years, ascending. */
  function GroupYears(rows: seq<StatsRow>): (ys: seq<int>)
    ensures Increasing(ys, IntLess)
    ensures forall y :: y in ys <==> exists r :: r in rows && r.year == y
  {
    IntLessIsStrictTotalOrder();
    SortedDistinct(StatsYears(rows), IntLess)
  }

  function SummedRow(rows: seq<StatsRow>, y: int, sc: StatsColumns): Row
  {
    var resp := if sc.responses.Some? then map["responses" := Count(SumFor(rows, y, ResponsesCount))] else map[];
    var inv := if sc.invited.Some? then map["invited" := Count(SumFor(rows, y, InvitedCount))] else map[];
    Row(y, resp + inv)
  }

  /** `stats.groupby("year")[numeric_cols].sum().reset_index()`. */
  function GroupSums(rows: seq<StatsRow>, sc: StatsColumns): Table
  {
    var years := GroupYears(rows);
    Table((if sc.responses.Some? then ["responses"] else []) + (if sc.invited.Some? then ["invited"] else []),
          seq(|years|, i requires 0 <= i < |years| => SummedRow(rows, years[i], sc)))
  }

  /** The per-year sums of a count over the years `ys`, added up. */
  function SumOverYears(ys: seq<int>, rows: seq<StatsRow>, f: CountField): int
  {
    if ys == [] then 0 else SumFor(rows, ys[0], f) + SumOverYears(ys[1..], rows, f)
  }

  lemma {:induction false} SumForSplit(a: seq<StatsRow>, b: seq<StatsRow>, y: int, f: CountField)
    ensures SumFor(a + b, y, f) == SumFor(a, y, f) + SumFor(b, y, f)
  {
    if a == [] {
      assert a + b == b;
    } else {
      assert (a + b)[1..] == a[1..] + b;
      SumForSplit(a[1..], b, y, f);
    }
  }

  lemma {:induction false} TotalSplit(a: seq<StatsRow>, b: seq<StatsRow>, f: CountField)
    ensures Total(a + b, f) == Total(a, f) + Total(b, f)
  {
    if a == [] {
      assert a + b == b;
    } else {
      assert (a + b)[1..] == a[1..] + b;
      TotalSplit(a[1..], b, f);
    }
  }

  lemma {:induction false} SumOverYearsAppend(ys: seq<int>, rows: seq<StatsRow>, x: StatsRow, f: CountField)
    requires forall i, j :: 0 <= i < j < |ys| ==> ys[i] != ys[j]
    ensures SumOverYears(ys, rows + [x], f) ==
      SumOverYears(ys, rows, f) + (if x.year in ys then CountOf(x, f) else 0)
  {
    if ys != [] {
      SumForSplit(rows, [x], ys[0], f);
      assert SumFor([x], ys[0], f) == if x.year == ys[0] then CountOf(x, f) else 0;
      SumOverYearsAppend(ys[1..], rows, x, f);
      assert x.year in ys <==> x.year == ys[0] || x.year in ys[1..];
    }
  }

  /**
   * Summing per year loses nothing: the per-year sums over any distinct
   * list of years that covers every row add up to the total.
   */
  lemma {:induction false} SumOverYearsIsTotal(ys: seq<int>, rows: seq<StatsRow>, f: CountField)
    requires forall i, j :: 0 <= i < j < |ys| ==> ys[i] != ys[j]
    requires forall r :: r in rows ==> r.year in ys
    ensures SumOverYears(ys, rows, f) == Total(rows, f)
  {
    if rows == [] {
      SumOverYearsOfNothing(ys, f);
    } else {
      var init := rows[..|rows| - 1];
      var last := rows[|rows| - 1];
      assert rows == init + [last];
      SumOverYearsIsTotal(ys, init, f);
      SumOverYearsAppend(ys, init, last, f);
      TotalSplit(init, [last], f);
    }
  }

  lemma {:induction false} SumOverYearsOfNothing(ys: seq<int>, f: CountField)
    ensures SumOverYears(ys, [], f) == 0
  {
    if ys != [] {
      SumOverYearsOfNothing(ys[1..], f);
    }
  }

  /** The grouped counts of all years add up to the counts of all rows. */
  lemma GroupSumsConserve(rows: seq<StatsRow>, f: CountField)
    ensures SumOverYears(GroupYears(rows), rows, f) == Total(rows, f)
  {
    var ys := GroupYears(rows);
    IntLessIsStrictTotalOrder();
    IncreasingIsDistinct(ys, IntLess);
    SumOverYearsIsTotal(ys, rows, f);
  }

  // ---------------------------------------------------------------------
  // First row per year
  // ---------------------------------------------------------------------

  /** Reference definition: the first row of year `y`, in query order. */
  function FirstOfYear(rows: seq<StatsRow>, y: int): Option<StatsRow>
  {
    if rows == [] then None
    else if rows[0].year == y then Some(rows[0])
    else FirstOfYear(rows[1..], y)
  }

  /** The rows whose year is not in `seen` and was not met before, in order. */
  function DedupFrom(rows: seq<StatsRow>, seen: set<int>): seq<StatsRow>
  {
    if rows == [] then []
    else if rows[0].year in seen then DedupFrom(rows[1..], seen)
    else [rows[0]] + DedupFrom(rows[1..], seen + {rows[0].year})
  }

  /** `stats.drop_duplicates(subset=["year"])`: keep the first row of each year. */
  function DropDuplicateYears(rows: seq<StatsRow>): seq<StatsRow>
  {
    DedupFrom(rows, {})
  }

  lemma {:induction false} DedupFromSpec(rows: seq<StatsRow>, seen: set<int>)
    ensures var kept := DedupFrom(rows, seen);
      (forall i, j :: 0 <= i < j < |kept| ==> kept[i].year != kept[j].year) &&
      (forall i :: 0 <= i < |kept| ==> kept[i].year !in seen && FirstOfYear(rows, kept[i].year) == Some(kept[i])) &&
      (forall y :: y !in seen ==> (y in StatsYears(rows) <==> y in StatsYears(kept)))
  {
    if rows != [] {
      var r0 := rows[0];
      var kept := DedupFrom(rows, seen);
      if r0.year in seen {
        DedupFromSpec(rows[1..], seen);
        assert forall y :: y !in seen ==> ((exists r :: r in rows && r.year == y) <==> (exists r :: r in rows[1..] && r.year == y)) by {
          forall y | y !in seen ensures (exists r :: r in rows && r.year == y) ==> (exists r :: r in rows[1..] && r.year == y) {
            if r :| r in rows && r.year == y {
              if r != r0 {
                assert r in rows[1..];
              } else {
                assert false;
              }
            }
          }
          assert forall r :: r in rows[1..] ==> r in rows;
        }
      } else {
        var rest := DedupFrom(rows[1..], seen + {r0.year});
        DedupFromSpec(rows[1..], seen + {r0.year});
        assert kept == [r0] + rest;
        assert forall i :: 0 <= i < |rest| ==> kept[i + 1] == rest[i];
        forall i | 0 <= i < |kept|
          ensures kept[i].year !in seen && FirstOfYear(rows, kept[i].year) == Some(kept[i])
        {
          if i > 0 {
            assert kept[i] == rest[i - 1];
          }
        }
        forall y | y !in seen
          ensures y in StatsYears(rows) <==> y in StatsYears(kept)
        {
          if y != r0.year {
            if r :| r in rows && r.year == y {
              assert r in rows[1..];
            }
            assert forall r :: r in rows[1..] ==> r in rows;
          }
        }
      }
    }
  }

  /**
   * After dropping the duplicates each year occurs once, every kept row is
   * the first row of its year, and every year of the input is kept.
   */
  lemma DropDuplicateYearsSpec(rows: seq<StatsRow>)
    ensures var kept := DropDuplicateYears(rows);
      (forall i, j :: 0 <= i < j < |kept| ==> kept[i].year != kept[j].year) &&
      (forall i :: 0 <= i < |kept| ==> FirstOfYear(rows, kept[i].year) == Some(kept[i])) &&
      (forall y :: y in StatsYears(rows) <==> y in StatsYears(kept))
  {
    DedupFromSpec(rows, {});
  }

  function FirstRow(r: StatsRow, sc: StatsColumns): Row
  {
    Row(r.year, if sc.percent.Some? && r.percent.Some? then map["response_percent" := Text(r.percent.value)] else map[])
  }

  /** The first-row branch: the surviving rows with their selected columns. */
  function FirstRowsTable(rows: seq<StatsRow>, sc: StatsColumns): Table
  {
    var kept := DropDuplicateYears(rows);
    Table(if sc.percent.Some? then ["response_percent"] else [],
          seq(|kept|, i requires 0 <= i < |kept| => FirstRow(kept[i], sc)))
  }

  // ---------------------------------------------------------------------
  // Display columns
  // ---------------------------------------------------------------------

  const ResponsesColumn: string := "Antall svar"
  const InvitedColumn: string := "Antall invitert"
  const PercentColumn: string := "Svar%"

  function CountCell(m: map<string, Cell>, k: string): int
  {
    if k in m && m[k].Count? then m[k].n else 0
  }

  /** The "Svar%" column computed from the two count columns of each row. */
  function AddSvarPercent(t: Table): (r: Table)
    ensures RowYears(r.rows) == RowYears(t.rows)
  {
    var rows := seq(|t.rows|, i requires 0 <= i < |t.rows| =>
      var m := t.rows[i].cells;
      Row(t.rows[i].year, m[PercentColumn := Text(SvarPercent(CountCell(m, ResponsesColumn), CountCell(m, InvitedColumn)))]));
    assert RowYears(rows) == RowYears(t.rows);
    Table(t.columns + [PercentColumn], rows)
  }

  /**
   * The statistics frame merged into the overview, for a non-empty
   * statistics query: the grouping branch, then the renaming to the display
   * columns with the derived "Svar%" when both counts exist, or else the
   * renaming of a precomputed percentage column.
   */
  function StatsFrame(rows: seq<StatsRow>, sc: StatsColumns): Table
  {
    var queryCols := StatsQueryColumns(sc);
    var grouped :=
      if "responses" in queryCols || "invited" in queryCols then GroupSums(rows, sc)
      else FirstRowsTable(rows, sc);
    if "responses" in grouped.columns && "invited" in grouped.columns then
      AddSvarPercent(RenameColumn(RenameColumn(grouped, "responses", ResponsesColumn), "invited", InvitedColumn))
    else if sc.percent.Some? && "response_percent" in queryCols then
      RenameColumn(grouped, "response_percent", PercentColumn)
    else grouped
  }

  function StatsFrameColumns(sc: StatsColumns): seq<string>
  {
    if sc.responses.Some? && sc.invited.Some? then [ResponsesColumn, InvitedColumn, PercentColumn]
    else if sc.responses.Some? then ["responses"]
    else if sc.invited.Some? then ["invited"]
    else if sc.percent.Some? then [PercentColumn]
    else []
  }

  /**
   * The statistics frame has one row per distinct year of the statistics
   * rows, and its columns are the display columns of the schema's branch.
   */
  lemma StatsFrameShape(rows: seq<StatsRow>, sc: StatsColumns)
    ensures var t := StatsFrame(rows, sc);
      YearsDistinct(t.rows) &&
      (forall y :: y in RowYears(t.rows) <==> exists r :: r in rows && r.year == y) &&
      t.columns == StatsFrameColumns(sc)
  {
    var t := StatsFrame(rows, sc);
    if sc.responses.Some? || sc.invited.Some? {
      var g := GroupSums(rows, sc);
      var ys := GroupYears(rows);
      IntLessIsStrictTotalOrder();
      IncreasingIsDistinct(ys, IntLess);
      assert RowYears(g.rows) == ys;
      assert RowYears(t.rows) == ys;
    } else {
      var g := FirstRowsTable(rows, sc);
      var kept := DropDuplicateYears(rows);
      DropDuplicateYearsSpec(rows);
      assert RowYears(g.rows) == StatsYears(kept);
      assert RowYears(t.rows) == RowYears(g.rows);
    }
  }

  /**
   * The display cells of year y when both counts exist: the summed counts
   * and the "Svar%" derived from them.
   */
  function SummedCells(rows: seq<StatsRow>, y: int): map<string, Cell>
  {
    var resp := SumFor(rows, y, ResponsesCount);
    var inv := SumFor(rows, y, InvitedCount);
    map[ResponsesColumn := Count(resp), InvitedColumn := Count(inv), PercentColumn := Text(SvarPercent(resp, inv))]
  }

  /**
   * With both count columns, the row of year y holds the year's summed
   * counts as "Antall svar" and "Antall invitert" and the "Svar%" derived
   * from these sums.
   */
  lemma StatsFrameCounts(rows: seq<StatsRow>, sc: StatsColumns, i: int)
    requires sc.responses.Some? && sc.invited.Some?
    requires 0 <= i < |StatsFrame(rows, sc).rows|
    ensures var row := StatsFrame(rows, sc).rows[i];
      row.cells == SummedCells(rows, row.year)
  {
    var renamed := BothCountsFrame(rows, sc);
    RenamedSumsRow(rows, sc, i);
    var y := renamed.rows[i].year;
    var m := renamed.rows[i].cells;
    var sr, si := SumFor(rows, y, ResponsesCount), SumFor(rows, y, InvitedCount);
    assert CountCell(m, ResponsesColumn) == sr && CountCell(m, InvitedColumn) == si;
    assert StatsFrame(rows, sc).rows[i] == Row(y, m[PercentColumn := Text(SvarPercent(sr, si))]);
  }

  /** In the both-counts branch the frame is the renamed group sums with "Svar%" added. */
  lemma BothCountsFrame(rows: seq<StatsRow>, sc: StatsColumns) returns (renamed: Table)
    requires sc.responses.Some? && sc.invited.Some?
    ensures renamed == RenameColumn(RenameColumn(GroupSums(rows, sc), "responses", ResponsesColumn), "invited", InvitedColumn)
    ensures StatsFrame(rows, sc) == AddSvarPercent(renamed)
  {
    var g := GroupSums(rows, sc);
    assert g.columns == ["responses", "invited"];
    renamed := RenameColumn(RenameColumn(g, "responses", ResponsesColumn), "invited", InvitedColumn);
  }

  lemma RenamedSumsRow(rows: seq<StatsRow>, sc: StatsColumns, i: int)
    requires sc.responses.Some? && sc.invited.Some?
    requires 0 <= i < |GroupSums(rows, sc).rows|
    ensures var g := GroupSums(rows, sc);
      var y := g.rows[i].year;
      RenameColumn(RenameColumn(g, "responses", ResponsesColumn), "invited", InvitedColumn).rows[i] ==
        Row(y, map[ResponsesColumn := Count(SumFor(rows, y, ResponsesCount)),
                   InvitedColumn := Count(SumFor(rows, y, InvitedCount))])
  {
    var g := GroupSums(rows, sc);
    var r1 := RenameColumn(g, "responses", ResponsesColumn);
    var r2 := RenameColumn(r1, "invited", InvitedColumn);
    var y := g.rows[i].year;
    var resp := Count(SumFor(rows, y, ResponsesCount));
    var inv := Count(SumFor(rows, y, InvitedCount));
    assert g.rows[i].cells == map["responses" := resp, "invited" := inv];
    RenameFirstOfPair("responses", ResponsesColumn, "invited", resp, inv);
    assert r1.rows[i] == Row(y, map[ResponsesColumn := resp, "invited" := inv]);
    RenameSecondOfPair(ResponsesColumn, "invited", InvitedColumn, resp, inv);
    assert r2.rows[i] == Row(y, map[ResponsesColumn := resp, InvitedColumn := inv]);
  }

  lemma RenameFirstOfPair(a: string, c: string, b: string, x: Cell, y: Cell)
    requires a != b && c != b
    ensures RenameCells(map[a := x, b := y], a, c) == map[c := x, b := y]
  {
    var m := map[a := x, b := y];
    assert m - {a} == map[b := y];
  }

  lemma RenameSecondOfPair(a: string, b: string, c: string, x: Cell, y: Cell)
    requires a != b && a != c
    ensures RenameCells(map[a := x, b := y], b, c) == map[a := x, c := y]
  {
    var m := map[a := x, b := y];
    assert m - {b} == map[a := x];
  }

  /**
   * With exactly one count column, the sums stay under the query's alias and
   * no "Svar%" is derived.
   */
  lemma StatsFrameSingleCount(rows: seq<StatsRow>, sc: StatsColumns, i: int)
    requires sc.responses.Some? != sc.invited.Some?
    requires 0 <= i < |StatsFrame(rows, sc).rows|
    ensures var row := StatsFrame(rows, sc).rows[i];
      row.cells == if sc.responses.Some?
        then map["responses" := Count(SumFor(rows, row.year, ResponsesCount))]
        else map["invited" := Count(SumFor(rows, row.year, InvitedCount))]
  {
  }

  /**
   * Without count columns, the row of each year is that year's first
   * statistics row, and its precomputed percentage (if the schema has one)
   * is shown verbatim as "Svar%".
   */
  lemma StatsFrameFirstRow(rows: seq<StatsRow>, sc: StatsColumns, i: int)
    requires sc.responses.None? && sc.invited.None?
    requires 0 <= i < |StatsFrame(rows, sc).rows|
    ensures var row := StatsFrame(rows, sc).rows[i];
      exists first :: FirstOfYear(rows, row.year) == Some(first) &&
        row.cells == if sc.percent.Some? && first.percent.Some?
          then map[PercentColumn := Text(first.percent.value)] else map[]
  {
    var kept := DropDuplicateYears(rows);
    DropDuplicateYearsSpec(rows);
    var g := FirstRowsTable(rows, sc);
    assert g.rows[i] == FirstRow(kept[i], sc);
    var row := StatsFrame(rows, sc).rows[i];
    assert row.year == kept[i].year;
  }
}
