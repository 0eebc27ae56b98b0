/**
 * `enrich_seat_metrics` (snu_sugang_2026_1_streamlit.py:316-335): the
 * remaining-seat column "잔여석(계산)" is added to a copy of the table,
 * unless the table already has it.
 */
module Enrich {
  import opened Common
  import opened Cells
  import opened Columns
  import opened Filters

  /** The heading of the computed remaining-seat column. */
  const RemainingLabel := "잔여석(계산)"

  /**
   * One row's computed remaining seats: `safe_int` of the remaining column
   * when mapped (missing when unreadable), else capacity minus enrolled with
   * missing read as 0, else a missing cell.
   */
  function RemainingCell(columns: seq<string>, cm: ColumnMap, row: Row): Cell {
    if Mapped(cm.remaining) then
      match SafeInt(Get(columns, row, LabelOf(cm.remaining)))
      case Some(n) => Count(n)
      case None => Missing
    else if Mapped(cm.capacity) && Mapped(cm.enrolled) then
      Count(SafeInt(Get(columns, row, LabelOf(cm.capacity))).GetOr(0) - SafeInt(Get(columns, row, LabelOf(cm.enrolled))).GetOr(0))
    else
      Missing
  }

  /** The remaining-seat cells of every row, in row order. */
  function RemainingColumn(t: Table, cm: ColumnMap): (column: seq<Cell>)
    ensures |column| == |t.rows|
  {
    seq(|t.rows|, i requires 0 <= i < |t.rows| => RemainingCell(t.columns, cm, t.rows[i]))
  }

  /** The table `enrich_seat_metrics` returns. */
  function Enriched(t: Table, cm: ColumnMap): Table {
    if RemainingLabel in t.columns then t else AddColumn(t, RemainingLabel, RemainingColumn(t, cm))
  }

  /** `enrich_seat_metrics(df, cm)`: copy the table, then assign the new column into the copy if it is absent. */
  method EnrichSeatMetrics(t: Table, cm: ColumnMap) returns (out: Table)
    ensures out == Enriched(t, cm)
    ensures |out.rows| == |t.rows| && RemainingLabel in out.columns
  {
    out := t;
    if RemainingLabel !in out.columns {
      var column := seq(|out.rows|, i requires 0 <= i < |out.rows| => RemainingCell(out.columns, cm, out.rows[i]));
      out := AddColumn(out, RemainingLabel, column);
    }
  }

  /** Enriching twice is enriching once: the second call finds the column and does nothing. */
  lemma EnrichIdempotent(t: Table, cm: ColumnMap)
    ensures Enriched(Enriched(t, cm), cm) == Enriched(t, cm)
  {
    if RemainingLabel !in t.columns {
      assert AddColumn(t, RemainingLabel, RemainingColumn(t, cm)).columns[|t.columns|] == RemainingLabel;
    }
  }

  /**
   * Enriching keeps every row and every existing cell in place, adds the
   * column at the end when it was missing, and keeps the table well formed.
   */
  lemma EnrichShape(t: Table, cm: ColumnMap)
    requires t.WellFormed()
    ensures var e := Enriched(t, cm);
      e.WellFormed() && |e.rows| == |t.rows| && e.columns[..|t.columns|] == t.columns
      && |e.columns| == |t.columns| + (if RemainingLabel in t.columns then 0 else 1)
      && forall i, j :: 0 <= i < |t.rows| && 0 <= j < |t.columns| ==> e.rows[i][j] == t.rows[i][j]
  {
    if RemainingLabel !in t.columns {
      var e := Enriched(t, cm);
      forall i | 0 <= i < |t.rows|
        ensures |e.rows[i]| == |e.columns| && e.rows[i][..|t.columns|] == t.rows[i]
      {
        assert e.rows[i] == t.rows[i] + [RemainingColumn(t, cm)[i]];
      }
    }
  }

  /**
   * After enriching, every column the table had reads as before, row by
   * row, and a newly added column reads as the computed remaining seats.
   */
  lemma EnrichLookup(t: Table, cm: ColumnMap, i: nat, heading: string)
    requires t.WellFormed() && i < |t.rows|
    ensures heading in t.columns ==>
      Get(Enriched(t, cm).columns, Enriched(t, cm).rows[i], heading) == Get(t.columns, t.rows[i], heading)
    ensures RemainingLabel !in t.columns ==>
      Get(Enriched(t, cm).columns, Enriched(t, cm).rows[i], RemainingLabel) == RemainingCell(t.columns, cm, t.rows[i])
  {
    if RemainingLabel !in t.columns {
      var e := Enriched(t, cm);
      assert e.rows[i] == t.rows[i] + [RemainingCell(t.columns, cm, t.rows[i])];
      IndexOfAppend(t.columns, RemainingLabel, heading);
      IndexOfAppend(t.columns, RemainingLabel, RemainingLabel);
    }
  }

  /**
   * The seats filter and the computed column agree: when either can be
   * computed, a row passes the seats filter iff its computed remaining
   * seats are a positive count.
   */
  lemma SeatsFilterAgrees(columns: seq<string>, cm: ColumnMap, row: Row)
    requires SeatsKnown(cm)
    ensures SeatsLeft(columns, cm, row) > 0 <==> RemainingCell(columns, cm, row).Count? && RemainingCell(columns, cm, row).count > 0
  {
  }
}
