/**
 * The filter pipeline of the course search app, `apply_filters`
 * (snu_sugang_2026_1_streamlit.py:244-313): nine filters, applied one after
 * another, each removing the rows its mask rejects and each skipped when
 * the column it needs is unmapped or its criterion is unset.
 */
module Filters {
  import opened Common
  import opened Cells
  import opened Schedule
  import opened Columns

  /** A credits range `(lo, hi)`. */
  datatype Bounds = Bounds(lo: real, hi: real)

  /** A time window `(w0, w1)` in minutes since 00:00. */
  datatype Window = Window(from: int, to: int)

  /** The choices made in the sidebar; a keyword of None behaves as "". */
  datatype Criteria = Criteria(
    keyword: Option<string>,
    depts: seq<string>,
    profs: seq<string>,
    campuses: seq<string>,
    englishOnly: bool,
    credits: Option<Bounds>,
    seatsOnly: bool,
    dayTokens: seq<string>,
    window: Option<Window>)

  /** The filters, in the order they are applied. */
  datatype Step = Keyword | Department | Professor | Campus | English | Credits | Seats | Days | Time

  /** `(keyword or "").strip()`. */
  function SearchText(crit: Criteria): string {
    Strip(crit.keyword.GetOr(""))
  }

  /** `[c for c in roles if c]`: the labels of the mapped roles, in order. */
  function MappedLabels(roles: seq<Option<string>>): (labels: seq<string>)
    ensures |labels| <= |roles|
  {
    if roles == [] then []
    else (if Mapped(roles[0]) then [LabelOf(roles[0])] else []) + MappedLabels(roles[1..])
  }

  /** The columns the keyword is looked for in: name, code, class number, department, professor and schedule. */
  function SearchColumns(cm: ColumnMap): seq<string> {
    MappedLabels([cm.courseName, cm.courseCode, cm.classNo, cm.dept, cm.professor, cm.schedule])
  }

  /** `out[c].astype(str)` on one row. */
  function TextAt(columns: seq<string>, row: Row, heading: string): string {
    CellText(Get(columns, row, heading))
  }

  /** The keyword occurs in column `heading` of the row, ignoring case. */
  predicate Hit(columns: seq<string>, row: Row, heading: string, keyword: string) {
    Contains(Lower(TextAt(columns, row, heading)), Lower(keyword))
  }

  /** `mask | hit` folded over the searched columns: the keyword occurs in one of them. */
  function AnyHit(columns: seq<string>, row: Row, headings: seq<string>, keyword: string): (b: bool)
    ensures b <==> exists i :: 0 <= i < |headings| && Hit(columns, row, headings[i], keyword)
  {
    if headings == [] then false
    else
      var init := headings[..|headings| - 1];
      assert forall i :: 0 <= i < |init| ==> init[i] == headings[i];
      AnyHit(columns, row, init, keyword) || Hit(columns, row, headings[|headings| - 1], keyword)
  }

  /** The marks the English-only filter looks for. */
  const EnglishMarks: seq<string> := ["영어", "English", "ENG"]

  /** Whether the seats filter can say anything: a remaining column, or both capacity and enrolled. */
  predicate SeatsKnown(cm: ColumnMap) {
    Mapped(cm.remaining) || (Mapped(cm.capacity) && Mapped(cm.enrolled))
  }

  /** The seats left in a row: the remaining column when mapped, else capacity minus enrolled; missing reads as 0. */
  function SeatsLeft(columns: seq<string>, cm: ColumnMap, row: Row): int
    requires SeatsKnown(cm)
  {
    if Mapped(cm.remaining) then SafeInt(Get(columns, row, LabelOf(cm.remaining))).GetOr(0)
    else SafeInt(Get(columns, row, LabelOf(cm.capacity))).GetOr(0) - SafeInt(Get(columns, row, LabelOf(cm.enrolled))).GetOr(0)
  }

  /** When a filter applies at all: its column is mapped and its criterion is set. */
  predicate Enabled(step: Step, cm: ColumnMap, crit: Criteria) {
    match step
    case Keyword => SearchText(crit) != "" && SearchColumns(cm) != []
    case Department => Mapped(cm.dept) && crit.depts != []
    case Professor => Mapped(cm.professor) && crit.profs != []
    case Campus => Mapped(cm.campus) && crit.campuses != []
    case English => Mapped(cm.language) && crit.englishOnly
    case Credits => Mapped(cm.credits) && crit.credits.Some?
    case Seats => crit.seatsOnly && SeatsKnown(cm)
    case Days => Mapped(cm.schedule) && crit.dayTokens != []
    case Time => Mapped(cm.schedule) && crit.window.Some?
  }

  /** The mask of one filter on one row. */
  predicate Keeps(step: Step, columns: seq<string>, cm: ColumnMap, crit: Criteria, row: Row)
    requires Enabled(step, cm, crit)
  {
    match step
    case Keyword => AnyHit(columns, row, SearchColumns(cm), SearchText(crit))
    case Department => TextAt(columns, row, LabelOf(cm.dept)) in crit.depts
    case Professor => TextAt(columns, row, LabelOf(cm.professor)) in crit.profs
    case Campus => TextAt(columns, row, LabelOf(cm.campus)) in crit.campuses
    case English => ContainsAny(TextAt(columns, row, LabelOf(cm.language)), EnglishMarks)
    case Credits =>
      var v := SafeFloat(Get(columns, row, LabelOf(cm.credits)));
      v.Some? && crit.credits.value.lo <= v.value <= crit.credits.value.hi
    case Seats => SeatsLeft(columns, cm, row) > 0
    case Days => ContainsAny(TextAt(columns, row, LabelOf(cm.schedule)), crit.dayTokens)
    case Time => Overlaps(TextAt(columns, row, LabelOf(cm.schedule)), crit.window.value.from, crit.window.value.to)
  }

  /** A row passes a filter: the filter is off, or its mask keeps the row. */
  predicate Admitted(step: Step, columns: seq<string>, cm: ColumnMap, crit: Criteria, row: Row) {
    Enabled(step, cm, crit) ==> Keeps(step, columns, cm, crit, row)
  }

  /** The mask of one filter over all rows. */
  function Mask(step: Step, columns: seq<string>, cm: ColumnMap, crit: Criteria, rows: seq<Row>): (mask: seq<bool>)
    requires Enabled(step, cm, crit)
    ensures |mask| == |rows|
  {
    seq(|rows|, i requires 0 <= i < |rows| => Keeps(step, columns, cm, crit, rows[i]))
  }

  /** `rows[mask]`: the rows whose mask entry is true, in order. */
  function Masked(rows: seq<Row>, mask: seq<bool>): (kept: seq<Row>)
    requires |mask| == |rows|
    ensures |kept| <= |rows|
  {
    if rows == [] then [] else (if mask[0] then [rows[0]] else []) + Masked(rows[1..], mask[1..])
  }

  /** One filter: the rows its mask keeps when it applies, all of them otherwise. */
  function Stage(step: Step, columns: seq<string>, cm: ColumnMap, crit: Criteria, rows: seq<Row>): seq<Row> {
    if Enabled(step, cm, crit) then Masked(rows, Mask(step, columns, cm, crit, rows)) else rows
  }

  /** The nine filters, in the order `apply_filters` applies them. */
  function Filtered(columns: seq<string>, cm: ColumnMap, crit: Criteria, rows: seq<Row>): seq<Row> {
    var byKeyword := Stage(Keyword, columns, cm, crit, rows);
    var byDept := Stage(Department, columns, cm, crit, byKeyword);
    var byProf := Stage(Professor, columns, cm, crit, byDept);
    var byCampus := Stage(Campus, columns, cm, crit, byProf);
    var byLanguage := Stage(English, columns, cm, crit, byCampus);
    var byCredits := Stage(Credits, columns, cm, crit, byLanguage);
    var bySeats := Stage(Seats, columns, cm, crit, byCredits);
    var byDays := Stage(Days, columns, cm, crit, bySeats);
    Stage(Time, columns, cm, crit, byDays)
  }

  /**
   * The keyword mask (snu_sugang_2026_1_streamlit.py:264-266): starting
   * from all false, or-ed with each searched column's case-insensitive
   * containment test in turn.
   */
  method KeywordMask(columns: seq<string>, rows: seq<Row>, searched: seq<string>, keyword: string) returns (mask: seq<bool>)
    ensures |mask| == |rows|
    ensures forall i :: 0 <= i < |rows| ==> mask[i] == AnyHit(columns, rows[i], searched, keyword)
  {
    mask := seq(|rows|, _ => false);
    for j := 0 to |searched|
      invariant |mask| == |rows|
      invariant forall i :: 0 <= i < |rows| ==> mask[i] == AnyHit(columns, rows[i], searched[..j], keyword)
    {
      assert searched[..j + 1][..j] == searched[..j];
      mask := seq(|rows|, i requires 0 <= i < |rows| => mask[i] || Hit(columns, rows[i], searched[j], keyword));
    }
    assert searched[..|searched|] == searched;
  }

  /**
   * One filter block of `apply_filters`: when its column is mapped and its
   * criterion set, `out = out[mask]`; otherwise the rows pass untouched.
   */
  method Narrow(step: Step, columns: seq<string>, cm: ColumnMap, crit: Criteria, rows: seq<Row>) returns (kept: seq<Row>)
    ensures kept == Stage(step, columns, cm, crit, rows)
  {
    kept := rows;
    if Enabled(step, cm, crit) {
      kept := Masked(rows, Mask(step, columns, cm, crit, rows));
    }
  }

  /**
   * `apply_filters(df, cm, ...)` (snu_sugang_2026_1_streamlit.py:244-313):
   * the keyword block, when the stripped keyword is not blank and some
   * searched column is mapped, then the other eight blocks in the source's
   * order; the columns stay as they are.
   */
  method ApplyFilters(t: Table, cm: ColumnMap, crit: Criteria) returns (out: Table)
    ensures out.columns == t.columns
    ensures out.rows == Filtered(t.columns, cm, crit, t.rows)
  {
    var columns := t.columns;
    var rows := t.rows;
    var keyword := Strip(crit.keyword.GetOr(""));
    if keyword != "" {
      var searched := SearchColumns(cm);
      if searched != [] {
        var mask := KeywordMask(columns, rows, searched, keyword);
        assert mask == Mask(Keyword, columns, cm, crit, rows);
        rows := Masked(rows, mask);
      }
    }
    assert rows == Stage(Keyword, columns, cm, crit, t.rows);
    rows := Narrow(Department, columns, cm, crit, rows);
    rows := Narrow(Professor, columns, cm, crit, rows);
    rows := Narrow(Campus, columns, cm, crit, rows);
    rows := Narrow(English, columns, cm, crit, rows);
    rows := Narrow(Credits, columns, cm, crit, rows);
    rows := Narrow(Seats, columns, cm, crit, rows);
    rows := Narrow(Days, columns, cm, crit, rows);
    rows := Narrow(Time, columns, cm, crit, rows);
    out := Table(columns, rows);
  }

  // ---------------------------------------------------------------------
  // What masking does
  // ---------------------------------------------------------------------

  /** Masking keeps the order of the rows it keeps. */
  lemma {:induction false} MaskedSubsequence(rows: seq<Row>, mask: seq<bool>)
    requires |mask| == |rows|
    ensures Subsequence(Masked(rows, mask), rows)
  {
    if rows != [] {
      var rest := Masked(rows[1..], mask[1..]);
      MaskedSubsequence(rows[1..], mask[1..]);
      if mask[0] {
        assert ([rows[0]] + rest)[1..] == rest;
      } else {
        assert Masked(rows, mask) == rest;
        SubsequenceTail(rest, rows);
      }
    }
  }

  /** A row survives masking iff some position holding it is marked. */
  lemma {:induction false} MaskedMembers(rows: seq<Row>, mask: seq<bool>, x: Row)
    requires |mask| == |rows|
    ensures x in Masked(rows, mask) <==> exists i :: 0 <= i < |rows| && rows[i] == x && mask[i]
  {
    if rows != [] {
      MaskedMembers(rows[1..], mask[1..], x);
      if exists i :: 0 <= i < |rows| && rows[i] == x && mask[i] {
        var i :| 0 <= i < |rows| && rows[i] == x && mask[i];
        if i > 0 {
          assert rows[1..][i - 1] == x && mask[1..][i - 1];
        }
      } else {
        forall i | 0 <= i < |rows| - 1 && rows[1..][i] == x
          ensures !mask[1..][i]
        {
          assert rows[i + 1] == x;
        }
      }
    }
  }

  /** Masking removes nothing exactly when every entry is marked. */
  lemma {:induction false} MaskedKeepsAll(rows: seq<Row>, mask: seq<bool>)
    requires |mask| == |rows|
    ensures Masked(rows, mask) == rows <==> forall i :: 0 <= i < |mask| ==> mask[i]
  {
    if rows != [] {
      MaskedKeepsAll(rows[1..], mask[1..]);
      if forall i :: 0 <= i < |mask| ==> mask[i] {
        assert forall i :: 0 <= i < |mask| - 1 ==> mask[1..][i] == mask[i + 1];
      } else if mask[0] {
        var i :| 0 <= i < |mask| && !mask[i];
        assert !mask[1..][i - 1];
        assert Masked(rows, mask)[1..] == Masked(rows[1..], mask[1..]);
      } else {
        assert |Masked(rows, mask)| < |rows|;
      }
    }
  }

  // ---------------------------------------------------------------------
  // What the pipeline promises
  // ---------------------------------------------------------------------

  /** One filter keeps a row iff the row was there and passes it. */
  lemma StageMembers(step: Step, columns: seq<string>, cm: ColumnMap, crit: Criteria, rows: seq<Row>, x: Row)
    ensures x in Stage(step, columns, cm, crit, rows) <==> x in rows && Admitted(step, columns, cm, crit, x)
  {
    if Enabled(step, cm, crit) {
      MaskedMembers(rows, Mask(step, columns, cm, crit, rows), x);
    }
  }

  lemma StageSubsequence(step: Step, columns: seq<string>, cm: ColumnMap, crit: Criteria, rows: seq<Row>)
    ensures Subsequence(Stage(step, columns, cm, crit, rows), rows)
  {
    if Enabled(step, cm, crit) {
      MaskedSubsequence(rows, Mask(step, columns, cm, crit, rows));
    } else {
      SubsequenceRefl(rows);
    }
  }

  /**
   * A filter that applies leaves the rows as they are exactly when every
   * row passes its mask; one that does not apply leaves them as they are.
   */
  lemma StageKeepsAll(step: Step, columns: seq<string>, cm: ColumnMap, crit: Criteria, rows: seq<Row>)
    ensures Stage(step, columns, cm, crit, rows) == rows
      <==> forall i :: 0 <= i < |rows| ==> Admitted(step, columns, cm, crit, rows[i])
  {
    if Enabled(step, cm, crit) {
      var mask := Mask(step, columns, cm, crit, rows);
      MaskedKeepsAll(rows, mask);
      assert forall i :: 0 <= i < |rows| ==> mask[i] == Admitted(step, columns, cm, crit, rows[i]);
    }
  }

  /** The result of `apply_filters` is the input rows with some removed, the rest in their original order. */
  lemma FilteredSubsequence(columns: seq<string>, cm: ColumnMap, crit: Criteria, rows: seq<Row>)
    ensures Subsequence(Filtered(columns, cm, crit, rows), rows)
  {
    var r1 := Stage(Keyword, columns, cm, crit, rows);
    var r2 := Stage(Department, columns, cm, crit, r1);
    var r3 := Stage(Professor, columns, cm, crit, r2);
    var r4 := Stage(Campus, columns, cm, crit, r3);
    var r5 := Stage(English, columns, cm, crit, r4);
    var r6 := Stage(Credits, columns, cm, crit, r5);
    var r7 := Stage(Seats, columns, cm, crit, r6);
    var r8 := Stage(Days, columns, cm, crit, r7);
    var r9 := Stage(Time, columns, cm, crit, r8);
    StageSubsequence(Keyword, columns, cm, crit, rows);
    StageSubsequence(Department, columns, cm, crit, r1);
    SubsequenceTrans(r2, r1, rows);
    StageSubsequence(Professor, columns, cm, crit, r2);
    SubsequenceTrans(r3, r2, rows);
    StageSubsequence(Campus, columns, cm, crit, r3);
    SubsequenceTrans(r4, r3, rows);
    StageSubsequence(English, columns, cm, crit, r4);
    SubsequenceTrans(r5, r4, rows);
    StageSubsequence(Credits, columns, cm, crit, r5);
    SubsequenceTrans(r6, r5, rows);
    StageSubsequence(Seats, columns, cm, crit, r6);
    SubsequenceTrans(r7, r6, rows);
    StageSubsequence(Days, columns, cm, crit, r7);
    SubsequenceTrans(r8, r7, rows);
    StageSubsequence(Time, columns, cm, crit, r8);
    SubsequenceTrans(r9, r8, rows);
  }

  /** A row passes every filter. */
  predicate PassesAll(columns: seq<string>, cm: ColumnMap, crit: Criteria, row: Row) {
    forall step :: Admitted(step, columns, cm, crit, row)
  }

  /** A row is in the result of `apply_filters` iff it was in the input and passes every filter that applies. */
  lemma FilteredMembers(columns: seq<string>, cm: ColumnMap, crit: Criteria, rows: seq<Row>, x: Row)
    ensures x in Filtered(columns, cm, crit, rows) <==> x in rows && PassesAll(columns, cm, crit, x)
  {
    var r1 := Stage(Keyword, columns, cm, crit, rows);
    var r2 := Stage(Department, columns, cm, crit, r1);
    var r3 := Stage(Professor, columns, cm, crit, r2);
    var r4 := Stage(Campus, columns, cm, crit, r3);
    var r5 := Stage(English, columns, cm, crit, r4);
    var r6 := Stage(Credits, columns, cm, crit, r5);
    var r7 := Stage(Seats, columns, cm, crit, r6);
    var r8 := Stage(Days, columns, cm, crit, r7);
    StageMembers(Keyword, columns, cm, crit, rows, x);
    StageMembers(Department, columns, cm, crit, r1, x);
    StageMembers(Professor, columns, cm, crit, r2, x);
    StageMembers(Campus, columns, cm, crit, r3, x);
    StageMembers(English, columns, cm, crit, r4, x);
    StageMembers(Credits, columns, cm, crit, r5, x);
    StageMembers(Seats, columns, cm, crit, r6, x);
    StageMembers(Days, columns, cm, crit, r7, x);
    StageMembers(Time, columns, cm, crit, r8, x);
    if x in rows && !PassesAll(columns, cm, crit, x) {
      var step :| !Admitted(step, columns, cm, crit, x);
    }
  }

  /** Criteria that set nothing. */
  const NoCriteria := Criteria(None, [], [], [], false, None, false, [], None)

  /** With nothing chosen in the sidebar, `apply_filters` returns every row, whatever the columns. */
  lemma NothingChosen(columns: seq<string>, cm: ColumnMap, rows: seq<Row>)
    ensures Filtered(columns, cm, NoCriteria, rows) == rows
  {
    assert SearchText(NoCriteria) == "" by {
      StripEmpty("");
    }
  }

  /**
   * The keyword filter: a keyword blank after stripping, or a table with
   * none of the six searched roles mapped, removes nothing; otherwise a row
   * stays iff the keyword occurs, ignoring case, in one of those columns.
   */
  lemma KeywordRule(columns: seq<string>, cm: ColumnMap, crit: Criteria, rows: seq<Row>, x: Row)
    ensures SearchText(crit) == "" || SearchColumns(cm) == [] ==> Stage(Keyword, columns, cm, crit, rows) == rows
    ensures SearchText(crit) != "" && SearchColumns(cm) != [] ==>
      (x in Stage(Keyword, columns, cm, crit, rows) <==>
        x in rows && exists i :: 0 <= i < |SearchColumns(cm)| && Hit(columns, x, SearchColumns(cm)[i], SearchText(crit)))
  {
    StageMembers(Keyword, columns, cm, crit, rows, x);
  }

  /** The searched columns are exactly the mapped ones among name, code, class number, department, professor, schedule. */
  lemma {:induction false} MappedLabelsMembers(roles: seq<Option<string>>, heading: string)
    ensures heading in MappedLabels(roles) <==> exists i :: 0 <= i < |roles| && Mapped(roles[i]) && roles[i].value == heading
  {
    if roles != [] {
      MappedLabelsMembers(roles[1..], heading);
      if exists i :: 0 <= i < |roles| && Mapped(roles[i]) && roles[i].value == heading {
        var i :| 0 <= i < |roles| && Mapped(roles[i]) && roles[i].value == heading;
        if i > 0 {
          assert roles[1..][i - 1] == roles[i];
        }
      }
    }
  }

  /**
   * The seats filter: with a remaining column, a row stays iff its
   * remaining count (missing as 0) is positive; without one but with
   * capacity and enrolled, iff capacity minus enrolled (missing as 0) is
   * positive; with neither, nothing is removed.
   */
  lemma SeatsRule(columns: seq<string>, cm: ColumnMap, crit: Criteria, rows: seq<Row>, x: Row)
    requires crit.seatsOnly
    ensures Mapped(cm.remaining) ==>
      (x in Stage(Seats, columns, cm, crit, rows) <==> x in rows && SafeInt(Get(columns, x, cm.remaining.value)).GetOr(0) > 0)
    ensures !Mapped(cm.remaining) && Mapped(cm.capacity) && Mapped(cm.enrolled) ==>
      (x in Stage(Seats, columns, cm, crit, rows) <==>
        x in rows && SafeInt(Get(columns, x, cm.capacity.value)).GetOr(0) - SafeInt(Get(columns, x, cm.enrolled.value)).GetOr(0) > 0)
    ensures !SeatsKnown(cm) ==> Stage(Seats, columns, cm, crit, rows) == rows
  {
    StageMembers(Seats, columns, cm, crit, rows, x);
  }
}
