/**
 * The course table and its columns (snu_sugang_2026_1_streamlit.py:67-81,
 * 152-188): a table is an ordered list of column labels and a sequence of
 * rows, each row holding one cell per column. `find_col` picks the first
 * candidate heading the table has, `guess_columns` does so for each of the
 * thirteen roles the app knows, and `normalize_columns` strips the labels.
 */
module Columns {
  import opened Common
  import opened Cells

  /** One row: its cells, in column order. */
  type Row = seq<Cell>

  datatype Table = Table(columns: seq<string>, rows: seq<Row>) {
    /** Every row has exactly one cell per column. */
    predicate WellFormed() {
      forall i :: 0 <= i < |rows| ==> |rows[i]| == |columns|
    }
  }

  /** The position of the first column labelled `heading`, or |columns| when there is none. */
  function IndexOf(columns: seq<string>, heading: string): (k: nat)
    ensures k <= |columns|
    ensures k < |columns| ==> columns[k] == heading
    ensures forall i :: 0 <= i < k ==> columns[i] != heading
  {
    if columns == [] || columns[0] == heading then 0 else 1 + IndexOf(columns[1..], heading)
  }

  /**
   * `row[heading]`: the cell under the first column with that heading. A heading
   * the table lacks reads as a missing cell; the app only looks up labels
   * that `guess_columns` found among the columns.
   */
  function Get(columns: seq<string>, row: Row, heading: string): Cell {
    var k := IndexOf(columns, heading);
    if k < |row| then row[k] else Missing
  }

  /** Appending a column moves no existing heading, and a new heading is found at the end. */
  lemma {:induction false} IndexOfAppend(columns: seq<string>, added: string, heading: string)
    ensures heading in columns ==> IndexOf(columns + [added], heading) == IndexOf(columns, heading)
    ensures heading !in columns && heading == added ==> IndexOf(columns + [added], heading) == |columns|
  {
    if columns != [] {
      assert (columns + [added])[1..] == columns[1..] + [added];
      IndexOfAppend(columns[1..], added, heading);
    }
  }

  /** `df[heading] = column`: a new column appended after the others, one cell per row. */
  function AddColumn(t: Table, heading: string, column: seq<Cell>): (r: Table)
    requires |column| == |t.rows|
    ensures r.columns == t.columns + [heading] && |r.rows| == |t.rows|
  {
    Table(t.columns + [heading], seq(|t.rows|, i requires 0 <= i < |t.rows| => t.rows[i] + [column[i]]))
  }

  // ---------------------------------------------------------------------
  // find_col
  // ---------------------------------------------------------------------

  /** Candidate `i` is among the columns and no candidate before it is. */
  predicate FirstAmong(columns: seq<string>, candidates: seq<string>, i: int) {
    0 <= i < |candidates| && candidates[i] in columns
    && forall j :: 0 <= j < i ==> candidates[j] !in columns
  }

  /**
   * The heading `find_col` returns: the earliest candidate, in candidate
   * order, that is a column; None exactly when no candidate is.
   */
  function FirstPresent(columns: seq<string>, candidates: seq<string>): (r: Option<string>)
    ensures r.None? <==> forall i :: 0 <= i < |candidates| ==> candidates[i] !in columns
    ensures r.Some? ==> exists i :: FirstAmong(columns, candidates, i) && candidates[i] == r.value
    decreases |candidates|
  {
    if candidates == [] then None
    else if candidates[0] in columns then
      assert FirstAmong(columns, candidates, 0);
      Some(candidates[0])
    else
      var r := FirstPresent(columns, candidates[1..]);
      assert forall i :: 1 <= i < |candidates| ==> candidates[i] == candidates[1..][i - 1];
      if r.Some? then
        var i :| FirstAmong(columns, candidates[1..], i) && candidates[1..][i] == r.value;
        assert FirstAmong(columns, candidates, i + 1);
        r
      else
        r
  }

  /** `find_col(df, candidates)` (snu_sugang_2026_1_streamlit.py:67-75). */
  method FindCol(columns: seq<string>, candidates: seq<string>) returns (r: Option<string>)
    ensures r == FirstPresent(columns, candidates)
  {
    var cols := set c | c in columns;
    for i := 0 to |candidates|
      invariant FirstPresent(columns, candidates[i..]) == FirstPresent(columns, candidates)
    {
      assert candidates[i..][1..] == candidates[i + 1..];
      if candidates[i] in cols {
        return Some(candidates[i]);
      }
    }
    return None;
  }

  /** A heading's position is where the first-present search finds it, among the candidates it is given. */
  lemma FirstPresentIsFirst(columns: seq<string>, candidates: seq<string>, i: nat)
    requires FirstAmong(columns, candidates, i)
    ensures FirstPresent(columns, candidates) == Some(candidates[i])
  {
  }

  // ---------------------------------------------------------------------
  // ColumnMap and guess_columns
  // ---------------------------------------------------------------------

  /** Which column plays each role; None when the table has no such column. */
  datatype ColumnMap = ColumnMap(
    courseName: Option<string>,
    courseCode: Option<string>,
    classNo: Option<string>,
    dept: Option<string>,
    major: Option<string>,
    professor: Option<string>,
    credits: Option<string>,
    language: Option<string>,
    campus: Option<string>,
    schedule: Option<string>,
    capacity: Option<string>,
    enrolled: Option<string>,
    remaining: Option<string>)

  /** Python truthiness of an optional heading: None and "" both count as unmapped. */
  predicate Mapped(o: Option<string>) {
    o.Some? && o.value != ""
  }

  /** The heading of a mapped role. */
  function LabelOf(o: Option<string>): string
    requires Mapped(o)
  {
    o.value
  }

  const NameLabels: seq<string> := ["교과목명", "과목명", "강좌명", "Subject", "Course Name", "교과목 명"]
  const CodeLabels: seq<string> := ["교과목번호", "교과목번호(학수번호)", "학수번호", "Subject Code", "Course Code", "교과목 번호"]
  const ClassNoLabels: seq<string> := ["강좌번호", "강좌 번호", "분반", "분반번호", "Class No", "Section"]
  const DeptLabels: seq<string> := ["개설학과", "개설학부", "개설부서", "학과", "Department", "개설학과(부)"]
  const MajorLabels: seq<string> := ["전공", "전공명", "Major"]
  const ProfessorLabels: seq<string> := ["담당교수", "교수명", "교수", "Professor", "Instructor"]
  const CreditsLabels: seq<string> := ["학점", "학점수", "Credits"]
  const LanguageLabels: seq<string> := ["강의언어", "언어", "Language"]
  const CampusLabels: seq<string> := ["캠퍼스", "Campus"]
  const ScheduleLabels: seq<string> := ["강의시간", "수업시간", "강의시간/강의실", "강의시간/강의실(비대면 포함)", "Time", "Schedule"]
  const CapacityLabels: seq<string> := ["정원", "수강정원", "수강정원(정원)", "Capacity"]
  const EnrolledLabels: seq<string> := ["신청인원", "수강신청인원", "수강인원", "Enrolled", "Applied"]
  const RemainingLabels: seq<string> := ["잔여", "잔여석", "여석", "Remaining", "Seats Left"]

  /** `guess_columns(df)` (snu_sugang_2026_1_streamlit.py:169-188), on the table's labels. */
  function GuessColumns(columns: seq<string>): ColumnMap {
    ColumnMap(
      FirstPresent(columns, NameLabels),
      FirstPresent(columns, CodeLabels),
      FirstPresent(columns, ClassNoLabels),
      FirstPresent(columns, DeptLabels),
      FirstPresent(columns, MajorLabels),
      FirstPresent(columns, ProfessorLabels),
      FirstPresent(columns, CreditsLabels),
      FirstPresent(columns, LanguageLabels),
      FirstPresent(columns, CampusLabels),
      FirstPresent(columns, ScheduleLabels),
      FirstPresent(columns, CapacityLabels),
      FirstPresent(columns, EnrolledLabels),
      FirstPresent(columns, RemainingLabels))
  }

  /** A role is mapped only to a heading the table has and that the role lists. */
  predicate Found(columns: seq<string>, o: Option<string>, candidates: seq<string>) {
    o.Some? ==> o.value in columns && o.value in candidates
  }

  /** Every role `guess_columns` fills names an actual column among that role's candidates. */
  lemma GuessColumnsFound(columns: seq<string>)
    ensures var cm := GuessColumns(columns);
      Found(columns, cm.courseName, NameLabels) && Found(columns, cm.courseCode, CodeLabels)
      && Found(columns, cm.classNo, ClassNoLabels) && Found(columns, cm.dept, DeptLabels)
      && Found(columns, cm.major, MajorLabels) && Found(columns, cm.professor, ProfessorLabels)
      && Found(columns, cm.credits, CreditsLabels) && Found(columns, cm.language, LanguageLabels)
      && Found(columns, cm.campus, CampusLabels) && Found(columns, cm.schedule, ScheduleLabels)
      && Found(columns, cm.capacity, CapacityLabels) && Found(columns, cm.enrolled, EnrolledLabels)
      && Found(columns, cm.remaining, RemainingLabels)
  {
    FirstPresentFound(columns, NameLabels);
    FirstPresentFound(columns, CodeLabels);
    FirstPresentFound(columns, ClassNoLabels);
    FirstPresentFound(columns, DeptLabels);
    FirstPresentFound(columns, MajorLabels);
    FirstPresentFound(columns, ProfessorLabels);
    FirstPresentFound(columns, CreditsLabels);
    FirstPresentFound(columns, LanguageLabels);
    FirstPresentFound(columns, CampusLabels);
    FirstPresentFound(columns, ScheduleLabels);
    FirstPresentFound(columns, CapacityLabels);
    FirstPresentFound(columns, EnrolledLabels);
    FirstPresentFound(columns, RemainingLabels);
  }

  lemma FirstPresentFound(columns: seq<string>, candidates: seq<string>)
    ensures Found(columns, FirstPresent(columns, candidates), candidates)
  {
    var r := FirstPresent(columns, candidates);
    if r.Some? {
      var i :| FirstAmong(columns, candidates, i) && candidates[i] == r.value;
    }
  }

  /**
   * On the catalogue's Korean headers, where both "교과목명" and "과목명"
   * may appear, the course name is "교과목명": the earlier candidate wins.
   */
  lemma GuessPrefersEarlierLabel(columns: seq<string>)
    requires "교과목명" in columns
    ensures GuessColumns(columns).courseName == Some("교과목명")
  {
    FirstPresentIsFirst(columns, NameLabels, 0);
  }

  /** Only which labels are present matters, not their order or repetitions. */
  lemma {:induction false} FirstPresentBySet(a: seq<string>, b: seq<string>, candidates: seq<string>)
    requires forall c :: c in a <==> c in b
    ensures FirstPresent(a, candidates) == FirstPresent(b, candidates)
    decreases |candidates|
  {
    if candidates != [] && candidates[0] !in a {
      FirstPresentBySet(a, b, candidates[1..]);
    }
  }

  /** Two tables whose labels form the same set get the same column map. */
  lemma GuessColumnsBySet(a: seq<string>, b: seq<string>)
    requires forall c :: c in a <==> c in b
    ensures GuessColumns(a) == GuessColumns(b)
  {
    FirstPresentBySet(a, b, NameLabels);
    FirstPresentBySet(a, b, CodeLabels);
    FirstPresentBySet(a, b, ClassNoLabels);
    FirstPresentBySet(a, b, DeptLabels);
    FirstPresentBySet(a, b, MajorLabels);
    FirstPresentBySet(a, b, ProfessorLabels);
    FirstPresentBySet(a, b, CreditsLabels);
    FirstPresentBySet(a, b, LanguageLabels);
    FirstPresentBySet(a, b, CampusLabels);
    FirstPresentBySet(a, b, ScheduleLabels);
    FirstPresentBySet(a, b, CapacityLabels);
    FirstPresentBySet(a, b, EnrolledLabels);
    FirstPresentBySet(a, b, RemainingLabels);
  }

  // ---------------------------------------------------------------------
  // normalize_columns
  // ---------------------------------------------------------------------

  /** `normalize_columns(df)` (snu_sugang_2026_1_streamlit.py:78-81): every heading stripped, the rows untouched. */
  function NormalizeColumns(t: Table): (r: Table)
    ensures r.rows == t.rows && |r.columns| == |t.columns|
    ensures forall i :: 0 <= i < |r.columns| ==> Trimmed(r.columns[i])
    ensures t.WellFormed() ==> r.WellFormed()
  {
    Table(seq(|t.columns|, i requires 0 <= i < |t.columns| => Strip(t.columns[i])), t.rows)
  }

  /** Normalising twice is normalising once. */
  lemma NormalizeColumnsIdempotent(t: Table)
    ensures NormalizeColumns(NormalizeColumns(t)) == NormalizeColumns(t)
  {
    var once := NormalizeColumns(t);
    forall i | 0 <= i < |once.columns|
      ensures Strip(once.columns[i]) == once.columns[i]
    {
      StripIdempotent(t.columns[i]);
    }
  }

  /** A heading with surrounding blanks in the file is found under its bare name once normalised. */
  lemma NormalizeFindsPaddedLabel(t: Table, k: nat, heading: string)
    requires k < |t.columns| && Strip(t.columns[k]) == heading
    ensures heading in NormalizeColumns(t).columns
  {
    assert NormalizeColumns(t).columns[k] == heading;
  }
}
