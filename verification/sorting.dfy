/**
 * `sort_key` (snu_sugang_2026_1_streamlit.py:491-515): the result table is
 * sorted on one column with pandas' stable `mergesort`, ascending for the
 * course name and code, descending for the computed columns and the
 * credits; missing values always go last. The stable sort is written as an
 * insertion sort, which yields the same order: sorted, a permutation, and
 * rows with equal keys kept in their original order.
 */
module Sorting {
  import opened Common
  import opened Cells
  import opened Columns
  import opened Enrich

  /** A sort key as pandas compares it: NaN, a number or a string. */
  datatype Key = NaN | Num(x: real) | Str(s: string)

  /** Python's `<` on strings: the first differing character decides, and a proper prefix comes first. */
  predicate LexLess(a: string, b: string)
    decreases |a|
  {
    b != [] && (a == [] || a[0] < b[0] || (a[0] == b[0] && LexLess(a[1..], b[1..])))
  }

  /**
   * The order on keys that are not NaN: numbers by value, strings as
   * Python compares them. Numbers are put before strings; pandas would
   * refuse to compare the two.
   */
  predicate Below(a: Key, b: Key) {
    match a
    case NaN => false
    case Num(x) => (b.Num? && x < b.x) || b.Str?
    case Str(s) => b.Str? && LexLess(s, b.s)
  }

  /** `a` comes strictly before `b`: NaN last whatever the direction, the rest by `Below` or its reverse. */
  predicate Ahead(a: Key, b: Key, descending: bool) {
    a != NaN && (b == NaN || (if descending then Below(b, a) else Below(a, b)))
  }

  // ---------------------------------------------------------------------
  // Ahead is a strict total order on keys
  // ---------------------------------------------------------------------

  lemma {:induction false} LexIrreflexive(a: string)
    ensures !LexLess(a, a)
    decreases |a|
  {
    if a != [] {
      LexIrreflexive(a[1..]);
    }
  }

  lemma {:induction false} LexTransitive(a: string, b: string, c: string)
    requires LexLess(a, b) && LexLess(b, c)
    ensures LexLess(a, c)
    decreases |a|
  {
    if a != [] && a[0] == b[0] && b[0] == c[0] {
      LexTransitive(a[1..], b[1..], c[1..]);
    }
  }

  lemma {:induction false} LexTotal(a: string, b: string)
    requires a != b
    ensures LexLess(a, b) || LexLess(b, a)
    decreases |a|
  {
    if a != [] && b != [] && a[0] == b[0] {
      assert a == [a[0]] + a[1..] && b == [b[0]] + b[1..];
      LexTotal(a[1..], b[1..]);
    }
  }

  lemma AheadIrreflexive(a: Key, descending: bool)
    ensures !Ahead(a, a, descending)
  {
    if a.Str? {
      LexIrreflexive(a.s);
    }
  }

  lemma AheadTransitive(a: Key, b: Key, c: Key, descending: bool)
    requires Ahead(a, b, descending) && Ahead(b, c, descending)
    ensures Ahead(a, c, descending)
  {
    if a.Str? && b.Str? && c.Str? {
      if descending {
        LexTransitive(c.s, b.s, a.s);
      } else {
        LexTransitive(a.s, b.s, c.s);
      }
    }
  }

  lemma AheadTotal(a: Key, b: Key, descending: bool)
    requires a != b
    ensures Ahead(a, b, descending) || Ahead(b, a, descending)
  {
    if a.Str? && b.Str? {
      LexTotal(a.s, b.s);
    }
  }

  /** Not being ahead chains: it is the "at most" of a total preorder. */
  lemma NotAheadTransitive(a: Key, b: Key, c: Key, descending: bool)
    requires !Ahead(b, a, descending) && !Ahead(c, b, descending)
    ensures !Ahead(c, a, descending)
  {
    if Ahead(c, a, descending) {
      if a == b {
      } else if Ahead(a, b, descending) {
        AheadTransitive(c, a, b, descending);
      } else {
        AheadTotal(a, b, descending);
      }
    }
  }

  lemma AheadAsymmetric(a: Key, b: Key, descending: bool)
    requires Ahead(a, b, descending)
    ensures !Ahead(b, a, descending)
  {
    if Ahead(b, a, descending) {
      AheadTransitive(a, b, a, descending);
      AheadIrreflexive(a, descending);
    }
  }

  // ---------------------------------------------------------------------
  // Keys of rows
  // ---------------------------------------------------------------------

  /** Where a row's key comes from: a column as it is, or `safe_float` of the credits column. */
  datatype KeySource = Column(heading: string) | CreditsOf(heading: string)

  datatype Order = Order(source: KeySource, descending: bool)

  /** How pandas sees a cell: NaN, the computed integer, or the text. */
  function CellKey(c: Cell): Key {
    match c
    case Missing => NaN
    case Count(n) => Num(n as real)
    case Text(s) => Str(s)
  }

  function RowKey(columns: seq<string>, o: Order, row: Row): Key {
    match o.source
    case Column(h) => CellKey(Get(columns, row, h))
    case CreditsOf(h) =>
      match SafeFloat(Get(columns, row, h))
      case Some(v) => Num(v)
      case None => NaN
  }

  predicate Precedes(columns: seq<string>, o: Order, x: Row, y: Row) {
    Ahead(RowKey(columns, o, x), RowKey(columns, o, y), o.descending)
  }

  /** No row is strictly ahead of a row before it. */
  predicate Sorted(columns: seq<string>, o: Order, s: seq<Row>) {
    forall i, j :: 0 <= i < j < |s| ==> !Precedes(columns, o, s[j], s[i])
  }

  /** The rows of `s` whose key is `k`, in order. */
  function WithKey(columns: seq<string>, o: Order, s: seq<Row>, k: Key): seq<Row>
    decreases |s|
  {
    if s == [] then [] else (if RowKey(columns, o, s[0]) == k then [s[0]] else []) + WithKey(columns, o, s[1..], k)
  }

  // ---------------------------------------------------------------------
  // The stable sort
  // ---------------------------------------------------------------------

  /** Put `x` after every row strictly ahead of it and before the first that is not. */
  function Insert(columns: seq<string>, o: Order, x: Row, s: seq<Row>): seq<Row>
    decreases |s|
  {
    if s == [] then [x]
    else if Precedes(columns, o, s[0], x) then [s[0]] + Insert(columns, o, x, s[1..])
    else [x] + s
  }

  /** `df.sort_values(by=[...], ascending=..., kind="mergesort")` on the rows. */
  function Sort(columns: seq<string>, o: Order, rows: seq<Row>): seq<Row>
    decreases |rows|
  {
    if rows == [] then [] else Insert(columns, o, rows[0], Sort(columns, o, rows[1..]))
  }

  lemma {:induction false} InsertPermutes(columns: seq<string>, o: Order, x: Row, s: seq<Row>)
    ensures multiset(Insert(columns, o, x, s)) == multiset(s) + multiset{x}
    decreases |s|
  {
    if s != [] && Precedes(columns, o, s[0], x) {
      InsertPermutes(columns, o, x, s[1..]);
      assert s == [s[0]] + s[1..];
    }
  }

  lemma SortedCons(columns: seq<string>, o: Order, y: Row, rest: seq<Row>)
    requires Sorted(columns, o, rest)
    requires forall j :: 0 <= j < |rest| ==> !Precedes(columns, o, rest[j], y)
    ensures Sorted(columns, o, [y] + rest)
  {
    var s := [y] + rest;
    forall i, j | 0 <= i < j < |s|
      ensures !Precedes(columns, o, s[j], s[i])
    {
      assert s[j] == rest[j - 1];
      if i > 0 {
        assert s[i] == rest[i - 1];
      }
    }
  }

  lemma {:induction false} InsertSorted(columns: seq<string>, o: Order, x: Row, s: seq<Row>)
    requires Sorted(columns, o, s)
    ensures Sorted(columns, o, Insert(columns, o, x, s))
    decreases |s|
  {
    if s == [] {
      return;
    }
    var d := o.descending;
    if Precedes(columns, o, s[0], x) {
      var rest := Insert(columns, o, x, s[1..]);
      InsertSorted(columns, o, x, s[1..]);
      InsertPermutes(columns, o, x, s[1..]);
      forall j | 0 <= j < |rest|
        ensures !Precedes(columns, o, rest[j], s[0])
      {
        assert rest[j] in multiset(rest);
        if rest[j] == x {
          AheadAsymmetric(RowKey(columns, o, s[0]), RowKey(columns, o, x), d);
        } else {
          assert rest[j] in multiset(s[1..]);
          var k :| 0 <= k < |s[1..]| && s[1..][k] == rest[j];
          assert s[k + 1] == rest[j];
        }
      }
      SortedCons(columns, o, s[0], rest);
    } else {
      forall j | 0 <= j < |s|
        ensures !Precedes(columns, o, s[j], x)
      {
        if j > 0 {
          NotAheadTransitive(RowKey(columns, o, x), RowKey(columns, o, s[0]), RowKey(columns, o, s[j]), d);
        }
      }
      SortedCons(columns, o, x, s);
    }
  }

  /** Inserting moves a row only past rows with another key, so rows sharing a key keep their order. */
  lemma {:induction false} InsertStable(columns: seq<string>, o: Order, x: Row, s: seq<Row>, k: Key)
    ensures WithKey(columns, o, Insert(columns, o, x, s), k) == WithKey(columns, o, [x] + s, k)
    decreases |s|
  {
    if s != [] && Precedes(columns, o, s[0], x) {
      var rest := Insert(columns, o, x, s[1..]);
      InsertStable(columns, o, x, s[1..], k);
      AheadIrreflexive(RowKey(columns, o, x), o.descending);
      assert ([s[0]] + rest)[1..] == rest;
      assert ([x] + s[1..])[1..] == s[1..];
      assert ([x] + s)[1..] == s;
    }
  }

  /** The sort result is in order: nothing is strictly ahead of a row placed before it. */
  lemma {:induction false} SortSorted(columns: seq<string>, o: Order, rows: seq<Row>)
    ensures Sorted(columns, o, Sort(columns, o, rows))
    decreases |rows|
  {
    if rows != [] {
      SortSorted(columns, o, rows[1..]);
      InsertSorted(columns, o, rows[0], Sort(columns, o, rows[1..]));
    }
  }

  /** The sort result holds exactly the input rows, each as often. */
  lemma {:induction false} SortPermutes(columns: seq<string>, o: Order, rows: seq<Row>)
    ensures multiset(Sort(columns, o, rows)) == multiset(rows)
    decreases |rows|
  {
    if rows != [] {
      SortPermutes(columns, o, rows[1..]);
      InsertPermutes(columns, o, rows[0], Sort(columns, o, rows[1..]));
      assert rows == [rows[0]] + rows[1..];
    }
  }

  /** The sort is stable: for every key, the rows with that key appear in their original order. */
  lemma {:induction false} SortStable(columns: seq<string>, o: Order, rows: seq<Row>, k: Key)
    ensures WithKey(columns, o, Sort(columns, o, rows), k) == WithKey(columns, o, rows, k)
    decreases |rows|
  {
    if rows != [] {
      var sorted := Sort(columns, o, rows[1..]);
      SortStable(columns, o, rows[1..], k);
      InsertStable(columns, o, rows[0], sorted, k);
      assert ([rows[0]] + sorted)[1..] == sorted;
    }
  }

  /**
   * What a sorted sequence looks like: after a row with a missing key only
   * rows with a missing key follow, and numbers run downwards in a
   * descending sort, upwards in an ascending one.
   */
  lemma SortedShape(columns: seq<string>, o: Order, s: seq<Row>, i: nat, j: nat)
    requires Sorted(columns, o, s) && i < j < |s|
    ensures RowKey(columns, o, s[i]) == NaN ==> RowKey(columns, o, s[j]) == NaN
    ensures RowKey(columns, o, s[i]).Num? && RowKey(columns, o, s[j]).Num? ==>
      if o.descending then RowKey(columns, o, s[i]).x >= RowKey(columns, o, s[j]).x
      else RowKey(columns, o, s[i]).x <= RowKey(columns, o, s[j]).x
  {
    assert !Precedes(columns, o, s[j], s[i]);
  }

  // ---------------------------------------------------------------------
  // sort_key
  // ---------------------------------------------------------------------

  /** The choices of the "Sort" box. */
  datatype SortChoice = ByName | ByRatio | ByRemaining | ByCredits | ByCode

  /** The heading of the computed competition-ratio column. */
  const RatioLabel := "경쟁률(계산)"

  /** The scratch column the credits sort adds and drops again. */
  const CreditsScratch := "_credits_num"

  /** The table with its rows sorted. */
  function SortedBy(t: Table, o: Order): Table {
    Table(t.columns, Sort(t.columns, o, t.rows))
  }

  /** A row without the cells under `heading`. */
  function DropCells(columns: seq<string>, row: Row, heading: string): Row
    decreases |columns|
  {
    if columns == [] || row == [] then []
    else (if columns[0] == heading then [] else [row[0]]) + DropCells(columns[1..], row[1..], heading)
  }

  /** The headings other than `heading`, in order (see `DropHeadingKeepsOrder`). */
  function DropHeading(columns: seq<string>, heading: string): (r: seq<string>)
    ensures forall x :: x in r <==> x in columns && x != heading
    ensures |r| <= |columns|
  {
    if columns == [] then []
    else
      var rest := DropHeading(columns[1..], heading);
      assert forall x :: x in columns <==> x == columns[0] || x in columns[1..];
      if columns[0] == heading then rest else [columns[0]] + rest
  }

  /** `df.drop(columns=[heading])`. */
  function DropColumn(t: Table, heading: string): Table {
    Table(DropHeading(t.columns, heading), seq(|t.rows|, i requires 0 <= i < |t.rows| => DropCells(t.columns, t.rows[i], heading)))
  }

  /** `sort_key(df)` for the chosen sort, with `cm` the column map of the table it is applied to. */
  function SortKey(t: Table, cm: ColumnMap, choice: SortChoice): Table {
    match choice
    case ByName => if Mapped(cm.courseName) then SortedBy(t, Order(Column(LabelOf(cm.courseName)), false)) else t
    case ByRatio => if RatioLabel in t.columns then SortedBy(t, Order(Column(RatioLabel), true)) else t
    case ByRemaining => if RemainingLabel in t.columns then SortedBy(t, Order(Column(RemainingLabel), true)) else t
    case ByCredits =>
      if Mapped(cm.credits) then DropColumn(SortedBy(t, Order(CreditsOf(LabelOf(cm.credits)), true)), CreditsScratch) else t
    case ByCode => if Mapped(cm.courseCode) then SortedBy(t, Order(Column(LabelOf(cm.courseCode)), false)) else t
  }

  /** The order `sort_key` sorts by, when it sorts at all. */
  function ChosenOrder(t: Table, cm: ColumnMap, choice: SortChoice): Option<Order> {
    match choice
    case ByName => if Mapped(cm.courseName) then Some(Order(Column(LabelOf(cm.courseName)), false)) else None
    case ByRatio => if RatioLabel in t.columns then Some(Order(Column(RatioLabel), true)) else None
    case ByRemaining => if RemainingLabel in t.columns then Some(Order(Column(RemainingLabel), true)) else None
    case ByCredits => if Mapped(cm.credits) then Some(Order(CreditsOf(LabelOf(cm.credits)), true)) else None
    case ByCode => if Mapped(cm.courseCode) then Some(Order(Column(LabelOf(cm.courseCode)), false)) else None
  }

  lemma {:induction false} DropCellsAbsent(columns: seq<string>, row: Row, heading: string)
    requires heading !in columns && |row| == |columns|
    ensures DropCells(columns, row, heading) == row
    decreases |columns|
  {
    if columns != [] {
      DropCellsAbsent(columns[1..], row[1..], heading);
    }
  }

  /** The headings that stay keep their relative order. */
  lemma {:induction false} DropHeadingKeepsOrder(columns: seq<string>, heading: string)
    ensures Subsequence(DropHeading(columns, heading), columns)
    decreases |columns|
  {
    if columns != [] {
      DropHeadingKeepsOrder(columns[1..], heading);
      if columns[0] == heading {
        SubsequenceTail(DropHeading(columns[1..], heading), columns);
      } else {
        assert ([columns[0]] + DropHeading(columns[1..], heading))[1..] == DropHeading(columns[1..], heading);
      }
    }
  }

  lemma {:induction false} DropHeadingAbsent(columns: seq<string>, heading: string)
    requires heading !in columns
    ensures DropHeading(columns, heading) == columns
  {
    if columns != [] {
      DropHeadingAbsent(columns[1..], heading);
    }
  }

  /**
   * `sort_key` on a well-formed table: when it sorts, the rows come out in
   * the chosen order, stably, as a permutation of the input, and only the
   * credits sort changes the columns, by dropping "_credits_num"; when it
   * does not sort, the table is returned as it is.
   */
  lemma SortKeySpec(t: Table, cm: ColumnMap, choice: SortChoice)
    requires t.WellFormed()
    ensures ChosenOrder(t, cm, choice).None? ==> SortKey(t, cm, choice) == t
    ensures choice != ByCredits || CreditsScratch !in t.columns ==>
      SortKey(t, cm, choice).columns == t.columns && multiset(SortKey(t, cm, choice).rows) == multiset(t.rows)
    ensures ChosenOrder(t, cm, choice).Some? && (choice != ByCredits || CreditsScratch !in t.columns) ==>
      var o := ChosenOrder(t, cm, choice).value;
      Sorted(t.columns, o, SortKey(t, cm, choice).rows)
      && forall k :: WithKey(t.columns, o, SortKey(t, cm, choice).rows, k) == WithKey(t.columns, o, t.rows, k)
    ensures choice == ByCredits && Mapped(cm.credits) ==> CreditsScratch !in SortKey(t, cm, choice).columns
  {
    match ChosenOrder(t, cm, choice)
    case None =>
    case Some(o) =>
      var sorted := Sort(t.columns, o, t.rows);
      SortPermutes(t.columns, o, t.rows);
      SortSorted(t.columns, o, t.rows);
      forall k
        ensures WithKey(t.columns, o, sorted, k) == WithKey(t.columns, o, t.rows, k)
      {
        SortStable(t.columns, o, t.rows, k);
      }
      if choice == ByCredits && CreditsScratch !in t.columns {
        DropHeadingAbsent(t.columns, CreditsScratch);
        assert |sorted| == |t.rows| by {
          assert |multiset(sorted)| == |multiset(t.rows)|;
        }
        forall i | 0 <= i < |sorted|
          ensures DropCells(t.columns, sorted[i], CreditsScratch) == sorted[i]
        {
          assert sorted[i] in multiset(t.rows);
          var k :| 0 <= k < |t.rows| && t.rows[k] == sorted[i];
          DropCellsAbsent(t.columns, sorted[i], CreditsScratch);
        }
        assert DropColumn(SortedBy(t, o), CreditsScratch) == SortedBy(t, o);
      }
  }
}
