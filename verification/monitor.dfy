/**
 * The row matching of the enrolment monitor (sugang.py:35-37, 51-77): how
 * a number is read out of a cell (`_int`), how the quota is read out of the
 * capacity cell, which row of the result table belongs to a section
 * (`read_info`), and what record `fetch` makes of it. The browser itself is
 * not modelled: a search ends in a `Browse` value standing for what the
 * browser produced.
 */
module Monitor {
  import opened Common

  // ---------------------------------------------------------------------
  // _int
  // ---------------------------------------------------------------------

  /** `txt.replace(",", "")`. */
  function DropCommas(s: string): (r: string)
    ensures |r| <= |s|
  {
    if s == [] then [] else (if s[0] == ',' then [] else [s[0]]) + DropCommas(s[1..])
  }

  /** The first position at or after `i` holding a digit, or |s| when there is none. */
  function FirstDigit(s: string, i: nat): (k: nat)
    requires i <= |s|
    ensures i <= k <= |s|
    ensures forall j :: i <= j < k ==> !IsDigit(s[j])
    ensures k < |s| ==> IsDigit(s[k])
    decreases |s| - i
  {
    if i == |s| || IsDigit(s[i]) then i else FirstDigit(s, i + 1)
  }

  /** The end of the run of digits that starts at `i`. */
  function RunEnd(s: string, i: nat): (k: nat)
    requires i <= |s|
    ensures i <= k <= |s|
    ensures forall j :: i <= j < k ==> IsDigit(s[j])
    ensures k < |s| ==> !IsDigit(s[k])
    decreases |s| - i
  {
    if i < |s| && IsDigit(s[i]) then RunEnd(s, i + 1) else i
  }

  /** The value of the first maximal run of digits, `re.search(r"\d+", s)`, or 0 when `s` has no digit. */
  function LeadingNumber(s: string): nat {
    var k := FirstDigit(s, 0);
    if k == |s| then 0
    else
      var e := RunEnd(s, k);
      assert AllDigits(s[k..e]);
      DigitsValue(s[k..e])
  }

  /** `_int(txt)` (sugang.py:35-37). */
  function IntOf(txt: string): nat {
    LeadingNumber(DropCommas(txt))
  }

  lemma {:induction false} DropCommasAppend(a: string, b: string)
    ensures DropCommas(a + b) == DropCommas(a) + DropCommas(b)
    decreases |a|
  {
    if a == [] {
      assert a + b == b;
    } else {
      assert (a + b)[0] == a[0];
      assert (a + b)[1..] == a[1..] + b;
      DropCommasAppend(a[1..], b);
    }
  }

  lemma {:induction false} DropCommasKeeps(s: string)
    requires forall i :: 0 <= i < |s| ==> s[i] != ','
    ensures DropCommas(s) == s
    decreases |s|
  {
    if s != [] {
      DropCommasKeeps(s[1..]);
    }
  }

  lemma {:induction false} DropCommasNoDigits(s: string)
    requires NoDigits(s)
    ensures NoDigits(DropCommas(s))
    decreases |s|
  {
    if s != [] {
      DropCommasNoDigits(s[1..]);
    }
  }

  /** `t` does not start with a digit, so a run of digits before it ends where `t` begins. */
  predicate StartsWithoutDigit(t: string) {
    t == [] || !IsDigit(t[0])
  }

  /**
   * The first maximal run of digits is what `re.search(r"\d+", ...)` finds:
   * `d`, after text without digits, and ended by whatever follows it, which
   * may hold further digits.
   */
  lemma FirstRun(pre: string, d: string, post: string)
    requires NoDigits(pre) && d != [] && AllDigits(d) && StartsWithoutDigit(post)
    ensures LeadingNumber(pre + d + post) == DigitsValue(d)
  {
    var s := pre + d + post;
    assert forall j :: 0 <= j < |pre| ==> s[j] == pre[j];
    assert forall j :: |pre| <= j < |pre| + |d| ==> s[j] == d[j - |pre|];
    assert |pre| + |d| < |s| ==> s[|pre| + |d|] == post[0];
    assert IsDigit(s[|pre|]);
    var k := FirstDigit(s, 0);
    assert k == |pre|;
    var e := RunEnd(s, k);
    assert forall j :: |pre| <= j < |pre| + |d| ==> IsDigit(s[j]);
    assert |pre| + |d| < |s| ==> !IsDigit(s[|pre| + |d|]);
    assert e == |pre| + |d|;
    assert s[k..e] == d;
  }

  /**
   * A number written as `str(n)` after text without digits reads back as
   * `n`, whatever follows it once commas are gone does not start with a
   * digit: any later number is ignored.
   */
  lemma IntOfNumber(pre: string, n: nat, post: string)
    requires NoDigits(pre) && StartsWithoutDigit(DropCommas(post))
    ensures IntOf(pre + NatToText(n) + post) == n
  {
    var t := NatToText(n);
    DropCommasAppend(pre + t, post);
    DropCommasAppend(pre, t);
    DropCommasNoDigits(pre);
    DropCommasDigits(t);
    FirstRun(DropCommas(pre), t, DropCommas(post));
  }

  /** A run of digits at the very start, ended by text that does not continue it. */
  lemma LeadingRun(d: string, t: string)
    requires d != [] && AllDigits(d) && StartsWithoutDigit(t)
    ensures LeadingNumber(d + t) == DigitsValue(d)
  {
    var s := d + t;
    assert forall j :: 0 <= j < |d| ==> s[j] == d[j];
    assert |d| < |s| ==> s[|d|] == t[0];
    assert FirstDigit(s, 0) == 0;
    var e := RunEnd(s, 0);
    assert forall j :: 0 <= j < |d| ==> IsDigit(s[j]);
    assert e == |d|;
    assert s[0..e] == d;
  }

  /**
   * Only the first number counts: `str(a)`, a space, then anything at all
   * (another number, "(40)", ...) reads as `a`.
   */
  lemma IntOfFirstNumber(a: nat, w: string)
    ensures IntOf(NatToText(a) + " " + w) == a
  {
    var d := NatToText(a);
    var u := " " + w;
    assert d + " " + w == d + u;
    DropCommasAppend(d, u);
    DropCommasDigits(d);
    DropCommasAppend(" ", w);
    assert DropCommas(" ") == " ";
    var t := DropCommas(u);
    assert t[0] == ' ';
    LeadingRun(d, t);
  }

  /** Text without digits reads as 0. */
  lemma IntOfNoDigits(txt: string)
    requires NoDigits(txt)
    ensures IntOf(txt) == 0
  {
    DropCommasNoDigits(txt);
  }

  /**
   * Thousands separators are ignored: two runs of digits joined by a comma,
   * followed by text that does not continue the run, read as the one number
   * the runs spell together.
   */
  lemma IntOfThousands(a: string, b: string, post: string)
    requires a != [] && AllDigits(a) && AllDigits(b) && StartsWithoutDigit(DropCommas(post))
    ensures IntOf(a + "," + b + post) == DigitsValue(a + b)
  {
    var x := a + "," + b;
    DropCommasJoin(a, b);
    DropCommasAppend(x, post);
    var d := a + b;
    assert AllDigits(d) by {
      assert forall i :: 0 <= i < |a| ==> d[i] == a[i];
      assert forall i :: |a| <= i < |d| ==> d[i] == b[i - |a|];
    }
    var t := DropCommas(post);
    assert DropCommas(a + "," + b + post) == d + t;
    LeadingRun(d, t);
  }

  lemma DropCommasJoin(a: string, b: string)
    requires AllDigits(a) && AllDigits(b)
    ensures DropCommas(a + "," + b) == a + b
  {
    DropCommasAppend(a + ",", b);
    DropCommasAppend(a, ",");
    assert DropCommas(",") == [];
    DropCommasDigits(a);
    DropCommasDigits(b);
    assert a + [] == a;
  }

  lemma DropCommasDigits(a: string)
    requires AllDigits(a)
    ensures DropCommas(a) == a
  {
    forall i | 0 <= i < |a|
      ensures a[i] != ','
    {
      assert IsDigit(a[i]);
    }
    DropCommasKeeps(a);
  }

  // ---------------------------------------------------------------------
  // The quota
  // ---------------------------------------------------------------------

  /**
   * `\((\d+)\)` matches at `k`: an opening parenthesis, a non-empty run of
   * digits, and a closing parenthesis right after the whole run (a shorter
   * run would leave a digit, not ')', after it, so backtracking finds
   * nothing else).
   */
  predicate ParenAt(s: string, k: nat) {
    k < |s| && s[k] == '(' && RunEnd(s, k + 1) > k + 1 && RunEnd(s, k + 1) < |s| && s[RunEnd(s, k + 1)] == ')'
  }

  /** The number inside the first parenthesised run of digits at or after `i`, if any. */
  function ParenNumber(s: string, i: nat): (r: Option<nat>)
    requires i <= |s|
    ensures r.None? <==> forall k :: i <= k < |s| ==> !ParenAt(s, k)
    decreases |s| - i
  {
    if i == |s| then None
    else if ParenAt(s, i) then
      var e := RunEnd(s, i + 1);
      assert AllDigits(s[i + 1..e]);
      Some(DigitsValue(s[i + 1..e]))
    else ParenNumber(s, i + 1)
  }

  /** The quota (sugang.py:57-59): the first parenthesised number of the capacity cell, else `_int` of the cell. */
  function Quota(cap: string): nat {
    match ParenNumber(cap, 0)
    case Some(n) => n
    case None => IntOf(cap)
  }

  /** A capacity cell without a parenthesised number reads as `_int` of the cell. */
  lemma QuotaWithoutParens(cap: string)
    requires forall k :: 0 <= k < |cap| ==> !ParenAt(cap, k)
    ensures Quota(cap) == IntOf(cap)
  {
  }

  /**
   * A parenthesised number wins over any number before it: in
   * `pre + "(" + str(n) + ")" + post` the quota is `n`, as long as every
   * '(' in `pre` is followed within `pre` by a character that is not a
   * digit (such a '(' starts no match and the search passes it).
   */
  lemma QuotaParenthesised(pre: string, n: nat, post: string)
    requires forall i :: 0 <= i < |pre| && pre[i] == '(' ==> i + 1 < |pre| && !IsDigit(pre[i + 1])
    ensures Quota(pre + "(" + NatToText(n) + ")" + post) == n
  {
    var t := NatToText(n);
    var s := pre + "(" + t + ")" + post;
    var k := |pre|;
    forall j | 0 <= j < k
      ensures !ParenAt(s, j)
    {
      assert s[j] == pre[j];
      if pre[j] == '(' {
        assert s[j + 1] == pre[j + 1];
      }
    }
    assert s[k] == '(';
    assert forall j :: k + 1 <= j < k + 1 + |t| ==> s[j] == t[j - k - 1];
    assert s[k + 1 + |t|] == ')';
    var e := RunEnd(s, k + 1);
    assert e == k + 1 + |t|;
    assert s[k + 1..e] == t;
    assert ParenAt(s, k);
    FirstParen(s, k);
  }

  /**
   * The search finds the first match: with a match at `k` and none before
   * it, that one, whatever '(' without a match precede it.
   */
  lemma {:induction false} FirstParen(s: string, k: nat)
    requires ParenAt(s, k)
    requires forall i :: 0 <= i < k ==> !ParenAt(s, i)
    ensures ParenNumber(s, 0) == Some(DigitsValue(s[k + 1..RunEnd(s, k + 1)]))
  {
    FirstParenFrom(s, 0, k);
  }

  lemma {:induction false} FirstParenFrom(s: string, i: nat, k: nat)
    requires i <= k && ParenAt(s, k)
    requires forall j :: i <= j < k ==> !ParenAt(s, j)
    ensures ParenNumber(s, i) == Some(DigitsValue(s[k + 1..RunEnd(s, k + 1)]))
    decreases k - i
  {
    if i < k {
      FirstParenFrom(s, i + 1, k);
    }
  }

  // ---------------------------------------------------------------------
  // read_info
  // ---------------------------------------------------------------------

  /** Columns of the result table (sugang.py:13). */
  const TitleCol := 6
  const ProfCol := 11
  const CapCol := 13
  const CurrCol := 14

  /** What `read_info` returns for the matching row. */
  datatype Info = Info(quota: nat, current: nat, title: string, prof: string)

  /** A cell of the row, stripped, equals the section number. */
  predicate HasSection(row: seq<string>, cls: string) {
    exists j :: 0 <= j < |row| && Strip(row[j]) == cls
  }

  /** `any(td.text.strip() == cls for td in tds)`. */
  function AnyCellIs(row: seq<string>, cls: string): (b: bool)
    ensures b <==> HasSection(row, cls)
  {
    if row == [] then false
    else if Strip(row[0]) == cls then true
    else
      var b := AnyCellIs(row[1..], cls);
      assert forall j :: 1 <= j < |row| ==> row[j] == row[1..][j - 1];
      b
  }

  /** A row `read_info` accepts: more than 14 cells, one of them the section number. */
  predicate Candidate(row: seq<string>, cls: string) {
    |row| > CurrCol && HasSection(row, cls)
  }

  /** The quota, current count, title and professor read from an accepted row. */
  function InfoOf(row: seq<string>): Info
    requires |row| > CurrCol
  {
    Info(Quota(row[CapCol]), IntOf(row[CurrCol]), Strip(row[TitleCol]), Strip(row[ProfCol]))
  }

  /** The position of the first accepted row at or after `i`, or |rows| when there is none. */
  function FirstCandidate(rows: seq<seq<string>>, cls: string, i: nat): (k: nat)
    requires i <= |rows|
    ensures i <= k <= |rows|
    ensures forall j :: i <= j < k ==> !Candidate(rows[j], cls)
    ensures k < |rows| ==> Candidate(rows[k], cls)
    decreases |rows| - i
  {
    if i == |rows| || Candidate(rows[i], cls) then i else FirstCandidate(rows, cls, i + 1)
  }

  /** The first accepted row, in table order, read out; None when no row is accepted. */
  function Lookup(rows: seq<seq<string>>, cls: string): (r: Option<Info>)
    ensures r.None? <==> forall i :: 0 <= i < |rows| ==> !Candidate(rows[i], cls)
  {
    var k := FirstCandidate(rows, cls, 0);
    if k < |rows| then Some(InfoOf(rows[k])) else None
  }

  /** The row read out is the first accepted one: any later accepted row is ignored. */
  lemma LookupFirst(rows: seq<seq<string>>, cls: string, i: nat)
    requires i < |rows| && Candidate(rows[i], cls)
    requires forall j :: 0 <= j < i ==> !Candidate(rows[j], cls)
    ensures Lookup(rows, cls) == Some(InfoOf(rows[i]))
  {
    var k := FirstCandidate(rows, cls, 0);
    assert k == i;
  }

  /** `read_info(drv, cls)` (sugang.py:51-64) over the displayed rows, each a list of cell texts. */
  method ReadInfo(rows: seq<seq<string>>, cls: string) returns (info: Option<Info>)
    ensures info == Lookup(rows, cls)
  {
    for i := 0 to |rows|
      invariant forall j :: 0 <= j < i ==> !Candidate(rows[j], cls)
    {
      var tds := rows[i];
      if |tds| <= CurrCol {
        continue;
      }
      if AnyCellIs(tds, cls) {
        var cap := tds[CapCol];
        var quota := Quota(cap);
        var current := IntOf(tds[CurrCol]);
        var title := Strip(tds[TitleCol]);
        var prof := Strip(tds[ProfCol]);
        LookupFirst(rows, cls, i);
        return Some(Info(quota, current, title, prof));
      }
    }
    return None;
  }

  // ---------------------------------------------------------------------
  // fetch
  // ---------------------------------------------------------------------

  /**
   * How a search in the browser ends: the driver cannot be started (an
   * exception raised before the `try`), an exception inside the `try`
   * with its message, or the rows of the result table.
   */
  datatype Browse = DriverFails | Raised(message: string) | Listing(rows: seq<seq<string>>)

  /** The record `fetch` returns: an error, or the section's figures with the ratio `current / quota`. */
  datatype Record =
    | Failure(subject: string, cls: string, error: string)
    | Status(subject: string, cls: string, quota: nat, current: nat, title: string, prof: string, ratio: real)

  /** The error text for a section without a matching row. */
  const NotFound := "행을 찾지 못했습니다."

  /** `fetch` either raises out of the caller or returns a record. */
  datatype Fetched = Aborted | Returned(record: Record)

  /** `fetch(subj, cls, headless)` (sugang.py:66-77). */
  function Fetch(subj: string, cls: string, b: Browse): Fetched {
    match b
    case DriverFails => Aborted
    case Raised(message) => Returned(Failure(subj, cls, message))
    case Listing(rows) =>
      match Lookup(rows, cls)
      case None => Returned(Failure(subj, cls, NotFound))
      case Some(i) =>
        Returned(Status(subj, cls, i.quota, i.current, i.title, i.prof,
          if i.quota != 0 then i.current as real / i.quota as real else 0.0))
  }

  /** The test applied to the result of `fetch` (sugang.py:165): an error whose text contains the not-found phrase. */
  predicate RowMissing(r: Record) {
    r.Failure? && Contains(r.error, "행을 찾지 못했습니다")
  }

  /**
   * `fetch` on a result table: the record names the subject and section it
   * was asked for, and it is the not-found error exactly when no row is
   * accepted.
   */
  lemma FetchListing(subj: string, cls: string, rows: seq<seq<string>>)
    ensures Fetch(subj, cls, Listing(rows)).Returned?
    ensures var r := Fetch(subj, cls, Listing(rows)).record;
      r.subject == subj && r.cls == cls
      && (r == Failure(subj, cls, NotFound) <==> forall i :: 0 <= i < |rows| ==> !Candidate(rows[i], cls))
  {
  }

  /**
   * Otherwise the record carries the figures of the first accepted row,
   * with the ratio `current / quota`, or 0 when the quota is 0.
   */
  lemma FetchFirstRow(subj: string, cls: string, rows: seq<seq<string>>, i: nat)
    requires i < |rows| && Candidate(rows[i], cls)
    requires forall j :: 0 <= j < i ==> !Candidate(rows[j], cls)
    ensures var row := rows[i];
      var q, c := Quota(row[CapCol]), IntOf(row[CurrCol]);
      Fetch(subj, cls, Listing(rows)) == Returned(Status(subj, cls, q, c, Strip(row[TitleCol]), Strip(row[ProfCol]),
        if q == 0 then 0.0 else c as real / q as real))
  {
    LookupFirst(rows, cls, i);
  }

  /** Whatever the browser does, a record `fetch` returns names the subject and section it was asked for. */
  lemma FetchNames(subj: string, cls: string, b: Browse)
    ensures Fetch(subj, cls, b).Returned? <==> !b.DriverFails?
    ensures Fetch(subj, cls, b).Returned? ==>
      Fetch(subj, cls, b).record.subject == subj && Fetch(subj, cls, b).record.cls == cls
  {
  }

  /** The not-found error passes the not-found test. */
  lemma NotFoundIsRowMissing(subj: string, cls: string)
    ensures RowMissing(Failure(subj, cls, NotFound))
  {
    assert "행을 찾지 못했습니다" <= NotFound;
    assert OccursAt(NotFound, "행을 찾지 못했습니다", 0);
  }
}
