/**
 * The schedule-text reader of the course search app
 * (snu_sugang_2026_1_streamlit.py:119-149): it finds every
 * `H:MM-H:MM` (or `HH:MM ~ HH:MM`) in a free-form schedule cell, turns
 * each into a pair of minutes since midnight, and tests whether any of
 * them meets a time window.
 *
 * The pattern `(\d{1,2}):(\d{2})\s*-\s*(\d{1,2}):(\d{2})` is written out
 * as a hand-made scanner: `Find` tries the pattern token by token from a
 * start index and moves the start one character on when a token fails,
 * and `Scan` walks the text left to right the way `re.finditer` does,
 * resuming after each occurrence.
 */
module Schedule {
  import opened Common

  /** A meeting as `(start, end)` in minutes since 00:00. */
  datatype Span = Span(start: int, end: int)

  const MinutesPerDay := 24 * 60

  /** The bounds test a pair must pass before it is reported. */
  predicate Accepted(r: Span) {
    0 <= r.start < MinutesPerDay && 0 <= r.end <= MinutesPerDay && r.end > r.start
  }

  // ---------------------------------------------------------------------
  // Separator normalisation
  // ---------------------------------------------------------------------

  /** The separators that are rewritten to '-' before scanning: '~', EN DASH and EM DASH. */
  predicate IsDashVariant(c: char) {
    c == '~' || c == '\U{2013}' || c == '\U{2014}'
  }

  /** The three chained `str.replace` calls, one character at a time. */
  function NormalizeDashes(s: string): string {
    seq(|s|, i requires 0 <= i < |s| => if IsDashVariant(s[i]) then '-' else s[i])
  }

  lemma NormalizeAppend(a: string, b: string)
    ensures NormalizeDashes(a + b) == NormalizeDashes(a) + NormalizeDashes(b)
  {
  }

  // ---------------------------------------------------------------------
  // The pattern, token by token
  // ---------------------------------------------------------------------

  /** The value of the two-digit numeral `ab`. */
  function Value2(a: char, b: char): nat
    requires IsDigit(a) && IsDigit(b)
  {
    10 * DigitValue(a) + DigitValue(b)
  }

  /**
   * One element of the pattern: a captured run of `least` to `most`
   * ASCII digits, one literal character, or `\s*`.
   */
  datatype Token = Number(least: nat, most: nat) | Char(c: char) | Blanks

  /** The number of tokens in `(\d{1,2}):(\d{2})\s*-\s*(\d{1,2}):(\d{2})`. */
  const PatternLength := 9

  /** Token `k` of `(\d{1,2}):(\d{2})\s*-\s*(\d{1,2}):(\d{2})`. */
  function TokenAt(k: nat): Token
    requires k < PatternLength
  {
    match k
    case 0 => Number(1, 2)
    case 1 => Char(':')
    case 2 => Number(2, 2)
    case 3 => Blanks
    case 4 => Char('-')
    case 5 => Blanks
    case 6 => Number(1, 2)
    case 7 => Char(':')
    case _ => Number(2, 2)
  }

  /** The fewest characters a token matches. */
  function Width(t: Token): nat {
    match t
    case Number(least, _) => least
    case Char(_) => 1
    case Blanks => 0
  }

  /** How many groups the tokens before token `k` capture. */
  function GroupsBefore(k: nat): nat
    requires k <= PatternLength
  {
    if k == 0 then 0 else GroupsBefore(k - 1) + if TokenAt(k - 1).Number? then 1 else 0
  }

  /** A run of digits read: the index just after it and the value of `acc` followed by its digits. */
  datatype Digits = Digits(end: nat, value: nat)

  /**
   * The longest run of at most `most` digits that starts at index `i`,
   * read into `acc` digit by digit (`int(s[i:end])` when `acc` is 0).
   */
  function DigitRun(s: string, i: nat, most: nat, acc: nat): (d: Digits)
    requires i <= |s|
    ensures i <= d.end <= |s| && d.end <= i + most
    decreases most
  {
    if most > 0 && i < |s| && IsDigit(s[i]) then DigitRun(s, i + 1, most - 1, 10 * acc + DigitValue(s[i]))
    else Digits(i, acc)
  }

  /** The index just after the `\s*` run that starts at index `i`. */
  function SkipSpaces(s: string, i: nat): (j: nat)
    requires i <= |s|
    ensures i <= j <= |s|
    decreases |s| - i
  {
    if i < |s| && IsSpace(s[i]) then SkipSpaces(s, i + 1) else i
  }

  /** A token matched: the index just after it and the number it captured, if it is a group. */
  datatype Advance = Advance(next: nat, numbers: seq<nat>)

  /**
   * One token at index `i`. Digit runs and blank runs are taken whole and
   * never given back: in this pattern a shorter digit run would leave a
   * digit where ':' or a blank is needed, and a shorter blank run would
   * leave a blank where '-' or a digit is needed, so backtracking never
   * finds a reading the greedy one misses.
   */
  function Step(s: string, i: nat, t: Token): (r: Option<Advance>)
    requires i <= |s|
    ensures r.Some? ==> i + Width(t) <= r.value.next <= |s|
    ensures r.Some? ==> |r.value.numbers| == if t.Number? then 1 else 0
  {
    match t
    case Number(least, most) =>
      var d := DigitRun(s, i, most, 0);
      if d.end < i + least then None else Some(Advance(d.end, [d.value]))
    case Char(c) =>
      if i < |s| && s[i] == c then Some(Advance(i + 1, [])) else None
    case Blanks =>
      Some(Advance(SkipSpaces(s, i), []))
  }

  // ---------------------------------------------------------------------
  // The whole text
  // ---------------------------------------------------------------------

  /** An occurrence of the pattern: where it starts, the four numbers it captured and the index just after it. */
  datatype Found = Found(at: nat, numbers: seq<nat>, stop: nat)

  /**
   * The search for the leftmost occurrence at or after index `at`: the
   * attempt that started at `at` has matched the tokens before token `k`,
   * reached index `i` and captured `caps`; when a token fails, the
   * attempt is dropped and the search goes on one character further.
   */
  function Find(s: string, at: nat, i: nat, k: nat, caps: seq<nat>): (f: Option<Found>)
    requires at <= i <= |s| && k <= PatternLength
    requires k > 0 ==> at < i
    requires |caps| == GroupsBefore(k)
    ensures f.Some? ==> at <= f.value.at < f.value.stop <= |s|
    ensures f.Some? ==> |f.value.numbers| == GroupsBefore(PatternLength)
    decreases |s| - at, PatternLength - k
  {
    if k == PatternLength then Some(Found(at, caps, i))
    else
      match Step(s, i, TokenAt(k))
      case Some(a) => Find(s, at, a.next, k + 1, caps + a.numbers)
      case None => if at < |s| then Search(s, at + 1) else None
  }

  /** `re.search` from index `i`: the leftmost occurrence that starts at or after `i`. */
  function Search(s: string, i: nat): (f: Option<Found>)
    requires i <= |s|
    ensures f.Some? ==> i <= f.value.at < f.value.stop <= |s| && |f.value.numbers| == 4
    decreases |s| - i, PatternLength + 1
  {
    Find(s, i, i, 0, [])
  }

  /** The pair an occurrence denotes, each side read as `hours * 60 + minutes`. */
  function SpanOf(numbers: seq<nat>): Span
    requires |numbers| == 4
  {
    Span(numbers[0] * 60 + numbers[1], numbers[2] * 60 + numbers[3])
  }

  /**
   * `finditer` from index `i` of already-normalised text, keeping the
   * pairs that pass the bounds test: each search resumes where the
   * previous occurrence ended.
   */
  function Scan(s: string, i: nat): seq<Span>
    requires i <= |s|
    decreases |s| - i
  {
    match Search(s, i)
    case None => []
    case Some(f) =>
      var r := SpanOf(f.numbers);
      (if Accepted(r) then [r] else []) + Scan(s, f.stop)
  }

  /** Every pair the walk reports is a proper interval within one day. */
  lemma {:induction false} ScanAccepted(s: string, i: nat)
    requires i <= |s|
    ensures forall k :: 0 <= k < |Scan(s, i)| ==> Accepted(Scan(s, i)[k])
    decreases |s| - i
  {
    match Search(s, i)
    case None =>
    case Some(f) =>
      ScanAccepted(s, f.stop);
  }

  /** `parse_time_ranges(text)` as a value. */
  function TimeRanges(text: string): seq<Span> {
    Scan(NormalizeDashes(text), 0)
  }

  /**
   * `parse_time_ranges` (snu_sugang_2026_1_streamlit.py:119-136): normalise
   * the separators, then take the occurrences one after another, appending
   * each pair that passes the bounds test.
   */
  method ParseTimeRanges(text: string) returns (out: seq<Span>)
    ensures out == TimeRanges(text)
  {
    var s := NormalizeDashes(text);
    ghost var all := Scan(s, 0);
    out := [];
    var i := 0;
    while true
      invariant 0 <= i <= |s|
      invariant out + Scan(s, i) == all
      decreases |s| - i
    {
      var found := Search(s, i);
      if found.None? {
        break;
      }
      var f := found.value;
      var r := SpanOf(f.numbers);
      if Accepted(r) {
        out := out + [r];
      }
      i := f.stop;
    }
  }

  /** The closed-interval test: a meeting that ends exactly when the window opens still counts. */
  predicate Touches(r: Span, w0: int, w1: int) {
    !(r.end < w0 || r.start > w1)
  }

  /** Some parsed meeting of `text` touches the window `[w0, w1]`. */
  predicate Overlaps(text: string, w0: int, w1: int) {
    exists k :: 0 <= k < |TimeRanges(text)| && Touches(TimeRanges(text)[k], w0, w1)
  }

  /**
   * `schedule_overlaps` (snu_sugang_2026_1_streamlit.py:139-149): true iff
   * some parsed meeting ends no earlier than the window opens and starts
   * no later than it closes; a text without any meeting gives false.
   */
  method ScheduleOverlaps(text: string, w0: int, w1: int) returns (b: bool)
    ensures b <==> exists k :: 0 <= k < |TimeRanges(text)| && TimeRanges(text)[k].end >= w0 && TimeRanges(text)[k].start <= w1
    ensures b == Overlaps(text, w0, w1)
    ensures TimeRanges(text) == [] ==> !b
  {
    var ranges := ParseTimeRanges(text);
    if ranges == [] {
      return false;
    }
    var i := 0;
    while i < |ranges|
      invariant 0 <= i <= |ranges|
      invariant forall k :: 0 <= k < i ==> !Touches(ranges[k], w0, w1)
    {
      if !(ranges[i].end < w0 || ranges[i].start > w1) {
        return true;
      }
      i := i + 1;
    }
    return false;
  }

  // ---------------------------------------------------------------------
  // Reading back what a timetable prints
  // ---------------------------------------------------------------------

  /** Two-digit zero-padded rendering, `f"{n:02d}"`. */
  function Pad2(n: nat): (r: string)
    requires n < 100
    ensures |r| == 2 && IsDigit(r[0]) && IsDigit(r[1]) && Value2(r[0], r[1]) == n
  {
    [DigitChar(n / 10), DigitChar(n % 10)]
  }

  /** `HH:MM` for a minute of the day (24:00 included). */
  function ClockText(m: nat): string
    requires m <= MinutesPerDay
  {
    Pad2(m / 60) + ":" + Pad2(m % 60)
  }

  /** One meeting written as `HH:MM<dash>HH:MM`. */
  function SpanText(r: Span, dash: char): string
    requires Accepted(r)
  {
    ClockText(r.start) + [dash] + ClockText(r.end)
  }

  /** Meetings written one after another, each followed by a blank. */
  function ScheduleText(rs: seq<Span>, dash: char): string
    requires forall k :: 0 <= k < |rs| ==> Accepted(rs[k])
  {
    if rs == [] then [] else SpanText(rs[0], dash) + " " + ScheduleText(rs[1..], dash)
  }

  /** A two-digit numeral read by a group of at most two digits. */
  lemma ReadNumber(u: string, at: nat, q: nat, k: nat, caps: seq<nat>)
    requires k < PatternLength && TokenAt(k).Number? && TokenAt(k).most == 2 && TokenAt(k).least <= 2
    requires at <= q && q + 2 <= |u| && (k > 0 ==> at < q)
    requires IsDigit(u[q]) && IsDigit(u[q + 1])
    requires |caps| == GroupsBefore(k)
    ensures Find(u, at, q, k, caps) == Find(u, at, q + 2, k + 1, caps + [Value2(u[q], u[q + 1])])
  {
    assert DigitRun(u, q, 2, 0) == Digits(q + 2, Value2(u[q], u[q + 1])) by {
      assert DigitRun(u, q + 2, 0, Value2(u[q], u[q + 1])) == Digits(q + 2, Value2(u[q], u[q + 1]));
    }
  }

  /** A literal character read where the pattern expects it. */
  lemma ReadChar(u: string, at: nat, q: nat, k: nat, caps: seq<nat>)
    requires at < q < |u|
    requires k < PatternLength && TokenAt(k) == Char(u[q])
    requires |caps| == GroupsBefore(k)
    ensures Find(u, at, q, k, caps) == Find(u, at, q + 1, k + 1, caps)
  {
    assert caps + [] == caps;
  }

  /** An empty run of blanks, right before a character that is not one. */
  lemma ReadNoBlanks(u: string, at: nat, q: nat, k: nat, caps: seq<nat>)
    requires at < q < |u| && !IsSpace(u[q])
    requires k < PatternLength && TokenAt(k) == Blanks
    requires |caps| == GroupsBefore(k)
    ensures Find(u, at, q, k, caps) == Find(u, at, q, k + 1, caps)
  {
    assert SkipSpaces(u, q) == q;
    assert caps + [] == caps;
  }

  /** The characters of a printed clock reading: two digits for the hours, ':', two digits for the minutes. */
  lemma ClockChars(u: string, q: nat, m: nat)
    requires m <= MinutesPerDay && q + 5 <= |u| && u[q..q + 5] == ClockText(m)
    ensures IsDigit(u[q]) && IsDigit(u[q + 1]) && Value2(u[q], u[q + 1]) == m / 60
    ensures u[q + 2] == ':'
    ensures IsDigit(u[q + 3]) && IsDigit(u[q + 4]) && Value2(u[q + 3], u[q + 4]) == m % 60
  {
    var h, n := Pad2(m / 60), Pad2(m % 60);
    assert u[q] == h[0] && u[q + 1] == h[1] && u[q + 2] == ':' && u[q + 3] == n[0] && u[q + 4] == n[1];
  }

  /** A printed clock reading is read as its hours and its minutes, wherever the pattern expects one. */
  lemma ReadClock(u: string, at: nat, q: nat, m: nat, k: nat, caps: seq<nat>)
    requires k == 0 || k == 6
    requires at <= q && q + 5 <= |u| && (k > 0 ==> at < q)
    requires |caps| == GroupsBefore(k)
    requires m <= MinutesPerDay && u[q..q + 5] == ClockText(m)
    ensures Find(u, at, q, k, caps) == Find(u, at, q + 5, k + 3, caps + [m / 60, m % 60])
  {
    ClockChars(u, q, m);
    assert TokenAt(k) == Number(1, 2) && TokenAt(k + 1) == Char(':') && TokenAt(k + 2) == Number(2, 2);
    assert GroupsBefore(k + 1) == GroupsBefore(k + 2) == GroupsBefore(k) + 1;
    ReadNumber(u, at, q, k, caps);
    ReadChar(u, at, q + 2, k + 1, caps + [m / 60]);
    ReadNumber(u, at, q + 3, k + 2, caps + [m / 60]);
    assert caps + [m / 60] + [m % 60] == caps + [m / 60, m % 60];
  }

  /** The numbers the pattern captures from a printed meeting. */
  function Captures(r: Span): (n: seq<nat>)
    requires Accepted(r)
    ensures |n| == 4 && SpanOf(n) == r
  {
    [r.start / 60, r.start % 60, r.end / 60, r.end % 60]
  }

  /** The blanks-dash-blanks separator, written as a bare '-' right before a digit. */
  lemma ReadDash(u: string, at: nat, q: nat, caps: seq<nat>)
    requires at < q && q + 1 < |u| && u[q] == '-' && IsDigit(u[q + 1])
    requires |caps| == GroupsBefore(3)
    ensures Find(u, at, q, 3, caps) == Find(u, at, q + 1, 6, caps)
  {
    ReadNoBlanks(u, at, q, 3, caps);
    ReadChar(u, at, q, 4, caps);
    ReadNoBlanks(u, at, q + 1, 5, caps);
  }

  /** The first clock reading and the separator of a printed meeting. */
  lemma SearchAtHead(u: string, q: nat, r: Span)
    requires Accepted(r) && q + 11 <= |u|
    requires u[q..q + 5] == ClockText(r.start) && u[q + 5] == '-' && IsDigit(u[q + 6])
    ensures Search(u, q) == Find(u, q, q + 6, 6, [r.start / 60, r.start % 60])
  {
    ReadClock(u, q, q, r.start, 0, []);
    assert [] + [r.start / 60, r.start % 60] == [r.start / 60, r.start % 60];
    ReadDash(u, q, q + 5, [r.start / 60, r.start % 60]);
  }

  /** Wherever the text holds a printed meeting, the search starting there finds it. */
  lemma SearchAt(u: string, q: nat, r: Span)
    requires Accepted(r) && q + 11 <= |u|
    requires u[q..q + 5] == ClockText(r.start) && u[q + 5] == '-' && u[q + 6..q + 11] == ClockText(r.end)
    ensures Search(u, q) == Some(Found(q, Captures(r), q + 11))
  {
    var a := [r.start / 60, r.start % 60];
    assert IsDigit(u[q + 6]) by {
      assert u[q + 6] == ClockText(r.end)[0];
    }
    SearchAtHead(u, q, r);
    ReadClock(u, q, q + 6, r.end, 6, a);
    assert a + [r.end / 60, r.end % 60] == Captures(r);
  }

  /** A printed meeting is found where it starts, whatever surrounds it. */
  lemma SearchSpan(p: string, r: Span, t: string)
    requires Accepted(r)
    ensures Search(p + SpanText(r, '-') + t, |p|) == Some(Found(|p|, Captures(r), |p| + 11))
  {
    var u := p + SpanText(r, '-') + t;
    var q := |p|;
    assert u[q..q + 5] == ClockText(r.start);
    assert u[q + 5] == '-';
    assert u[q + 6..q + 11] == ClockText(r.end);
    SearchAt(u, q, r);
  }

  /** No occurrence starts at a character that is not a digit. */
  lemma SearchPastNonDigit(s: string, i: nat)
    requires i < |s| && !IsDigit(s[i])
    ensures Search(s, i) == Search(s, i + 1)
  {
    assert DigitRun(s, i, 2, 0).end == i;
  }

  /** A stretch without digits holds no occurrence, so searching from its start or its end agrees. */
  lemma {:induction false} SearchSkip(s: string, i: nat, j: nat)
    requires i <= j <= |s|
    requires forall k :: i <= k < j ==> !IsDigit(s[k])
    ensures Search(s, i) == Search(s, j)
    decreases j - i
  {
    if i < j {
      SearchPastNonDigit(s, i);
      SearchSkip(s, i + 1, j);
    }
  }

  /** Nothing is found at the end of the text. */
  lemma ScanAtEnd(s: string)
    ensures Scan(s, |s|) == []
  {
    assert Step(s, |s|, TokenAt(0)) == None;
    assert Find(s, |s|, |s|, 0, []) == None;
  }

  /** A stretch without digits contributes no meeting and hides none that follows. */
  lemma ScanSkip(s: string, i: nat, j: nat)
    requires i <= j <= |s|
    requires forall k :: i <= k < j ==> !IsDigit(s[k])
    ensures Scan(s, i) == Scan(s, j)
  {
    SearchSkip(s, i, j);
  }

  /** Scanning a printed timetable gives back its meetings, in the order they were written. */
  lemma {:induction false} ScanRoundTrip(p: string, rs: seq<Span>)
    requires forall k :: 0 <= k < |rs| ==> Accepted(rs[k])
    ensures Scan(p + ScheduleText(rs, '-'), |p|) == rs
    decreases |rs|
  {
    var u := p + ScheduleText(rs, '-');
    if rs == [] {
      assert u == p;
    } else {
      var rest := ScheduleText(rs[1..], '-');
      var q := p + SpanText(rs[0], '-') + " ";
      assert |SpanText(rs[0], '-')| == 11;
      assert u == p + SpanText(rs[0], '-') + " " + rest;
      ScanSpanStep(p, rs[0], rest);
      assert u == q + rest;
      ScanRoundTrip(q, rs[1..]);
      assert rs == [rs[0]] + rs[1..];
    }
  }

  /** A printed meeting is reported where it starts, and the walk resumes right after it. */
  lemma ScanAtSpan(p: string, r: Span, t: string)
    requires Accepted(r)
    ensures Scan(p + SpanText(r, '-') + t, |p|) == [r] + Scan(p + SpanText(r, '-') + t, |p| + 11)
  {
    SearchSpan(p, r, t);
  }

  /** One printed meeting and its trailing blank are read as that meeting. */
  lemma ScanSpanStep(p: string, r: Span, rest: string)
    requires Accepted(r)
    ensures Scan(p + SpanText(r, '-') + " " + rest, |p|) == [r] + Scan(p + SpanText(r, '-') + " " + rest, |p| + 12)
  {
    var u := p + SpanText(r, '-') + " " + rest;
    assert u == p + SpanText(r, '-') + (" " + rest);
    ScanAtSpan(p, r, " " + rest);
    assert u[|p| + 11] == ' ';
    ScanSkip(u, |p| + 11, |p| + 12);
  }

  lemma {:induction false} NormalizeSchedule(rs: seq<Span>, dash: char)
    requires forall k :: 0 <= k < |rs| ==> Accepted(rs[k])
    requires IsDashVariant(dash) || dash == '-'
    ensures NormalizeDashes(ScheduleText(rs, dash)) == ScheduleText(rs, '-')
  {
    if rs != [] {
      NormalizeSchedule(rs[1..], dash);
      var a := SpanText(rs[0], dash);
      NormalizeAppend(a + " ", ScheduleText(rs[1..], dash));
      NormalizeAppend(a, " ");
      NormalizeSpan(rs[0], dash);
      assert NormalizeDashes(" ") == " ";
    }
  }

  lemma NormalizeSpan(r: Span, dash: char)
    requires Accepted(r)
    requires IsDashVariant(dash) || dash == '-'
    ensures NormalizeDashes(SpanText(r, dash)) == SpanText(r, '-')
  {
    var a, b := ClockText(r.start), ClockText(r.end);
    NormalizeAppend(a + [dash], b);
    NormalizeAppend(a, [dash]);
    NormalizeClock(r.start);
    NormalizeClock(r.end);
  }

  /** A printed clock reading holds no separator to rewrite. */
  lemma NormalizeClock(m: nat)
    requires m <= MinutesPerDay
    ensures NormalizeDashes(ClockText(m)) == ClockText(m)
  {
    var c := ClockText(m);
    assert forall i :: 0 <= i < |c| ==> IsDigit(c[i]) || c[i] == ':';
  }

  /**
   * `parse_time_ranges` reads back any timetable printed with '-', '~',
   * an EN DASH or an EM DASH between the two clock readings, pairs in
   * text order.
   */
  lemma TimeRangesRoundTrip(rs: seq<Span>, dash: char)
    requires forall k :: 0 <= k < |rs| ==> Accepted(rs[k])
    requires IsDashVariant(dash) || dash == '-'
    ensures TimeRanges(ScheduleText(rs, dash)) == rs
  {
    NormalizeSchedule(rs, dash);
    ScanRoundTrip([], rs);
    assert [] + ScheduleText(rs, '-') == ScheduleText(rs, '-');
  }

  // ---------------------------------------------------------------------
  // A timetable cell as the catalogue prints it
  // ---------------------------------------------------------------------

  /** Separator rewriting leaves text without digits without digits. */
  lemma NormalizeNoDigits(d: string)
    requires NoDigits(d)
    ensures NoDigits(NormalizeDashes(d)) && |NormalizeDashes(d)| == |d|
  {
  }

  /** A meeting that follows a stretch without digits is reported, and the walk resumes right after it. */
  lemma ScanPastLabel(u: string, i: nat, j: nat, r: Span, rest: seq<Span>)
    requires Accepted(r) && i <= j && j + 11 <= |u|
    requires forall k :: i <= k < j ==> !IsDigit(u[k])
    requires u[j..j + 11] == SpanText(r, '-')
    requires Scan(u, j + 11) == rest
    ensures Scan(u, i) == [r] + rest
  {
    ScanSkip(u, i, j);
    assert u[j..j + 5] == ClockText(r.start) && u[j + 5] == '-' && u[j + 6..j + 11] == ClockText(r.end) by {
      assert u[j..j + 11][..5] == u[j..j + 5] && u[j..j + 11][6..] == u[j + 6..j + 11];
    }
    SearchAt(u, j, r);
  }

  /** Two meetings, each after a day label and inside parentheses: `화(09:30~10:45) 목(09:30~10:45)` in shape. */
  function TwoDayCell(d1: string, r1: Span, d2: string, r2: Span, dash: char): string
    requires Accepted(r1) && Accepted(r2)
  {
    (d1 + "(") + SpanText(r1, dash) + (") " + d2 + "(") + SpanText(r2, dash) + ")"
  }

  lemma NormalizeTwoDayCell(d1: string, r1: Span, d2: string, r2: Span, dash: char)
    requires Accepted(r1) && Accepted(r2)
    requires IsDashVariant(dash) || dash == '-'
    ensures NormalizeDashes(TwoDayCell(d1, r1, d2, r2, dash)) == TwoDayCell(NormalizeDashes(d1), r1, NormalizeDashes(d2), r2, '-')
  {
    var a1, a2 := d1 + "(", ") " + d2 + "(";
    var s1, s2 := SpanText(r1, dash), SpanText(r2, dash);
    NormalizeAppend(a1 + s1 + a2 + s2, ")");
    NormalizeAppend(a1 + s1 + a2, s2);
    NormalizeAppend(a1 + s1, a2);
    NormalizeAppend(a1, s1);
    NormalizeAppend(d1, "(");
    NormalizeAppend(") " + d2, "(");
    NormalizeAppend(") ", d2);
    NormalizeSpan(r1, dash);
    NormalizeSpan(r2, dash);
    assert NormalizeDashes("(") == "(" && NormalizeDashes(")") == ")" && NormalizeDashes(") ") == ") ";
  }

  /** Where each of five joined parts sits, for two middle parts of eleven characters. */
  lemma Layout(a: string, s1: string, b: string, s2: string, c: string)
    requires |s1| == 11 && |s2| == 11
    ensures |a + s1 + b + s2 + c| == |a| + |b| + |c| + 22
    ensures forall k :: 0 <= k < |a| ==> (a + s1 + b + s2 + c)[k] == a[k]
    ensures (a + s1 + b + s2 + c)[|a|..|a| + 11] == s1
    ensures forall k :: |a| + 11 <= k < |a| + 11 + |b| ==> (a + s1 + b + s2 + c)[k] == b[k - |a| - 11]
    ensures (a + s1 + b + s2 + c)[|a| + 11 + |b|..|a| + |b| + 22] == s2
    ensures forall k :: |a| + |b| + 22 <= k < |a| + |b| + |c| + 22 ==> (a + s1 + b + s2 + c)[k] == c[k - |a| - |b| - 22]
  {
  }

  /** A stretch without digits reports nothing. */
  lemma ScanNoDigits(u: string, i: nat)
    requires i <= |u|
    requires forall k :: i <= k < |u| ==> !IsDigit(u[k])
    ensures Scan(u, i) == []
  {
    ScanSkip(u, i, |u|);
    ScanAtEnd(u);
  }

  /** Two printed meetings separated and surrounded by stretches without digits are read, in order. */
  lemma ScanTwoMeetings(u: string, i: nat, j: nat, r1: Span, r2: Span)
    requires Accepted(r1) && Accepted(r2) && i + 11 <= j && j + 11 <= |u|
    requires forall k :: 0 <= k < i ==> !IsDigit(u[k])
    requires u[i..i + 11] == SpanText(r1, '-')
    requires forall k :: i + 11 <= k < j ==> !IsDigit(u[k])
    requires u[j..j + 11] == SpanText(r2, '-')
    requires forall k :: j + 11 <= k < |u| ==> !IsDigit(u[k])
    ensures Scan(u, 0) == [r1, r2]
  {
    ScanLastMeeting(u, i + 11, j, r2);
    ScanPastLabel(u, 0, i, r1, [r2]);
  }

  /** One printed meeting between stretches without digits is read alone. */
  lemma ScanLastMeeting(u: string, i: nat, j: nat, r: Span)
    requires Accepted(r) && i <= j && j + 11 <= |u|
    requires forall k :: i <= k < j ==> !IsDigit(u[k])
    requires u[j..j + 11] == SpanText(r, '-')
    requires forall k :: j + 11 <= k < |u| ==> !IsDigit(u[k])
    ensures Scan(u, i) == [r]
  {
    ScanNoDigits(u, j + 11);
    ScanPastLabel(u, i, j, r, []);
    assert [r] + [] == [r];
  }

  /** The walk over a normalised two-meeting cell whose labels hold no digits. */
  lemma ScanTwoDay(d1: string, r1: Span, d2: string, r2: Span)
    requires NoDigits(d1) && NoDigits(d2) && Accepted(r1) && Accepted(r2)
    ensures Scan(TwoDayCell(d1, r1, d2, r2, '-'), 0) == [r1, r2]
  {
    var a, b, c := d1 + "(", ") " + d2 + "(", ")";
    var s1, s2 := SpanText(r1, '-'), SpanText(r2, '-');
    assert NoDigits(a) && NoDigits(b) && NoDigits(c);
    Layout(a, s1, b, s2, c);
    ScanTwoMeetings(a + s1 + b + s2 + c, |a|, |a| + 11 + |b|, r1, r2);
  }

  /**
   * A catalogue cell with two meetings yields both, in order, whatever
   * day labels (without digits) precede them and whichever separator the
   * meetings are written with.
   */
  lemma TwoDayCellRanges(d1: string, r1: Span, d2: string, r2: Span, dash: char)
    requires NoDigits(d1) && NoDigits(d2) && Accepted(r1) && Accepted(r2)
    requires IsDashVariant(dash) || dash == '-'
    ensures TimeRanges(TwoDayCell(d1, r1, d2, r2, dash)) == [r1, r2]
  {
    NormalizeTwoDayCell(d1, r1, d2, r2, dash);
    NormalizeNoDigits(d1);
    NormalizeNoDigits(d2);
    ScanTwoDay(NormalizeDashes(d1), r1, NormalizeDashes(d2), r2);
  }

  /** The Tuesday/Thursday 09:30-10:45 meeting. */
  const Morning := Span(570, 645)

  /**
   * A cell such as "화(09:30~10:45) 목(09:30~10:45)" meets the 09:00-10:00
   * window, does not meet 08:00-09:00, and meets 10:45-11:40 because
   * touching endpoints count.
   */
  lemma MorningOverlaps(d1: string, d2: string, dash: char)
    requires NoDigits(d1) && NoDigits(d2)
    requires IsDashVariant(dash) || dash == '-'
    ensures Overlaps(TwoDayCell(d1, Morning, d2, Morning, dash), 540, 600)
    ensures !Overlaps(TwoDayCell(d1, Morning, d2, Morning, dash), 480, 540)
    ensures Overlaps(TwoDayCell(d1, Morning, d2, Morning, dash), 645, 700)
  {
    TwoDayCellRanges(d1, Morning, d2, Morning, dash);
    var cell := TwoDayCell(d1, Morning, d2, Morning, dash);
    assert Touches(TimeRanges(cell)[0], 540, 600);
    assert Touches(TimeRanges(cell)[0], 645, 700);
  }
}
