# SNU course search and enrolment monitor — a Dafny model

This project models the logic of two Streamlit applications for Seoul
National University's course registration:

- `snu_sugang_2026_1_streamlit.py` is the course catalogue browser. It
  normalises the column headings of the downloaded course table and guesses
  which heading plays which role (name, code, section, department, professor,
  credits, language, campus, schedule, capacity, enrolled, remaining). It
  reads numbers out of messy cells (`safe_int`, `safe_float`), extracts
  meeting times from the schedule text (`parse_time_ranges`) and tests them
  against a time window (`schedule_overlaps`). It then applies the nine
  sidebar filters in order (`apply_filters`), adds the computed
  remaining-seats column (`enrich_seat_metrics`), and sorts the result with a
  stable merge sort (`sort_key`).
- `sugang.py` is the live enrolment monitor. It reads numbers from result
  cells (`_int`) and takes the quota from the capacity cell. It picks the row
  of the requested section out of the result table (`read_info`) and shapes
  the record or error (`fetch`). It keeps its session state in three parts:
  - `courses`, the registered (subject, section) pairs;
  - `pending`, the queue of pairs waiting for their first fetch;
  - `data`, the last record fetched for each registered pair.

  Registration, the queue step, the full refresh and deletion all change this
  state.

The project is split into modules:

- `Common`: whitespace and `str.strip()`, ASCII digits and `str(n)`,
  substring search, order-preserving subsequences.
- `Cells`: table cells and `safe_int`, `safe_float` and `contains_any`.
- `Schedule`: the time-range scanner and the overlap test.
- `Columns`: the positional table, `find_col`, `guess_columns` and
  `normalize_columns`.
- `Filters`: `apply_filters`.
- `Enrich`: `enrich_seat_metrics`.
- `Sorting`: `sort_key`.
- `Monitor`: `_int`, the quota, `read_info` and `fetch`.
- `Watchlist`: the session state, as a class.

A table is a list of headings plus rows of cells, positionally, so that
headings which coincide after stripping can still be represented. A cell is
one of three things:

- `Missing`: a missing cell of the file, pandas NaN, which `astype(str)` renders as "nan". It also stands for the None that `safe_int` leaves in the computed column, which the program never renders as text;
- `Text`;
- `Count`, an integer computed by the program.

The browser side of the monitor is a parameter. A search ends in a `Browse`
value: either the driver could not start, or an exception was raised inside
`fetch`'s `try`, or the result table's rows as cell texts are returned.

The functions are the specification. Where the source works by loops or step
by step, a method proves itself equal to them. These are `FindCol`,
`ParseTimeRanges`, `ScheduleOverlaps`, `KeywordMask`, `ApplyFilters`,
`EnrichSeatMetrics` and `ReadInfo`, plus the methods of `Watchlist.Session`.
Lemmas state what the source promises about the specification.

## Model

| member | source | states |
|---|---|---|
| Common.Strip | snu_sugang_2026_1_streamlit.py:80 | `str.strip()` leaves no whitespace at either end and never lengthens the text |
| Common.StripParts | snu_sugang_2026_1_streamlit.py:80 | the text is the stripped text with a whitespace-only prefix and suffix |
| Common.StripIdempotent | snu_sugang_2026_1_streamlit.py:80 | stripping twice equals stripping once |
| Common.StripEmpty | sugang.py:119-120 | a text strips to empty exactly when it is all whitespace |
| Common.NatToText | snu_sugang_2026_1_streamlit.py:87 | `str(n)` is a non-empty run of digits whose value is `n`, without a leading zero unless `n` is 0 |
| Common.Contains | snu_sugang_2026_1_streamlit.py:114-116 | `needle in text` holds exactly when the needle occurs at some position |
| Common.SubsequenceTrans | snu_sugang_2026_1_streamlit.py:257-313 | keeping a subsequence of a subsequence keeps a subsequence of the original |
| Cells.Residue | snu_sugang_2026_1_streamlit.py:90 | deleting the characters outside `[\d\-]` (or `[\d\.\-]`) leaves only kept characters and never lengthens the text |
| Cells.ParseInteger | snu_sugang_2026_1_streamlit.py:93-96 | `int(s)` on the residue succeeds exactly for digits or a dash followed by digits |
| Cells.ContainsAny | snu_sugang_2026_1_streamlit.py:114-116 | true exactly when one of the needles occurs in the text |
| Cells.ResidueAppend | snu_sugang_2026_1_streamlit.py:90 | deleting characters works piecewise on a concatenation |
| Cells.ResidueOfStrip | snu_sugang_2026_1_streamlit.py:86-90 | stripping first does not change the residue, because whitespace is deleted anyway |
| Cells.NullWordResidue | snu_sugang_2026_1_streamlit.py:87-88 | "nan" and "none" leave an empty residue, so the early exit agrees with the later rejection |
| Cells.SafeIntIsResidue | snu_sugang_2026_1_streamlit.py:84-96 | `safe_int` of a text is `int` of its residue, with the blank and "nan"/"none" exits subsumed |
| Cells.SafeFloatIsResidue | snu_sugang_2026_1_streamlit.py:99-111 | `safe_float` of a text is `float` of its residue |
| Cells.ShortResiduesRejected | snu_sugang_2026_1_streamlit.py:105-106 | the residues "", "-", "." and "-." are not numbers |
| Cells.IntToTextKept | snu_sugang_2026_1_streamlit.py:87-96 | `str(n)` survives the deletion and reads back as `n` |
| Cells.SafeIntAmidNoise | snu_sugang_2026_1_streamlit.py:84-96 | a number written among characters outside `[\d\-]` reads back as that number |
| Cells.SafeIntOfCount | snu_sugang_2026_1_streamlit.py:84-96 | `safe_int` of a computed integer is that integer |
| Cells.SafeFloatAgreesWithSafeInt | snu_sugang_2026_1_streamlit.py:84-111 | on a text without '.', `safe_float` is `safe_int` read as a real |
| Cells.SafeIntExample | snu_sugang_2026_1_streamlit.py:84-96 | "1,234 석" reads as 1234 |
| Cells.SafeIntDropsDot | snu_sugang_2026_1_streamlit.py:90 | '.' is deleted by `safe_int`, so "3.5" reads as 35 |
| Cells.SafeIntRejects | snu_sugang_2026_1_streamlit.py:93-96 | "1-2" is rejected |
| Cells.SafeFloatExample | snu_sugang_2026_1_streamlit.py:99-111 | "3.0" reads as 3 |
| Cells.SafeFloatNoDigits | snu_sugang_2026_1_streamlit.py:84-111 | a cell without digits reads as None under both `safe_int` and `safe_float`, whatever symbols, dashes or dots it holds |
| Schedule.NormalizeAppend | snu_sugang_2026_1_streamlit.py:127 | the dash normalisation works piecewise on a concatenation |
| Schedule.ScanAccepted | snu_sugang_2026_1_streamlit.py:132-135 | every range the scanner keeps starts within the day, ends by 24:00 and ends after it starts |
| Schedule.ParseTimeRanges | snu_sugang_2026_1_streamlit.py:119-136 | the loop over the matches returns the ranges of the match-by-match specification |
| Schedule.ScheduleOverlaps | snu_sugang_2026_1_streamlit.py:139-150 | true exactly when some parsed range ends at or after the window start and starts at or before the window end; false with no ranges |
| Schedule.SearchSkip | snu_sugang_2026_1_streamlit.py:128-129 | the search for the next match passes over characters that are not digits |
| Schedule.ScanRoundTrip | snu_sugang_2026_1_streamlit.py:128-135 | scanning "HH:MM-HH:MM" ranges written one after another, separated by spaces, gives back exactly those ranges |
| Schedule.NormalizeSchedule | snu_sugang_2026_1_streamlit.py:127 | ranges written with '~', en dash or em dash normalise to the '-' form |
| Schedule.TimeRangesRoundTrip | snu_sugang_2026_1_streamlit.py:119-136 | `parse_time_ranges` of accepted ranges, written with any of the four dashes, returns exactly those ranges |
| Schedule.NormalizeTwoDayCell | snu_sugang_2026_1_streamlit.py:127 | dash normalisation of a two-meeting catalogue cell touches only the dashes |
| Schedule.ScanLastMeeting | snu_sugang_2026_1_streamlit.py:128-135 | one well-formed range between digit-free stretches scans to exactly that range |
| Schedule.ScanTwoMeetings | snu_sugang_2026_1_streamlit.py:128-135 | two well-formed ranges separated by digit-free text scan to exactly those two ranges |
| Schedule.TwoDayCellRanges | snu_sugang_2026_1_streamlit.py:119-136 | a cell such as "월(09:30-10:45) 수(09:30-10:45)" with any dash yields its two ranges |
| Schedule.MorningOverlaps | snu_sugang_2026_1_streamlit.py:139-150 | a 09:30-10:45 class overlaps 09:00-10:00 and touches 10:45-11:40 at its end, but not 08:00-09:00 |
| Columns.IndexOf | snu_sugang_2026_1_streamlit.py:271 | a heading's position is its first occurrence |
| Columns.IndexOfAppend | snu_sugang_2026_1_streamlit.py:327-335 | adding a column keeps every existing heading's position and puts the new heading last |
| Columns.AddColumn | snu_sugang_2026_1_streamlit.py:329-335 | assigning a new column appends its heading and keeps the row count |
| Columns.FirstPresent | snu_sugang_2026_1_streamlit.py:67-75 | None exactly when no candidate is a heading; otherwise a candidate that is a heading, with none before it |
| Columns.FindCol | snu_sugang_2026_1_streamlit.py:67-75 | the loop with early return finds the first candidate among the headings |
| Columns.FirstPresentIsFirst | snu_sugang_2026_1_streamlit.py:72-74 | the first candidate that is a heading is the one returned |
| Columns.FirstPresentBySet | snu_sugang_2026_1_streamlit.py:71 | only the set of headings matters, not their order or repeats |
| Columns.GuessColumnsFound | snu_sugang_2026_1_streamlit.py:169-188 | every role guessed is a heading of the table and one of that role's labels |
| Columns.GuessPrefersEarlierLabel | snu_sugang_2026_1_streamlit.py:175 | with "교과목명" present, it is the course-name column, whatever else is present |
| Columns.GuessColumnsBySet | snu_sugang_2026_1_streamlit.py:169-188 | the guess depends only on the set of headings |
| Columns.NormalizeColumns | snu_sugang_2026_1_streamlit.py:78-81 | headings come out stripped, in the same number; the rows are untouched |
| Columns.NormalizeColumnsIdempotent | snu_sugang_2026_1_streamlit.py:78-81 | normalising twice equals normalising once |
| Columns.NormalizeFindsPaddedLabel | snu_sugang_2026_1_streamlit.py:78-81 | a heading with surrounding spaces is found by its bare label after normalising |
| Filters.AnyHit | snu_sugang_2026_1_streamlit.py:264-266 | the or-ed mask holds exactly when some searched column contains the keyword, ignoring case |
| Filters.MappedLabels | snu_sugang_2026_1_streamlit.py:262 | the searched columns are the mapped roles, never more of them |
| Filters.MappedLabelsMembers | snu_sugang_2026_1_streamlit.py:262 | a heading is searched exactly when one of the six roles maps to it |
| Filters.KeywordMask | snu_sugang_2026_1_streamlit.py:264-266 | the loop over the searched columns builds, row by row, the or of their matches |
| Filters.ApplyFilters | snu_sugang_2026_1_streamlit.py:244-313 | the headings are unchanged; the rows are the nine filter stages applied in the source's order |
| Filters.MaskedSubsequence | snu_sugang_2026_1_streamlit.py:267 | boolean indexing keeps a subsequence of the rows in their order |
| Filters.MaskedMembers | snu_sugang_2026_1_streamlit.py:267 | a row survives boolean indexing exactly when some position holding it is true in the mask |
| Filters.MaskedKeepsAll | snu_sugang_2026_1_streamlit.py:267 | boolean indexing returns every row exactly when the mask is all true |
| Filters.StageMembers | snu_sugang_2026_1_streamlit.py:269-311 | a row survives a stage exactly when it was present and passes that stage, or the stage does not apply |
| Filters.StageSubsequence | snu_sugang_2026_1_streamlit.py:269-311 | each stage keeps rows in their order |
| Filters.StageKeepsAll | snu_sugang_2026_1_streamlit.py:269-311 | a stage returns all rows exactly when every row passes it |
| Filters.FilteredSubsequence | snu_sugang_2026_1_streamlit.py:244-313 | the filtered table keeps a subsequence of the rows, in their order |
| Filters.FilteredMembers | snu_sugang_2026_1_streamlit.py:244-313 | a row is in the result exactly when it was in the table and passes every applicable filter |
| Filters.NothingChosen | snu_sugang_2026_1_streamlit.py:244-313 | with no keyword, no selections and no switches on, every row is kept |
| Filters.KeywordRule | snu_sugang_2026_1_streamlit.py:259-267 | a blank keyword or no searchable column keeps everything; otherwise a row is kept exactly when a searched column contains the stripped keyword, ignoring case |
| Filters.SeatsRule | snu_sugang_2026_1_streamlit.py:292-302 | with a remaining column, keep rows whose `safe_int` (missing as 0) is positive; else, with capacity and enrolled, keep rows where capacity minus enrolled (missing as 0) is positive; otherwise keep all |
| Enrich.RemainingColumn | snu_sugang_2026_1_streamlit.py:327-335 | the computed column has one cell per row |
| Enrich.EnrichSeatMetrics | snu_sugang_2026_1_streamlit.py:316-335 | the result has the same rows and always a "잔여석(계산)" column |
| Enrich.EnrichIdempotent | snu_sugang_2026_1_streamlit.py:327 | enriching twice equals enriching once |
| Enrich.EnrichShape | snu_sugang_2026_1_streamlit.py:320-335 | the row count and the existing headings and cells are unchanged; at most one column is added, and only when it was absent |
| Enrich.EnrichLookup | snu_sugang_2026_1_streamlit.py:327-335 | existing columns read as before; the new column holds `safe_int` of remaining, else capacity minus enrolled with missing as 0, else nothing |
| Enrich.SeatsFilterAgrees | snu_sugang_2026_1_streamlit.py:292-302 | the seats filter keeps a row exactly when the computed remaining seats would be a positive count |
| Sorting.AheadIrreflexive | snu_sugang_2026_1_streamlit.py:491-516 | no key sorts before itself |
| Sorting.AheadTransitive | snu_sugang_2026_1_streamlit.py:491-516 | the sort order on keys is transitive |
| Sorting.AheadTotal | snu_sugang_2026_1_streamlit.py:491-516 | of two different keys one sorts first |
| Sorting.NotAheadTransitive | snu_sugang_2026_1_streamlit.py:491-516 | "not after" is transitive, which is what stability needs |
| Sorting.AheadAsymmetric | snu_sugang_2026_1_streamlit.py:491-516 | two keys never sort before each other |
| Sorting.InsertPermutes | snu_sugang_2026_1_streamlit.py:494 | inserting a row adds exactly that row |
| Sorting.InsertSorted | snu_sugang_2026_1_streamlit.py:494 | inserting into a sorted list keeps it sorted |
| Sorting.SortSorted | snu_sugang_2026_1_streamlit.py:494 | sorting yields rows in key order |
| Sorting.SortPermutes | snu_sugang_2026_1_streamlit.py:494 | sorting is a permutation of the rows |
| Sorting.SortStable | snu_sugang_2026_1_streamlit.py:494 | rows with equal keys keep their original order, as the merge sort guarantees |
| Sorting.SortedShape | snu_sugang_2026_1_streamlit.py:498-512 | missing values come last, and numbers are descending or ascending as requested |
| Sorting.DropHeading | snu_sugang_2026_1_streamlit.py:511 | the headings left are exactly the old ones other than the dropped one (so `_credits_num` is gone), and no more of them |
| Sorting.DropHeadingKeepsOrder | snu_sugang_2026_1_streamlit.py:511 | the headings left keep their order: they are a subsequence of the old ones |
| Sorting.DropHeadingAbsent | snu_sugang_2026_1_streamlit.py:511 | dropping an absent heading changes nothing |
| Sorting.SortKeySpec | snu_sugang_2026_1_streamlit.py:491-516 | an unavailable choice returns the table; otherwise the result has the same headings and a permutation of the rows, sorted and stable; sorting by credits leaves no scratch column |
| Monitor.DropCommas | sugang.py:36 | deleting commas never lengthens the text |
| Monitor.DropCommasAppend | sugang.py:36 | deleting commas works piecewise |
| Monitor.IntOfNumber | sugang.py:35-37 | `str(n)` after digit-free text reads back as `n` when what follows it, once commas are gone, does not start with a digit; later numbers are ignored |
| Monitor.IntOfFirstNumber | sugang.py:35-37 | only the first number counts: `str(a)`, a space and any further text, numbers included, read as `a` |
| Monitor.IntOfNoDigits | sugang.py:37 | a text without a digit reads as 0 |
| Monitor.IntOfThousands | sugang.py:36-37 | two digit runs joined by a comma read as one number, whatever follows that does not continue the run |
| Monitor.FirstRun | sugang.py:37 | the first maximal run of digits is the one found, whatever digits come after its end |
| Monitor.ParenNumber | sugang.py:58 | None exactly when no "(digits)" occurs in the text |
| Monitor.QuotaWithoutParens | sugang.py:57-59 | without "(digits)" the quota is `_int` of the cell |
| Monitor.QuotaParenthesised | sugang.py:57-59 | with "(n)" after text in which every '(' is followed by a non-digit, the quota is `n`, whatever numbers precede it |
| Monitor.FirstParen | sugang.py:58 | the first "(digits)" wins, whatever '(' that start no match precede it |
| Monitor.AnyCellIs | sugang.py:56 | true exactly when some cell, stripped, equals the section number |
| Monitor.FirstCandidate | sugang.py:54-56 | the position of the first row with more than 14 cells and the section number, no accepted row before it |
| Monitor.Lookup | sugang.py:53-64 | None exactly when no row is accepted |
| Monitor.LookupFirst | sugang.py:53-63 | the first accepted row is the one read, whatever rows follow |
| Monitor.ReadInfo | sugang.py:51-64 | the loop with early return reads the first accepted row, or None |
| Monitor.FetchListing | sugang.py:66-77 | on a result table the record names the requested pair, and it is the "행을 찾지 못했습니다." error exactly when no row is accepted |
| Monitor.FetchFirstRow | sugang.py:66-77 | otherwise the record carries the first accepted row's quota, current count, title and professor, with ratio `current/quota`, or 0 when the quota is 0 |
| Monitor.FetchNames | sugang.py:66-77 | `fetch` returns exactly when the driver starts, and the record always names the requested pair |
| Monitor.NotFoundIsRowMissing | sugang.py:165 | the not-found record passes the discard test |
| Watchlist.DistinctConcat | sugang.py:122 | two lists together hold no pair twice exactly when each holds none twice and they share none |
| Watchlist.Without | sugang.py:146 | the comprehension keeps exactly the entries different from the deleted pair |
| Watchlist.WithoutKeepsOrder | sugang.py:146 | deletion keeps the other entries in order |
| Watchlist.WithoutDistinct | sugang.py:146 | deleting from a repeat-free list removes one entry if present, none otherwise, and leaves no repeats |
| Watchlist.Session.constructor | sugang.py:94-96 | the session starts empty and valid |
| Watchlist.Session.Register | sugang.py:118-126 | blank pairs and pairs already registered or queued are turned away; otherwise exactly the stripped pair joins the end of the queue; courses and data are unchanged; no pair ever occurs twice |
| Watchlist.Session.ProcessNext | sugang.py:162-172 | the head leaves the queue; a raising fetch or a not-found error drops it; any other record is stored and the pair registered together, keeping data keys equal to the registered pairs |
| Watchlist.Session.Refresh | sugang.py:174-178 | registered pairs are re-fetched in order until a fetch raises; courses, queue and data keys never change; the rest keep their records |
| Watchlist.Session.Delete | sugang.py:145-147 | every entry of the pair and its record go; the queue and the other records stay |
| Watchlist.Session.AfterRender | sugang.py:162-178 | a queued pair is processed first, with `ProcessNext`'s outcome (kept with its record exactly when `fetch` returns a record that is not a failure to find the row); only with an empty queue does a refresh happen, with `Refresh`'s outcome (the first `done` courses get their fetched records, the run stops at the first abort, the rest keep their records), and it leaves courses and the queue alone; without a refresh nothing changes |

## Left out

- HTTP download and its cache (`fetch_courses`), Excel and HTML parsing (`parse_excel_bytes`), the xlsx and CSV exports (`to_xlsx_bytes`), and the payload building (`payload_str_to_dict`). These are network and library I/O. A table is taken as given.
- All Streamlit widgets, `bar`, `render`, the summary metrics, auto-refresh intervals and `rerun`. They are UI only; `rerun` after a delete is not modelled, so one delete is one call.
- The Selenium `driver`, `open_search` and the `WebDriverWait` timing. A search ends in a `Browse` value: the driver fails to start, an exception with its message, or the displayed rows as cell texts. The code does not paginate, and only the displayed rows are matched.
- The competition-ratio column of `enrich_seat_metrics` (`경쟁률(계산)`) and the monitor's display sort by ratio. Both are floating-point division. Sorting by that column is modelled only as "sort if the column is present", over whatever cells it holds.
- Cells.SafeFloat: `float(...)` is read as an exact decimal, without binary rounding, infinities or exponents. The residue never holds 'e', so exponents cannot arise.
- Monitor.FetchFirstRow: the ratio is an exact quotient, not a float.
- Cells.SafeIntText, Enrich.RemainingCell, Filters.SeatsLeft: integers are unbounded. Python's `int()` refuses a digit string longer than 4300 digits, and `safe_int` then returns None; the model reads it. The computed remaining seats (`.astype(int)`) are 64-bit, and the seats filter subtracts float64 values when a cell is missing; the model subtracts exactly.
- Filters.ApplyFilters: when the table is already empty at an enabled English, day or time stage, pandas' `apply` yields a mask that is not boolean, `out[mask]` selects columns instead of rows, and the headings are lost, so a later stage or `enrich_seat_metrics` raises a KeyError. The model keeps the headings and does not fail.
- Regex `\d` and `str.lower()` are modelled on ASCII. Unicode decimal digits outside ASCII and non-ASCII case folding are not modelled.
- Sorting.SortKeySpec: a column mixing numbers and text, on which pandas raises a type error, gets a fixed order (numbers before text) instead of an error. Pandas' storage of a partly missing integer column as floats is not modelled.
- Sorting.Sort: the merge sort is modelled by a stable insertion sort, which yields the same output because a stable sort's result is unique.
- Columns.Get: a heading that occurs twice after normalising is read at its first position. Pandas would return a frame for such a heading.
- Watchlist.Session.Delete: taken by pair. The button passes the pair named by the record shown, which `Valid` ties to the record's key.
- `headless` and the headless checkbox are not modelled: they only choose how the browser runs.
