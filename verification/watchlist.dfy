/**
 * The session state of the enrolment monitor (sugang.py:93-96, 118-126,
 * 140-147, 162-178): the registered sections `courses`, the queue
 * `pending` of sections waiting for their first fetch, and the last record
 * fetched for each registered section, `data`. One script run reacts to the
 * buttons (register, delete), then either fetches the head of the queue or,
 * when asked to, refreshes every registered section.
 */
module Watchlist {
  import opened Common
  import opened Monitor

  /** A (subject code, section) pair. */
  datatype Course = Course(subject: string, cls: string)

  /** A pair as registration leaves it: both parts stripped and non-blank. */
  predicate Proper(c: Course) {
    c.subject != [] && c.cls != [] && Trimmed(c.subject) && Trimmed(c.cls)
  }

  /** No pair occurs twice. */
  predicate Distinct(s: seq<Course>) {
    forall i, j :: 0 <= i < j < |s| ==> s[i] != s[j]
  }

  /** A record stored under a pair names that pair. */
  predicate Keyed(c: Course, r: Record) {
    r.subject == c.subject && r.cls == c.cls
  }

  /** What the register button reports: a warning, an "already registered" notice, or a queued pair. */
  datatype Registration = Blank | Duplicate | Queued

  /** Two lists together hold no pair twice exactly when each holds none twice and they share none. */
  lemma DistinctConcat(a: seq<Course>, b: seq<Course>)
    ensures Distinct(a + b) <==> Distinct(a) && Distinct(b) && forall x :: x in a ==> x !in b
  {
    var s := a + b;
    assert forall i :: 0 <= i < |a| ==> s[i] == a[i];
    assert forall i :: |a| <= i < |s| ==> s[i] == b[i - |a|];
    if Distinct(s) {
      assert Distinct(a);
      forall i, j | 0 <= i < j < |b|
        ensures b[i] != b[j]
      {
        assert s[|a| + i] != s[|a| + j];
      }
      forall i, j | 0 <= i < |a| && 0 <= j < |b|
        ensures a[i] != b[j]
      {
        assert s[i] != s[|a| + j];
      }
    }
    if Distinct(a) && Distinct(b) && forall x :: x in a ==> x !in b {
      forall i, j | 0 <= i < j < |s|
        ensures s[i] != s[j]
      {
        if j < |a| {
          assert s[i] == a[i] && s[j] == a[j];
        } else if |a| <= i {
          assert s[i] == b[i - |a|] && s[j] == b[j - |a|];
        } else {
          assert s[i] in a && s[j] in b;
        }
      }
    }
  }

  /**
   * The list comprehension that deletes a pair from `courses`
   * (sugang.py:146): every entry equal to `c` goes, the rest stay.
   */
  function Without(s: seq<Course>, c: Course): (r: seq<Course>)
    ensures forall x :: x in r <==> x in s && x != c
    ensures |r| <= |s|
  {
    if s == [] then []
    else
      var t := Without(s[1..], c);
      assert forall x :: x in s <==> x == s[0] || x in s[1..];
      if s[0] == c then t else [s[0]] + t
  }

  /** Deleting keeps the other entries in their order. */
  lemma {:induction false} WithoutKeepsOrder(s: seq<Course>, c: Course)
    ensures Subsequence(Without(s, c), s)
    decreases |s|
  {
    if s != [] {
      WithoutKeepsOrder(s[1..], c);
      if s[0] == c {
        SubsequenceTail(Without(s[1..], c), s);
      } else {
        assert ([s[0]] + Without(s[1..], c))[1..] == Without(s[1..], c);
      }
    }
  }

  /** Deleting from a list without repeats removes exactly one entry when the pair is there, none otherwise, and keeps it without repeats. */
  lemma {:induction false} WithoutDistinct(s: seq<Course>, c: Course)
    requires Distinct(s)
    ensures Distinct(Without(s, c))
    ensures |Without(s, c)| == if c in s then |s| - 1 else |s|
    decreases |s|
  {
    if s != [] {
      assert Distinct(s[1..]) by {
        assert forall i :: 0 <= i < |s| - 1 ==> s[1..][i] == s[i + 1];
      }
      WithoutDistinct(s[1..], c);
      assert s[0] !in s[1..] by {
        assert forall i :: 0 <= i < |s| - 1 ==> s[1..][i] == s[i + 1];
      }
      assert forall x :: x in s <==> x == s[0] || x in s[1..];
      if s[0] != c {
        var t := Without(s[1..], c);
        DistinctConcat([s[0]], t);
      }
    }
  }

  class Session {
    var courses: seq<Course>
    var pending: seq<Course>
    var data: map<Course, Record>

    /**
     * No pair is both registered and queued, or registered or queued twice;
     * `data` holds a record for exactly the registered pairs, each naming
     * its own pair; every pair is stripped and non-blank.
     */
    ghost predicate Valid()
      reads this
    {
      Distinct(courses + pending)
      && (forall c :: c in data <==> c in courses)
      && (forall c :: c in data ==> Keyed(c, data[c]))
      && (forall c :: c in courses + pending ==> Proper(c))
    }

    /** The state the first script run creates (sugang.py:94-96). */
    constructor ()
      ensures Valid()
      ensures courses == [] && pending == [] && data == map[]
    {
      courses, pending, data := [], [], map[];
    }

    /**
     * The register button (sugang.py:118-126): a pair that is blank after
     * stripping, or already registered or queued, is turned away;
     * otherwise exactly that pair joins the end of the queue.
     */
    method Register(subj: string, cls: string) returns (outcome: Registration)
      requires Valid()
      modifies this
      ensures Valid()
      ensures outcome == Blank <==> Strip(subj) == [] || Strip(cls) == []
      ensures outcome == Duplicate <==>
        Strip(subj) != [] && Strip(cls) != [] && Course(Strip(subj), Strip(cls)) in old(courses) + old(pending)
      ensures outcome == Queued ==> pending == old(pending) + [Course(Strip(subj), Strip(cls))]
      ensures outcome != Queued ==> pending == old(pending)
      ensures courses == old(courses) && data == old(data)
    {
      var s, c := Strip(subj), Strip(cls);
      if s == [] || c == [] {
        return Blank;
      }
      var k := Course(s, c);
      if k in courses || k in pending {
        return Duplicate;
      }
      DistinctConcat(courses, pending);
      DistinctConcat(pending, [k]);
      DistinctConcat(courses, pending + [k]);
      assert courses + (pending + [k]) == (courses + pending) + [k];
      pending := pending + [k];
      return Queued;
    }

    /**
     * The queue step after rendering (sugang.py:162-172): the head of the
     * queue is taken off and fetched. When `fetch` raises, the pair is
     * lost; a "row not found" error discards it; any other record is stored
     * and the pair is registered in the same step.
     */
    method ProcessNext(b: Browse)
      requires Valid() && pending != []
      modifies this
      ensures Valid()
      ensures pending == old(pending[1..])
      ensures var head := old(pending[0]);
        var d := Fetch(head.subject, head.cls, b);
        if d.Returned? && !RowMissing(d.record) then
          courses == old(courses) + [head] && data == old(data)[head := d.record]
        else
          courses == old(courses) && data == old(data)
    {
      var head := pending[0];
      DistinctConcat(courses, pending);
      DistinctConcat([head], pending[1..]);
      assert pending == [head] + pending[1..];
      pending := pending[1..];
      var d := Fetch(head.subject, head.cls, b);
      FetchNames(head.subject, head.cls, b);
      if d.Aborted? {
        DistinctConcat(courses, pending);
        return;
      }
      if RowMissing(d.record) {
        DistinctConcat(courses, pending);
        return;
      }
      DistinctConcat(courses, [head]);
      DistinctConcat(courses + [head], pending);
      data := data[head := d.record];
      courses := courses + [head];
    }

    /**
     * A full refresh (sugang.py:174-178): every registered pair is fetched
     * again, in order, and its record replaced. `outcomes[i]` is what the
     * browser does for the i-th pair. A `fetch` that raises ends the run
     * there, so `done` pairs were refreshed; the others keep their records.
     */
    method Refresh(outcomes: seq<Browse>) returns (done: nat)
      requires Valid() && |outcomes| == |courses|
      modifies this
      ensures Valid()
      ensures courses == old(courses) && pending == old(pending)
      ensures data.Keys == old(data).Keys
      ensures done <= |courses|
      ensures forall i :: 0 <= i < done ==>
        Fetch(courses[i].subject, courses[i].cls, outcomes[i]) == Returned(data[courses[i]])
      ensures done < |courses| ==> Fetch(courses[done].subject, courses[done].cls, outcomes[done]) == Aborted
      ensures forall i :: done <= i < |courses| ==> data[courses[i]] == old(data)[courses[i]]
    {
      DistinctConcat(courses, pending);
      var i := 0;
      while i < |courses|
        invariant i <= |courses|
        invariant courses == old(courses) && pending == old(pending)
        invariant Distinct(courses)
        invariant data.Keys == old(data).Keys
        invariant forall c :: c in data ==> Keyed(c, data[c])
        invariant forall j :: 0 <= j < i ==>
          Fetch(courses[j].subject, courses[j].cls, outcomes[j]) == Returned(data[courses[j]])
        invariant forall j :: i <= j < |courses| ==> data[courses[j]] == old(data)[courses[j]]
      {
        var k := courses[i];
        var d := Fetch(k.subject, k.cls, outcomes[i]);
        if d.Aborted? {
          return i;
        }
        FetchNames(k.subject, k.cls, outcomes[i]);
        assert forall j :: 0 <= j < |courses| && j != i ==> courses[j] != k;
        data := data[k := d.record];
        i := i + 1;
      }
      return i;
    }

    /**
     * The delete button of the card showing pair `c` (sugang.py:140-147):
     * every registered entry equal to `c` and its record go; the queue and
     * the other records stay.
     */
    method Delete(c: Course)
      requires Valid()
      modifies this
      ensures Valid()
      ensures courses == Without(old(courses), c)
      ensures pending == old(pending)
      ensures data == old(data) - {c}
    {
      DistinctConcat(courses, pending);
      WithoutDistinct(courses, c);
      courses := Without(courses, c);
      data := data - {c};
      DistinctConcat(courses, pending);
    }

    /**
     * What a script run does after rendering (sugang.py:162-178): a queued
     * pair is fetched first; only with an empty queue does the refresh
     * button (or auto-refresh) refresh everything.
     */
    method AfterRender(refresh: bool, head: Browse, outcomes: seq<Browse>) returns (done: nat)
      requires Valid() && |outcomes| == |courses|
      modifies this
      ensures Valid()
      ensures old(pending) != [] ==> pending == old(pending[1..])
      ensures old(pending) != [] ==>
        var c := old(pending[0]);
        var d := Fetch(c.subject, c.cls, head);
        if d.Returned? && !RowMissing(d.record) then
          courses == old(courses) + [c] && data == old(data)[c := d.record]
        else
          courses == old(courses) && data == old(data)
      ensures old(pending) == [] ==> pending == [] && courses == old(courses) && data.Keys == old(data).Keys
      ensures old(pending) == [] && !refresh ==> data == old(data) && done == 0
      ensures old(pending) == [] && refresh ==>
        && done <= |courses|
        && (forall i :: 0 <= i < done ==>
              Fetch(courses[i].subject, courses[i].cls, outcomes[i]) == Returned(data[courses[i]]))
        && (done < |courses| ==> Fetch(courses[done].subject, courses[done].cls, outcomes[done]) == Aborted)
        && (forall i :: done <= i < |courses| ==> data[courses[i]] == old(data)[courses[i]])
    {
      done := 0;
      if pending != [] {
        ProcessNext(head);
      } else if refresh {
        done := Refresh(outcomes);
      }
    }
  }
}
