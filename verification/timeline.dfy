/** The timeline operations of checkAnswer and of the initial sort: the slot
    verdict, the insertion by `findIndex` and `splice`, and the stable sort by
    year. */
module Timeline {
  import opened Events

  /** `findIndex(e => e.year > target)`: the first index whose year is strictly
      later than `target`, or -1 when there is none. */
  function FindLater(d: seq<Event>, target: int): (k: int)
    ensures -1 <= k < |d|
    ensures k == -1 ==> forall i | 0 <= i < |d| :: d[i].year <= target
    ensures 0 <= k ==> target < d[k].year && forall i | 0 <= i < k :: d[i].year <= target
  {
    if |d| == 0 then -1
    else if target < d[0].year then 0
    else
      var k := FindLater(d[1..], target);
      if k == -1 then -1 else k + 1
  }

  /** Where `splice(start, 0, x)` inserts into an array of length `len`: a
      negative start counts back from the end, and the index is clamped to
      0..len. */
  function SpliceStart(len: nat, start: int): (a: nat)
    ensures a <= len
  {
    if start < 0 then (if len + start < 0 then 0 else len + start)
    else if start < len then start
    else len
  }

  /** `d` with `x` inserted at index `a`. */
  function InsertAt(d: seq<Event>, a: nat, x: Event): (r: seq<Event>)
    requires a <= |d|
    ensures |r| == |d| + 1 && r[a] == x
  {
    d[..a] + [x] + d[a..]
  }

  /** The insertion adds one occurrence of `x` and no other event. */
  lemma InsertAtCounts(d: seq<Event>, a: nat, x: Event)
    requires a <= |d|
    ensures multiset(InsertAt(d, a, x)) == multiset(d) + multiset{x}
  {
    assert d == d[..a] + d[a..];
  }

  /** Removing the inserted event gives back `d`: every other event keeps its
      relative order. */
  lemma InsertAtKeepsOthers(d: seq<Event>, a: nat, x: Event)
    requires a <= |d|
    ensures var r := InsertAt(d, a, x); r[..a] + r[a + 1..] == d
  {
    var r := InsertAt(d, a, x);
    assert r[..a] == d[..a] && r[a + 1..] == d[a..];
  }

  /** The insertion of checkAnswer as written: `splice(findIndex(e =>
      e.year > x.year), 0, x)`. */
  function InsertAsWritten(d: seq<Event>, x: Event): seq<Event>
  {
    InsertAt(d, SpliceStart(|d|, FindLater(d, x.year)), x)
  }

  /** The evidently intended insertion: before the first strictly later event,
      or at the end when there is none. */
  function InsertSorted(d: seq<Event>, x: Event): seq<Event>
  {
    var k := FindLater(d, x.year);
    InsertAt(d, if k == -1 then |d| else k, x)
  }

  /** Both insertions, given the index `k` of the first strictly later event
      (|d| when there is none): the intended one inserts at `k`; the one as
      written also does, except that with no later event in a non-empty
      timeline it inserts one place earlier, before the last event. */
  lemma InsertionIndex(d: seq<Event>, x: Event, k: nat)
    requires k <= |d|
    requires forall i | 0 <= i < k :: d[i].year <= x.year
    requires k < |d| ==> x.year < d[k].year
    ensures InsertSorted(d, x) == InsertAt(d, k, x)
    ensures InsertAsWritten(d, x) == InsertAt(d, if k == |d| && 0 < k then k - 1 else k, x)
  {
    var f := FindLater(d, x.year);
    if k < |d| {
      assert f == k;
    } else {
      assert f == -1;
    }
  }

  lemma InsertAtIndex(d: seq<Event>, k: nat, x: Event, i: nat)
    requires k <= |d| && i <= |d|
    ensures InsertAt(d, k, x)[i] == if i < k then d[i] else if i == k then x else d[i - 1]
  {
    var r := InsertAt(d, k, x);
    assert r == d[..k] + [x] + d[k..];
    if i > k {
      assert r[i] == d[k..][i - k - 1];
    }
  }

  /** Inserting into a sorted timeline keeps it sorted exactly when the
      neighbours of the new event bracket its year. */
  lemma InsertAtSorted(d: seq<Event>, x: Event, k: nat)
    requires SortedByYear(d) && k <= |d|
    ensures SortedByYear(InsertAt(d, k, x)) <==>
      (0 < k ==> d[k - 1].year <= x.year) && (k < |d| ==> x.year <= d[k].year)
  {
    var r := InsertAt(d, k, x);
    InsertAtIndex(d, k, x, k);
    if 0 < k {
      InsertAtIndex(d, k, x, k - 1);
    }
    if k < |d| {
      InsertAtIndex(d, k, x, k + 1);
    }
    if (0 < k ==> d[k - 1].year <= x.year) && (k < |d| ==> x.year <= d[k].year) {
      forall i, j | 0 <= i < j < |r| ensures r[i].year <= r[j].year {
        InsertAtIndex(d, k, x, i);
        InsertAtIndex(d, k, x, j);
        if j == k {
          assert d[i].year <= d[k - 1].year;
        } else if i == k {
          assert d[k].year <= d[j - 1].year;
        }
      }
    }
  }

  /** The intended insertion keeps a sorted timeline sorted. */
  lemma InsertSortedKeepsOrder(d: seq<Event>, x: Event)
    requires SortedByYear(d)
    ensures SortedByYear(InsertSorted(d, x))
  {
    var f := FindLater(d, x.year);
    InsertAtSorted(d, x, if f == -1 then |d| else f);
  }

  /** The insertion as written keeps a sorted timeline sorted exactly when the
      new event is not later than the last one. */
  lemma InsertAsWrittenOrder(d: seq<Event>, x: Event)
    requires SortedByYear(d)
    ensures SortedByYear(InsertAsWritten(d, x)) <==> (|d| == 0 || x.year <= d[|d| - 1].year)
  {
    var f := FindLater(d, x.year);
    InsertAtSorted(d, x, SpliceStart(|d|, f));
    if f == -1 && 0 < |d| {
      assert d[|d| - 1].year <= x.year;
    }
  }

  /** The verdict of checkAnswer on slot `p`: slot 0 is before the first event,
      slot |d| after the last, slot p in between events p-1 and p. */
  function Verdict(d: seq<Event>, target: int, p: nat): bool
    requires 0 < |d| && p <= |d|
  {
    if p == 0 then target <= d[0].year
    else if p == |d| then target >= d[|d| - 1].year
    else d[p - 1].year <= target <= d[p].year
  }

  /** On a sorted timeline the verdict on slot `p` is right exactly when placing
      the event in that slot keeps the timeline sorted. */
  lemma VerdictMeansInOrder(d: seq<Event>, x: Event, p: nat)
    requires SortedByYear(d) && 0 < |d| && p <= |d|
    ensures Verdict(d, x.year, p) <==> SortedByYear(InsertAt(d, p, x))
  {
    InsertAtSorted(d, x, p);
  }

  /** An event earlier than the whole of a sorted timeline has slot 0 as its
      only right answer, and it is inserted at the front. */
  lemma EarlyEventGoesFirst(d: seq<Event>, x: Event, p: nat)
    requires SortedByYear(d) && 0 < |d| && p <= |d|
    requires x.year < d[0].year
    ensures Verdict(d, x.year, p) <==> p == 0
    ensures InsertAsWritten(d, x) == [x] + d
  {
    InsertionIndex(d, x, 0);
    if 0 < p {
      assert d[0].year <= d[p - 1].year;
    }
  }

  /** A timeline 1914, 1917, 1929, 1939 and the 1945 event: the last slot is
      judged right, but the event is inserted before 1939, which leaves the
      timeline out of order; the intended insertion appends it. */
  lemma LateEventScenario()
    ensures var d := EVENTS_DATA[..4];
      && Verdict(d, EVENTS_DATA[4].year, 4)
      && InsertAsWritten(d, EVENTS_DATA[4]) == d[..3] + [EVENTS_DATA[4], EVENTS_DATA[3]]
      && !SortedByYear(InsertAsWritten(d, EVENTS_DATA[4]))
      && InsertSorted(d, EVENTS_DATA[4]) == d + [EVENTS_DATA[4]]
  {
    var d := EVENTS_DATA[..4];
    var x := EVENTS_DATA[4];
    InsertionIndex(d, x, 4);
    var r := InsertAsWritten(d, x);
    assert r[3] == x && r[4] == d[3];
  }

  /** A second submit of the same event in one round inserts it twice. */
  lemma SecondSubmitDuplicates(d: seq<Event>, x: Event)
    ensures multiset(InsertAsWritten(InsertAsWritten(d, x), x))[x] == multiset(d)[x] + 2
    ensures !DistinctIds(InsertAsWritten(InsertAsWritten(d, x), x))
  {
    var r1 := InsertAsWritten(d, x);
    var a1 := SpliceStart(|d|, FindLater(d, x.year));
    var a2 := SpliceStart(|r1|, FindLater(r1, x.year));
    var r2 := InsertAsWritten(r1, x);
    InsertAtCounts(d, a1, x);
    InsertAtCounts(r1, a2, x);
    InsertAtKeepsOthers(r1, a2, x);
    assert r2[a2] == x;
    var old1 := if a1 < a2 then a1 else a1 + 1;
    assert r1[a1] == x;
    if a1 < a2 {
      assert r2[a1] == (r2[..a2] + r2[a2 + 1..])[a1];
    } else {
      assert r2[a1 + 1] == (r2[..a2] + r2[a2 + 1..])[a1];
    }
    assert r2[old1] == x && old1 != a2;
  }

  /** The stable sort by year that `sort((a, b) => a.year - b.year)` performs,
      written as insertion of each event after the earlier ones. */
  function SortByYear(s: seq<Event>): (r: seq<Event>)
    ensures |r| == |s| && SortedByYear(r)
    decreases |s|
  {
    if |s| == 0 then []
    else
      var rest := SortByYear(s[..|s| - 1]);
      var x := s[|s| - 1];
      var r := InsertSorted(rest, x);
      assert SortedByYear(r) by {
        InsertSortedKeepsOrder(rest, x);
      }
      r
  }

  /** The sort rearranges its input: it loses and duplicates nothing. */
  lemma {:induction false} SortByYearPermutes(s: seq<Event>)
    ensures multiset(SortByYear(s)) == multiset(s)
  {
    if |s| > 0 {
      var p, x := s[..|s| - 1], s[|s| - 1];
      var rest := SortByYear(p);
      var k := FindLater(rest, x.year);
      assert SortByYear(s) == InsertAt(rest, if k == -1 then |rest| else k, x);
      SortByYearPermutes(p);
      InsertAtCounts(rest, if k == -1 then |rest| else k, x);
      assert s == p + [x];
    }
  }

  /** The events of year `y` in `s`, in order. */
  function OfYear(s: seq<Event>, y: int): seq<Event>
  {
    if |s| == 0 then []
    else (if s[0].year == y then [s[0]] else []) + OfYear(s[1..], y)
  }

  lemma {:induction false} OfYearAppend(a: seq<Event>, b: seq<Event>, y: int)
    ensures OfYear(a + b, y) == OfYear(a, y) + OfYear(b, y)
  {
    if |a| > 0 {
      assert (a + b)[1..] == a[1..] + b;
      OfYearAppend(a[1..], b, y);
    } else {
      assert a + b == b;
    }
  }

  lemma {:induction false} OfYearNone(s: seq<Event>, y: int)
    requires forall i | 0 <= i < |s| :: s[i].year != y
    ensures OfYear(s, y) == []
  {
    if |s| > 0 {
      OfYearNone(s[1..], y);
    }
  }

  /** Selecting the events of one year splits at any index `k`, and an
      insertion at `k` adds the inserted event, if it is of that year, between
      the two halves. */
  lemma OfYearInsertAt(d: seq<Event>, k: nat, x: Event, y: int)
    requires k <= |d|
    ensures OfYear(d, y) == OfYear(d[..k], y) + OfYear(d[k..], y)
    ensures OfYear(InsertAt(d, k, x), y)
      == OfYear(d[..k], y) + (if x.year == y then [x] else []) + OfYear(d[k..], y)
  {
    var front, back := d[..k], d[k..];
    assert d == front + back;
    OfYearAppend(front, back, y);
    assert InsertAt(d, k, x) == front + [x] + back;
    OfYearAppend(front + [x], back, y);
    OfYearAppend(front, [x], y);
    assert OfYear([x], y) == (if x.year == y then [x] else []) + OfYear([], y);
  }

  /** In a sorted timeline no event from index `k` on is of a year `y` earlier
      than that of event `k`. */
  lemma OfYearAfter(d: seq<Event>, k: nat, y: int)
    requires SortedByYear(d) && k <= |d|
    requires k < |d| ==> y < d[k].year
    ensures OfYear(d[k..], y) == []
  {
    forall i | 0 <= i < |d[k..]| ensures d[k..][i].year != y {
      assert d[k].year <= d[k + i].year;
    }
    OfYearNone(d[k..], y);
  }

  /** Inserting before the first event of a later year appends the event to
      the events of its own year. */
  lemma OfYearInsertBefore(d: seq<Event>, k: nat, x: Event, y: int)
    requires SortedByYear(d) && k <= |d|
    requires k < |d| ==> x.year < d[k].year
    ensures OfYear(InsertAt(d, k, x), y) == OfYear(d, y) + (if x.year == y then [x] else [])
  {
    OfYearInsertAt(d, k, x, y);
    if x.year == y {
      OfYearAfter(d, k, y);
    }
  }

  /** The intended insertion puts the new event after every event of its own
      year, so the events of one year keep their order. */
  lemma OfYearInsertSorted(d: seq<Event>, x: Event, y: int)
    requires SortedByYear(d)
    ensures OfYear(InsertSorted(d, x), y) == OfYear(d, y) + (if x.year == y then [x] else [])
  {
    var f := FindLater(d, x.year);
    OfYearInsertBefore(d, if f == -1 then |d| else f, x, y);
  }

  /** The sort is stable: for every year, the events of that year appear in the
      sorted timeline in the order they had before (the two 1991 events keep
      the order in which they were drawn). */
  lemma {:induction false} SortIsStable(s: seq<Event>, y: int)
    ensures OfYear(SortByYear(s), y) == OfYear(s, y)
  {
    if |s| > 0 {
      var p := s[..|s| - 1];
      var z := s[|s| - 1];
      var sorted := SortByYear(p);
      assert SortByYear(s) == InsertSorted(sorted, z);
      assert OfYear(InsertSorted(sorted, z), y) == OfYear(p, y) + (if z.year == y then [z] else []) by {
        SortIsStable(p, y);
        OfYearInsertSorted(sorted, z, y);
      }
      assert OfYear(s, y) == OfYear(p, y) + (if z.year == y then [z] else []) by {
        assert s == p + [z];
        OfYearAppend(p, [z], y);
        assert OfYear([z], y) == (if z.year == y then [z] else []) + OfYear([], y);
      }
    }
  }
}
