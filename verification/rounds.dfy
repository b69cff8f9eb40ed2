/** startNewRound: the pool of events still to play, the loop that tops the
    timeline up to four events, and the choice of the next current event. The
    handler reads the displayed and current events of the render it was created
    in, so everything here is a function of such a snapshot. */
module Rounds {
  import opened Events
  import opened Timeline

  /** What startNewRound reads of a render: the displayed events and the
      current event (null before the first round and after a reset). */
  datatype View = View(displayed: seq<Event>, current: Option<Event>)

  /** The id the pool filter compares against `currentEvent?.id`. */
  function CurrentIds(current: Option<Event>): set<int>
  {
    if current.Some? then {current.value.id} else {}
  }

  /** The events whose id is not hidden, in their original order. */
  function Unshown(events: seq<Event>, hidden: set<int>): (r: seq<Event>)
    ensures forall e {:trigger e in r} :: e in r <==> e in events && e.id !in hidden
  {
    if |events| == 0 then []
    else (if events[0].id in hidden then [] else [events[0]]) + Unshown(events[1..], hidden)
  }

  /** The table events not on the timeline `shown` (the top-up loop's
      `availableEvents`). */
  function Available(shown: seq<Event>): seq<Event>
  {
    Unshown(EVENTS_DATA, Ids(shown))
  }

  /** The table events neither on the timeline nor current (`remainingEvents`). */
  function Pool(v: View): seq<Event>
  {
    Unshown(EVENTS_DATA, Ids(v.displayed) + CurrentIds(v.current))
  }

  /** The ids left by the filter are exactly those not hidden. */
  lemma UnshownIds(events: seq<Event>, hidden: set<int>)
    ensures Ids(Unshown(events, hidden)) == Ids(events) - hidden
  {
    var r := Unshown(events, hidden);
    forall x | x in Ids(r) ensures x in Ids(events) - hidden {
      var e :| e in r && e.id == x;
      assert e in events;
    }
    forall x | x in Ids(events) - hidden ensures x in Ids(r) {
      var e :| e in events && e.id == x;
      assert e in r;
    }
  }

  /** Filtering events with distinct ids leaves distinct ids. */
  lemma {:induction false} UnshownDistinct(events: seq<Event>, hidden: set<int>)
    requires DistinctIds(events)
    ensures DistinctIds(Unshown(events, hidden))
  {
    if |events| > 0 {
      var t := events[1..];
      var rest := Unshown(t, hidden);
      DistinctCons(events);
      UnshownDistinct(t, hidden);
      if events[0].id !in hidden {
        var r := [events[0]] + rest;
        assert r[1..] == rest;
        UnshownIds(t, hidden);
        DistinctCons(r);
      }
    }
  }

  /** With distinct ids the filter keeps one event for each id not hidden. */
  lemma UnshownCount(events: seq<Event>, hidden: set<int>)
    requires DistinctIds(events)
    ensures DistinctIds(Unshown(events, hidden))
    ensures |Unshown(events, hidden)| == |Ids(events) - hidden|
  {
    UnshownDistinct(events, hidden);
    UnshownIds(events, hidden);
    DistinctIdsCard(Unshown(events, hidden));
  }

  /** A timeline next to the table events it does not show has no id twice. */
  lemma UnshownJoin(shown: seq<Event>, table: seq<Event>)
    requires DistinctIds(shown) && DistinctIds(table)
    ensures DistinctIds(shown + Unshown(table, Ids(shown)))
  {
    var avail := Unshown(table, Ids(shown));
    UnshownDistinct(table, Ids(shown));
    UnshownIds(table, Ids(shown));
    DistinctAppend(shown, avail);
  }

  /** The events the top-up loop draws from are table events that complete
      the timeline without repeating an id. */
  lemma AvailableFacts(shown: seq<Event>)
    requires DistinctIds(shown)
    ensures DistinctIds(shown + Available(shown))
    ensures FromTable(Available(shown))
  {
    TableDistinct();
    UnshownJoin(shown, EVENTS_DATA);
  }

  /** A timeline and its current event, as normal play keeps them: events of
      the table, no id twice, and the current event not on the timeline. */
  predicate WellFormed(v: View)
  {
    && DistinctIds(v.displayed)
    && FromTable(v.displayed)
    && (v.current.Some? ==> v.current.value in EVENTS_DATA && v.current.value.id !in Ids(v.displayed))
  }

  lemma TableIds(s: seq<Event>)
    requires FromTable(s)
    ensures Ids(s) <= Ids(EVENTS_DATA)
  {
    forall x | x in Ids(s) ensures x in Ids(EVENTS_DATA) {
      var e :| e in s && e.id == x;
      assert e in EVENTS_DATA;
    }
  }

  /** On a well-formed snapshot the pool holds every table event that is
      neither displayed nor current, and nothing else. */
  lemma PoolSize(v: View)
    requires WellFormed(v)
    ensures |Pool(v)| == |EVENTS_DATA| - |v.displayed| - |CurrentIds(v.current)|
    ensures |Available(v.displayed)| == |EVENTS_DATA| - |v.displayed|
  {
    TableDistinct();
    DistinctIdsCard(EVENTS_DATA);
    DistinctIdsCard(v.displayed);
    TableIds(v.displayed);
    var hidden := Ids(v.displayed) + CurrentIds(v.current);
    UnshownCount(EVENTS_DATA, hidden);
    UnshownIds(EVENTS_DATA, hidden);
    UnshownCount(EVENTS_DATA, Ids(v.displayed));
    UnshownIds(EVENTS_DATA, Ids(v.displayed));
    if v.current.Some? {
      assert v.current.value.id in Ids(EVENTS_DATA);
    }
    assert hidden <= Ids(EVENTS_DATA);
    assert Ids(v.displayed) * CurrentIds(v.current) == {};
    assert |Ids(EVENTS_DATA) - hidden| == |Ids(EVENTS_DATA)| - |hidden|;
    assert |Ids(EVENTS_DATA) - Ids(v.displayed)| == |Ids(EVENTS_DATA)| - |Ids(v.displayed)|;
  }

  /** Once every table event is on the timeline the pool is empty, whatever
      the current event. */
  lemma CompleteTimelineEmptiesPool(v: View)
    requires Ids(EVENTS_DATA) <= Ids(v.displayed)
    ensures Pool(v) == []
  {
    TableDistinct();
    var hidden := Ids(v.displayed) + CurrentIds(v.current);
    UnshownCount(EVENTS_DATA, hidden);
    UnshownIds(EVENTS_DATA, hidden);
    assert Ids(EVENTS_DATA) - hidden == {};
  }

  function Min(a: int, b: int): int
  {
    if a < b then a else b
  }

  /** How often the top-up loop runs from `shown` displayed and `avail`
      available events: until four are shown, but never taking the last
      available one. */
  function TopUps(shown: nat, avail: nat): (n: nat)
    ensures n == if shown < 4 && 1 < avail then Min(4 - shown, avail - 1) else 0
    decreases avail
  {
    if shown < 4 && 1 < avail then 1 + TopUps(shown + 1, avail - 1) else 0
  }

  /** The first `n` random draws are indices into what is still available:
      the j-th draw picks among `avail - j` events. */
  predicate DrawsFit(avail: nat, picks: seq<nat>, n: nat)
  {
    n <= |picks| && forall j | 0 <= j < n :: picks[j] < avail - j
  }

  /** The top-up loop on values: move the drawn available event to the end of
      the timeline until four are shown or one is left. */
  function Fill(initial: seq<Event>, available: seq<Event>, picks: seq<nat>): (seq<Event>, seq<Event>)
    requires DrawsFit(|available|, picks, TopUps(|initial|, |available|))
    decreases |available|
  {
    if |initial| < 4 && 1 < |available| then
      var i := picks[0];
      Fill(initial + [available[i]], available[..i] + available[i + 1..], picks[1..])
    else (initial, available)
  }

  /** The loop adds exactly TopUps of the available events to the timeline. */
  lemma {:induction false} FillSizes(initial: seq<Event>, available: seq<Event>, picks: seq<nat>)
    requires DrawsFit(|available|, picks, TopUps(|initial|, |available|))
    ensures var f := Fill(initial, available, picks);
      && |f.0| == |initial| + TopUps(|initial|, |available|)
      && |f.1| == |available| - TopUps(|initial|, |available|)
    decreases |available|
  {
    if |initial| < 4 && 1 < |available| {
      var i := picks[0];
      FillSizes(initial + [available[i]], available[..i] + available[i + 1..], picks[1..]);
    }
  }

  /** The loop keeps the events it starts with, in front, and loses or
      duplicates none of the events it moves. */
  lemma {:induction false} FillTopsUp(initial: seq<Event>, available: seq<Event>, picks: seq<nat>)
    requires DrawsFit(|available|, picks, TopUps(|initial|, |available|))
    ensures var f := Fill(initial, available, picks);
      && |initial| <= |f.0| && f.0[..|initial|] == initial
      && multiset(f.0) + multiset(f.1) == multiset(initial) + multiset(available)
    decreases |available|
  {
    if |initial| < 4 && 1 < |available| {
      var i := picks[0];
      var grown, left := initial + [available[i]], available[..i] + available[i + 1..];
      FillTopsUp(grown, left, picks[1..]);
      FillSizes(grown, left, picks[1..]);
      var f := Fill(grown, left, picks[1..]);
      assert f == Fill(initial, available, picks);
      assert f.0[..|initial|] == f.0[..|grown|][..|initial|];
      assert available == available[..i] + [available[i]] + available[i + 1..];
    }
  }

  /** The top-up loop of startNewRound (`while (initialEvents.length < 4 &&
      availableEvents.length > 1)`), drawing its indices from `picks`; `used`
      is the number of draws it made. */
  method Populate(shown: seq<Event>, candidates: seq<Event>, picks: seq<nat>) returns (initial: seq<Event>, available: seq<Event>, used: nat)
    requires DrawsFit(|candidates|, picks, TopUps(|shown|, |candidates|))
    ensures used == TopUps(|shown|, |candidates|)
    ensures (initial, available) == Fill(shown, candidates, picks)
  {
    initial := shown;
    available := candidates;
    used := 0;
    ghost var total, result := TopUps(|shown|, |available|), Fill(shown, available, picks);
    while |initial| < 4 && 1 < |available|
      invariant used <= |picks|
      invariant used + TopUps(|initial|, |available|) == total
      invariant DrawsFit(|available|, picks[used..], TopUps(|initial|, |available|))
      invariant Fill(initial, available, picks[used..]) == result
      decreases |available|
    {
      var r := picks[used];
      assert picks[used..][1..] == picks[used + 1..];
      initial := initial + [available[r]];
      available := available[..r] + available[r + 1..];
      used := used + 1;
    }
  }

  /** The random draws a call of startNewRound on snapshot `v` consumes are in
      range: the top-up draws and then one for the current event, or a single
      draw from the pool in later rounds. */
  predicate PicksFit(v: View, picks: seq<nat>)
  {
    var pool := Pool(v);
    |pool| == 0 ||
    if |v.displayed| < 4 then
      var avail := |Available(v.displayed)|;
      DrawsFit(avail, picks, TopUps(|v.displayed|, avail) + 1)
    else 0 < |picks| && picks[0] < |pool|
  }

  /** What startNewRound decides: the game is over; or the timeline is set to
      `shown` with `next` as current event; or only `next` is chosen. */
  datatype Advance = Finished | Populated(shown: seq<Event>, next: Event) | Picked(next: Event)

  /** The decision of startNewRound on snapshot `v`. */
  function NextRound(v: View, picks: seq<nat>): Advance
    requires PicksFit(v, picks)
  {
    var pool := Pool(v);
    if |pool| == 0 then Finished
    else if |v.displayed| < 4 then
      var avail := Available(v.displayed);
      var n := TopUps(|v.displayed|, |avail|);
      FillSizes(v.displayed, avail, picks);
      var f := Fill(v.displayed, avail, picks);
      Populated(SortByYear(f.0), f.1[picks[n]])
    else Picked(pool[picks[0]])
  }

  /** The top-up loop run to completion on a timeline with fewer than four
      events and more available events than it lacks: four events, those it
      had first, no id twice, and the next draw picks an available event that
      is not among the four. */
  lemma FillOutcome(shown: seq<Event>, avail: seq<Event>, picks: seq<nat>)
    requires |shown| < 4 && 4 - |shown| < |avail|
    requires DrawsFit(|avail|, picks, TopUps(|shown|, |avail|) + 1)
    requires DistinctIds(shown + avail)
    ensures var f := Fill(shown, avail, picks);
      && |f.0| == 4 && f.0[..|shown|] == shown && multiset(shown) <= multiset(f.0)
      && DistinctIds(f.0)
      && (forall e | e in f.0 :: e in shown || e in avail)
      && |f.1| == |avail| - TopUps(|shown|, |avail|)
      && var c := f.1[picks[TopUps(|shown|, |avail|)]];
        c in avail && c.id !in Ids(f.0)
  {
    var n := TopUps(|shown|, |avail|);
    FillSizes(shown, avail, picks);
    FillTopsUp(shown, avail, picks);
    var f := Fill(shown, avail, picks);
    assert multiset(shown + avail) == multiset(f.0 + f.1);
    PermutationKeepsIds(shown + avail, f.0 + f.1);
    DistinctAppend(f.0, f.1);
    var c := f.1[picks[n]];
    assert c.id in Ids(f.1);
    forall e | e in f.0 ensures e in shown || e in avail {
      assert e in multiset(f.0);
      assert e in multiset(shown + avail);
    }
    assert c in multiset(shown + avail);
    assert f.0 == shown + f.0[|shown|..];
    IdsAppend(shown, f.0[|shown|..]);
    assert multiset(f.0) == multiset(shown) + multiset(f.0[|shown|..]);
  }

  /** The computation of startNewRound on snapshot `v`, with the top-up
      loop run as written; the handler then only applies the decision. */
  method Decide(v: View, picks: seq<nat>) returns (adv: Advance)
    requires PicksFit(v, picks)
    ensures adv == NextRound(v, picks)
  {
    var remaining := Pool(v);
    if |remaining| == 0 {
      return Finished;
    }
    if |v.displayed| < 4 {
      var available := Available(v.displayed);
      TopUpDraws(v, picks);
      var initial, left, used := Populate(v.displayed, available, picks);
      adv := Populated(SortByYear(initial), left[picks[used]]);
    } else {
      adv := Picked(remaining[picks[0]]);
    }
  }

  /** The first branch from a well-formed snapshot with fewer than four events
      shown: the timeline becomes exactly four events sorted by year, keeping
      those it had, with no id twice, and the new current event is a table
      event not on it. */
  lemma PopulatedRound(v: View, picks: seq<nat>)
    requires WellFormed(v) && |v.displayed| < 4 && PicksFit(v, picks)
    ensures NextRound(v, picks).Populated?
    ensures var d := NextRound(v, picks).shown;
      && |d| == 4 && SortedByYear(d) && multiset(v.displayed) <= multiset(d)
      && WellFormed(View(d, Some(NextRound(v, picks).next)))
  {
    PoolSize(v);
    var avail := Available(v.displayed);
    AvailableFacts(v.displayed);
    FillOutcome(v.displayed, avail, picks);
    var f := Fill(v.displayed, avail, picks);
    var d := SortByYear(f.0);
    SortByYearPermutes(f.0);
    PermutationKeepsIds(f.0, d);
    forall e | e in d ensures e in EVENTS_DATA {
      assert e in multiset(f.0);
    }
  }

  /** Placing an event whose id is not on the timeline (at the slot
      checkAnswer computes) grows the timeline by that event and keeps its
      ids distinct. */
  lemma PlaceNew(d: seq<Event>, c: Event)
    requires DistinctIds(d) && c.id !in Ids(d)
    ensures var r := InsertAsWritten(d, c);
      && |r| == |d| + 1 && DistinctIds(r) && Ids(r) == Ids(d) + {c.id}
      && (forall e | e in r :: e in d || e == c)
  {
    var r := InsertAsWritten(d, c);
    InsertAtCounts(d, SpliceStart(|d|, FindLater(d, c.year)), c);
    assert Ids([c]) == {c.id};
    DistinctAppend(d, [c]);
    assert multiset(r) == multiset(d + [c]);
    PermutationKeepsIds(r, d + [c]);
    IdsAppend(d, [c]);
    forall e | e in r ensures e in d || e == c {
      assert e in multiset(r);
    }
  }

  /** In the top-up branch the draws PicksFit allows are in range for the
      loop and for the current event picked after it. */
  lemma TopUpDraws(v: View, picks: seq<nat>)
    requires PicksFit(v, picks) && 0 < |Pool(v)| && |v.displayed| < 4
    ensures var avail := Available(v.displayed);
      var n := TopUps(|v.displayed|, |avail|);
      && DrawsFit(|avail|, picks, n) && n < |picks|
      && picks[n] < |Fill(v.displayed, avail, picks).1|
      && NextRound(v, picks) == Populated(SortByYear(Fill(v.displayed, avail, picks).0), Fill(v.displayed, avail, picks).1[picks[n]])
  {
    var avail := Available(v.displayed);
    FillSizes(v.displayed, avail, picks);
  }

  /** A timeline drawn from a table, both with distinct ids, holds every id
      of the table exactly when it is as long as the table. */
  lemma AllIdsExactlyWhenFull(d: seq<Event>, table: seq<Event>)
    requires DistinctIds(d) && DistinctIds(table) && Ids(d) <= Ids(table)
    ensures Ids(d) == Ids(table) <==> |d| == |table|
  {
    DistinctIdsCard(d);
    DistinctIdsCard(table);
    if |d| == |table| {
      SubsetOfSameSize(Ids(d), Ids(table));
    }
  }

  /** One round of normal play from a well-formed snapshot with four or more
      events shown: checkAnswer inserts the current event, and the next round,
      run on the snapshot of the submit, ends the game exactly when every table
      event is on the timeline, and otherwise picks a table event that is
      neither on the new timeline nor the one just placed. */
  lemma Turn(v: View, picks: seq<nat>)
    requires WellFormed(v) && v.current.Some? && 4 <= |v.displayed| && PicksFit(v, picks)
    ensures var d := InsertAsWritten(v.displayed, v.current.value);
      && |d| == |v.displayed| + 1 && WellFormed(View(d, None))
      && |Pool(v)| == |EVENTS_DATA| - |d|
      && (NextRound(v, picks) == Finished <==> Ids(d) == Ids(EVENTS_DATA))
      && (NextRound(v, picks) != Finished ==>
            NextRound(v, picks).Picked? && WellFormed(View(d, Some(NextRound(v, picks).next))))
  {
    var c := v.current.value;
    var d := InsertAsWritten(v.displayed, c);
    PoolSize(v);
    PlaceNew(v.displayed, c);
    TableIds(d);
    TableDistinct();
    AllIdsExactlyWhenFull(d, EVENTS_DATA);
    if NextRound(v, picks) != Finished {
      var next := NextRound(v, picks).next;
      assert next in Pool(v);
    }
  }

  /** The snapshot of the first render (nothing shown, no current event):
      startNewRound draws five times, four to fill the timeline and one for
      the current event, each among the events not yet drawn. */
  lemma FirstRound(v: View, picks: seq<nat>)
    requires v.displayed == [] && v.current == None
    requires DrawsFit(|EVENTS_DATA|, picks, 5)
    ensures PicksFit(v, picks) && NextRound(v, picks).Populated?
    ensures var adv := NextRound(v, picks);
      && |adv.shown| == 4 && SortedByYear(adv.shown)
      && WellFormed(View(adv.shown, Some(adv.next)))
  {
    assert WellFormed(v);
    PoolSize(v);
    TableDistinct();
    assert TopUps(0, |EVENTS_DATA|) == 4;
    PopulatedRound(v, picks);
  }


}
