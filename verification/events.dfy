/** The fixed table of twentieth-century events the timeline game draws from,
    and the vocabulary the game is stated in: the ids on a timeline, distinct
    ids, and order by year. */
module Events {

  datatype Option<T> = None | Some(value: T)

  /** One record of the table: a unique id, what happened, and the year. */
  datatype Event = Event(id: int, description: string, year: int)

  /** What the table says of each event. */
  const WORLD_WAR_I: string := "World War I begins"
  const RUSSIAN_REVOLUTION: string := "Russian Revolution"
  const WALL_STREET_CRASH: string := "Wall Street Crash"
  const WORLD_WAR_II: string := "World War II begins"
  const HIROSHIMA: string := "First atomic bomb dropped on Hiroshima"
  const NASA_FOUNDED: string := "NASA founded"
  const MOON_LANDING: string := "First human lands on the moon"
  const BERLIN_WALL: string := "Fall of the Berlin Wall"
  const WORLD_WIDE_WEB: string := "World Wide Web invented"
  const SOVIET_DISSOLUTION: string := "Dissolution of the Soviet Union"

  /** The ten events of the game, in table order. Ids 9 and 10 share 1991. */
  const EVENTS_DATA: seq<Event> := [
    Event(1, WORLD_WAR_I, 1914),
    Event(2, RUSSIAN_REVOLUTION, 1917),
    Event(3, WALL_STREET_CRASH, 1929),
    Event(4, WORLD_WAR_II, 1939),
    Event(5, HIROSHIMA, 1945),
    Event(6, NASA_FOUNDED, 1958),
    Event(7, MOON_LANDING, 1969),
    Event(8, BERLIN_WALL, 1989),
    Event(9, WORLD_WIDE_WEB, 1991),
    Event(10, SOVIET_DISSOLUTION, 1991)
  ]

  /** The ids of the events of `s` (what `some(e => e.id === ...)` looks up). */
  function Ids(s: seq<Event>): set<int>
  {
    set e | e in s :: e.id
  }

  /** No id occurs twice in `s`. */
  predicate DistinctIds(s: seq<Event>)
  {
    forall i, j | 0 <= i < j < |s| :: s[i].id != s[j].id
  }

  /** `s` is in non-decreasing order of year. */
  predicate SortedByYear(s: seq<Event>)
  {
    forall i, j | 0 <= i < j < |s| :: s[i].year <= s[j].year
  }

  /** Every event of `s` is a record of the table. */
  predicate FromTable(s: seq<Event>)
  {
    forall e | e in s :: e in EVENTS_DATA
  }

  /** The table holds ten events with ids 1..10, in year order, two of them in 1991. */
  lemma TableFacts()
    ensures |EVENTS_DATA| == 10
    ensures forall i | 0 <= i < |EVENTS_DATA| :: EVENTS_DATA[i].id == i + 1
    ensures DistinctIds(EVENTS_DATA) && SortedByYear(EVENTS_DATA)
    ensures EVENTS_DATA[8].year == EVENTS_DATA[9].year == 1991
  {
  }

  /** The part of the table facts most proofs need. */
  lemma TableDistinct()
    ensures |EVENTS_DATA| == 10 && DistinctIds(EVENTS_DATA)
  {
    TableFacts();
  }

  lemma IdsAppend(a: seq<Event>, b: seq<Event>)
    ensures Ids(a + b) == Ids(a) + Ids(b)
  {
    forall x | x in Ids(a + b) ensures x in Ids(a) + Ids(b) {
      var e :| e in a + b && e.id == x;
      assert e in a || e in b;
    }
    forall x | x in Ids(a) + Ids(b) ensures x in Ids(a + b) {
      if x in Ids(a) {
        var e :| e in a && e.id == x;
        assert e in a + b;
      } else {
        var e :| e in b && e.id == x;
        assert e in a + b;
      }
    }
  }

  /** A non-empty sequence has distinct ids exactly when its tail has and its
      head's id is not in the tail. */
  lemma DistinctCons(s: seq<Event>)
    requires |s| > 0
    ensures Ids(s) == {s[0].id} + Ids(s[1..])
    ensures DistinctIds(s) <==> DistinctIds(s[1..]) && s[0].id !in Ids(s[1..])
  {
    var t := s[1..];
    assert s == [s[0]] + t;
    IdsAppend([s[0]], t);
    assert Ids([s[0]]) == {s[0].id};
    if s[0].id in Ids(t) {
      var e :| e in t && e.id == s[0].id;
      var j :| 0 <= j < |t| && t[j] == e;
      assert s[j + 1].id == s[0].id;
    } else if DistinctIds(t) {
      forall i, j | 0 <= i < j < |s| ensures s[i].id != s[j].id {
        assert s[j] == t[j - 1];
        if i == 0 {
          assert s[j] in t;
        } else {
          assert s[i] == t[i - 1];
        }
      }
    }
    if DistinctIds(s) {
      forall i, j | 0 <= i < j < |t| ensures t[i].id != t[j].id {
        assert t[i] == s[i + 1] && t[j] == s[j + 1];
      }
    }
  }

  /** Distinct ids are exactly as many ids as events. */
  lemma {:induction false} DistinctIdsCard(s: seq<Event>)
    ensures |Ids(s)| <= |s|
    ensures DistinctIds(s) <==> |Ids(s)| == |s|
  {
    if |s| > 0 {
      DistinctIdsCard(s[1..]);
      DistinctCons(s);
    } else {
      assert Ids(s) == {};
    }
  }

  /** Two sequences holding the same events hold the same ids, and one has
      distinct ids exactly when the other has. */
  lemma PermutationKeepsIds(s: seq<Event>, t: seq<Event>)
    requires multiset(s) == multiset(t)
    ensures Ids(s) == Ids(t)
    ensures DistinctIds(s) <==> DistinctIds(t)
  {
    forall e ensures e in s <==> e in t {
      assert e in s <==> e in multiset(s);
      assert e in t <==> e in multiset(t);
    }
    assert |s| == |multiset(s)| == |t|;
    DistinctIdsCard(s);
    DistinctIdsCard(t);
  }

  /** A concatenation has distinct ids exactly when both parts have and no id
      is in both. */
  lemma DistinctAppend(a: seq<Event>, b: seq<Event>)
    ensures DistinctIds(a + b) <==> DistinctIds(a) && DistinctIds(b) && Ids(a) !! Ids(b)
  {
    IdsAppend(a, b);
    DistinctIdsCard(a);
    DistinctIdsCard(b);
    DistinctIdsCard(a + b);
    if Ids(a) !! Ids(b) {
      assert Ids(a) * Ids(b) == {};
    } else {
      var x :| x in Ids(a) && x in Ids(b);
      assert x in Ids(a) * Ids(b);
    }
  }

  /** A subset of a finite set with as many elements is the whole set. */
  lemma SubsetOfSameSize(a: set<int>, b: set<int>)
    requires a <= b && |a| == |b|
    ensures a == b
  {
    assert |b - a| == |b| - |a| == 0;
  }
}
