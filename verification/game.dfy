/** The timeline game component: seven pieces of state changed by the
    handlers startNewRound, checkAnswer, the slot buttons and Play Again. A
    handler reads the state of the render it was created in; where that
    differs from the live state (the delayed next round, Play Again) the
    method takes that render's snapshot as a parameter. */
module Game {
  import opened Events
  import opened Timeline
  import opened Rounds

  /** The feedback line, by kind: empty, the "select a position first"
      prompt, or the verdict on the event just placed. */
  datatype Feedback = Blank | PickSlotFirst | Correct(event: Event) | Incorrect(event: Event)

  /** What a press of Submit did: nothing but the prompt; a TypeError
      before any state changed (no current event, an empty timeline, or a
      slot past its end); or a judged answer together with the snapshot the
      delayed next round will read. */
  datatype Submission = NoSelection | Fault | Judged(correct: bool, snapshot: View)

  /** A round in progress, on values: a well-formed timeline of at least
      four events and a current event to place; one round per event added
      beyond the first four, and fewer points than rounds. */
  predicate Playing(v: View, score: nat, round: nat)
  {
    && WellFormed(v) && v.current.Some?
    && 4 <= |v.displayed| && round == |v.displayed| - 3 && score < round
  }

  /** A game played through, on values: every table event on the timeline
      once, after six rounds, with at most six points. */
  predicate PlayedThrough(d: seq<Event>, score: nat, round: nat)
  {
    && |d| == |EVENTS_DATA| && DistinctIds(d) && Ids(d) == Ids(EVENTS_DATA)
    && round == 6 && score <= round
  }

  /** One turn from a round in progress: submitting slot `slot` inserts the
      current event and scores the verdict; the next round, run on the
      submit's snapshot, ends the game played through or starts the next
      round in progress. */
  lemma TurnKeepsPlaying(v: View, picks: seq<nat>, slot: nat, score: nat, round: nat)
    requires Playing(v, score, round) && slot <= |v.displayed| && PicksFit(v, picks)
    ensures var d := InsertAsWritten(v.displayed, v.current.value);
      var points := score + if Verdict(v.displayed, v.current.value.year, slot) then 1 else 0;
      match NextRound(v, picks)
      case Finished => PlayedThrough(d, points, round)
      case Picked(next) => Playing(View(d, Some(next)), points, round + 1)
      case Populated(_, _) => false
  {
    Turn(v, picks);
    var d := InsertAsWritten(v.displayed, v.current.value);
    if NextRound(v, picks) == Finished {
      assert |d| == |EVENTS_DATA| by {
        TableDistinct();
        AllIdsExactlyWhenFull(d, EVENTS_DATA);
      }
    }
  }

  /** The positions renderPositionSelectors offers: one before the first
      event, then one after each event. */
  method PositionSlots(displayed: seq<Event>) returns (slots: seq<nat>)
    ensures |slots| == |displayed| + 1
    ensures forall i | 0 <= i < |slots| :: slots[i] == i
  {
    slots := [0];
    var index := 0;
    while index < |displayed|
      invariant 0 <= index <= |displayed|
      invariant |slots| == index + 1
      invariant forall i | 0 <= i < |slots| :: slots[i] == i
    {
      slots := slots + [index + 1];
      index := index + 1;
    }
  }

  class TimelineGame {
    var displayed: seq<Event>
    var current: Option<Event>
    var selected: Option<nat>
    var feedback: Feedback
    var score: nat
    var gameOver: bool
    var round: nat

    /** What a handler created in the present render reads. */
    function Snapshot(): (v: View)
      reads this
      ensures v.displayed == displayed && v.current == current
    {
      View(displayed, current)
    }

    /** A round in progress, with a selection (if any) among the offered
        slots. */
    ghost predicate InPlay()
      reads this
    {
      && Playing(Snapshot(), score, round) && !gameOver
      && (selected.Some? ==> selected.value <= |displayed|)
    }

    /** The end of a game played through. */
    ghost predicate Ended()
      reads this
    {
      gameOver && PlayedThrough(displayed, score, round)
    }

    /** The first render (everything empty, round 0) followed by the mount
        effect's startNewRound. */
    constructor (picks: seq<nat>)
      requires DrawsFit(|EVENTS_DATA|, picks, 5)
      ensures InPlay() && round == 1 && score == 0 && selected == None && feedback == Blank
      ensures |displayed| == 4 && SortedByYear(displayed)
    {
      displayed, current, selected := [], None, None;
      feedback, score, gameOver, round := Blank, 0, false, 0;
      new;
      var snap := Snapshot();
      FirstRound(snap, picks);
      var adv := StartNewRound(snap, picks);
      assert adv.Populated? && Playing(View(adv.shown, Some(adv.next)), 0, 1);
      assert Snapshot() == View(adv.shown, Some(adv.next)) && score == 0 && round == 1;
      assert Playing(Snapshot(), score, round);
    }

    /** startNewRound run on snapshot `snap`: clear the feedback and the
        selection, then apply what NextRound decides to the live state (the
        round counter is a functional update of the live value). */
    method StartNewRound(snap: View, picks: seq<nat>) returns (adv: Advance)
      requires PicksFit(snap, picks)
      modifies this
      ensures adv == NextRound(snap, picks)
      ensures feedback == Blank && selected == None && score == old(score)
      ensures adv.Finished? ==> gameOver && round == old(round) && current == old(current)
      ensures !adv.Finished? ==>
        && gameOver == old(gameOver) && round == old(round) + 1 && current == Some(adv.next)
      ensures displayed == if adv.Populated? then adv.shown else old(displayed)
    {
      feedback := Blank;
      selected := None;
      adv := Decide(snap, picks);
      match adv
      case Finished =>
        gameOver := true;
      case Populated(shown, next) =>
        displayed := shown;
        current := Some(next);
        round := round + 1;
      case Picked(next) =>
        current := Some(next);
        round := round + 1;
    }

    /** A slot button: only rendered while there is a current event and the
        game is not over, for the positions 0..|displayed|. */
    method SelectPosition(p: nat)
      requires current.Some? && !gameOver && p <= |displayed|
      modifies this`selected
      ensures selected == Some(p)
    {
      selected := Some(p);
    }

    /** checkAnswer: without a selection only the prompt is shown; otherwise
        the verdict on the selected slot is taken from the years around it,
        the current event is inserted where findIndex/splice put it, and a
        correct answer scores one point. */
    method CheckAnswer() returns (outcome: Submission)
      modifies this`feedback, this`displayed, this`score
      ensures selected.None? ==>
        && outcome == NoSelection && feedback == PickSlotFirst
        && displayed == old(displayed) && score == old(score)
      ensures selected.Some? && (current.None? || |old(displayed)| == 0 || selected.value > |old(displayed)|) ==>
        && outcome == Fault && feedback == old(feedback)
        && displayed == old(displayed) && score == old(score)
      ensures selected.Some? && current.Some? && 0 < |old(displayed)| && selected.value <= |old(displayed)| ==>
        var x := current.value;
        var ok := Verdict(old(displayed), x.year, selected.value);
        && outcome == Judged(ok, View(old(displayed), current))
        && displayed == InsertAsWritten(old(displayed), x)
        && feedback == (if ok then Correct(x) else Incorrect(x))
        && score == old(score) + (if ok then 1 else 0)
    {
      if selected.None? {
        feedback := PickSlotFirst;
        return NoSelection;
      }
      if current.None? || |displayed| == 0 || selected.value > |displayed| {
        return Fault;
      }
      var x := current.value;
      var ok := Verdict(displayed, x.year, selected.value);
      var snap := Snapshot();
      displayed := InsertAsWritten(displayed, x);
      if ok {
        feedback := Correct(x);
        score := score + 1;
      } else {
        feedback := Incorrect(x);
      }
      outcome := Judged(ok, snap);
    }

    /** Submit with a slot selected, then the delayed startNewRound on the
        submit's snapshot: the game stays in play or ends played through,
        and the score grows by the verdict. */
    method PlayTurn(picks: seq<nat>) returns (correct: bool)
      requires InPlay() && selected.Some? && PicksFit(Snapshot(), picks)
      modifies this
      ensures InPlay() || Ended()
      ensures correct == Verdict(old(displayed), old(current).value.year, old(selected).value)
      ensures score == old(score) + (if correct then 1 else 0)
      ensures feedback == Blank && selected == None
      ensures |displayed| == |old(displayed)| + 1
      ensures displayed == InsertAsWritten(old(displayed), old(current).value)
      ensures NextRound(old(Snapshot()), picks).Picked? ==>
        && !gameOver && round == old(round) + 1
        && current == Some(NextRound(old(Snapshot()), picks).next)
      ensures !NextRound(old(Snapshot()), picks).Picked? ==>
        gameOver && round == old(round) && current == old(current)
    {
      ghost var v, slot, before, rounds := Snapshot(), selected.value, score, round;
      var outcome := CheckAnswer();
      assert outcome == Judged(Verdict(v.displayed, v.current.value.year, slot), v);
      correct := outcome.correct;
      ghost var placed, points := displayed, score;
      TurnKeepsPlaying(v, picks, slot, before, rounds);
      var adv := StartNewRound(outcome.snapshot, picks);
      if adv == Finished {
        assert Ended();
      } else {
        assert adv.Picked? && Playing(View(placed, Some(adv.next)), points, rounds + 1);
        assert Snapshot() == View(placed, Some(adv.next)) && score == points && round == rounds + 1;
        assert Playing(Snapshot(), score, round);
      }
    }

    /** The Play Again button as written: it resets the state, but the
        startNewRound it calls reads the snapshot of the game-over render. */
    method PlayAgain(picks: seq<nat>)
      requires gameOver && PicksFit(Snapshot(), picks)
      modifies this
      ensures score == 0 && feedback == Blank && selected == None
      ensures NextRound(old(Snapshot()), picks).Finished? ==>
        && gameOver && displayed == [] && current == None && round == 0
      ensures !NextRound(old(Snapshot()), picks).Finished? ==>
        && !gameOver && round == 1 && current == Some(NextRound(old(Snapshot()), picks).next)
        && displayed == if NextRound(old(Snapshot()), picks).Populated? then NextRound(old(Snapshot()), picks).shown else []
      ensures old(Ended()) ==>
        && gameOver && displayed == [] && current == None && round == 0
      ensures old(displayed) == [] && old(current) == None ==>
        && InPlay() && round == 1 && |displayed| == 4 && SortedByYear(displayed)
    {
      var snap := Snapshot();
      displayed, current, score, gameOver, round := [], None, 0, false, 0;
      if Ids(EVENTS_DATA) <= Ids(snap.displayed) {
        CompleteTimelineEmptiesPool(snap);
      }
      var adv := StartNewRound(snap, picks);
      if snap.displayed == [] && snap.current == None {
        assert WellFormed(snap);
        PopulatedRound(snap, picks);
        assert adv.Populated? && Playing(View(adv.shown, Some(adv.next)), 0, 1);
        assert Snapshot() == View(adv.shown, Some(adv.next)) && score == 0 && round == 1;
      }
    }

    /** Play Again as intended: reset, then start a round on the reset
        state, which is a new game exactly like the first mount. */
    method Restart(picks: seq<nat>)
      requires gameOver && DrawsFit(|EVENTS_DATA|, picks, 5)
      modifies this
      ensures InPlay() && round == 1 && score == 0 && selected == None && feedback == Blank
      ensures |displayed| == 4 && SortedByYear(displayed)
    {
      displayed, current, score, gameOver, round := [], None, 0, false, 0;
      var snap := Snapshot();
      FirstRound(snap, picks);
      var adv := StartNewRound(snap, picks);
      assert adv.Populated? && Playing(View(adv.shown, Some(adv.next)), 0, 1);
      assert Snapshot() == View(adv.shown, Some(adv.next)) && score == 0 && round == 1;
      assert Playing(Snapshot(), score, round);
    }
  }
}
