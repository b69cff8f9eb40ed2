# Timeline game — a Dafny model

The repository serves a single page holding a React component, `TimelineGame`
(`src/index.ts:62-236`). The component keeps a fixed table of ten
twentieth-century events, each with an id, a description and a year. It shows
some of them as a timeline and asks the player to place one hidden *current*
event in one of the slots between the shown events. Submit judges the slot
from the years on either side of it, inserts the event and scores the
verdict. After a delay the next round picks a new current event from the
events not yet shown. The game ends when no event is left. The player can then
press Play Again.

This project models that component in four modules:

- `Events` (`events.dfy`) holds the event table and the vocabulary the rest
  is stated in: the ids on a timeline, distinct ids, and order by year.
- `Timeline` (`timeline.dfy`) is the pure part of a turn:
  - the verdict on a slot;
  - the insertion `splice(findIndex(e => e.year > year), 0, event)`, with
    JavaScript's `-1` from `findIndex` and the negative start of `splice`
    spelled out;
  - the stable sort by year of the first round.
- `Rounds` (`rounds.dfy`) holds what `startNewRound` decides from the state
  it reads:
  - the pool of events neither shown nor current;
  - the top-up loop that fills the timeline to four events, as the function
    `Fill` and as the loop method `Populate`;
  - the choice of the next current event (`NextRound`, carried out by the
    method `Decide`).
- `Game` (`game.dfy`) holds the class `TimelineGame`. Its seven fields are the
  component's seven pieces of state. Its methods are the handlers: the mount
  effect, `startNewRound`, the slot buttons, `checkAnswer` and Play Again.

A handler reads the state of the render that created it, while its setters
change the live state. This matters in two places:

- The delayed `startNewRound` after a submit reads the snapshot taken at
  submit time.
- The `startNewRound` called from Play Again reads the snapshot taken before
  the reset.

The model therefore passes that snapshot (a `View`) to `StartNewRound`, and
applies the result to the live fields. The round counter uses a functional
update, so it grows from its live value.

Randomness (`Math.floor(Math.random() * n)`) becomes a sequence `picks` of
draws. Each draw is an index below the length of the array it indexes
(`DrawsFit`, `PicksFit`), so every outcome of the random choices is covered.

In two places the code does not do what it evidently means to do. The model
follows the code, proves the discrepancy, and proves the intended behaviour of
a corrected definition:

- The insertion is meant to add the event "at the correct position"
  (`src/index.ts:164`). When every shown event is of an earlier or equal
  year, it instead puts the event *before* the last shown event, which breaks
  the order of the timeline.
- The Play Again button (`src/index.ts:229-239`) clears the timeline, the
  current event, the score, the game-over flag and the round, and then
  starts a round, evidently to begin a new game. The round it starts reads
  the finished game's timeline, finds no event left and ends the game again.
  Only a second press starts a new game.

Both are recorded under "Findings" below.

## Model

| member | source | states |
|---|---|---|
| Events.TableFacts | src/index.ts:64-75 | The table `EVENTS_DATA` (a constant, transcribed from `eventsData`) has ten events with ids 1..10, no id twice, in order of year, and the last two both in 1991. |
| Events.TableDistinct | src/index.ts:64-75 | The table has ten events, each with its own id. |
| Timeline.FindLater | src/index.ts:168 | `findIndex(e => e.year > target)` gives the first index whose year is strictly later than the target, or -1 when no year is later. |
| Timeline.SpliceStart | src/index.ts:166-171 | The index where `splice(start, 0, x)` inserts always lies within the array, with a negative start counted back from the end. |
| Timeline.InsertAt | src/index.ts:166-171 | The insertion makes the timeline one longer and puts the event at the given index. |
| Timeline.InsertAtCounts | src/index.ts:166-171 | The insertion adds exactly one occurrence of the event and nothing else. |
| Timeline.InsertAtKeepsOthers | src/index.ts:166-171 | Removing the inserted event gives back the old timeline, in its old order. |
| Timeline.InsertionIndex | src/index.ts:165-171 | Let k be the first index with a later year. The intended insertion puts the event at k. The insertion as written does the same, except that on a non-empty timeline with no later year it puts the event one before the end. |
| Timeline.InsertAsWritten | src/index.ts:165-171 | `splice(findIndex(e => e.year > year), 0, event)` on a copy of the timeline. Its meaning is stated by InsertionIndex and InsertAsWrittenOrder. |
| Timeline.InsertSorted | src/index.ts:164-171 | The corrected insertion, before the first strictly later event or at the end. Its meaning is stated by InsertionIndex and InsertSortedKeepsOrder. |
| Timeline.InsertSortedKeepsOrder | src/index.ts:165-171 | Inserting before the first strictly later event keeps a sorted timeline sorted. |
| Timeline.InsertAsWrittenOrder | src/index.ts:165-171 | The insertion as written keeps a sorted timeline sorted exactly when the timeline is empty or the event is no later than the last shown event. |
| Timeline.Verdict | src/index.ts:151-162 | The verdict on a slot from the years of its neighbours. Its meaning is stated by VerdictMeansInOrder and EarlyEventGoesFirst. |
| Timeline.VerdictMeansInOrder | src/index.ts:151-162 | On a sorted timeline, a slot is judged correct exactly when putting the event in that slot keeps the timeline sorted. |
| Timeline.EarlyEventGoesFirst | src/index.ts:151-171 | An event earlier than every shown event is judged correct only in slot 0, and it is inserted at the front. |
| Timeline.LateEventScenario | src/index.ts:151-171 | For the timeline 1914, 1917, 1929, 1939 and the 1945 event, the last slot is judged correct. The insertion as written puts 1945 before 1939, which leaves the timeline unsorted. The intended insertion appends it. |
| Timeline.SecondSubmitDuplicates | src/index.ts:165-185 | Inserting the same event twice, as two submits before the delayed round would do, leaves the event on the timeline twice, so some id occurs twice. |
| Timeline.SortByYear | src/index.ts:123 | The sort by year returns as many events as it was given, in order of year. |
| Timeline.SortByYearPermutes | src/index.ts:123 | The sort is a permutation: it loses and duplicates no event. |
| Timeline.SortIsStable | src/index.ts:123 | The sort is stable: the events of any one year keep their input order, because `Array.prototype.sort` is stable and the comparator `a.year - b.year` ties events of the same year. |
| Rounds.Pool | src/index.ts:98-101 | The remaining events: the table without the shown ids and the current id. Its meaning is stated by Unshown, PoolSize and CompleteTimelineEmptiesPool. |
| Rounds.Available | src/index.ts:111-114 | The events available for the top-up: the table without the shown ids. Its meaning is stated by Unshown, AvailableFacts and PoolSize. |
| Rounds.Unshown | src/index.ts:98-101 | The filter keeps exactly the events of the table whose id is not hidden. |
| Rounds.UnshownCount | src/index.ts:98-101 | On a table with distinct ids, the filter keeps one event per id that is not hidden. |
| Rounds.AvailableFacts | src/index.ts:111-114 | The events available for the top-up come from the table, and no id occurs twice across the shown events and the available ones. |
| Rounds.PoolSize | src/index.ts:98-114 | On a well-formed state, the pool has one event for each table event that is neither shown nor current, and the available list one for each table event that is not shown. |
| Rounds.CompleteTimelineEmptiesPool | src/index.ts:98-107 | Once every table id is shown, the pool is empty, so startNewRound ends the game whatever the current event. |
| Rounds.TopUps | src/index.ts:116 | The loop runs until four events are shown, but it never takes the last available event. |
| Rounds.Fill | src/index.ts:116-120 | The top-up loop on values. Its meaning is stated by FillSizes, FillTopsUp and FillOutcome, and Populate is the loop proved equal to it. |
| Rounds.FillSizes | src/index.ts:116-120 | The top-up loop moves exactly TopUps events from the available list to the timeline. |
| Rounds.FillTopsUp | src/index.ts:116-120 | The top-up keeps the events already shown at the front, and between the two lists it loses and duplicates no event. |
| Rounds.Populate | src/index.ts:116-120 | The while loop, which pushes the drawn event and splices it out of the available list, gives the same result as Fill and uses TopUps draws. |
| Rounds.FillOutcome | src/index.ts:110-128 | With more events available than missing, the top-up ends with four events with distinct ids, each of them shown before or available. The next draw picks an available event that is not among the four. |
| Rounds.NextRound | src/index.ts:92-136 | What startNewRound decides on a snapshot. Its meaning is stated by PopulatedRound, FirstRound, Turn and CompleteTimelineEmptiesPool, and Decide is the handler body proved equal to it. |
| Rounds.Decide | src/index.ts:92-136 | The body of startNewRound, with its filters, top-up loop, sort and draws, decides exactly what NextRound says. |
| Rounds.PopulatedRound | src/index.ts:110-128 | From a well-formed state with fewer than four events shown, the round shows four events sorted by year. The events shown before are kept, and the current event is a table event not on the timeline. |
| Rounds.TopUpDraws | src/index.ts:116-128 | The top-up draws and the draw of the current event all index within range, and NextRound then shows the sorted top-up and the drawn event. |
| Rounds.PlaceNew | src/index.ts:165-173 | Inserting an event whose id is not shown adds exactly that id and keeps the ids distinct. |
| Rounds.Turn | src/index.ts:129-135 | After a turn from four or more shown events, the next round ends the game exactly when every table id is on the timeline. Otherwise it picks a table event that is not on the timeline. |
| Rounds.FirstRound | src/index.ts:87-128 | From the empty first render, the round draws five times and shows four events sorted by year with a current event not among them. |
| Game.TurnKeepsPlaying | src/index.ts:139-186 | A turn from a round in progress either ends with every table event shown once after six rounds, with at most six points, or starts the next round in progress with one more event and the score grown by the verdict. |
| Game.PositionSlots | src/index.ts:189-217 | renderPositionSelectors offers the slots 0..n for a timeline of n events, one before the first event and one after each event. |
| Game.TimelineGame.constructor | src/index.ts:77-89 | After the first render and the mount effect, the game is in round 1 with score 0. Four sorted events are shown, a current event is set, and there is no selection and no feedback. |
| Game.TimelineGame.StartNewRound | src/index.ts:92-136 | The handler clears the feedback and the selection. Then, as NextRound decides on the snapshot, it either sets gameOver, or sets the timeline and the current event and increments the live round. |
| Game.TimelineGame.SelectPosition | src/index.ts:194-214 | A slot button sets the selection to its slot and changes nothing else. |
| Game.TimelineGame.CheckAnswer | src/index.ts:139-186 | Without a selection, only the prompt is shown. Without a current event, with an empty timeline, or with a slot past its end, the handler fails before changing anything. Otherwise it judges the slot, inserts the event as written, and scores one point for a correct answer. |
| Game.TimelineGame.PlayTurn | src/index.ts:139-186 | Submit followed by the delayed round keeps the game in progress or ends it played through, with the feedback and the selection cleared. The timeline becomes the old one with the current event inserted as written, and the score grows by the verdict. When the round picks a new current event, the round number grows by one; otherwise the game is over, with round and current event unchanged. |
| Game.TimelineGame.PlayAgain | src/index.ts:229-236 | Play Again as written resets score, feedback and selection, and gives the rest of the new state from what NextRound decides on the state before the reset. After a game played through it leaves gameOver set, with an empty timeline, no current event and round 0. From that state a second press starts a game in progress in round 1 with four sorted events. |
| Game.TimelineGame.Restart | src/index.ts:229-236 | Play Again as intended starts a new game exactly like the first mount. |

## Left out

- The HTTP routes and the document around the component are not part of this model, because they only deliver the page.
- Rendering and markup are not modelled, and neither is React's scheduling. The state setters become assignments to the live fields, and a handler's render becomes the snapshot it is passed.
- The 2-second `setTimeout` becomes a later call of `StartNewRound` on the submit's snapshot. Other clicks inside that window are not modelled as interleavings. The code has no guard against a second submit, and `SecondSubmitDuplicates` shows what one would do.
- `Math.random` is a sequence of drawn indices. Floating point and the distribution of the draws are not modelled.
- The feedback messages are modelled by kind (prompt, correct, incorrect, with the event). Their wording is not modelled.
- Game.PositionSlots: models only the slot numbers the buttons carry. Their labels ("Before 1", "After n") are not modelled.
- Game.TimelineGame.SelectPosition: requires what the rendering ensures, namely that the buttons exist only while a current event is set and the game is not over, and only for the slots 0..n.
- Game.TimelineGame.PlayTurn: requires a selection made earlier, and a state reached by the game itself (a round in progress). A submit without a selection is covered by CheckAnswer.
- The game-over text says "out of 10" (src/index.ts:228). Only the bound it implies is modelled: TurnKeepsPlaying shows that a game ends after six rounds with at most six points.
- The event descriptions are named string constants and play no part in any rule.

## Findings

| source | as written | input that shows it | evidently intended | confidence | as-written member | corrected member |
|---|---|---|---|---|---|---|
| src/index.ts:229-236 | Play Again resets the state and calls startNewRound. That call reads the game-over render's timeline, on which every id is shown, so the pool is empty and it sets gameOver again. | Any game played to the end, then one press of Play Again: the result is an empty timeline, round 0, and the game-over screen again. Only a second press starts a new game. | A new game with four sorted events and a current event, as on first mount. | not executed; high | Game.TimelineGame.PlayAgain | Game.TimelineGame.Restart |
| src/index.ts:165-171 | When no shown event is later than the current one, `findIndex` gives -1, and `splice(-1, 0, x)` inserts before the last event. | The timeline 1914, 1917, 1929, 1939 and the 1945 event give 1914, 1917, 1929, 1945, 1939. | Append the event at the end, so the timeline stays sorted (proved of the corrected insertion by InsertSortedKeepsOrder). | not executed; high | Timeline.LateEventScenario | Timeline.InsertSorted |

The game class keeps the insertion as written, so that it describes what the
component does. The corrected insertion `InsertSorted` is the one the model's
sort by year is built from.
