# BlackJack Hi-Lo card-counting trainer — Dafny model

This project models the card-counting session of the `BlackJack` trainer. The
trainer shows the cards of a shuffled 52-card deck one at a time and keeps the
Hi-Lo running count:

- cards 2 to 6 count +1;
- cards 7 to 9 count 0;
- tens, faces and aces count -1.

At up to three random checkpoint positions it asks the player for the running
count.

There are two ways through the deck:

- **Normal Mode** deals one card per press of *Next*. The card at a checkpoint
  position is hidden behind the quiz and is never counted.
- **Timed Mode** deals one card per tick of a timer that can be paused. Every
  card is counted first; then, if the position just counted is a checkpoint, a
  quiz opens and dealing pauses until the answer is submitted.

The model has two modules:

- `Cards` (`cards.dfy`) holds the pure part:
  - the Hi-Lo table and the rank and suit lists;
  - the deck comprehension and the way a rank is read back from a card name;
  - the running count of a run of cards (`CountOf`), of the first n cards of
    the deck (`CountPrefix`, Timed Mode), and its Normal Mode variant that
    passes over checkpoint positions (`CountSkipping`);
  - lemmas about the deck (52 distinct names, one per rank and suit) and about
    the count (it does not depend on the order of the cards, and a whole shoe
    counts to 0).
- `App` (`app.dfy`) holds class `BlackJack`. Its fields are the session state:
  - `deck`, `currentIndex`, `runningCount` and `choices`;
  - `quizPending`, which stands for "the quiz input box is on screen";
  - `isRunning`, used by Timed Mode;
  - `feedback`, the text of the feedback label.

Each handler of the session is a method with a `modifies` frame. Each method is
proved against three kinds of fact:

- the class invariant `Valid`:
  - a 52-card deck where every card has a Hi-Lo value;
  - an index in 0..51;
  - checkpoints from `range(5, 53, 5)`;
- the Normal Mode invariant `NormalInvariant`: the count is the sum over the
  cards before the index, leaving out checkpoint positions, and a quiz is open
  exactly at a checkpoint;
- the Timed Mode invariant `TimedInvariant`: the count is the sum over every
  card before the index, and an open quiz follows a checkpoint with dealing
  paused.

How the deck stays a shuffle of the full deck:

- The constructor deals `FullDeck()`.
- Every method that changes the deck ensures `IsShuffleOf(deck, old(deck))`.
- `SessionDecks` proves that every deck in such a chain holds the 52 rank-suit
  cards once each and counts to 0.

Randomness is passed in as parameters:

- `random.shuffle` becomes a `shuffled` argument, and the precondition says only
  that it is a permutation of the current deck.
- `random.choices(range(5, 53, 5), k=3)` becomes a `draws` argument: any three
  values from {5, 10, ..., 50}, duplicates allowed.

Three behaviours of the code that the model keeps as they are:

- The checkpoints are drawn *with* replacement (`random.choices`), so
  duplicates are possible.
- Only in Timed Mode is the count the sum of every card before the index. Normal
  Mode never adds the hidden checkpoint card; `Cards.CountSkippingOneSkip`
  states the difference, which is exactly that card's value.
- `int(...)` raises on a non-numeric answer. See "Left out".

## Model

| member | source | states |
|---|---|---|
| Cards.HiLoValue | blackjack/src/blackjack/app.py:23-27 | a rank's table value is -1, 0 or +1 |
| Cards.HiLoBands | blackjack/src/blackjack/app.py:23-30 | a rank is worth +1 iff it is among the first five ranks (2-6); 0 iff among the next three (7-9); -1 iff among the last five (10, J, Q, K, A) |
| Cards.HiLoKeys | blackjack/src/blackjack/app.py:23-30 | the table has an entry for exactly the ranks in `RANKS` |
| Cards.HiLoTable | blackjack/src/blackjack/app.py:23-30 | the value of the k-th rank is +1 for k < 5, 0 for k < 8, and -1 otherwise |
| Cards.RankOf | blackjack/src/blackjack/app.py:139 | `card[:-1]`: the name is the result followed by its last character; an empty name gives an empty rank |
| Cards.CardValue | blackjack/src/blackjack/app.py:138-140 | a card with a known rank adds -1, 0 or +1 to the count |
| Cards.FullDeck | blackjack/src/blackjack/app.py:29-31 | the comprehension yields 13 × 4 = 52 names |
| Cards.FullDeckLayout | blackjack/src/blackjack/app.py:31 | rank `a` with suit `b` sits at position `a * 4 + b` (ranks are the outer loop, suits the inner) |
| Cards.RankOfCard | blackjack/src/blackjack/app.py:139 | dropping the last character of rank+suit gives the rank back, including "10", and that rank is a table key |
| Cards.CardNameInjective | blackjack/src/blackjack/app.py:29-31 | equal names come from the same rank and the same suit |
| Cards.FullDeckRanks | blackjack/src/blackjack/app.py:29-31 | every name in the deck yields the rank of its block of four, which has a table entry |
| Cards.FullDeckDistinct | blackjack/src/blackjack/app.py:29-31 | no two positions of the deck hold the same name |
| Cards.FullDeckComplete | blackjack/src/blackjack/app.py:29-31 | every rank-suit pair is in the deck |
| Cards.ShuffledDeckCards | blackjack/src/blackjack/app.py:93 | any shuffle of the full deck has 52 distinct names, one per rank-suit pair, each with a Hi-Lo value |
| Cards.ReshuffledDeck | blackjack/src/blackjack/app.py:145-147 | a reshuffle keeps the deck's size and a Hi-Lo value for every card |
| Cards.ShuffleKeepsDistinct | blackjack/src/blackjack/app.py:93 | reordering a deck without duplicate names creates none |
| Cards.CountOf | blackjack/src/blackjack/app.py:245-247 | the running count after a run of n cards lies in [-n, n] |
| Cards.CountPrefix | blackjack/src/blackjack/app.py:245-257 | the Timed Mode count of the first n cards of the deck, every card counted, lies in [-n, n] |
| Cards.CountPrefixIsCountOf | blackjack/src/blackjack/app.py:245-257 | counting the first n cards as they are dealt equals the count of the run `deck[..n]`, so the facts about runs (order does not matter, a shoe counts to 0) apply to the running count |
| Cards.CountPrefixWhole | blackjack/src/blackjack/app.py:245-257 | counting every card of a deck as it is dealt gives the count of the whole run |
| Cards.CountOfStep | blackjack/src/blackjack/app.py:245-247 | counting one more card of the deck adds exactly that card's value |
| Cards.CountOfConcat | blackjack/src/blackjack/app.py:245-247 | the count of two runs dealt one after the other is the sum of their counts |
| Cards.CountOfRemove | blackjack/src/blackjack/app.py:245-247 | taking one card out of a run lowers the count by exactly that card's value |
| Cards.CountOfShuffle | blackjack/src/blackjack/app.py:93 | two runs holding the same cards in any order have the same count |
| Cards.FullDeckValue | blackjack/src/blackjack/app.py:23-31 | in the unshuffled deck, cards 0-19 count +1, cards 20-31 count 0 and cards 32-51 count -1 |
| Cards.DeckPrefixCount | blackjack/src/blackjack/app.py:23-31 | the count of the first n unshuffled cards is n up to 20, then 20 up to 32, then 20 - (n - 32) |
| Cards.ShoeIsBalanced | blackjack/src/blackjack/app.py:145-147 | any shuffle of the full deck counts to 0 |
| Cards.TimedPassBalanced | blackjack/src/blackjack/app.py:245-257 | in Timed Mode the count after every card of a shuffled deck is 0, so resetting it to 0 at the reshuffle agrees with a full pass |
| Cards.CountSkipping | blackjack/src/blackjack/app.py:134-142 | the Normal Mode count of the first n positions, skipping checkpoints, lies in [-n, n] |
| Cards.CountSkippingBeforeSkips | blackjack/src/blackjack/app.py:134-150 | before the first checkpoint, the Normal Mode count equals the Timed Mode count of every card |
| Cards.CountSkippingOneSkip | blackjack/src/blackjack/app.py:142-175 | past a single checkpoint p, the Normal Mode count is the full count minus the value of the hidden card at p |
| App.Grade | blackjack/src/blackjack/app.py:127-130 | the answer is Correct iff it equals the running count, otherwise Wrong with the running count |
| App.SessionDecks | blackjack/src/blackjack/app.py:145-147 | every deck in a chain of reshuffles starting from the comprehension's deck is a shuffle of the full deck: no duplicates, a Hi-Lo value for every card, total count 0 |
| App.BlackJack.constructor | blackjack/src/blackjack/app.py:23-44 | start-up builds the comprehension's deck and leaves the home-screen state (no quiz, not running, index 0, count 0); the class invariant holds |
| App.BlackJack.ShowHome | blackjack/src/blackjack/app.py:53-57 | clears the quiz and running flags and resets index and count to 0; afterwards both mode invariants hold |
| App.BlackJack.StepIndex | blackjack/src/blackjack/app.py:142-147 | the index moves to the next position; past 51 the deck becomes the reshuffle and index and count return to 0; the deck stays a shuffle of the old one |
| App.BlackJack.NormalMode | blackjack/src/blackjack/app.py:90-94 | reshuffles and installs the three draws; entered from home, the Normal Mode invariant holds and no quiz is open |
| App.BlackJack.TimedMode | blackjack/src/blackjack/app.py:189-195 | as Normal Mode, and dealing starts; entered from home, the Timed Mode invariant holds and no quiz is open |
| App.BlackJack.Next | blackjack/src/blackjack/app.py:120-183 | an open quiz with empty input only shows the warning, with nothing else changed; otherwise a typed answer is graded against the count and the hidden card is passed over uncounted, or without a quiz the current card is counted; then the index advances (wrapping with a reshuffle) and a quiz is open exactly when the new index is a checkpoint; the Normal Mode invariant is preserved |
| App.BlackJack.TimedTick | blackjack/src/blackjack/app.py:228-305 | while paused nothing changes; otherwise the current card is counted before the index advances (wrapping with a reshuffle), and if the counted position is a checkpoint a quiz opens and dealing pauses; the Timed Mode invariant is preserved |
| App.BlackJack.DealCurrent | blackjack/src/blackjack/app.py:244-249 | adds the current card's value to the count and clears the feedback; from a count of every earlier card it gives the count of every card up to and including the current one |
| App.BlackJack.CheckCountTimedMode | blackjack/src/blackjack/app.py:307-331 | empty input only shows the warning; a typed answer is graded against the count, closes the quiz and resumes dealing; deck, index and count are outside its frame; the Timed Mode invariant is preserved |
| App.BlackJack.StopTimed | blackjack/src/blackjack/app.py:333-337 | only `isRunning` changes, to false; the Timed Mode invariant is preserved |
| App.BlackJack.ResumeTimed | blackjack/src/blackjack/app.py:339-342 | only `isRunning` changes, to true; with no quiz open (the button is off screen during a quiz) the Timed Mode invariant is preserved |

## Left out

- Toga widget work is not modelled: windows, boxes, labels, buttons, images,
  sliders and commands, and adding or removing widgets. The quiz input box
  becomes the boolean `quizPending`. The feedback label becomes the `Feedback`
  datatype.
- Card images and their file names are not modelled.
- asyncio is not modelled: creating and cancelling the timed task, the
  `asyncio.sleep` waits, and the 1.5-second `show_feedback_delay` pause. One
  iteration of the `start_timed_mode` loop is the synchronous `TimedTick`.
- App.BlackJack.TimedTick: does not model a Stop press that arrives during the
  wait after the `is_running` test. In the code that card is still counted. The
  model counts atomically, as if the press came after the tick.
- The speed slider and `self.speed` are not modelled. They are floats used only
  as delays.
- The probability distributions of `random.shuffle` and `random.choices` are not
  modelled. Any permutation and any three checkpoints are allowed.
- Parsing the answer with `int(...)` is not modelled. An answer is either empty
  or a whole number. In the code a non-numeric string raises an exception, and
  the model does not invent a graceful refusal for it.
- The debugging `print` in `timed_mode` and `main()` are not modelled.
- The `choices` attribute does not exist before a mode is entered. The model
  starts it as the empty sequence, which no handler reads before a mode sets it.
- App.BlackJack.CheckCountTimedMode: has no precondition. In the code it reads
  `self.input`, which exists only once a quiz has opened.
