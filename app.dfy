/** The card-counting session of the BlackJack trainer: the shuffled deck, the
    position in it, the Hi-Lo running count, the quiz checkpoints, and the two
    ways of walking through the deck (Normal Mode, one card per press of Next,
    and Timed Mode, one card per tick of a timer that can be paused). */
module App {
  import opened Cards

  /** What the player typed into the quiz box: nothing, or a whole number. */
  datatype Answer = NoInput | Typed(value: int)

  /** The text of the feedback label. */
  datatype Feedback =
    | Cleared                // ""
    | InsertCount            // the warning shown for an empty answer
    | Correct
    | Wrong(expected: int)   // shows the running count that was expected

  /** Grades a typed answer against the running count. */
  function Grade(typed: int, runningCount: int): (f: Feedback)
    ensures f == Correct <==> typed == runningCount
    ensures f != Correct ==> f == Wrong(runningCount)
  {
    if typed == runningCount then Correct else Wrong(runningCount)
  }

  /** A position that `range(5, 53, 5)` yields: 5, 10, ..., 50 (the last
      multiple of 5 below 53 is 50). */
  predicate IsCheckpoint(p: int)
  {
    5 <= p <= 50 && p % 5 == 0
  }

  /** What three draws with replacement from `range(5, 53, 5)` can give. */
  predicate IsDraw(draws: seq<int>)
  {
    |draws| == 3 && forall p :: p in draws ==> IsCheckpoint(p)
  }

  /** The decks a session goes through: the one dealt at start-up, then each
      deck a method leaves behind, a reshuffle of the one before (every method
      of BlackJack either leaves `deck` out of its frame or ensures
      `IsShuffleOf(deck, old(deck))`). Each of them is a
      shuffle of the full deck, so it holds the 52 rank-suit cards once each and
      counts to 0 over a whole pass. */
  lemma {:induction false} SessionDecks(decks: seq<seq<string>>)
    requires |decks| >= 1 && decks[0] == FullDeck()
    requires forall i :: 0 < i < |decks| ==> IsShuffleOf(decks[i], decks[i - 1])
    ensures forall i :: 0 <= i < |decks| ==> IsShuffleOf(decks[i], FullDeck())
    ensures forall i :: 0 <= i < |decks| ==>
              NoDuplicates(decks[i]) && AllRanked(decks[i]) && CountOf(decks[i]) == 0
  {
    if |decks| > 1 {
      var earlier := decks[..|decks| - 1];
      assert forall i :: 0 <= i < |earlier| ==> earlier[i] == decks[i];
      SessionDecks(earlier);
    }
    forall i | 0 <= i < |decks|
      ensures IsShuffleOf(decks[i], FullDeck())
      ensures NoDuplicates(decks[i]) && AllRanked(decks[i]) && CountOf(decks[i]) == 0
    {
      if i > 0 {
        assert decks[..|decks| - 1][i - 1] == decks[i - 1];
      }
      ShuffledDeckCards(decks[i]);
      ShoeIsBalanced(decks[i]);
    }
  }

  class BlackJack {
    var deck: seq<string>
    var currentIndex: int
    var runningCount: int
    var choices: seq<int>
    /** A quiz box is on screen, waiting for the running count. */
    var quizPending: bool
    /** Timed Mode is dealing (not paused and not waiting for an answer). */
    var isRunning: bool
    var feedback: Feedback

    /** The deck holds 52 cards with a Hi-Lo value each, the index points into
        it, and the checkpoints come from `range(5, 53, 5)`. That the deck is a
        shuffle of the 52 cards follows from the constructor dealing FullDeck()
        and every other method keeping the deck's multiset (SessionDecks). */
    ghost predicate Valid()
      reads this`deck, this`currentIndex, this`choices
    {
      && |deck| == 52
      && AllRanked(deck)
      && 0 <= currentIndex < |deck|
      && forall p :: p in choices ==> IsCheckpoint(p)
    }

    /** The state the home screen leaves behind. */
    ghost predicate AtHome()
      reads this
    {
      !quizPending && !isRunning && currentIndex == 0 && runningCount == 0
    }

    /** Normal Mode: the running count is the Hi-Lo sum of the cards before the
        current one, leaving out the cards at checkpoint positions (those are
        never shown), and a quiz is open exactly when the current position is a
        checkpoint. */
    ghost predicate NormalInvariant()
      reads this
    {
      && Valid()
      && CountsUnskipped()
      && (quizPending <==> currentIndex in choices)
    }

    /** The running count is the Hi-Lo sum of the cards before the current one,
        leaving out the cards at checkpoint positions. */
    ghost predicate CountsUnskipped()
      reads this`deck, this`currentIndex, this`runningCount, this`choices
    {
      && 0 <= currentIndex <= |deck|
      && AllRanked(deck)
      && runningCount == CountSkipping(deck, currentIndex, choices)
    }

    /** The running count is the Hi-Lo sum of every card before the current
        one. */
    ghost predicate CountsAllBefore()
      reads this`deck, this`currentIndex, this`runningCount
    {
      && 0 <= currentIndex <= |deck|
      && AllRanked(deck)
      && runningCount == CountPrefix(deck, currentIndex)
    }

    /** Timed Mode: the running count is the Hi-Lo sum of every card before the
        current one, and an open quiz follows the card at a checkpoint and keeps
        the dealing paused. */
    ghost predicate TimedInvariant()
      reads this
    {
      && Valid()
      && CountsAllBefore()
      && (quizPending ==> !isRunning && currentIndex >= 1 && currentIndex - 1 in choices)
    }

    /** The move to the next position after position `from` of `oldDeck`: past
        the last card the deck is replaced by `shuffled` and both the index and
        the count start again from 0; otherwise the deck stays and the count
        becomes `count`. */
    ghost predicate Advanced(oldDeck: seq<string>, from: int, count: int, shuffled: seq<string>)
      reads this
    {
      if from + 1 > 51 then deck == shuffled && currentIndex == 0 && runningCount == 0
      else deck == oldDeck && currentIndex == from + 1 && runningCount == count
    }

    /** `current_index += 1`, and past the last card a reshuffle with index and
        count back at 0. */
    method StepIndex(shuffled: seq<string>)
      requires Valid() && IsShuffleOf(shuffled, deck)
      modifies this`deck, this`currentIndex, this`runningCount
      ensures Valid() && IsShuffleOf(deck, old(deck))
      ensures Advanced(old(deck), old(currentIndex), old(runningCount), shuffled)
    {
      currentIndex := currentIndex + 1;
      if currentIndex > 51 {
        ReshuffledDeck(deck, shuffled);
        deck := shuffled;
        currentIndex, runningCount := 0, 0;
      }
    }

    /** Application start-up: the deck in comprehension order, then the home
        screen. No checkpoints exist before a mode is entered. */
    constructor ()
      ensures Valid() && AtHome()
      ensures deck == FullDeck()
      ensures choices == [] && feedback == Cleared
    {
      deck := FullDeck();
      choices := [];
      feedback := Cleared;
      quizPending := false;
      isRunning := false;
      currentIndex := 0;
      runningCount := 0;
      new;
      FullDeckRanks();
    }

    /** Entering the home screen resets the session and leaves deck and
        checkpoints as they are. */
    method ShowHome()
      requires Valid()
      modifies this`quizPending, this`isRunning, this`currentIndex, this`runningCount
      ensures Valid() && AtHome()
      ensures NormalInvariant() && TimedInvariant()
    {
      quizPending := false;
      isRunning := false;
      currentIndex := 0;
      runningCount := 0;
    }

    /** Entering Normal Mode: the deck is reshuffled and three checkpoints are
        drawn. Entered from the home screen, the Normal Mode invariant holds and
        no quiz is open. */
    method NormalMode(shuffled: seq<string>, draws: seq<int>)
      requires Valid() && IsShuffleOf(shuffled, deck) && IsDraw(draws)
      modifies this`deck, this`choices, this`feedback
      ensures Valid() && IsShuffleOf(deck, old(deck))
      ensures deck == shuffled && choices == draws && feedback == Cleared
      ensures old(AtHome()) ==> NormalInvariant() && !quizPending
    {
      ReshuffledDeck(deck, shuffled);
      deck := shuffled;
      choices := draws;
      feedback := Cleared;
    }

    /** Entering Timed Mode: as for Normal Mode, and dealing starts. */
    method TimedMode(shuffled: seq<string>, draws: seq<int>)
      requires Valid() && IsShuffleOf(shuffled, deck) && IsDraw(draws)
      modifies this`deck, this`choices, this`feedback, this`isRunning
      ensures Valid() && IsShuffleOf(deck, old(deck))
      ensures deck == shuffled && choices == draws && feedback == Cleared && isRunning
      ensures old(AtHome()) ==> TimedInvariant() && !quizPending
    {
      ReshuffledDeck(deck, shuffled);
      isRunning := true;
      deck := shuffled;
      choices := draws;
      feedback := Cleared;
    }

    /** A press of Next in Normal Mode. With a quiz open, an empty answer only
        brings up the warning; a typed answer is graded and the hidden card at
        the checkpoint is passed over without being counted. Without a quiz the
        current card is counted. Either way the index then moves on (wrapping
        with a reshuffle), and a quiz opens if the new position is a
        checkpoint. */
    method Next(answer: Answer, shuffled: seq<string>)
      requires Valid() && IsShuffleOf(shuffled, deck)
      modifies this`deck, this`currentIndex, this`runningCount, this`quizPending, this`feedback
      ensures Valid() && IsShuffleOf(deck, old(deck))
      ensures old(quizPending) && answer.NoInput? ==>
                && feedback == InsertCount && quizPending
                && deck == old(deck) && currentIndex == old(currentIndex)
                && runningCount == old(runningCount)
      ensures !(old(quizPending) && answer.NoInput?) ==>
                && feedback == (if old(quizPending) then Grade(answer.value, old(runningCount)) else Cleared)
                && Advanced(old(deck), old(currentIndex),
                            if old(quizPending) then old(runningCount)
                            else old(runningCount) + CardValue(old(deck[currentIndex])),
                            shuffled)
                && quizPending == (currentIndex in choices)
      ensures old(NormalInvariant()) ==> NormalInvariant()
    {
      ghost var inv := NormalInvariant();
      if quizPending {
        if answer.NoInput? {
          feedback := InsertCount;
          assert inv ==> Valid() && CountsUnskipped();
          return;
        }
        feedback := Grade(answer.value, runningCount);
        quizPending := false;
      } else {
        feedback := Cleared;
        runningCount := runningCount + CardValue(deck[currentIndex]);
      }
      assert inv ==> runningCount == CountSkipping(deck, currentIndex + 1, choices);

      StepIndex(shuffled);
      assert inv ==> CountsUnskipped();

      if currentIndex in choices {
        quizPending := true;
        return;
      }
    }

    /** One pass of the Timed Mode loop, without its waits. While paused it does
        nothing. Otherwise the current card is counted first; then, if the
        position just counted is a checkpoint, the index moves on, a quiz opens
        and dealing pauses; if not, the index moves on. Moving past the last card
        reshuffles and restarts index and count at 0. */
    method TimedTick(shuffled: seq<string>)
      requires Valid() && IsShuffleOf(shuffled, deck)
      modifies this`deck, this`currentIndex, this`runningCount, this`quizPending, this`isRunning, this`feedback
      ensures Valid() && IsShuffleOf(deck, old(deck))
      ensures !old(isRunning) ==> unchanged(this)
      ensures old(isRunning) ==>
                && feedback == Cleared
                && Advanced(old(deck), old(currentIndex),
                            old(runningCount) + CardValue(old(deck[currentIndex])), shuffled)
                && (if old(currentIndex) in choices then quizPending && !isRunning
                    else quizPending == old(quizPending) && isRunning)
      ensures old(TimedInvariant()) ==> TimedInvariant()
    {
      if !isRunning {
        return;
      }
      DealCurrent();
      if currentIndex in choices {
        assert IsCheckpoint(currentIndex);
        StepIndex(shuffled);
        quizPending := true;
        isRunning := false;
        return;
      }
      StepIndex(shuffled);
    }

    /** Timed Mode counts the card on screen into the running count. */
    method DealCurrent()
      requires Valid()
      modifies this`runningCount, this`feedback
      ensures runningCount == old(runningCount) + CardValue(deck[currentIndex]) && feedback == Cleared
      ensures old(CountsAllBefore()) ==> runningCount == CountPrefix(deck, currentIndex + 1)
    {
      runningCount := runningCount + CardValue(deck[currentIndex]);
      feedback := Cleared;
    }

    /** Submitting the Timed Mode quiz. An empty answer only brings up the
        warning; a typed answer is graded against the running count, the quiz
        closes and dealing resumes. Deck, index and count are never touched. */
    method CheckCountTimedMode(answer: Answer)
      modifies this`feedback, this`quizPending, this`isRunning
      ensures answer.NoInput? ==>
                feedback == InsertCount && quizPending == old(quizPending) && isRunning == old(isRunning)
      ensures answer.Typed? ==>
                feedback == Grade(answer.value, runningCount) && !quizPending && isRunning
      ensures old(TimedInvariant()) ==> TimedInvariant()
    {
      ghost var inv := TimedInvariant();
      if answer.NoInput? {
        feedback := InsertCount;
        assert inv ==> Valid() && CountsAllBefore();
        return;
      }
      feedback := Grade(answer.value, runningCount);
      quizPending := false;
      isRunning := true;
      assert inv ==> Valid() && CountsAllBefore();
    }

    /** The Stop button: dealing pauses. */
    method StopTimed()
      modifies this`isRunning
      ensures !isRunning
      ensures old(TimedInvariant()) ==> TimedInvariant()
    {
      isRunning := false;
    }

    /** The Resume button: dealing continues. The button is off screen while a
        quiz is open, so the invariant is kept whenever it can be pressed. */
    method ResumeTimed()
      modifies this`isRunning
      ensures isRunning
      ensures old(TimedInvariant()) && !quizPending ==> TimedInvariant()
    {
      isRunning := true;
    }
  }
}
