/** The study-session runner (src/components/StudySession.tsx): it walks
    through the session's cards, records each answer through the scheduler,
    keeps the latest copy of every answered card, the cards answered wrongly,
    the counters and an undo history, and hands the results over after the
    last card. The clock readings are parameters of the operations. */
module StudySessionRunner {
  import opened Wrappers
  import opened Types
  import opened Seqs
  import SpacedRepetition

  /** What one answer changed, enough to take it back. */
  datatype HistoryEntry = HistoryEntry(
    cardId: string,
    prevCard: Flashcard,
    wasCorrect: bool,
    incorrectIndex: Option<nat>,
    hadExistingUpdate: bool)

  datatype SessionStats = SessionStats(correct: nat, incorrect: nat, total: nat)

  /** What the runner hands over when the last card has been answered. */
  datatype StudySessionResult = StudySessionResult(
    updatedCards: seq<Flashcard>,
    incorrectCards: seq<Flashcard>,
    stats: SessionStats,
    startedAt: int,
    finishedAt: int,
    durationMs: int)

  /** The runner's state as a value. */
  datatype RunnerState = RunnerState(
    currentIndex: nat,
    updatedCardsMap: map<string, Flashcard>,
    incorrectCards: seq<Flashcard>,
    sessionStats: SessionStats,
    actionHistory: seq<HistoryEntry>)

  predicate WasCorrect(e: HistoryEntry) { e.wasCorrect }
  predicate WasIncorrect(e: HistoryEntry) { !e.wasCorrect }

  /** The state at the start of a session over `cards`. */
  function InitialState(cards: seq<Flashcard>): RunnerState {
    RunnerState(0, map[], [], SessionStats(0, 0, |cards|), [])
  }

  /** Every stored copy sits under its own id. */
  predicate KeyedById(m: map<string, Flashcard>) {
    forall id :: id in m ==> m[id].id == id
  }

  /** Each history entry of an incorrect answer knows the position its card
      took in the incorrect list: the number of incorrect answers before it. */
  predicate IncorrectIndexed(h: seq<HistoryEntry>) {
    h == [] ||
    (var last := h[|h| - 1];
     && IncorrectIndexed(h[..|h| - 1])
     && last.incorrectIndex == (if last.wasCorrect then None else Some(Count(h[..|h| - 1], WasIncorrect))))
  }

  /** The invariant the two operations keep: every stored copy sits under
      its own id, the index stays on a card, the counters count the correct
      and incorrect answers in the history, and the incorrect list holds one
      card per incorrect answer, each history entry knowing its position. */
  predicate ValidState(cards: seq<Flashcard>, st: RunnerState) {
    && KeyedById(st.updatedCardsMap)
    && (st.currentIndex < |cards| || st.currentIndex == 0)
    && st.sessionStats.total == |cards|
    && st.sessionStats.correct == Count(st.actionHistory, WasCorrect)
    && st.sessionStats.incorrect == Count(st.actionHistory, WasIncorrect)
    && |st.incorrectCards| == Count(st.actionHistory, WasIncorrect)
    && IncorrectIndexed(st.actionHistory)
  }

  lemma InitialStateValid(cards: seq<Flashcard>)
    ensures ValidState(cards, InitialState(cards))
  {
  }

  /** The copy of `card` that answering reviews: its latest update in this
      session, or the card itself. */
  function LatestCopy(m: map<string, Flashcard>, card: Flashcard): (c: Flashcard)
    ensures card.id in m ==> c == m[card.id]
    ensures card.id !in m ==> c == card
  {
    if card.id in m then m[card.id] else card
  }

  /** The session's cards in their order, each replaced by its latest copy. */
  function FinalCards(cards: seq<Flashcard>, m: map<string, Flashcard>): (r: seq<Flashcard>)
    ensures |r| == |cards|
    ensures forall i :: 0 <= i < |cards| ==> r[i] == LatestCopy(m, cards[i])
  {
    seq(|cards|, i requires 0 <= i < |cards| => LatestCopy(m, cards[i]))
  }

  /** One answer to the current card: the new state, and the session result
      when that card was the last one. */
  function AnswerStep(cards: seq<Flashcard>, st: RunnerState, correct: bool, responseTime: int, now: int, startedAt: int)
    : (r: (RunnerState, Option<StudySessionResult>))
    requires st.currentIndex < |cards|
    ensures |r.0.actionHistory| == |st.actionHistory| + 1 && r.0.actionHistory[..|st.actionHistory|] == st.actionHistory
    ensures r.0.sessionStats.correct + r.0.sessionStats.incorrect ==
      st.sessionStats.correct + st.sessionStats.incorrect + 1
    ensures r.1.None? <==> st.currentIndex < |cards| - 1
  {
    var card := cards[st.currentIndex];
    var previous := LatestCopy(st.updatedCardsMap, card);
    var hadExistingUpdate := card.id in st.updatedCardsMap;
    var updated := SpacedRepetition.UpdateCardAfterReview(previous, correct, responseTime, now);
    var entry := HistoryEntry(card.id, previous, correct,
      if correct then None else Some(|st.incorrectCards|), hadExistingUpdate);
    var nextMap := st.updatedCardsMap[updated.id := updated];
    var nextIncorrect := if correct then st.incorrectCards else st.incorrectCards + [updated];
    var nextStats := st.sessionStats.(
      correct := if correct then st.sessionStats.correct + 1 else st.sessionStats.correct,
      incorrect := if correct then st.sessionStats.incorrect else st.sessionStats.incorrect + 1);
    var history := st.actionHistory + [entry];
    if st.currentIndex < |cards| - 1 then
      (RunnerState(st.currentIndex + 1, nextMap, nextIncorrect, nextStats, history), None)
    else
      (RunnerState(st.currentIndex, nextMap, nextIncorrect, nextStats, history),
       Some(StudySessionResult(FinalCards(cards, nextMap), nextIncorrect, nextStats, startedAt, now, now - startedAt)))
  }

  /** The incorrect list with the entry at `i` taken out, when there is one. */
  function RemoveAt(s: seq<Flashcard>, i: Option<nat>): (r: seq<Flashcard>)
    ensures i.Some? && i.value < |s| ==> |r| == |s| - 1 && r == s[..i.value] + s[i.value + 1..]
    ensures !(i.Some? && i.value < |s|) ==> r == s
  {
    if i.Some? && i.value < |s| then s[..i.value] + s[i.value + 1..] else s
  }

  /** A counter taken down by one, never below zero. */
  function Decrement(n: nat): (r: nat)
    ensures n > 0 ==> r == n - 1
    ensures n == 0 ==> r == 0
  {
    if n - 1 > 0 then n - 1 else 0
  }

  /** Undo of the last answer; nothing happens on the first card or with an
      empty history. */
  function UndoStep(st: RunnerState): (r: RunnerState)
    ensures st.currentIndex == 0 || st.actionHistory == [] ==> r == st
    ensures st.currentIndex != 0 && st.actionHistory != [] ==>
      r.currentIndex == st.currentIndex - 1 && r.actionHistory == st.actionHistory[..|st.actionHistory| - 1]
  {
    if st.currentIndex == 0 || st.actionHistory == [] then st
    else
      var last := st.actionHistory[|st.actionHistory| - 1];
      var restored := last.prevCard;
      var newMap := if last.hadExistingUpdate then st.updatedCardsMap[restored.id := restored]
                    else st.updatedCardsMap - {restored.id};
      var stats := st.sessionStats.(
        correct := if last.wasCorrect then Decrement(st.sessionStats.correct) else st.sessionStats.correct,
        incorrect := if last.wasCorrect then st.sessionStats.incorrect else Decrement(st.sessionStats.incorrect));
      RunnerState(st.currentIndex - 1, newMap, RemoveAt(st.incorrectCards, last.incorrectIndex), stats,
        st.actionHistory[..|st.actionHistory| - 1])
  }

  /** Answering keeps the invariant. */
  lemma AnswerKeepsValid(cards: seq<Flashcard>, st: RunnerState, correct: bool, responseTime: int, now: int, startedAt: int)
    requires ValidState(cards, st) && st.currentIndex < |cards|
    ensures ValidState(cards, AnswerStep(cards, st, correct, responseTime, now, startedAt).0)
  {
    var r := AnswerStep(cards, st, correct, responseTime, now, startedAt).0;
    var h := st.actionHistory;
    var entry := r.actionHistory[|h|];
    assert r.actionHistory == h + [entry];
    CountAppend(h, entry, WasCorrect);
    CountAppend(h, entry, WasIncorrect);
  }

  /** Undoing keeps the invariant. */
  lemma UndoKeepsValid(cards: seq<Flashcard>, st: RunnerState)
    requires ValidState(cards, st)
    ensures ValidState(cards, UndoStep(st))
  {
    UndoKeepsCorrectCount(st);
    UndoKeepsIncorrectCounts(st);
  }

  /** Undo takes the last answer out of the correct count when it was correct. */
  lemma UndoKeepsCorrectCount(st: RunnerState)
    requires st.sessionStats.correct == Count(st.actionHistory, WasCorrect)
    ensures UndoStep(st).sessionStats.correct == Count(UndoStep(st).actionHistory, WasCorrect)
  {
    if st.currentIndex != 0 && st.actionHistory != [] {
      CountDropLast(st.actionHistory, WasCorrect);
    }
  }

  /** Undo of an incorrect answer takes its card out of the incorrect list,
      at the position its history entry recorded, and lowers the count. */
  lemma UndoKeepsIncorrectCounts(st: RunnerState)
    requires st.sessionStats.incorrect == Count(st.actionHistory, WasIncorrect)
    requires |st.incorrectCards| == Count(st.actionHistory, WasIncorrect)
    requires IncorrectIndexed(st.actionHistory)
    ensures UndoStep(st).sessionStats.incorrect == Count(UndoStep(st).actionHistory, WasIncorrect)
    ensures |UndoStep(st).incorrectCards| == Count(UndoStep(st).actionHistory, WasIncorrect)
  {
    if st.currentIndex != 0 && st.actionHistory != [] {
      CountDropLast(st.actionHistory, WasIncorrect);
    }
  }

  /** Answering a card that is not the last and then undoing gives back the
      state before the answer: map, incorrect list, counters, index and
      history. */
  lemma UndoAfterAnswerRestores(cards: seq<Flashcard>, st: RunnerState, correct: bool, responseTime: int, now: int, startedAt: int)
    requires ValidState(cards, st) && st.currentIndex < |cards| - 1
    ensures UndoStep(AnswerStep(cards, st, correct, responseTime, now, startedAt).0) == st
  {
    var r := AnswerStep(cards, st, correct, responseTime, now, startedAt).0;
    var u := UndoStep(r);
    var card := cards[st.currentIndex];
    var previous := LatestCopy(st.updatedCardsMap, card);
    assert previous.id == card.id;
    assert r.actionHistory[..|r.actionHistory| - 1] == st.actionHistory;
    if card.id in st.updatedCardsMap {
      assert u.updatedCardsMap == st.updatedCardsMap;
    } else {
      assert u.updatedCardsMap == st.updatedCardsMap;
    }
    if !correct {
      assert u.incorrectCards == st.incorrectCards;
    }
  }

  /** An answer reviews the latest copy of the card: a card already
      answered in this session is reviewed from its updated copy, and that
      copy is what undo puts back. */
  lemma AnswerReviewsLatestCopy(cards: seq<Flashcard>, st: RunnerState, correct: bool, responseTime: int, now: int, startedAt: int)
    requires ValidState(cards, st) && st.currentIndex < |cards|
    ensures var card := cards[st.currentIndex];
      var r := AnswerStep(cards, st, correct, responseTime, now, startedAt).0;
      && r.actionHistory[|st.actionHistory|].prevCard == LatestCopy(st.updatedCardsMap, card)
      && r.updatedCardsMap == st.updatedCardsMap[card.id :=
           SpacedRepetition.UpdateCardAfterReview(LatestCopy(st.updatedCardsMap, card), correct, responseTime, now)]
  {
  }

  /** An incorrect answer appends the updated card to the incorrect list; a
      correct one leaves the list alone. */
  lemma AnswerRecordsIncorrect(cards: seq<Flashcard>, st: RunnerState, correct: bool, responseTime: int, now: int, startedAt: int)
    requires ValidState(cards, st) && st.currentIndex < |cards|
    ensures var r := AnswerStep(cards, st, correct, responseTime, now, startedAt).0;
      && (correct ==> r.incorrectCards == st.incorrectCards && r.sessionStats.correct == st.sessionStats.correct + 1)
      && (!correct ==> r.incorrectCards == st.incorrectCards + [r.updatedCardsMap[cards[st.currentIndex].id]]
                       && r.sessionStats.incorrect == st.sessionStats.incorrect + 1)
  {
  }

  /** The last answer hands over every card of the session in its original
      order, each as its latest copy, with the final counters. */
  lemma FinalAnswerEmitsAllCards(cards: seq<Flashcard>, st: RunnerState, correct: bool, responseTime: int, now: int, startedAt: int)
    requires ValidState(cards, st) && st.currentIndex == |cards| - 1
    ensures var (r, result) := AnswerStep(cards, st, correct, responseTime, now, startedAt);
      && result.Some?
      && |result.value.updatedCards| == |cards|
      && (forall i :: 0 <= i < |cards| ==> result.value.updatedCards[i].id == cards[i].id)
      && (forall i :: 0 <= i < |cards| && cards[i].id !in r.updatedCardsMap ==> result.value.updatedCards[i] == cards[i])
      && result.value.incorrectCards == r.incorrectCards
      && result.value.stats == r.sessionStats
      && r.currentIndex == st.currentIndex
  {
    AnswerKeepsValid(cards, st, correct, responseTime, now, startedAt);
  }

  /** The runner as the component holds it: the session's cards and start
      time are fixed, the rest is rewritten by each answer and undo. */
  class StudySession {
    const cards: seq<Flashcard>
    const startedAt: int
    var currentIndex: nat
    var updatedCardsMap: map<string, Flashcard>
    var incorrectCards: seq<Flashcard>
    var sessionStats: SessionStats
    var actionHistory: seq<HistoryEntry>

    function State(): RunnerState
      reads this
    {
      RunnerState(currentIndex, updatedCardsMap, incorrectCards, sessionStats, actionHistory)
    }

    constructor (cards: seq<Flashcard>, startedAt: int)
      ensures this.cards == cards && this.startedAt == startedAt
      ensures State() == InitialState(cards)
    {
      this.cards := cards;
      this.startedAt := startedAt;
      currentIndex := 0;
      updatedCardsMap := map[];
      incorrectCards := [];
      sessionStats := SessionStats(0, 0, |cards|);
      actionHistory := [];
    }

    /** Records an answer to the current card. The new values are computed
        from the current ones and written together, as the component's state
        updates take effect together. */
    method HandleAnswer(correct: bool, responseTime: int, now: int) returns (result: Option<StudySessionResult>)
      requires currentIndex < |cards|
      modifies this
      ensures (State(), result) == AnswerStep(cards, old(State()), correct, responseTime, now, startedAt)
    {
      var currentCard := cards[currentIndex];
      var previousCardState := LatestCopy(updatedCardsMap, currentCard);
      var hadExistingUpdate := currentCard.id in updatedCardsMap;
      var updatedCard := SpacedRepetition.UpdateCardAfterReview(previousCardState, correct, responseTime, now);

      var nextIncorrectIndex := if correct then None else Some(|incorrectCards|);
      var newHistory := actionHistory + [HistoryEntry(currentCard.id, previousCardState, correct, nextIncorrectIndex, hadExistingUpdate)];
      var newMap := updatedCardsMap[updatedCard.id := updatedCard];
      var newIncorrect := incorrectCards;
      if !correct {
        newIncorrect := newIncorrect + [updatedCard];
      }
      var newStats := sessionStats;
      if correct {
        newStats := newStats.(correct := newStats.correct + 1);
      } else {
        newStats := newStats.(incorrect := newStats.incorrect + 1);
      }
      var newIndex := currentIndex;
      if currentIndex < |cards| - 1 {
        newIndex := currentIndex + 1;
        result := None;
      } else {
        var finalCards := FinalCards(cards, newMap);
        result := Some(StudySessionResult(finalCards, newIncorrect, newStats, startedAt, now, now - startedAt));
      }
      currentIndex, updatedCardsMap, incorrectCards, sessionStats, actionHistory :=
        newIndex, newMap, newIncorrect, newStats, newHistory;
    }

    /** Takes back the last answer, if there is one and the runner is past
        the first card. */
    method HandleUndo()
      modifies this
      ensures State() == UndoStep(old(State()))
    {
      if currentIndex == 0 || |actionHistory| == 0 {
        return;
      }
      var lastAction := actionHistory[|actionHistory| - 1];
      var restoredCard := lastAction.prevCard;

      var newMap := updatedCardsMap;
      if lastAction.hadExistingUpdate {
        newMap := newMap[restoredCard.id := restoredCard];
      } else {
        newMap := newMap - {restoredCard.id};
      }

      var newIncorrect := incorrectCards;
      if lastAction.incorrectIndex.Some? {
        var incorrectIdx := lastAction.incorrectIndex.value;
        if incorrectIdx < |newIncorrect| {
          newIncorrect := newIncorrect[..incorrectIdx] + newIncorrect[incorrectIdx + 1..];
        }
      }

      var newStats := sessionStats;
      if lastAction.wasCorrect {
        newStats := newStats.(correct := Decrement(newStats.correct));
      } else {
        newStats := newStats.(incorrect := Decrement(newStats.incorrect));
      }

      currentIndex, updatedCardsMap, incorrectCards, sessionStats, actionHistory :=
        currentIndex - 1, newMap, newIncorrect, newStats, actionHistory[..|actionHistory| - 1];
    }
  }
}
