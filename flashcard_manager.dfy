/** The top-level screen (src/components/FlashcardManager.tsx): it decides
    which actions reach the reducer when the user imports, starts studying,
    completes a run or finishes the summary, counts the answers of a run,
    merges its updated cards into the stored list and builds the session
    record. The clock and the session id are parameters. */
module FlashcardManager {
  import opened Wrappers
  import opened Types
  import opened Seqs
  import SpacedRepetition
  import AppContext
  import StudySessionStats
  import StudySessionRunner

  /** What the summary screen shows about the last run. */
  datatype SessionResults = SessionResults(
    correctCount: nat,
    incorrectCount: nat,
    incorrectCards: seq<Flashcard>,
    updatedCards: seq<Flashcard>)

  /** An import of no cards dispatches nothing. */
  function HandleImport(cards: seq<AppContext.ImportedCard>): (r: Option<AppContext.AppAction>)
    ensures r.None? <==> cards == []
    ensures r.Some? ==> r.value == AppContext.ImportFlashcards(cards)
  {
    if |cards| == 0 then None else Some(AppContext.ImportFlashcards(cards))
  }

  /** Importing through the screen adds exactly as many cards as were
      parsed, after the existing ones, and an empty import changes nothing. */
  lemma HandleImportAddsCards(state: AppContext.AppState, cards: seq<AppContext.ImportedCard>, now: int, newId: nat -> string)
    ensures var next := match HandleImport(cards)
                        case None => state
                        case Some(action) => AppContext.AppReducer(state, action, now, newId);
      && |next.flashcards| == |state.flashcards| + |cards|
      && next.flashcards[..|state.flashcards|] == state.flashcards
      && (cards == [] ==> next == state)
  {
    if cards != [] {
      AppContext.ImportAppends(state, cards, now, newId);
    }
  }

  /** Study mode starts only when some card is due; otherwise the user is
      told there is nothing to review and nothing is dispatched. */
  function HandleStartStudy(flashcards: seq<Flashcard>, now: int): (r: Option<AppContext.AppAction>)
    ensures r.Some? <==> exists c :: c in flashcards && SpacedRepetition.IsDueForReview(c, now)
    ensures r.Some? ==> r.value == AppContext.StartStudy
  {
    var due := SpacedRepetition.GetCardsForReview(flashcards, now);
    assert |due| > 0 ==> due[0] in due;
    if |due| == 0 then None else Some(AppContext.StartStudy)
  }

  /** The last recorded answer of a card was correct. */
  predicate LastAnswerCorrect(c: Flashcard) {
    |c.repetitions| > 0 && c.repetitions[|c.repetitions| - 1].correct
  }

  predicate LastAnswerNotCorrect(c: Flashcard) {
    !LastAnswerCorrect(c)
  }

  /** The counts shown after a run: the cards whose last answer was correct,
      and all the others. */
  function CountAnswers(updatedCards: seq<Flashcard>): (r: (nat, nat))
    ensures r.0 == Count(updatedCards, LastAnswerCorrect)
    ensures r.0 + r.1 == |updatedCards|
  {
    var correctCount := Count(updatedCards, LastAnswerCorrect);
    (correctCount, |updatedCards| - correctCount)
  }

  /** The incorrect count is the number of cards whose last answer was not
      correct, never-reviewed cards included. */
  lemma IncorrectCountIsComplement(updatedCards: seq<Flashcard>)
    ensures CountAnswers(updatedCards).1 == Count(updatedCards, LastAnswerNotCorrect)
  {
    CountSplits(updatedCards, LastAnswerCorrect, LastAnswerNotCorrect);
  }

  /** JavaScript's `find` by id: the first card carrying `id`, if any. */
  function FindById(cards: seq<Flashcard>, id: string): (r: Option<Flashcard>)
    ensures r.Some? ==> r.value in cards && r.value.id == id
    ensures r.None? <==> forall c :: c in cards ==> c.id != id
    ensures r.Some? ==> exists k :: 0 <= k < |cards| && cards[k] == r.value
                                   && forall j :: 0 <= j < k ==> cards[j].id != id
  {
    if cards == [] then None
    else if cards[0].id == id then Some(cards[0])
    else
      var rest := FindById(cards[1..], id);
      assert forall c :: c in cards[1..] ==> c in cards;
      assert rest.Some? ==> forall k :: 0 <= k < |cards| - 1 ==> cards[1..][k] == cards[k + 1];
      rest
  }

  /** Every stored card replaced by the first updated card with its id, if
      there is one. */
  function MergeUpdated(stored: seq<Flashcard>, updatedCards: seq<Flashcard>): (r: seq<Flashcard>)
    ensures |r| == |stored|
    ensures forall i :: 0 <= i < |stored| ==> r[i] == FindById(updatedCards, stored[i].id).GetOr(stored[i])
  {
    seq(|stored|, i requires 0 <= i < |stored| => FindById(updatedCards, stored[i].id).GetOr(stored[i]))
  }

  /** The merge keeps every stored card's position and id; a card the run did
      not touch stays as it was, and a touched one becomes its updated copy. */
  lemma MergeKeepsPositions(stored: seq<Flashcard>, updatedCards: seq<Flashcard>)
    ensures var r := MergeUpdated(stored, updatedCards);
      && (forall i :: 0 <= i < |r| ==> r[i].id == stored[i].id)
      && (forall i :: 0 <= i < |r| && (forall u :: u in updatedCards ==> u.id != stored[i].id) ==> r[i] == stored[i])
      && (forall i :: 0 <= i < |r| && (exists u :: u in updatedCards && u.id == stored[i].id) ==> r[i] in updatedCards)
  {
  }

  /** A run that updated nothing leaves the stored list as it was. */
  lemma MergeNothing(stored: seq<Flashcard>)
    ensures MergeUpdated(stored, []) == stored
  {
  }

  /** Completing a run: the merged list goes to the reducer, which leaves
      study mode, and the summary gets the counts. */
  function HandleStudyComplete(state: AppContext.AppState, updatedCards: seq<Flashcard>, incorrectCards: seq<Flashcard>,
                               now: int, newId: nat -> string): (r: (AppContext.AppState, SessionResults))
    ensures r.0.flashcards == MergeUpdated(state.flashcards, updatedCards) && !r.0.isStudying
    ensures r.0.studySessions == state.studySessions
    ensures r.1.correctCount + r.1.incorrectCount == |updatedCards|
    ensures r.1.correctCount == Count(updatedCards, LastAnswerCorrect)
    ensures r.1.incorrectCards == incorrectCards && r.1.updatedCards == r.0.flashcards
  {
    var (correctCount, incorrectCount) := CountAnswers(updatedCards);
    var updatedFlashcards := MergeUpdated(state.flashcards, updatedCards);
    var next := AppContext.AppReducer(state, AppContext.CompleteStudy(updatedFlashcards), now, newId);
    (next, SessionResults(correctCount, incorrectCount, incorrectCards, updatedFlashcards))
  }

  /** What the completion handler's first parameter holds when it runs: the
      list of cards it declares, or the result record of a run. */
  datatype CompletionArgument =
    | CardList(cards: seq<Flashcard>)
    | ResultRecord(record: StudySessionRunner.StudySessionResult)

  /** The completion handler as written: it calls `filter` on its first
      parameter, which only a list has, so given the result record it throws
      before dispatching anything (`None`); given a list it completes the run
      as `HandleStudyComplete` does. */
  function HandleStudyCompleteAsWritten(state: AppContext.AppState, updatedCards: CompletionArgument,
                                        incorrectCards: seq<Flashcard>, now: int, newId: nat -> string)
    : (r: Option<(AppContext.AppState, SessionResults)>)
    ensures updatedCards.ResultRecord? ==> r.None?
    ensures updatedCards.CardList? ==> r.Some? && !r.value.0.isStudying
  {
    match updatedCards
    case ResultRecord(_) => None
    case CardList(cards) => Some(HandleStudyComplete(state, cards, incorrectCards, now, newId))
  }

  /** The study screen hands its result record to the handler, so as written
      a finished run is never merged and the app stays in study mode; the
      handler reading the record's two lists leaves study mode with the
      run's cards merged and its wrong answers kept for the summary. */
  lemma FinishedRunIsLostAsWritten(state: AppContext.AppState, result: StudySessionRunner.StudySessionResult,
                                   incorrectCards: seq<Flashcard>, now: int, newId: nat -> string)
    ensures HandleStudyCompleteAsWritten(state, ResultRecord(result), incorrectCards, now, newId).None?
    ensures var (next, results) := HandleStudyComplete(state, result.updatedCards, result.incorrectCards, now, newId);
      && !next.isStudying
      && next.flashcards == MergeUpdated(state.flashcards, result.updatedCards)
      && results.incorrectCards == result.incorrectCards
      && results.correctCount + results.incorrectCount == |result.updatedCards|
  {
  }

  /** Reviewing the wrong answers again restarts study mode, only when
      there were some. */
  function HandleReviewIncorrect(results: Option<SessionResults>): (r: Option<AppContext.AppAction>)
    ensures r.Some? <==> results.Some? && |results.value.incorrectCards| > 0
    ensures r.Some? ==> r.value == AppContext.StartStudy
  {
    if results.Some? && |results.value.incorrectCards| > 0 then Some(AppContext.StartStudy) else None
  }

  /** The record of a finished run: as many cards studied as were answered,
      the correct ones, no time measured; missing results count as zeros. */
  function FinishSession(results: Option<SessionResults>, id: string, now: int): (s: StudySession)
    ensures results.None? ==> s.cardsStudied == 0 && s.correctAnswers == 0
    ensures results.Some? ==>
      s.cardsStudied == results.value.correctCount + results.value.incorrectCount && s.correctAnswers == results.value.correctCount
    ensures s.totalTime == Some(0) && s.overdueReviews.None? && s.date == now && s.id == id
  {
    var correctCount := if results.Some? then results.value.correctCount else 0;
    var incorrectCount := if results.Some? then results.value.incorrectCount else 0;
    StudySession(id, now, correctCount + incorrectCount, correctCount, Some(0), None)
  }

  /** The record built from a completed run counts every card of the run,
      never more correct answers than cards, so its accuracy is at most 100. */
  lemma FinishedRunIsConsistent(state: AppContext.AppState, updatedCards: seq<Flashcard>, incorrectCards: seq<Flashcard>,
                                now: int, newId: nat -> string, id: string, finishedAt: int)
    ensures var s := FinishSession(Some(HandleStudyComplete(state, updatedCards, incorrectCards, now, newId).1), id, finishedAt);
      && s.cardsStudied == |updatedCards|
      && s.correctAnswers <= s.cardsStudied
      && StudySessionStats.AccuracyPercent(s.correctAnswers, s.cardsStudied) <= 100
  {
    var s := FinishSession(Some(HandleStudyComplete(state, updatedCards, incorrectCards, now, newId).1), id, finishedAt);
    StudySessionStats.AccuracyAtMostHundred(s.correctAnswers, s.cardsStudied);
  }

  /** The cards of the next run: the wrong answers of the last run when
      there are any, otherwise the cards due for review. */
  function StudySet(results: Option<SessionResults>, flashcards: seq<Flashcard>, now: int): (r: seq<Flashcard>)
    ensures results.Some? && |results.value.incorrectCards| > 0 ==> r == results.value.incorrectCards
    ensures !(results.Some? && |results.value.incorrectCards| > 0) ==>
      r == SpacedRepetition.GetCardsForReview(flashcards, now)
  {
    if results.Some? && |results.value.incorrectCards| > 0 then results.value.incorrectCards
    else SpacedRepetition.GetCardsForReview(flashcards, now)
  }

  /** Without earlier wrong answers every card of the run is due and none is
      learned. */
  lemma FreshRunStudiesDueCards(flashcards: seq<Flashcard>, now: int)
    ensures forall c :: c in StudySet(None, flashcards, now) ==>
      c in flashcards && SpacedRepetition.IsDueForReview(c, now) && !c.IsLearned()
  {
  }
}
