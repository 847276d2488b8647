/** The application state and its reducer (src/context/AppContext.tsx):
    every user action becomes a new state built from the old one, plus the
    helpers that create imported cards and restore defaults on records read
    back from storage. The clock and the id generator are parameters. */
module AppContext {
  import opened Wrappers
  import opened Types
  import opened Seqs
  import SpacedRepetition

  /** A term/definition pair produced by one of the import parsers. */
  datatype ImportedCard = ImportedCard(term: string, definition: string)

  datatype AppState = AppState(
    flashcards: seq<Flashcard>,
    studySessions: seq<StudySession>,
    currentCardIndex: int,
    isFlipped: bool,
    isStudying: bool,
    showImportForm: bool)

  const INITIAL_STATE: AppState := AppState([], [], 0, false, false, false)

  datatype AppAction =
    | HydrateFromStorage(storedCards: Option<seq<Flashcard>>, storedSessions: Option<seq<StudySession>>)
    | ImportFlashcards(cards: seq<ImportedCard>)
    | SetShowImportForm(show: bool)
    | StartStudy
    | ExitStudy
    | CompleteStudy(updatedCards: seq<Flashcard>)
    | UpdateFlashcard(card: Flashcard)
    | DeleteFlashcard(cardId: string)
    | DeleteAllFlashcards
    | AddStudySession(session: StudySession)

  /** A new card from an imported pair: level 0, new, active, no history,
      created now and due now. */
  function CreateFlashcardFromImport(card: ImportedCard, id: string, now: int): (f: Flashcard)
    ensures f.id == id && f.term == card.term && f.definition == card.definition
    ensures f.createdAt == now && f.nextReviewDate == now
    ensures f.repetitions == [] && f.currentLevel == 0 && f.isNew && f.status == Some(Active)
    ensures SpacedRepetition.IsDueForReview(f, now)
  {
    Flashcard(id, card.term, card.definition, now, [], 0, now, true, Some(Active))
  }

  /** The imported pairs as new cards; the k-th gets the id `newId(k)`. */
  function NewFlashcards(cards: seq<ImportedCard>, now: int, newId: nat -> string): (r: seq<Flashcard>)
    ensures |r| == |cards|
    ensures forall k :: 0 <= k < |r| ==> r[k] == CreateFlashcardFromImport(cards[k], newId(k), now)
  {
    seq(|cards|, k requires 0 <= k < |cards| => CreateFlashcardFromImport(cards[k], newId(k), now))
  }

  /** The reducer. Only the fields an action names change; the card index
      and the flip flag are never touched by any action. */
  function AppReducer(state: AppState, action: AppAction, now: int, newId: nat -> string): (r: AppState)
    ensures r.currentCardIndex == state.currentCardIndex && r.isFlipped == state.isFlipped
    ensures !(action.HydrateFromStorage? || action.AddStudySession?) ==> r.studySessions == state.studySessions
    ensures !(action.ImportFlashcards? || action.SetShowImportForm?) ==> r.showImportForm == state.showImportForm
    ensures !(action.StartStudy? || action.ExitStudy? || action.CompleteStudy?) ==> r.isStudying == state.isStudying
    ensures (action.SetShowImportForm? || action.StartStudy? || action.ExitStudy? || action.AddStudySession?)
      ==> r.flashcards == state.flashcards
  {
    match action
    case HydrateFromStorage(storedCards, storedSessions) =>
      state.(flashcards := storedCards.GetOr(state.flashcards),
             studySessions := storedSessions.GetOr(state.studySessions))
    case ImportFlashcards(cards) =>
      state.(flashcards := state.flashcards + NewFlashcards(cards, now, newId),
             showImportForm := false)
    case SetShowImportForm(show) =>
      state.(showImportForm := show)
    case StartStudy =>
      state.(isStudying := true)
    case ExitStudy =>
      state.(isStudying := false)
    case CompleteStudy(updatedCards) =>
      state.(flashcards := updatedCards, isStudying := false)
    case UpdateFlashcard(card) =>
      state.(flashcards := ReplaceById(state.flashcards, card))
    case DeleteFlashcard(cardId) =>
      state.(flashcards := RemoveById(state.flashcards, cardId))
    case DeleteAllFlashcards =>
      state.(flashcards := [])
    case AddStudySession(session) =>
      state.(studySessions := state.studySessions + [session])
  }

  /** Every card whose id matches is replaced by `card`; the others stay. */
  function ReplaceById(cards: seq<Flashcard>, card: Flashcard): (r: seq<Flashcard>)
    ensures |r| == |cards|
    ensures forall i :: 0 <= i < |r| ==> r[i] == (if cards[i].id == card.id then card else cards[i])
  {
    seq(|cards|, i requires 0 <= i < |cards| => if cards[i].id == card.id then card else cards[i])
  }

  /** The cards whose id differs from `cardId`, in their order. */
  function RemoveById(cards: seq<Flashcard>, cardId: string): (r: seq<Flashcard>)
    ensures forall c :: c in r <==> c in cards && c.id != cardId
  {
    Filter(cards, (c: Flashcard) => c.id != cardId)
  }

  /** Hydration keeps the current list for a field the payload lacks. */
  lemma HydrateKeepsMissing(state: AppState, cards: Option<seq<Flashcard>>, sessions: Option<seq<StudySession>>,
                            now: int, newId: nat -> string)
    ensures var r := AppReducer(state, HydrateFromStorage(cards, sessions), now, newId);
      && (cards.None? ==> r.flashcards == state.flashcards)
      && (cards.Some? ==> r.flashcards == cards.value)
      && (sessions.None? ==> r.studySessions == state.studySessions)
      && (sessions.Some? ==> r.studySessions == sessions.value)
  {
  }

  /** Import appends the new cards after the existing ones, each a fresh
      level-0 card due now, and hides the import form. */
  lemma ImportAppends(state: AppState, cards: seq<ImportedCard>, now: int, newId: nat -> string)
    ensures var r := AppReducer(state, ImportFlashcards(cards), now, newId);
      && |r.flashcards| == |state.flashcards| + |cards|
      && r.flashcards[..|state.flashcards|] == state.flashcards
      && (forall k :: 0 <= k < |cards| ==>
            var f := r.flashcards[|state.flashcards| + k];
            && f.term == cards[k].term && f.definition == cards[k].definition
            && f.currentLevel == 0 && f.isNew && f.status == Some(Active) && f.repetitions == []
            && f.createdAt == now && f.nextReviewDate == now)
      && !r.showImportForm
  {
    var added := NewFlashcards(cards, now, newId);
    assert (state.flashcards + added)[..|state.flashcards|] == state.flashcards;
  }

  /** Updating replaces exactly the cards carrying the payload's id. */
  lemma UpdateReplacesById(state: AppState, card: Flashcard, now: int, newId: nat -> string)
    ensures var r := AppReducer(state, UpdateFlashcard(card), now, newId);
      && |r.flashcards| == |state.flashcards|
      && (forall i :: 0 <= i < |r.flashcards| && state.flashcards[i].id == card.id ==> r.flashcards[i] == card)
      && (forall i :: 0 <= i < |r.flashcards| && state.flashcards[i].id != card.id ==>
            r.flashcards[i] == state.flashcards[i])
  {
  }

  /** Deleting removes exactly the cards carrying the id, keeping the rest
      in order, and leaves the sessions alone. */
  lemma DeleteRemovesById(state: AppState, cardId: string, now: int, newId: nat -> string)
    ensures var r := AppReducer(state, DeleteFlashcard(cardId), now, newId);
      && (forall c :: c in r.flashcards <==> c in state.flashcards && c.id != cardId)
      && r.studySessions == state.studySessions
  {
  }

  /** Deleting distributes over concatenation, so the kept cards keep
      their relative order. */
  lemma RemoveByIdKeepsOrder(a: seq<Flashcard>, b: seq<Flashcard>, cardId: string)
    ensures RemoveById(a + b, cardId) == RemoveById(a, cardId) + RemoveById(b, cardId)
  {
    FilterConcat(a, b, (c: Flashcard) => c.id != cardId);
  }

  /** Deleting everything empties the cards and keeps the sessions. */
  lemma DeleteAllEmptiesCards(state: AppState, now: int, newId: nat -> string)
    ensures var r := AppReducer(state, DeleteAllFlashcards, now, newId);
      r.flashcards == [] && r.studySessions == state.studySessions
  {
  }

  /** Adding a session appends it and leaves the cards alone. */
  lemma AddSessionAppends(state: AppState, session: StudySession, now: int, newId: nat -> string)
    ensures var r := AppReducer(state, AddStudySession(session), now, newId);
      r.studySessions == state.studySessions + [session] && r.flashcards == state.flashcards
  {
  }

  /** Completing a study run installs the updated cards and leaves study
      mode; starting and exiting only toggle study mode; opening or closing
      the import form only sets its flag. */
  lemma StudyModeTransitions(state: AppState, updated: seq<Flashcard>, show: bool, now: int, newId: nat -> string)
    ensures AppReducer(state, CompleteStudy(updated), now, newId) == state.(flashcards := updated, isStudying := false)
    ensures AppReducer(state, StartStudy, now, newId) == state.(isStudying := true)
    ensures AppReducer(state, ExitStudy, now, newId) == state.(isStudying := false)
    ensures AppReducer(state, SetShowImportForm(show), now, newId) == state.(showImportForm := show)
  {
  }

  // ---------------------------------------------------------------------
  // Records read back from storage

  /** A stored card as parsed from JSON: `repetitions` is `None` when it is
      not an array and `status` is whatever string, if any, was stored. */
  datatype RawFlashcard = RawFlashcard(
    id: string,
    term: string,
    definition: string,
    createdAt: int,
    repetitions: Option<seq<Repetition>>,
    currentLevel: int,
    nextReviewDate: int,
    isNew: bool,
    status: Option<string>)

  /** A stored session; `overdueReviews` is `None` when it is not a number. */
  datatype RawStudySession = RawStudySession(
    id: string,
    date: int,
    cardsStudied: nat,
    correctAnswers: nat,
    totalTime: Option<nat>,
    overdueReviews: Option<nat>)

  /** The stored card with defaults restored: only the string `"learned"`
      revives as learned, anything else (or nothing) as active; a
      repetitions field that is not an array becomes empty. */
  function ReviveFlashcard(raw: RawFlashcard): (f: Flashcard)
    ensures f.status.Some?
    ensures f.IsLearned() <==> raw.status == Some("learned")
    ensures raw.repetitions.None? ==> f.repetitions == []
    ensures raw.repetitions.Some? ==> f.repetitions == raw.repetitions.value
    ensures f.id == raw.id && f.term == raw.term && f.definition == raw.definition
    ensures f.createdAt == raw.createdAt && f.nextReviewDate == raw.nextReviewDate
    ensures f.currentLevel == raw.currentLevel && f.isNew == raw.isNew
  {
    Flashcard(raw.id, raw.term, raw.definition, raw.createdAt, raw.repetitions.GetOr([]),
      raw.currentLevel, raw.nextReviewDate, raw.isNew,
      Some(if raw.status == Some("learned") then Learned else Active))
  }

  /** The stored session with a missing overdue count restored as 0. */
  function ReviveStudySession(raw: RawStudySession): (s: StudySession)
    ensures s.overdueReviews.Some?
    ensures raw.overdueReviews.None? ==> s.overdueReviews == Some(0)
    ensures raw.overdueReviews.Some? ==> s.overdueReviews == raw.overdueReviews
    ensures s.id == raw.id && s.date == raw.date && s.totalTime == raw.totalTime
    ensures s.cardsStudied == raw.cardsStudied && s.correctAnswers == raw.correctAnswers
  {
    StudySession(raw.id, raw.date, raw.cardsStudied, raw.correctAnswers, raw.totalTime,
      Some(raw.overdueReviews.GetOr(0)))
  }

  /** How a card is written to storage. */
  function StoreFlashcard(f: Flashcard): RawFlashcard {
    RawFlashcard(f.id, f.term, f.definition, f.createdAt, Some(f.repetitions), f.currentLevel,
      f.nextReviewDate, f.isNew,
      match f.status
      case None => None
      case Some(Learned) => Some("learned")
      case Some(Active) => Some("active"))
  }

  /** How a session is written to storage. */
  function StoreStudySession(s: StudySession): RawStudySession {
    RawStudySession(s.id, s.date, s.cardsStudied, s.correctAnswers, s.totalTime, s.overdueReviews)
  }

  /** Writing a card and reading it back gives the card, with an absent
      status made explicit as active. */
  lemma FlashcardRoundTrip(f: Flashcard)
    ensures ReviveFlashcard(StoreFlashcard(f)) == f.(status := Some(f.status.GetOr(Active)))
  {
  }

  /** Writing a session and reading it back gives the session, with an
      absent overdue count made explicit as 0. */
  lemma StudySessionRoundTrip(s: StudySession)
    ensures ReviveStudySession(StoreStudySession(s)) == s.(overdueReviews := Some(s.overdueReviews.GetOr(0)))
  {
  }

  /** Reviving is idempotent: a revived record written back revives to itself. */
  lemma ReviveIdempotent(raw: RawFlashcard, rawSession: RawStudySession)
    ensures ReviveFlashcard(StoreFlashcard(ReviveFlashcard(raw))) == ReviveFlashcard(raw)
    ensures ReviveStudySession(StoreStudySession(ReviveStudySession(rawSession))) == ReviveStudySession(rawSession)
  {
  }
}
