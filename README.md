# Vocabulary flashcards, modelled in Dafny

The application is a desktop flashcard trainer for vocabulary. Each card
carries a term, a definition and a level from 0 to 5. A card's next review
falls 0, 1, 3, 7, 14 or 28 days after its last one, by level.

- A correct answer raises the level; reaching level 5 marks the card learned.
- A wrong answer lowers the level, and two wrong answers in a row reset it to 0.

Cards that stay overdue for a long time lose levels when the data is loaded.
A daily count of overdue cards is kept for a trend chart.

The user can paste cards into an import form or paste text copied from a
Quizlet set. Cards are studied in sessions that allow undo, and finished
sessions are summed per day, month and year.

This project models that core as Dafny modules, one per source file:

| module | source file | form |
|---|---|---|
| `Types` | `src/types.ts` | records and the level schedule |
| `SpacedRepetition` | `src/utils/spacedRepetition.ts` | functions |
| `Overdue` | `src/utils/overdue.ts` | functions; the snapshot step as a method with a loop |
| `StudySessionStats` | `src/utils/studySessionStats.ts` | functions |
| `AppContext` | `src/context/AppContext.tsx` | the reducer and the revive helpers as functions |
| `StudySessionRunner` | `src/components/StudySession.tsx` | a class whose fields the answer and undo methods update |
| `FlashcardManager` | `src/components/FlashcardManager.tsx` | functions |
| `FlashcardList` | `src/components/FlashcardList.tsx` | functions |
| `EditForm` | `src/components/EditForm.tsx` | functions, and a class for the form state |
| `ImportForm` | `src/components/ImportForm.tsx` | functions, a parsing loop, and a class for the form state |
| `QuizletImporter` | `src/utils/quizletImporter.ts` | methods with loops, each proved against a function |
| `ReactWindow` | `src/lib/react-window.tsx` | functions, and a class with a rendering loop |

Three modules support the others:

- `Wrappers` holds `Option`.
- `Seqs` holds filtering, counting and summing over sequences.
- `Strings` holds the JavaScript string operations the parsers use: `trim`, `indexOf`, `split`, global literal `replace`, case folding and string comparison.

In `QuizletImporter` the heading test and the rule that cleans and accepts a
pair are parameters of the strategy loops and of the lemmas about them. The
importer passes its own `HeadingLike` and `Accept`. The loop proofs therefore
hold for any such test and rule, and the properties of `Accept` are proved on
their own.

Time is an integer number of milliseconds and a day is 86 400 000 ms. Every
operation that reads the clock in the source takes `now` as a parameter.
Generated ids are parameters too.

## Model

| member | source | states |
|---|---|---|
| Types.Levels | src/types.ts:7 | The levels are exactly 0..5. |
| Types.ScheduleShape | src/types.ts:38-45 | The schedule has six rows and row i is level i, so the highest level is 5. |
| Types.ScheduleIntervals | src/types.ts:39-44 | The intervals are 0, 1, 3, 7, 14 and 28 days and strictly increase; level 0 has a 0-day interval. |
| SpacedRepetition.IntervalDays | src/utils/spacedRepetition.ts:4-8 | A level 0..5 gets its own row of the schedule (0, 1, 3, 7, 14, 28 days). A level with no row, negative or beyond 5, gets the last row's 28 days; no level gets more. |
| SpacedRepetition.CalculateNextReviewDate | src/utils/spacedRepetition.ts:3-17 | For a level 0..5 the next date is the reference date plus that level's days from the schedule; any other level is scheduled 28 days out. It never fails. |
| SpacedRepetition.NextReviewDateMonotone | src/utils/spacedRepetition.ts:3-17 | A higher level within the table is never due earlier. |
| SpacedRepetition.UpdateCardAfterReview | src/utils/spacedRepetition.ts:19-73 | The review appends exactly one repetition, recording the level before the review, and keeps the earlier ones. It keeps id, term, definition and creation date, and clears `isNew`. The due date is recomputed from the new level. The card is learned iff the answer was correct and the new level is 5. |
| SpacedRepetition.CorrectAnswerRaisesLevel | src/utils/spacedRepetition.ts:40-45 | A correct answer gives level min(level+1, 5), due after that level's interval, and learned iff the new level is 5. |
| SpacedRepetition.IncorrectAnswerLowersLevel | src/utils/spacedRepetition.ts:46-63 | A wrong answer leaves the card active. The level becomes 0 when the two last repetitions, the new one included, both failed, and otherwise max(level-1, 0). |
| SpacedRepetition.FirstFailureOnlyDecrements | src/utils/spacedRepetition.ts:48-51 | A failed first-ever review finds one repetition only, so the level drops by one rather than resetting. |
| SpacedRepetition.TwoFailuresReset | src/utils/spacedRepetition.ts:46-55 | Two wrong answers in a row leave any card at level 0. |
| SpacedRepetition.ReviewKeepsLevelInRange | src/utils/spacedRepetition.ts:36-63 | A review keeps the level within 0..5 when it starts there. |
| SpacedRepetition.ReviewAll | src/utils/spacedRepetition.ts:19-73 | A series of reviews keeps the id and the old repetitions and appends one repetition per review. |
| SpacedRepetition.CorrectStreak | src/utils/spacedRepetition.ts:40-45 | k correct answers in a row from level l reach level min(l+k, 5). |
| SpacedRepetition.FiveCorrectAnswersToLearn | src/utils/spacedRepetition.ts:42-45 | From level 0, a run of correct answers makes the card learned iff it has at least five answers. |
| SpacedRepetition.ReviewScenario | src/utils/spacedRepetition.ts:19-84 | A new card answered right twice is at level 2, due 3 days after the second review. A new card answered wrong twice is at level 0. |
| SpacedRepetition.GetCardsForReview | src/utils/spacedRepetition.ts:75-84 | The result holds exactly the non-learned cards at level 0 or due by `now`. |
| SpacedRepetition.GetCardsForReviewKeepsOrder | src/utils/spacedRepetition.ts:75-84 | Selection distributes over concatenation, so input order is kept. |
| SpacedRepetition.GetCardsByLevel | src/utils/spacedRepetition.ts:86-94 | The keys are exactly 0..5. Each key holds exactly the non-learned cards of that level. |
| SpacedRepetition.GetCardsByLevelKeepsOrder | src/utils/spacedRepetition.ts:89-91 | Each level's list distributes over concatenation, so input order and repeated cards are kept. |
| SpacedRepetition.GetStudyStats | src/utils/spacedRepetition.ts:96-115 | `total` is the number of non-learned cards, `new` the number of new non-learned cards, and `due` the number of cards `getCardsForReview` returns; `new` and `due` never exceed `total`. `byLevel` has keys 0..5, and each holds the number of non-learned cards at that level. |
| SpacedRepetition.ActiveCardsCounts | src/utils/spacedRepetition.ts:102-105 | Filtering the non-learned cards first and then by newness, by due date or by level gives the same cards as one filter on the whole list. |
| SpacedRepetition.StudyStatsLevelsAddUp | src/utils/spacedRepetition.ts:96-115 | When every non-learned level lies in 0..5, the six `byLevel` counts add up to `total`. |
| SpacedRepetition.EmptyStudyStats | src/utils/spacedRepetition.ts:96-115 | With no cards every count is 0 and all six levels are still present. |
| SpacedRepetition.LevelCountsAddUp | src/utils/spacedRepetition.ts:86-115 | When every non-learned level lies in 0..5, the six per-level counts add up to `total`. |
| Overdue.CalculateCardUrgency | src/utils/overdue.ts:22-51 | Overdue iff due by `now`. Then `daysUntilDue` is 0 and `overdueDays` is whole days elapsed, rounded down. Otherwise `overdueDays` is 0 and `daysUntilDue` is the remaining days rounded up, at least 1. Long-overdue means 7 or more days overdue; due-soon means due within 3 days. The score is 3, 2, 1 or 0 by those cases, each stated as an iff. |
| Overdue.UrgencyScoreMonotone | src/utils/overdue.ts:22-51 | A card due earlier never has a lower score. |
| Overdue.CompareByUrgencyAntisymmetric | src/utils/overdue.ts:54-74 | Swapping two cards negates the comparison. |
| Overdue.CompareByUrgencyTransitive | src/utils/overdue.ts:54-74 | The four-key comparison is transitive, so it is a valid sort order. |
| Overdue.CompareByUrgencyTies | src/utils/overdue.ts:54-74 | Two cards tie iff they agree on score, due date, newness and term. |
| Overdue.InsertByUrgency | src/utils/overdue.ts:53-75 | One insertion step of the sort adds exactly one card to the multiset. |
| Overdue.InsertByUrgencySorted | src/utils/overdue.ts:53-75 | Inserting into a sorted list keeps it sorted. |
| Overdue.SortCardsByUrgency | src/utils/overdue.ts:53-75 | The result is a permutation of the input, sorted by score descending, then due date ascending, then old cards before new ones, then term. The input is a value and is not changed. |
| Overdue.SortCardsByUrgencyKeepsSorted | src/utils/overdue.ts:53-75 | An already sorted list is returned as it is. |
| Overdue.SortCardsByUrgencyIdempotent | src/utils/overdue.ts:53-75 | Sorting the sorted output again changes nothing. |
| Overdue.SortCardsByUrgencyStable | src/utils/overdue.ts:53-75 | The sort is stable: the cards that tie with any given card keep their input order. |
| Overdue.UrgencyOrderRanksOverdueFirst | src/utils/overdue.ts:58-60 | In the sorted list, a card with a higher score comes before one with a lower score. |
| Overdue.GetOverdueCards | src/utils/overdue.ts:77-85 | The result holds exactly the non-learned cards due by `now`. |
| Overdue.GetOverdueCardsKeepsOrder | src/utils/overdue.ts:77-85 | The filter distributes over concatenation, so input order is kept. |
| Overdue.GetLongOverdueCards | src/utils/overdue.ts:87-89 | The result holds exactly the non-learned cards at least 7 days overdue, each of them also in the overdue list. |
| Overdue.LongOverdueIsOnePass | src/utils/overdue.ts:87-89 | Filtering the overdue list again equals one filter over the input. |
| Overdue.GetDueSoonCards | src/utils/overdue.ts:91-99 | The result holds exactly the non-learned cards falling due within the next 3 days, `now` excluded. |
| Overdue.GetDueSoonCardsKeepsOrder | src/utils/overdue.ts:91-99 | The filter distributes over concatenation, so input order and repeated cards are kept. |
| Overdue.CountOverdueCards | src/utils/overdue.ts:101-103 | The count is the length of the overdue list, which is the number of non-learned cards due by `now`. |
| Overdue.OverdueAndDueSoonDisjoint | src/utils/overdue.ts:77-99 | No card is both overdue and due soon, and a learned card is in neither list. |
| Overdue.PenalizeCard | src/utils/overdue.ts:159-191 | Cards that are due in the future or less than 3 days overdue come back unchanged. Otherwise the level becomes max(0, level - floor(days/3)). The status is set to active only when the level changes. The due date and every other field are kept. |
| Overdue.ApplyOverduePenalty | src/utils/overdue.ts:156-192 | The sweep keeps the length and order, and penalizes each card on its own. |
| Overdue.PenaltyKeepsLevelsInRange | src/utils/overdue.ts:175-184 | The penalty never raises a level and keeps it within 0..5. |
| Overdue.PenaltyExamples | src/utils/overdue.ts:169-190 | At level 3: 9 days overdue gives level 0, 4 days gives level 2, and 2 days changes nothing. A learned card that loses a level becomes active. |
| Overdue.PenaltyRepeats | src/utils/overdue.ts:156-192 | The sweep is not idempotent. Applying it twice to a level-5 card that is 9 days overdue gives level 2, then level 0, because the due date stays where it was. |
| Overdue.FindSnapshot | src/utils/overdue.ts:134 | `findIndex` by day: the first entry of that day, and no entry of that day before it. |
| Overdue.SortByDay | src/utils/overdue.ts:145-146 | The date sort returns a permutation of the history in date order. |
| Overdue.SortByDayKeepsSorted | src/utils/overdue.ts:145-146 | A history already in date order is left as it is. |
| Overdue.SortByDayStable | src/utils/overdue.ts:145-146 | The sort is stable: the snapshots of any one day keep their input order. |
| Overdue.LastEntries | src/utils/overdue.ts:147 | `slice(-30)`: the last min(n, 30) entries, in order. |
| Overdue.NextOverdueHistory | src/utils/overdue.ts:126-154 | Nothing is written iff today's first entry already holds the count. Otherwise the result is sorted by date and at most 30 long. It is the last `min(n, 30)` entries of some date-sorted rearrangement of the `n` entries of the upserted history (`Upserted`: the first entry of today replaced, or today's entry appended). This holds for every stored history, including out-of-order ones and a clock that moved back. |
| Overdue.RecordOverdueSnapshot | src/utils/overdue.ts:126-148 | The `findIndex` loop and the upsert write exactly what `NextOverdueHistory` prescribes for the number of overdue cards. |
| Overdue.RecordKeepsHistoryWellFormed | src/utils/overdue.ts:132-147 | Recording on a day no earlier than the latest entry keeps one entry per day in date order. Today's count becomes the last entry, replacing an existing entry for today. |
| Overdue.RecordUpsertsLastDay | src/utils/overdue.ts:136-143 | On a well-formed history, replacing today's entry and appending one both amount to replacing the last entry of today. |
| Overdue.RecordDaysKeepsLatest | src/utils/overdue.ts:136-147 | Recording a series of increasing days one by one leaves the last 30 of them. |
| Overdue.RecordNewDay | src/utils/overdue.ts:141-147 | A new later day is appended, then the history is cut to 30. |
| Overdue.FortyDaysKeepThirty | src/utils/overdue.ts:145-147 | Forty daily records leave the latest thirty. |
| StudySessionStats.FoldTotalsSums | src/utils/studySessionStats.ts:24-34 | The fold counts the sessions and sums cards studied, correct answers, minutes and overdue reviews, with a missing value counting 0. |
| StudySessionStats.AccuracyPercent | src/utils/studySessionStats.ts:36-38 | Accuracy is 0 when no card was studied. Otherwise it is 100·correct/studied rounded half up. |
| StudySessionStats.AccuracyAtMostHundred | src/utils/studySessionStats.ts:36-38 | Accuracy is at most 100 when correct ≤ studied, and exactly 100 when they are equal. |
| StudySessionStats.SessionsIn | src/utils/studySessionStats.ts:19-22 | A session counts in a window iff start ≤ date < end. |
| StudySessionStats.CreateSummary | src/utils/studySessionStats.ts:18-44 | The summary holds the totals of the sessions in the window and their accuracy. |
| StudySessionStats.EmptyWindowSummary | src/utils/studySessionStats.ts:18-44 | A window holding no session gives the all-zero summary; an empty list is one case. |
| StudySessionStats.NestedWindowsMonotone | src/utils/studySessionStats.ts:18-34 | A window inside another never has larger totals. |
| StudySessionStats.AggregateStudySessions | src/utils/studySessionStats.ts:46-62 | The day, month and year summaries are taken over their own windows. No sessions give three all-zero summaries. When day ⊆ month ⊆ year, every total of the day is at most that of the month, which is at most that of the year. When no session records more correct answers than cards, all three accuracies are at most 100. |
| StudySessionStats.SummaryAccuracyAtMostHundred | src/utils/studySessionStats.ts:18-44 | When no session records more correct answers than cards, a summary's accuracy is at most 100. |
| AppContext.CreateFlashcardFromImport | src/context/AppContext.tsx:34-46 | The new card has the given id and texts. It is level 0, new, active, with no history, created and due now, hence due for review. |
| AppContext.NewFlashcards | src/context/AppContext.tsx:81 | There is one new card per imported pair, in order. |
| AppContext.AppReducer | src/context/AppContext.tsx:71-134 | No action touches the card index or the flip flag. Sessions change only on hydrate and add-session, and the import-form flag only on import and its setter. |
| AppContext.ReplaceById | src/context/AppContext.tsx:112-114 | Update keeps the length; each card carrying the id becomes the payload, and the others are kept. |
| AppContext.RemoveById | src/context/AppContext.tsx:119 | Delete keeps exactly the cards whose id differs. |
| AppContext.HydrateKeepsMissing | src/context/AppContext.tsx:73-79 | Hydration keeps the current list for each absent payload field. |
| AppContext.ImportAppends | src/context/AppContext.tsx:80-87 | Import keeps the existing cards first, appends the new cards after them, and hides the form. |
| AppContext.UpdateReplacesById | src/context/AppContext.tsx:109-115 | Update replaces exactly the cards with a matching id and keeps every other card, the length and the order. |
| AppContext.DeleteRemovesById | src/context/AppContext.tsx:116-120 | Delete removes exactly the cards with the id and keeps the sessions. |
| AppContext.RemoveByIdKeepsOrder | src/context/AppContext.tsx:119 | Deletion distributes over concatenation, so the kept cards stay in order. |
| AppContext.DeleteAllEmptiesCards | src/context/AppContext.tsx:121-125 | Delete-all empties the cards and leaves the sessions alone. |
| AppContext.AddSessionAppends | src/context/AppContext.tsx:126-130 | Add-session appends one session and leaves the cards unchanged. |
| AppContext.StudyModeTransitions | src/context/AppContext.tsx:88-108 | Complete installs the cards and leaves study mode. Start and exit only toggle `isStudying`, and opening or closing the import form only sets its flag to the value given. |
| AppContext.ReviveFlashcard | src/context/AppContext.tsx:48-61 | The revived status is learned iff the stored one is exactly "learned", and active otherwise. A missing repetition list becomes empty. Every other field is kept. |
| AppContext.ReviveStudySession | src/context/AppContext.tsx:63-69 | A missing overdue count becomes 0; every other field is kept. |
| AppContext.FlashcardRoundTrip | src/context/AppContext.tsx:48-61 | Storing a card and reviving it gives the card back, with an absent status made active. |
| AppContext.StudySessionRoundTrip | src/context/AppContext.tsx:63-69 | Storing a session and reviving it gives it back, with a missing overdue count made 0. |
| AppContext.ReviveIdempotent | src/context/AppContext.tsx:48-69 | Reviving a revived record again changes nothing. |
| StudySessionRunner.InitialStateValid | src/components/StudySession.tsx:26-44 | The initial runner state satisfies the runner's invariant. |
| StudySessionRunner.LatestCopy | src/components/StudySession.tsx:146 | An answered card is read from the map, and any other card is taken as it is. |
| StudySessionRunner.FinalCards | src/components/StudySession.tsx:186-188 | The cards in their original order, each replaced by its updated copy when it has one. |
| StudySessionRunner.AnswerStep | src/components/StudySession.tsx:144-203 | An answer pushes exactly one history entry and raises correct + incorrect by exactly 1. A result is produced iff the card was the last one. |
| StudySessionRunner.UndoStep | src/components/StudySession.tsx:250-289 | Undo is a no-op at index 0 or with an empty history. Otherwise it moves back one card and pops the history. |
| StudySessionRunner.AnswerKeepsValid | src/components/StudySession.tsx:144-203 | An answer keeps the invariant: counters equal the history's counts, the incorrect list holds one entry per wrong answer, each history entry knows its position, the map is keyed by id, and the index is in range. |
| StudySessionRunner.UndoKeepsValid | src/components/StudySession.tsx:250-289 | Undo keeps the same invariant. |
| StudySessionRunner.UndoAfterAnswerRestores | src/components/StudySession.tsx:144-183 | Answering a card that is not the last, then undoing, restores the map, the incorrect list, the counters, the index and the history. |
| StudySessionRunner.AnswerReviewsLatestCopy | src/components/StudySession.tsx:146-148 | A card already answered is reviewed from its updated copy, and that copy is what undo restores. |
| StudySessionRunner.AnswerRecordsIncorrect | src/components/StudySession.tsx:169-177 | A wrong answer appends the updated card to the incorrect list and counts it; a right answer leaves the list alone and counts it. |
| StudySessionRunner.FinalAnswerEmitsAllCards | src/components/StudySession.tsx:184-201 | The last answer hands over every card in the original order, by id, with untouched cards as they were, plus the incorrect list and the counters. |
| StudySessionRunner.StudySession.constructor | src/components/StudySession.tsx:26-44 | A session starts at the first card with an empty map, incorrect list, counters and history. |
| StudySessionRunner.StudySession.HandleAnswer | src/components/StudySession.tsx:144-203 | The new fields and the result are exactly one `AnswerStep`. |
| StudySessionRunner.StudySession.HandleUndo | src/components/StudySession.tsx:250-289 | The new fields are exactly one `UndoStep`. |
| FlashcardManager.HandleImport | src/components/FlashcardManager.tsx:21-24 | Nothing is dispatched iff the list is empty. |
| FlashcardManager.HandleImportAddsCards | src/components/FlashcardManager.tsx:21-24 | An import through the screen adds exactly the parsed cards after the existing ones; an empty one changes nothing. |
| FlashcardManager.HandleStartStudy | src/components/FlashcardManager.tsx:26-33 | Study starts iff some card is due for review. |
| FlashcardManager.CountAnswers | src/components/FlashcardManager.tsx:37-41 | Correct counts the cards whose last repetition is correct, and correct + incorrect is the number of cards. |
| FlashcardManager.IncorrectCountIsComplement | src/components/FlashcardManager.tsx:37-41 | The incorrect count is the number of cards whose last answer was not correct, never-reviewed cards included. |
| FlashcardManager.FindById | src/components/FlashcardManager.tsx:45 | `find` gives the first card with the id, or nothing iff no card has it. |
| FlashcardManager.MergeUpdated | src/components/FlashcardManager.tsx:44-47 | The merge keeps the length, and each stored card becomes the first updated card with its id, if any. |
| FlashcardManager.MergeKeepsPositions | src/components/FlashcardManager.tsx:44-47 | The merge keeps every id in place. An untouched card stays as it was, and a touched one is taken from the run. |
| FlashcardManager.MergeNothing | src/components/FlashcardManager.tsx:44-47 | A run that updated nothing leaves the stored list unchanged. |
| FlashcardManager.HandleStudyComplete | src/components/FlashcardManager.tsx:35-59 | The merged list is installed and study mode ends. The summary gets the counts, the wrong answers and the merged list. |
| FlashcardManager.HandleStudyCompleteAsWritten | src/components/FlashcardManager.tsx:35-40 | Given the result record in place of a list, the handler fails before dispatching anything. Given a list, it completes the run and leaves study mode. |
| FlashcardManager.FinishedRunIsLostAsWritten | src/components/StudySession.tsx:194-201 | As the study screen calls it, the handler never completes a run. The handler reading the record's two lists leaves study mode, merges the run's cards and keeps its wrong answers. |
| FlashcardManager.HandleReviewIncorrect | src/components/FlashcardManager.tsx:67-72 | Study restarts iff there are results with at least one wrong answer. |
| FlashcardManager.FinishSession | src/components/FlashcardManager.tsx:74-88 | The record has cards studied = correct + incorrect, correct answers = correct and total time 0. Missing results count 0. |
| FlashcardManager.FinishedRunIsConsistent | src/components/FlashcardManager.tsx:35-88 | A completed run's record counts every card of the run, with no more correct answers than cards, so its accuracy is at most 100. |
| FlashcardManager.StudySet | src/components/FlashcardManager.tsx:149-151 | The study set is the previous wrong answers when there are any, and the due cards otherwise. |
| FlashcardManager.FreshRunStudiesDueCards | src/components/FlashcardManager.tsx:149-151 | Without earlier wrong answers, every studied card is due and not learned. |
| FlashcardList.GetLevelColor | src/components/FlashcardList.tsx:17-35 | A level in the table gets its colour, and any other level gets the grey fallback. |
| FlashcardList.GetLevelText | src/components/FlashcardList.tsx:26-36 | A level in the table gets its caption, and any other level gets the "unknown" fallback. |
| FlashcardList.LevelLookupsCoverSchedule | src/components/FlashcardList.tsx:17-36 | A level gets a fallback iff it is outside 0..5. |
| FlashcardList.RenderUrgencyBadge | src/components/FlashcardList.tsx:55-124 | A learned card gets no badge. Otherwise a long-overdue badge appears iff the card is long overdue. |
| FlashcardList.BadgeByDueDate | src/components/FlashcardList.tsx:58-124 | For an active card, each of the four badge outcomes is characterised by the due date: 7+ days overdue, overdue, due within 3 days, or later. |
| FlashcardList.HandleRestore | src/components/FlashcardList.tsx:267-275 | Restore gives an active card at level 0, due now, not new, with the other fields copied. |
| FlashcardList.RestoredCardIsDue | src/components/FlashcardList.tsx:267-275 | A restored card is due at once and shows the level-0 colour. |
| FlashcardList.ActiveCards | src/components/FlashcardList.tsx:282-285 | The active tab holds exactly the non-learned cards, an absent status included. |
| FlashcardList.LearnedCards | src/components/FlashcardList.tsx:292-295 | The learned tab holds exactly the learned cards. |
| FlashcardList.TabsKeepOrder | src/components/FlashcardList.tsx:282-295 | Both tabs distribute over concatenation, so the list's order and repeated cards are kept on each tab. |
| FlashcardList.TabsPartitionCards | src/components/FlashcardList.tsx:282-295 | Every card is on exactly one tab, and the two tabs hold as many cards as the list. |
| FlashcardList.SortedActiveCards | src/components/FlashcardList.tsx:287-290 | The active tab shows a permutation of the active cards in urgency order. |
| FlashcardList.CardsToRender | src/components/FlashcardList.tsx:297 | The active tab renders the sorted active cards, and the learned tab renders the learned cards. |
| FlashcardList.LearnedTabHasNoBadges | src/components/FlashcardList.tsx:58-61 | No row of the learned tab shows a badge. |
| EditForm.ClampLevel | src/components/EditForm.tsx:72 | The entry is clamped to 0..5: values in range are kept, lower values give 0, and higher values give 5. |
| EditForm.ClampLevelIdempotent | src/components/EditForm.tsx:72 | Clamping twice equals clamping once, and the result is a schedule level. |
| EditForm.SavedCard | src/components/EditForm.tsx:14-23 | Nothing is saved iff the term or the definition is blank. A saved card has the trimmed, non-empty texts with all other fields copied. |
| EditForm.SaveIsIdempotent | src/components/EditForm.tsx:14-23 | Saving the saved card with its own texts gives the same card. |
| EditForm.SaveCarriesClampedLevel | src/components/EditForm.tsx:72-74 | A level entered before saving is carried, clamped, into the saved card. |
| EditForm.EditFormState.constructor | src/components/EditForm.tsx:10-12 | The form opens on the card with the card's own texts. |
| EditForm.EditFormState.SetTerm | src/components/EditForm.tsx:48 | Typing the term changes only the term. |
| EditForm.EditFormState.SetDefinition | src/components/EditForm.tsx:58 | Typing the definition changes only the definition. |
| EditForm.EditFormState.ChangeLevel | src/components/EditForm.tsx:71-75 | The clamped level is written into the card object itself, and the texts are kept. |
| EditForm.EditFormState.HandleSave | src/components/EditForm.tsx:14-23 | Save hands over exactly `SavedCard` of the current card and texts. |
| ImportForm.InterpretDelimiterKeepsPlainText | src/components/ImportForm.tsx:34-39 | Text without a backslash is taken as it is. |
| ImportForm.InterpretDelimiterEscapes | src/components/ImportForm.tsx:34-39 | An escape `\t`, `\n` or `\r` typed anywhere in text with no other backslash becomes tab, newline or carriage return, and the text around it is kept. |
| ImportForm.ReplaceOneEscape | src/components/ImportForm.tsx:34-39 | One replace pass turns its own escape into its character and leaves a different escape alone. |
| ImportForm.InterpretOneEscape | src/components/ImportForm.tsx:34-39 | The three passes together turn one typed escape into its character, whichever of the three it is. |
| ImportForm.ResolveTermDelimiter | src/components/ImportForm.tsx:41-49 | The term delimiter is a tab, a comma, or the interpreted custom text. |
| ImportForm.ResolveCardSeparator | src/components/ImportForm.tsx:51-59 | The card separator is a newline, a semicolon, or the interpreted custom text. |
| ImportForm.BuiltInDelimitersAreNonEmpty | src/components/ImportForm.tsx:41-78 | Only an empty custom choice can leave a delimiter empty. |
| ImportForm.ParseEntry | src/components/ImportForm.tsx:89-110 | An entry is blank iff it is all whitespace. A non-blank entry without the delimiter is invalid. A card has a non-empty, trimmed term and definition. |
| ImportForm.ParsedAtFirstDelimiter | src/components/ImportForm.tsx:95-102 | The term is the trimmed text before the first delimiter, and the definition is the trimmed rest, which may contain the delimiter. |
| ImportForm.ParseEntryAtFirstDelimiter | src/components/ImportForm.tsx:89-110 | Conversely, an entry whose trimmed text first holds the delimiter at some index is read as the trimmed text before it and the trimmed text after it, and it is invalid exactly when one of these is blank. |
| ImportForm.EveryEntryAccountedFor | src/components/ImportForm.tsx:89-110 | Blank entries are skipped, and every other entry gives exactly one card or one invalid index. |
| ImportForm.InvalidIndicesAreTheInvalidEntries | src/components/ImportForm.tsx:89-110 | An index is reported iff its entry is non-blank and invalid. |
| ImportForm.CardsAreValid | src/components/ImportForm.tsx:101-109 | Every card read has a non-empty, trimmed term and definition. |
| ImportForm.ParseEntries | src/components/ImportForm.tsx:86-110 | The `forEach` loop collects exactly the cards and the invalid indices that the entry-by-entry definitions give. |
| ImportForm.RawEntries | src/components/ImportForm.tsx:80-84 | After CRLF becomes LF the text is split into at least one entry. With the newline choice no entry holds a newline, and joining the entries with one newline gives the text with each newline run collapsed. Otherwise no entry holds the separator, joining with the separator gives the normalised text back, and each cut is at the leftmost occurrence: no entry followed by all but the last character of the separator contains it. |
| ImportForm.ParseText | src/components/ImportForm.tsx:61-122 | Blank input gives no cards and no error. An empty term delimiter or card separator gives its error and no cards. Otherwise the cards are those read entry by entry, and an error is reported iff there are no cards or some entry is invalid. No cards gives the no-valid-cards error. |
| ImportForm.EntriesError | src/components/ImportForm.tsx:112-119 | There is a message iff no card was read or some entry was invalid. No cards gives the no-valid-cards message. With cards and invalid entries, it gives their count and the first invalid line, counted from 1. |
| ImportForm.ParsePastedText | src/components/ImportForm.tsx:61-122 | The early returns, the entry loop and the message compute exactly `ParseText`. |
| ImportForm.PreviewCardsAreValid | src/components/ImportForm.tsx:101-109 | Every previewed card has a non-empty, trimmed term and definition. |
| ImportForm.InsertTab | src/components/ImportForm.tsx:18-30 | The Tab key replaces the selection with one tab character, keeps the text before and after it, and puts the caret right after the tab. |
| ImportForm.InsertTabAddsOneCharacter | src/components/ImportForm.tsx:18-30 | With nothing selected, removing the inserted tab gives back the text. |
| ImportForm.ImportFormState.constructor | src/components/ImportForm.tsx:10-16 | The form starts empty with tab and newline chosen, and with no preview or error. |
| ImportForm.ImportFormState.ParseCards | src/components/ImportForm.tsx:61-122 | The preview and the message become those of `ParseText` on the current input; the input is kept. |
| ImportForm.ImportFormState.HandleTextareaTab | src/components/ImportForm.tsx:18-32 | The text and caret become those of `InsertTab`; the preview is kept. |
| ImportForm.ImportFormState.HandleImport | src/components/ImportForm.tsx:128-135 | An empty preview imports nothing and changes nothing. Otherwise the preview is handed over and the form is cleared. |
| QuizletImporter.CleanLines | src/utils/quizletImporter.ts:22-25 | Every line is non-empty and trimmed. A line is kept iff it is the non-empty trim of a piece of the text split at line ends. |
| QuizletImporter.CleanLinesInOrder | src/utils/quizletImporter.ts:22-25 | Line k is the trim of piece `ix[k]` of the split text. The indices `ix` increase strictly and are exactly the pieces that are not blank once trimmed, so the lines keep the text's order and repeats. |
| QuizletImporter.StripQuotes | src/utils/quizletImporter.ts:31-32 | A quote at each end of a text of two or more characters removes both. A quote at only the start, or only the end, removes that one character. A lone quote becomes empty, and text without end quotes is unchanged. |
| QuizletImporter.Accept | src/utils/quizletImporter.ts:29-36 | An accepted card is valid, and it is the trimmed, unquoted term and definition of the pair. |
| QuizletImporter.AcceptRefusesExactlyInvalid | src/utils/quizletImporter.ts:29-36 | A pair is refused iff a part is missing or the trimmed, unquoted pair is not a valid card: term 1..200 characters, definition 1..500, term not a header word. |
| QuizletImporter.StripQuotesKeepsSlice | src/utils/quizletImporter.ts:31-32 | Removing the quotes leaves a contiguous slice of the text. |
| QuizletImporter.IsHeaderWordIgnoresCase | src/utils/quizletImporter.ts:35 | A term is a header word iff it equals one of the header words ignoring case. |
| QuizletImporter.AcceptRefusesHeadersAndBlanks | src/utils/quizletImporter.ts:30-35 | The header words, blank parts and a term that is only a pair of quotes are refused. |
| QuizletImporter.PushAllKeepsValid | src/utils/quizletImporter.ts:36-39 | Pushing keeps the earlier cards as a prefix; every card stays valid and no pair appears twice. |
| QuizletImporter.PushAllMembers | src/utils/quizletImporter.ts:36-39 | A card is in the result iff it was there already or some candidate was accepted as it. |
| QuizletImporter.PushAllEmptyIff | src/utils/quizletImporter.ts:36-39 | A strategy yields no card iff none of its candidates is accepted. |
| QuizletImporter.PushIfValid | src/utils/quizletImporter.ts:29-41 | The duplicate scan and the push do exactly one push step. |
| QuizletImporter.LineCandidatesSplitAtFirst | src/utils/quizletImporter.ts:47-50 | Each candidate is the line split at the first occurrence of one separator, with the rest rejoined. |
| QuizletImporter.LineCandidatesCount | src/utils/quizletImporter.ts:45-52 | A line gives one candidate per separator it contains. |
| QuizletImporter.MatchCandidates | src/utils/quizletImporter.ts:56-61 | Each candidate of a pattern strategy comes from the match of some line. |
| QuizletImporter.PairCandidatesAreAdjacentLines | src/utils/quizletImporter.ts:73-82 | Each pair is (line i, line i+1) for an even i whose line is not heading-like. |
| QuizletImporter.AdjacentLinesArePairCandidates | src/utils/quizletImporter.ts:73-82 | Every even i whose line is not heading-like gives the pair (line i, line i+1). |
| QuizletImporter.FirstCollectingIsValid | src/utils/quizletImporter.ts:55-95 | Whatever strategy runs, the cards are valid and distinct. |
| QuizletImporter.FirstCollectingPicksFirstAccepting | src/utils/quizletImporter.ts:55-95 | The result is that of the first strategy with an accepted candidate. |
| QuizletImporter.FirstCollectingEmptyIffNoneAccepting | src/utils/quizletImporter.ts:55-95 | The result is empty iff no strategy has an accepted candidate. |
| QuizletImporter.ParsedCardsAreValid | src/utils/quizletImporter.ts:21-98 | Every card has a term of 1..200 and a definition of 1..500 characters, is not a header, and appears once. |
| QuizletImporter.EarlierStrategyWins | src/utils/quizletImporter.ts:55-95 | Each strategy runs only when all earlier ones produced nothing. The output is then that strategy's cards. |
| QuizletImporter.PushLine | src/utils/quizletImporter.ts:46-52 | The loop over separators pushes exactly the line's candidates. |
| QuizletImporter.PushSeparated | src/utils/quizletImporter.ts:45-53 | The loop over lines pushes exactly the separator candidates of all lines. |
| QuizletImporter.PushMatched | src/utils/quizletImporter.ts:56-61 | The loop over lines pushes exactly the pattern candidates. |
| QuizletImporter.PairsPushedIsPushAll | src/utils/quizletImporter.ts:74-81 | Pushing the first n line pairs one by one, skipping heading-like terms, equals pushing their pair candidates. |
| QuizletImporter.PushPairs | src/utils/quizletImporter.ts:74-81 | For any heading test and acceptance rule, the stepping loop pushes exactly the candidates of the ⌊n/2⌋ line pairs. |
| QuizletImporter.ParseQuizletReadableText | src/utils/quizletImporter.ts:21-98 | The parser's loops compute exactly `ParseReadableText`. Every card is valid and no pair is repeated. |
| ReactWindow.CeilDiv | src/lib/react-window.tsx:36 | `Math.ceil(a/b)`: the least c with c·b ≥ a. |
| ReactWindow.VisibleCount | src/lib/react-window.tsx:36 | The rows rendered cover the viewport height plus the overscan on both sides. |
| ReactWindow.WindowRange | src/lib/react-window.tsx:34-43 | The start is at least 0 and at most the row at the scroll offset. The end is at most `itemCount - 1`. At most `VisibleCount` rows are rendered. |
| ReactWindow.RenderedRowsAreBounded | src/lib/react-window.tsx:35-37 | No more than `VisibleCount` rows are rendered, and none when the list is empty. |
| ReactWindow.VisibleRowsAreRendered | src/lib/react-window.tsx:34-43 | With at least one row of overscan, every row overlapping the viewport is rendered. |
| ReactWindow.ZeroOverscanCanMissPartialRow | src/lib/react-window.tsx:35-37 | Without overscan a partly visible last row can be left out. |
| ReactWindow.RowStyleAt | src/lib/react-window.tsx:52-57 | Row i is placed at i·itemSize and is one row tall. |
| ReactWindow.RowsTileContainer | src/lib/react-window.tsx:52-57 | Rows lie inside the container of height itemCount·itemSize, and each starts where the previous one ends. |
| ReactWindow.FixedSizeList.constructor | src/lib/react-window.tsx:21-30 | A list starts scrolled to the top. |
| ReactWindow.FixedSizeList.HandleScroll | src/lib/react-window.tsx:45-47 | The scroll handler stores the new scroll position. |
| ReactWindow.FixedSizeList.Render | src/lib/react-window.tsx:49-67 | The loop renders exactly the rows start..end in increasing order, each with its own style. The container height is itemCount·itemSize. |
| Seqs.InIndicesWhere | src/components/ImportForm.tsx:97-106 | An index is collected iff it is in range and its element satisfies the test. |
| Seqs.IndicesWhereIncreasing | src/components/ImportForm.tsx:97-106 | The collected indices increase strictly. |
| Seqs.FilterAtIndices | src/utils/quizletImporter.ts:25 | The filter keeps one element per collected index, in order: the k-th kept element is the element at the k-th index. |
| Strings.Trim | src/utils/quizletImporter.ts:24 | `trim` gives an empty result iff the text is all whitespace; otherwise the result starts and ends with a non-whitespace character. |
| Strings.TrimIsSlice | src/utils/quizletImporter.ts:24 | The result of `trim` is a slice of the text, and every character cut off before or after it is whitespace. |
| Strings.TrimIdempotent | src/components/ImportForm.tsx:90 | Trimming twice equals trimming once. |
| Strings.IndexOf | src/components/ImportForm.tsx:95 | `indexOf` gives the first occurrence, or nothing iff there is none. |
| Strings.ReplaceAll | src/components/ImportForm.tsx:80 | A global replace changes nothing when the pattern does not occur. In general it equals splitting at the pattern and joining the pieces with the replacement. |
| Strings.Split | src/components/ImportForm.tsx:84 | `split` with a literal separator gives at least one piece, and no piece contains the separator. Each cut is at the leftmost occurrence: a piece followed by all but the last character of the separator does not contain it, so a self-overlapping separator such as `--` on `a---b` gives `["a", "-b"]`. |
| Strings.SplitOverlappingSeparator | src/components/ImportForm.tsx:84 | Splitting `a---b` at `--` gives `["a", "-b"]`, the leftmost cut, as JavaScript's `split` does. |
| Strings.SplitJoin | src/utils/quizletImporter.ts:48-49 | Splitting and joining with the same separator gives back the text. |
| Strings.SplitFirst | src/utils/quizletImporter.ts:48-49 | The head and the rest around the first occurrence rebuild the text; the head does not contain the separator. |
| Strings.SplitNewlineRuns | src/components/ImportForm.tsx:83 | `split(/\n+/)` gives at least one piece, and no piece contains a newline. |
| Strings.SplitNewlineRunsJoin | src/components/ImportForm.tsx:83 | Joining the pieces with one newline gives the text with each run of newlines collapsed to one. |
| Strings.SplitLines | src/utils/quizletImporter.ts:23 | `split(/\r?\n/)` gives at least one piece, and no piece contains a newline. |
| Strings.SplitLinesJoin | src/utils/quizletImporter.ts:23 | Joining the lines with one newline gives the text with the carriage return of each CRLF removed. |
| Strings.EqualsIgnoreCaseIff | src/utils/quizletImporter.ts:35 | Two strings are equal ignoring case iff they have the same length and agree character by character after folding. |
| Strings.FoldCase | src/utils/quizletImporter.ts:35 | ASCII upper-case letters fold to lower case, and other ASCII characters are kept. |
| Strings.CompareStrings | src/utils/overdue.ts:73 | The comparison is -1, 0 or 1, and 0 iff the strings are equal. |
| Strings.CompareStringsAntisymmetric | src/utils/overdue.ts:73 | Swapping the operands negates the comparison. |
| Strings.CompareStringsTransitive | src/utils/overdue.ts:73 | The term order is transitive. |

## Left out

- Dates are integer milliseconds, and an invalid date (NaN) cannot be represented. The penalty sweep's NaN guard (src/utils/overdue.ts:165) and NaN ordering in the sorts are not modelled.
- Calendar arithmetic: "add N days" is N·86 400 000 ms, so daylight-saving shifts of `setDate` are not modelled. The day, month and year windows of the session summary are given as start/end values rather than computed from a local date. Snapshot days are integer day numbers rather than ISO strings.
- `localeCompare` is modelled as plain lexicographic order on code points.
- Strings are sequences of characters. Lengths count characters rather than UTF-16 code units. Case folding covers ASCII letters and the Vietnamese letters of the heading words only.
- Persistence and the environment are not part of this model:
  - storage in IndexedDB and localStorage, including `loadOverdueHistory` and the write of the snapshot history;
  - the hydrate and save effects and the data-loading worker;
  - the Electron shell and the settings form;
  - speech output and the keyboard shortcuts of the study screen.
- The Quizlet URL fetch and its proxy loop (src/utils/quizletImporter.ts:100-144) are network code and are not modelled.
- QuizletImporter: the numbered-list and HTML strategies (src/utils/quizletImporter.ts:57,66) are regular expressions. They are modelled as matcher functions passed in, so what they match is not modelled.
- StudySessionStats: accuracy is exact rounding of 100·correct/studied, while JavaScript's floating-point product can round a few exact halves the other way. Minutes are whole numbers.
- StudySessionStats: a negative or fractional `overdueReviews` or `totalTime` is not modelled; counts are natural numbers.
- EditForm.EditFormState.ChangeLevel: the level entry is taken as an integer. `Number()` of a non-numeric entry (NaN) and fractional entries are not modelled. The card object is a field of the form, so aliasing with the caller's copy of the card is not modelled.
- StudySessionRunner.StudySession.HandleAnswer: requires a current card. The source reads the current card's id and would fail without one. The flip flag, timers and the `useEffect` reset on new cards are left out.
- StudySessionRunner.StudySession: the class methods state their new state as one `AnswerStep`/`UndoStep`; the runner invariant is proved on those functions, not carried as a class invariant.
- FlashcardManager.HandleStudyComplete: takes the run's updated cards and wrong answers as two lists, which is the corrected handler. The handler as written (`HandleStudyCompleteAsWritten`) is modelled too; see Findings.
- FlashcardManager: the handlers that only dispatch (exit, update, delete, delete all; src/components/FlashcardManager.tsx:61-100) are covered by the reducer lemmas; the screen flags and alerts are UI only.
- Overdue.SortCardsByUrgency and Overdue.SortByDay: JavaScript's sort is modelled as an insertion sort, proved stable. The in-place sort of the history array is modelled on sequences.
- ReactWindow: sizes and offsets are whole pixels and `itemSize` must be positive (the source divides by it). The width prop, the child component and its data are rendering only.
- SpacedRepetition.GetStudyStats: the counts cover the non-learned cards and have no "new today" figure and no flag to exclude today, because the code has neither.
- Overdue.ApplyOverduePenalty: applying the sweep twice penalises a card twice, because the due date is left where it was (`PenaltyRepeats`); the model follows the code rather than describing the sweep as idempotent.

## Findings

| source | as written | input that shows it | evidently intended | confidence | as-written member | corrected member |
|---|---|---|---|---|---|---|
| src/components/FlashcardManager.tsx:35-40 | The study screen calls `onComplete` with one result record (src/components/StudySession.tsx:194-201). The handler declares two list parameters and calls `updatedCards.filter`, which a plain record does not have. | Any finished run: the last answer of a one-card session. The handler throws a TypeError, so `COMPLETE_STUDY` is never dispatched, the cards are not merged, and the app stays in study mode. | Read `updatedCards` and `incorrectCards` from the record, count the answers, merge the cards and leave study mode. | high, not executed | FlashcardManager.HandleStudyCompleteAsWritten | FlashcardManager.HandleStudyComplete |
