/** The review scheduler (src/utils/spacedRepetition.ts): when a card is next
    due, how one review outcome moves it between levels and states, which
    cards are due, and the per-level statistics. The clock is the explicit
    parameter `now`. */
module SpacedRepetition {
  import opened Wrappers
  import opened Types
  import opened Seqs

  /** The interval, in days, of a level: its own row of the schedule, or the
      last row for a level that has none (a negative one included). */
  function IntervalDays(level: int): (days: nat)
    ensures days <= SPACED_REPETITION_SCHEDULE[MAX_LEVEL].days
    ensures 0 <= level <= MAX_LEVEL ==> days == SPACED_REPETITION_SCHEDULE[level].days
    ensures !(0 <= level <= MAX_LEVEL) ==> days == SPACED_REPETITION_SCHEDULE[MAX_LEVEL].days
  {
    if 0 <= level < |SPACED_REPETITION_SCHEDULE| then SPACED_REPETITION_SCHEDULE[level].days
    else SPACED_REPETITION_SCHEDULE[|SPACED_REPETITION_SCHEDULE| - 1].days
  }

  /** The reference date advanced by the level's interval in whole days. It
      is defined for every level: one outside the table, below it or
      beyond it, is scheduled like the top level, 28 days out. */
  function CalculateNextReviewDate(level: int, lastReviewDate: int): (next: int)
    ensures lastReviewDate <= next <= lastReviewDate + 28 * MS_PER_DAY
    ensures (next - lastReviewDate) % MS_PER_DAY == 0
    ensures level == 0 ==> next == lastReviewDate
    ensures 0 <= level <= MAX_LEVEL ==> next == lastReviewDate + SPACED_REPETITION_SCHEDULE[level].days * MS_PER_DAY
    ensures !(0 <= level <= MAX_LEVEL) ==> next == lastReviewDate + 28 * MS_PER_DAY
  {
    lastReviewDate + IntervalDays(level) * MS_PER_DAY
  }

  /** A higher level within the table is never due earlier. */
  lemma NextReviewDateMonotone(l1: int, l2: int, from: int)
    requires 0 <= l1 <= l2 <= MAX_LEVEL
    ensures CalculateNextReviewDate(l1, from) <= CalculateNextReviewDate(l2, from)
  {
    ScheduleIntervals();
  }

  /** Whether the last two repetitions are both failures. */
  predicate LastTwoFailed(reps: seq<Repetition>) {
    |reps| >= 2 && !reps[|reps| - 2].correct && !reps[|reps| - 1].correct
  }

  /** The card after one review at time `now`. */
  function UpdateCardAfterReview(card: Flashcard, correct: bool, responseTime: int, now: int): (r: Flashcard)
    ensures r.repetitions == card.repetitions + [Repetition(card.currentLevel, now, correct, responseTime)]
    ensures r.id == card.id && r.term == card.term && r.definition == card.definition
    ensures r.createdAt == card.createdAt
    ensures !r.isNew && r.status.Some?
    ensures r.nextReviewDate == CalculateNextReviewDate(r.currentLevel, now)
    ensures r.IsLearned() <==> correct && r.currentLevel == MAX_LEVEL
  {
    var updatedRepetitions := card.repetitions + [Repetition(card.currentLevel, now, correct, responseTime)];
    var newLevel :=
      if correct then
        (if card.currentLevel + 1 < MAX_LEVEL then card.currentLevel + 1 else MAX_LEVEL)
      else if LastTwoFailed(updatedRepetitions) then 0
      else (if card.currentLevel - 1 > 0 then card.currentLevel - 1 else 0);
    var status := if correct && newLevel == MAX_LEVEL then Learned else Active;
    card.(repetitions := updatedRepetitions,
          currentLevel := newLevel,
          nextReviewDate := CalculateNextReviewDate(newLevel, now),
          isNew := false,
          status := Some(status))
  }

  /** A correct answer raises the level by one, up to the top level 5, and
      the card is learned exactly when it is at the top. */
  lemma CorrectAnswerRaisesLevel(card: Flashcard, responseTime: int, now: int)
    requires 0 <= card.currentLevel <= MAX_LEVEL
    ensures var r := UpdateCardAfterReview(card, true, responseTime, now);
      && r.currentLevel == (if card.currentLevel < MAX_LEVEL then card.currentLevel + 1 else MAX_LEVEL)
      && (r.IsLearned() <==> card.currentLevel + 1 >= MAX_LEVEL)
      && (r.status == Some(Active) <==> card.currentLevel + 1 < MAX_LEVEL)
  {
  }

  /** An incorrect answer never leaves a card learned; it resets the level to
      0 after two failures in a row (the one just recorded included) and
      otherwise lowers it by one, not below 0. */
  lemma IncorrectAnswerLowersLevel(card: Flashcard, responseTime: int, now: int)
    ensures var r := UpdateCardAfterReview(card, false, responseTime, now);
      && r.status == Some(Active)
      && (|card.repetitions| >= 1 && !card.repetitions[|card.repetitions| - 1].correct ==> r.currentLevel == 0)
      && (|card.repetitions| == 0 || card.repetitions[|card.repetitions| - 1].correct ==>
            r.currentLevel == (if card.currentLevel > 0 then card.currentLevel - 1 else 0))
  {
    var r := UpdateCardAfterReview(card, false, responseTime, now);
    var reps := card.repetitions + [Repetition(card.currentLevel, now, false, responseTime)];
    assert |card.repetitions| >= 1 ==> reps[|reps| - 2] == card.repetitions[|card.repetitions| - 1];
  }

  /** A first-ever review that fails finds only one repetition, so there is
      no reset: the level only drops by one. */
  lemma FirstFailureOnlyDecrements(card: Flashcard, responseTime: int, now: int)
    requires card.repetitions == [] && card.currentLevel >= 2
    ensures UpdateCardAfterReview(card, false, responseTime, now).currentLevel == card.currentLevel - 1
  {
  }

  /** Two incorrect answers in a row leave the card at level 0, whatever the
      level before them. */
  lemma TwoFailuresReset(card: Flashcard, rt1: int, t1: int, rt2: int, t2: int)
    ensures UpdateCardAfterReview(UpdateCardAfterReview(card, false, rt1, t1), false, rt2, t2).currentLevel == 0
  {
    var once := UpdateCardAfterReview(card, false, rt1, t1);
    IncorrectAnswerLowersLevel(once, rt2, t2);
  }

  /** A review keeps the level within 0..5 when it starts there. */
  lemma ReviewKeepsLevelInRange(card: Flashcard, correct: bool, responseTime: int, now: int)
    requires 0 <= card.currentLevel <= MAX_LEVEL
    ensures 0 <= UpdateCardAfterReview(card, correct, responseTime, now).currentLevel <= MAX_LEVEL
  {
  }

  /** One review outcome: the answer, the response time and the review time. */
  datatype Review = Review(correct: bool, responseTime: int, at: int)

  /** The card after a series of reviews, oldest first. */
  function ReviewAll(card: Flashcard, reviews: seq<Review>): (r: Flashcard)
    ensures r.id == card.id
    ensures |r.repetitions| == |card.repetitions| + |reviews|
    ensures r.repetitions[..|card.repetitions|] == card.repetitions
    decreases |reviews|
  {
    if reviews == [] then card
    else
      var next := UpdateCardAfterReview(card, reviews[0].correct, reviews[0].responseTime, reviews[0].at);
      var r := ReviewAll(next, reviews[1..]);
      assert r.repetitions[..|card.repetitions|] == r.repetitions[..|next.repetitions|][..|card.repetitions|];
      r
  }

  predicate AllCorrect(reviews: seq<Review>) {
    forall i :: 0 <= i < |reviews| ==> reviews[i].correct
  }

  /** Starting from a level in 0..5, k >= 1 correct answers in a row reach
      level min(level + k, 5), and the card is learned exactly when that is
      the top level. */
  lemma {:induction false} CorrectStreak(card: Flashcard, reviews: seq<Review>)
    requires 0 <= card.currentLevel <= MAX_LEVEL
    requires |reviews| >= 1 && AllCorrect(reviews)
    ensures var r := ReviewAll(card, reviews);
      && r.currentLevel == (if card.currentLevel + |reviews| < MAX_LEVEL then card.currentLevel + |reviews| else MAX_LEVEL)
      && (r.IsLearned() <==> card.currentLevel + |reviews| >= MAX_LEVEL)
    decreases |reviews|
  {
    var next := UpdateCardAfterReview(card, true, reviews[0].responseTime, reviews[0].at);
    CorrectAnswerRaisesLevel(card, reviews[0].responseTime, reviews[0].at);
    if |reviews| > 1 {
      assert AllCorrect(reviews[1..]) by {
        forall i | 0 <= i < |reviews| - 1 ensures reviews[1..][i].correct {
          assert reviews[1..][i] == reviews[i + 1];
        }
      }
      CorrectStreak(next, reviews[1..]);
    }
  }

  /** A new card (level 0) becomes learned after exactly five correct
      answers in a row and not after fewer. */
  lemma FiveCorrectAnswersToLearn(card: Flashcard, reviews: seq<Review>)
    requires card.currentLevel == 0 && |reviews| >= 1 && AllCorrect(reviews)
    ensures ReviewAll(card, reviews).IsLearned() <==> |reviews| >= 5
  {
    CorrectStreak(card, reviews);
  }

  /** Two new cards reviewed twice each: card A, answered correctly right
      away and again once due, is at level 2 and due three days after the
      second review; card B, answered incorrectly twice, is at level 0. */
  lemma ReviewScenario(a: Flashcard, b: Flashcard, now: int, later: int)
    requires a.currentLevel == 0 && a.isNew && a.repetitions == []
    requires b.currentLevel == 0 && b.isNew && b.repetitions == []
    ensures var a1 := UpdateCardAfterReview(a, true, 0, now);
      && a1.currentLevel == 1 && a1.nextReviewDate == now + MS_PER_DAY && !a1.isNew
      && var a2 := UpdateCardAfterReview(a1, true, 0, later);
      && a2.currentLevel == 2 && a2.nextReviewDate == later + 3 * MS_PER_DAY
    ensures var b1 := UpdateCardAfterReview(b, false, 0, now);
      && b1.currentLevel == 0
      && UpdateCardAfterReview(b1, false, 0, later).currentLevel == 0
  {
  }

  /** A card is due when it is not learned and is at level 0 or its review
      date has come. */
  predicate IsDueForReview(card: Flashcard, now: int) {
    !card.IsLearned() && (card.currentLevel == 0 || card.nextReviewDate <= now)
  }

  /** The due cards, in input order. */
  function GetCardsForReview(cards: seq<Flashcard>, now: int): (r: seq<Flashcard>)
    ensures |r| <= |cards|
    ensures forall c :: c in r <==> c in cards && !c.IsLearned() && (c.currentLevel == 0 || c.nextReviewDate <= now)
  {
    Filter(cards, DueAt(now))
  }

  /** `IsDueForReview` at a fixed time, as a test to filter by. */
  function DueAt(now: int): Flashcard -> bool {
    (c: Flashcard) => IsDueForReview(c, now)
  }

  /** Selection keeps input order: the due cards of a concatenation are the
      due cards of each part, one after the other. */
  lemma GetCardsForReviewKeepsOrder(a: seq<Flashcard>, b: seq<Flashcard>, now: int)
    ensures GetCardsForReview(a + b, now) == GetCardsForReview(a, now) + GetCardsForReview(b, now)
  {
    FilterConcat(a, b, DueAt(now));
  }

  predicate AtLevel(card: Flashcard, level: int) {
    !card.IsLearned() && card.currentLevel == level
  }

  /** `AtLevel` for a fixed level, as a test to filter by. */
  function AtLevelP(level: int): Flashcard -> bool {
    (c: Flashcard) => AtLevel(c, level)
  }

  /** The non-learned cards of each level 0..5. */
  function GetCardsByLevel(cards: seq<Flashcard>): (r: map<int, seq<Flashcard>>)
    ensures r.Keys == Levels()
    ensures forall i, c :: i in r ==> (c in r[i] <==> c in cards && !c.IsLearned() && c.currentLevel == i)
  {
    map i | i in Levels() :: Filter(cards, AtLevelP(i))
  }

  /** Each level's list keeps input order and repeated cards: grouping
      distributes over concatenation. */
  lemma GetCardsByLevelKeepsOrder(a: seq<Flashcard>, b: seq<Flashcard>)
    ensures forall i :: i in Levels() ==> GetCardsByLevel(a + b)[i] == GetCardsByLevel(a)[i] + GetCardsByLevel(b)[i]
  {
    forall i | i in Levels() ensures GetCardsByLevel(a + b)[i] == GetCardsByLevel(a)[i] + GetCardsByLevel(b)[i] {
      FilterConcat(a, b, AtLevelP(i));
    }
  }

  datatype StudyStats = StudyStats(total: nat, newCards: nat, due: nat, byLevel: map<int, nat>)

  predicate NotLearned(card: Flashcard) { !card.IsLearned() }
  predicate IsNewFlag(card: Flashcard) { card.isNew }
  predicate NewAndNotLearned(card: Flashcard) { !card.IsLearned() && card.isNew }

  /** The number of non-learned cards at `level`. */
  function LevelCount(cards: seq<Flashcard>, level: int): nat {
    Count(cards, AtLevelP(level))
  }

  /** Filtering the non-learned cards first changes none of the counts
      taken over them, since every test below already excludes learned
      cards. */
  lemma ActiveCardsCounts(cards: seq<Flashcard>, now: int)
    ensures var activeCards := Filter(cards, NotLearned);
      && Filter(activeCards, IsNewFlag) == Filter(cards, NewAndNotLearned)
      && GetCardsForReview(activeCards, now) == GetCardsForReview(cards, now)
      && forall i :: |Filter(activeCards, AtLevelP(i))| == LevelCount(cards, i)
  {
    FilterFilter(cards, NotLearned, IsNewFlag, NewAndNotLearned);
    FilterFilter(cards, NotLearned, DueAt(now), DueAt(now));
    forall i ensures |Filter(Filter(cards, NotLearned), AtLevelP(i))| == LevelCount(cards, i) {
      FilterFilter(cards, NotLearned, AtLevelP(i), AtLevelP(i));
    }
  }

  /** The counts shown on the dashboard, all over the non-learned cards:
      how many there are, how many are new, how many are due, and how many
      sit at each level 0..5. */
  function GetStudyStats(cards: seq<Flashcard>, now: int): (r: StudyStats)
    ensures r.total == Count(cards, NotLearned)
    ensures r.newCards == Count(cards, NewAndNotLearned)
    ensures r.due == |GetCardsForReview(cards, now)|
    ensures r.newCards <= r.total && r.due <= r.total
    ensures r.byLevel.Keys == Levels()
    ensures forall i :: i in r.byLevel ==> r.byLevel[i] == LevelCount(cards, i) <= r.total
  {
    var activeCards := Filter(cards, NotLearned);
    var byLevel := GetCardsByLevel(activeCards);
    ActiveCardsCounts(cards, now);
    StudyStats(
      |activeCards|,
      |Filter(activeCards, IsNewFlag)|,
      |GetCardsForReview(activeCards, now)|,
      map i | i in byLevel :: |byLevel[i]|)
  }

  /** No cards: every count is zero and every level 0..5 still appears. */
  lemma EmptyStudyStats(now: int)
    ensures var r := GetStudyStats([], now);
      && r.total == 0 && r.newCards == 0 && r.due == 0
      && r.byLevel == map[0 := 0, 1 := 0, 2 := 0, 3 := 0, 4 := 0, 5 := 0]
  {
  }

  /** When every non-learned card has a level in 0..5, the per-level counts
      add up to the total. */
  lemma {:induction false} LevelCountsAddUp(cards: seq<Flashcard>)
    requires forall c :: c in cards && !c.IsLearned() ==> 0 <= c.currentLevel <= MAX_LEVEL
    ensures LevelCount(cards, 0) + LevelCount(cards, 1) + LevelCount(cards, 2)
          + LevelCount(cards, 3) + LevelCount(cards, 4) + LevelCount(cards, 5)
         == Count(cards, NotLearned)
  {
    if cards != [] {
      LevelCountsAddUp(cards[1..]);
    }
  }

  /** The dashboard's per-level counts add up to its total when every
      non-learned card has a level in 0..5. */
  lemma StudyStatsLevelsAddUp(cards: seq<Flashcard>, now: int)
    requires forall c :: c in cards && !c.IsLearned() ==> 0 <= c.currentLevel <= MAX_LEVEL
    ensures var r := GetStudyStats(cards, now);
      r.byLevel[0] + r.byLevel[1] + r.byLevel[2] + r.byLevel[3] + r.byLevel[4] + r.byLevel[5] == r.total
  {
    LevelCountsAddUp(cards);
  }
}
