/** The card list screen (src/components/FlashcardList.tsx): the level
    colour and caption lookups, the urgency badge of a row, restoring a
    learned card, and the two tabs, which split the cards into active ones
    (most urgent first) and learned ones. */
module FlashcardList {
  import opened Wrappers
  import opened Types
  import opened Seqs
  import Overdue

  const LEVEL_COLORS: seq<string> := ["#ef4444", "#f97316", "#eab308", "#22c55e", "#3b82f6", "#8b5cf6"]
  const LEVEL_TEXTS: seq<string> := ["Mới học", "1 ngày", "3 ngày", "7 ngày", "14 ngày", "28 ngày"]
  const FALLBACK_COLOR: string := "#6b7280"
  const FALLBACK_TEXT: string := "Không xác định"

  /** The colour of a level; a level outside the table gets the grey
      fallback. */
  function GetLevelColor(level: int): (r: string)
    ensures 0 <= level < |LEVEL_COLORS| ==> r == LEVEL_COLORS[level]
    ensures !(0 <= level < |LEVEL_COLORS|) ==> r == FALLBACK_COLOR
  {
    if 0 <= level < |LEVEL_COLORS| then LEVEL_COLORS[level] else FALLBACK_COLOR
  }

  /** The caption of a level; a level outside the table gets "unknown". */
  function GetLevelText(level: int): (r: string)
    ensures 0 <= level < |LEVEL_TEXTS| ==> r == LEVEL_TEXTS[level]
    ensures !(0 <= level < |LEVEL_TEXTS|) ==> r == FALLBACK_TEXT
  {
    if 0 <= level < |LEVEL_TEXTS| then LEVEL_TEXTS[level] else FALLBACK_TEXT
  }

  /** Every level of the schedule has its own colour and caption, none of
      them the fallback, and every other level gets the fallback. */
  lemma LevelLookupsCoverSchedule(level: int)
    ensures level in Levels() <==> GetLevelColor(level) != FALLBACK_COLOR
    ensures level in Levels() <==> GetLevelText(level) != FALLBACK_TEXT
  {
  }

  /** The badge a row shows. */
  datatype UrgencyBadge =
    | NoBadge
    | LongOverdueBadge(overdueDays: nat)
    | OverdueBadge(overdueDays: nat)
    | DueSoonBadge(daysUntilDue: nat)

  /** A learned card shows no badge; otherwise long-overdue wins over
      overdue, which wins over due-soon. */
  function RenderUrgencyBadge(card: Flashcard, now: int): (b: UrgencyBadge)
    ensures card.IsLearned() ==> b == NoBadge
    ensures !card.IsLearned() ==> (b.LongOverdueBadge? <==> Overdue.CalculateCardUrgency(card, now).isLongOverdue)
  {
    var urgency := Overdue.CalculateCardUrgency(card, now);
    if card.IsLearned() then NoBadge
    else if urgency.isLongOverdue then LongOverdueBadge(urgency.overdueDays)
    else if urgency.isOverdue then OverdueBadge(urgency.overdueDays)
    else if urgency.isDueSoon then DueSoonBadge(urgency.daysUntilDue)
    else NoBadge
  }

  /** The badge of an active card, by how far its due date lies from now:
      7 days or more overdue, up to 7 days overdue, due within 3 days, or
      none. */
  lemma BadgeByDueDate(card: Flashcard, now: int)
    requires !card.IsLearned()
    ensures var b := RenderUrgencyBadge(card, now);
      && (b.LongOverdueBadge? <==> now - card.nextReviewDate >= Overdue.LONG_OVERDUE_DAYS * MS_PER_DAY)
      && (b.OverdueBadge? <==> 0 <= now - card.nextReviewDate < Overdue.LONG_OVERDUE_DAYS * MS_PER_DAY)
      && (b.DueSoonBadge? <==> 0 < card.nextReviewDate - now <= Overdue.DUE_SOON_THRESHOLD_DAYS * MS_PER_DAY)
      && (b == NoBadge <==> card.nextReviewDate - now > Overdue.DUE_SOON_THRESHOLD_DAYS * MS_PER_DAY)
  {
  }

  /** Restoring a learned card: active again, back to level 0, due now and
      no longer new; everything else is kept. */
  function HandleRestore(card: Flashcard, now: int): (r: Flashcard)
    ensures r.status == Some(Active) && r.currentLevel == 0 && r.nextReviewDate == now && !r.isNew
    ensures r.id == card.id && r.term == card.term && r.definition == card.definition
    ensures r.createdAt == card.createdAt && r.repetitions == card.repetitions
  {
    card.(status := Some(Active), currentLevel := 0, nextReviewDate := now, isNew := false)
  }

  /** A restored card is due for review at once and its colour is the
      level-0 colour. */
  lemma RestoredCardIsDue(card: Flashcard, now: int)
    ensures var r := HandleRestore(card, now);
      && !r.IsLearned() && r.currentLevel == 0 && r.nextReviewDate <= now
      && GetLevelColor(r.currentLevel) == LEVEL_COLORS[0]
  {
  }

  predicate NotLearned(c: Flashcard) { !c.IsLearned() }
  predicate Learned(c: Flashcard) { c.IsLearned() }

  /** The cards of the active tab: every card not learned, an absent status
      included. */
  function ActiveCards(flashcards: seq<Flashcard>): (r: seq<Flashcard>)
    ensures forall c :: c in r <==> c in flashcards && !c.IsLearned()
  {
    Filter(flashcards, NotLearned)
  }

  /** The cards of the learned tab. */
  function LearnedCards(flashcards: seq<Flashcard>): (r: seq<Flashcard>)
    ensures forall c :: c in r <==> c in flashcards && c.IsLearned()
  {
    Filter(flashcards, Learned)
  }

  /** Both tabs keep the list's order and repeated cards: each distributes
      over concatenation. */
  lemma TabsKeepOrder(a: seq<Flashcard>, b: seq<Flashcard>)
    ensures ActiveCards(a + b) == ActiveCards(a) + ActiveCards(b)
    ensures LearnedCards(a + b) == LearnedCards(a) + LearnedCards(b)
  {
    FilterConcat(a, b, NotLearned);
    FilterConcat(a, b, Learned);
  }

  /** The two tabs partition the cards: each card is on exactly one of
      them, and together they hold as many cards as the list. */
  lemma TabsPartitionCards(flashcards: seq<Flashcard>)
    ensures forall c :: c in flashcards ==> (c in ActiveCards(flashcards) <==> c !in LearnedCards(flashcards))
    ensures |ActiveCards(flashcards)| + |LearnedCards(flashcards)| == |flashcards|
  {
    CountSplits(flashcards, Learned, NotLearned);
  }

  /** The active tab shows the active cards, most urgent first. */
  function SortedActiveCards(flashcards: seq<Flashcard>, now: int): (r: seq<Flashcard>)
    ensures multiset(r) == multiset(ActiveCards(flashcards))
    ensures Overdue.SortedByUrgency(r, now)
    ensures forall c :: c in r <==> c in flashcards && !c.IsLearned()
  {
    var r := Overdue.SortCardsByUrgency(ActiveCards(flashcards), now);
    assert forall c :: c in r <==> c in multiset(r);
    r
  }

  /** The tab on display. */
  datatype Tab = ActiveTab | LearnedTab

  function CardsToRender(flashcards: seq<Flashcard>, tab: Tab, now: int): (r: seq<Flashcard>)
    ensures tab == ActiveTab ==> r == SortedActiveCards(flashcards, now)
    ensures tab == LearnedTab ==> r == LearnedCards(flashcards)
  {
    match tab
    case ActiveTab => SortedActiveCards(flashcards, now)
    case LearnedTab => LearnedCards(flashcards)
  }

  /** No row of the learned tab shows a badge. */
  lemma LearnedTabHasNoBadges(flashcards: seq<Flashcard>, now: int)
    ensures forall c :: c in CardsToRender(flashcards, LearnedTab, now) ==> RenderUrgencyBadge(c, now) == NoBadge
  {
  }
}
