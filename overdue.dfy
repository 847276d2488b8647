/** Overdue handling (src/utils/overdue.ts): how urgent a card is, the
    urgency order of the priority list, the overdue, long-overdue and
    due-soon queries, the daily overdue-count history and the level penalty
    for cards left overdue. The clock is the explicit parameter `now`;
    calendar days are day numbers supplied by the caller. */
module Overdue {
  import opened Wrappers
  import opened Types
  import opened Seqs
  import opened Strings

  const DUE_SOON_THRESHOLD_DAYS: nat := 3
  const LONG_OVERDUE_DAYS: nat := 7

  datatype CardUrgency = CardUrgency(
    isOverdue: bool,
    isLongOverdue: bool,
    overdueDays: nat,
    isDueSoon: bool,
    daysUntilDue: nat,
    urgencyScore: nat)

  /** Overdue is "due now or earlier"; overdue days are whole days elapsed
      (rounded down), days until due are rounded up; the score ranks long
      overdue (3) over overdue (2) over due within three days (1) over the
      rest (0). */
  function CalculateCardUrgency(card: Flashcard, now: int): (u: CardUrgency)
    ensures u.isOverdue <==> card.nextReviewDate <= now
    ensures u.isOverdue ==> (u.daysUntilDue == 0 &&
      u.overdueDays * MS_PER_DAY <= now - card.nextReviewDate < (u.overdueDays + 1) * MS_PER_DAY)
    ensures !u.isOverdue ==> (u.overdueDays == 0 && 1 <= u.daysUntilDue &&
      (u.daysUntilDue - 1) * MS_PER_DAY < card.nextReviewDate - now <= u.daysUntilDue * MS_PER_DAY)
    ensures u.isLongOverdue <==> now - card.nextReviewDate >= LONG_OVERDUE_DAYS * MS_PER_DAY
    ensures u.isDueSoon <==> now < card.nextReviewDate <= now + DUE_SOON_THRESHOLD_DAYS * MS_PER_DAY
    ensures u.urgencyScore == 3 <==> now - card.nextReviewDate >= LONG_OVERDUE_DAYS * MS_PER_DAY
    ensures u.urgencyScore == 2 <==> 0 <= now - card.nextReviewDate < LONG_OVERDUE_DAYS * MS_PER_DAY
    ensures u.urgencyScore == 1 <==> 0 < card.nextReviewDate - now <= DUE_SOON_THRESHOLD_DAYS * MS_PER_DAY
    ensures u.urgencyScore == 0 <==> card.nextReviewDate - now > DUE_SOON_THRESHOLD_DAYS * MS_PER_DAY
  {
    var diff := card.nextReviewDate - now;
    var isOverdue := diff <= 0;
    var overdueDays: nat := if isOverdue then (-diff) / MS_PER_DAY else 0;
    var daysUntilDue: nat := if isOverdue then 0 else (diff + MS_PER_DAY - 1) / MS_PER_DAY;
    var isLongOverdue := isOverdue && overdueDays >= LONG_OVERDUE_DAYS;
    var isDueSoon := !isOverdue && daysUntilDue <= DUE_SOON_THRESHOLD_DAYS;
    var urgencyScore := if isLongOverdue then 3 else if isOverdue then 2 else if isDueSoon then 1 else 0;
    CardUrgency(isOverdue, isLongOverdue, overdueDays, isDueSoon, daysUntilDue, urgencyScore)
  }

  /** A card due later is never more urgent. */
  lemma UrgencyScoreMonotone(a: Flashcard, b: Flashcard, now: int)
    requires a.nextReviewDate <= b.nextReviewDate
    ensures CalculateCardUrgency(a, now).urgencyScore >= CalculateCardUrgency(b, now).urgencyScore
  {
  }

  // ---------------------------------------------------------------------
  // The urgency order

  /** The comparator of the priority list: higher score first, then earlier
      due date, then reviewed cards before new ones, then by term. */
  function CompareByUrgency(a: Flashcard, b: Flashcard, now: int): int {
    var sa := CalculateCardUrgency(a, now).urgencyScore;
    var sb := CalculateCardUrgency(b, now).urgencyScore;
    if sa != sb then sb - sa
    else if a.nextReviewDate != b.nextReviewDate then a.nextReviewDate - b.nextReviewDate
    else if a.isNew != b.isNew then (if a.isNew then 1 else -1)
    else CompareStrings(a.term, b.term)
  }

  /** The comparator is consistent: swapping its operands negates it ... */
  lemma CompareByUrgencyAntisymmetric(a: Flashcard, b: Flashcard, now: int)
    ensures CompareByUrgency(a, b, now) == -CompareByUrgency(b, a, now)
  {
    CompareStringsAntisymmetric(a.term, b.term);
  }

  /** ... "no later than" is transitive ... */
  lemma CompareByUrgencyTransitive(a: Flashcard, b: Flashcard, c: Flashcard, now: int)
    requires CompareByUrgency(a, b, now) <= 0 && CompareByUrgency(b, c, now) <= 0
    ensures CompareByUrgency(a, c, now) <= 0
  {
    if CompareStrings(a.term, b.term) <= 0 && CompareStrings(b.term, c.term) <= 0 {
      CompareStringsTransitive(a.term, b.term, c.term);
    }
  }

  /** ... and two cards tie exactly when they agree on score, due date,
      newness and term. */
  lemma CompareByUrgencyTies(a: Flashcard, b: Flashcard, now: int)
    ensures CompareByUrgency(a, b, now) == 0 <==>
      CalculateCardUrgency(a, now).urgencyScore == CalculateCardUrgency(b, now).urgencyScore
      && a.nextReviewDate == b.nextReviewDate && a.isNew == b.isNew && a.term == b.term
  {
  }

  predicate SortedByUrgency(s: seq<Flashcard>, now: int) {
    forall i, j :: 0 <= i < j < |s| ==> CompareByUrgency(s[i], s[j], now) <= 0
  }

  /** `x` placed before the first element of `l` that is not strictly more
      urgent than it. */
  function InsertByUrgency(x: Flashcard, l: seq<Flashcard>, now: int): (r: seq<Flashcard>)
    ensures multiset(r) == multiset(l) + multiset{x}
  {
    if l == [] || CompareByUrgency(l[0], x, now) >= 0 then [x] + l
    else
      assert l == [l[0]] + l[1..];
      [l[0]] + InsertByUrgency(x, l[1..], now)
  }

  /** A card no later than every element of a sorted list can head it. */
  lemma SortedByUrgencyCons(a: Flashcard, rest: seq<Flashcard>, now: int)
    requires SortedByUrgency(rest, now)
    requires forall j :: 0 <= j < |rest| ==> CompareByUrgency(a, rest[j], now) <= 0
    ensures SortedByUrgency([a] + rest, now)
  {
    var r := [a] + rest;
    forall i, j | 0 <= i < j < |r| ensures CompareByUrgency(r[i], r[j], now) <= 0 {
      assert r[j] == rest[j - 1];
      if i > 0 {
        assert r[i] == rest[i - 1];
      }
    }
  }

  /** Whatever the insertion returns was the inserted card or in the list. */
  lemma InsertByUrgencyMembers(x: Flashcard, l: seq<Flashcard>, now: int, y: Flashcard)
    requires y in InsertByUrgency(x, l, now)
    ensures y == x || y in l
  {
    assert y in multiset(InsertByUrgency(x, l, now));
  }

  lemma {:induction false} InsertByUrgencySorted(x: Flashcard, l: seq<Flashcard>, now: int)
    requires SortedByUrgency(l, now)
    ensures SortedByUrgency(InsertByUrgency(x, l, now), now)
  {
    if l == [] {
    } else if CompareByUrgency(l[0], x, now) >= 0 {
      CompareByUrgencyAntisymmetric(l[0], x, now);
      forall j | 0 <= j < |l| ensures CompareByUrgency(x, l[j], now) <= 0 {
        if j > 0 {
          CompareByUrgencyTransitive(x, l[0], l[j], now);
        }
      }
      SortedByUrgencyCons(x, l, now);
    } else {
      var rest := InsertByUrgency(x, l[1..], now);
      InsertByUrgencySorted(x, l[1..], now);
      forall j | 0 <= j < |rest| ensures CompareByUrgency(l[0], rest[j], now) <= 0 {
        InsertByUrgencyMembers(x, l[1..], now, rest[j]);
        if rest[j] != x {
          var k :| 0 <= k < |l[1..]| && l[1..][k] == rest[j];
          assert l[k + 1] == rest[j];
        }
      }
      SortedByUrgencyCons(l[0], rest, now);
    }
  }

  /** `[...cards].sort(comparator)`: a stable sort, here insertion sort, of
      a copy of the cards; the result is a permutation of the input in
      urgency order. */
  function SortCardsByUrgency(cards: seq<Flashcard>, now: int): (r: seq<Flashcard>)
    ensures multiset(r) == multiset(cards)
    ensures SortedByUrgency(r, now)
  {
    if cards == [] then []
    else
      var x, tail := cards[0], cards[1..];
      var rest := SortCardsByUrgency(tail, now);
      InsertByUrgencySorted(x, rest, now);
      assert multiset(cards) == multiset(tail) + multiset{x} by {
        assert cards == [x] + tail;
      }
      InsertByUrgency(x, rest, now)
  }

  /** Cards already in urgency order are left as they are ... */
  lemma {:induction false} SortCardsByUrgencyKeepsSorted(cards: seq<Flashcard>, now: int)
    requires SortedByUrgency(cards, now)
    ensures SortCardsByUrgency(cards, now) == cards
  {
    if cards != [] {
      SortCardsByUrgencyKeepsSorted(cards[1..], now);
      if |cards| > 1 {
        CompareByUrgencyAntisymmetric(cards[1], cards[0], now);
      }
    }
  }

  /** ... so sorting twice is sorting once. */
  lemma SortCardsByUrgencyIdempotent(cards: seq<Flashcard>, now: int)
    ensures SortCardsByUrgency(SortCardsByUrgency(cards, now), now) == SortCardsByUrgency(cards, now)
  {
    SortCardsByUrgencyKeepsSorted(SortCardsByUrgency(cards, now), now);
  }

  /** The cards that tie with `y` under the comparator. */
  function TiesWith(y: Flashcard, now: int): Flashcard -> bool {
    (c: Flashcard) => CompareByUrgency(c, y, now) == 0
  }

  /** Insertion puts `x` after the cards strictly more urgent than it, so
      among the cards tying with `y` it comes first if it ties too, and the
      others keep their order. */
  lemma {:induction false} InsertByUrgencyTies(x: Flashcard, l: seq<Flashcard>, y: Flashcard, now: int)
    ensures Filter(InsertByUrgency(x, l, now), TiesWith(y, now))
      == (if TiesWith(y, now)(x) then [x] else []) + Filter(l, TiesWith(y, now))
  {
    var ties := TiesWith(y, now);
    if l == [] || CompareByUrgency(l[0], x, now) >= 0 {
      FilterCons(x, l, ties);
    } else {
      var rest := InsertByUrgency(x, l[1..], now);
      assert InsertByUrgency(x, l, now) == [l[0]] + rest;
      assert l == [l[0]] + l[1..];
      InsertByUrgencyTies(x, l[1..], y, now);
      TiesAreTransitive(l[0], x, y, now);
      FilterSkipHead(l[0], x, rest, l[1..], ties);
    }
  }

  /** Two cards that tie with a third tie with each other. */
  lemma TiesAreTransitive(a: Flashcard, b: Flashcard, y: Flashcard, now: int)
    ensures CompareByUrgency(a, y, now) == 0 && CompareByUrgency(b, y, now) == 0 ==> CompareByUrgency(a, b, now) == 0
  {
    CompareByUrgencyTies(a, y, now);
    CompareByUrgencyTies(b, y, now);
    CompareByUrgencyTies(a, b, now);
  }

  /** The sort is stable: the cards that tie with any one card appear in
      the order they had in the input. */
  lemma {:induction false} SortCardsByUrgencyStable(cards: seq<Flashcard>, y: Flashcard, now: int)
    ensures Filter(SortCardsByUrgency(cards, now), TiesWith(y, now)) == Filter(cards, TiesWith(y, now))
  {
    if cards != [] {
      SortCardsByUrgencyStable(cards[1..], y, now);
      InsertByUrgencyTies(cards[0], SortCardsByUrgency(cards[1..], now), y, now);
      FilterCons(cards[0], cards[1..], TiesWith(y, now));
      assert cards == [cards[0]] + cards[1..];
    }
  }

  /** A long-overdue card comes before every card that is not long overdue,
      and an overdue card before every card that is not overdue. */
  lemma UrgencyOrderRanksOverdueFirst(cards: seq<Flashcard>, now: int, i: int, j: int)
    requires var s := SortCardsByUrgency(cards, now); 0 <= i < |s| && 0 <= j < |s|
    requires CalculateCardUrgency(SortCardsByUrgency(cards, now)[i], now).urgencyScore
      > CalculateCardUrgency(SortCardsByUrgency(cards, now)[j], now).urgencyScore
    ensures i < j
  {
    var s := SortCardsByUrgency(cards, now);
    assert CompareByUrgency(s[j], s[i], now) > 0;
    if j <= i {
      assert false;
    }
  }

  // ---------------------------------------------------------------------
  // Queries

  /** Cards that are not learned and due now or earlier, in input order. */
  function GetOverdueCards(cards: seq<Flashcard>, now: int): (r: seq<Flashcard>)
    ensures forall c :: c in r <==> c in cards && !c.IsLearned() && c.nextReviewDate <= now
  {
    Filter(cards, (c: Flashcard) => !c.IsLearned() && CalculateCardUrgency(c, now).isOverdue)
  }

  /** The query keeps input order: it distributes over concatenation. */
  lemma GetOverdueCardsKeepsOrder(a: seq<Flashcard>, b: seq<Flashcard>, now: int)
    ensures GetOverdueCards(a + b, now) == GetOverdueCards(a, now) + GetOverdueCards(b, now)
  {
    FilterConcat(a, b, (c: Flashcard) => !c.IsLearned() && CalculateCardUrgency(c, now).isOverdue);
  }

  /** The overdue cards that are at least seven days overdue. */
  function GetLongOverdueCards(cards: seq<Flashcard>, now: int): (r: seq<Flashcard>)
    ensures forall c :: c in r <==> (c in cards && !c.IsLearned() && now - c.nextReviewDate >= LONG_OVERDUE_DAYS * MS_PER_DAY)
    ensures forall c :: c in r ==> c in GetOverdueCards(cards, now)
  {
    Filter(GetOverdueCards(cards, now), (c: Flashcard) => CalculateCardUrgency(c, now).isLongOverdue)
  }

  /** Filtering the overdue cards again is the same as one pass over the
      input selecting non-learned, long-overdue cards. */
  lemma LongOverdueIsOnePass(cards: seq<Flashcard>, now: int)
    ensures GetLongOverdueCards(cards, now) ==
      Filter(cards, (c: Flashcard) => !c.IsLearned() && now - c.nextReviewDate >= LONG_OVERDUE_DAYS * MS_PER_DAY)
  {
    var p := (c: Flashcard) => !c.IsLearned() && CalculateCardUrgency(c, now).isOverdue;
    var q := (c: Flashcard) => CalculateCardUrgency(c, now).isLongOverdue;
    var long := (c: Flashcard) => !c.IsLearned() && now - c.nextReviewDate >= LONG_OVERDUE_DAYS * MS_PER_DAY;
    forall i | 0 <= i < |cards| ensures long(cards[i]) == (p(cards[i]) && q(cards[i])) {
      var u := CalculateCardUrgency(cards[i], now);
    }
    FilterFilter(cards, p, q, long);
  }

  /** Cards that are not learned and fall due within the next three days. */
  function GetDueSoonCards(cards: seq<Flashcard>, now: int): (r: seq<Flashcard>)
    ensures forall c :: c in r <==> (c in cards && !c.IsLearned() && now < c.nextReviewDate <= now + DUE_SOON_THRESHOLD_DAYS * MS_PER_DAY)
  {
    Filter(cards, (c: Flashcard) => !c.IsLearned() && CalculateCardUrgency(c, now).isDueSoon)
  }

  /** The due-soon query keeps input order and multiplicity: it distributes
      over concatenation. */
  lemma GetDueSoonCardsKeepsOrder(a: seq<Flashcard>, b: seq<Flashcard>, now: int)
    ensures GetDueSoonCards(a + b, now) == GetDueSoonCards(a, now) + GetDueSoonCards(b, now)
  {
    FilterConcat(a, b, (c: Flashcard) => !c.IsLearned() && CalculateCardUrgency(c, now).isDueSoon);
  }

  /** The number of non-learned cards due now or earlier. */
  function CountOverdueCards(cards: seq<Flashcard>, now: int): (n: nat)
    ensures n == Count(cards, (c: Flashcard) => !c.IsLearned() && c.nextReviewDate <= now)
    ensures n == |GetOverdueCards(cards, now)|
  {
    FilterCongruent(cards, (c: Flashcard) => !c.IsLearned() && CalculateCardUrgency(c, now).isOverdue,
      (c: Flashcard) => !c.IsLearned() && c.nextReviewDate <= now);
    |GetOverdueCards(cards, now)|
  }

  /** Overdue and due soon never overlap, and learned cards are in neither. */
  lemma OverdueAndDueSoonDisjoint(cards: seq<Flashcard>, now: int, c: Flashcard)
    ensures !(c in GetOverdueCards(cards, now) && c in GetDueSoonCards(cards, now))
    ensures c.IsLearned() ==> c !in GetOverdueCards(cards, now) && c !in GetDueSoonCards(cards, now)
  {
  }

  // ---------------------------------------------------------------------
  // The overdue penalty

  /** The card after the penalty sweep: a card due at least three whole days
      ago loses one level per three whole days overdue, never going below 0,
      and is made active; otherwise it is returned as it is. Learned cards
      are not exempt. */
  function PenalizeCard(card: Flashcard, now: int): (r: Flashcard)
    ensures r.id == card.id && r.term == card.term && r.definition == card.definition
    ensures r.createdAt == card.createdAt && r.repetitions == card.repetitions
    ensures r.nextReviewDate == card.nextReviewDate && r.isNew == card.isNew
    ensures now - card.nextReviewDate < 3 * MS_PER_DAY ==> r == card
    ensures now - card.nextReviewDate >= 3 * MS_PER_DAY ==>
      var penalty := (now - card.nextReviewDate) / (3 * MS_PER_DAY);
      r.currentLevel == (if card.currentLevel - penalty > 0 then card.currentLevel - penalty else 0)
    ensures r.status == (if r.currentLevel != card.currentLevel then Some(Active) else card.status)
  {
    if card.nextReviewDate > now then card
    else
      var overdueDays := (now - card.nextReviewDate) / MS_PER_DAY;
      if overdueDays < 3 then card
      else
        // overdueDays >= 3 here, so the penalty is at least one level and
        // the source's guard against a non-positive penalty never fires.
        var penaltyLevels := overdueDays / 3;
        FloorOfFloor(now - card.nextReviewDate);
        var downgradedLevel := if card.currentLevel - penaltyLevels > 0 then card.currentLevel - penaltyLevels else 0;
        if downgradedLevel == card.currentLevel then card
        else card.(currentLevel := downgradedLevel, status := Some(Active))
  }

  /** Whole days, then whole groups of three, is whole groups of three days. */
  lemma FloorOfFloor(x: nat)
    ensures x / MS_PER_DAY / 3 == x / (3 * MS_PER_DAY)
  {
    var d := x / MS_PER_DAY;
    var p := d / 3;
    assert x == d * MS_PER_DAY + x % MS_PER_DAY;
    assert d == 3 * p + d % 3;
    assert x == p * (3 * MS_PER_DAY) + ((d % 3) * MS_PER_DAY + x % MS_PER_DAY);
    assert 0 <= (d % 3) * MS_PER_DAY + x % MS_PER_DAY < 3 * MS_PER_DAY;
  }

  /** The sweep applied to every card, order and length preserved. */
  function ApplyOverduePenalty(cards: seq<Flashcard>, now: int): (r: seq<Flashcard>)
    ensures |r| == |cards|
    ensures forall i :: 0 <= i < |r| ==> r[i] == PenalizeCard(cards[i], now)
  {
    seq(|cards|, i requires 0 <= i < |cards| => PenalizeCard(cards[i], now))
  }

  /** The penalty never raises a level and keeps every level of the
      schedule inside the schedule. */
  lemma PenaltyKeepsLevelsInRange(card: Flashcard, now: int)
    requires 0 <= card.currentLevel <= MAX_LEVEL
    ensures 0 <= PenalizeCard(card, now).currentLevel <= card.currentLevel
  {
  }

  /** A level-3 card nine days overdue drops to level 0; four days overdue
      it drops one level; two days overdue it is untouched. A learned card
      six days overdue is demoted and reactivated. */
  lemma PenaltyExamples(card: Flashcard, now: int)
    requires card.currentLevel == 3
    ensures card.nextReviewDate == now - 9 * MS_PER_DAY ==> PenalizeCard(card, now).currentLevel == 0
    ensures card.nextReviewDate == now - 4 * MS_PER_DAY ==> PenalizeCard(card, now).currentLevel == 2
    ensures card.nextReviewDate == now - 2 * MS_PER_DAY ==> PenalizeCard(card, now) == card
    ensures card.nextReviewDate == now - 6 * MS_PER_DAY && card.IsLearned() ==>
      PenalizeCard(card, now).currentLevel == 1 && PenalizeCard(card, now).status == Some(Active)
  {
  }

  /** The sweep does not move the due date, so a second sweep at the same
      time penalises the same card again: a level-5 card nine days overdue
      goes to 2 and then to 0. */
  lemma PenaltyRepeats(card: Flashcard, now: int)
    requires card.currentLevel == 5 && card.nextReviewDate == now - 9 * MS_PER_DAY
    ensures PenalizeCard(card, now).currentLevel == 2
    ensures PenalizeCard(PenalizeCard(card, now), now).currentLevel == 0
  {
  }

  // ---------------------------------------------------------------------
  // The daily overdue history

  /** One day's overdue count; `day` is the local calendar day, whose
      midnight the stored key denotes. */
  datatype OverdueSnapshot = OverdueSnapshot(day: int, count: nat)

  const OVERDUE_HISTORY_LIMIT: nat := 30

  /** The index of the first snapshot of `day`, as `findIndex` returns it. */
  function FindSnapshot(history: seq<OverdueSnapshot>, day: int): (r: Option<nat>)
    ensures r.Some? ==> r.value < |history| && history[r.value].day == day
    ensures forall i :: 0 <= i < |history| && (r.None? || i < r.value) ==> history[i].day != day
  {
    if history == [] then None
    else if history[0].day == day then Some(0)
    else match FindSnapshot(history[1..], day)
      case None => None
      case Some(i) => Some(i + 1)
  }

  predicate SortedByDay(s: seq<OverdueSnapshot>) {
    forall i, j :: 0 <= i < j < |s| ==> s[i].day <= s[j].day
  }

  /** `x` placed before the first snapshot that is not strictly older. */
  function InsertByDay(x: OverdueSnapshot, l: seq<OverdueSnapshot>): (r: seq<OverdueSnapshot>)
    ensures multiset(r) == multiset(l) + multiset{x}
  {
    if l == [] || l[0].day >= x.day then [x] + l
    else
      assert l == [l[0]] + l[1..];
      [l[0]] + InsertByDay(x, l[1..])
  }

  lemma {:induction false} InsertByDaySorted(x: OverdueSnapshot, l: seq<OverdueSnapshot>)
    requires SortedByDay(l)
    ensures SortedByDay(InsertByDay(x, l))
  {
    if l != [] && l[0].day < x.day {
      var rest := InsertByDay(x, l[1..]);
      InsertByDaySorted(x, l[1..]);
      forall j | 0 <= j < |rest| ensures l[0].day <= rest[j].day {
        assert rest[j] in multiset(rest);
        if rest[j] != x {
          assert rest[j] in multiset(l[1..]);
        }
      }
    }
  }

  /** The stable sort by date of the history. */
  function SortByDay(s: seq<OverdueSnapshot>): (r: seq<OverdueSnapshot>)
    ensures multiset(r) == multiset(s)
    ensures SortedByDay(r)
  {
    if s == [] then []
    else
      assert s == [s[0]] + s[1..];
      InsertByDaySorted(s[0], SortByDay(s[1..]));
      InsertByDay(s[0], SortByDay(s[1..]))
  }

  /** The snapshots of one day. */
  function OnDay(day: int): OverdueSnapshot -> bool {
    (x: OverdueSnapshot) => x.day == day
  }

  /** Insertion puts `x` after the snapshots of earlier days, so among the
      snapshots of any one day it comes first if it is of that day, and the
      others keep their order. */
  lemma {:induction false} InsertByDayOfDay(x: OverdueSnapshot, l: seq<OverdueSnapshot>, day: int)
    ensures Filter(InsertByDay(x, l), OnDay(day)) == (if x.day == day then [x] else []) + Filter(l, OnDay(day))
  {
    if l == [] || l[0].day >= x.day {
      FilterCons(x, l, OnDay(day));
    } else {
      InsertByDayOfDay(x, l[1..], day);
      assert InsertByDay(x, l) == [l[0]] + InsertByDay(x, l[1..]);
      assert l == [l[0]] + l[1..];
      FilterSkipHead(l[0], x, InsertByDay(x, l[1..]), l[1..], OnDay(day));
    }
  }

  /** The sort is stable: the snapshots of any one day appear in the order
      they had in the input. */
  lemma {:induction false} SortByDayStable(s: seq<OverdueSnapshot>, day: int)
    ensures Filter(SortByDay(s), OnDay(day)) == Filter(s, OnDay(day))
  {
    if s != [] {
      SortByDayStable(s[1..], day);
      InsertByDayOfDay(s[0], SortByDay(s[1..]), day);
      FilterCons(s[0], s[1..], OnDay(day));
      assert s == [s[0]] + s[1..];
    }
  }

  lemma {:induction false} SortByDayKeepsSorted(s: seq<OverdueSnapshot>)
    requires SortedByDay(s)
    ensures SortByDay(s) == s
  {
    if s != [] {
      SortByDayKeepsSorted(s[1..]);
    }
  }

  /** `.slice(-30)`: the last 30 entries, or all of them when there are fewer. */
  function LastEntries(s: seq<OverdueSnapshot>): (r: seq<OverdueSnapshot>)
    ensures |r| == if |s| < OVERDUE_HISTORY_LIMIT then |s| else OVERDUE_HISTORY_LIMIT
    ensures forall i :: 0 <= i < |r| ==> r[i] == s[|s| - |r| + i]
  {
    if |s| > OVERDUE_HISTORY_LIMIT then s[|s| - OVERDUE_HISTORY_LIMIT..] else s
  }

  /** The history with the first entry of `entry`'s day replaced by `entry`,
      or with `entry` appended when that day has none. */
  function Upserted(history: seq<OverdueSnapshot>, entry: OverdueSnapshot): seq<OverdueSnapshot> {
    match FindSnapshot(history, entry.day)
    case Some(i) => history[i := entry]
    case None => history + [entry]
  }

  /** What recording today's count writes back to storage: nothing (`None`)
      when the first entry of today already holds that count; otherwise the
      history with that entry replaced, or a new entry appended, sorted by
      date and cut to the last 30. */
  function NextOverdueHistory(history: seq<OverdueSnapshot>, today: int, count: nat): (r: Option<seq<OverdueSnapshot>>)
    ensures r.None? <==> exists i :: (0 <= i < |history| && history[i] == OverdueSnapshot(today, count) &&
      forall k :: 0 <= k < i ==> history[k].day != today)
    ensures r.Some? ==> |r.value| <= OVERDUE_HISTORY_LIMIT && SortedByDay(r.value)
    ensures r.Some? ==> exists s ::
      && SortedByDay(s)
      && multiset(s) == multiset(Upserted(history, OverdueSnapshot(today, count)))
      && r.value == LastEntries(s)
  {
    var entry := OverdueSnapshot(today, count);
    var found := FindSnapshot(history, today);
    if found.Some? && history[found.value].count == count then None
    else
      var sorted := SortByDay(Upserted(history, entry));
      assert SortedByDay(sorted) && multiset(sorted) == multiset(Upserted(history, entry));
      Some(LastEntries(sorted))
  }

  /** The record step: find today's entry with `findIndex`, then write what
      `NextOverdueHistory` prescribes for the number of overdue cards. */
  method RecordOverdueSnapshot(history: seq<OverdueSnapshot>, cards: seq<Flashcard>, now: int, today: int)
    returns (written: Option<seq<OverdueSnapshot>>)
    ensures written == NextOverdueHistory(history, today, CountOverdueCards(cards, now))
  {
    var count := CountOverdueCards(cards, now);
    var entry := OverdueSnapshot(today, count);
    var existingIndex := -1;
    var i := 0;
    while i < |history| && existingIndex < 0
      invariant 0 <= i <= |history|
      invariant existingIndex < 0 ==> forall k :: 0 <= k < i ==> history[k].day != today
      invariant existingIndex >= 0 ==> FindSnapshot(history, today) == Some(existingIndex)
      decreases |history| - i
    {
      if history[i].day == today {
        existingIndex := i;
      }
      i := i + 1;
    }
    var updated: seq<OverdueSnapshot>;
    if existingIndex >= 0 {
      if history[existingIndex].count == count {
        return None;
      }
      updated := history[existingIndex := entry];
    } else {
      updated := history + [entry];
    }
    written := Some(LastEntries(SortByDay(updated)));
  }

  /** A well-formed stored history: at most one entry per day, in date order. */
  predicate StrictlyByDay(s: seq<OverdueSnapshot>) {
    forall i, j :: 0 <= i < j < |s| ==> s[i].day < s[j].day
  }

  /** `entry` appended to `history`, replacing a last entry of the same day. */
  function WithLatest(history: seq<OverdueSnapshot>, entry: OverdueSnapshot): (r: seq<OverdueSnapshot>)
    ensures r != [] && r[|r| - 1] == entry
  {
    if history != [] && history[|history| - 1].day == entry.day then history[..|history| - 1] + [entry]
    else history + [entry]
  }

  /** Recording on a day no earlier than the latest stored one keeps the
      history well formed, and today's count becomes its last entry. */
  lemma RecordKeepsHistoryWellFormed(history: seq<OverdueSnapshot>, today: int, count: nat)
    requires StrictlyByDay(history)
    requires history == [] || history[|history| - 1].day <= today
    ensures var r := NextOverdueHistory(history, today, count);
      r.Some? ==> (StrictlyByDay(r.value) && r.value[|r.value| - 1] == OverdueSnapshot(today, count) &&
        r.value == LastEntries(WithLatest(history, OverdueSnapshot(today, count))))
  {
    var h := WithLatest(history, OverdueSnapshot(today, count));
    StrictlyByDayWithLatest(history, OverdueSnapshot(today, count));
    RecordUpsertsLastDay(history, today, count);
    SortByDayKeepsSorted(h);
    LastEntriesStrictlyByDay(h);
  }

  /** On a well-formed history, replacing today's entry or appending it both
      amount to dropping a last entry of today and appending the new one. */
  lemma RecordUpsertsLastDay(history: seq<OverdueSnapshot>, today: int, count: nat)
    requires StrictlyByDay(history)
    requires history == [] || history[|history| - 1].day <= today
    ensures var r := NextOverdueHistory(history, today, count);
      r.Some? ==> r.value == LastEntries(SortByDay(WithLatest(history, OverdueSnapshot(today, count))))
  {
    var entry := OverdueSnapshot(today, count);
    var found := FindSnapshot(history, today);
    if found.Some? {
      var i := found.value;
      assert history[i := entry] == WithLatest(history, entry);
    }
  }

  /** A day no earlier than the latest can be recorded in a well-formed
      history ... */
  lemma StrictlyByDayWithLatest(s: seq<OverdueSnapshot>, x: OverdueSnapshot)
    requires StrictlyByDay(s)
    requires s == [] || s[|s| - 1].day <= x.day
    ensures StrictlyByDay(WithLatest(s, x)) && SortedByDay(WithLatest(s, x))
  {
  }

  /** ... and its suffixes are well formed. */
  lemma StrictlyByDaySuffix(s: seq<OverdueSnapshot>, k: int)
    requires StrictlyByDay(s) && 0 <= k <= |s|
    ensures StrictlyByDay(s[k..])
  {
  }

  /** The history after recording `counts[k]` on the k-th of a series of days. */
  function RecordDays(history: seq<OverdueSnapshot>, days: seq<OverdueSnapshot>): seq<OverdueSnapshot>
  {
    if days == [] then history
    else
      var before := RecordDays(history, days[..|days| - 1]);
      NextOverdueHistory(before, days[|days| - 1].day, days[|days| - 1].count).GetOr(before)
  }

  /** Recording once a day on strictly increasing days from an empty
      history keeps exactly the latest 30 days. */
  lemma {:induction false} RecordDaysKeepsLatest(days: seq<OverdueSnapshot>)
    requires StrictlyByDay(days)
    ensures RecordDays([], days) == LastEntries(days)
  {
    if days != [] {
      StrictlyByDayInit(days);
      RecordDaysKeepsLatest(days[..|days| - 1]);
      RecordNextDay(days);
    }
  }

  /** Recording the last of a series of strictly increasing days on the
      latest 30 of the earlier ones gives the latest 30 of the series. */
  lemma RecordNextDay(days: seq<OverdueSnapshot>)
    requires StrictlyByDay(days) && days != []
    ensures var n := |days|;
      NextOverdueHistory(LastEntries(days[..n - 1]), days[n - 1].day, days[n - 1].count)
        == Some(LastEntries(days))
  {
    var n := |days|;
    var init := days[..n - 1];
    var last := days[n - 1];
    var before := LastEntries(init);
    StrictlyByDayInit(days);
    LastEntriesStrictlyByDay(init);
    RecordNewDay(before, last);
    SplitLast(days);
    LastOfLast(init, last);
  }

  lemma StrictlyByDayInit(s: seq<OverdueSnapshot>)
    requires StrictlyByDay(s) && s != []
    ensures var init := s[..|s| - 1];
      StrictlyByDay(init) && (init == [] || init[|init| - 1].day < s[|s| - 1].day)
  {
  }

  lemma LastEntriesStrictlyByDay(s: seq<OverdueSnapshot>)
    requires StrictlyByDay(s)
    ensures var r := LastEntries(s);
      StrictlyByDay(r) && (r != [] ==> r[|r| - 1] == s[|s| - 1])
  {
    var r := LastEntries(s);
    assert r == s[|s| - |r|..];
    StrictlyByDaySuffix(s, |s| - |r|);
  }

  /** Recording a day later than every stored one appends it. */
  lemma RecordNewDay(history: seq<OverdueSnapshot>, x: OverdueSnapshot)
    requires StrictlyByDay(history)
    requires history == [] || history[|history| - 1].day < x.day
    ensures NextOverdueHistory(history, x.day, x.count) == Some(LastEntries(history + [x]))
  {
    assert forall i :: 0 <= i < |history| ==> history[i].day < x.day;
    assert FindSnapshot(history, x.day).None?;
    assert WithLatest(history, x) == history + [x];
    RecordKeepsHistoryWellFormed(history, x.day, x.count);
    assert FindSnapshot(history, x.day).None?;
  }

  lemma SplitLast(s: seq<OverdueSnapshot>)
    requires s != []
    ensures s == s[..|s| - 1] + [s[|s| - 1]]
  {
  }

  lemma LastOfLast(s: seq<OverdueSnapshot>, x: OverdueSnapshot)
    ensures LastEntries(LastEntries(s) + [x]) == LastEntries(s + [x])
  {
  }

  /** Forty daily recordings leave the thirty most recent. */
  lemma FortyDaysKeepThirty(days: seq<OverdueSnapshot>)
    requires |days| == 40 && StrictlyByDay(days)
    ensures RecordDays([], days) == days[10..]
  {
    RecordDaysKeepsLatest(days);
  }
}
