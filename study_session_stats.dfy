/** Study-history statistics (src/utils/studySessionStats.ts): the totals of
    the sessions that fall in a time window, with the accuracy percentage,
    for the current day, month and year. The window boundaries, which the
    source computes from the local calendar, are parameters here. */
module StudySessionStats {
  import opened Wrappers
  import opened Types
  import opened Seqs

  datatype TimeframeSummary = TimeframeSummary(
    sessions: nat,
    cardsStudied: nat,
    correctAnswers: nat,
    minutes: nat,
    accuracy: nat,
    overdueReviews: nat)

  datatype AggregatedStudySummary = AggregatedStudySummary(
    day: TimeframeSummary,
    month: TimeframeSummary,
    year: TimeframeSummary)

  /** The accumulator of the fold. */
  datatype Totals = Totals(sessions: nat, cardsStudied: nat, correctAnswers: nat, minutes: nat, overdueReviews: nat)

  /** One step of the fold: a missing duration or overdue count adds 0. */
  function AddSession(acc: Totals, s: StudySession): Totals {
    Totals(
      acc.sessions + 1,
      acc.cardsStudied + s.cardsStudied,
      acc.correctAnswers + s.correctAnswers,
      acc.minutes + s.totalTime.GetOr(0),
      acc.overdueReviews + s.overdueReviews.GetOr(0))
  }

  /** `reduce` from the all-zero accumulator, left to right. */
  function FoldTotals(sessions: seq<StudySession>): Totals {
    if sessions == [] then Totals(0, 0, 0, 0, 0)
    else AddSession(FoldTotals(sessions[..|sessions| - 1]), sessions[|sessions| - 1])
  }

  function CardsOf(s: StudySession): nat { s.cardsStudied }
  function CorrectOf(s: StudySession): nat { s.correctAnswers }
  function MinutesOf(s: StudySession): nat { s.totalTime.GetOr(0) }
  function OverdueOf(s: StudySession): nat { s.overdueReviews.GetOr(0) }

  /** The fold computes, field by field, the number of sessions and the sums
      of their counts. */
  lemma {:induction false} FoldTotalsSums(sessions: seq<StudySession>)
    ensures var t := FoldTotals(sessions);
      && t.sessions == |sessions|
      && t.cardsStudied == SumOf(sessions, CardsOf)
      && t.correctAnswers == SumOf(sessions, CorrectOf)
      && t.minutes == SumOf(sessions, MinutesOf)
      && t.overdueReviews == SumOf(sessions, OverdueOf)
  {
    if sessions != [] {
      var n := |sessions|;
      var init := sessions[..n - 1];
      FoldTotalsSums(init);
      assert sessions == init + [sessions[n - 1]];
      SumOfAppend(init, sessions[n - 1], CardsOf);
      SumOfAppend(init, sessions[n - 1], CorrectOf);
      SumOfAppend(init, sessions[n - 1], MinutesOf);
      SumOfAppend(init, sessions[n - 1], OverdueOf);
    }
  }

  /** `Math.round(correct / studied * 100)`, rounding halves up, and 0 when
      nothing was studied. */
  function AccuracyPercent(correct: nat, studied: nat): (p: nat)
    ensures studied == 0 ==> p == 0
    ensures studied > 0 ==> 2 * p * studied <= 200 * correct + studied < 2 * (p + 1) * studied
  {
    if studied > 0 then
      var p := (200 * correct + studied) / (2 * studied);
      assert 2 * studied * p <= 200 * correct + studied < 2 * studied * p + 2 * studied;
      p
    else 0
  }

  /** Accuracy never exceeds 100 when no more answers are correct than cards
      were studied, and is exactly 100 when all are. */
  lemma AccuracyAtMostHundred(correct: nat, studied: nat)
    requires correct <= studied
    ensures AccuracyPercent(correct, studied) <= 100
    ensures studied > 0 && correct == studied ==> AccuracyPercent(correct, studied) == 100
  {
    var p := AccuracyPercent(correct, studied);
    if studied > 0 {
      assert (2 * p) * studied <= 200 * correct + studied <= 201 * studied;
      MulCancel(2 * p, 201, studied);
      if correct == studied {
        assert 201 * studied < (2 * p + 2) * studied;
        MulCancelStrict(201, 2 * p + 2, studied);
      }
    }
  }

  /** A positive factor can be cancelled from an inequality. */
  lemma MulCancel(a: int, b: int, k: int)
    requires k > 0 && a * k <= b * k
    ensures a <= b
  {
    assert (b - a) * k >= 0;
  }

  lemma MulCancelStrict(a: int, b: int, k: int)
    requires k > 0 && a * k < b * k
    ensures a < b
  {
    assert (b - a) * k > 0;
  }

  /** A session counts in a window when its date is at or after the start
      and before the end. */
  predicate InWindow(s: StudySession, start: int, end: int) {
    start <= s.date < end
  }

  function SessionsIn(sessions: seq<StudySession>, start: int, end: int): (r: seq<StudySession>)
    ensures forall s :: s in r <==> s in sessions && start <= s.date < end
  {
    Filter(sessions, (s: StudySession) => InWindow(s, start, end))
  }

  /** The summary of one window: how many sessions fall in it, the sums of
      their counts, and the rounded accuracy of those sums. */
  function CreateSummary(sessions: seq<StudySession>, start: int, end: int): (r: TimeframeSummary)
    ensures var w := SessionsIn(sessions, start, end);
      && r.sessions == |w|
      && r.cardsStudied == SumOf(w, CardsOf)
      && r.correctAnswers == SumOf(w, CorrectOf)
      && r.minutes == SumOf(w, MinutesOf)
      && r.overdueReviews == SumOf(w, OverdueOf)
    ensures r.accuracy == AccuracyPercent(r.correctAnswers, r.cardsStudied)
    ensures r.cardsStudied == 0 ==> r.accuracy == 0
  {
    var filtered := SessionsIn(sessions, start, end);
    var totals := FoldTotals(filtered);
    FoldTotalsSums(filtered);
    var accuracy := if totals.cardsStudied > 0 then AccuracyPercent(totals.correctAnswers, totals.cardsStudied) else 0;
    TimeframeSummary(totals.sessions, totals.cardsStudied, totals.correctAnswers, totals.minutes, accuracy, totals.overdueReviews)
  }

  /** No session in the window: every figure is 0. */
  lemma EmptyWindowSummary(sessions: seq<StudySession>, start: int, end: int)
    requires forall i :: 0 <= i < |sessions| ==> !(start <= sessions[i].date < end)
    ensures CreateSummary(sessions, start, end) == TimeframeSummary(0, 0, 0, 0, 0, 0)
  {
    FilterKeepsNone(sessions, (s: StudySession) => InWindow(s, start, end));
  }

  /** A window inside another never reports more sessions, cards, correct
      answers, minutes or overdue reviews. */
  lemma NestedWindowsMonotone(sessions: seq<StudySession>, start: int, end: int, start': int, end': int)
    requires start' <= start && end <= end'
    ensures var inner := CreateSummary(sessions, start, end);
      var outer := CreateSummary(sessions, start', end');
      && inner.sessions <= outer.sessions
      && inner.cardsStudied <= outer.cardsStudied
      && inner.correctAnswers <= outer.correctAnswers
      && inner.minutes <= outer.minutes
      && inner.overdueReviews <= outer.overdueReviews
  {
    var p := (s: StudySession) => InWindow(s, start, end);
    var q := (s: StudySession) => InWindow(s, start', end');
    CountMonotone(sessions, p, q);
    SumOfFilterMonotone(sessions, p, q, CardsOf);
    SumOfFilterMonotone(sessions, p, q, CorrectOf);
    SumOfFilterMonotone(sessions, p, q, MinutesOf);
    SumOfFilterMonotone(sessions, p, q, OverdueOf);
  }

  /** The local-calendar boundaries of the reference date's day, month and
      year, as the caller computes them. */
  datatype CalendarWindows = CalendarWindows(
    startOfDay: int, endOfDay: int,
    startOfMonth: int, endOfMonth: int,
    startOfYear: int, endOfYear: int)
  {
    /** The day lies in the month and the month in the year. */
    predicate Nested() {
      startOfYear <= startOfMonth <= startOfDay && endOfDay <= endOfMonth <= endOfYear
    }
  }

  /** No session records more correct answers than cards studied. */
  predicate AnswersWithinStudied(sessions: seq<StudySession>) {
    forall s :: s in sessions ==> s.correctAnswers <= s.cardsStudied
  }

  /** When no session has more correct answers than cards studied, the
      accuracy of a window's summary is at most 100. */
  lemma SummaryAccuracyAtMostHundred(sessions: seq<StudySession>, start: int, end: int)
    requires AnswersWithinStudied(sessions)
    ensures CreateSummary(sessions, start, end).accuracy <= 100
  {
    var w := SessionsIn(sessions, start, end);
    SumOfPointwise(w, CorrectOf, CardsOf);
    AccuracyAtMostHundred(SumOf(w, CorrectOf), SumOf(w, CardsOf));
  }

  /** The three summaries of the study history, each over its own window.
      No history gives three all-zero summaries; with the day inside the
      month inside the year, no total of the day exceeds the month's and no
      total of the month exceeds the year's; and no accuracy exceeds 100 when
      no session has more correct answers than cards studied. */
  function AggregateStudySessions(sessions: seq<StudySession>, w: CalendarWindows): (r: AggregatedStudySummary)
    ensures r.day == CreateSummary(sessions, w.startOfDay, w.endOfDay)
    ensures r.month == CreateSummary(sessions, w.startOfMonth, w.endOfMonth)
    ensures r.year == CreateSummary(sessions, w.startOfYear, w.endOfYear)
    ensures sessions == [] ==>
      r.day == r.month == r.year == TimeframeSummary(0, 0, 0, 0, 0, 0)
    ensures w.Nested() ==>
      && r.day.sessions <= r.month.sessions <= r.year.sessions
      && r.day.cardsStudied <= r.month.cardsStudied <= r.year.cardsStudied
      && r.day.correctAnswers <= r.month.correctAnswers <= r.year.correctAnswers
      && r.day.minutes <= r.month.minutes <= r.year.minutes
      && r.day.overdueReviews <= r.month.overdueReviews <= r.year.overdueReviews
    ensures AnswersWithinStudied(sessions) ==>
      r.day.accuracy <= 100 && r.month.accuracy <= 100 && r.year.accuracy <= 100
  {
    var r := AggregatedStudySummary(
      CreateSummary(sessions, w.startOfDay, w.endOfDay),
      CreateSummary(sessions, w.startOfMonth, w.endOfMonth),
      CreateSummary(sessions, w.startOfYear, w.endOfYear));
    var withNesting :=
      if w.Nested() then
        NestedWindowsMonotone(sessions, w.startOfDay, w.endOfDay, w.startOfMonth, w.endOfMonth);
        NestedWindowsMonotone(sessions, w.startOfMonth, w.endOfMonth, w.startOfYear, w.endOfYear);
        r
      else r;
    if AnswersWithinStudied(sessions) then
      SummaryAccuracyAtMostHundred(sessions, w.startOfDay, w.endOfDay);
      SummaryAccuracyAtMostHundred(sessions, w.startOfMonth, w.endOfMonth);
      SummaryAccuracyAtMostHundred(sessions, w.startOfYear, w.endOfYear);
      withNesting
    else withNesting
  }
}
