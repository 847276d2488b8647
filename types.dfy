/** The records of the flashcard application and the spaced-repetition
    schedule table (src/types.ts). Dates are integer milliseconds since the
    epoch. */
module Types {
  import opened Wrappers

  /** Milliseconds in one day. */
  const MS_PER_DAY: int := 24 * 60 * 60 * 1000

  /** The two states a card can be in; a card whose status field is absent
      counts as active. */
  datatype Status = Active | Learned

  /** One review event, with the level the card had before the review. */
  datatype Repetition = Repetition(level: int, date: int, correct: bool, responseTime: int)

  datatype Flashcard = Flashcard(
    id: string,
    term: string,
    definition: string,
    createdAt: int,
    repetitions: seq<Repetition>,
    currentLevel: int,
    nextReviewDate: int,
    isNew: bool,
    status: Option<Status>)
  {
    /** Only an explicit `'learned'` status makes a card learned. */
    predicate IsLearned() {
      status == Some(Learned)
    }
  }

  /** A completed study run. `totalTime` (whole minutes) and `overdueReviews`
      may be missing from stored records. */
  datatype StudySession = StudySession(
    id: string,
    date: int,
    cardsStudied: nat,
    correctAnswers: nat,
    totalTime: Option<nat>,
    overdueReviews: Option<nat>)

  /** One row of the schedule: the review interval, in days, of a level. */
  datatype ScheduleEntry = ScheduleEntry(level: nat, days: nat)

  const SPACED_REPETITION_SCHEDULE: seq<ScheduleEntry> := [
    ScheduleEntry(0, 0),
    ScheduleEntry(1, 1),
    ScheduleEntry(2, 3),
    ScheduleEntry(3, 7),
    ScheduleEntry(4, 14),
    ScheduleEntry(5, 28)
  ]

  /** The highest level, reached by the last row of the schedule. */
  const MAX_LEVEL: int := |SPACED_REPETITION_SCHEDULE| - 1

  /** The levels of the schedule, 0..5. */
  function Levels(): (ls: set<int>)
    ensures forall i :: i in ls <==> 0 <= i <= MAX_LEVEL
  {
    {0, 1, 2, 3, 4, 5}
  }

  /** The schedule has one row per level 0..5 and row i is level i; the
      highest level is 5. */
  lemma ScheduleShape()
    ensures |SPACED_REPETITION_SCHEDULE| == 6 && MAX_LEVEL == 5
    ensures forall i :: 0 <= i < |SPACED_REPETITION_SCHEDULE| ==> SPACED_REPETITION_SCHEDULE[i].level == i
  {
  }

  /** Intervals are 0, 1, 3, 7, 14 and 28 days and strictly increase, so in
      particular they never decrease; level 0 is due immediately. */
  lemma ScheduleIntervals()
    ensures forall i :: 0 <= i < |SPACED_REPETITION_SCHEDULE| ==>
      SPACED_REPETITION_SCHEDULE[i].days == [0, 1, 3, 7, 14, 28][i]
    ensures forall i, j :: 0 <= i < j < |SPACED_REPETITION_SCHEDULE| ==>
      SPACED_REPETITION_SCHEDULE[i].days < SPACED_REPETITION_SCHEDULE[j].days
    ensures SPACED_REPETITION_SCHEDULE[0].days == 0
  {
  }

  /** How a term is separated from its definition in pasted text. */
  datatype DelimiterType = TabDelimiter | CommaDelimiter | CustomDelimiter

  /** How one card is separated from the next in pasted text. */
  datatype CardSeparatorType = NewlineSeparator | SemicolonSeparator | CustomSeparator
}
