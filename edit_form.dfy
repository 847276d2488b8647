/** The edit form (src/components/EditForm.tsx): it holds the term and
    definition being typed, writes a level entry straight into the card it
    edits, and on save hands over the card with the trimmed texts, provided
    neither is blank. */
module EditForm {
  import opened Wrappers
  import opened Types
  import opened Strings

  /** A level entry clamped to the schedule's range 0..5. */
  function ClampLevel(value: int): (level: int)
    ensures 0 <= level <= MAX_LEVEL
    ensures 0 <= value <= MAX_LEVEL ==> level == value
    ensures value < 0 ==> level == 0
    ensures value > MAX_LEVEL ==> level == MAX_LEVEL
  {
    if value < 0 then 0 else if value > MAX_LEVEL then MAX_LEVEL else value
  }

  /** Clamping a clamped level changes nothing, and every clamped level is a
      level of the schedule. */
  lemma ClampLevelIdempotent(value: int)
    ensures ClampLevel(ClampLevel(value)) == ClampLevel(value)
    ensures ClampLevel(value) in Levels()
  {
  }

  /** The card a save hands over: nothing when the trimmed term or the
      trimmed definition is empty, otherwise the edited card with both texts
      trimmed and every other field as it is. */
  function SavedCard(card: Flashcard, term: string, definition: string): (r: Option<Flashcard>)
    ensures r.None? <==> AllWhitespace(term) || AllWhitespace(definition)
    ensures r.Some? ==> r.value == card.(term := Trim(term), definition := Trim(definition))
    ensures r.Some? ==> r.value.term != [] && r.value.definition != []
  {
    var t := Trim(term);
    var d := Trim(definition);
    if t != [] && d != [] then Some(card.(term := t, definition := d)) else None
  }

  /** Saving the saved card again, with its own texts, gives the same card:
      trimming twice changes nothing. */
  lemma SaveIsIdempotent(card: Flashcard, term: string, definition: string)
    requires SavedCard(card, term, definition).Some?
    ensures var saved := SavedCard(card, term, definition).value;
      SavedCard(saved, saved.term, saved.definition) == Some(saved)
  {
    TrimIdempotent(term);
    TrimIdempotent(definition);
  }

  /** A level entered before saving is carried into the saved card,
      clamped. */
  lemma SaveCarriesClampedLevel(card: Flashcard, value: int, term: string, definition: string)
    requires SavedCard(card, term, definition).Some?
    ensures var saved := SavedCard(card.(currentLevel := ClampLevel(value)), term, definition);
      saved.Some? && saved.value.currentLevel == ClampLevel(value) && saved.value.id == card.id
  {
  }

  /** The form. `card` is the card object being edited, which a level entry
      overwrites in place; `term` and `definition` are the texts typed so far. */
  class EditFormState {
    var card: Flashcard
    var term: string
    var definition: string

    /** The form opens with the card's own texts. */
    constructor (card: Flashcard)
      ensures this.card == card && term == card.term && definition == card.definition
    {
      this.card := card;
      term := card.term;
      definition := card.definition;
    }

    method SetTerm(value: string)
      modifies this
      ensures term == value && card == old(card) && definition == old(definition)
    {
      term := value;
    }

    method SetDefinition(value: string)
      modifies this
      ensures definition == value && card == old(card) && term == old(term)
    {
      definition := value;
    }

    /** A level entry: the clamped value is written into the card; the typed
        texts stay. */
    method ChangeLevel(value: int)
      modifies this
      ensures card == old(card).(currentLevel := ClampLevel(value))
      ensures term == old(term) && definition == old(definition)
    {
      card := card.(currentLevel := ClampLevel(value));
    }

    /** Save: the card to hand over, if the texts are not blank. */
    method HandleSave() returns (saved: Option<Flashcard>)
      ensures saved == SavedCard(card, term, definition)
    {
      var t := Trim(term);
      var d := Trim(definition);
      if t != [] && d != [] {
        saved := Some(card.(term := t, definition := d));
      } else {
        saved := None;
      }
    }
  }
}
