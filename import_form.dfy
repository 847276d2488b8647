/** The paste-import form (src/components/ImportForm.tsx): it resolves the
    chosen term delimiter and card separator, splits the pasted text into
    entries, turns every non-blank entry into a card or records it as
    invalid, reports an error when nothing or not everything could be read,
    inserts a tab at the cursor on the Tab key, and hands the previewed
    cards over on import. */
module ImportForm {
  import opened Wrappers
  import opened Types
  import opened Seqs
  import opened Strings
  import AppContext

  type ImportedCard = AppContext.ImportedCard

  /** The escapes `\t`, `\n` and `\r` typed into a custom delimiter become
      the tab, newline and carriage-return characters. */
  function InterpretDelimiter(value: string): string {
    ReplaceAll(ReplaceAll(ReplaceAll(value, "\\t", "\t"), "\\n", "\n"), "\\r", "\r")
  }

  /** A text without a backslash contains no escape sequence. */
  lemma NoBackslashNoEscape(value: string, escape: string)
    requires |escape| == 2 && escape[0] == '\\' && '\\' !in value
    ensures !Contains(value, escape)
  {
  }

  /** Text without a backslash is taken as it is. */
  lemma InterpretDelimiterKeepsPlainText(value: string)
    requires '\\' !in value
    ensures InterpretDelimiter(value) == value
  {
    NoBackslashNoEscape(value, "\\t");
    NoBackslashNoEscape(value, "\\n");
    NoBackslashNoEscape(value, "\\r");
  }

  /** In a text whose only backslash starts the escape `\x`, replacing the
      escape `\y` by `c` changes that escape when it is the same one and
      nothing otherwise. */
  lemma ReplaceOneEscape(a: string, x: char, b: string, y: char, c: char)
    requires '\\' !in a && '\\' !in b && x != '\\'
    ensures ReplaceAll(a + ['\\', x] + b, ['\\', y], [c]) == if x == y then a + [c] + b else a + ['\\', x] + b
  {
    var s := a + ['\\', x] + b;
    var escape := ['\\', y];
    EscapeOnlyAt(a, x, b, y);
    if x == y {
      IndexOfFirstOccurrence(s, escape, |a|);
      assert s[..|a|] == a && s[|a| + 2..] == b;
      NoBackslashNoEscape(b, escape);
    } else {
      assert s[|a| + 1] != y;
    }
  }

  /** The escape `\y` can occur in such a text only where its one backslash
      stands. */
  lemma EscapeOnlyAt(a: string, x: char, b: string, y: char)
    requires '\\' !in a && '\\' !in b && x != '\\'
    ensures forall j :: 0 <= j && j != |a| ==> !OccursAt(a + ['\\', x] + b, ['\\', y], j)
    ensures OccursAt(a + ['\\', x] + b, ['\\', y], |a|) <==> x == y
  {
    var s := a + ['\\', x] + b;
    forall j | 0 <= j < |s| && j != |a| ensures s[j] != '\\' {
      if j < |a| {
        assert s[j] == a[j];
      } else if j > |a| + 1 {
        assert s[j] == b[j - |a| - 2];
      }
    }
    forall j | 0 <= j && j != |a| ensures !OccursAt(s, ['\\', y], j) {
      if j + 2 <= |s| {
        assert s[j..j + 2][0] == s[j] != '\\';
      }
    }
    assert s[|a|..|a| + 2] == ['\\', x];
  }

  /** Each pass of `InterpretDelimiter` turns its own escape into the
      character it names and keeps the others. */
  lemma InterpretOneEscape(a: string, x: char, c: char, b: string)
    requires '\\' !in a && '\\' !in b
    requires (x == 't' && c == '\t') || (x == 'n' && c == '\n') || (x == 'r' && c == '\r')
    ensures InterpretDelimiter(a + ['\\', x] + b) == a + [c] + b
  {
    var s := a + ['\\', x] + b;
    var afterTab := ReplaceAll(s, "\\t", "\t");
    var afterNewline := ReplaceAll(afterTab, "\\n", "\n");
    var afterReturn := ReplaceAll(afterNewline, "\\r", "\r");
    assert InterpretDelimiter(s) == afterReturn;
    ReplaceOneEscape(a, x, b, 't', '\t');
    if x == 't' {
      assert afterTab == a + [c] + b && '\\' !in afterTab;
      NoBackslashNoEscape(afterTab, "\\n");
      assert afterNewline == afterTab;
      NoBackslashNoEscape(afterNewline, "\\r");
    } else {
      assert afterTab == s;
      ReplaceOneEscape(a, x, b, 'n', '\n');
      if x == 'n' {
        assert afterNewline == a + [c] + b && '\\' !in afterNewline;
        NoBackslashNoEscape(afterNewline, "\\r");
      } else {
        assert afterNewline == s;
        ReplaceOneEscape(a, x, b, 'r', '\r');
      }
    }
  }

  /** An escape typed anywhere in text without other backslashes becomes the
      character it names, and the text around it is kept. */
  lemma InterpretDelimiterEscapes(a: string, b: string)
    requires '\\' !in a && '\\' !in b
    ensures InterpretDelimiter(a + "\\t" + b) == a + "\t" + b
    ensures InterpretDelimiter(a + "\\n" + b) == a + "\n" + b
    ensures InterpretDelimiter(a + "\\r" + b) == a + "\r" + b
  {
    InterpretOneEscape(a, 't', '\t', b);
    InterpretOneEscape(a, 'n', '\n', b);
    InterpretOneEscape(a, 'r', '\r', b);
  }

  /** The term delimiter: a tab, a comma, or the interpreted custom text. */
  function ResolveTermDelimiter(kind: DelimiterType, custom: string): (r: string)
    ensures kind == TabDelimiter ==> r == "\t"
    ensures kind == CommaDelimiter ==> r == ","
    ensures kind == CustomDelimiter ==> r == InterpretDelimiter(custom)
  {
    match kind
    case TabDelimiter => "\t"
    case CommaDelimiter => ","
    case CustomDelimiter => InterpretDelimiter(custom)
  }

  /** The card separator: a newline, a semicolon, or the interpreted custom
      text. */
  function ResolveCardSeparator(kind: CardSeparatorType, custom: string): (r: string)
    ensures kind == NewlineSeparator ==> r == "\n"
    ensures kind == SemicolonSeparator ==> r == ";"
    ensures kind == CustomSeparator ==> r == InterpretDelimiter(custom)
  {
    match kind
    case NewlineSeparator => "\n"
    case SemicolonSeparator => ";"
    case CustomSeparator => InterpretDelimiter(custom)
  }

  /** Only a custom choice can leave a delimiter empty. */
  lemma BuiltInDelimitersAreNonEmpty(term: DelimiterType, card: CardSeparatorType, custom: string)
    ensures term != CustomDelimiter ==> ResolveTermDelimiter(term, custom) != []
    ensures card != CustomSeparator ==> ResolveCardSeparator(card, custom) != []
    ensures ResolveTermDelimiter(CustomDelimiter, []) == [] && ResolveCardSeparator(CustomSeparator, []) == []
  {
    InterpretDelimiterKeepsPlainText([]);
  }

  /** What became of one entry. */
  datatype EntryOutcome = Blank | Invalid | Parsed(card: ImportedCard)

  /** One entry, trimmed: blank, or split at the first occurrence of the
      delimiter into a trimmed term and a trimmed definition (the latter
      keeping any later occurrences), invalid when there is no delimiter or
      either side is blank. */
  function ParseEntry(rawEntry: string, delimiter: string): (o: EntryOutcome)
    ensures o.Blank? <==> AllWhitespace(rawEntry)
    ensures !AllWhitespace(rawEntry) && !Contains(Trim(rawEntry), delimiter) ==> o.Invalid?
    ensures o.Parsed? ==> o.card.term != [] && o.card.definition != []
    ensures o.Parsed? ==> Trim(o.card.term) == o.card.term && Trim(o.card.definition) == o.card.definition
  {
    var entry := Trim(rawEntry);
    if entry == [] then Blank
    else
      match IndexOf(entry, delimiter)
      case None => Invalid
      case Some(delimiterIndex) => SplitEntryAt(entry, delimiter, delimiterIndex)
  }

  /** The trimmed entry cut at the delimiter found at `delimiterIndex`. */
  function SplitEntryAt(entry: string, delimiter: string, delimiterIndex: nat): (o: EntryOutcome)
    requires delimiterIndex + |delimiter| <= |entry|
    ensures !o.Blank?
    ensures o.Parsed? ==> o.card.term != [] && o.card.definition != []
    ensures o.Parsed? ==> Trim(o.card.term) == o.card.term && Trim(o.card.definition) == o.card.definition
  {
    var term := Trim(entry[..delimiterIndex]);
    var definition := Trim(entry[delimiterIndex + |delimiter|..]);
    TrimIdempotent(entry[..delimiterIndex]);
    TrimIdempotent(entry[delimiterIndex + |delimiter|..]);
    if term == [] || definition == [] then Invalid
    else Parsed(AppContext.ImportedCard(term, definition))
  }

  /** A card splits its trimmed entry at the first occurrence of the
      delimiter: the term is the trimmed text before it, which holds no
      delimiter, and the definition the trimmed rest, which may. */
  lemma ParsedAtFirstDelimiter(rawEntry: string, delimiter: string)
    requires |delimiter| > 0 && ParseEntry(rawEntry, delimiter).Parsed?
    ensures var c := ParseEntry(rawEntry, delimiter).card;
      exists before, after :: Trim(rawEntry) == before + delimiter + after && !Contains(before, delimiter)
        && c.term == Trim(before) && c.definition == Trim(after)
  {
    var entry := Trim(rawEntry);
    var split := SplitFirst(entry, delimiter);
    assert split.Some?;
    var (before, after) := split.value;
    assert entry == before + delimiter + after;
  }

  /** Conversely, a non-blank entry whose trimmed text first holds the
      delimiter at `k` is read as the trimmed text before it and the trimmed
      text after it, and is invalid exactly when one of them is blank. */
  lemma ParseEntryAtFirstDelimiter(rawEntry: string, delimiter: string, k: nat)
    requires |delimiter| > 0 && OccursAt(Trim(rawEntry), delimiter, k)
    requires forall j :: 0 <= j < k ==> !OccursAt(Trim(rawEntry), delimiter, j)
    ensures var entry := Trim(rawEntry);
      var term := Trim(entry[..k]);
      var definition := Trim(entry[k + |delimiter|..]);
      ParseEntry(rawEntry, delimiter)
        == if term == [] || definition == [] then Invalid else Parsed(AppContext.ImportedCard(term, definition))
  {
    IndexOfFirstOccurrence(Trim(rawEntry), delimiter, k);
    ParseEntryAtIndex(rawEntry, delimiter, k);
  }

  lemma ParseEntryAtIndex(rawEntry: string, delimiter: string, k: nat)
    requires |delimiter| > 0 && IndexOf(Trim(rawEntry), delimiter) == Some(k)
    ensures var entry := Trim(rawEntry);
      var term := Trim(entry[..k]);
      var definition := Trim(entry[k + |delimiter|..]);
      ParseEntry(rawEntry, delimiter)
        == if term == [] || definition == [] then Invalid else Parsed(AppContext.ImportedCard(term, definition))
  {
    assert Trim(rawEntry) != [];
    assert ParseEntry(rawEntry, delimiter) == SplitEntryAt(Trim(rawEntry), delimiter, k);
  }

  /** The cards read from the entries, in order. */
  function CardsOf(entries: seq<string>, delimiter: string): seq<ImportedCard> {
    if entries == [] then []
    else
      var last := entries[|entries| - 1];
      CardsOf(entries[..|entries| - 1], delimiter)
        + (match ParseEntry(last, delimiter) case Parsed(c) => [c] case _ => [])
  }

  /** The indices of the invalid entries, in increasing order. */
  function InvalidIndices(entries: seq<string>, delimiter: string): seq<nat> {
    IndicesWhere(entries, entry => ParseEntry(entry, delimiter).Invalid?)
  }

  predicate NotBlank(entry: string) {
    !AllWhitespace(entry)
  }

  /** Every non-blank entry gives exactly one card or exactly one invalid
      index, and blank entries give neither. */
  lemma {:induction false} EveryEntryAccountedFor(entries: seq<string>, delimiter: string)
    ensures |CardsOf(entries, delimiter)| + |InvalidIndices(entries, delimiter)| == Count(entries, NotBlank)
  {
    if entries != [] {
      EveryEntryAccountedFor(entries[..|entries| - 1], delimiter);
      CountDropLast(entries, NotBlank);
    }
  }

  /** An index is reported invalid exactly when its entry is non-blank and
      yields no card. */
  lemma InvalidIndicesAreTheInvalidEntries(entries: seq<string>, delimiter: string)
    ensures forall i :: i in InvalidIndices(entries, delimiter) <==>
      (0 <= i < |entries| && ParseEntry(entries[i], delimiter).Invalid?)
  {
    forall i
      ensures i in InvalidIndices(entries, delimiter) <==> (0 <= i < |entries| && ParseEntry(entries[i], delimiter).Invalid?)
    {
      InIndicesWhere(entries, entry => ParseEntry(entry, delimiter).Invalid?, i);
    }
  }

  /** Every card read has a non-blank, trimmed term and definition. */
  lemma {:induction false} CardsAreValid(entries: seq<string>, delimiter: string)
    ensures forall c :: c in CardsOf(entries, delimiter) ==>
      c.term != [] && c.definition != [] && Trim(c.term) == c.term && Trim(c.definition) == c.definition
  {
    if entries != [] {
      CardsAreValid(entries[..|entries| - 1], delimiter);
    }
  }

  /** Reading one more entry extends the cards and the invalid indices by
      what that entry gives. */
  lemma ReadOneMore(entries: seq<string>, index: nat, delimiter: string)
    requires index < |entries|
    ensures var outcome := ParseEntry(entries[index], delimiter);
      && CardsOf(entries[..index + 1], delimiter)
         == CardsOf(entries[..index], delimiter) + (if outcome.Parsed? then [outcome.card] else [])
      && InvalidIndices(entries[..index + 1], delimiter)
         == InvalidIndices(entries[..index], delimiter) + (if outcome.Invalid? then [index] else [])
  {
    assert entries[..index + 1][..index] == entries[..index];
  }

  /** Reads the entries one by one, collecting the cards and the indices of
      the invalid entries; what one entry gives is `ParseEntry`. */
  method ParseEntries(rawEntries: seq<string>, delimiter: string) returns (cards: seq<ImportedCard>, invalidLines: seq<nat>)
    ensures cards == CardsOf(rawEntries, delimiter)
    ensures invalidLines == InvalidIndices(rawEntries, delimiter)
  {
    cards := [];
    invalidLines := [];
    var index := 0;
    while index < |rawEntries|
      invariant 0 <= index <= |rawEntries|
      invariant cards == CardsOf(rawEntries[..index], delimiter)
      invariant invalidLines == InvalidIndices(rawEntries[..index], delimiter)
    {
      ReadOneMore(rawEntries, index, delimiter);
      match ParseEntry(rawEntries[index], delimiter) {
        case Blank =>
        case Invalid =>
          invalidLines := invalidLines + [index];
        case Parsed(card) =>
          cards := cards + [card];
      }
      index := index + 1;
    }
    assert rawEntries[..index] == rawEntries;
  }

  /** The entries of the pasted text: CRLF line ends become LF; then either
      every run of newlines separates two entries, or the card separator
      does. */
  function RawEntries(inputText: string, separatorKind: CardSeparatorType, separator: string): (r: seq<string>)
    requires |separator| > 0
    ensures |r| >= 1
    ensures separatorKind == NewlineSeparator ==>
      && Join(r, "\n") == CollapseNewlineRuns(ReplaceAll(inputText, "\r\n", "\n"))
      && forall k :: 0 <= k < |r| ==> '\n' !in r[k]
    ensures separatorKind != NewlineSeparator ==>
      && Join(r, separator) == ReplaceAll(inputText, "\r\n", "\n")
      && (forall k :: 0 <= k < |r| ==> !Contains(r[k], separator))
      && forall k :: 0 <= k < |r| - 1 ==> !Contains(r[k] + separator[..|separator| - 1], separator)
  {
    var normalizedText := ReplaceAll(inputText, "\r\n", "\n");
    if separatorKind == NewlineSeparator then
      SplitNewlineRunsJoin(normalizedText);
      SplitNewlineRuns(normalizedText)
    else
      SplitJoin(normalizedText, separator);
      Split(normalizedText, separator)
  }

  /** The message shown under the preview. */
  datatype ParseError =
    | MissingTermDelimiter
    | MissingCardSeparator
    | NoValidCards
    | SkippedEntries(count: nat, sampleLine: nat)

  datatype ParseOutcome = ParseOutcome(cards: seq<ImportedCard>, error: Option<ParseError>)

  /** The message after reading the entries: none read, some skipped
      (how many, and the first of them counted from 1), or none at all. */
  function EntriesError(cards: seq<ImportedCard>, invalidLines: seq<nat>): (e: Option<ParseError>)
    ensures e.Some? <==> cards == [] || invalidLines != []
    ensures cards == [] ==> e == Some(NoValidCards)
    ensures cards != [] && invalidLines != [] ==> e == Some(SkippedEntries(|invalidLines|, invalidLines[0] + 1))
  {
    if cards == [] then Some(NoValidCards)
    else if invalidLines != [] then Some(SkippedEntries(|invalidLines|, invalidLines[0] + 1))
    else None
  }

  /** The preview of a paste: nothing for blank text, an error for an empty
      delimiter, otherwise the cards read, with an error when there are none
      or some entries were invalid (naming the first, counted from 1). */
  function ParseText(inputText: string, termDelimiter: string, separatorKind: CardSeparatorType, cardSeparator: string)
    : (r: ParseOutcome)
    ensures AllWhitespace(inputText) ==> r == ParseOutcome([], None)
    ensures !AllWhitespace(inputText) && termDelimiter == [] ==> r == ParseOutcome([], Some(MissingTermDelimiter))
    ensures !AllWhitespace(inputText) && termDelimiter != [] && cardSeparator == [] ==>
      r == ParseOutcome([], Some(MissingCardSeparator))
    ensures !AllWhitespace(inputText) && termDelimiter != [] && cardSeparator != [] ==>
      var entries := RawEntries(inputText, separatorKind, cardSeparator);
      && r.cards == CardsOf(entries, termDelimiter)
      && (r.error.Some? <==> r.cards == [] || InvalidIndices(entries, termDelimiter) != [])
      && (r.cards == [] ==> r.error == Some(NoValidCards))
  {
    if AllWhitespace(inputText) then ParseOutcome([], None)
    else if termDelimiter == [] then ParseOutcome([], Some(MissingTermDelimiter))
    else if cardSeparator == [] then ParseOutcome([], Some(MissingCardSeparator))
    else
      var entries := RawEntries(inputText, separatorKind, cardSeparator);
      var cards := CardsOf(entries, termDelimiter);
      ParseOutcome(cards, EntriesError(cards, InvalidIndices(entries, termDelimiter)))
  }

  /** Every previewed card has a non-blank, trimmed term and definition. */
  lemma PreviewCardsAreValid(inputText: string, termDelimiter: string, separatorKind: CardSeparatorType, cardSeparator: string)
    ensures forall c :: c in ParseText(inputText, termDelimiter, separatorKind, cardSeparator).cards ==>
      c.term != [] && c.definition != [] && Trim(c.term) == c.term && Trim(c.definition) == c.definition
  {
    if !AllWhitespace(inputText) && termDelimiter != [] && cardSeparator != [] {
      CardsAreValid(RawEntries(inputText, separatorKind, cardSeparator), termDelimiter);
    }
  }

  /** The text after the Tab key: the selection replaced by one tab, with
      the caret just after it. */
  function InsertTab(text: string, selectionStart: nat, selectionEnd: nat): (r: (string, nat))
    requires selectionStart <= selectionEnd <= |text|
    ensures |r.0| == |text| - (selectionEnd - selectionStart) + 1
    ensures r.1 == selectionStart + 1 && r.0[r.1 - 1] == '\t'
    ensures r.0[..selectionStart] == text[..selectionStart] && r.0[r.1..] == text[selectionEnd..]
  {
    var newValue := text[..selectionStart] + "\t" + text[selectionEnd..];
    assert newValue[..selectionStart] == text[..selectionStart];
    assert newValue[selectionStart + 1..] == text[selectionEnd..];
    (newValue, selectionStart + 1)
  }

  /** With nothing selected the Tab key only adds a tab: removing it gives
      the text back. */
  lemma InsertTabAddsOneCharacter(text: string, caret: nat)
    requires caret <= |text|
    ensures var (newValue, newCaret) := InsertTab(text, caret, caret);
      newValue[..newCaret - 1] + newValue[newCaret..] == text
  {
    var (newValue, newCaret) := InsertTab(text, caret, caret);
    assert text == text[..caret] + text[caret..];
  }

  /** The body of `parseCards`: the early exits for blank text and empty
      delimiters, then the entry loop and the message; the preview it sets
      is the one `ParseText` defines. */
  method ParsePastedText(inputText: string, termDelimiter: string, separatorKind: CardSeparatorType, cardSeparator: string)
    returns (cards: seq<ImportedCard>, error: Option<ParseError>)
    ensures ParseOutcome(cards, error) == ParseText(inputText, termDelimiter, separatorKind, cardSeparator)
  {
    if AllWhitespace(inputText) {
      return [], None;
    }
    if termDelimiter == [] {
      return [], Some(MissingTermDelimiter);
    }
    if cardSeparator == [] {
      return [], Some(MissingCardSeparator);
    }
    var rawEntries := RawEntries(inputText, separatorKind, cardSeparator);
    var invalidLines;
    cards, invalidLines := ParseEntries(rawEntries, termDelimiter);
    error := EntriesError(cards, invalidLines);
  }

  /** The form's state: the pasted text, the delimiter choices, and the
      preview derived from them. */
  class ImportFormState {
    var inputText: string
    var termDelimiter: DelimiterType
    var cardSeparator: CardSeparatorType
    var customTermDelimiter: string
    var customCardSeparator: string
    var previewCards: seq<ImportedCard>
    var parseError: Option<ParseError>

    /** The preview the current input and choices give. */
    function Preview(): ParseOutcome
      reads this
    {
      ParseText(inputText, ResolveTermDelimiter(termDelimiter, customTermDelimiter),
        cardSeparator, ResolveCardSeparator(cardSeparator, customCardSeparator))
    }

    constructor ()
      ensures inputText == [] && termDelimiter == TabDelimiter && cardSeparator == NewlineSeparator
      ensures customTermDelimiter == [] && customCardSeparator == []
      ensures previewCards == [] && parseError.None?
    {
      inputText := [];
      termDelimiter := TabDelimiter;
      cardSeparator := NewlineSeparator;
      customTermDelimiter := [];
      customCardSeparator := [];
      previewCards := [];
      parseError := None;
    }

    /** Re-reads the pasted text into the preview. */
    method ParseCards()
      modifies this
      ensures previewCards == old(Preview()).cards && parseError == old(Preview()).error
      ensures inputText == old(inputText) && termDelimiter == old(termDelimiter) && cardSeparator == old(cardSeparator)
      ensures customTermDelimiter == old(customTermDelimiter) && customCardSeparator == old(customCardSeparator)
    {
      var resolvedTermDelimiter := ResolveTermDelimiter(termDelimiter, customTermDelimiter);
      var resolvedCardSeparator := ResolveCardSeparator(cardSeparator, customCardSeparator);
      var cards, error := ParsePastedText(inputText, resolvedTermDelimiter, cardSeparator, resolvedCardSeparator);
      previewCards, parseError := cards, error;
    }

    /** The Tab key in the text area; returns the new caret position. */
    method HandleTextareaTab(selectionStart: nat, selectionEnd: nat) returns (caret: nat)
      requires selectionStart <= selectionEnd <= |inputText|
      modifies this
      ensures (inputText, caret) == InsertTab(old(inputText), selectionStart, selectionEnd)
      ensures previewCards == old(previewCards) && parseError == old(parseError)
      ensures termDelimiter == old(termDelimiter) && cardSeparator == old(cardSeparator)
      ensures customTermDelimiter == old(customTermDelimiter) && customCardSeparator == old(customCardSeparator)
    {
      inputText := inputText[..selectionStart] + "\t" + inputText[selectionEnd..];
      caret := selectionStart + 1;
    }

    /** Import: when the preview has cards they are handed over and the form
        is cleared; otherwise nothing happens. */
    method HandleImport() returns (imported: Option<seq<ImportedCard>>)
      modifies this
      ensures old(previewCards) == [] ==>
        imported.None? && inputText == old(inputText) && previewCards == [] && parseError == old(parseError)
      ensures old(previewCards) != [] ==>
        imported == Some(old(previewCards)) && inputText == [] && previewCards == [] && parseError.None?
      ensures termDelimiter == old(termDelimiter) && cardSeparator == old(cardSeparator)
      ensures customTermDelimiter == old(customTermDelimiter) && customCardSeparator == old(customCardSeparator)
    {
      if |previewCards| > 0 {
        imported := Some(previewCards);
        inputText, previewCards, parseError := [], [], None;
      } else {
        imported := None;
      }
    }
  }
}
