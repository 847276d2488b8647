/** Reading a term list copied from a Quizlet page
    (src/utils/quizletImporter.ts, `parseQuizletReadableText`). The text is
    cut into trimmed, non-blank lines; then up to five strategies each offer
    candidate (term, definition) pairs, and every candidate goes through
    `pushIfValid`, which strips quotes, checks lengths, rejects header words
    and skips a card already collected. A strategy runs only while no card
    has been collected. The numbered-list and HTML strategies are regular
    expressions and are taken here as matchers passed in by the caller. */
module QuizletImporter {
  import opened Wrappers
  import opened Strings
  import opened Seqs
  import AppContext

  /** A card read from the page: the same shape as a card of the import form. */
  type ParsedCard = AppContext.ImportedCard

  /** A candidate pair offered by a strategy: (term, definition). */
  type Candidate = (string, string)

  /** A regular-expression strategy: the two captured groups of a line, or
      nothing when the line does not match. */
  type Matcher = string -> Option<Candidate>

  const MAX_TERM_LENGTH: nat := 200
  const MAX_DEFINITION_LENGTH: nat := 500

  /** The Quizlet-style separators, tried in this order on every line. */
  const SEPARATORS: seq<string> := [" — ", " – ", " - ", " : ", " → ", " →", "→ "]

  /** The separators of the last strategy. */
  const FALLBACK_SEPARATORS: seq<string> := ["\t", " | ", " |", "| ", " : ", " :", ": "]

  /** Terms that are column headers, not cards. */
  const HEADER_WORDS: seq<string> := ["term", "definition", "word", "meaning"]

  /** Line starts that mark a heading rather than a term in the pairing
      strategy. */
  const HEADING_PREFIXES: seq<string> :=
    ["Terms in this set", "Definition", "Định nghĩa", "Thuật ngữ", "Từ vựng", "Flashcards", "Cards"]

  predicate NonEmptySeparators(seps: seq<string>) {
    forall k :: 0 <= k < |seps| ==> |seps[k]| > 0
  }

  lemma SeparatorListsAreNonEmpty()
    ensures NonEmptySeparators(SEPARATORS) && NonEmptySeparators(FALLBACK_SEPARATORS)
  {
  }

  predicate NonEmpty(s: string) { s != [] }

  /** The lines of the text: split at each newline (a carriage return before
      it dropped), each trimmed, the empty ones removed. */
  function CleanLines(text: string): (r: seq<string>)
    ensures forall k :: 0 <= k < |r| ==> r[k] != [] && Trim(r[k]) == r[k]
    ensures forall l :: l in r <==> l != [] && exists piece :: piece in SplitLines(text) && Trim(piece) == l
  {
    var pieces := SplitLines(text);
    var trimmed := seq(|pieces|, i requires 0 <= i < |pieces| => Trim(pieces[i]));
    assert forall l :: l in trimmed <==> exists piece :: piece in pieces && Trim(piece) == l by {
      forall l | l in trimmed ensures exists piece :: piece in pieces && Trim(piece) == l {
        var i :| 0 <= i < |trimmed| && trimmed[i] == l;
        assert pieces[i] in pieces;
      }
      forall l | exists piece :: piece in pieces && Trim(piece) == l ensures l in trimmed {
        var piece :| piece in pieces && Trim(piece) == l;
        var i :| 0 <= i < |pieces| && pieces[i] == piece;
        assert trimmed[i] == l;
      }
    }
    var r := Filter(trimmed, NonEmpty);
    forall k | 0 <= k < |r| ensures Trim(r[k]) == r[k] {
      assert r[k] in trimmed;
      var piece :| piece in pieces && Trim(piece) == r[k];
      TrimIdempotent(piece);
    }
    r
  }

  /** A piece of the text that is not blank once trimmed. */
  predicate TrimsNonEmpty(piece: string) { Trim(piece) != [] }

  /** The cleaned lines are the non-blank pieces of the text, trimmed, one
      line per piece and in the order of the text: line k comes from piece
      `ix[k]`, and the indices increase. */
  lemma CleanLinesInOrder(text: string)
    ensures var pieces, ix := SplitLines(text), IndicesWhere(SplitLines(text), TrimsNonEmpty);
      && |CleanLines(text)| == |ix|
      && (forall k :: 0 <= k < |ix| ==> ix[k] < |pieces| && CleanLines(text)[k] == Trim(pieces[ix[k]]))
      && (forall i :: i in ix <==> 0 <= i < |pieces| && Trim(pieces[i]) != [])
      && (forall a, b :: 0 <= a < b < |ix| ==> ix[a] < ix[b])
  {
    var pieces := SplitLines(text);
    var trimmed := seq(|pieces|, i requires 0 <= i < |pieces| => Trim(pieces[i]));
    assert CleanLines(text) == Filter(trimmed, NonEmpty);
    FilterAtIndices(trimmed, NonEmpty);
    IndicesWhereCongruent(trimmed, NonEmpty, pieces, TrimsNonEmpty);
    IndicesWhereIncreasing(pieces, TrimsNonEmpty);
    forall i ensures i in IndicesWhere(pieces, TrimsNonEmpty) <==> 0 <= i < |pieces| && Trim(pieces[i]) != [] {
      InIndicesWhere(pieces, TrimsNonEmpty, i);
    }
  }

  predicate IsQuote(c: char) { c == '"' || c == '\'' }

  /** `replace(/^["']|["']$/g, '')`: one quote at the start and one at the
      end are removed, never the same character twice. */
  function StripQuotes(s: string): (r: string)
    ensures |s| - 2 <= |r| <= |s|
    ensures (s == [] || !IsQuote(s[0])) && (s == [] || !IsQuote(s[|s| - 1])) ==> r == s
    ensures |s| >= 2 && IsQuote(s[0]) && IsQuote(s[|s| - 1]) ==> r == s[1..|s| - 1]
    ensures |s| >= 1 && IsQuote(s[0]) && !IsQuote(s[|s| - 1]) ==> r == s[1..]
    ensures |s| >= 1 && !IsQuote(s[0]) && IsQuote(s[|s| - 1]) ==> r == s[..|s| - 1]
    ensures |s| == 1 && IsQuote(s[0]) ==> r == []
  {
    var front := if |s| > 0 && IsQuote(s[0]) then 1 else 0;
    var back := if |s| > front && IsQuote(s[|s| - 1]) then |s| - 1 else |s|;
    s[front..back]
  }

  /** Unquoting keeps a contiguous part of the text. */
  lemma StripQuotesKeepsSlice(s: string)
    ensures exists a, b :: 0 <= a <= b <= |s| && StripQuotes(s) == s[a..b]
  {
    var front := if |s| > 0 && IsQuote(s[0]) then 1 else 0;
    var back := if |s| > front && IsQuote(s[|s| - 1]) then |s| - 1 else |s|;
    assert StripQuotes(s) == s[front..back];
  }

  /** `/^(term|definition|word|meaning)$/i`. The header words are written in
      lower case, so a term is one exactly when its case-folded form is. */
  predicate IsHeaderWord(t: string) {
    FoldString(t) in HEADER_WORDS
  }

  /** Lower-case ASCII text is its own case-folded form. */
  lemma {:induction false} LowerAsciiIsFolded(s: string)
    requires forall i :: 0 <= i < |s| ==> 'a' <= s[i] <= 'z'
    ensures FoldString(s) == s
  {
    if s != [] {
      LowerAsciiIsFolded(s[..|s| - 1]);
    }
  }

  /** The test above is the regular expression's case-insensitive match
      against each header word. */
  lemma IsHeaderWordIgnoresCase(t: string)
    ensures IsHeaderWord(t) <==> exists k :: 0 <= k < |HEADER_WORDS| && EqualsIgnoreCase(t, HEADER_WORDS[k])
  {
    forall k | 0 <= k < |HEADER_WORDS| ensures FoldString(HEADER_WORDS[k]) == HEADER_WORDS[k] {
      LowerAsciiIsFolded(HEADER_WORDS[k]);
    }
    if IsHeaderWord(t) {
      var k :| 0 <= k < |HEADER_WORDS| && HEADER_WORDS[k] == FoldString(t);
      assert EqualsIgnoreCase(t, HEADER_WORDS[k]);
    }
  }

  /** What every collected card satisfies. */
  predicate ValidCard(c: ParsedCard) {
    && 1 <= |c.term| <= MAX_TERM_LENGTH
    && 1 <= |c.definition| <= MAX_DEFINITION_LENGTH
    && !IsHeaderWord(c.term)
  }

  /** The card `pushIfValid` would collect from a candidate, before the
      duplicate check: an empty part is refused outright; otherwise both parts
      are trimmed and unquoted and must then be of allowed length, the term
      not a header word. */
  function Accept(term: string, definition: string): (r: Option<ParsedCard>)
    ensures r.Some? ==> ValidCard(r.value)
    ensures r.Some? ==> r.value.term == StripQuotes(Trim(term)) && r.value.definition == StripQuotes(Trim(definition))
  {
    if term == [] || definition == [] then None
    else
      var trimmedTerm := StripQuotes(Trim(term));
      var trimmedDefinition := StripQuotes(Trim(definition));
      var tooShort := |trimmedTerm| < 1 || |trimmedDefinition| < 1;
      var tooLong := |trimmedTerm| > MAX_TERM_LENGTH || |trimmedDefinition| > MAX_DEFINITION_LENGTH;
      var isHeader := IsHeaderWord(trimmedTerm);
      if !tooShort && !tooLong && !isHeader then Some(AppContext.ImportedCard(trimmedTerm, trimmedDefinition))
      else None
  }

  /** A candidate is refused exactly when a part is empty or the cleaned
      card is not valid. */
  lemma AcceptRefusesExactlyInvalid(term: string, definition: string)
    ensures Accept(term, definition).None? <==>
      term == [] || definition == []
      || !ValidCard(AppContext.ImportedCard(StripQuotes(Trim(term)), StripQuotes(Trim(definition))))
  {
  }

  /** A header word is refused whatever its case, and so is a part that is
      blank or only a pair of quotes. */
  lemma AcceptRefusesHeadersAndBlanks(term: string, definition: string)
    ensures IsHeaderWord(StripQuotes(Trim(term))) ==> Accept(term, definition).None?
    ensures AllWhitespace(term) || AllWhitespace(definition) ==> Accept(term, definition).None?
    ensures Trim(term) == "\"\"" ==> Accept(term, definition).None?
  {
  }

  /** The cleaning and validity rule of `pushIfValid`. The strategies below
      are stated for any such rule, so that the proofs about their loops need
      not look inside it; the importer passes `Accept`. */
  type Acceptor = (string, string) -> Option<ParsedCard>

  /** A rule that yields only valid cards. */
  ghost predicate YieldsValid(accept: Acceptor) {
    forall term, definition :: accept(term, definition).Some? ==> ValidCard(accept(term, definition).value)
  }

  lemma AcceptYieldsValid()
    ensures YieldsValid(Accept)
  {
  }

  /** One call of `pushIfValid`: the candidate's card is appended when it is
      valid and not yet collected. */
  function PushStep(cards: seq<ParsedCard>, p: Candidate, accept: Acceptor): seq<ParsedCard> {
    match accept(p.0, p.1)
    case None => cards
    case Some(card) => if card in cards then cards else cards + [card]
  }

  /** The cards after pushing every candidate in order. */
  function PushAll(cards: seq<ParsedCard>, ps: seq<Candidate>, accept: Acceptor): seq<ParsedCard>
    decreases |ps|
  {
    if ps == [] then cards else PushStep(PushAll(cards, ps[..|ps| - 1], accept), ps[|ps| - 1], accept)
  }

  lemma {:induction false} PushAllAppend(cards: seq<ParsedCard>, a: seq<Candidate>, b: seq<Candidate>, accept: Acceptor)
    ensures PushAll(cards, a + b, accept) == PushAll(PushAll(cards, a, accept), b, accept)
    decreases |b|
  {
    if b == [] {
      assert a + b == a;
    } else {
      assert (a + b)[..|a + b| - 1] == a + b[..|b| - 1];
      PushAllAppend(cards, a, b[..|b| - 1], accept);
    }
  }

  lemma PushAllOne(cards: seq<ParsedCard>, p: Candidate, accept: Acceptor)
    ensures PushAll(cards, [p], accept) == PushStep(cards, (p.0, p.1), accept)
  {
    assert [p][..0] == [];
  }

  predicate Distinct(cards: seq<ParsedCard>) {
    forall i, j :: 0 <= i < j < |cards| ==> cards[i] != cards[j]
  }

  /** Pushing keeps what was collected, in front, and adds only valid cards
      that are not there yet. */
  lemma {:induction false} PushAllKeepsValid(cards: seq<ParsedCard>, ps: seq<Candidate>, accept: Acceptor)
    requires YieldsValid(accept)
    requires forall k :: 0 <= k < |cards| ==> ValidCard(cards[k])
    requires Distinct(cards)
    ensures var r := PushAll(cards, ps, accept);
      && |cards| <= |r| && r[..|cards|] == cards
      && (forall k :: 0 <= k < |r| ==> ValidCard(r[k]))
      && Distinct(r)
    decreases |ps|
  {
    if ps != [] {
      PushAllKeepsValid(cards, ps[..|ps| - 1], accept);
      var before := PushAll(cards, ps[..|ps| - 1], accept);
      assert PushAll(cards, ps, accept) == PushStep(before, ps[|ps| - 1], accept);
    }
  }

  /** The cards the candidates yield, in candidate order, duplicates
      included. */
  function AcceptedCards(ps: seq<Candidate>, accept: Acceptor): (r: seq<ParsedCard>)
    ensures |r| <= |ps|
    decreases |ps|
  {
    if ps == [] then []
    else
      AcceptedCards(ps[..|ps| - 1], accept)
      + match accept(ps[|ps| - 1].0, ps[|ps| - 1].1) { case None => [] case Some(card) => [card] }
  }

  /** A card is collected exactly when it was there before or some candidate
      yields it. */
  lemma {:induction false} PushAllMembers(cards: seq<ParsedCard>, ps: seq<Candidate>, c: ParsedCard, accept: Acceptor)
    ensures c in PushAll(cards, ps, accept) <==> c in cards || c in AcceptedCards(ps, accept)
    decreases |ps|
  {
    if ps != [] {
      PushAllMembers(cards, ps[..|ps| - 1], c, accept);
    }
  }

  /** Starting from no cards, pushing collects nothing exactly when no
      candidate is acceptable. */
  lemma PushAllEmptyIff(ps: seq<Candidate>, accept: Acceptor)
    ensures PushAll([], ps, accept) == [] <==> AcceptedCards(ps, accept) == []
  {
    if PushAll([], ps, accept) != [] {
      PushAllMembers([], ps, PushAll([], ps, accept)[0], accept);
    } else if AcceptedCards(ps, accept) != [] {
      PushAllMembers([], ps, AcceptedCards(ps, accept)[0], accept);
    }
  }

  /** `pushIfValid`, with its linear scan for an equal card before the push. */
  method PushIfValid(cards: seq<ParsedCard>, term: string, definition: string, accept: Acceptor) returns (next: seq<ParsedCard>)
    ensures next == PushStep(cards, (term, definition), accept)
  {
    next := cards;
    match accept(term, definition) {
      case None =>
      case Some(card) =>
        var found := false;
        var k := 0;
        while k < |cards| && !found
          invariant 0 <= k <= |cards|
          invariant found <==> card in cards[..k]
        {
          found := cards[k] == card;
          assert cards[..k + 1] == cards[..k] + [cards[k]];
          k := k + 1;
        }
        assert !found ==> cards[..k] == cards;
        if !found {
          next := cards + [card];
        }
    }
  }

  /** The candidates of one line for the given separators, in separator
      order: for each separator the line contains, the text before its first
      occurrence and everything after it. */
  function LineCandidates(line: string, seps: seq<string>): (r: seq<Candidate>)
    requires NonEmptySeparators(seps)
    ensures |r| <= |seps|
    decreases |seps|
  {
    if seps == [] then []
    else
      var sep := seps[|seps| - 1];
      LineCandidates(line, seps[..|seps| - 1])
      + match SplitFirst(line, sep) { case None => [] case Some(parts) => [parts] }
  }

  /** Pushing the candidates of one more separator: the line's split at it,
      when the line contains it. */
  lemma LineCandidatesStep(cards: seq<ParsedCard>, line: string, seps: seq<string>, j: nat, accept: Acceptor)
    requires NonEmptySeparators(seps) && j < |seps|
    ensures PushAll(cards, LineCandidates(line, seps[..j + 1]), accept) ==
      match SplitFirst(line, seps[j])
      case None => PushAll(cards, LineCandidates(line, seps[..j]), accept)
      case Some(parts) => PushStep(PushAll(cards, LineCandidates(line, seps[..j]), accept), (parts.0, parts.1), accept)
  {
    assert seps[..j + 1][..j] == seps[..j];
    var found := match SplitFirst(line, seps[j]) { case None => [] case Some(parts) => [parts] };
    assert LineCandidates(line, seps[..j + 1]) == LineCandidates(line, seps[..j]) + found;
    PushAllAppend(cards, LineCandidates(line, seps[..j]), found, accept);
    if found != [] {
      PushAllOne(PushAll(cards, LineCandidates(line, seps[..j]), accept), found[0], accept);
    }
  }

  /** Every candidate of a line rebuilds the line around a separator that
      does not occur in the term. */
  lemma {:induction false} LineCandidatesSplitAtFirst(line: string, seps: seq<string>)
    requires NonEmptySeparators(seps)
    ensures forall p :: p in LineCandidates(line, seps) ==>
      exists k :: 0 <= k < |seps| && p.0 + seps[k] + p.1 == line && !Contains(p.0, seps[k])
    decreases |seps|
  {
    if seps != [] {
      var init := seps[..|seps| - 1];
      LineCandidatesSplitAtFirst(line, init);
      forall p | p in LineCandidates(line, seps)
        ensures exists k :: 0 <= k < |seps| && p.0 + seps[k] + p.1 == line && !Contains(p.0, seps[k])
      {
        if p in LineCandidates(line, init) {
          var k :| 0 <= k < |init| && p.0 + init[k] + p.1 == line && !Contains(p.0, init[k]);
          assert seps[k] == init[k];
        } else {
          assert p.0 + seps[|seps| - 1] + p.1 == line && !Contains(p.0, seps[|seps| - 1]);
        }
      }
    }
  }

  /** A line yields one candidate per separator it contains. */
  lemma {:induction false} LineCandidatesCount(line: string, seps: seq<string>, contained: string -> bool)
    requires NonEmptySeparators(seps)
    requires forall s :: contained(s) == Contains(line, s)
    ensures |LineCandidates(line, seps)| == Count(seps, contained)
    decreases |seps|
  {
    if seps != [] {
      LineCandidatesCount(line, seps[..|seps| - 1], contained);
      CountDropLast(seps, contained);
    }
  }

  /** The candidates of the separator strategies: the lines in order, each
      with its candidates in separator order. */
  function SeparatorCandidates(lines: seq<string>, seps: seq<string>): seq<Candidate>
    requires NonEmptySeparators(seps)
    decreases |lines|
  {
    if lines == [] then []
    else SeparatorCandidates(lines[..|lines| - 1], seps) + LineCandidates(lines[|lines| - 1], seps)
  }

  /** The candidates of a regular-expression strategy: the captured groups of
      every line that matches, in line order. */
  function MatchCandidates(lines: seq<string>, matcher: Matcher): (r: seq<Candidate>)
    ensures |r| <= |lines|
    ensures forall p :: p in r ==> exists k :: 0 <= k < |lines| && matcher(lines[k]) == Some(p)
    decreases |lines|
  {
    if lines == [] then []
    else
      var init := lines[..|lines| - 1];
      var last := lines[|lines| - 1];
      var r := MatchCandidates(init, matcher) + match matcher(last) { case None => [] case Some(p) => [p] };
      assert forall k :: 0 <= k < |init| ==> init[k] == lines[k];
      r
  }

  /** `/^(Terms in this set|Definition|Định nghĩa|Thuật ngữ|Từ vựng|Flashcards|Cards)/i`. */
  predicate HeadingLike(line: string) {
    exists k :: 0 <= k < |HEADING_PREFIXES| && StartsWithIgnoreCase(line, HEADING_PREFIXES[k])
  }

  /** The candidates of the pairing strategy for the first `n` pairs of lines:
      line 2i is a term and line 2i+1 its definition, unless the term looks
      like a heading. The heading test is a parameter so that the proofs
      about the loop need not look inside it; the importer passes
      `HeadingLike`. */
  function PairCandidates(lines: seq<string>, n: nat, isHeading: string -> bool): seq<Candidate>
    requires 2 * n <= |lines|
  {
    if n == 0 then []
    else
      var i := 2 * (n - 1);
      PairCandidates(lines, n - 1, isHeading) + (if isHeading(lines[i]) then [] else [(lines[i], lines[i + 1])])
  }

  /** Every pair the pairing strategy offers is (line i, line i+1) for an
      even i whose term is not heading-like. */
  lemma {:induction false} PairCandidatesAreAdjacentLines(lines: seq<string>, n: nat, isHeading: string -> bool)
    requires 2 * n <= |lines|
    ensures forall p :: p in PairCandidates(lines, n, isHeading) ==>
      exists i :: 0 <= i < 2 * n && i % 2 == 0 && p == (lines[i], lines[i + 1]) && !isHeading(lines[i])
  {
    if n > 0 {
      var last := 2 * (n - 1);
      PairCandidatesAreAdjacentLines(lines, n - 1, isHeading);
      var earlier := PairCandidates(lines, n - 1, isHeading);
      forall p | p in PairCandidates(lines, n, isHeading)
        ensures exists i :: 0 <= i < 2 * n && i % 2 == 0 && p == (lines[i], lines[i + 1]) && !isHeading(lines[i])
      {
        if p !in earlier {
          assert p == (lines[last], lines[last + 1]) && last % 2 == 0;
        }
      }
    }
  }

  /** Every pair (line i, line i+1) for an even i whose term is not
      heading-like is offered by the pairing strategy. */
  lemma {:induction false} AdjacentLinesArePairCandidates(lines: seq<string>, n: nat, isHeading: string -> bool)
    requires 2 * n <= |lines|
    ensures forall i :: 0 <= i < 2 * n && i % 2 == 0 && !isHeading(lines[i]) ==>
      (lines[i], lines[i + 1]) in PairCandidates(lines, n, isHeading)
  {
    if n > 0 {
      var last := 2 * (n - 1);
      AdjacentLinesArePairCandidates(lines, n - 1, isHeading);
      forall i | 0 <= i < 2 * n && i % 2 == 0 && !isHeading(lines[i])
        ensures (lines[i], lines[i + 1]) in PairCandidates(lines, n, isHeading)
      {
        if i >= last {
          assert i == last;
        }
      }
    }
  }

  predicate SomeAccepted(ps: seq<Candidate>, accept: Acceptor) {
    AcceptedCards(ps, accept) != []
  }

  /** The cards of the first candidate list that collects any, each list
      pushed from no cards; no cards when none does. */
  function FirstCollecting(lists: seq<seq<Candidate>>, accept: Acceptor): seq<ParsedCard> {
    if lists == [] then []
    else if PushAll([], lists[0], accept) != [] then PushAll([], lists[0], accept)
    else FirstCollecting(lists[1..], accept)
  }

  /** The output of the first collecting list is valid and free of
      duplicates. */
  lemma {:induction false} FirstCollectingIsValid(lists: seq<seq<Candidate>>, accept: Acceptor)
    requires YieldsValid(accept)
    ensures var r := FirstCollecting(lists, accept);
      (forall k :: 0 <= k < |r| ==> ValidCard(r[k])) && Distinct(r)
  {
    if lists != [] {
      PushAllKeepsValid([], lists[0], accept);
      FirstCollectingIsValid(lists[1..], accept);
    }
  }

  /** A list decides the output when it offers an acceptable candidate and
      no earlier list does. */
  lemma {:induction false} FirstCollectingPicksFirstAccepting(lists: seq<seq<Candidate>>, accept: Acceptor)
    ensures forall i :: 0 <= i < |lists| && SomeAccepted(lists[i], accept) && (forall j :: 0 <= j < i ==> !SomeAccepted(lists[j], accept)) ==>
      FirstCollecting(lists, accept) == PushAll([], lists[i], accept)
  {
    if lists != [] {
      PushAllEmptyIff(lists[0], accept);
      FirstCollectingPicksFirstAccepting(lists[1..], accept);
      forall i | 0 < i < |lists| && SomeAccepted(lists[i], accept) && (forall j :: 0 <= j < i ==> !SomeAccepted(lists[j], accept))
        ensures FirstCollecting(lists, accept) == PushAll([], lists[i], accept)
      {
        assert !SomeAccepted(lists[0], accept);
        assert lists[1..][i - 1] == lists[i];
        assert forall j :: 0 <= j < i - 1 ==> lists[1..][j] == lists[j + 1];
      }
    }
  }

  /** There is no output exactly when no list offers an acceptable
      candidate. */
  lemma {:induction false} FirstCollectingEmptyIffNoneAccepting(lists: seq<seq<Candidate>>, accept: Acceptor)
    ensures FirstCollecting(lists, accept) == [] <==> forall j :: 0 <= j < |lists| ==> !SomeAccepted(lists[j], accept)
  {
    if lists != [] {
      PushAllEmptyIff(lists[0], accept);
      FirstCollectingEmptyIffNoneAccepting(lists[1..], accept);
      assert forall j :: 0 <= j < |lists| - 1 ==> lists[1..][j] == lists[j + 1];
    }
  }


  /** Trying the lists from position `i` on: the list there decides when it
      collects anything, otherwise the search goes on with the next one. */
  lemma FirstCollectingSkips(lists: seq<seq<Candidate>>, i: nat, accept: Acceptor)
    requires i < |lists|
    ensures FirstCollecting(lists[i..], accept) ==
      if PushAll([], lists[i], accept) != [] then PushAll([], lists[i], accept) else FirstCollecting(lists[i + 1..], accept)
  {
    assert lists[i..][0] == lists[i];
    assert lists[i..][1..] == lists[i + 1..];
  }

  /** The candidate lists of the five strategies, in the order they are
      tried: separators, numbered list, HTML, pairing, fallback separators. */
  function StrategyCandidates(lines: seq<string>, numbered: Matcher, html: Matcher): (r: seq<seq<Candidate>>)
    ensures |r| == 5
  {
    SeparatorListsAreNonEmpty();
    [SeparatorCandidates(lines, SEPARATORS), MatchCandidates(lines, numbered), MatchCandidates(lines, html),
     PairCandidates(lines, |lines| / 2, HeadingLike), SeparatorCandidates(lines, FALLBACK_SEPARATORS)]
  }

  /** The output of `parseQuizletReadableText`: the cards of the first
      strategy that collects any. */
  function ParseReadableText(text: string, numbered: Matcher, html: Matcher): seq<ParsedCard> {
    FirstCollecting(StrategyCandidates(CleanLines(text), numbered, html), Accept)
  }

  /** Every card read is valid and no card is read twice. */
  lemma ParsedCardsAreValid(text: string, numbered: Matcher, html: Matcher)
    ensures var r := ParseReadableText(text, numbered, html);
      && (forall k :: 0 <= k < |r| ==> ValidCard(r[k]))
      && Distinct(r)
  {
    AcceptYieldsValid();
    FirstCollectingIsValid(StrategyCandidates(CleanLines(text), numbered, html), Accept);
  }

  /** A strategy runs only when no earlier one offered an acceptable
      candidate, and then the output is exactly what it collects; a card is
      read only if some candidate of that strategy yields it. */
  lemma EarlierStrategyWins(text: string, numbered: Matcher, html: Matcher, i: nat)
    requires i < 5
    ensures var lists := StrategyCandidates(CleanLines(text), numbered, html);
      SomeAccepted(lists[i], Accept) && (forall j :: 0 <= j < i ==> !SomeAccepted(lists[j], Accept)) ==>
        && ParseReadableText(text, numbered, html) == PushAll([], lists[i], Accept)
        && forall c :: c in ParseReadableText(text, numbered, html) ==> c in AcceptedCards(lists[i], Accept)
    ensures var lists := StrategyCandidates(CleanLines(text), numbered, html);
      ParseReadableText(text, numbered, html) == [] <==> forall j :: 0 <= j < 5 ==> !SomeAccepted(lists[j], Accept)
  {
    var lists := StrategyCandidates(CleanLines(text), numbered, html);
    FirstCollectingPicksFirstAccepting(lists, Accept);
    FirstCollectingEmptyIffNoneAccepting(lists, Accept);
    forall c | c in PushAll([], lists[i], Accept) ensures c in AcceptedCards(lists[i], Accept) {
      PushAllMembers([], lists[i], c, Accept);
    }
  }

  /** The separators tried on one line: for each one the line contains, the
      text before its first occurrence is the term and the rest, later
      occurrences included, the definition. */
  method PushLine(cards: seq<ParsedCard>, line: string, seps: seq<string>, accept: Acceptor) returns (next: seq<ParsedCard>)
    requires NonEmptySeparators(seps)
    ensures next == PushAll(cards, LineCandidates(line, seps), accept)
  {
    next := cards;
    var j := 0;
    while j < |seps|
      invariant 0 <= j <= |seps|
      invariant next == PushAll(cards, LineCandidates(line, seps[..j]), accept)
    {
      var sep := seps[j];
      LineCandidatesStep(cards, line, seps, j, accept);
      if Contains(line, sep) {
        var parts := SplitFirst(line, sep).value;
        next := PushIfValid(next, parts.0, parts.1, accept);
      }
      j := j + 1;
    }
    assert seps[..j] == seps;
  }

  /** One separator strategy: every line, every separator the line contains. */
  method PushSeparated(cards: seq<ParsedCard>, lines: seq<string>, seps: seq<string>, accept: Acceptor) returns (next: seq<ParsedCard>)
    requires NonEmptySeparators(seps)
    ensures next == PushAll(cards, SeparatorCandidates(lines, seps), accept)
  {
    next := cards;
    var i := 0;
    while i < |lines|
      invariant 0 <= i <= |lines|
      invariant next == PushAll(cards, SeparatorCandidates(lines[..i], seps), accept)
    {
      var line := lines[i];
      assert lines[..i + 1][..i] == lines[..i];
      PushAllAppend(cards, SeparatorCandidates(lines[..i], seps), LineCandidates(line, seps), accept);
      next := PushLine(next, line, seps, accept);
      i := i + 1;
    }
    assert lines[..i] == lines;
  }

  /** One regular-expression strategy: every line the matcher accepts. */
  method PushMatched(cards: seq<ParsedCard>, lines: seq<string>, matcher: Matcher, accept: Acceptor) returns (next: seq<ParsedCard>)
    ensures next == PushAll(cards, MatchCandidates(lines, matcher), accept)
  {
    next := cards;
    var i := 0;
    while i < |lines|
      invariant 0 <= i <= |lines|
      invariant next == PushAll(cards, MatchCandidates(lines[..i], matcher), accept)
    {
      var line := lines[i];
      assert lines[..i + 1][..i] == lines[..i];
      ghost var found := match matcher(line) { case None => [] case Some(p) => [p] };
      assert MatchCandidates(lines[..i + 1], matcher) == MatchCandidates(lines[..i], matcher) + found;
      PushAllAppend(cards, MatchCandidates(lines[..i], matcher), found, accept);
      match matcher(line) {
        case None =>
        case Some(groups) =>
          next := PushIfValid(next, groups.0, groups.1, accept);
          assert [groups][..0] == [];
      }
      i := i + 1;
    }
    assert lines[..i] == lines;
  }

  lemma HalfOfLength(length: nat, n: nat)
    requires length == 2 * n || length == 2 * n + 1
    ensures n == length / 2
  {
  }

  /** The cards after the first `n` pairs of the pairing strategy, one pair
      at a time. */
  function PairsPushed(cards: seq<ParsedCard>, lines: seq<string>, n: nat, isHeading: string -> bool, accept: Acceptor): seq<ParsedCard>
    requires 2 * n <= |lines|
  {
    if n == 0 then cards
    else
      var i := 2 * (n - 1);
      var earlier := PairsPushed(cards, lines, n - 1, isHeading, accept);
      if isHeading(lines[i]) then earlier else PushStep(earlier, (lines[i], lines[i + 1]), accept)
  }

  /** Pushing pair by pair is pushing the pairing strategy's candidates. */
  lemma {:induction false} PairsPushedIsPushAll(cards: seq<ParsedCard>, lines: seq<string>, n: nat, isHeading: string -> bool, accept: Acceptor)
    requires 2 * n <= |lines|
    ensures PairsPushed(cards, lines, n, isHeading, accept) == PushAll(cards, PairCandidates(lines, n, isHeading), accept)
  {
    if n > 0 {
      var i := 2 * (n - 1);
      var earlier := PairCandidates(lines, n - 1, isHeading);
      PairsPushedIsPushAll(cards, lines, n - 1, isHeading, accept);
      if isHeading(lines[i]) {
        assert PairCandidates(lines, n, isHeading) == earlier + [] == earlier;
      } else {
        var p := (lines[i], lines[i + 1]);
        assert PairCandidates(lines, n, isHeading) == earlier + [p];
        PushAllAppend(cards, earlier, [p], accept);
        PushAllOne(PushAll(cards, earlier, accept), p, accept);
      }
    }
  }

  /** The pairing strategy: `for (i = 0; i + 1 < lines.length; i += 2)`,
      skipping every pair whose term passes `isHeading`. */
  method PushPairs(cards: seq<ParsedCard>, lines: seq<string>, isHeading: string -> bool, accept: Acceptor) returns (next: seq<ParsedCard>)
    ensures next == PushAll(cards, PairCandidates(lines, |lines| / 2, isHeading), accept)
  {
    next := cards;
    var i := 0;
    ghost var n := 0;
    while i + 1 < |lines|
      invariant i == 2 * n && i <= |lines|
      invariant next == PairsPushed(cards, lines, n, isHeading, accept)
    {
      var term := lines[i];
      var definition := lines[i + 1];
      if !isHeading(term) {
        next := PushIfValid(next, term, definition, accept);
      }
      i := i + 2;
      n := n + 1;
    }
    HalfOfLength(|lines|, n);
    PairsPushedIsPushAll(cards, lines, n, isHeading, accept);
  }

  /** `parseQuizletReadableText`, with the numbered-list and HTML regular
      expressions passed in as matchers. */
  method ParseQuizletReadableText(text: string, numbered: Matcher, html: Matcher) returns (cards: seq<ParsedCard>)
    ensures cards == ParseReadableText(text, numbered, html)
    ensures forall k :: 0 <= k < |cards| ==> ValidCard(cards[k])
    ensures Distinct(cards)
  {
    SeparatorListsAreNonEmpty();
    var lines := CleanLines(text);
    ghost var lists := StrategyCandidates(lines, numbered, html);
    assert lists[0..] == lists && lists[5..] == [];
    // while nothing is collected, the output is decided by the lists not yet tried
    cards := [];
    cards := PushSeparated(cards, lines, SEPARATORS, Accept);
    FirstCollectingSkips(lists, 0, Accept);
    assert cards == [] ==> FirstCollecting(lists, Accept) == FirstCollecting(lists[1..], Accept);
    if |cards| == 0 {
      cards := PushMatched(cards, lines, numbered, Accept);
      FirstCollectingSkips(lists, 1, Accept);
    }
    assert cards == [] ==> FirstCollecting(lists, Accept) == FirstCollecting(lists[2..], Accept);
    if |cards| == 0 {
      cards := PushMatched(cards, lines, html, Accept);
      FirstCollectingSkips(lists, 2, Accept);
    }
    assert cards == [] ==> FirstCollecting(lists, Accept) == FirstCollecting(lists[3..], Accept);
    if |cards| == 0 {
      cards := PushPairs(cards, lines, HeadingLike, Accept);
      FirstCollectingSkips(lists, 3, Accept);
    }
    assert cards == [] ==> FirstCollecting(lists, Accept) == FirstCollecting(lists[4..], Accept);
    if |cards| == 0 {
      cards := PushSeparated(cards, lines, FALLBACK_SEPARATORS, Accept);
      FirstCollectingSkips(lists, 4, Accept);
    }
    assert cards == FirstCollecting(lists, Accept);
    ParsedCardsAreValid(text, numbered, html);
  }
}
