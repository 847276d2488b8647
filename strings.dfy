/** The string operations the import code relies on, in JavaScript's terms:
    `trim`, `indexOf`, `includes`, `split` with a literal separator or a
    newline pattern, global literal `replace`, and the case folding of a
    case-insensitive regular expression. Strings are sequences of characters. */
module Strings {
  import opened Wrappers

  /** JavaScript's WhiteSpace and LineTerminator characters, which `trim` removes. */
  predicate IsWhitespace(c: char) {
    c == ' ' || c == '\t' || c == '\n' || c == '\r' || c == '\U{0B}' || c == '\U{0C}'
    || c == '\U{A0}' || c == '\U{1680}' || ('\U{2000}' <= c <= '\U{200A}')
    || c == '\U{2028}' || c == '\U{2029}' || c == '\U{202F}' || c == '\U{205F}'
    || c == '\U{3000}' || c == '\U{FEFF}'
  }

  predicate AllWhitespace(s: string) {
    forall i :: 0 <= i < |s| ==> IsWhitespace(s[i])
  }

  /** JavaScript's `String.prototype.trim`: the text left once the leading
      and the trailing whitespace are removed. */
  function Trim(s: string): (r: string)
    ensures |r| <= |s|
    ensures r == [] <==> AllWhitespace(s)
    ensures r != [] ==> !IsWhitespace(r[0]) && !IsWhitespace(r[|r| - 1])
  {
    if s == [] then []
    else if IsWhitespace(s[0]) then
      assert AllWhitespace(s) <==> AllWhitespace(s[1..]) by {
        if AllWhitespace(s[1..]) {
          forall i | 1 <= i < |s| ensures IsWhitespace(s[i]) {
            assert s[i] == s[1..][i - 1];
          }
        }
      }
      Trim(s[1..])
    else if IsWhitespace(s[|s| - 1]) then Trim(s[..|s| - 1])
    else s
  }

  /** What `Trim` keeps is a slice of its input with only whitespace cut
      off before it and after it. */
  lemma {:induction false} TrimIsSlice(s: string)
    ensures IsTrimSlice(s, Trim(s))
    decreases |s|
  {
    if s == [] || (!IsWhitespace(s[0]) && !IsWhitespace(s[|s| - 1])) {
      WholeIsTrimSlice(s);
    } else if IsWhitespace(s[0]) {
      TrimIsSlice(s[1..]);
      TrimSliceDropFirst(s, Trim(s[1..]));
    } else {
      TrimIsSlice(s[..|s| - 1]);
      TrimSliceDropLast(s, Trim(s[..|s| - 1]));
    }
  }

  /** `r` is a slice of `s` with only whitespace before it and after it. */
  predicate IsTrimSlice(s: string, r: string) {
    exists i, j :: 0 <= i <= j <= |s| && r == s[i..j] && WhitespaceOutside(s, i, j)
  }

  /** Every character of `s` outside the indices `i..j` is whitespace. */
  predicate WhitespaceOutside(s: string, i: int, j: int) {
    forall k :: 0 <= k < |s| && !(i <= k < j) ==> IsWhitespace(s[k])
  }

  lemma WholeIsTrimSlice(s: string)
    ensures IsTrimSlice(s, s)
  {
    assert s == s[0..|s|] && WhitespaceOutside(s, 0, |s|);
  }

  lemma TrimSliceDropFirst(s: string, r: string)
    requires |s| > 0 && IsWhitespace(s[0]) && IsTrimSlice(s[1..], r)
    ensures IsTrimSlice(s, r)
  {
    var t := s[1..];
    var i, j :| 0 <= i <= j <= |t| && r == t[i..j] && WhitespaceOutside(t, i, j);
    assert r == s[i + 1..j + 1];
    forall k | 0 <= k < |s| && !(i + 1 <= k < j + 1) ensures IsWhitespace(s[k]) {
      if k > 0 {
        assert s[k] == t[k - 1];
      }
    }
    assert WhitespaceOutside(s, i + 1, j + 1);
  }

  lemma TrimSliceDropLast(s: string, r: string)
    requires |s| > 0 && IsWhitespace(s[|s| - 1]) && IsTrimSlice(s[..|s| - 1], r)
    ensures IsTrimSlice(s, r)
  {
    var t := s[..|s| - 1];
    var i, j :| 0 <= i <= j <= |t| && r == t[i..j] && WhitespaceOutside(t, i, j);
    assert r == s[i..j];
    forall k | 0 <= k < |s| && !(i <= k < j) ensures IsWhitespace(s[k]) {
      if k < |t| {
        assert s[k] == t[k];
      }
    }
    assert WhitespaceOutside(s, i, j);
  }

  /** Trimming a trimmed string changes nothing. */
  lemma TrimIdempotent(s: string)
    ensures Trim(Trim(s)) == Trim(s)
  {
  }

  /** `pat` occurs in `s` starting at index `j`. */
  predicate OccursAt(s: string, pat: string, j: int) {
    0 <= j && j + |pat| <= |s| && s[j..j + |pat|] == pat
  }

  function IndexFrom(s: string, pat: string, k: nat): (r: Option<nat>)
    requires k <= |s|
    ensures r.Some? ==> k <= r.value && OccursAt(s, pat, r.value)
    ensures forall j :: k <= j && (r.None? || j < r.value) ==> !OccursAt(s, pat, j)
    decreases |s| - k
  {
    if k + |pat| > |s| then None
    else if s[k..k + |pat|] == pat then Some(k)
    else if k == |s| then None
    else IndexFrom(s, pat, k + 1)
  }

  /** JavaScript's `indexOf`: the first index at which `pat` occurs, if any. */
  function IndexOf(s: string, pat: string): (r: Option<nat>)
    ensures r.Some? ==> OccursAt(s, pat, r.value)
    ensures forall j :: 0 <= j && (r.None? || j < r.value) ==> !OccursAt(s, pat, j)
  {
    IndexFrom(s, pat, 0)
  }

  /** The first occurrence is what `IndexOf` finds. */
  lemma IndexOfFirstOccurrence(s: string, pat: string, k: nat)
    requires OccursAt(s, pat, k) && forall j :: 0 <= j < k ==> !OccursAt(s, pat, j)
    ensures IndexOf(s, pat) == Some(k)
  {
  }

  /** JavaScript's `includes`. */
  predicate Contains(s: string, pat: string) {
    IndexOf(s, pat).Some?
  }

  /** JavaScript's `replace` with a global literal pattern: every occurrence,
      scanning left to right without overlaps, becomes `rep`. */
  function ReplaceAll(s: string, pat: string, rep: string): (r: string)
    requires |pat| > 0
    ensures !Contains(s, pat) ==> r == s
    ensures r == Join(Split(s, pat), rep)
    decreases |s|
  {
    match IndexOf(s, pat)
    case None => s
    case Some(i) =>
      var rest := s[i + |pat|..];
      JoinCons(s[..i], Split(rest, pat), rep);
      s[..i] + rep + ReplaceAll(rest, pat, rep)
  }

  /** The pieces joined back together with `sep` between them. */
  function Join(parts: seq<string>, sep: string): string {
    if |parts| == 0 then []
    else if |parts| == 1 then parts[0]
    else parts[0] + sep + Join(parts[1..], sep)
  }

  /** JavaScript's `split` with a non-empty literal separator: the pieces
      between the occurrences of `sep`, none of which contains it. */
  function Split(s: string, sep: string): (r: seq<string>)
    requires |sep| > 0
    ensures |r| >= 1
    ensures forall k :: 0 <= k < |r| ==> !Contains(r[k], sep)
    ensures forall k :: 0 <= k < |r| - 1 ==> !Contains(r[k] + sep[..|sep| - 1], sep)
    decreases |s|
  {
    var found := IndexOf(s, sep);
    if found.None? then [s]
    else
      NothingBeforeFirst(s, sep, found.value);
      NoEarlierOverlap(s, sep, found.value);
      var rest := Split(s[found.value + |sep|..], sep);
      assert forall k :: 0 < k < |rest| + 1 ==> ([s[..found.value]] + rest)[k] == rest[k - 1];
      [s[..found.value]] + rest
  }

  /** The text before the first occurrence of `sep` does not contain it. */
  lemma NothingBeforeFirst(s: string, sep: string, i: nat)
    requires |sep| > 0 && IndexOf(s, sep) == Some(i)
    ensures !Contains(s[..i], sep)
  {
    var head := s[..i];
    forall j | 0 <= j ensures !OccursAt(head, sep, j) {
      if OccursAt(head, sep, j) {
        assert head[j..j + |sep|] == s[j..j + |sep|];
        assert j < i && OccursAt(s, sep, j);
      }
    }
  }

  /** A self-overlapping separator is cut at its leftmost occurrence. */
  lemma SplitOverlappingSeparator()
    ensures Split("a---b", "--") == ["a", "-b"]
  {
    var s := "a---b";
    assert s[0..2][0] == 'a';
    assert s[1..3] == "--";
    assert IndexOf(s, "--") == Some(1);
    var rest := s[3..];
    assert rest == "-b";
    assert rest[0..2][1] == 'b';
    assert IndexOf(rest, "--").None?;
    assert Split(rest, "--") == ["-b"];
    assert s[..1] == "a";
    assert Split(s, "--") == [s[..1]] + Split(rest, "--");
  }

  /** Nor does that text followed by all but the last character of `sep`:
      no occurrence of `sep` starts before the first one, so the cut is made
      at the leftmost occurrence even when `sep` overlaps itself. */
  lemma NoEarlierOverlap(s: string, sep: string, i: nat)
    requires |sep| > 0 && IndexOf(s, sep) == Some(i)
    ensures !Contains(s[..i] + sep[..|sep| - 1], sep)
  {
    var head := s[..i] + sep[..|sep| - 1];
    assert head == s[..i + |sep| - 1];
    forall j | 0 <= j ensures !OccursAt(head, sep, j) {
      if j + |sep| <= |head| {
        assert head[j..j + |sep|] == s[j..j + |sep|];
        assert j < i && !OccursAt(s, sep, j);
      }
    }
  }

  /** Splitting and joining with the same separator gives back the input. */
  lemma {:induction false} SplitJoin(s: string, sep: string)
    requires |sep| > 0
    ensures Join(Split(s, sep), sep) == s
    decreases |s|
  {
    var found := IndexOf(s, sep);
    if found.Some? {
      var i := found.value;
      var rest := s[i + |sep|..];
      SplitJoin(rest, sep);
      JoinCons(s[..i], Split(rest, sep), sep);
      OccurrenceSplits(s, sep, i);
    }
  }

  lemma JoinCons(head: string, tail: seq<string>, sep: string)
    requires |tail| >= 1
    ensures Join([head] + tail, sep) == head + sep + Join(tail, sep)
  {
    assert ([head] + tail)[1..] == tail;
  }

  lemma OccurrenceSplits(s: string, pat: string, i: int)
    requires OccursAt(s, pat, i)
    ensures s == s[..i] + pat + s[i + |pat|..]
  {
    assert s == s[..i] + s[i..i + |pat|] + s[i + |pat|..];
  }

  /** No newline comes before the first one. */
  lemma NoNewlineBeforeFirst(s: string, i: nat)
    requires IndexOf(s, "\n") == Some(i)
    ensures '\n' !in s[..i]
  {
    NothingBeforeFirst(s, "\n", i);
    NotContainsChar(s[..i], '\n');
  }

  /** A text that does not contain the one-character text `[c]` has no `c`. */
  lemma NotContainsChar(x: string, c: char)
    requires !Contains(x, [c])
    ensures c !in x
  {
    forall j | 0 <= j < |x| ensures x[j] != c {
      assert x[j..j + 1] == [x[j]];
      assert !OccursAt(x, [c], j);
    }
  }

  /** The text before the first occurrence of `sep` and everything after it
      (later occurrences included): `const [a, ...rest] = s.split(sep)` with
      `rest.join(sep)`, and equally `s.slice(0, i)` and `s.slice(i + sep.length)`
      for `i = s.indexOf(sep)`. */
  function SplitFirst(s: string, sep: string): (r: Option<(string, string)>)
    requires |sep| > 0
    ensures r.None? <==> !Contains(s, sep)
    ensures r.Some? ==> r.value.0 + sep + r.value.1 == s && !Contains(r.value.0, sep)
  {
    match IndexOf(s, sep)
    case None => None
    case Some(i) =>
      var head := s[..i];
      NothingBeforeFirst(s, sep, i);
      assert s == head + s[i..i + |sep|] + s[i + |sep|..];
      Some((head, s[i + |sep|..]))
  }

  /** Index of the first character of `s` at or after `k` that is not `c`. */
  function SkipRun(s: string, c: char, k: nat): (j: nat)
    requires k <= |s|
    ensures k <= j <= |s|
    ensures forall m :: k <= m < j ==> s[m] == c
    ensures j == |s| || s[j] != c
    decreases |s| - k
  {
    if k == |s| || s[k] != c then k else SkipRun(s, c, k + 1)
  }

  /** The text with every run of newlines shortened to one newline. */
  function CollapseNewlineRuns(s: string): string {
    if s == [] then []
    else if |s| >= 2 && s[0] == '\n' && s[1] == '\n' then CollapseNewlineRuns(s[1..])
    else [s[0]] + CollapseNewlineRuns(s[1..])
  }

  /** Text before the first newline passes through unchanged. */
  lemma {:induction false} CollapseKeepsPlainPrefix(p: string, t: string)
    requires '\n' !in p
    ensures CollapseNewlineRuns(p + t) == p + CollapseNewlineRuns(t)
  {
    if p != [] {
      var pt := p + t;
      assert pt[0] == p[0] && p[0] in p;
      assert CollapseNewlineRuns(pt) == [p[0]] + CollapseNewlineRuns(pt[1..]);
      assert pt[1..] == p[1..] + t;
      assert '\n' !in p[1..];
      CollapseKeepsPlainPrefix(p[1..], t);
      assert p == [p[0]] + p[1..];
    } else {
      assert p + t == t;
    }
  }

  /** A run of newlines starting at `i` becomes one newline. */
  lemma {:induction false} CollapseRun(s: string, i: nat)
    requires i < |s| && s[i] == '\n'
    ensures CollapseNewlineRuns(s[i..]) == "\n" + CollapseNewlineRuns(s[SkipRun(s, '\n', i)..])
    decreases |s| - i
  {
    assert s[i..][1..] == s[i + 1..];
    if i + 1 < |s| && s[i + 1] == '\n' {
      CollapseRun(s, i + 1);
    }
  }

  /** JavaScript's `split(/\n+/)`: every maximal run of newlines separates
      two pieces. */
  function SplitNewlineRuns(s: string): (r: seq<string>)
    ensures |r| >= 1
    ensures forall k :: 0 <= k < |r| ==> '\n' !in r[k]
    decreases |s|
  {
    match IndexOf(s, "\n")
    case None =>
      NotContainsChar(s, '\n');
      [s]
    case Some(i) =>
      var head := s[..i];
      NoNewlineBeforeFirst(s, i);
      [head] + SplitNewlineRuns(s[SkipRun(s, '\n', i)..])
  }

  /** Joined back with single newlines, the pieces of `split(/\n+/)` give
      the text with its newline runs collapsed. */
  lemma {:induction false} SplitNewlineRunsJoin(s: string)
    ensures Join(SplitNewlineRuns(s), "\n") == CollapseNewlineRuns(s)
    decreases |s|
  {
    var found := IndexOf(s, "\n");
    if found.None? {
      NotContainsChar(s, '\n');
      CollapseKeepsPlainPrefix(s, []);
      assert s + [] == s;
    } else {
      var i := found.value;
      var j := SkipRun(s, '\n', i);
      var rest := SplitNewlineRuns(s[j..]);
      assert SplitNewlineRuns(s) == [s[..i]] + rest;
      JoinCons(s[..i], rest, "\n");
      SplitNewlineRunsJoin(s[j..]);
      CollapseAtFirstNewline(s, i);
    }
  }

  /** The text before the first newline is kept, and the run of newlines
      that starts there becomes one newline. */
  lemma CollapseAtFirstNewline(s: string, i: nat)
    requires IndexOf(s, "\n") == Some(i)
    ensures CollapseNewlineRuns(s) == s[..i] + "\n" + CollapseNewlineRuns(s[SkipRun(s, '\n', i)..])
  {
    NoNewlineBeforeFirst(s, i);
    CollapseKeepsPlainPrefix(s[..i], s[i..]);
    assert s[..i] + s[i..] == s;
    assert s[i..i + 1] == "\n";
    CollapseRun(s, i);
  }

  /** The text with the carriage return of every CRLF pair dropped. */
  function DropCrBeforeLf(s: string): string {
    if s == [] then []
    else if |s| >= 2 && s[0] == '\r' && s[1] == '\n' then DropCrBeforeLf(s[1..])
    else [s[0]] + DropCrBeforeLf(s[1..])
  }

  /** Text without a newline passes through unchanged, unless its last
      carriage return is the first half of a CRLF pair. */
  lemma {:induction false} DropKeepsPlainPrefix(p: string, t: string)
    requires '\n' !in p
    requires p != [] && p[|p| - 1] == '\r' ==> t == [] || t[0] != '\n'
    ensures DropCrBeforeLf(p + t) == p + DropCrBeforeLf(t)
  {
    if p != [] {
      assert p == [p[0]] + p[1..];
      assert (p + t)[0] == p[0] && p[0] in p;
      assert (p + t)[1..] == p[1..] + t;
      assert |p| >= 2 ==> (p + t)[1] == p[1] && p[1] in p && p[1..][|p| - 2] == p[|p| - 1];
      assert |p| == 1 && t != [] ==> (p + t)[1] == t[0];
      DropKeepsPlainPrefix(p[1..], t);
    } else {
      assert p + t == t;
    }
  }

  /** JavaScript's `split(/\r?\n/)`: a newline separates two pieces and a
      carriage return directly before it is dropped with it. */
  function SplitLines(s: string): (r: seq<string>)
    ensures |r| >= 1
    ensures forall k :: 0 <= k < |r| ==> '\n' !in r[k]
    decreases |s|
  {
    match IndexOf(s, "\n")
    case None =>
      NotContainsChar(s, '\n');
      [s]
    case Some(i) =>
      var cut := if i > 0 && s[i - 1] == '\r' then i - 1 else i;
      var head := s[..cut];
      NoNewlineBeforeFirst(s, i);
      assert head == s[..i][..cut];
      [head] + SplitLines(s[i + 1..])
  }

  /** Joined back with newlines, the pieces of `split(/\r?\n/)` give the
      text with every CRLF turned into LF. */
  lemma {:induction false} SplitLinesJoin(s: string)
    ensures Join(SplitLines(s), "\n") == DropCrBeforeLf(s)
    decreases |s|
  {
    var found := IndexOf(s, "\n");
    if found.None? {
      NotContainsChar(s, '\n');
      DropKeepsPlainPrefix(s, []);
      assert s + [] == s;
    } else {
      var i := found.value;
      var cut := if i > 0 && s[i - 1] == '\r' then i - 1 else i;
      var rest := SplitLines(s[i + 1..]);
      assert SplitLines(s) == [s[..cut]] + rest;
      JoinCons(s[..cut], rest, "\n");
      SplitLinesJoin(s[i + 1..]);
      DropAtFirstNewline(s, i, cut);
    }
  }

  /** The text before the first line end is kept, and the line end, with
      or without its carriage return, becomes one newline. */
  lemma DropAtFirstNewline(s: string, i: nat, cut: nat)
    requires IndexOf(s, "\n") == Some(i)
    requires cut == if i > 0 && s[i - 1] == '\r' then i - 1 else i
    ensures DropCrBeforeLf(s) == s[..cut] + "\n" + DropCrBeforeLf(s[i + 1..])
  {
    NoNewlineBeforeFirst(s, i);
    assert s[..cut] == s[..i][..cut];
    assert s[i..i + 1] == "\n";
    DropKeepsPlainPrefix(s[..cut], s[cut..]);
    assert s[..cut] + s[cut..] == s;
    DropAtLineEnd(s, cut, i);
  }

  /** A line end, with or without its carriage return, becomes one newline. */
  lemma DropAtLineEnd(s: string, cut: nat, i: nat)
    requires i < |s| && s[i] == '\n'
    requires cut == i || (cut + 1 == i && s[cut] == '\r')
    ensures DropCrBeforeLf(s[cut..]) == "\n" + DropCrBeforeLf(s[i + 1..])
  {
    assert s[i..][1..] == s[i + 1..];
    if cut < i {
      assert s[cut..][1..] == s[i..];
    }
  }

  /** The case folding of a case-insensitive JavaScript regular expression,
      on the letters that occur in the patterns matched here: ASCII letters
      and the Vietnamese letters of the heading words. */
  function FoldCase(c: char): (d: char)
    ensures 'A' <= c <= 'Z' ==> d == c + 32 as char
    ensures !('A' <= c <= 'Z') && c as int < 128 ==> d == c
  {
    if 'A' <= c <= 'Z' then (c as int + 32) as char
    else if c == '\U{0110}' then '\U{0111}'  // Đ
    else if c == '\U{0128}' then '\U{0129}'  // Ĩ
    else if c == '\U{1EAC}' then '\U{1EAD}'  // Ậ
    else if c == '\U{1ECA}' then '\U{1ECB}'  // Ị
    else if c == '\U{1EEA}' then '\U{1EEB}'  // Ừ
    else if c == '\U{1EEE}' then '\U{1EEF}'  // Ữ
    else if c == '\U{1EF0}' then '\U{1EF1}'  // Ự
    else c
  }

  /** `s` with every character case-folded. */
  function FoldString(s: string): (r: string)
    ensures |r| == |s|
  {
    if s == [] then [] else FoldString(s[..|s| - 1]) + [FoldCase(s[|s| - 1])]
  }

  /** Folding works character by character. */
  lemma {:induction false} FoldStringAt(s: string, i: nat)
    requires i < |s|
    ensures FoldString(s)[i] == FoldCase(s[i])
    decreases |s|
  {
    if i < |s| - 1 {
      FoldStringAt(s[..|s| - 1], i);
    }
  }

  /** `s` and `t` are equal up to case. */
  predicate EqualsIgnoreCase(s: string, t: string) {
    FoldString(s) == FoldString(t)
  }

  /** Equal up to case means the same length and the same folded character
      at every position. */
  lemma EqualsIgnoreCaseIff(s: string, t: string)
    ensures EqualsIgnoreCase(s, t) <==> |s| == |t| && forall i :: 0 <= i < |s| ==> FoldCase(s[i]) == FoldCase(t[i])
  {
    if |s| == |t| {
      forall i | 0 <= i < |s|
        ensures FoldString(s)[i] == FoldCase(s[i]) && FoldString(t)[i] == FoldCase(t[i])
      {
        FoldStringAt(s, i);
        FoldStringAt(t, i);
      }
    }
  }

  /** `s` starts with `prefix` up to case. */
  predicate StartsWithIgnoreCase(s: string, prefix: string) {
    |prefix| <= |s| && EqualsIgnoreCase(s[..|prefix|], prefix)
  }

  /** The order of `localeCompare`, taken as plain lexicographic order on
      characters: negative, zero or positive as `s` sorts before, with or
      after `t`. */
  function CompareStrings(s: string, t: string): (r: int)
    ensures -1 <= r <= 1
    ensures r == 0 <==> s == t
  {
    if s == [] && t == [] then 0
    else if s == [] then -1
    else if t == [] then 1
    else if s[0] < t[0] then -1
    else if s[0] > t[0] then 1
    else
      var r := CompareStrings(s[1..], t[1..]);
      assert s == [s[0]] + s[1..] && t == [t[0]] + t[1..];
      r
  }

  /** Swapping the operands negates the comparison. */
  lemma {:induction false} CompareStringsAntisymmetric(s: string, t: string)
    ensures CompareStrings(s, t) == -CompareStrings(t, s)
  {
    if s != [] && t != [] && s[0] == t[0] {
      CompareStringsAntisymmetric(s[1..], t[1..]);
    }
  }

  /** "Sorts no later than" is transitive. */
  lemma {:induction false} CompareStringsTransitive(s: string, t: string, u: string)
    requires CompareStrings(s, t) <= 0 && CompareStrings(t, u) <= 0
    ensures CompareStrings(s, u) <= 0
  {
    if s != [] && t != [] && u != [] && s[0] == t[0] == u[0] {
      CompareStringsTransitive(s[1..], t[1..], u[1..]);
    }
  }
}
