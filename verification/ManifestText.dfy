/** Scanning one manifest line: string literals, keys and their `=`, quoted values. */
module ManifestText {
  import opened Wrappers
  import opened Text

  // ---------------------------------------------------------------------------
  // String literals
  // ---------------------------------------------------------------------------

  datatype Quotes = Outside | InDouble | InSingle

  function StepQuotes(state: Quotes, c: char): Quotes {
    if c == '"' && state != InSingle then if state == InDouble then Outside else InDouble
    else if c == '\'' && state != InDouble then if state == InSingle then Outside else InSingle
    else state
  }

  /** Which kind of literal the text leaves open, every quote of that kind counting. */
  function QuotesAfter(s: string): Quotes {
    if s == "" then Outside else StepQuotes(QuotesAfter(s[..|s| - 1]), s[|s| - 1])
  }

  method IsInsideStringLiteral(line: string, index: nat) returns (inside: bool)
    requires index <= |line|
    ensures inside <==> QuotesAfter(line[..index]) != Outside
  {
    var inDouble, inSingle := false, false;
    for i := 0 to index
      invariant inDouble <==> QuotesAfter(line[..i]) == InDouble
      invariant inSingle <==> QuotesAfter(line[..i]) == InSingle
    {
      assert line[..i + 1][..i] == line[..i];
      var c := line[i];
      if c == '"' && !inSingle {
        inDouble := !inDouble;
      } else if c == '\'' && !inDouble {
        inSingle := !inSingle;
      }
    }
    inside := inDouble || inSingle;
  }

  // ---------------------------------------------------------------------------
  // Keys
  // ---------------------------------------------------------------------------

  predicate IsKeyChar(c: char) {
    IsDigit(c) || 'a' <= c <= 'z' || 'A' <= c <= 'Z' || c == '_' || c == '-'
  }

  /** The first position from `i` on that is not white space. */
  function SkipWhitespace(line: string, i: nat): (j: nat)
    requires i <= |line|
    ensures i <= j <= |line|
    ensures j < |line| ==> !IsWhitespace(line[j])
    decreases |line| - i
  {
    if i < |line| && IsWhitespace(line[i]) then SkipWhitespace(line, i + 1) else i
  }

  /** Only white space is skipped. */
  lemma {:induction false} SkipsOnlyWhitespace(line: string, i: nat, k: nat)
    requires i <= k < |line| && !IsWhitespace(line[k])
    ensures SkipWhitespace(line, i) <= k
    decreases |line| - i
  {
    if IsWhitespace(line[i]) {
      SkipsOnlyWhitespace(line, i + 1, k);
    }
  }

  /** Whether an `=` follows, white space apart. */
  predicate EqualsFollows(line: string, end: nat)
    requires end <= |line|
  {
    var e := SkipWhitespace(line, end);
    e < |line| && line[e] == '='
  }

  /** Whether the word at `i` stands as a key: outside literals, not part of a longer key, before an `=`. */
  predicate KeyAt(line: string, field: string, i: nat)
    requires i + |field| <= |line|
  {
    var end := i + |field|;
    && line[i..end] == field
    && QuotesAfter(line[..i]) == Outside
    && (i == 0 || !IsKeyChar(line[i - 1]))
    && (end == |line| || !IsKeyChar(line[end]))
    && EqualsFollows(line, end)
  }

  /** The `=` of the first key `field` at or after `from`. */
  function KeyEquals(line: string, field: string, from: nat): (r: Option<nat>)
    ensures r.Some? ==> from + |field| <= r.value < |line| && line[r.value] == '='
    decreases |line| - from
  {
    if from + |field| > |line| then None
    else if KeyAt(line, field, from) then Some(SkipWhitespace(line, from + |field|))
    else if from == |line| then None
    else KeyEquals(line, field, from + 1)
  }

  predicate OccursAt(line: string, word: string, i: nat) {
    i + |word| <= |line| && line[i..i + |word|] == word
  }

  /** The first occurrence of a word at or after `from`. */
  function Occurrence(line: string, word: string, from: nat): (r: Option<nat>)
    requires from <= |line|
    ensures r.Some? ==> from <= r.value && OccursAt(line, word, r.value)
    decreases |line| - from
  {
    if OccursAt(line, word, from) then Some(from)
    else if from == |line| then None
    else Occurrence(line, word, from + 1)
  }

  // ---------------------------------------------------------------------------
  // Searching
  // ---------------------------------------------------------------------------

  /** A character of one byte. */
  predicate IsAscii(c: char) {
    c < 128 as char
  }

  /** The search steps past an occurrence by one byte; cutting the line there panics past its end, where only
    * the empty word occurs, and inside a character of several bytes. */
  predicate StepPanics(line: string, p: nat) {
    p >= |line| || !IsAscii(line[p])
  }

  /** Whether the search at or after `from` panics. */
  predicate SearchPanics(line: string, field: string, from: nat)
    decreases |line| - from
  {
    if from + |field| > |line| then false
    else if OccursAt(line, field, from)
    then !KeyAt(line, field, from) && (StepPanics(line, from) || SearchPanics(line, field, from + 1))
    else from < |line| && SearchPanics(line, field, from + 1)
  }

  /** An occurrence the search cannot step past, none up to it being a key. */
  predicate StopsAt(line: string, field: string, from: nat, p: nat) {
    && from <= p && OccursAt(line, field, p) && StepPanics(line, p)
    && forall q: nat | from <= q <= p && OccursAt(line, field, q) :: !KeyAt(line, field, q)
  }

  /** The search panics exactly if it meets an occurrence it cannot step past before any key. */
  lemma {:induction false} SearchPanicsExactly(line: string, field: string, from: nat)
    ensures SearchPanics(line, field, from) <==> exists p: nat :: StopsAt(line, field, from, p)
    decreases |line| - from
  {
    if from + |field| <= |line| && from < |line| {
      SearchPanicsExactly(line, field, from + 1);
    }
    if SearchPanics(line, field, from) {
      if OccursAt(line, field, from) && StepPanics(line, from) {
        assert StopsAt(line, field, from, from);
      } else {
        var p: nat :| StopsAt(line, field, from + 1, p);
        assert StopsAt(line, field, from, p);
      }
    }
    if p: nat :| StopsAt(line, field, from, p) {
      if p > from {
        assert StopsAt(line, field, from + 1, p);
      }
    }
  }

  /** A word that starts with a one-byte character is always searched for in peace. */
  lemma {:induction false} AsciiSearchIsCalm(line: string, field: string, from: nat)
    requires field != "" && IsAscii(field[0])
    ensures !SearchPanics(line, field, from)
    decreases |line| - from
  {
    if from + |field| <= |line| && from < |line| {
      assert line[from..from + |field|][0] == line[from];
      AsciiSearchIsCalm(line, field, from + 1);
    }
  }

  lemma SearchPast(line: string, field: string, from: nat)
    requires from < |line| && !OccursAt(line, field, from)
    ensures KeyEquals(line, field, from) == KeyEquals(line, field, from + 1)
    ensures SearchPanics(line, field, from) == SearchPanics(line, field, from + 1)
    ensures Occurrence(line, field, from) == Occurrence(line, field, from + 1)
  {
  }

  lemma SearchHere(line: string, field: string, from: nat)
    requires OccursAt(line, field, from)
    ensures KeyEquals(line, field, from)
            == if KeyAt(line, field, from) then Some(SkipWhitespace(line, from + |field|))
               else KeyEquals(line, field, from + 1)
    ensures SearchPanics(line, field, from)
            == (!KeyAt(line, field, from) && (StepPanics(line, from) || SearchPanics(line, field, from + 1)))
  {
  }

  /** The key search goes from occurrence to occurrence. */
  lemma {:induction false} SearchByOccurrence(line: string, field: string, from: nat, found: Option<nat>)
    requires from <= |line| && found == Occurrence(line, field, from)
    ensures found.None? ==> KeyEquals(line, field, from) == None && !SearchPanics(line, field, from)
    ensures found.Some? ==>
              KeyEquals(line, field, from)
              == if KeyAt(line, field, found.value) then Some(SkipWhitespace(line, found.value + |field|))
                 else KeyEquals(line, field, found.value + 1)
    ensures found.Some? ==>
              SearchPanics(line, field, from)
              == (!KeyAt(line, field, found.value)
                  && (StepPanics(line, found.value) || SearchPanics(line, field, found.value + 1)))
    decreases |line| - from
  {
    if OccursAt(line, field, from) {
      SearchHere(line, field, from);
    } else if from < |line| {
      SearchPast(line, field, from);
      SearchByOccurrence(line, field, from + 1, found);
    }
  }

  /** The checks made on one occurrence of the field. */
  method CheckKey(line: string, field: string, start: nat) returns (equals: Option<nat>)
    requires OccursAt(line, field, start)
    ensures equals == if KeyAt(line, field, start) then Some(SkipWhitespace(line, start + |field|)) else None
  {
    var end := start + |field|;
    var inside := IsInsideStringLiteral(line, start);
    if inside {
      return None;
    }
    var beforeIsBoundary := start == 0 || !IsKeyChar(line[start - 1]);
    var afterIsBoundary := end == |line| || !IsKeyChar(line[end]);
    if beforeIsBoundary && afterIsBoundary {
      var next := SkipWhitespace(line, end);
      if next < |line| && line[next] == '=' {
        return Some(next);
      }
    }
    return None;
  }

  /** The search for a key, and whether it panics instead of answering. */
  method FindKeyEquals(line: string, field: string) returns (equals: Option<nat>, panics: bool)
    ensures panics == SearchPanics(line, field, 0)
    ensures !panics ==> equals == KeyEquals(line, field, 0)
  {
    var searchFrom := 0;
    while true
      invariant searchFrom <= |line|
      invariant KeyEquals(line, field, searchFrom) == KeyEquals(line, field, 0)
      invariant SearchPanics(line, field, searchFrom) == SearchPanics(line, field, 0)
      decreases |line| - searchFrom
    {
      var found := Occurrence(line, field, searchFrom);
      SearchByOccurrence(line, field, searchFrom, found);
      if found.None? {
        return None, false;
      }
      equals := CheckKey(line, field, found.value);
      if equals.Some? {
        return equals, false;
      }
      if StepPanics(line, found.value) {
        return None, true;
      }
      searchFrom := found.value + 1;
    }
  }

  lemma {:induction false} SkipWhitespaceLocal(line: string, other: string, i: nat, n: nat)
    requires i <= n < |line| && n < |other| && line[..n + 1] == other[..n + 1] && !IsWhitespace(line[n])
    ensures SkipWhitespace(other, i) == SkipWhitespace(line, i) <= n
    decreases n - i
  {
    assert line[i] == line[..n + 1][i] == other[i];
    if IsWhitespace(line[i]) {
      SkipWhitespaceLocal(line, other, i + 1, n);
    }
  }

  lemma SlicesAgree(line: string, other: string, n: nat, i: nat, end: nat)
    requires i <= end < n <= |line| && n <= |other| && line[..n] == other[..n]
    ensures line[i..end] == other[i..end] && line[..i] == other[..i] && line[end] == other[end]
    ensures i > 0 ==> line[i - 1] == other[i - 1]
  {
    assert line[i..end] == line[..n][i..end] == other[i..end];
    assert line[..i] == line[..n][..i] == other[..i];
    assert line[end] == line[..n][end] == other[end];
    assert i > 0 ==> line[i - 1] == line[..n][i - 1] == other[i - 1];
  }

  lemma KeyAtLocal(line: string, other: string, field: string, i: nat, n: nat)
    requires i + |field| <= n < |line| && n < |other| && line[..n + 1] == other[..n + 1] && line[n] == '='
    ensures KeyAt(line, field, i) <==> KeyAt(other, field, i)
  {
    var end := i + |field|;
    SlicesAgree(line, other, n + 1, i, end);
    SkipWhitespaceLocal(line, other, end, n);
    SlicesAgree(line, other, n + 1, i, SkipWhitespace(line, end));
  }

  /** The key search looks no further than the `=` it finds. */
  lemma {:induction false} KeyEqualsIsLocal(line: string, other: string, field: string, from: nat, e: nat)
    requires KeyEquals(line, field, from) == Some(e)
    requires e < |other| && line[..e + 1] == other[..e + 1]
    ensures KeyEquals(other, field, from) == Some(e)
    decreases |line| - from
  {
    KeyAtLocal(line, other, field, from, e);
    if KeyAt(line, field, from) {
      SkipWhitespaceLocal(line, other, from + |field|, e);
    } else {
      KeyEqualsIsLocal(line, other, field, from + 1, e);
    }
  }

  /** Nor does a search that answers panic on a line alike so far. */
  lemma {:induction false} CalmIsLocal(line: string, other: string, field: string, from: nat, e: nat)
    requires KeyEquals(line, field, from) == Some(e) && !SearchPanics(line, field, from)
    requires e < |other| && line[..e + 1] == other[..e + 1]
    ensures !SearchPanics(other, field, from)
    decreases |line| - from
  {
    KeyAtLocal(line, other, field, from, e);
    SlicesAgree(line, other, e + 1, from, from + |field|);
    SlicesAgree(line, other, e + 1, from, from);
    if !KeyAt(line, field, from) {
      CalmIsLocal(line, other, field, from + 1, e);
    }
  }

  /** What was found is the key: some white space before the `=`, the whole word before that, no literal open. */
  lemma {:induction false} KeyEqualsFindsKey(line: string, field: string, from: nat) returns (start: nat)
    requires KeyEquals(line, field, from).Some?
    ensures var e := KeyEquals(line, field, from).value;
            && from <= start && start + |field| <= e < |line|
            && KeyAt(line, field, start) && SkipWhitespace(line, start + |field|) == e
    decreases |line| - from
  {
    if KeyAt(line, field, from) {
      start := from;
    } else {
      start := KeyEqualsFindsKey(line, field, from + 1);
    }
  }

  // ---------------------------------------------------------------------------
  // Quoted values
  // ---------------------------------------------------------------------------

  /** How many backslashes stand directly before a position. */
  function BackslashesBefore(s: string, i: nat): nat
    requires i <= |s|
  {
    if i == 0 || s[i - 1] != '\\' then 0 else 1 + BackslashesBefore(s, i - 1)
  }

  /** Whether the literal ends here; only in a basic string can a backslash keep a quote from ending it. */
  predicate ClosesAt(s: string, quote: char, i: nat)
    requires i < |s|
  {
    s[i] == quote && (quote == '"' ==> BackslashesBefore(s, i) % 2 == 0)
  }

  /** The first closing quote at or after `from`. */
  function Closing(s: string, quote: char, from: nat): (r: Option<nat>)
    requires from <= |s|
    ensures r.Some? ==> from <= r.value < |s| && ClosesAt(s, quote, r.value)
    ensures r.Some? ==> forall i | from <= i < r.value :: !ClosesAt(s, quote, i)
    ensures r.None? ==> forall i | from <= i < |s| :: !ClosesAt(s, quote, i)
    decreases |s| - from
  {
    if from == |s| then None
    else if ClosesAt(s, quote, from) then Some(from)
    else Closing(s, quote, from + 1)
  }

  method FindClosingQuote(afterQuote: string, quote: char) returns (closing: Option<nat>)
    ensures closing == Closing(afterQuote, quote, 0)
  {
    if quote != '"' {
      return Closing(afterQuote, quote, 0);
    }
    var escaped := false;
    for i := 0 to |afterQuote|
      invariant escaped <==> BackslashesBefore(afterQuote, i) % 2 == 1
      invariant Closing(afterQuote, quote, 0) == Closing(afterQuote, quote, i)
    {
      if escaped {
        escaped := false;
      } else if afterQuote[i] == '\\' {
        escaped := true;
      } else if afterQuote[i] == '"' {
        return Some(i);
      }
    }
    return None;
  }

  lemma {:induction false} BackslashesLocal(s: string, t: string, i: nat)
    requires i <= |s| && i <= |t| && s[..i] == t[..i]
    ensures BackslashesBefore(s, i) == BackslashesBefore(t, i)
  {
    if i > 0 {
      assert s[i - 1] == s[..i][i - 1] == t[i - 1];
      assert s[..i - 1] == s[..i][..i - 1] == t[..i - 1];
      BackslashesLocal(s, t, i - 1);
    }
  }

  /** A value closes exactly at its end if it holds no closing quote and does not end in an open escape. */
  predicate ClosesAtEnd(value: string, quote: char) {
    && (forall i | 0 <= i < |value| :: !ClosesAt(value, quote, i))
    && (quote == '"' ==> BackslashesBefore(value, |value|) % 2 == 0)
  }

  lemma ClosesAtPrefix(value: string, rest: string, quote: char, i: nat)
    requires i < |value|
    ensures ClosesAt(value + rest, quote, i) <==> ClosesAt(value, quote, i)
  {
    assert (value + rest)[..i] == value[..i];
    BackslashesLocal(value + rest, value, i);
  }

  lemma ClosingIsEnd(value: string, rest: string, quote: char)
    requires rest != "" && rest[0] == quote
    ensures Closing(value + rest, quote, 0) == Some(|value|) <==> ClosesAtEnd(value, quote)
  {
    var s := value + rest;
    forall i | 0 <= i < |value| ensures ClosesAt(s, quote, i) <==> ClosesAt(value, quote, i) {
      ClosesAtPrefix(value, rest, quote, i);
    }
    assert s[..|value|] == value[..|value|];
    BackslashesLocal(s, value, |value|);
    if ClosesAtEnd(value, quote) {
      assert ClosesAt(s, quote, |value|);
      var c := Closing(s, quote, 0);
      assert c.Some? && c.value == |value|;
    }
  }

  // ---------------------------------------------------------------------------
  // Spans of values
  // ---------------------------------------------------------------------------

  /** Where a quoted value starts (after its quote) and ends (at its closing quote). */
  type Range = (nat, nat)

  /** The quoted string after the `=` at `equals`. */
  function ValueSpan(line: string, equals: nat): (r: Option<Range>)
    requires equals < |line|
    ensures r.Some? ==> equals + 1 < r.value.0 <= r.value.1 < |line|
  {
    var start := SkipWhitespace(line, equals + 1);
    if start == |line| || (line[start] != '"' && line[start] != '\'') then None
    else
      var close :- Closing(line[start + 1..], line[start], 0);
      Some((start + 1, start + 1 + close))
  }

  function Splice(line: string, span: Range, value: string): string
    requires span.0 <= span.1 <= |line|
  {
    line[..span.0] + value + line[span.1..]
  }

  /** A span holds a whole value: the same quote on both sides, and no earlier closing quote. */
  predicate HoldsValue(line: string, span: Range) {
    && 1 <= span.0 <= span.1 < |line|
    && var quote := line[span.0 - 1];
       (quote == '"' || quote == '\'') && line[span.1] == quote && ClosesAtEnd(line[span.0..span.1], quote)
  }

  lemma ValueSpanHolds(line: string, equals: nat)
    requires equals < |line| && ValueSpan(line, equals).Some?
    ensures HoldsValue(line, ValueSpan(line, equals).value)
  {
    var (start, end) := ValueSpan(line, equals).value;
    var s := line[start..];
    var value, rest := s[..end - start], s[end - start..];
    assert s == value + rest;
    assert value == line[start..end];
    ClosingIsEnd(value, rest, line[start - 1]);
  }

  /** Writing another whole value leaves it to be found again, exactly where it was written; and writing
    * anything else does not. */
  lemma ValueSpanAfterSplice(line: string, equals: nat, value: string)
    requires equals < |line| && ValueSpan(line, equals).Some?
    ensures var span := ValueSpan(line, equals).value;
            var edited := Splice(line, span, value);
            && equals < |edited|
            && (ValueSpan(edited, equals) == Some((span.0, span.0 + |value|)) <==> ClosesAtEnd(value, line[span.0 - 1]))
  {
    var (start, end) := ValueSpan(line, equals).value;
    var edited := Splice(line, (start, end), value);
    ValueSpanHolds(line, equals);
    assert edited[..start] == line[..start];
    assert edited[start - 1] == edited[..start][start - 1] == line[start - 1];
    SkipWhitespaceLocal(line, edited, equals + 1, start - 1);
    assert edited[start..] == value + line[end..];
    ClosingIsEnd(value, line[end..], line[start - 1]);
  }
}
