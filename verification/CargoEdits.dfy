/** What an update does to a manifest's text: one splice, in the right section, and the last writer wins. */
module CargoEdits {
  import opened Wrappers
  import opened Text
  import opened ManifestText
  import opened CargoManifest
  import opened Updates

  // ---------------------------------------------------------------------------
  // Lines and text
  // ---------------------------------------------------------------------------

  predicate NoNewline(s: string) {
    '\n' !in s
  }

  lemma {:induction false} SplitThenJoin(content: string)
    ensures JoinLines(SplitLines(content)) == content
    ensures forall line | line in SplitLines(content) :: NoNewline(line)
  {
    var n := Span(content, IsNotNewline);
    if n < |content| {
      SplitThenJoin(content[n + 1..]);
      assert SplitLines(content)[1..] == SplitLines(content[n + 1..]);
      assert content == content[..n] + ("\n" + content[n + 1..]);
    }
  }

  lemma SplitFirst(first: string, rest: string)
    requires NoNewline(first)
    ensures SplitLines(first) == [first]
    ensures SplitLines(first + ("\n" + rest)) == [first] + SplitLines(rest)
  {
    SpanOfRun(first, "", IsNotNewline);
    assert first + "" == first;
    SpanOfRun(first, "\n" + rest, IsNotNewline);
    assert (first + ("\n" + rest))[|first| + 1..] == rest;
  }

  lemma {:induction false} JoinThenSplit(lines: seq<string>)
    requires lines != [] && forall line | line in lines :: NoNewline(line)
    ensures SplitLines(JoinLines(lines)) == lines
  {
    assert NoNewline(lines[0]);
    assert lines == [lines[0]] + lines[1..];
    if |lines| == 1 {
      SplitFirst(lines[0], "");
    } else {
      SplitFirst(lines[0], JoinLines(lines[1..]));
      JoinThenSplit(lines[1..]);
    }
  }

  function TextBefore(lines: seq<string>, i: nat): string
    requires i < |lines|
  {
    if i == 0 then "" else lines[0] + ("\n" + TextBefore(lines[1..], i - 1))
  }

  function TextAfter(lines: seq<string>, i: nat): string
    requires i < |lines|
  {
    if i == |lines| - 1 then "" else "\n" + JoinLines(lines[i + 1..])
  }

  /** Replacing one line replaces it between the same surroundings. */
  lemma {:induction false} JoinAround(lines: seq<string>, i: nat, line: string)
    requires i < |lines|
    ensures JoinLines(lines[i := line]) == TextBefore(lines, i) + line + TextAfter(lines, i)
  {
    var replaced := lines[i := line];
    if i == 0 {
      assert replaced[1..] == lines[1..];
      assert "" + line == line;
      if |lines| == 1 {
        assert line + "" == line;
      }
    } else {
      assert replaced[1..] == lines[1..][i - 1 := line];
      assert lines[1..][i - 1 + 1..] == lines[i + 1..];
      JoinAround(lines[1..], i - 1, line);
      var tail := TextBefore(lines[1..], i - 1) + line + TextAfter(lines, i);
      Reassociate(lines[0] + "\n", TextBefore(lines[1..], i - 1), line, TextAfter(lines, i));
      assert JoinLines(replaced) == lines[0] + ("\n" + tail) == (lines[0] + "\n") + tail;
      assert lines[0] + ("\n" + TextBefore(lines[1..], i - 1)) == (lines[0] + "\n") + TextBefore(lines[1..], i - 1);
    }
  }

  lemma Reassociate(a: string, b: string, c: string, d: string)
    ensures a + (b + c + d) == (a + b) + c + d
  {
  }

  // ---------------------------------------------------------------------------
  // One splice
  // ---------------------------------------------------------------------------

  /** What the scan settles on: a whole value on a line that is no header. */
  lemma {:induction false} EditHoldsValue(lines: seq<string>, i: nat, section: Section, depType: DepType, key: string)
    requires i <= |lines| && FindEdit(lines, i, section, depType, key).Some?
    ensures var (at, span) := FindEdit(lines, i, section, depType, key).value;
            HoldsValue(lines[at], span) && !IsHeader(lines[at])
    decreases |lines| - i
  {
    if IsHeader(lines[i]) {
      EditHoldsValue(lines, i + 1, ClassifyHeader(Trim(lines[i])), depType, key);
    } else if section.depType == Some(depType) && LineSpan(lines[i], section.subKey, key, VERSION_FIELD).Some? {
      LineSpanHolds(lines[i], section.subKey, key, VERSION_FIELD);
    } else {
      EditHoldsValue(lines, i + 1, section, depType, key);
    }
  }

  /** A successful update is a single splice: between the same two texts, delimited by one quote character, an
    * old value without a line break gives way to the new one; the quote after it is the first that closes
    * the old literal. */
  lemma UpdateIsOneSplice(content: string, dependency: Dependency, newValue: string, verify: Verifier)
    returns (before: string, replaced: string, after: string, quote: char)
    requires Applied(content, dependency, newValue, verify).Ok?
    ensures content == before + replaced + after
    ensures Applied(content, dependency, newValue, verify).value == before + newValue + after
    ensures before != "" && after != "" && before[|before| - 1] == quote == after[0]
    ensures quote == '"' || quote == '\''
    ensures NoNewline(replaced) && ClosesAtEnd(replaced, quote)
  {
    var lines := SplitLines(content);
    var (at, span) := FindEdit(lines, 0, NO_SECTION, dependency.depType, dependency.name).value;
    SplitThenJoin(content);
    EditHoldsValue(lines, 0, NO_SECTION, dependency.depType, dependency.name);
    quote := lines[at][span.0 - 1];
    before, replaced, after := SpliceOfLine(lines, at, span, newValue);
  }

  lemma SpliceOfLine(lines: seq<string>, at: nat, span: Range, value: string)
    returns (before: string, replaced: string, after: string)
    requires at < |lines| && HoldsValue(lines[at], span) && NoNewline(lines[at])
    ensures replaced == lines[at][span.0..span.1] && NoNewline(replaced)
    ensures JoinLines(lines) == before + replaced + after
    ensures JoinLines(EditedLines(lines, (at, span), value)) == before + value + after
    ensures before != "" && before[|before| - 1] == lines[at][span.0 - 1]
    ensures after != "" && after[0] == lines[at][span.1]
  {
    var line := lines[at];
    var head, tail := line[..span.0], line[span.1..];
    replaced := line[span.0..span.1];
    before, after := TextBefore(lines, at) + head, tail + TextAfter(lines, at);
    assert lines[at := line] == lines;
    JoinAround(lines, at, line);
    JoinAround(lines, at, head + value + tail);
    assert line == head + replaced + tail;
    Regroup(TextBefore(lines, at), head, replaced, tail, TextAfter(lines, at));
    Regroup(TextBefore(lines, at), head, value, tail, TextAfter(lines, at));
    forall c | c in replaced ensures c != '\n' {
      assert c in line;
    }
  }

  lemma Regroup(a: string, b: string, x: string, c: string, d: string)
    ensures a + (b + x + c) + d == (a + b) + x + (c + d)
  {
  }

  // ---------------------------------------------------------------------------
  // The right section
  // ---------------------------------------------------------------------------

  /** The section in force at a line: what the nearest header at or after `from` and before it selects. */
  function SectionAt(lines: seq<string>, from: nat, i: nat, section: Section): Section
    requires from <= i <= |lines|
    decreases i - from
  {
    if from == i then section
    else SectionAt(lines, from + 1, i, if IsHeader(lines[from]) then ClassifyHeader(Trim(lines[from])) else section)
  }

  /** The edited line stands under a header of the dependency's own kind of table, either the table itself
    * or the dependency's sub-table, and no earlier such line carried the value. */
  lemma {:induction false} EditIsInSection(lines: seq<string>, i: nat, section: Section, depType: DepType, key: string)
    requires i <= |lines| && FindEdit(lines, i, section, depType, key).Some?
    ensures var (at, span) := FindEdit(lines, i, section, depType, key).value;
            var found := SectionAt(lines, i, at, section);
            && found.depType == Some(depType)
            && found.subKey in {None, Some(key)}
            && LineSpan(lines[at], found.subKey, key, VERSION_FIELD) == Some(span)
            && forall j | i <= j < at :: IsHeader(lines[j])
                 || SectionAt(lines, i, j, section).depType != Some(depType)
                 || LineSpan(lines[j], SectionAt(lines, i, j, section).subKey, key, VERSION_FIELD).None?
    decreases |lines| - i
  {
    var (at, span) := FindEdit(lines, i, section, depType, key).value;
    if at > i {
      var next := if IsHeader(lines[i]) then ClassifyHeader(Trim(lines[i])) else section;
      EditIsInSection(lines, i + 1, next, depType, key);
      forall j | i <= j < at
        ensures IsHeader(lines[j])
             || SectionAt(lines, i, j, section).depType != Some(depType)
             || LineSpan(lines[j], SectionAt(lines, i, j, section).subKey, key, VERSION_FIELD).None?
      {
        if j > i {
          assert SectionAt(lines, i, j, section) == SectionAt(lines, i + 1, j, next);
        }
      }
    }
  }

  /** The value opening at `open` belongs to the key `word`: the whole word, as a key, then its `=`, then, white
    * space apart, the quote. */
  predicate IsKeyed(line: string, from: nat, word: string, start: nat, open: nat) {
    && from <= |line| && start + |word| <= |line[from..]|
    && KeyAt(line[from..], word, start)
    && from + SkipWhitespace(line[from..], start + |word|) + 1 <= |line|
    && SkipWhitespace(line, from + SkipWhitespace(line[from..], start + |word|) + 1) == open
  }

  lemma FieldIsKeyed(line: string, from: nat, field: string, span: Range) returns (start: nat)
    requires from <= |line| && FieldSpan(line, from, field) == Some(span)
    ensures IsKeyed(line, from, field, start, span.0 - 1)
  {
    start := KeyEqualsFindsKey(line[from..], field, 0);
  }

  lemma WholeLineIsKeyed(line: string, key: string, e: nat, open: nat) returns (start: nat)
    requires KeyEquals(line, key, 0) == Some(e) && e < |line| && SkipWhitespace(line, e + 1) == open
    ensures IsKeyed(line, 0, key, start, open)
  {
    start := KeyEqualsFindsKey(line, key, 0);
    assert line[0..] == line;
  }

  lemma InlineIsKeyed(line: string, key: string, e: nat, field: string, span: Range)
    returns (from: nat, word: string, start: nat)
    requires KeyEquals(line, key, 0) == Some(e) && e < |line| && InlineSpan(line, e, field) == Some(span)
    ensures word in {key, field} && IsKeyed(line, from, word, start, span.0 - 1)
  {
    var open := SkipWhitespace(line, e + 1);
    if line[open] == '{' {
      from, word := e + 1, field;
      start := FieldIsKeyed(line, from, field, span);
    } else {
      from, word := 0, key;
      start := WholeLineIsKeyed(line, key, e, open);
    }
  }

  /** The replaced value is that of the dependency's key or of a version key, never of a longer key that
    * contains one of them, nor of text inside a literal. */
  lemma EditedValueIsKeyed(line: string, subKey: Option<string>, key: string, field: string, span: Range)
    returns (from: nat, word: string, start: nat)
    requires LineSpan(line, subKey, key, field) == Some(span)
    ensures word in {key, field} && IsKeyed(line, from, word, start, span.0 - 1)
  {
    if subKey.Some? {
      from, word := 0, field;
      start := FieldIsKeyed(line, from, field, span);
    } else if DottedSpan(line, key, field).Some? {
      from, word := AfterDot(line, key).value, field;
      start := FieldIsKeyed(line, from, field, span);
    } else {
      from, word, start := InlineIsKeyed(line, key, KeyEquals(line, key, 0).value, field, span);
    }
  }

  // ---------------------------------------------------------------------------
  // The same place again
  // ---------------------------------------------------------------------------

  /** Two lines alike up to and including the quote that opens a value, each with a value there. */
  predicate SameUpTo(line: string, other: string, n: nat) {
    n <= |line| && n <= |other| && line[..n] == other[..n]
  }

  /** `other` is the line with its value replaced. */
  predicate IsSpliced(line: string, span: Range, value: string, other: string) {
    HoldsValue(line, span) && other == Splice(line, span, value)
  }

  /** And what was written is a whole value. */
  predicate Rewritten(line: string, span: Range, value: string, other: string) {
    IsSpliced(line, span, value, other) && ClosesAtEnd(value, line[span.0 - 1])
  }

  function Moved(span: Range, value: string): Range {
    (span.0, span.0 + |value|)
  }

  lemma RewrittenAgrees(line: string, span: Range, value: string, other: string)
    requires IsSpliced(line, span, value, other)
    ensures SameUpTo(line, other, span.0) && span.0 < |other|
  {
  }

  lemma KeyEqualsAgain(line: string, other: string, from: nat, field: string, e: nat, n: nat)
    requires SameUpTo(line, other, n) && from <= n
    requires KeyEquals(line[from..], field, 0) == Some(e) && from + e < n
    ensures KeyEquals(other[from..], field, 0) == Some(e)
  {
    assert line[from..][..e + 1] == line[..n][from..from + e + 1] == other[..n][from..from + e + 1]
           == other[from..][..e + 1];
    KeyEqualsIsLocal(line[from..], other[from..], field, 0, e);
  }

  /** A value found again after the rewrite, behind the same `=`. */
  lemma ValueSpanAgain(line: string, equals: nat, span: Range, value: string, other: string)
    requires equals < |line| && ValueSpan(line, equals) == Some(span)
    requires Rewritten(line, span, value, other)
    ensures equals < |other| && ValueSpan(other, equals) == Some(Moved(span, value))
  {
    ValueSpanAfterSplice(line, equals, value);
  }

  lemma FieldSpanIs(line: string, from: nat, field: string, e: nat)
    requires from <= |line| && KeyEquals(line[from..], field, 0) == Some(e)
    ensures FieldSpan(line, from, field) == ValueSpan(line, from + e)
  {
  }

  lemma FieldSpanAgain(line: string, from: nat, field: string, span: Range, value: string, other: string)
    requires from <= |line| && FieldSpan(line, from, field) == Some(span)
    requires Rewritten(line, span, value, other)
    ensures from <= |other| && FieldSpan(other, from, field) == Some(Moved(span, value))
  {
    var e := KeyEquals(line[from..], field, 0).value;
    FieldSpanIs(line, from, field, e);
    RewrittenAgrees(line, span, value, other);
    KeyEqualsAgain(line, other, from, field, e, span.0);
    ValueSpanAgain(line, from + e, span, value, other);
    FieldSpanIs(other, from, field, e);
  }

  /** The first position that is not white space, and what stands there, in lines alike so far. */
  lemma SkipAgain(line: string, other: string, i: nat, j: nat, n: nat)
    requires SameUpTo(line, other, n) && i <= j < n && SkipWhitespace(line, i) == j
    ensures SkipWhitespace(other, i) == j && line[j] == other[j]
  {
    assert line[..j + 1] == line[..n][..j + 1] == other[..n][..j + 1] == other[..j + 1];
    assert line[j] == line[..n][j] == other[..n][j] == other[j];
    SkipWhitespaceLocal(line, other, i, j);
  }

  lemma InlineStartAgain(line: string, e: nat, span: Range, value: string, other: string, start: nat)
    requires e + 1 < span.0 && e < |line| && SkipWhitespace(line, e + 1) == start
    requires Rewritten(line, span, value, other)
    ensures start < |line| && start < |other| && e < |other|
    ensures SkipWhitespace(other, e + 1) == start && other[start] == line[start]
  {
    RewrittenAgrees(line, span, value, other);
    SkipsOnlyWhitespace(line, e + 1, span.0 - 1);
    SkipAgain(line, other, e + 1, start, span.0);
  }

  lemma InlineSpanIs(line: string, e: nat, field: string, start: nat)
    requires e < |line| && SkipWhitespace(line, e + 1) == start < |line|
    ensures InlineSpan(line, e, field)
            == if line[start] == '"' || line[start] == '\'' then ValueSpan(line, e)
               else if line[start] == '{' then FieldSpan(line, e + 1, field)
               else None
  {
  }

  lemma InlineSpanAgain(line: string, e: nat, field: string, span: Range, value: string, other: string)
    requires e < |line| && InlineSpan(line, e, field) == Some(span)
    requires Rewritten(line, span, value, other)
    ensures e < |other| && InlineSpan(other, e, field) == Some(Moved(span, value))
  {
    var start := SkipWhitespace(line, e + 1);
    InlineStartAgain(line, e, span, value, other, start);
    InlineSpanIs(line, e, field, start);
    InlineSpanIs(other, e, field, start);
    if line[start] == '{' {
      FieldSpanAgain(line, e + 1, field, span, value, other);
    } else {
      ValueSpanAgain(line, e, span, value, other);
    }
  }

  lemma KeyedSpanAgain(line: string, key: string, field: string, span: Range, value: string, other: string)
    requires KeyedSpan(line, key, field) == Some(span)
    requires Rewritten(line, span, value, other)
    ensures KeyedSpan(other, key, field) == Some(Moved(span, value))
  {
    var e := KeyEquals(line, key, 0).value;
    RewrittenAgrees(line, span, value, other);
    KeyEqualsWholeAgain(line, other, key, e, span.0);
    InlineSpanAgain(line, e, field, span, value, other);
  }

  lemma KeyEqualsWholeAgain(line: string, other: string, field: string, e: nat, n: nat)
    requires SameUpTo(line, other, n)
    requires KeyEquals(line, field, 0) == Some(e) && e < n
    ensures KeyEquals(other, field, 0) == Some(e)
  {
    assert line[0..] == line && other[0..] == other;
    KeyEqualsAgain(line, other, 0, field, e, n);
  }

  lemma DottedSpanAgain(line: string, key: string, field: string, span: Range, value: string, other: string)
    requires DottedSpan(line, key, field) == Some(span)
    requires Rewritten(line, span, value, other)
    ensures DottedSpan(other, key, field) == Some(Moved(span, value))
  {
    var from := AfterDot(line, key).value;
    RewrittenAgrees(line, span, value, other);
    AfterDotAgain(line, other, key, from, span.0);
    FieldSpanAgain(line, from, field, span, value, other);
  }

  lemma AfterDotAgain(line: string, other: string, key: string, from: nat, n: nat)
    requires SameUpTo(line, other, n) && AfterDot(line, key) == Some(from) && from < n
    ensures AfterDot(other, key) == Some(from)
  {
    var start := SkipWhitespace(line, 0);
    var end := start + |key|;
    SkipAgain(line, other, 0, start, n);
    assert line[start..end] == line[..n][start..end] == other[start..end];
    assert line[end] == line[..n][end] == other[end];
  }

  /** What a line and its rewritten form must satisfy for the value to be found again where it was written: the
    * new value is whole, and no `key.version` reading that the old value kept hidden comes to light. */
  predicate Rereads(line: string, subKey: Option<string>, key: string, field: string, span: Range, value: string,
                    other: string)
    requires span.0 > 0 && span.0 <= |line|
  {
    && ClosesAtEnd(value, line[span.0 - 1])
    && (|| subKey.Some?
        || DottedSpan(line, key, field).Some?
        || DottedSpan(other, key, field) in {None, Some(Moved(span, value))})
  }

  lemma SplicedHolds(line: string, span: Range, value: string, other: string)
    requires IsSpliced(line, span, value, other) && HoldsValue(other, Moved(span, value))
    ensures ClosesAtEnd(value, line[span.0 - 1])
  {
    RewrittenAgrees(line, span, value, other);
    assert other[span.0..span.0 + |value|] == value;
    assert other[span.0 - 1] == other[..span.0][span.0 - 1] == line[span.0 - 1];
  }

  lemma RereadFound(line: string, subKey: Option<string>, key: string, field: string, span: Range, value: string,
                    other: string)
    requires LineSpan(line, subKey, key, field) == Some(span) && IsSpliced(line, span, value, other)
    requires Rereads(line, subKey, key, field, span, value, other)
    ensures LineSpan(other, subKey, key, field) == Some(Moved(span, value))
  {
    if subKey.Some? {
      FieldSpanAgain(line, 0, field, span, value, other);
    } else if DottedSpan(line, key, field).Some? {
      DottedSpanAgain(line, key, field, span, value, other);
    } else {
      KeyedSpanAgain(line, key, field, span, value, other);
    }
  }

  /** Written once, the value is found again exactly where it was written, if and only if the line rereads. */
  lemma LineSpanAgain(line: string, subKey: Option<string>, key: string, field: string, span: Range, value: string,
                      other: string)
    requires LineSpan(line, subKey, key, field) == Some(span) && other == Splice(line, span, value)
    ensures LineSpan(other, subKey, key, field) == Some(Moved(span, value))
            <==> Rereads(line, subKey, key, field, span, value, other)
  {
    LineSpanHolds(line, subKey, key, field);
    if Rereads(line, subKey, key, field, span, value, other) {
      RereadFound(line, subKey, key, field, span, value, other);
    }
    if LineSpan(other, subKey, key, field) == Some(Moved(span, value)) {
      LineSpanHolds(other, subKey, key, field);
      SplicedHolds(line, span, value, other);
    }
  }

  lemma {:induction false} TrimStartSkips(line: string, i: nat)
    requires i <= |line|
    ensures TrimStart(line[i..]) == line[SkipWhitespace(line, i)..]
    decreases |line| - i
  {
    if i < |line| {
      assert line[i..][1..] == line[i + 1..];
      if IsWhitespace(line[i]) {
        TrimStartSkips(line, i + 1);
      }
    }
  }

  /** A header is recognised by its first character that is not white space. */
  lemma HeaderStart(line: string)
    ensures var j := SkipWhitespace(line, 0); IsHeader(line) <==> j < |line| && line[j] == '['
  {
    var j := SkipWhitespace(line, 0);
    TrimStartSkips(line, 0);
    assert line[0..] == line;
    if j < |line| {
      TrimEndKeeps(line[j..], 0);
    }
  }

  lemma StillNoHeader(line: string, span: Range, value: string, other: string)
    requires IsSpliced(line, span, value, other) && !IsHeader(line)
    ensures !IsHeader(other)
  {
    HeaderStart(line);
    HeaderStart(other);
    RewrittenAgrees(line, span, value, other);
    SkipsOnlyWhitespace(line, 0, span.0 - 1);
    SkipAgain(line, other, 0, SkipWhitespace(line, 0), span.0);
  }

  /** A scan that does not panic has not panicked on the line it edits. */
  lemma {:induction false} EditLineIsCalm(lines: seq<string>, i: nat, section: Section, depType: DepType, key: string)
    requires i <= |lines| && FindEdit(lines, i, section, depType, key).Some?
    requires !ScanPanics(lines, i, section, depType, key)
    ensures var at := FindEdit(lines, i, section, depType, key).value.0;
            !LinePanics(lines[at], SectionAt(lines, i, at, section).subKey, key, VERSION_FIELD)
    decreases |lines| - i
  {
    FindEditStep(lines, i, section, depType, key);
    ScanPanicsStep(lines, i, section, depType, key);
    if FindEdit(lines, i, section, depType, key).value.0 > i {
      var next := if IsHeader(lines[i]) then ClassifyHeader(Trim(lines[i])) else section;
      EditLineIsCalm(lines, i + 1, next, depType, key);
    }
  }

  /** A line that rereads can be read in peace if the original could. */
  lemma RereadIsCalm(line: string, subKey: Option<string>, key: string, field: string, span: Range, value: string,
                     other: string)
    requires LineSpan(line, subKey, key, field) == Some(span) && IsSpliced(line, span, value, other)
    requires Rereads(line, subKey, key, field, span, value, other) && !LinePanics(line, subKey, key, field)
    ensures !LinePanics(other, subKey, key, field)
  {
    if subKey.None? {
      if DottedSpan(line, key, field).Some? {
        DottedSpanAgain(line, key, field, span, value, other);
      } else {
        var e := KeyEquals(line, key, 0).value;
        RewrittenAgrees(line, span, value, other);
        assert line[..e + 1] == line[..span.0][..e + 1] == other[..span.0][..e + 1] == other[..e + 1];
        CalmIsLocal(line, other, key, 0, e);
      }
    }
  }

  /** A scan that found its line, on lines that differ from there on only: it gets to that line again. */
  lemma {:induction false} ScanReaches(lines: seq<string>, others: seq<string>, i: nat, section: Section,
                                       depType: DepType, key: string, at: nat)
    requires i <= at < |lines| == |others| && others == lines[at := others[at]] && !IsHeader(others[at])
    requires FindEdit(lines, i, section, depType, key).Some? && FindEdit(lines, i, section, depType, key).value.0 == at
    requires !ScanPanics(lines, i, section, depType, key)
    ensures var found := SectionAt(lines, i, at, section);
            && FindEdit(others, i, section, depType, key) == FindEdit(others, at, found, depType, key)
            && ScanPanics(others, i, section, depType, key) == ScanPanics(others, at, found, depType, key)
    decreases at - i
  {
    if i < at {
      assert others[i] == lines[i];
      FindEditStep(lines, i, section, depType, key);
      FindEditStep(others, i, section, depType, key);
      ScanPanicsStep(lines, i, section, depType, key);
      ScanPanicsStep(others, i, section, depType, key);
      var next := if IsHeader(lines[i]) then ClassifyHeader(Trim(lines[i])) else section;
      ScanReaches(lines, others, i + 1, next, depType, key, at);
    }
  }

  /** A safe value is whole unless, in a basic string, it ends in an open escape. */
  lemma SafeValueCloses(value: string, quote: char)
    requires IsSafeValue(value) && (quote == '"' || quote == '\'')
    ensures ClosesAtEnd(value, quote) <==> (quote == '"' ==> BackslashesBefore(value, |value|) % 2 == 0)
  {
    forall i | 0 <= i < |value| ensures value[i] != quote {
      assert !IsUnsafe(value[i]);
    }
  }

  lemma SpliceTwice(line: string, span: Range, first: string, second: string)
    requires span.0 <= span.1 <= |line|
    ensures var once := Splice(line, span, first);
            span.0 + |first| <= |once| && Splice(once, Moved(span, first), second) == Splice(line, span, second)
  {
    var once := Splice(line, span, first);
    assert once[..span.0] == line[..span.0];
    assert once[span.0 + |first|..] == line[span.1..];
  }

  lemma EditedLinesHaveNoNewline(lines: seq<string>, at: nat, span: Range, value: string)
    requires at < |lines| && span.0 <= span.1 <= |lines[at]| && IsSafeValue(value)
    requires forall line | line in lines :: NoNewline(line)
    ensures forall line | line in EditedLines(lines, (at, span), value) :: NoNewline(line)
  {
    var line := lines[at];
    assert NoNewline(line);
    forall c | c in Splice(line, span, value) ensures c != '\n' {
      assert c in line || exists i | 0 <= i < |value| :: value[i] == c && !IsUnsafe(value[i]);
    }
  }

  lemma EditedContentSplits(content: string, at: nat, span: Range, value: string)
    requires var lines := SplitLines(content); at < |lines| && span.0 <= span.1 <= |lines[at]| && IsSafeValue(value)
    ensures var others := EditedLines(SplitLines(content), (at, span), value);
            SplitLines(JoinLines(others)) == others
  {
    SplitThenJoin(content);
    EditedLinesHaveNoNewline(SplitLines(content), at, span, value);
    JoinThenSplit(EditedLines(SplitLines(content), (at, span), value));
  }

  // ---------------------------------------------------------------------------
  // The last writer
  // ---------------------------------------------------------------------------

  /** What an update found: the line, its section's sub-key, and the value's span. */
  datatype Found = Found(lines: seq<string>, at: nat, subKey: Option<string>, span: Range) {
    predicate Valid() {
      && at < |lines| && HoldsValue(lines[at], span) && !IsHeader(lines[at])
      && forall line | line in lines :: NoNewline(line)
    }

    /** The line with another value. */
    function Line(value: string): string
      requires Valid()
    {
      Splice(lines[at], span, value)
    }

    function Text(value: string): string
      requires Valid()
    {
      JoinLines(lines[at := Line(value)])
    }
  }

  /** What an update of a dependency finds in a content. */
  predicate Finds(content: string, dependency: Dependency, found: Found) {
    && found.Valid() && found.lines == SplitLines(content)
    && !ScanPanics(found.lines, 0, NO_SECTION, dependency.depType, dependency.name)
    && FindEdit(found.lines, 0, NO_SECTION, dependency.depType, dependency.name) == Some((found.at, found.span))
    && SectionAt(found.lines, 0, found.at, NO_SECTION) == Section(Some(dependency.depType), found.subKey)
    && LineSpan(found.lines[found.at], found.subKey, dependency.name, VERSION_FIELD) == Some(found.span)
    && !LinePanics(found.lines[found.at], found.subKey, dependency.name, VERSION_FIELD)
  }

  /** Every successful update finds something, and every update of that content writes there. */
  lemma AppliedFinds(content: string, dependency: Dependency, value: string, verify: Verifier) returns (found: Found)
    requires Applied(content, dependency, value, verify).Ok?
    ensures Finds(content, dependency, found) && IsSafeValue(value)
    ensures Applied(content, dependency, value, verify).value == found.Text(value)
  {
    var lines := SplitLines(content);
    var (at, span) := FindEdit(lines, 0, NO_SECTION, dependency.depType, dependency.name).value;
    SplitThenJoin(content);
    EditHoldsValue(lines, 0, NO_SECTION, dependency.depType, dependency.name);
    EditIsInSection(lines, 0, NO_SECTION, dependency.depType, dependency.name);
    EditLineIsCalm(lines, 0, NO_SECTION, dependency.depType, dependency.name);
    found := Found(lines, at, SectionAt(lines, 0, at, NO_SECTION).subKey, span);
  }

  lemma FoundApplies(content: string, dependency: Dependency, found: Found, value: string, verify: Verifier)
    requires Finds(content, dependency, found) && IsSafeValue(value)
    ensures Applied(content, dependency, value, verify)
            == if verify(found.Text(value), dependency, value) then Ok(found.Text(value)) else Err(VerificationFailed)
  {
  }

  /** Whether the update wrote where the next one will look. */
  predicate RereadsAt(found: Found, key: string, value: string)
    requires found.Valid()
  {
    Rereads(found.lines[found.at], found.subKey, key, VERSION_FIELD, found.span, value, found.Line(value))
  }

  /** Where the scan of the rewritten content goes. */
  lemma ScanAgain(content: string, dependency: Dependency, found: Found, first: string)
    requires Finds(content, dependency, found) && IsSafeValue(first)
    ensures var others := found.lines[found.at := found.Line(first)];
            var section := Section(Some(dependency.depType), found.subKey);
            && SplitLines(found.Text(first)) == others
            && !IsHeader(found.Line(first))
            && FindEdit(others, 0, NO_SECTION, dependency.depType, dependency.name)
               == FindEdit(others, found.at, section, dependency.depType, dependency.name)
            && ScanPanics(others, 0, NO_SECTION, dependency.depType, dependency.name)
               == ScanPanics(others, found.at, section, dependency.depType, dependency.name)
  {
    var others := found.lines[found.at := found.Line(first)];
    EditedContentSplits(content, found.at, found.span, first);
    StillNoHeader(found.lines[found.at], found.span, first, found.Line(first));
    ScanReaches(found.lines, others, 0, NO_SECTION, dependency.depType, dependency.name, found.at);
  }

  /** If the value is found again where it was written, the second update goes exactly there. */
  lemma FindsAgain(content: string, dependency: Dependency, found: Found, first: string, x: Range)
    returns (again: Found)
    requires Finds(content, dependency, found) && IsSafeValue(first)
    requires LineSpan(found.Line(first), found.subKey, dependency.name, VERSION_FIELD) == Some(x)
    requires !LinePanics(found.Line(first), found.subKey, dependency.name, VERSION_FIELD)
    ensures Finds(found.Text(first), dependency, again)
    ensures again == Found(found.lines[found.at := found.Line(first)], found.at, found.subKey, x)
  {
    var others := found.lines[found.at := found.Line(first)];
    var section := Section(Some(dependency.depType), found.subKey);
    ScanAgain(content, dependency, found, first);
    FindEditStep(others, found.at, section, dependency.depType, dependency.name);
    ScanPanicsStep(others, found.at, section, dependency.depType, dependency.name);
    LineSpanHolds(others[found.at], found.subKey, dependency.name, VERSION_FIELD);
    EditIsInSection(others, 0, NO_SECTION, dependency.depType, dependency.name);
    SameSection(found.lines, others, 0, found.at, NO_SECTION);
    EditedLinesHaveNoNewline(found.lines, found.at, found.span, first);
    again := Found(others, found.at, found.subKey, x);
  }

  lemma {:induction false} SameSection(lines: seq<string>, others: seq<string>, i: nat, at: nat, section: Section)
    requires i <= at <= |lines| == |others| && forall j | i <= j < at :: others[j] == lines[j]
    ensures SectionAt(others, i, at, section) == SectionAt(lines, i, at, section)
    decreases at - i
  {
    if i < at {
      SameSection(lines, others, i + 1, at, if IsHeader(lines[i]) then ClassifyHeader(Trim(lines[i])) else section);
    }
  }

  lemma LastWriterWinsIfReread(content: string, dependency: Dependency, found: Found, first: string, second: string,
                               later: Verifier)
    requires Finds(content, dependency, found) && IsSafeValue(first) && RereadsAt(found, dependency.name, first)
    ensures Applied(found.Text(first), dependency, second, later) == Applied(content, dependency, second, later)
  {
    if IsSafeValue(second) {
      LineSpanAgain(found.lines[found.at], found.subKey, dependency.name, VERSION_FIELD, found.span, first,
                    found.Line(first));
      RereadIsCalm(found.lines[found.at], found.subKey, dependency.name, VERSION_FIELD, found.span, first,
                   found.Line(first));
      var again := FindsAgain(content, dependency, found, first, Moved(found.span, first));
      SpliceTwice(found.lines[found.at], found.span, first, second);
      assert again.lines[again.at := again.Line(second)] == found.lines[found.at := found.Line(second)];
      FoundApplies(content, dependency, found, second, later);
      FoundApplies(found.Text(first), dependency, again, second, later);
    }
  }

  // ---------------------------------------------------------------------------
  // And when it does not
  // ---------------------------------------------------------------------------

  lemma SameTextSameLine(lines: seq<string>, at: nat, a: string, b: string)
    requires at < |lines|
    ensures JoinLines(lines[at := a]) == JoinLines(lines[at := b]) ==> a == b
  {
    JoinAround(lines, at, a);
    JoinAround(lines, at, b);
    Cancel(TextBefore(lines, at), a, b, TextAfter(lines, at));
  }

  lemma Cancel(before: string, a: string, b: string, after: string)
    ensures before + a + after == before + b + after ==> a == b
  {
    var s, t := before + a + after, before + b + after;
    assert s[|before|..|before| + |a|] == a && t[|before|..|before| + |b|] == b;
    assert s == t ==> |a| == |b|;
  }

  /** A second value for which two splices at different places give different lines. */
  lemma TellApart(line: string, span: Range, first: string, other: string, x: Range) returns (second: string)
    requires IsSpliced(line, span, first, other) && 0 < x.0 <= x.1 < |other| && x != Moved(span, first)
    ensures IsSafeValue(second) && Splice(other, x, second) != Splice(line, span, second)
  {
    if x.1 - x.0 != |first| {
      second := "";
    } else if span.0 < x.0 {
      second := if other[span.0] == 'a' then "b" else "a";
      assert Splice(other, x, second)[span.0] == other[span.0];
      assert Splice(line, span, second)[span.0] == second[0];
    } else {
      second := if line[x.0] == 'a' then "b" else "a";
      assert Splice(other, x, second)[x.0] == second[0];
      assert Splice(line, span, second)[x.0] == line[x.0];
    }
  }

  /** A verifier that accepts every edit. */
  function Trusting(): Verifier {
    (text, dependency, value) => true
  }

  lemma EditElsewhereDiffers(content: string, dependency: Dependency, found: Found, first: string, x: Range)
    returns (second: string)
    requires Finds(content, dependency, found) && IsSafeValue(first)
    requires LineSpan(found.Line(first), found.subKey, dependency.name, VERSION_FIELD) == Some(x)
    requires x != Moved(found.span, first)
    requires !LinePanics(found.Line(first), found.subKey, dependency.name, VERSION_FIELD)
    ensures Applied(found.Text(first), dependency, second, Trusting())
            != Applied(content, dependency, second, Trusting())
  {
    second := TellApart(found.lines[found.at], found.span, first, found.Line(first), x);
    var again := FindsAgain(content, dependency, found, first, x);
    FoundApplies(content, dependency, found, second, Trusting());
    FoundApplies(found.Text(first), dependency, again, second, Trusting());
    assert again.lines[again.at := again.Line(second)] == found.lines[found.at := again.Line(second)];
    SameTextSameLine(found.lines, found.at, again.Line(second), found.Line(second));
  }

  /** If reading the rewritten line panics, so does every later update. */
  lemma PanicDiffers(content: string, dependency: Dependency, found: Found, first: string)
    requires Finds(content, dependency, found) && IsSafeValue(first)
    requires LinePanics(found.Line(first), found.subKey, dependency.name, VERSION_FIELD)
    ensures Applied(found.Text(first), dependency, first, Trusting())
            != Applied(content, dependency, first, Trusting())
  {
    var others := found.lines[found.at := found.Line(first)];
    var section := Section(Some(dependency.depType), found.subKey);
    ScanAgain(content, dependency, found, first);
    ScanPanicsStep(others, found.at, section, dependency.depType, dependency.name);
    FoundApplies(content, dependency, found, first, Trusting());
  }

  /** Longer by one character, still safe. */
  function Longer(value: string): string {
    value + "a"
  }

  lemma LongerIsSafe(value: string)
    requires IsSafeValue(value)
    ensures IsSafeValue(Longer(value))
  {
  }

  /** If the line no longer shows a value to replace, the next update leaves the first value in place. */
  lemma LostValueDiffers(content: string, dependency: Dependency, found: Found, first: string)
    requires Finds(content, dependency, found) && IsSafeValue(first)
    requires LineSpan(found.Line(first), found.subKey, dependency.name, VERSION_FIELD).None?
    ensures Applied(found.Text(first), dependency, Longer(first), Trusting())
         != Applied(content, dependency, Longer(first), Trusting())
  {
    var second := Longer(first);
    var others := found.lines[found.at := found.Line(first)];
    var direct := found.lines[found.at := found.Line(second)];
    var section := Section(Some(dependency.depType), found.subKey);
    LongerIsSafe(first);
    ScanAgain(content, dependency, found, first);
    FindEditStep(others, found.at, section, dependency.depType, dependency.name);
    FoundApplies(content, dependency, found, second, Trusting());
    if Applied(found.Text(first), dependency, second, Trusting()).Ok? {
      var again := AppliedFinds(found.Text(first), dependency, second, Trusting());
      assert again.at > found.at;
      var twice := others[again.at := again.Line(second)];
      assert twice[found.at] == found.Line(first) != found.Line(second) == direct[found.at];
      EditedLinesHaveNoNewline(found.lines, found.at, found.span, second);
      EditedLinesHaveNoNewline(others, again.at, again.span, second);
      JoinThenSplit(twice);
      JoinThenSplit(direct);
    }
  }

  /** Whether every later update forgets this one: it gives what it gives on the original content. */
  ghost predicate IsForgotten(content: string, edited: string, dependency: Dependency) {
    forall second, later: Verifier ::
      Applied(edited, dependency, second, later) == Applied(content, dependency, second, later)
  }

  /** The last writer wins, exactly: after a successful update every later update of the same dependency, to any
    * value and under any verifier, gives what it gives on the original content, success or failure, if and
    * only if the value just written is whole and its line rereads. */
  lemma LastWriterWins(content: string, dependency: Dependency, first: string, verify: Verifier, found: Found)
    requires Applied(content, dependency, first, verify).Ok? && Finds(content, dependency, found)
    ensures IsForgotten(content, Applied(content, dependency, first, verify).value, dependency)
            <==> RereadsAt(found, dependency.name, first)
  {
    FoundApplies(content, dependency, found, first, verify);
    var key := dependency.name;
    LineSpanAgain(found.lines[found.at], found.subKey, key, VERSION_FIELD, found.span, first, found.Line(first));
    if RereadsAt(found, key, first) {
      forall second, later: Verifier
        ensures Applied(found.Text(first), dependency, second, later) == Applied(content, dependency, second, later)
      {
        LastWriterWinsIfReread(content, dependency, found, first, second, later);
      }
    } else if LinePanics(found.Line(first), found.subKey, key, VERSION_FIELD) {
      PanicDiffers(content, dependency, found, first);
    } else if LineSpan(found.Line(first), found.subKey, key, VERSION_FIELD).Some? {
      var second := EditElsewhereDiffers(content, dependency, found, first,
                                         LineSpan(found.Line(first), found.subKey, key, VERSION_FIELD).value);
    } else {
      LostValueDiffers(content, dependency, found, first);
    }
  }
}
