/** Manifests whose dependencies cannot be updated: quoted keys, which the scan never finds, and names on which
  * it panics. */
module CargoRefusals {
  import opened Wrappers
  import opened Text
  import opened ManifestText
  import opened CargoManifest
  import opened CargoEdits
  import opened CargoHeaders
  import opened CargoDecoy
  import opened Updates

  /** The scan of a manifest with one table goes to that table's first line. */
  lemma HeaderThenLine(lines: seq<string>, line: string, tail: seq<string>, key: string)
    requires lines == ManifestWith(line, tail) && NoNewline(line) && forall l | l in tail :: NoNewline(l)
    ensures SplitLines(JoinLines(lines)) == lines && lines[1] == line
    ensures FindEdit(lines, 0, NO_SECTION, Runtime, key)
            == FindEdit(lines, 1, Section(Some(Runtime), None), Runtime, key)
    ensures ScanPanics(lines, 0, NO_SECTION, Runtime, key)
            == ScanPanics(lines, 1, Section(Some(Runtime), None), Runtime, key)
  {
    DependenciesHeader(lines[0]);
    assert lines[1] == line;
    assert forall l | l in lines :: NoNewline(l);
    JoinThenSplit(lines);
    FindEditStep(lines, 0, NO_SECTION, Runtime, key);
    ScanPanicsStep(lines, 0, NO_SECTION, Runtime, key);
  }

  // ---------------------------------------------------------------------------
  // Quoted keys
  // ---------------------------------------------------------------------------

  /** A word of bare-key characters. */
  predicate IsBareKey(key: string) {
    key != "" && forall i | 0 <= i < |key| :: IsKeyChar(key[i])
  }

  /** Text without quotes and line breaks. */
  predicate IsPlainValue(value: string) {
    forall i | 0 <= i < |value| :: !IsQuote(value[i]) && value[i] != '\n'
  }

  /** A key, quoted, and its quoted value. */
  datatype QuotedLine = QuotedLine(key: string, quote: char, value: string, other: char) {
    predicate Valid() {
      IsBareKey(key) && IsPlainValue(value) && IsQuote(quote) && IsQuote(other)
    }

    function Text(): string {
      [quote] + (key + ([quote] + (" = " + ([other] + (value + [other])))))
    }
  }

  /** What the line holds where. */
  predicate HasParts(line: string, parts: QuotedLine) {
    var n, m := |parts.key|, |parts.value|;
    && |line| == n + m + 7
    && line[0] == parts.quote && line[n + 1] == parts.quote
    && line[n + 2] == ' ' && line[n + 3] == '=' && line[n + 4] == ' '
    && line[n + 5] == parts.other && line[n + 6 + m] == parts.other
    && (forall i | 1 <= i <= n :: line[i] == parts.key[i - 1])
    && (forall i | n + 6 <= i < n + 6 + m :: line[i] == parts.value[i - n - 6])
  }

  lemma TextHasParts(parts: QuotedLine)
    ensures HasParts(parts.Text(), parts)
  {
  }

  function Opened(quote: char): Quotes {
    if quote == '"' then InDouble else InSingle
  }

  lemma InsideKey(line: string, parts: QuotedLine, i: nat)
    requires parts.Valid() && HasParts(line, parts) && 1 <= i <= |parts.key| + 1
    ensures QuotesAfter(line[..i]) == Opened(parts.quote)
  {
    assert line[..0] == "";
    forall k | 0 < k < i ensures !IsQuote(line[k]) {
      assert IsKeyChar(parts.key[k - 1]);
    }
    QuoteThenStay(line, 0, i, Outside, Opened(parts.quote));
  }

  lemma InsideValue(line: string, parts: QuotedLine, i: nat)
    requires parts.Valid() && HasParts(line, parts) && |parts.key| + 6 <= i <= |parts.key| + 6 + |parts.value|
    ensures QuotesAfter(line[..i]) == Opened(parts.other)
  {
    var n := |parts.key|;
    InsideKey(line, parts, n + 1);
    QuoteThenStay(line, n + 1, n + 5, Opened(parts.quote), Outside);
    QuoteThenStay(line, n + 5, i, Outside, Opened(parts.other));
  }

  /** Wherever the line has a bare-key character it is inside a literal. */
  lemma KeyCharsAreInside(line: string, parts: QuotedLine, i: nat)
    requires parts.Valid() && HasParts(line, parts) && i < |line| && IsKeyChar(line[i])
    ensures QuotesAfter(line[..i]) != Outside
  {
    var n := |parts.key|;
    if i <= n {
      InsideKey(line, parts, i);
    } else {
      assert i >= n + 6;
      InsideValue(line, parts, i);
    }
  }

  /** No key stands inside quotes, so the search for the quoted key finds nothing. */
  lemma {:induction false} QuotedKeyNotFound(line: string, parts: QuotedLine, from: nat)
    requires parts.Valid() && HasParts(line, parts)
    ensures KeyEquals(line, parts.key, from) == None
    decreases |line| - from
  {
    var key := parts.key;
    if from + |key| <= |line| && from < |line| {
      if OccursAt(line, key, from) {
        assert line[from] == line[from..from + |key|][0] == key[0];
        KeyCharsAreInside(line, parts, from);
        SearchHere(line, key, from);
      } else {
        SearchPast(line, key, from);
      }
      QuotedKeyNotFound(line, parts, from + 1);
    }
  }

  lemma NotDotted(line: string, key: string)
    requires line != "" && IsQuote(line[0]) && IsBareKey(key)
    ensures AfterDot(line, key) == None
  {
    assert SkipWhitespace(line, 0) == 0;
    assert IsKeyChar(key[0]);
    if |key| < |line| {
      assert line[0..|key|][0] == line[0];
    }
  }

  lemma QuotedLineIsPassed(line: string, parts: QuotedLine, field: string)
    requires parts.Valid() && HasParts(line, parts)
    ensures LineSpan(line, None, parts.key, field) == None && !LinePanics(line, None, parts.key, field)
  {
    NotDotted(line, parts.key);
    QuotedKeyNotFound(line, parts, 0);
    assert IsKeyChar(parts.key[0]);
    AsciiSearchIsCalm(line, parts.key, 0);
  }

  lemma QuotedLineIsOneLine(line: string, parts: QuotedLine)
    requires parts.Valid() && HasParts(line, parts)
    ensures NoNewline(line) && !IsHeader(line)
  {
    var n := |parts.key|;
    forall i | 0 <= i < |line| ensures line[i] != '\n' {
      if 1 <= i <= n {
        assert IsKeyChar(parts.key[i - 1]);
      }
    }
    HeaderStart(line);
  }

  /** A dependency under a quoted key cannot be updated: the key is valid and is extracted, but never found. */
  lemma QuotedDependencyIsNotFound(parts: QuotedLine, dependency: Dependency, newValue: string, verify: Verifier)
    requires parts.Valid() && IsSafeValue(newValue)
    requires dependency.name == parts.key && dependency.depType == Runtime
    ensures Applied(JoinLines(ManifestWith(parts.Text(), [])), dependency, newValue, verify) == Err(NotFound)
  {
    var line := parts.Text();
    var lines := ManifestWith(line, []);
    TextHasParts(parts);
    QuotedLineIsOneLine(line, parts);
    QuotedLineIsPassed(line, parts, VERSION_FIELD);
    HeaderThenLine(lines, line, [], parts.key);
    FindEditStep(lines, 1, Section(Some(Runtime), None), Runtime, parts.key);
    ScanPanicsStep(lines, 1, Section(Some(Runtime), None), Runtime, parts.key);
  }

  // ---------------------------------------------------------------------------
  // Panics
  // ---------------------------------------------------------------------------

  /** A line whose key is the one letter e with an acute accent, quoted. */
  predicate IsAccented(line: string) {
    line == "\"\U{E9}\" = \"1\""
  }

  /** The empty name, or the accented letter itself. */
  predicate IsStuckOn(key: string) {
    key == "" || key == "\U{E9}"
  }

  /** The search gets into the literal and stops inside the letter. */
  lemma AccentedPanics(line: string, key: string)
    requires IsAccented(line) && IsStuckOn(key)
    ensures SearchPanics(line, key, 0)
  {
    assert line[..0] == "" && line[0] == '"' && line[1] == '\U{E9}';
    QuoteThenStay(line, 0, 1, Outside, InDouble);
    assert !KeyAt(line, key, 1);
    assert SkipWhitespace(line, 0) == 0;
    if key != "" {
      assert line[0..1][0] == line[0];
      assert line[1..2] == key;
    }
    assert StopsAt(line, key, 0, 1);
    SearchPanicsExactly(line, key, 0);
  }

  lemma AccentedLine(line: string, key: string, field: string)
    requires IsAccented(line) && IsStuckOn(key)
    ensures LinePanics(line, None, key, field) && !IsHeader(line) && NoNewline(line)
  {
    AccentedPanics(line, key);
    assert SkipWhitespace(line, 0) == 0 && line[0] == '"';
    assert key != "" ==> line[0..1][0] == line[0];
    HeaderStart(line);
  }

  /** On this manifest the update of the accented name, which it lists, panics; so does that of the empty name,
    * wherever a further line lists one. */
  lemma AccentedUpdatePanics(line: string, tail: seq<string>, dependency: Dependency, newValue: string,
                             verify: Verifier)
    requires IsAccented(line) && IsSafeValue(newValue) && forall l | l in tail :: NoNewline(l)
    requires dependency.depType == Runtime && IsStuckOn(dependency.name)
    ensures Applied(JoinLines(ManifestWith(line, tail)), dependency, newValue, verify) == Err(Panicked)
  {
    var lines := ManifestWith(line, tail);
    AccentedLine(line, dependency.name, VERSION_FIELD);
    HeaderThenLine(lines, line, tail, dependency.name);
    ScanPanicsStep(lines, 1, Section(Some(Runtime), None), Runtime, dependency.name);
  }
}
