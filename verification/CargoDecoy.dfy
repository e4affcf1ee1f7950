/** A manifest on which the last writer does not win: the value sits behind another dotted key of the dependency,
  * in a literal whose escaped quote hides a `version` key from the scan. */
module CargoDecoy {
  import opened Wrappers
  import opened Text
  import opened ManifestText
  import opened CargoManifest
  import opened CargoEdits
  import opened CargoHeaders
  import opened Updates

  // ---------------------------------------------------------------------------
  // Reading one line step by step
  // ---------------------------------------------------------------------------

  lemma QuotesNext(line: string, i: nat)
    requires i < |line|
    ensures QuotesAfter(line[..i + 1]) == StepQuotes(QuotesAfter(line[..i]), line[i])
  {
    assert line[..i + 1][..i] == line[..i];
  }

  /** Text without quotes leaves the state as it is. */
  lemma {:induction false} QuotesStay(line: string, i: nat, j: nat)
    requires i <= j <= |line| && forall k | i <= k < j :: line[k] != '"' && line[k] != '\''
    ensures QuotesAfter(line[..j]) == QuotesAfter(line[..i])
  {
    if i < j {
      QuotesStay(line, i, j - 1);
      QuotesNext(line, j - 1);
    }
  }

  lemma {:induction false} NoKeyBefore(line: string, field: string, from: nat, to: nat)
    requires field != "" && from <= to <= |line|
    requires forall i | from <= i < to :: line[i] != field[0]
    ensures KeyEquals(line, field, from) == KeyEquals(line, field, to)
    decreases |line| - from
  {
    if from < to {
      if from + |field| <= |line| {
        assert line[from..from + |field|][0] == line[from];
      }
      NoKeyBefore(line, field, from + 1, to);
    }
  }

  lemma StartsDotted(line: string, key: string)
    requires |line| > 1 && key == "a" && line[0] == 'a' && line[1] == '.'
    ensures AfterDot(line, key) == Some(2)
  {
    assert line[0..1] == key;
  }

  // ---------------------------------------------------------------------------
  // The line before and after one update
  // ---------------------------------------------------------------------------

  /** `a.b={a="x\"",version="2"}`: valid TOML, `a.b.a` being the string `x"`. */
  predicate IsBefore(line: string) {
    line == "a.b={a=\"x\\\"\",version=\"2\"}"
  }

  predicate IsAfter(line: string) {
    line == "a.b={a=\"1\",version=\"2\"}"
  }

  /** A literal opened, or closed, at `i` and left alone up to `j`. */
  lemma QuoteThenStay(line: string, i: nat, j: nat, before: Quotes, after: Quotes)
    requires i < j <= |line| && QuotesAfter(line[..i]) == before && StepQuotes(before, line[i]) == after
    requires forall k | i < k < j :: line[k] != '"' && line[k] != '\''
    ensures QuotesAfter(line[..j]) == after
  {
    QuotesNext(line, i);
    QuotesStay(line, i + 1, j);
  }

  lemma OldQuotes(rest: string)
    requires rest == "b={a=\"x\\\"\",version=\"2\"}"
    ensures QuotesAfter(rest[..11]) == InDouble
  {
    QuotesStay(rest, 0, 5);
    assert rest[..0] == "";
    QuoteThenStay(rest, 5, 8, Outside, InDouble);
    QuoteThenStay(rest, 8, 9, InDouble, Outside);
    QuoteThenStay(rest, 9, 11, Outside, InDouble);
  }

  lemma OldDotted(rest: string, field: string)
    requires rest == "b={a=\"x\\\"\",version=\"2\"}" && field == "version"
    ensures KeyEquals(rest, field, 0) == None
  {
    assert field[0] == 'v';
    assert forall i | 0 <= i < |rest| && i != 11 :: rest[i] != 'v';
    NoKeyBefore(rest, field, 0, 11);
    NoKeyBefore(rest, field, 12, |rest|);
    OldQuotes(rest);
    assert !KeyAt(rest, field, 11);
  }

  lemma NewQuotes(rest: string)
    requires rest == "b={a=\"1\",version=\"2\"}"
    ensures QuotesAfter(rest[..9]) == Outside
  {
    QuotesStay(rest, 0, 5);
    assert rest[..0] == "";
    QuoteThenStay(rest, 5, 7, Outside, InDouble);
    QuoteThenStay(rest, 7, 9, InDouble, Outside);
  }

  lemma NewDotted(rest: string, field: string)
    requires rest == "b={a=\"1\",version=\"2\"}" && field == "version"
    ensures KeyEquals(rest, field, 0) == Some(16)
  {
    NewQuotes(rest);
    NoKeyBefore(rest, field, 0, 9);
    assert rest[9..16] == field;
    assert KeyAt(rest, field, 9);
  }

  lemma OldKey(line: string, key: string)
    requires IsBefore(line) && key == "a"
    ensures KeyEquals(line, key, 0) == Some(6)
  {
    assert !KeyAt(line, key, 0);
    NoKeyBefore(line, key, 1, 5);
    QuotesStay(line, 0, 5);
    assert line[5..6] == key;
    assert KeyAt(line, key, 5);
  }

  lemma OldValue(line: string)
    requires IsBefore(line)
    ensures ValueSpan(line, 6) == Some((8, 11))
  {
    var s := line[8..];
    assert s[0] == 'x' && s[1] == '\\' && s[2] == '"' && s[3] == '"';
    assert BackslashesBefore(s, 1) == 0 && BackslashesBefore(s, 2) == 1 && BackslashesBefore(s, 3) == 0;
    assert !ClosesAt(s, '"', 0);
    assert !ClosesAt(s, '"', 1);
    assert !ClosesAt(s, '"', 2);
    assert ClosesAt(s, '"', 3);
    assert Closing(s, '"', 0) == Closing(s, '"', 1) == Closing(s, '"', 2) == Closing(s, '"', 3) == Some(3);
  }

  lemma NewValue(line: string)
    requires IsAfter(line)
    ensures ValueSpan(line, 18) == Some((20, 21))
  {
    var s := line[20..];
    assert s[0] == '2' && s[1] == '"';
    assert !ClosesAt(s, '"', 0);
    assert ClosesAt(s, '"', 1);
    assert Closing(s, '"', 0) == Closing(s, '"', 1) == Some(1);
  }

  lemma OldSpan(line: string, key: string, field: string)
    requires IsBefore(line) && key == "a" && field == "version"
    ensures LineSpan(line, None, key, field) == Some((8, 11)) && DottedSpan(line, key, field) == None
  {
    assert line[2..] == "b={a=\"x\\\"\",version=\"2\"}";
    OldDotted(line[2..], field);
    OldKey(line, key);
    OldValue(line);
    StartsDotted(line, key);
  }

  lemma NewSpan(line: string, key: string, field: string)
    requires IsAfter(line) && key == "a" && field == "version"
    ensures LineSpan(line, None, key, field) == Some((20, 21))
  {
    assert line[2..] == "b={a=\"1\",version=\"2\"}";
    StartsDotted(line, key);
    NewDotted(line[2..], field);
    NewValue(line);
  }

  // ---------------------------------------------------------------------------
  // The updates
  // ---------------------------------------------------------------------------

  /** A manifest whose first table is `[dependencies]` with one line, followed by any other lines. */
  function ManifestWith(line: string, tail: seq<string>): seq<string> {
    ["[dependencies]", line] + tail
  }

  lemma DependenciesHeader(header: string)
    requires header == "[dependencies]"
    ensures IsHeader(header) && ClassifyHeader(Trim(header)) == Section(Some(Runtime), None)
  {
    assert header == HeaderText(Manifest, Runtime, WholeTable, "", "");
    HeaderSelects(Manifest, Runtime, WholeTable, "", "");
    assert Trim(header) == header;
  }

  /** An update of a runtime dependency finds its value on that first line. */
  lemma FirstLineFinds(line: string, tail: seq<string>, dependency: Dependency, span: Range, lines: seq<string>)
    requires lines == ManifestWith(line, tail) && NoNewline(line) && forall l | l in tail :: NoNewline(l)
    requires dependency.depType == Runtime && !IsHeader(line)
    requires LineSpan(line, None, dependency.name, VERSION_FIELD) == Some(span)
    requires dependency.name != "" && IsAscii(dependency.name[0])
    ensures Finds(JoinLines(lines), dependency, Found(lines, 1, None, span))
  {
    DependenciesHeader(lines[0]);
    assert lines[1] == line;
    assert forall l | l in lines :: NoNewline(l);
    JoinThenSplit(lines);
    FindEditStep(lines, 0, NO_SECTION, Runtime, dependency.name);
    FindEditStep(lines, 1, Section(Some(Runtime), None), Runtime, dependency.name);
    ScanPanicsStep(lines, 0, NO_SECTION, Runtime, dependency.name);
    ScanPanicsStep(lines, 1, Section(Some(Runtime), None), Runtime, dependency.name);
    LineSpanHolds(line, None, dependency.name, VERSION_FIELD);
    AsciiSearchIsCalm(line, dependency.name, 0);
  }

  lemma LinesAreNoHeaders(line: string)
    requires line != "" && line[0] == 'a'
    ensures !IsHeader(line)
  {
    HeaderStart(line);
  }

  lemma SplicesAre(before: string, after: string, twice: string, direct: string)
    requires IsBefore(before) && IsAfter(after)
    requires twice == "a.b={a=\"1\",version=\"3\"}" && direct == "a.b={a=\"3\",version=\"2\"}"
    ensures Splice(before, (8, 11), "1") == after && Splice(before, (8, 11), "3") == direct
    ensures Splice(after, (20, 21), "3") == twice && twice != direct
  {
    assert twice[8] != direct[8];
  }

  lemma AppliedTo(line: string, other: string, tail: seq<string>, dependency: Dependency, span: Range, value: string,
                  verify: Verifier)
    requires NoNewline(line) && (forall l | l in tail :: NoNewline(l)) && dependency.depType == Runtime
             && !IsHeader(line)
    requires LineSpan(line, None, dependency.name, VERSION_FIELD) == Some(span) && Splice(line, span, value) == other
    requires dependency.name != "" && IsAscii(dependency.name[0])
    requires IsSafeValue(value) && verify(JoinLines(ManifestWith(other, tail)), dependency, value)
    ensures Applied(JoinLines(ManifestWith(line, tail)), dependency, value, verify)
            == Ok(JoinLines(ManifestWith(other, tail)))
  {
    var lines := ManifestWith(line, tail);
    FirstLineFinds(line, tail, dependency, span, lines);
    var found := Found(lines, 1, None, span);
    FoundApplies(JoinLines(lines), dependency, found, value, verify);
    assert lines[1 := other] == ManifestWith(other, tail);
  }

  /** Two updates in a row against one, given what each line's value is. */
  lemma TwoUpdates(before: string, after: string, twice: string, direct: string, tail: seq<string>,
                   dependency: Dependency, verify: Verifier, known: Range, uncovered: Range, first: string,
                   second: string)
    requires NoNewline(before) && NoNewline(after) && forall l | l in tail :: NoNewline(l)
    requires !IsHeader(before) && !IsHeader(after) && IsSafeValue(first) && IsSafeValue(second) && twice != direct
    requires dependency.depType == Runtime && dependency.name != "" && IsAscii(dependency.name[0])
    requires LineSpan(before, None, dependency.name, VERSION_FIELD) == Some(known)
    requires LineSpan(after, None, dependency.name, VERSION_FIELD) == Some(uncovered)
    requires Splice(before, known, first) == after && Splice(before, known, second) == direct
             && Splice(after, uncovered, second) == twice
    requires verify(JoinLines(ManifestWith(after, tail)), dependency, first)
    requires verify(JoinLines(ManifestWith(twice, tail)), dependency, second)
    requires verify(JoinLines(ManifestWith(direct, tail)), dependency, second)
    ensures var content := JoinLines(ManifestWith(before, tail));
            var once := Applied(content, dependency, first, verify);
            && once == Ok(JoinLines(ManifestWith(after, tail)))
            && Applied(once.value, dependency, second, verify) == Ok(JoinLines(ManifestWith(twice, tail)))
            && Applied(content, dependency, second, verify) == Ok(JoinLines(ManifestWith(direct, tail)))
            && JoinLines(ManifestWith(twice, tail)) != JoinLines(ManifestWith(direct, tail))
  {
    AppliedTo(before, after, tail, dependency, known, first, verify);
    AppliedTo(before, direct, tail, dependency, known, second, verify);
    AppliedTo(after, twice, tail, dependency, uncovered, second, verify);
    var lines := ManifestWith(before, tail);
    SameTextSameLine(lines, 1, twice, direct);
    assert lines[1 := twice] == ManifestWith(twice, tail) && lines[1 := direct] == ManifestWith(direct, tail);
  }

  lemma BeforeIsPlain(before: string)
    requires IsBefore(before)
    ensures NoNewline(before) && !IsHeader(before)
  {
    LinesAreNoHeaders(before);
  }

  lemma AfterIsPlain(after: string)
    requires IsAfter(after)
    ensures NoNewline(after) && !IsHeader(after)
  {
    LinesAreNoHeaders(after);
  }

  lemma DigitIsSafe(value: string)
    requires |value| == 1 && IsDigit(value[0])
    ensures IsSafeValue(value)
  {
  }

  /** Updating `a` to 1 and then to 3 leaves the first value standing and changes the inner `version`; updating
    * straight to 3 does not. All three edits succeed whenever the re-reading of the edited manifest reports the
    * values, as it does when further tables, for targets say, hold `a` at 1 and at 3. */
  lemma EarlierWriterStands(before: string, after: string, twice: string, direct: string, tail: seq<string>,
                            dependency: Dependency, verify: Verifier)
    requires IsBefore(before) && IsAfter(after)
    requires twice == "a.b={a=\"1\",version=\"3\"}" && direct == "a.b={a=\"3\",version=\"2\"}"
    requires dependency.name == "a" && dependency.depType == Runtime && forall l | l in tail :: NoNewline(l)
    requires verify(JoinLines(ManifestWith(after, tail)), dependency, "1")
    requires verify(JoinLines(ManifestWith(twice, tail)), dependency, "3")
    requires verify(JoinLines(ManifestWith(direct, tail)), dependency, "3")
    ensures var content := JoinLines(ManifestWith(before, tail));
            var once := Applied(content, dependency, "1", verify);
            && once == Ok(JoinLines(ManifestWith(after, tail)))
            && Applied(once.value, dependency, "3", verify) == Ok(JoinLines(ManifestWith(twice, tail)))
            && Applied(content, dependency, "3", verify) == Ok(JoinLines(ManifestWith(direct, tail)))
            && JoinLines(ManifestWith(twice, tail)) != JoinLines(ManifestWith(direct, tail))
  {
    SplicesAre(before, after, twice, direct);
    BeforeIsPlain(before);
    AfterIsPlain(after);
    DigitIsSafe("1");
    DigitIsSafe("3");
    OldSpan(before, dependency.name, VERSION_FIELD);
    NewSpan(after, dependency.name, VERSION_FIELD);
    TwoUpdates(before, after, twice, direct, tail, dependency, verify, (8, 11), (20, 21), "1", "3");
  }
}
