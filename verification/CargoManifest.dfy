/** Surgical edits of a `Cargo.toml`: section tracking over lines, and the one value an update replaces. */
module CargoManifest {
  import opened Wrappers
  import opened Text
  import opened Sequences
  import opened ManifestText
  import opened Updates

  /** The dependency table the scanner is in, and the dependency a sub-table header named. */
  datatype Section = Section(depType: Option<DepType>, subKey: Option<string>)

  const NO_SECTION := Section(None, None)

  // ---------------------------------------------------------------------------
  // Headers
  // ---------------------------------------------------------------------------

  function StripPrefix(s: string, prefix: string): Option<string> {
    if |prefix| <= |s| && s[..|prefix|] == prefix then Some(s[|prefix|..]) else None
  }

  function UnquoteWith(key: string, quote: char): Option<string> {
    if |key| >= 2 && key[0] == quote && key[|key| - 1] == quote then Some(key[1..|key| - 1]) else None
  }

  function UnquoteKey(key: string): string {
    if UnquoteWith(key, '"').Some? then UnquoteWith(key, '"').value
    else if UnquoteWith(key, '\'').Some? then UnquoteWith(key, '\'').value
    else key
  }

  function DependencySections(): seq<(string, DepType)> {
    [("dependencies", Runtime), ("dev-dependencies", Dev), ("build-dependencies", Build)]
  }

  function WorkspaceSections(): seq<(string, DepType)> {
    [("dependencies", Runtime)]
  }

  function MatchDependencySection(remainder: string, sections: seq<(string, DepType)>): Option<Section> {
    if sections == [] then None
    else
      var (name, depType) := sections[0];
      var rest := StripPrefix(remainder, name + ".");
      if remainder == name then Some(Section(Some(depType), None))
      else if rest.Some? then Some(Section(Some(depType), Some(UnquoteKey(Trim(rest.value)))))
      else MatchDependencySection(remainder, sections[1..])
  }

  /** What follows a target spec and its dot; a quoted spec may itself contain dots. */
  function StripTargetSpec(remainder: string): Option<string> {
    if remainder == "" then None
    else if remainder[0] == '\'' || remainder[0] == '"' then
      var close :- IndexOf(remainder[1..], remainder[0]);
      StripPrefix(remainder[close + 2..], ".")
    else
      var dot :- IndexOf(remainder, '.');
      Some(remainder[dot + 1..])
  }

  /** The section a header's inner text selects. */
  function ClassifyInner(inner: string): Section {
    var plain := MatchDependencySection(inner, DependencySections());
    var afterTarget := StripPrefix(inner, "target.");
    var afterSpec := if afterTarget.Some? then StripTargetSpec(afterTarget.value) else None;
    var target := if afterSpec.Some? then MatchDependencySection(afterSpec.value, DependencySections()) else None;
    var afterWorkspace := StripPrefix(inner, "workspace.");
    var workspace :=
      if afterWorkspace.Some? then MatchDependencySection(afterWorkspace.value, WorkspaceSections()) else None;
    if plain.Some? then plain.value
    else if target.Some? then target.value
    else if workspace.Some? then workspace.value
    else NO_SECTION
  }

  function ClassifyHeader(trimmed: string): Section {
    if StripPrefix(trimmed, "[[").Some? || |trimmed| < 2 || trimmed[0] != '[' || trimmed[|trimmed| - 1] != ']'
    then NO_SECTION
    else ClassifyInner(Trim(trimmed[1..|trimmed| - 1]))
  }

  // ---------------------------------------------------------------------------
  // The value to replace on a line
  // ---------------------------------------------------------------------------

  /** A field's quoted value, the field being sought from an offset on, as if the line started there. */
  function FieldSpan(line: string, from: nat, field: string): (r: Option<Range>)
    requires from <= |line|
    ensures r.Some? ==> from < r.value.0 <= r.value.1 < |line|
  {
    var equals :- KeyEquals(line[from..], field, 0);
    ValueSpan(line, from + equals)
  }

  const VERSION_FIELD := "version"

  /** Where the text after `key.` starts, on a line that begins so. */
  function AfterDot(line: string, key: string): (r: Option<nat>)
    ensures r.Some? ==> r.value <= |line|
  {
    var start := SkipWhitespace(line, 0);
    var end := start + |key|;
    if end < |line| && line[start..end] == key && line[end] == '.' then Some(end + 1) else None
  }

  /** `key.version = "..."`. */
  function DottedSpan(line: string, key: string, field: string): (r: Option<Range>)
    ensures r.Some? ==> 0 < r.value.0 <= r.value.1 < |line|
  {
    var from :- AfterDot(line, key);
    FieldSpan(line, from, field)
  }

  /** What the text after a key's `=` holds: a quoted version, or an inline table with the field. */
  function InlineSpan(line: string, equals: nat, field: string): (r: Option<Range>)
    requires equals < |line|
    ensures r.Some? ==> equals + 1 < r.value.0 <= r.value.1 < |line|
  {
    var start := SkipWhitespace(line, equals + 1);
    if start == |line| then None
    else if line[start] == '"' || line[start] == '\'' then ValueSpan(line, equals)
    else if line[start] == '{' then FieldSpan(line, equals + 1, field)
    else None
  }

  /** `key = "..."` or `key = { field = "..." }`. */
  function KeyedSpan(line: string, key: string, field: string): (r: Option<Range>)
    ensures r.Some? ==> 0 < r.value.0 <= r.value.1 < |line|
  {
    var equals :- KeyEquals(line, key, 0);
    InlineSpan(line, equals, field)
  }

  function TopLevelSpan(line: string, key: string, field: string): (r: Option<Range>)
    ensures r.Some? ==> 0 < r.value.0 <= r.value.1 < |line|
  {
    var dotted := DottedSpan(line, key, field);
    if dotted.Some? then dotted else KeyedSpan(line, key, field)
  }

  /** The value an update of `key` replaces on a line of a table, or of a dependency's own sub-table. */
  function LineSpan(line: string, subKey: Option<string>, key: string, field: string): (r: Option<Range>)
    ensures r.Some? ==> 0 < r.value.0 <= r.value.1 < |line|
  {
    if subKey.None? then TopLevelSpan(line, key, field)
    else if subKey.value == key then FieldSpan(line, 0, field)
    else None
  }

  lemma FieldSpanHolds(line: string, from: nat, field: string)
    requires from <= |line| && FieldSpan(line, from, field).Some?
    ensures HoldsValue(line, FieldSpan(line, from, field).value)
  {
    ValueSpanHolds(line, from + KeyEquals(line[from..], field, 0).value);
  }

  lemma InlineSpanHolds(line: string, equals: nat, field: string)
    requires equals < |line| && InlineSpan(line, equals, field).Some?
    ensures HoldsValue(line, InlineSpan(line, equals, field).value)
  {
    if line[SkipWhitespace(line, equals + 1)] == '{' {
      FieldSpanHolds(line, equals + 1, field);
    } else {
      ValueSpanHolds(line, equals);
    }
  }

  /** A replaced value is always a whole quoted value. */
  lemma LineSpanHolds(line: string, subKey: Option<string>, key: string, field: string)
    requires LineSpan(line, subKey, key, field).Some?
    ensures HoldsValue(line, LineSpan(line, subKey, key, field).value)
  {
    if subKey.Some? {
      FieldSpanHolds(line, 0, field);
    } else if DottedSpan(line, key, field).Some? {
      FieldSpanHolds(line, AfterDot(line, key).value, field);
    } else {
      InlineSpanHolds(line, KeyEquals(line, key, 0).value, field);
    }
  }

  // ---------------------------------------------------------------------------
  // Lines
  // ---------------------------------------------------------------------------

  predicate IsNotNewline(c: char) {
    c != '\n'
  }

  function SplitLines(content: string): (lines: seq<string>)
    ensures lines != []
  {
    var n := Span(content, IsNotNewline);
    if n == |content| then [content] else [content[..n]] + SplitLines(content[n + 1..])
  }

  function JoinLines(lines: seq<string>): string
    requires lines != []
  {
    if |lines| == 1 then lines[0] else lines[0] + ("\n" + JoinLines(lines[1..]))
  }

  predicate IsHeader(line: string) {
    Trim(line) != "" && Trim(line)[0] == '['
  }

  /** The line and value an update replaces, scanning from line `i` in a given section. */
  function FindEdit(lines: seq<string>, i: nat, section: Section, depType: DepType,
                    key: string): (r: Option<(nat, Range)>)
    requires i <= |lines|
    ensures r.Some? ==> i <= r.value.0 < |lines|
    ensures r.Some? ==> 0 < r.value.1.0 <= r.value.1.1 < |lines[r.value.0]|
    decreases |lines| - i
  {
    if i == |lines| then None
    else if IsHeader(lines[i]) then FindEdit(lines, i + 1, ClassifyHeader(Trim(lines[i])), depType, key)
    else
      var span := LineSpan(lines[i], section.subKey, key, VERSION_FIELD);
      if section.depType == Some(depType) && span.Some? then Some((i, span.value))
      else FindEdit(lines, i + 1, section, depType, key)
  }

  /** Whether reading a line for a dependency's own key panics; the search for a version key cannot. */
  predicate LinePanics(line: string, subKey: Option<string>, key: string, field: string) {
    subKey.None? && DottedSpan(line, key, field).None? && SearchPanics(line, key, 0)
  }

  /** Whether the scan panics on a line before it finds what to edit. */
  predicate ScanPanics(lines: seq<string>, i: nat, section: Section, depType: DepType, key: string)
    requires i <= |lines|
    decreases |lines| - i
  {
    if i == |lines| then false
    else if IsHeader(lines[i]) then ScanPanics(lines, i + 1, ClassifyHeader(Trim(lines[i])), depType, key)
    else if section.depType != Some(depType) then ScanPanics(lines, i + 1, section, depType, key)
    else
      || LinePanics(lines[i], section.subKey, key, VERSION_FIELD)
      || (LineSpan(lines[i], section.subKey, key, VERSION_FIELD).None?
          && ScanPanics(lines, i + 1, section, depType, key))
  }

  /** A new value may hold neither quotes nor ASCII control characters. */
  predicate IsUnsafe(c: char) {
    c == '"' || c == '\'' || c < ' ' || c == '\U{7F}'
  }

  predicate IsSafeValue(value: string) {
    forall i | 0 <= i < |value| :: !IsUnsafe(value[i])
  }

  datatype EditError = UnsafeValue | NotFound | VerificationFailed | Panicked

  /** Whether the edited text, parsed again, reports the new value. */
  type Verifier = (string, Dependency, string) -> bool

  function EditedLines(lines: seq<string>, edit: (nat, Range), newValue: string): seq<string>
    requires edit.0 < |lines| && edit.1.0 <= edit.1.1 <= |lines[edit.0]|
  {
    lines[edit.0 := Splice(lines[edit.0], edit.1, newValue)]
  }

  function Applied(content: string, dependency: Dependency, newValue: string,
                   verify: Verifier): Result<string, EditError> {
    if !IsSafeValue(newValue) then Err(UnsafeValue)
    else
      var lines := SplitLines(content);
      var edit := FindEdit(lines, 0, NO_SECTION, dependency.depType, dependency.name);
      if ScanPanics(lines, 0, NO_SECTION, dependency.depType, dependency.name) then Err(Panicked)
      else if edit.None? then Err(NotFound)
      else
        var result := JoinLines(EditedLines(lines, edit.value, newValue));
        if verify(result, dependency, newValue) then Ok(result) else Err(VerificationFailed)
  }

  lemma FindEditStep(lines: seq<string>, i: nat, section: Section, depType: DepType, key: string)
    requires i < |lines|
    ensures IsHeader(lines[i]) ==>
              FindEdit(lines, i, section, depType, key)
              == FindEdit(lines, i + 1, ClassifyHeader(Trim(lines[i])), depType, key)
    ensures !IsHeader(lines[i]) && section.depType != Some(depType) ==>
              FindEdit(lines, i, section, depType, key) == FindEdit(lines, i + 1, section, depType, key)
    ensures !IsHeader(lines[i]) && section.depType == Some(depType) ==>
              var span := LineSpan(lines[i], section.subKey, key, VERSION_FIELD);
              FindEdit(lines, i, section, depType, key)
              == if span.Some? then Some((i, span.value)) else FindEdit(lines, i + 1, section, depType, key)
  {
  }

  lemma ScanPanicsStep(lines: seq<string>, i: nat, section: Section, depType: DepType, key: string)
    requires i < |lines|
    ensures IsHeader(lines[i]) ==>
              ScanPanics(lines, i, section, depType, key)
              == ScanPanics(lines, i + 1, ClassifyHeader(Trim(lines[i])), depType, key)
    ensures !IsHeader(lines[i]) && section.depType != Some(depType) ==>
              ScanPanics(lines, i, section, depType, key) == ScanPanics(lines, i + 1, section, depType, key)
    ensures !IsHeader(lines[i]) && section.depType == Some(depType) ==>
              ScanPanics(lines, i, section, depType, key)
              == (LinePanics(lines[i], section.subKey, key, VERSION_FIELD)
                  || (LineSpan(lines[i], section.subKey, key, VERSION_FIELD).None?
                      && ScanPanics(lines, i + 1, section, depType, key)))
  {
  }

  /** Rewrites one value in place, on the first line of the right section that carries it. */
  method ApplyUpdate(content: string, dependency: Dependency, newValue: string, verify: Verifier)
    returns (r: Result<string, EditError>)
    ensures r == Applied(content, dependency, newValue, verify)
  {
    if !IsSafeValue(newValue) {
      return Err(UnsafeValue);
    }
    var key := dependency.name;
    var lines := SplitLines(content);
    ghost var all := lines;
    ghost var edit := FindEdit(all, 0, NO_SECTION, dependency.depType, key);
    var currentSection: Option<DepType> := None;
    var currentSubKey: Option<string> := None;
    var updated := false;
    var i := 0;
    while i < |lines| && !updated
      invariant i <= |lines| == |all|
      invariant !updated ==>
                  && lines == all
                  && edit == FindEdit(all, i, Section(currentSection, currentSubKey), dependency.depType, key)
      invariant !updated ==>
                  ScanPanics(all, 0, NO_SECTION, dependency.depType, key)
                  == ScanPanics(all, i, Section(currentSection, currentSubKey), dependency.depType, key)
      invariant updated ==>
                  && !ScanPanics(all, 0, NO_SECTION, dependency.depType, key) && edit.Some?
                  && lines == EditedLines(all, edit.value, newValue)
      decreases |all| - i, !updated
    {
      FindEditStep(all, i, Section(currentSection, currentSubKey), dependency.depType, key);
      ScanPanicsStep(all, i, Section(currentSection, currentSubKey), dependency.depType, key);
      var trimmed := Trim(lines[i]);
      if trimmed != "" && trimmed[0] == '[' {
        var section := ClassifyHeader(trimmed);
        currentSection, currentSubKey := section.depType, section.subKey;
      } else if currentSection == Some(dependency.depType) {
        if LinePanics(lines[i], currentSubKey, key, VERSION_FIELD) {
          return Err(Panicked);
        }
        var span := LineSpan(lines[i], currentSubKey, key, VERSION_FIELD);
        if span.Some? {
          lines := lines[i := Splice(lines[i], span.value, newValue)];
          updated := true;
        }
      }
      i := i + 1;
    }
    if !updated {
      return Err(NotFound);
    }
    var result := JoinLines(lines);
    return if verify(result, dependency, newValue) then Ok(result) else Err(VerificationFailed);
  }
}
