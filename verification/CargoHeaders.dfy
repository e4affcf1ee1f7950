/** Table headers of a manifest: how the usual spellings of a dependency table are read, alone on its line or not. */
module CargoHeaders {
  import opened Wrappers
  import opened Text
  import opened Sequences
  import opened Updates
  import opened CargoManifest

  // ---------------------------------------------------------------------------
  // Spellings
  // ---------------------------------------------------------------------------

  /** The table a section sits in: the manifest itself, one target platform, or the workspace. */
  datatype Place = Manifest | QuotedTarget(quote: char, spec: string) | BareTarget(triple: string) | Workspace

  /** The dependency a sub-table is for, if any, after the dot and some blanks. */
  datatype SubTable =
    | WholeTable
    | BareKey(pad: string, name: string)
    | QuotedKey(pad: string, quote: char, name: string)

  predicate IsQuote(c: char) {
    c == '"' || c == '\''
  }

  predicate IsBlank(s: string) {
    forall i | 0 <= i < |s| :: IsWhitespace(s[i])
  }

  /** No white space at either end. */
  predicate IsTight(s: string) {
    s != "" && !IsWhitespace(s[0]) && !IsWhitespace(s[|s| - 1])
  }

  predicate ValidPlace(place: Place) {
    match place
    case QuotedTarget(quote, spec) => IsQuote(quote) && quote !in spec
    case BareTarget(triple) => '.' !in triple && triple != "" && !IsQuote(triple[0]) && !IsWhitespace(triple[0])
    case _ => true
  }

  predicate ValidSubTable(sub: SubTable) {
    match sub
    case WholeTable => true
    case BareKey(pad, name) => IsBlank(pad) && IsTight(name) && !IsQuote(name[0])
    case QuotedKey(pad, quote, _) => IsBlank(pad) && IsQuote(quote)
  }

  function PlaceText(place: Place): string {
    match place
    case Manifest => ""
    case QuotedTarget(quote, spec) => "target." + ([quote] + (spec + ([quote] + ".")))
    case BareTarget(triple) => "target." + (triple + ".")
    case Workspace => "workspace."
  }

  function SectionName(depType: DepType): string {
    match depType
    case Dev => "dev-dependencies"
    case Build => "build-dependencies"
    case _ => "dependencies"
  }

  function KeyText(sub: SubTable): string
    requires !sub.WholeTable?
  {
    if sub.BareKey? then sub.name else [sub.quote] + (sub.name + [sub.quote])
  }

  function SubText(sub: SubTable): string {
    if sub.WholeTable? then "" else "." + (sub.pad + KeyText(sub))
  }

  function NameOf(sub: SubTable): Option<string> {
    if sub.WholeTable? then None else Some(sub.name)
  }

  /** The kinds of table a manifest has there. */
  predicate HasSection(place: Place, depType: DepType) {
    depType == Runtime || (!place.Workspace? && (depType == Dev || depType == Build))
  }

  function InnerText(place: Place, depType: DepType, sub: SubTable): string {
    PlaceText(place) + (SectionName(depType) + SubText(sub))
  }

  /** A header, with blanks inside its brackets. */
  function HeaderText(place: Place, depType: DepType, sub: SubTable, left: string, right: string): string {
    "[" + ((left + (InnerText(place, depType, sub) + right)) + "]")
  }

  // ---------------------------------------------------------------------------
  // Trimming
  // ---------------------------------------------------------------------------

  lemma {:induction false} TrimStartDrops(blank: string, rest: string)
    requires IsBlank(blank) && rest != "" && !IsWhitespace(rest[0])
    ensures TrimStart(blank + rest) == rest
  {
    if blank == "" {
      assert blank + rest == rest;
    } else {
      assert (blank + rest)[1..] == blank[1..] + rest;
      TrimStartDrops(blank[1..], rest);
    }
  }

  lemma {:induction false} TrimEndDrops(front: string, blank: string)
    requires IsBlank(blank) && front != "" && !IsWhitespace(front[|front| - 1])
    ensures TrimEnd(front + blank) == front
  {
    if blank == "" {
      assert front + blank == front;
    } else {
      assert (front + blank)[..|front + blank| - 1] == front + blank[..|blank| - 1];
      TrimEndDrops(front, blank[..|blank| - 1]);
    }
  }

  lemma TrimDrops(left: string, s: string, right: string)
    requires IsBlank(left) && IsBlank(right) && IsTight(s)
    ensures Trim(left + (s + right)) == s
  {
    assert (s + right)[0] == s[0];
    TrimStartDrops(left, s + right);
    TrimEndDrops(s, right);
  }

  lemma StripsPrefix(prefix: string, rest: string)
    ensures StripPrefix(prefix + rest, prefix) == Some(rest)
  {
  }

  lemma OtherStart(s: string, prefix: string, k: nat)
    requires k < |s| && k < |prefix| && s[k] != prefix[k]
    ensures StripPrefix(s, prefix) == None && s != prefix
  {
    if |prefix| <= |s| {
      assert s[..|prefix|][k] == s[k];
    }
  }

  // ---------------------------------------------------------------------------
  // Sections
  // ---------------------------------------------------------------------------

  /** What a section name followed by `rest` selects: the table, a sub-table after a dot, or nothing. */
  function SectionOf(depType: DepType, rest: string): Option<Section> {
    if rest == "" then Some(Section(Some(depType), None))
    else if rest[0] == '.' then Some(Section(Some(depType), Some(UnquoteKey(Trim(rest[1..])))))
    else None
  }

  lemma OwnEntry(depType: DepType, rest: string, others: seq<(string, DepType)>)
    ensures MatchDependencySection(SectionName(depType) + rest, [(SectionName(depType), depType)] + others)
            == if SectionOf(depType, rest).Some? then SectionOf(depType, rest)
               else MatchDependencySection(SectionName(depType) + rest, others)
  {
    var name := SectionName(depType);
    var all := [(name, depType)] + others;
    assert all[0] == (name, depType) && all[1..] == others;
    if rest == "" {
      assert name + rest == name;
    } else if rest[0] == '.' {
      assert name + rest == (name + ".") + rest[1..];
      StripsPrefix(name + ".", rest[1..]);
    } else {
      OtherStart(name + rest, name + ".", |name|);
    }
  }

  lemma OtherEntry(text: string, name: string, depType: DepType, others: seq<(string, DepType)>, k: nat)
    requires k < |text| && k < |name| && text[k] != name[k]
    ensures MatchDependencySection(text, [(name, depType)] + others) == MatchDependencySection(text, others)
  {
    assert ([(name, depType)] + others)[1..] == others;
    OtherStart(text, name, k);
    OtherStart(text, name + ".", k);
  }

  /** An entry of the table of sections. */
  function Entry(depType: DepType): (string, DepType) {
    (SectionName(depType), depType)
  }

  lemma SectionsAre()
    ensures DependencySections() == [Entry(Runtime)] + ([Entry(Dev)] + ([Entry(Build)] + []))
    ensures WorkspaceSections() == [Entry(Runtime)] + []
  {
  }

  /** The runtime and dev names differ in their third character, the build name in its first. */
  lemma EntrySkipped(depType: DepType, other: DepType, rest: string, others: seq<(string, DepType)>)
    requires depType in {Runtime, Dev, Build} && other in {Runtime, Dev, Build} && depType != other
    ensures MatchDependencySection(SectionName(depType) + rest, [Entry(other)] + others)
            == MatchDependencySection(SectionName(depType) + rest, others)
  {
    var text := SectionName(depType) + rest;
    assert text[0] == SectionName(depType)[0] && text[2] == SectionName(depType)[2];
    OtherEntry(text, SectionName(other), other, others, if depType == Build || other == Build then 0 else 2);
  }

  lemma SectionReads(depType: DepType, rest: string)
    requires depType in {Runtime, Dev, Build}
    ensures MatchDependencySection(SectionName(depType) + rest, DependencySections()) == SectionOf(depType, rest)
  {
    var fromBuild := [Entry(Build)] + [];
    var fromDev := [Entry(Dev)] + fromBuild;
    SectionsAre();
    match depType
    case Runtime =>
      OwnEntry(Runtime, rest, fromDev);
      EntrySkipped(Runtime, Dev, rest, fromBuild);
      EntrySkipped(Runtime, Build, rest, []);
    case Dev =>
      EntrySkipped(Dev, Runtime, rest, fromDev);
      OwnEntry(Dev, rest, fromBuild);
      EntrySkipped(Dev, Build, rest, []);
    case Build =>
      EntrySkipped(Build, Runtime, rest, fromDev);
      EntrySkipped(Build, Dev, rest, fromBuild);
      OwnEntry(Build, rest, []);
  }

  lemma WorkspaceSectionReads(depType: DepType, rest: string)
    requires depType in {Runtime, Dev}
    ensures MatchDependencySection(SectionName(depType) + rest, WorkspaceSections())
            == if depType == Runtime then SectionOf(Runtime, rest) else None
  {
    SectionsAre();
    if depType == Runtime {
      OwnEntry(Runtime, rest, []);
    } else {
      EntrySkipped(Dev, Runtime, rest, []);
    }
  }

  lemma NoSectionStarts(text: string)
    requires text != "" && text[0] != 'd' && text[0] != 'b'
    ensures MatchDependencySection(text, DependencySections()) == None
  {
    var runtime, dev, build := (SectionName(Runtime), Runtime), (SectionName(Dev), Dev), (SectionName(Build), Build);
    assert DependencySections() == [runtime] + ([dev] + ([build] + []));
    OtherEntry(text, runtime.0, Runtime, [dev] + ([build] + []), 0);
    OtherEntry(text, dev.0, Dev, [build] + [], 0);
    OtherEntry(text, build.0, Build, [], 0);
  }

  // ---------------------------------------------------------------------------
  // Places
  // ---------------------------------------------------------------------------

  lemma QuotedSpecStripped(quote: char, spec: string, rest: string)
    requires IsQuote(quote) && quote !in spec
    ensures StripTargetSpec([quote] + (spec + ([quote] + ("." + rest)))) == Some(rest)
  {
    var t := [quote] + (spec + ([quote] + ("." + rest)));
    assert t[1..] == spec + ([quote] + ("." + rest));
    IndexAfterRun(spec, quote, [quote] + ("." + rest));
    assert t[|spec| + 2..] == "." + rest;
    StripsPrefix(".", rest);
  }

  lemma BareSpecStripped(triple: string, rest: string)
    requires ValidPlace(BareTarget(triple))
    ensures StripTargetSpec(triple + ("." + rest)) == Some(rest)
  {
    IndexAfterRun(triple, '.', "." + rest);
    assert (triple + ("." + rest))[|triple| + 1..] == rest;
  }

  /** The section an optional match stands for. */
  function OrNone(section: Option<Section>): Section {
    if section.Some? then section.value else NO_SECTION
  }

  lemma TargetInner(afterTarget: string, section: string)
    requires StripTargetSpec(afterTarget) == Some(section)
    ensures ClassifyInner("target." + afterTarget) == OrNone(MatchDependencySection(section, DependencySections()))
  {
    var inner := "target." + afterTarget;
    assert inner[0] == 't';
    NoSectionStarts(inner);
    StripsPrefix("target.", afterTarget);
    OtherStart(inner, "workspace.", 0);
  }

  lemma WorkspaceInner(section: string)
    ensures ClassifyInner("workspace." + section) == OrNone(MatchDependencySection(section, WorkspaceSections()))
  {
    var inner := "workspace." + section;
    assert inner[0] == 'w';
    NoSectionStarts(inner);
    StripsPrefix("workspace.", section);
    OtherStart(inner, "target.", 0);
  }

  lemma ManifestInner(section: string)
    requires section != "" && section[0] != 't' && section[0] != 'w'
    ensures ClassifyInner(section) == OrNone(MatchDependencySection(section, DependencySections()))
  {
    OtherStart(section, "target.", 0);
    OtherStart(section, "workspace.", 0);
  }

  lemma TargetSelects(place: Place, section: string, afterTarget: string)
    requires ValidPlace(place)
    requires match place
             case QuotedTarget(quote, spec) => afterTarget == [quote] + (spec + ([quote] + ("." + section)))
             case BareTarget(triple) => afterTarget == triple + ("." + section)
             case _ => false
    ensures PlaceText(place) + section == "target." + afterTarget
    ensures StripTargetSpec(afterTarget) == Some(section)
  {
    if place.QuotedTarget? {
      QuotedSpecStripped(place.quote, place.spec, section);
    } else {
      BareSpecStripped(place.triple, section);
    }
  }

  /** A place and a section name followed by `rest` are read as the section name followed by `rest`. */
  lemma InnerReads(place: Place, depType: DepType, rest: string)
    requires ValidPlace(place) && HasSection(place, depType)
    ensures ClassifyInner(PlaceText(place) + (SectionName(depType) + rest)) == OrNone(SectionOf(depType, rest))
  {
    var section := SectionName(depType) + rest;
    assert section[0] == SectionName(depType)[0];
    match place
    case Manifest =>
      assert PlaceText(place) + section == section;
      ManifestInner(section);
      SectionReads(depType, rest);
    case QuotedTarget(quote, spec) =>
      var after := [quote] + (spec + ([quote] + ("." + section)));
      TargetSelects(place, section, after);
      TargetInner(after, section);
      SectionReads(depType, rest);
    case BareTarget(triple) =>
      TargetSelects(place, section, triple + ("." + section));
      TargetInner(triple + ("." + section), section);
      SectionReads(depType, rest);
    case Workspace =>
      WorkspaceInner(section);
      WorkspaceSectionReads(Runtime, rest);
  }

  // ---------------------------------------------------------------------------
  // Headers
  // ---------------------------------------------------------------------------

  lemma HeaderOf(middle: string, inner: string)
    requires Trim(middle) == inner && middle != "" && middle[0] != '['
    ensures ClassifyHeader("[" + (middle + "]")) == ClassifyInner(inner)
  {
    var header := "[" + (middle + "]");
    assert header[1..|header| - 1] == middle;
    assert header[1] == middle[0];
    OtherStart(header, "[[", 1);
  }

  lemma KeyTextIsTight(sub: SubTable)
    requires ValidSubTable(sub) && !sub.WholeTable?
    ensures IsTight(KeyText(sub))
  {
  }

  lemma InnerTextEnds(place: Place, depType: DepType, sub: SubTable)
    requires ValidPlace(place) && ValidSubTable(sub)
    ensures IsTight(InnerText(place, depType, sub)) && InnerText(place, depType, sub)[0] != '['
  {
    var inner, name := InnerText(place, depType, sub), SectionName(depType);
    assert inner[0] == if place.Manifest? then name[0] else PlaceText(place)[0];
    if sub.WholeTable? {
      assert inner[|inner| - 1] == name[|name| - 1];
    } else {
      KeyTextIsTight(sub);
      assert inner[|inner| - 1] == KeyText(sub)[|KeyText(sub)| - 1];
    }
  }

  lemma KeyTrims(sub: SubTable, more: string)
    requires ValidSubTable(sub) && !sub.WholeTable?
    requires more != "" ==> !IsWhitespace(more[|more| - 1])
    ensures Trim(sub.pad + (KeyText(sub) + more)) == KeyText(sub) + more
  {
    KeyTextIsTight(sub);
    var text := KeyText(sub) + more;
    assert text[0] == KeyText(sub)[0];
    assert text[|text| - 1] == if more == "" then KeyText(sub)[|KeyText(sub)| - 1] else more[|more| - 1];
    TrimDrops(sub.pad, text, "");
    assert text + "" == text;
  }

  lemma UnquoteLoses(key: string)
    ensures |UnquoteKey(key)| + 2 >= |key|
    ensures key != "" && !IsQuote(key[0]) ==> UnquoteKey(key) == key
  {
  }

  /** The key of a sub-table followed by more text on the same line. */
  lemma KeyReads(sub: SubTable, more: string)
    requires ValidSubTable(sub) && !sub.WholeTable?
    requires more != "" ==> !IsWhitespace(more[|more| - 1])
    ensures Trim(sub.pad + (KeyText(sub) + more)) == KeyText(sub) + more
    ensures UnquoteKey(KeyText(sub)) == sub.name
    ensures more != "" ==> UnquoteKey(KeyText(sub) + more) != sub.name
  {
    KeyTrims(sub, more);
    UnquoteLoses(KeyText(sub));
    UnquoteLoses(KeyText(sub) + more);
    if sub.QuotedKey? {
      assert KeyText(sub)[1..|KeyText(sub)| - 1] == sub.name;
    } else {
      assert (KeyText(sub) + more)[0] == sub.name[0];
    }
  }

  lemma SubRest(pad: string, key: string, more: string)
    ensures var rest := ("." + (pad + key)) + more; rest[0] == '.' && rest[1..] == pad + (key + more)
  {
  }

  lemma RestReads(depType: DepType, sub: SubTable, more: string)
    requires ValidSubTable(sub)
    requires more != "" ==> more[0] != '.' && !IsWhitespace(more[|more| - 1])
    ensures SectionOf(depType, SubText(sub) + more) == Some(Section(Some(depType), NameOf(sub))) <==> more == ""
    ensures sub.WholeTable? && more != "" ==> SectionOf(depType, SubText(sub) + more).None?
  {
    if sub.WholeTable? {
      assert SubText(sub) + more == more;
    } else {
      KeyReads(sub, more);
      SubRest(sub.pad, KeyText(sub), more);
      assert KeyText(sub) + "" == KeyText(sub);
    }
  }

  /** What a spelling followed by more text inside the brackets selects: its own section exactly if nothing
    * follows. */
  lemma SpellingReads(place: Place, depType: DepType, sub: SubTable, more: string)
    requires ValidPlace(place) && HasSection(place, depType) && ValidSubTable(sub)
    requires more != "" ==> more[0] != '.' && !IsWhitespace(more[|more| - 1])
    ensures ClassifyInner(InnerText(place, depType, sub) + more) == Section(Some(depType), NameOf(sub)) <==> more == ""
  {
    InnerAndMore(PlaceText(place), SectionName(depType), SubText(sub), more);
    InnerReads(place, depType, SubText(sub) + more);
    RestReads(depType, sub, more);
  }

  lemma InnerAndMore(place: string, name: string, sub: string, more: string)
    ensures (place + (name + sub)) + more == place + (name + (sub + more))
  {
  }

  lemma MiddleStarts(left: string, inner: string, rest: string)
    requires IsBlank(left) && inner != "" && inner[0] != '['
    ensures var middle := left + (inner + rest); middle != "" && middle[0] != '['
  {
  }

  /** A dependency table's header selects that kind of table and that name: for a target quoted or bare, the
    * workspace, or the manifest itself, as a whole table or for one dependency, its key bare or quoted. Blanks may
    * stand next to the brackets and before a dependency's key; the spellings TOML allows besides, a quoted section
    * name or blanks around the other dots, are not among these. */
  lemma HeaderSelects(place: Place, depType: DepType, sub: SubTable, left: string, right: string)
    requires ValidPlace(place) && HasSection(place, depType) && ValidSubTable(sub) && IsBlank(left) && IsBlank(right)
    ensures ClassifyHeader(HeaderText(place, depType, sub, left, right)) == Section(Some(depType), NameOf(sub))
  {
    var inner := InnerText(place, depType, sub);
    InnerTextEnds(place, depType, sub);
    TrimDrops(left, inner, right);
    MiddleStarts(left, inner, right);
    HeaderOf(left + (inner + right), inner);
    SpellingReads(place, depType, sub, "");
    assert inner + "" == inner;
  }

  // ---------------------------------------------------------------------------
  // Text after the header
  // ---------------------------------------------------------------------------

  lemma NoBracketNoSection(trimmed: string)
    requires trimmed != "" && trimmed[|trimmed| - 1] != ']'
    ensures ClassifyHeader(trimmed) == NO_SECTION
  {
  }

  /** What is left inside the outer brackets when text follows the header. */
  lemma TailInside(left: string, inner: string, right: string, after: string) returns (more: string)
    requires IsBlank(left) && IsTight(inner) && |right| < |after| && after[|right|] == ']'
    requires IsBlank(right) && after[..|right|] == right
    ensures Trim(left + (inner + after)) == inner + more
    ensures more != "" && more[0] != '.' && !IsWhitespace(more[|more| - 1])
  {
    more := TrimEnd(after);
    TrimEndKeeps(after, |right|);
    AfterStarts(right, after);
    assert (inner + after)[0] == inner[0];
    TrimStartDrops(left, inner + after);
    TrimEndOfRest(inner, after);
  }

  lemma AfterStarts(right: string, after: string)
    requires |right| < |after| && after[|right|] == ']' && IsBlank(right) && after[..|right|] == right
    ensures after[0] != '.'
  {
    assert right != "" ==> after[0] == right[0];
  }

  lemma {:induction false} TrimEndOfRest(front: string, rest: string)
    requires TrimEnd(rest) != ""
    ensures TrimEnd(front + rest) == front + TrimEnd(rest)
  {
    if IsWhitespace(rest[|rest| - 1]) {
      assert (front + rest)[..|front + rest| - 1] == front + rest[..|rest| - 1];
      TrimEndOfRest(front, rest[..|rest| - 1]);
    }
  }

  /** Text after a header, a comment for instance, hides its table from updates, or names another dependency. */
  lemma TrailingTextHides(place: Place, depType: DepType, sub: SubTable, left: string, right: string, tail: string)
    requires ValidPlace(place) && HasSection(place, depType) && ValidSubTable(sub) && IsBlank(left) && IsBlank(right)
    requires tail != "" && !IsWhitespace(tail[|tail| - 1])
    ensures ClassifyHeader(HeaderText(place, depType, sub, left, right) + tail) != Section(Some(depType), NameOf(sub))
  {
    var header := HeaderText(place, depType, sub, left, right) + tail;
    assert header[|header| - 1] == tail[|tail| - 1];
    if tail[|tail| - 1] != ']' {
      NoBracketNoSection(header);
    } else {
      var inner := InnerText(place, depType, sub);
      var after := right + ("]" + tail[..|tail| - 1]);
      var middle := left + (inner + after);
      InnerTextEnds(place, depType, sub);
      var more := TailInside(left, inner, right, after);
      MiddleStarts(left, inner, after);
      assert tail == tail[..|tail| - 1] + "]";
      Regrouped(left, inner, right, tail[..|tail| - 1]);
      HeaderOf(middle, inner + more);
      SpellingReads(place, depType, sub, more);
    }
  }

  lemma Regrouped(left: string, inner: string, right: string, tail: string)
    ensures "[" + ((left + (inner + right)) + "]") + (tail + "]")
            == "[" + ((left + (inner + (right + ("]" + tail)))) + "]")
  {
  }

  lemma HeaderTextEnds(place: Place, depType: DepType, sub: SubTable, left: string, right: string)
    ensures IsTight(HeaderText(place, depType, sub, left, right))
  {
  }

  lemma LineTrims(header: string, after: string)
    requires IsTight(header)
    ensures IsBlank(after) ==> Trim(header + after) == header
    ensures !IsBlank(after) ==> Trim(header + after) == header + TrimEnd(after) && TrimEnd(after) != ""
  {
    if IsBlank(after) {
      TrimDrops("", header, after);
      assert "" + (header + after) == header + after;
    } else {
      var k :| 0 <= k < |after| && !IsWhitespace(after[k]);
      TrimEndKeeps(after, k);
      TrimEndOfRest(header, after);
      assert (header + after)[0] == header[0];
    }
  }

  /** A line whose header is followed by any text selects the header's table if and only if that text is blank.
    * So a legal header with a comment, `[dependencies] # note`, does not. */
  lemma HeaderLineSelectsExactly(place: Place, depType: DepType, sub: SubTable, left: string, right: string,
                                 after: string)
    requires ValidPlace(place) && HasSection(place, depType) && ValidSubTable(sub) && IsBlank(left) && IsBlank(right)
    ensures ClassifyHeader(Trim(HeaderText(place, depType, sub, left, right) + after))
            == Section(Some(depType), NameOf(sub))
            <==> IsBlank(after)
  {
    var header := HeaderText(place, depType, sub, left, right);
    HeaderTextEnds(place, depType, sub, left, right);
    LineTrims(header, after);
    if IsBlank(after) {
      HeaderSelects(place, depType, sub, left, right);
    } else {
      TrailingTextHides(place, depType, sub, left, right, TrimEnd(after));
    }
  }

  /** The witness: a commented header selects nothing. */
  lemma CommentedHeader(line: string)
    requires line == "[dependencies] # note"
    ensures ClassifyHeader(Trim(line)) == NO_SECTION
    ensures ClassifyHeader(line[..14]) == Section(Some(Runtime), None)
  {
    assert Trim(line) == line;
    NoBracketNoSection(line);
    var header := HeaderText(Manifest, Runtime, WholeTable, "", "");
    assert line[..14] == header;
    HeaderSelects(Manifest, Runtime, WholeTable, "", "");
  }

  /** The workspace has no dev table: the lines under such a header are hidden from updates. */
  lemma WorkspaceDevIsIgnored(sub: SubTable, left: string, right: string)
    requires ValidSubTable(sub) && IsBlank(left) && IsBlank(right)
    ensures ClassifyHeader(HeaderText(Workspace, Dev, sub, left, right)) == NO_SECTION
  {
    var inner := InnerText(Workspace, Dev, sub);
    InnerTextEnds(Workspace, Dev, sub);
    TrimDrops(left, inner, right);
    MiddleStarts(left, inner, right);
    HeaderOf(left + (inner + right), inner);
    WorkspaceInner(SectionName(Dev) + SubText(sub));
    WorkspaceSectionReads(Dev, SubText(sub));
  }
}
