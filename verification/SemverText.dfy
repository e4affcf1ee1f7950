/** The texts of versions and version requirements, read and printed as the `semver` crate does. */
module SemverText {
  import opened Wrappers
  import opened Text
  import opened Semver

  const MAX_U64: nat := 0xFFFF_FFFF_FFFF_FFFF

  // ---------------------------------------------------------------------------
  // Scanners: each yields what it read and the text after it
  // ---------------------------------------------------------------------------

  predicate StartsWith(t: string, c: char) {
    t != "" && t[0] == c
  }

  function SkipSpaces(t: string): (rest: string)
    ensures |rest| <= |t|
    ensures !StartsWith(rest, ' ')
  {
    if StartsWith(t, ' ') then SkipSpaces(t[1..]) else t
  }

  /** A number without leading zeros that fits 64 bits. */
  function Number(t: string): (r: Option<(nat, string)>)
    ensures r.Some? ==> |r.value.1| < |t| && r.value.0 <= MAX_U64
  {
    var n := Span(t, IsDigit);
    if n == 0 || (n > 1 && t[0] == '0') || DecimalValue(t[..n]) > MAX_U64 then None
    else Some((DecimalValue(t[..n]), t[n..]))
  }

  /** A number preceded by a dot. */
  function DotNumber(t: string): (r: Option<(nat, string)>)
    ensures r.Some? ==> |r.value.1| < |t| && r.value.0 <= MAX_U64
  {
    if StartsWith(t, '.') then Number(t[1..]) else None
  }

  predicate IsIdentifierChar(c: char) {
    IsDigit(c) || 'A' <= c <= 'Z' || 'a' <= c <= 'z' || c == '-' || c == '.'
  }

  /** A non-empty identifier list; numeric pre-release identifiers have no leading zeros. */
  predicate ValidIdentifiers(s: string, pre: bool) {
    && s != ""
    && (forall i | 0 <= i < |s| :: IsIdentifierChar(s[i]))
    && (forall id | id in Identifiers(s) :: id != "" && !(pre && AllDigits(id) && |id| > 1 && id[0] == '0'))
  }

  function IdentifierRun(t: string, pre: bool): (r: Option<(string, string)>)
    ensures r.Some? ==> |r.value.1| <= |t|
  {
    var n := Span(t, IsIdentifierChar);
    if ValidIdentifiers(t[..n], pre) then Some((t[..n], t[n..])) else None
  }

  /** A tag introduced by `mark`, or nothing. */
  function Tag(t: string, mark: char): (r: Option<(string, string)>)
    ensures r.Some? ==> |r.value.1| <= |t|
  {
    if StartsWith(t, mark) then IdentifierRun(t[1..], mark == '-') else Some(("", t))
  }

  // ---------------------------------------------------------------------------
  // Versions
  // ---------------------------------------------------------------------------

  function ReadCore(t: string): Option<((nat, nat, nat), string)> {
    var (major, afterMajor) :- Number(t);
    var (minor, afterMinor) :- DotNumber(afterMajor);
    var (patch, rest) :- DotNumber(afterMinor);
    Some(((major, minor, patch), rest))
  }

  /** The pre-release and build tags. */
  function ReadTags(t: string): (r: Option<((string, string), string)>)
    ensures r.Some? ==> |r.value.1| <= |t|
  {
    var (pre, afterPre) :- Tag(t, '-');
    var (build, rest) :- Tag(afterPre, '+');
    Some(((pre, build), rest))
  }

  function ReadVersion(t: string): Option<(Version, string)> {
    var (core, afterCore) :- ReadCore(t);
    var (tags, rest) :- ReadTags(afterCore);
    Some((Version(core.0, core.1, core.2, tags.0, tags.1), rest))
  }

  function ParseVersion(t: string): Option<Version> {
    var (v, rest) :- ReadVersion(t);
    if rest == "" then Some(v) else None
  }

  function TagText(mark: char, s: string): string {
    if s == "" then "" else [mark] + s
  }

  function CoreText(major: nat, minor: nat, patch: nat): string {
    Decimal(major) + ("." + Decimal(minor) + ("." + Decimal(patch)))
  }

  function TagsText(v: Version): string {
    TagText('-', v.pre) + TagText('+', v.build)
  }

  function PrintVersion(v: Version): string {
    CoreText(v.major, v.minor, v.patch) + TagsText(v)
  }

  predicate ValidVersion(v: Version) {
    && v.major <= MAX_U64 && v.minor <= MAX_U64 && v.patch <= MAX_U64
    && (v.pre != "" ==> ValidIdentifiers(v.pre, true))
    && (v.build != "" ==> ValidIdentifiers(v.build, false))
  }

  // ---------------------------------------------------------------------------
  // Requirements
  // ---------------------------------------------------------------------------

  /** The operator, how many characters it takes, and whether it was left out. */
  function ReadOp(t: string): (r: (Op, nat, bool))
    ensures r.1 <= |t|
  {
    if StartsWith(t, '=') then (Exact, 1, false)
    else if StartsWith(t, '>') then if StartsWith(t[1..], '=') then (GreaterEq, 2, false) else (Greater, 1, false)
    else if StartsWith(t, '<') then if StartsWith(t[1..], '=') then (LessEq, 2, false) else (Less, 1, false)
    else if StartsWith(t, '~') then (Tilde, 1, false)
    else if StartsWith(t, '^') then (Caret, 1, false)
    else (Caret, 0, true)
  }

  predicate AtWildcard(t: string) {
    t != "" && t[0] in "*xX"
  }

  datatype Part = Absent | Star | Given(value: nat)

  /** A minor or patch part: left out, a wildcard, or a number. */
  function ReadPart(t: string): (r: Option<(Part, string)>)
    ensures r.Some? ==> |r.value.1| <= |t|
  {
    if !StartsWith(t, '.') then Some((Absent, t))
    else if AtWildcard(t[1..]) then Some((Star, t[2..]))
    else
      var (n, rest) :- Number(t[1..]);
      Some((Given(n), rest))
  }

  function PartValue(part: Part): Option<nat> {
    if part.Given? then Some(part.value) else None
  }

  /** The parts of a comparator after its operator; a number may not follow a wildcard. */
  function ReadParts(t: string): (r: Option<((nat, Part, Part), string)>)
    ensures r.Some? ==> |r.value.1| < |t|
    ensures r.Some? && r.value.0.2.Given? ==> r.value.0.1.Given?
  {
    var (major, afterMajor) :- Number(t);
    var (minor, afterMinor) :- ReadPart(afterMajor);
    var (patch, rest) :- ReadPart(afterMinor);
    if minor.Star? && patch.Given? then None else Some(((major, minor, patch), rest))
  }

  function ReadComparator(t: string): (r: Option<(Comparator, string)>)
    ensures r.Some? ==> |r.value.1| < |t| && WellFormed(r.value.0)
  {
    var (op, width, defaulted) := ReadOp(t);
    var (parts, afterParts) :- ReadParts(SkipSpaces(t[width..]));
    var (tags, rest) :- if parts.2.Given? then ReadTags(afterParts) else Some((("", ""), afterParts));
    var effective := if defaulted && (parts.1.Star? || parts.2.Star?) then Wildcard else op;
    Some((Comparator(effective, parts.0, PartValue(parts.1), PartValue(parts.2), tags.0), SkipSpaces(rest)))
  }

  /** Comma-separated comparators, `room` of them at most. */
  function ReadComparators(t: string, room: nat): (r: Option<Requirement>)
    ensures r.Some? ==> r.value != [] && forall c | c in r.value :: WellFormed(c)
    decreases |t|
  {
    var (first, rest) :- ReadComparator(t);
    if rest == "" then Some([first])
    else if !StartsWith(rest, ',') || room <= 1 then None
    else
      var others :- ReadComparators(SkipSpaces(rest[1..]), room - 1);
      Some([first] + others)
  }

  function ParseRequirement(text: string): (r: Option<Requirement>)
    ensures r.Some? ==> forall c | c in r.value :: WellFormed(c)
  {
    var t := SkipSpaces(text);
    if AtWildcard(t) then if SkipSpaces(t[1..]) == "" then Some([]) else None
    else ReadComparators(t, 32)
  }

  // ---------------------------------------------------------------------------
  // Printing and reading are inverse
  // ---------------------------------------------------------------------------

  lemma {:induction false} DecimalOfValue(s: string)
    requires s != "" && AllDigits(s) && (|s| > 1 ==> s[0] != '0')
    ensures Decimal(DecimalValue(s)) == s
    ensures s[0] != '0' ==> DecimalValue(s) > 0
  {
    var front, last := s[..|s| - 1], s[|s| - 1];
    assert s == front + [last];
    if front != "" {
      DecimalOfValue(front);
      assert DecimalValue(s) / 10 == DecimalValue(front) && DecimalValue(s) % 10 == DigitValue(last);
    } else {
      assert DecimalValue(front) == 0;
      assert DecimalValue(s) == DigitValue(last) < 10;
    }
  }

  predicate Ends(rest: string, p: char -> bool) {
    rest == "" || !p(rest[0])
  }

  lemma NumberReads(n: nat, rest: string)
    requires n <= MAX_U64 && Ends(rest, IsDigit)
    ensures Number(Decimal(n) + rest) == Some((n, rest))
  {
    SpanOfRun(Decimal(n), rest, IsDigit);
    DecimalRoundTrip(n);
  }

  lemma NumberIsDecimal(t: string)
    ensures Number(t).Some? ==> t == Decimal(Number(t).value.0) + Number(t).value.1
    ensures Number(t).Some? ==> Ends(Number(t).value.1, IsDigit)
  {
    if Number(t).Some? {
      var n := Span(t, IsDigit);
      DecimalOfValue(t[..n]);
      assert t == t[..n] + t[n..];
    }
  }

  lemma DotNumberReads(n: nat, rest: string)
    requires n <= MAX_U64 && Ends(rest, IsDigit)
    ensures DotNumber("." + Decimal(n) + rest) == Some((n, rest))
  {
    NumberReads(n, rest);
    assert ("." + Decimal(n) + rest)[1..] == Decimal(n) + rest;
  }

  lemma DotNumberIsDecimal(t: string)
    ensures DotNumber(t).Some? ==> t == "." + Decimal(DotNumber(t).value.0) + DotNumber(t).value.1
    ensures DotNumber(t).Some? ==> Ends(DotNumber(t).value.1, IsDigit)
  {
    if DotNumber(t).Some? {
      NumberIsDecimal(t[1..]);
      assert t == "." + t[1..];
    }
  }

  lemma TagReads(mark: char, s: string, rest: string)
    requires s != "" ==> ValidIdentifiers(s, mark == '-') && Ends(rest, IsIdentifierChar)
    requires s == "" ==> !StartsWith(rest, mark)
    ensures Tag(TagText(mark, s) + rest, mark) == Some((s, rest))
  {
    if s == "" {
      assert TagText(mark, s) + rest == rest;
    } else {
      SpanOfRun(s, rest, IsIdentifierChar);
      assert (TagText(mark, s) + rest)[1..] == s + rest;
    }
  }

  lemma TagIsText(t: string, mark: char)
    ensures Tag(t, mark).Some? ==>
              var (s, rest) := Tag(t, mark).value;
              && t == TagText(mark, s) + rest
              && (s != "" ==> ValidIdentifiers(s, mark == '-'))
  {
    if StartsWith(t, mark) {
      var n := Span(t[1..], IsIdentifierChar);
      assert t == [mark] + (t[1..][..n] + t[1..][n..]);
    } else {
      assert t == "" + t;
    }
  }

  /** What may follow a version without being read as part of it. */
  predicate EndsVersion(rest: string) {
    rest == "" || (!IsIdentifierChar(rest[0]) && rest[0] != '+')
  }

  lemma ReadTagsReads(v: Version, rest: string)
    requires ValidVersion(v) && EndsVersion(rest)
    ensures ReadTags(TagsText(v) + rest) == Some(((v.pre, v.build), rest))
    ensures Ends(TagsText(v) + rest, IsDigit)
  {
    assert TagsText(v) + rest == TagText('-', v.pre) + (TagText('+', v.build) + rest);
    TagReads('-', v.pre, TagText('+', v.build) + rest);
    TagReads('+', v.build, rest);
  }

  /** A core's text with more behind it, cut at each number. */
  lemma CoreCuts(major: nat, minor: nat, patch: nat, rest: string)
    ensures CoreText(major, minor, patch) + rest
            == Decimal(major) + ("." + Decimal(minor) + ("." + Decimal(patch) + rest))
  {
  }

  lemma ReadCoreReads(major: nat, minor: nat, patch: nat, rest: string)
    requires major <= MAX_U64 && minor <= MAX_U64 && patch <= MAX_U64 && Ends(rest, IsDigit)
    ensures ReadCore(CoreText(major, minor, patch) + rest) == Some(((major, minor, patch), rest))
  {
    CoreCuts(major, minor, patch, rest);
    NumberReads(major, "." + Decimal(minor) + ("." + Decimal(patch) + rest));
    DotNumberReads(minor, "." + Decimal(patch) + rest);
    DotNumberReads(patch, rest);
  }

  lemma ReadVersionReads(v: Version, rest: string)
    requires ValidVersion(v) && EndsVersion(rest)
    ensures ReadVersion(PrintVersion(v) + rest) == Some((v, rest))
  {
    ReadTagsReads(v, rest);
    ReadCoreReads(v.major, v.minor, v.patch, TagsText(v) + rest);
    assert PrintVersion(v) + rest == CoreText(v.major, v.minor, v.patch) + (TagsText(v) + rest);
  }

  lemma ReadCoreIsText(t: string)
    ensures ReadCore(t).Some? ==>
              var (core, rest) := ReadCore(t).value;
              t == CoreText(core.0, core.1, core.2) + rest
    ensures ReadCore(t).Some?
            ==> var core := ReadCore(t).value.0; core.0 <= MAX_U64 && core.1 <= MAX_U64 && core.2 <= MAX_U64
  {
    if ReadCore(t).Some? {
      NumberIsDecimal(t);
      var (major, afterMajor) := Number(t).value;
      DotNumberIsDecimal(afterMajor);
      var (minor, afterMinor) := DotNumber(afterMajor).value;
      DotNumberIsDecimal(afterMinor);
      var (patch, rest) := DotNumber(afterMinor).value;
      CoreCuts(major, minor, patch, rest);
    }
  }

  lemma ReadTagsIsText(t: string)
    ensures ReadTags(t).Some? ==>
              var ((pre, build), rest) := ReadTags(t).value;
              && t == TagText('-', pre) + (TagText('+', build) + rest)
              && (pre != "" ==> ValidIdentifiers(pre, true))
              && (build != "" ==> ValidIdentifiers(build, false))
  {
    if ReadTags(t).Some? {
      TagIsText(t, '-');
      TagIsText(Tag(t, '-').value.1, '+');
    }
  }

  lemma ReadVersionIsText(t: string, v: Version, rest: string)
    requires ReadVersion(t) == Some((v, rest))
    ensures t == CoreText(v.major, v.minor, v.patch) + (TagText('-', v.pre) + (TagText('+', v.build) + rest))
    ensures ValidVersion(v)
  {
    ReadCoreIsText(t);
    ReadTagsIsText(ReadCore(t).value.1);
  }

  lemma ParsedVersionIsPrinted(t: string, v: Version)
    requires ParseVersion(t) == Some(v)
    ensures t == PrintVersion(v) && ValidVersion(v)
  {
    ReadVersionIsText(t, v, "");
    assert TagText('+', v.build) + "" == TagText('+', v.build);
  }

  lemma PrintedVersionParses(v: Version)
    requires ValidVersion(v)
    ensures ParseVersion(PrintVersion(v)) == Some(v)
  {
    ReadVersionReads(v, "");
    assert PrintVersion(v) + "" == PrintVersion(v);
  }

  /** Version text is canonical: exactly the printed form of each valid version parses, and to that version. */
  lemma VersionTextIsCanonical(t: string, v: Version)
    ensures ParseVersion(t) == Some(v) <==> t == PrintVersion(v) && ValidVersion(v)
  {
    if ParseVersion(t) == Some(v) {
      ParsedVersionIsPrinted(t, v);
    }
    if ValidVersion(v) {
      PrintedVersionParses(v);
    }
  }
}
