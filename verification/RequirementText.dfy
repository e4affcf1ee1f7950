/** How the requirement texts the updater writes are read back. */
module RequirementText {
  import opened Wrappers
  import opened Text
  import opened Semver
  import opened SemverText

  /** The comparator on a full version. */
  function At(op: Op, v: Version): Comparator {
    Comparator(op, v.major, Some(v.minor), Some(v.patch), v.pre)
  }

  lemma PartReads(n: nat, rest: string)
    requires n <= MAX_U64 && Ends(rest, IsDigit)
    ensures ReadPart("." + Decimal(n) + rest) == Some((Given(n), rest))
  {
    var t := "." + Decimal(n) + rest;
    assert t[1..] == Decimal(n) + rest;
    assert IsDigit(Decimal(n)[0]) && t[1..][0] == Decimal(n)[0];
    NumberReads(n, rest);
  }

  lemma CorePartsRead(major: nat, minor: nat, patch: nat, rest: string)
    requires major <= MAX_U64 && minor <= MAX_U64 && patch <= MAX_U64 && Ends(rest, IsDigit)
    ensures ReadParts(CoreText(major, minor, patch) + rest) == Some(((major, Given(minor), Given(patch)), rest))
  {
    CoreCuts(major, minor, patch, rest);
    NumberReads(major, "." + Decimal(minor) + ("." + Decimal(patch) + rest));
    PartReads(minor, "." + Decimal(patch) + rest);
    PartReads(patch, rest);
  }

  lemma VersionStartsWithDigit(v: Version, rest: string)
    ensures var t := PrintVersion(v) + rest;
            t != "" && IsDigit(t[0]) && SkipSpaces(t) == t && !AtWildcard(t)
  {
    assert (PrintVersion(v) + rest)[0] == Decimal(v.major)[0];
  }

  lemma PartsRead(v: Version, rest: string, afterParts: string)
    requires ValidVersion(v) && EndsVersion(rest) && afterParts == TagsText(v) + rest
    ensures SkipSpaces(PrintVersion(v) + rest) == PrintVersion(v) + rest
    ensures ReadParts(PrintVersion(v) + rest) == Some(((v.major, Given(v.minor), Given(v.patch)), afterParts))
    ensures ReadTags(afterParts) == Some(((v.pre, v.build), rest))
  {
    VersionStartsWithDigit(v, rest);
    assert PrintVersion(v) + rest == CoreText(v.major, v.minor, v.patch) + afterParts;
    ReadTagsReads(v, rest);
    CorePartsRead(v.major, v.minor, v.patch, afterParts);
  }

  lemma AssembleComparator(t: string, parts: (nat, Part, Part), afterParts: string, tags: (string, string),
                           rest: string)
    requires ReadParts(SkipSpaces(t[ReadOp(t).1..])) == Some((parts, afterParts))
    requires parts.1.Given? && parts.2.Given? && ReadTags(afterParts) == Some((tags, rest))
    ensures ReadComparator(t)
            == Some((Comparator(ReadOp(t).0, parts.0, Some(parts.1.value), Some(parts.2.value), tags.0),
                     SkipSpaces(rest)))
  {
  }

  /** An operator in front of a printed version reads as a comparator on that version. */
  lemma ComparatorReads(t: string, v: Version, rest: string)
    requires ValidVersion(v) && EndsVersion(rest)
    requires t[ReadOp(t).1..] == PrintVersion(v) + rest
    ensures ReadComparator(t) == Some((At(ReadOp(t).0, v), SkipSpaces(rest)))
  {
    var afterParts := TagsText(v) + rest;
    PartsRead(v, rest, afterParts);
    AssembleComparator(t, (v.major, Given(v.minor), Given(v.patch)), afterParts, (v.pre, v.build), rest);
  }

  lemma LastComparator(t: string, c: Comparator, room: nat)
    requires ReadComparator(t) == Some((c, ""))
    ensures ReadComparators(t, room) == Some([c])
  {
  }

  lemma MoreComparators(t: string, c: Comparator, rest: string, more: Requirement, room: nat)
    requires ReadComparator(t) == Some((c, rest)) && StartsWith(rest, ',') && room > 1
    requires ReadComparators(SkipSpaces(rest[1..]), room - 1) == Some(more)
    ensures ReadComparators(t, room) == Some([c] + more)
  {
  }

  lemma WholeRequirement(t: string)
    requires !StartsWith(t, ' ') && !AtWildcard(t)
    ensures ParseRequirement(t) == ReadComparators(t, 32)
  {
  }

  lemma OperatorIsNoWildcard(t: string)
    requires ReadOp(t).1 < |t| && IsDigit(t[ReadOp(t).1])
    ensures !StartsWith(t, ' ') && !AtWildcard(t)
  {
  }

  lemma RequirementStarts(t: string, v: Version, rest: string)
    requires t[ReadOp(t).1..] == PrintVersion(v) + rest
    ensures ParseRequirement(t) == ReadComparators(t, 32)
  {
    VersionStartsWithDigit(v, rest);
    assert t[ReadOp(t).1] == (PrintVersion(v) + rest)[0];
    OperatorIsNoWildcard(t);
    WholeRequirement(t);
  }

  lemma LastReads(t: string, v: Version, room: nat)
    requires ValidVersion(v)
    requires t[ReadOp(t).1..] == PrintVersion(v)
    ensures ReadComparators(t, room) == Some([At(ReadOp(t).0, v)])
  {
    assert PrintVersion(v) + "" == PrintVersion(v);
    ComparatorReads(t, v, "");
    LastComparator(t, At(ReadOp(t).0, v), room);
  }

  /** An operator (possibly left out) and a printed version, on their own, are a one-comparator requirement. */
  lemma SingleRequirementReads(t: string, v: Version)
    requires ValidVersion(v)
    requires t[ReadOp(t).1..] == PrintVersion(v)
    ensures ParseRequirement(t) == Some([At(ReadOp(t).0, v)])
  {
    LastReads(t, v, 32);
    assert PrintVersion(v) + "" == PrintVersion(v);
    RequirementStarts(t, v, "");
  }

  lemma FirstReads(t: string, v: Version, tail: string, more: Requirement, room: nat)
    requires ValidVersion(v) && StartsWith(tail, ',') && room > 1
    requires t[ReadOp(t).1..] == PrintVersion(v) + tail
    requires ReadComparators(SkipSpaces(tail[1..]), room - 1) == Some(more)
    ensures ReadComparators(t, room) == Some([At(ReadOp(t).0, v)] + more)
  {
    ComparatorReads(t, v, tail);
    assert SkipSpaces(tail) == tail;
    MoreComparators(t, At(ReadOp(t).0, v), tail, more, room);
  }

  /** Two comparators on printed versions, separated by a comma. */
  lemma PairReads(first: string, second: string, tail: string, lower: Version, upper: Version)
    requires ValidVersion(lower) && ValidVersion(upper)
    requires StartsWith(tail, ',') && SkipSpaces(tail[1..]) == second
    requires first[ReadOp(first).1..] == PrintVersion(lower) + tail
    requires second[ReadOp(second).1..] == PrintVersion(upper)
    ensures ParseRequirement(first) == Some([At(ReadOp(first).0, lower)] + [At(ReadOp(second).0, upper)])
  {
    RequirementStarts(first, lower, tail);
    LastReads(second, upper, 31);
    FirstReads(first, lower, tail, [At(ReadOp(second).0, upper)], 32);
  }

  // ---------------------------------------------------------------------------
  // Everything parsed is valid
  // ---------------------------------------------------------------------------

  predicate ValidComparator(c: Comparator) {
    WellFormed(c) && ValidVersion(LowerBound(c))
  }

  lemma PartIsBounded(t: string)
    ensures ReadPart(t).Some? && ReadPart(t).value.0.Given? ==> ReadPart(t).value.0.value <= MAX_U64
  {
  }

  lemma PartsAreBounded(t: string)
    ensures ReadParts(t).Some? ==>
              var (major, minor, patch) := ReadParts(t).value.0;
              && major <= MAX_U64
              && (minor.Given? ==> minor.value <= MAX_U64)
              && (patch.Given? ==> patch.value <= MAX_U64)
  {
    if ReadParts(t).Some? {
      PartIsBounded(Number(t).value.1);
      PartIsBounded(ReadPart(Number(t).value.1).value.1);
    }
  }

  lemma ReadComparatorIsValid(t: string)
    ensures ReadComparator(t).Some? ==> ValidComparator(ReadComparator(t).value.0)
  {
    var parts := SkipSpaces(t[ReadOp(t).1..]);
    PartsAreBounded(parts);
    if ReadParts(parts).Some? {
      ReadTagsIsText(ReadParts(parts).value.1);
    }
  }

  predicate AllValid(requirement: Requirement) {
    forall c | c in requirement :: ValidComparator(c)
  }

  lemma ComparatorsUnfold(t: string, room: nat, first: Comparator, rest: string)
    requires ReadComparator(t) == Some((first, rest)) && ReadComparators(t, room).Some?
    ensures rest == "" ==> ReadComparators(t, room) == Some([first])
    ensures rest != "" ==>
              && room > 1 && |rest[1..]| < |t|
              && var more := ReadComparators(SkipSpaces(rest[1..]), room - 1);
                 more.Some? && ReadComparators(t, room) == Some([first] + more.value)
  {
  }

  lemma {:induction false} ReadComparatorsAreValid(t: string, room: nat, requirement: Requirement)
    requires ReadComparators(t, room) == Some(requirement)
    ensures AllValid(requirement)
    decreases |t|
  {
    var (first, rest) := ReadComparator(t).value;
    ReadComparatorIsValid(t);
    ComparatorsUnfold(t, room, first, rest);
    if rest != "" {
      ReadComparatorsAreValid(SkipSpaces(rest[1..]), room - 1, ReadComparators(SkipSpaces(rest[1..]), room - 1).value);
    }
  }

  lemma RequirementsAreValid(t: string)
    ensures ParseRequirement(t).Some? ==> AllValid(ParseRequirement(t).value)
  {
    if ParseRequirement(t).Some? && !AtWildcard(SkipSpaces(t)) {
      ReadComparatorsAreValid(SkipSpaces(t), 32, ParseRequirement(t).value);
    }
  }
}
