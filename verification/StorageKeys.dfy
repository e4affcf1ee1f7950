/** Storage keys of artifacts: validation, the encoded name segment, and joining. */
module StorageKeys {
  import opened Wrappers
  import opened Packages
  import opened Bytes
  import opened PercentCoding

  datatype KeyError = Reserved | Blank | Relative | Absolute | Separator | Nul | NoSegments

  // ---------------------------------------------------------------------------
  // Validation
  // ---------------------------------------------------------------------------

  /** How many bytes a white-space character at the front takes in UTF-8; none if there is no such character. */
  function BlankWidth(s: seq<Byte>): (n: nat)
    ensures n <= |s|
  {
    if |s| >= 1 && (9 <= s[0] <= 13 || s[0] == 32) then 1
    else if |s| >= 2 && s[0] == 0xC2 && (s[1] == 0x85 || s[1] == 0xA0) then 2
    else if |s| >= 3 && s[0] == 0xE1 && s[1] == 0x9A && s[2] == 0x80 then 3
    else if |s| >= 3 && s[0] == 0xE2 && s[1] == 0x80
            && (0x80 <= s[2] <= 0x8A || s[2] == 0xA8 || s[2] == 0xA9 || s[2] == 0xAF)
    then 3
    else if |s| >= 3 && s[0] == 0xE2 && s[1] == 0x81 && s[2] == 0x9F then 3
    else if |s| >= 3 && s[0] == 0xE3 && s[1] == 0x80 && s[2] == 0x80 then 3
    else 0
  }

  /** Nothing but white space. */
  predicate IsBlank(s: seq<Byte>) {
    s == [] || (BlankWidth(s) > 0 && IsBlank(s[BlankWidth(s)..]))
  }

  predicate IsRelative(s: seq<Byte>) {
    s == [DOT] || s == [DOT, DOT]
  }

  predicate StartsWithSeparator(s: seq<Byte>) {
    s != [] && (s[0] == SLASH || s[0] == BACKSLASH)
  }

  const RESERVED_PREFIX: string := "_starmetal"

  predicate IsReserved(name: seq<Byte>) {
    var prefix := Ascii(RESERVED_PREFIX);
    name == prefix || (|name| > |prefix| && name[..|prefix| + 1] == prefix + [SLASH])
  }

  function ValidateSegment(segment: seq<Byte>): Option<KeyError> {
    if IsBlank(segment) then Some(Blank)
    else if IsRelative(segment) then Some(Relative)
    else if SLASH in segment || BACKSLASH in segment then Some(Separator)
    else if StartsWithSeparator(segment) then Some(Absolute)
    else if 0 in segment then Some(Nul)
    else None
  }

  function ValidateName(name: seq<Byte>): Option<KeyError> {
    if IsBlank(name) then Some(Blank)
    else if IsRelative(name) then Some(Relative)
    else if StartsWithSeparator(name) then Some(Absolute)
    else if 0 in name then Some(Nul)
    else None
  }

  /** The encoded name, or why the name cannot be stored. */
  function StorageSegment(name: seq<Byte>): Result<seq<Byte>, KeyError> {
    if IsReserved(name) then Err(Reserved)
    else if ValidateName(name).Some? then Err(ValidateName(name).value)
    else Ok(Encode(name, StorageSafe()))
  }

  // ---------------------------------------------------------------------------
  // Keys
  // ---------------------------------------------------------------------------

  function FirstError(segments: seq<seq<Byte>>): Option<KeyError> {
    if segments == [] then None
    else if ValidateSegment(segments[0]).Some? then ValidateSegment(segments[0])
    else FirstError(segments[1..])
  }

  function Join(segments: seq<seq<Byte>>): seq<Byte>
    requires segments != []
  {
    if |segments| == 1 then segments[0] else segments[0] + ([SLASH] + Join(segments[1..]))
  }

  function FromSegments(segments: seq<seq<Byte>>): Result<seq<Byte>, KeyError> {
    if segments == [] then Err(NoSegments)
    else if FirstError(segments).Some? then Err(FirstError(segments).value)
    else Ok(Join(segments))
  }

  method StorageKeyFromSegments(segments: seq<seq<Byte>>) returns (r: Result<seq<Byte>, KeyError>)
    ensures r == FromSegments(segments)
  {
    if segments == [] {
      return Err(NoSegments);
    }
    for i := 0 to |segments|
      invariant FirstError(segments) == FirstError(segments[i..])
    {
      var error := ValidateSegment(segments[i]);
      if error.Some? {
        return Err(error.value);
      }
      assert segments[i..][1..] == segments[i + 1..];
    }
    return Ok(Join(segments));
  }

  datatype ArtifactId = ArtifactId(ecosystem: Ecosystem, name: seq<Byte>, version: seq<Byte>, filename: seq<Byte>)

  lemma EcosystemNameIsAscii(ecosystem: Ecosystem)
    ensures forall i | 0 <= i < |EcosystemName(ecosystem)| :: 'a' <= EcosystemName(ecosystem)[i] <= 'z'
    ensures EcosystemName(ecosystem) != ""
  {
  }

  function EcosystemBytes(ecosystem: Ecosystem): seq<Byte> {
    EcosystemNameIsAscii(ecosystem);
    Ascii(EcosystemName(ecosystem))
  }

  /** The key of an artifact in the byte store. */
  function ValidatedStorageKey(id: ArtifactId): Result<seq<Byte>, KeyError> {
    var name :- StorageSegment(id.name);
    FromSegments([EcosystemBytes(id.ecosystem), name, id.version, id.filename])
  }

  /** The same coordinates joined without validation or encoding. */
  function StorageKey(id: ArtifactId): seq<Byte> {
    Join([EcosystemBytes(id.ecosystem), id.name, id.version, id.filename])
  }

  // ---------------------------------------------------------------------------
  // Encoded names are always valid segments
  // ---------------------------------------------------------------------------

  lemma StorageSafeBytes()
    ensures !StorageSafe()(PERCENT) && !StorageSafe()(SLASH) && !StorageSafe()(BACKSLASH) && !StorageSafe()(0)
    ensures forall b: Byte | StorageSafe()(b) :: 45 <= b <= 122
    ensures StorageSafe()(DOT)
  {
  }

  /** The name comes back from its encoded segment, and the segment always passes validation. */
  lemma EncodedNameIsValid(name: seq<Byte>)
    requires StorageSegment(name).Ok?
    ensures Decode(StorageSegment(name).value) == name
    ensures ValidateSegment(StorageSegment(name).value) == None
  {
    var encoded := Encode(name, StorageSafe());
    StorageSafeBytes();
    DecodeUndoesEncode(name, StorageSafe());
    EncodedAlphabet(name, StorageSafe());
    assert encoded != [] && encoded[0] in encoded;
    RelativeDecodes();
  }

  lemma RelativeDecodes()
    ensures Decode([DOT]) == [DOT] && Decode([DOT, DOT]) == [DOT, DOT]
  {
    assert [DOT][1..] == [] && [DOT, DOT][1..] == [DOT];
    assert Decode([DOT]) == [DOT] + Decode([]);
    assert Decode([DOT, DOT]) == [DOT] + Decode([DOT]);
  }

  lemma LowerCaseIsValid(s: seq<Byte>)
    requires s != [] && forall i | 0 <= i < |s| :: 97 <= s[i] <= 122
    ensures ValidateSegment(s) == None
  {
    assert s[0] != DOT;
  }

  lemma EcosystemIsValid(ecosystem: Ecosystem)
    ensures ValidateSegment(EcosystemBytes(ecosystem)) == None
  {
    EcosystemNameIsAscii(ecosystem);
    var name, bytes := EcosystemName(ecosystem), EcosystemBytes(ecosystem);
    forall i | 0 <= i < |bytes| ensures 97 <= bytes[i] <= 122 {
      assert bytes[i] == name[i] as int;
    }
    LowerCaseIsValid(bytes);
  }

  /** A key is refused only for its name, its version or its file name, each for its own reason. */
  lemma KeyExistsExactly(id: ArtifactId)
    ensures ValidatedStorageKey(id).Ok?
            <==> && !IsReserved(id.name) && ValidateName(id.name).None?
                 && ValidateSegment(id.version).None? && ValidateSegment(id.filename).None?
  {
    if StorageSegment(id.name).Ok? {
      EncodedNameIsValid(id.name);
      EcosystemIsValid(id.ecosystem);
      FirstErrorOfFour(EcosystemBytes(id.ecosystem), StorageSegment(id.name).value, id.version, id.filename);
    }
  }

  lemma FirstErrorOfFour(a: seq<Byte>, b: seq<Byte>, c: seq<Byte>, d: seq<Byte>)
    ensures FirstError([a, b, c, d]).None?
            <==> && ValidateSegment(a).None? && ValidateSegment(b).None? && ValidateSegment(c).None?
                 && ValidateSegment(d).None?
  {
    assert [a, b, c, d][1..] == [b, c, d] && [b, c, d][1..] == [c, d] && [c, d][1..] == [d] && [d][1..] == [];
    assert FirstError([d]) == ValidateSegment(d);
    assert FirstError([c, d]) == if ValidateSegment(c).Some? then ValidateSegment(c) else FirstError([d]);
    assert FirstError([b, c, d]) == if ValidateSegment(b).Some? then ValidateSegment(b) else FirstError([c, d]);
  }

  // ---------------------------------------------------------------------------
  // Keys are unique
  // ---------------------------------------------------------------------------

  lemma CutAtSlash(a: seq<Byte>, rest: seq<Byte>, b: seq<Byte>, more: seq<Byte>)
    requires SLASH !in a && SLASH !in b && a + ([SLASH] + rest) == b + ([SLASH] + more)
    ensures a == b && rest == more
  {
    var s, t := a + ([SLASH] + rest), b + ([SLASH] + more);
    assert s[|a|] == SLASH && t[|b|] == SLASH;
    assert s[..|a|] == a && t[..|a|] == b;
    assert s[|a| + 1..] == rest && t[|a| + 1..] == more;
  }

  /** Joined segments without slashes can be told apart. */
  lemma {:induction false} JoinInjective(a: seq<seq<Byte>>, b: seq<seq<Byte>>)
    requires a != [] && |a| == |b| && Join(a) == Join(b)
    requires forall s | s in a :: SLASH !in s
    requires forall s | s in b :: SLASH !in s
    ensures a == b
  {
    assert a == [a[0]] + a[1..] && b == [b[0]] + b[1..];
    if |a| > 1 {
      CutAtSlash(a[0], Join(a[1..]), b[0], Join(b[1..]));
      JoinInjective(a[1..], b[1..]);
    }
  }

  lemma ValidKeySegments(id: ArtifactId)
    requires ValidatedStorageKey(id).Ok?
    ensures StorageSegment(id.name).Ok?
    ensures var segments := [EcosystemBytes(id.ecosystem), Encode(id.name, StorageSafe()), id.version, id.filename];
            ValidatedStorageKey(id).value == Join(segments) && forall s | s in segments :: SLASH !in s
  {
    var name := StorageSegment(id.name).value;
    FirstErrorOfFour(EcosystemBytes(id.ecosystem), name, id.version, id.filename);
  }

  lemma AsciiInjective(a: string, b: string)
    requires forall i | 0 <= i < |a| :: a[i] < 128 as char
    requires forall i | 0 <= i < |b| :: b[i] < 128 as char
    requires Ascii(a) == Ascii(b)
    ensures a == b
  {
    forall i | 0 <= i < |a| ensures a[i] == b[i] {
      assert Ascii(a)[i] == Ascii(b)[i];
    }
  }

  /** Two artifacts with the same storage key are the same artifact. */
  lemma StorageKeysAreUnique(a: ArtifactId, b: ArtifactId)
    requires ValidatedStorageKey(a).Ok? && ValidatedStorageKey(b) == ValidatedStorageKey(a)
    ensures a == b
  {
    ValidKeySegments(a);
    ValidKeySegments(b);
    var s := [EcosystemBytes(a.ecosystem), Encode(a.name, StorageSafe()), a.version, a.filename];
    var t := [EcosystemBytes(b.ecosystem), Encode(b.name, StorageSafe()), b.version, b.filename];
    JoinInjective(s, t);
    assert s[0] == t[0] && s[1] == t[1] && s[2] == t[2] && s[3] == t[3];
    StorageSafeBytes();
    EncodeInjective(a.name, b.name, StorageSafe());
    EcosystemNameIsAscii(a.ecosystem);
    EcosystemNameIsAscii(b.ecosystem);
    AsciiInjective(EcosystemName(a.ecosystem), EcosystemName(b.ecosystem));
    EcosystemNamesDistinct(a.ecosystem, b.ecosystem);
  }

  lemma JoinFour(a: seq<Byte>, b: seq<Byte>, c: seq<Byte>, d: seq<Byte>)
    ensures Join([a, b, c, d]) == a + ([SLASH] + (b + ([SLASH] + (c + ([SLASH] + d)))))
  {
    assert [a, b, c, d][1..] == [b, c, d] && [b, c, d][1..] == [c, d] && [c, d][1..] == [d];
    assert Join([c, d]) == c + ([SLASH] + d);
    assert Join([b, c, d]) == b + ([SLASH] + Join([c, d]));
  }

  /** The unvalidated key has no such guarantee: a slash moves freely between name and version. */
  lemma UnvalidatedKeysCollide(ecosystem: Ecosystem, a: seq<Byte>, b: seq<Byte>, c: seq<Byte>, filename: seq<Byte>)
    ensures var one := ArtifactId(ecosystem, a + ([SLASH] + b), c, filename);
            var other := ArtifactId(ecosystem, a, b + ([SLASH] + c), filename);
            one != other && StorageKey(one) == StorageKey(other)
  {
    var e := EcosystemBytes(ecosystem);
    var tail := [SLASH] + filename;
    JoinFour(e, a + ([SLASH] + b), c, filename);
    JoinFour(e, a, b + ([SLASH] + c), filename);
    assert (a + ([SLASH] + b)) + ([SLASH] + (c + tail)) == a + ([SLASH] + ((b + ([SLASH] + c)) + tail));
    assert |a + ([SLASH] + b)| != |a|;
  }
}
