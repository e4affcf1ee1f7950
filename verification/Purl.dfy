/** Package URLs: the printer, a reader for its output, and hence that no two coordinates share one. */
module Purl {
  import opened Wrappers
  import opened Packages
  import opened Bytes
  import opened Sequences
  import opened PercentCoding
  import opened StorageKeys

  function PurlType(ecosystem: Ecosystem): string {
    match ecosystem
    case PyPI => "pypi"
    case Npm => "npm"
    case Cargo => "cargo"
    case Hex => "hex"
    case Maven => "maven"
    case RubyGems => "gem"
    case NuGet => "nuget"
    case Pub => "pub"
    case Go => "golang"
    case Zig => "zig"
    case Swift => "swift"
  }

  lemma PurlTypeIsAscii(ecosystem: Ecosystem)
    ensures forall i | 0 <= i < |PurlType(ecosystem)| :: 'a' <= PurlType(ecosystem)[i] <= 'z'
  {
  }

  function TypeBytes(ecosystem: Ecosystem): seq<Byte> {
    PurlTypeIsAscii(ecosystem);
    Ascii(PurlType(ecosystem))
  }

  /** The namespace, for scoped npm names only, and the rest of the name. */
  function SplitName(ecosystem: Ecosystem, name: seq<Byte>): (Option<seq<Byte>>, seq<Byte>) {
    var slash := IndexOf(name, SLASH);
    if slash.Some? && ecosystem == Npm && slash.value > 0 && name[0] == AT
    then (Some(name[..slash.value]), name[slash.value + 1..])
    else (None, name)
  }

  function Escaped(s: seq<Byte>): seq<Byte> {
    Encode(s, Unreserved())
  }

  function PathText(namespace: Option<seq<Byte>>, bareName: seq<Byte>): seq<Byte> {
    (if namespace.Some? then [SLASH] + Escaped(namespace.value) else []) + ([SLASH] + Escaped(bareName))
  }

  function VersionText(version: Option<seq<Byte>>): seq<Byte> {
    if version.Some? then [AT] + Escaped(version.value) else []
  }

  function PurlOf(ecosystem: Ecosystem, name: seq<Byte>, version: Option<seq<Byte>>): seq<Byte> {
    var (namespace, bareName) := SplitName(ecosystem, name);
    Ascii("pkg:") + (TypeBytes(ecosystem) + (PathText(namespace, bareName) + VersionText(version)))
  }

  lemma PushPath(head: seq<Byte>, namespace: Option<seq<Byte>>, bareName: seq<Byte>)
    ensures head + PathText(namespace, bareName)
            == (if namespace.Some? then head + [SLASH] + Escaped(namespace.value) else head) + [SLASH]
              + Escaped(bareName)
  {
  }

  lemma PushVersion(head: seq<Byte>, version: Option<seq<Byte>>)
    ensures head + VersionText(version) == if version.Some? then head + [AT] + Escaped(version.value) else head
  {
  }

  lemma PushAll(scheme: seq<Byte>, kind: seq<Byte>, path: seq<Byte>, version: seq<Byte>)
    ensures scheme + (kind + (path + version)) == scheme + kind + path + version
  {
  }

  /** Pushes the parts onto the URL one after the other. */
  method BuildPurl(ecosystem: Ecosystem, name: seq<Byte>, version: Option<seq<Byte>>) returns (purl: seq<Byte>)
    ensures purl == PurlOf(ecosystem, name, version)
  {
    purl := Ascii("pkg:") + TypeBytes(ecosystem);
    ghost var head := purl;
    var (namespace, bareName) := SplitName(ecosystem, name);
    if namespace.Some? {
      purl := purl + [SLASH];
      var encoded := EncodeSegment(namespace.value, Unreserved());
      purl := purl + encoded;
    }
    purl := purl + [SLASH];
    var encoded := EncodeSegment(bareName, Unreserved());
    purl := purl + encoded;
    PushPath(head, namespace, bareName);
    PushVersion(purl, version);
    if version.Some? {
      purl := purl + [AT];
      encoded := EncodeSegment(version.value, Unreserved());
      purl := purl + encoded;
    }
    PushAll(Ascii("pkg:"), TypeBytes(ecosystem), PathText(namespace, bareName), VersionText(version));
  }

  // ---------------------------------------------------------------------------
  // Reading a package URL back
  // ---------------------------------------------------------------------------

  /** Neither of the two bytes that delimit parts. */
  predicate IsPart(s: seq<Byte>) {
    SLASH !in s && AT !in s
  }

  lemma EscapedIsPart(s: seq<Byte>)
    ensures IsPart(Escaped(s))
  {
    EncodedAlphabet(s, Unreserved());
    assert !Unreserved()(SLASH) && !Unreserved()(AT);
  }

  lemma EscapedInjective(s: seq<Byte>, t: seq<Byte>)
    requires Escaped(s) == Escaped(t)
    ensures s == t
  {
    assert !Unreserved()(PERCENT);
    EncodeInjective(s, t, Unreserved());
  }

  lemma TypeIsPart(ecosystem: Ecosystem)
    ensures IsPart(TypeBytes(ecosystem))
  {
    PurlTypeIsAscii(ecosystem);
    var name, bytes := PurlType(ecosystem), TypeBytes(ecosystem);
    forall i | 0 <= i < |bytes| ensures bytes[i] != SLASH && bytes[i] != AT {
      assert bytes[i] == name[i] as int;
    }
  }

  /** Where two texts begin with runs free of a delimiter that then ends both or stops both, the runs agree. */
  lemma RunsAgree(a: seq<Byte>, rest: seq<Byte>, b: seq<Byte>, more: seq<Byte>, delimiter: Byte)
    requires delimiter !in a && delimiter !in b
    requires rest == [] || rest[0] == delimiter
    requires more == [] || more[0] == delimiter
    requires a + rest == b + more
    ensures a == b && rest == more
  {
    IndexAfterRun(a, delimiter, rest);
    IndexAfterRun(b, delimiter, more);
    assert (a + rest)[..|a|] == a && (b + more)[..|b|] == b;
    assert (a + rest)[|a|..] == rest && (b + more)[|b|..] == more;
  }

  lemma PathHasNoAt(namespace: Option<seq<Byte>>, bareName: seq<Byte>)
    ensures AT !in PathText(namespace, bareName)
  {
    EscapedIsPart(bareName);
    if namespace.Some? {
      EscapedIsPart(namespace.value);
    }
  }

  lemma VersionTextInjective(v: Option<seq<Byte>>, w: Option<seq<Byte>>)
    requires VersionText(v) == VersionText(w)
    ensures v == w
  {
    if v.Some? && w.Some? {
      assert VersionText(v)[1..] == Escaped(v.value) && VersionText(w)[1..] == Escaped(w.value);
      EscapedInjective(v.value, w.value);
    }
  }

  /** How many segments a path has shows whether there is a namespace. */
  lemma PathInjective(n: Option<seq<Byte>>, a: seq<Byte>, m: Option<seq<Byte>>, b: seq<Byte>)
    requires PathText(n, a) == PathText(m, b)
    ensures n == m && a == b
  {
    PathTail(n, a);
    PathTail(m, b);
    EscapedIsPart(a);
    EscapedIsPart(b);
    var s := PathText(n, a)[1..];
    if n.Some? {
      EscapedIsPart(n.value);
    }
    if m.Some? {
      EscapedIsPart(m.value);
    }
    RunsAgree(if n.Some? then Escaped(n.value) else Escaped(a), if n.Some? then [SLASH] + Escaped(a) else [],
              if m.Some? then Escaped(m.value) else Escaped(b), if m.Some? then [SLASH] + Escaped(b) else [], SLASH);
    if n.Some? {
      EscapedInjective(n.value, m.value);
      assert ([SLASH] + Escaped(a))[1..] == Escaped(a) && ([SLASH] + Escaped(b))[1..] == Escaped(b);
    }
    EscapedInjective(a, b);
  }

  lemma PathTail(n: Option<seq<Byte>>, a: seq<Byte>)
    ensures PathText(n, a) != [] && PathText(n, a)[0] == SLASH
    ensures PathText(n, a)[1..]
            == (if n.Some? then Escaped(n.value) else Escaped(a)) + (if n.Some? then [SLASH] + Escaped(a) else [])
  {
  }

  lemma SplitNameInjective(ecosystem: Ecosystem, a: seq<Byte>, b: seq<Byte>)
    requires SplitName(ecosystem, a) == SplitName(ecosystem, b)
    ensures a == b
  {
    var slash := IndexOf(a, SLASH);
    if SplitName(ecosystem, a).0.Some? {
      assert a == a[..slash.value] + [SLASH] + a[slash.value + 1..];
      var other := IndexOf(b, SLASH);
      assert b == b[..other.value] + [SLASH] + b[other.value + 1..];
    }
  }

  /** The inverse of `PurlType`. */
  function EcosystemOfType(name: string): Ecosystem {
    if name == "gem" then RubyGems
    else if name == "golang" then Go
    else EcosystemOf(name)
  }

  lemma PurlTypesDistinct(a: Ecosystem, b: Ecosystem)
    requires PurlType(a) == PurlType(b)
    ensures a == b
  {
    assert EcosystemOfType(PurlType(a)) == a;
    assert EcosystemOfType(PurlType(b)) == b;
  }

  /** No two coordinates have the same package URL: scoped npm names, names with slashes or `@`, empty names
    * and versions, and missing versions included. */
  lemma PurlsAreUnique(e: Ecosystem, name: seq<Byte>, version: Option<seq<Byte>>,
                       f: Ecosystem, other: seq<Byte>, otherVersion: Option<seq<Byte>>)
    requires PurlOf(e, name, version) == PurlOf(f, other, otherVersion)
    ensures e == f && name == other && version == otherVersion
  {
    var (n, a) := SplitName(e, name);
    var (m, b) := SplitName(f, other);
    var path, otherPath := PathText(n, a), PathText(m, b);
    assert PurlOf(e, name, version)[4..] == TypeBytes(e) + (path + VersionText(version));
    assert PurlOf(f, other, otherVersion)[4..] == TypeBytes(f) + (otherPath + VersionText(otherVersion));
    TypeIsPart(e);
    TypeIsPart(f);
    PathTail(n, a);
    PathTail(m, b);
    RunsAgree(TypeBytes(e), path + VersionText(version), TypeBytes(f), otherPath + VersionText(otherVersion), SLASH);
    PathHasNoAt(n, a);
    PathHasNoAt(m, b);
    RunsAgree(path, VersionText(version), otherPath, VersionText(otherVersion), AT);
    VersionTextInjective(version, otherVersion);
    PathInjective(n, a, m, b);
    PurlTypeIsAscii(e);
    PurlTypeIsAscii(f);
    AsciiInjective(PurlType(e), PurlType(f));
    PurlTypesDistinct(e, f);
    SplitNameInjective(e, name, other);
  }
}
