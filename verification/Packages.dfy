/** The package ecosystems and the name each one is stored under. */
module Packages {

  datatype Ecosystem = PyPI | Npm | Cargo | Hex | Maven | RubyGems | NuGet | Pub | Go | Zig | Swift

  /** The canonical lower-case ecosystem name. */
  function EcosystemName(ecosystem: Ecosystem): string {
    match ecosystem
    case PyPI => "pypi"
    case Npm => "npm"
    case Cargo => "cargo"
    case Hex => "hex"
    case Maven => "maven"
    case RubyGems => "rubygems"
    case NuGet => "nuget"
    case Pub => "pub"
    case Go => "go"
    case Zig => "zig"
    case Swift => "swift"
  }

  /** Reads a canonical ecosystem name back. */
  function EcosystemOf(name: string): Ecosystem {
    if name == "pypi" then PyPI
    else if name == "npm" then Npm
    else if name == "cargo" then Cargo
    else if name == "hex" then Hex
    else if name == "maven" then Maven
    else if name == "rubygems" then RubyGems
    else if name == "nuget" then NuGet
    else if name == "pub" then Pub
    else if name == "go" then Go
    else if name == "zig" then Zig
    else Swift
  }

  lemma EcosystemNamesDistinct(a: Ecosystem, b: Ecosystem)
    requires EcosystemName(a) == EcosystemName(b)
    ensures a == b
  {
    assert EcosystemOf(EcosystemName(a)) == a;
    assert EcosystemOf(EcosystemName(b)) == b;
  }
}
