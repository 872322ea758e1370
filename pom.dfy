/**
 * The one-version object model of a Maven POM: coordinates, licenses, dependencies
 * with their scopes, profiles, resolved versions kept in an arena, and the registry
 * lookup that turns a coordinate into a resolved version.
 */
module Pom {
  import opened Wrappers

  /** A (groupId, artifactId, version) reference; exclusions carry an empty version. */
  datatype Coordinate = Coordinate(groupId: string, artifactId: string, version: string)

  datatype License = License(name: Option<string>, url: Option<string>)

  datatype Scope = Compile | Runtime | Provided | Test | System | Import

  /** The name of the Java enum constant for each scope. */
  function ScopeName(s: Scope): string {
    match s
    case Compile => "COMPILE"
    case Runtime => "RUNTIME"
    case Provided => "PROVIDED"
    case Test => "TEST"
    case System => "SYSTEM"
    case Import => "IMPORT"
  }

  function UpperChar(c: char): char {
    if 'a' <= c <= 'z' then (c as int - 32) as char else c
  }

  function LowerChar(c: char): char {
    if 'A' <= c <= 'Z' then (c as int + 32) as char else c
  }

  /** Upper-casing of the ASCII letters; every other character is kept. */
  function UpperAscii(s: string): (r: string)
    ensures |r| == |s|
    ensures forall k :: 0 <= k < |s| ==> r[k] == UpperChar(s[k])
  {
    seq(|s|, k requires 0 <= k < |s| => UpperChar(s[k]))
  }

  function LowerAscii(s: string): (r: string)
    ensures |r| == |s|
    ensures forall k :: 0 <= k < |s| ==> r[k] == LowerChar(s[k])
  {
    seq(|s|, k requires 0 <= k < |s| => LowerChar(s[k]))
  }

  /**
   * Scope.valueOf(text.toUpperCase(Locale.ENGLISH)): the scope whose constant name
   * equals the upper-cased text, or none (valueOf then throws).
   */
  function ParseScope(text: string): (r: Option<Scope>)
    ensures r.Some? ==> ScopeName(r.value) == UpperAscii(text)
    ensures r.None? ==> forall s: Scope :: ScopeName(s) != UpperAscii(text)
  {
    var u := UpperAscii(text);
    if u == "COMPILE" then Some(Compile)
    else if u == "RUNTIME" then Some(Runtime)
    else if u == "PROVIDED" then Some(Provided)
    else if u == "TEST" then Some(Test)
    else if u == "SYSTEM" then Some(System)
    else if u == "IMPORT" then Some(Import)
    else None
  }

  /** Scope parsing is case-insensitive: every scope's name, in upper or lower case, parses back to it. */
  lemma ParseScopeRoundTrip(s: Scope)
    ensures ParseScope(ScopeName(s)) == Some(s)
    ensures ParseScope(LowerAscii(ScopeName(s))) == Some(s)
  {
    var n := ScopeName(s);
    assert UpperAscii(n) == n;
    assert UpperAscii(LowerAscii(n)) == n;
  }

  /** includesScope: the scopes that reach the runtime dependency set. */
  predicate IncludesScope(s: Scope) {
    s == Compile || s == Runtime
  }

  /** Boolean.parseBoolean: the text "true" in any letter case. */
  predicate ParseBoolean(s: string) {
    LowerAscii(s) == "true"
  }

  /** CommonUtils.getBoolean(text, default): the default for absent or empty text. */
  predicate GetBoolean(s: Option<string>, default: bool) {
    if s.None? || s.value == [] then default else ParseBoolean(s.value)
  }

  datatype Dependency = Dependency(
    groupId: string,
    artifactId: string,
    version: string,
    scope: Scope,
    optional: bool,
    exclusions: seq<Coordinate>)

  /** A profile: its id, whether it is active, and what its parse filled in. */
  datatype Profile = Profile(
    id: Option<string>,
    active: bool,
    properties: map<string, Option<string>>,
    dependencyManagement: seq<Dependency>,
    dependencies: seq<Dependency>)

  const RootProfileId := "#root"

  /** A freshly constructed profile: inactive, with nothing parsed yet. */
  function NewProfile(id: Option<string>): Profile {
    Profile(id, false, map[], [], [])
  }

  /** Index of a resolved version in the arena. */
  type VersionId = nat

  /**
   * The state of one resolved version. `groupId` and `artifactId` are those of the
   * owning artifact; `imports` holds one entry per BOM import, none where the BOM
   * did not resolve.
   */
  datatype VersionNode = VersionNode(
    groupId: string,
    artifactId: string,
    name: Option<string>,
    url: Option<string>,
    version: Option<string>,
    description: Option<string>,
    parent: Option<VersionId>,
    imports: seq<Option<VersionId>>,
    licenses: seq<License>,
    profiles: seq<Profile>)

  /** Every import entry of the list that is present points below `rank`. */
  predicate ImportsBelow(imports: seq<Option<VersionId>>, rank: nat) {
    forall k :: 0 <= k < |imports| && imports[k].Some? ==> imports[k].value < rank
  }

  /** The parent and every present import of `node` point below `rank`. */
  predicate LinksBelow(node: VersionNode, rank: nat) {
    (node.parent.Some? ==> node.parent.value < rank) && ImportsBelow(node.imports, rank)
  }

  /**
   * The arena of resolved versions: each version's parent and imports were resolved
   * (and so registered) before it, which rules out parent and import cycles.
   */
  predicate ArenaValid(arena: seq<VersionNode>) {
    forall i :: 0 <= i < |arena| ==> LinksBelow(arena[i], i)
  }

  /** The registry: the resolved versions and the lookup from a coordinate to one of them. */
  datatype Registry = Registry(arena: seq<VersionNode>, index: map<Coordinate, VersionId>) {
    predicate Valid() {
      ArenaValid(arena) && forall c :: c in index ==> index[c] < |arena|
    }

    /** findArtifact: the resolved version of a coordinate, or none when it cannot be resolved. */
    function FindArtifact(c: Coordinate): (r: Option<VersionId>)
      requires Valid()
      ensures r.Some? <==> c in index
      ensures r.Some? ==> r.value < |arena|
    {
      if c in index then Some(index[c]) else None
    }
  }
}
