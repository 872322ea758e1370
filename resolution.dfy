/**
 * Read-only queries over the resolved version graph: dependency-management version
 * lookup (own active profiles, then BOM imports, then the parent), property lookup
 * along the parent chain, and the flattened dependency list.
 *
 * Arena versions are addressed by index; a version at index `i` is queried with rank
 * `i`, and the version still under construction with rank `|arena|`. Every link
 * points below its version's rank, so each recursive call lowers the rank.
 */
module Resolution {
  import opened Wrappers
  import opened Pom

  // ---------------------------------------------------------------------------
  // Dependency-management version lookup
  // ---------------------------------------------------------------------------

  /** The result of findDependencyVersion: a version, null, or the NullPointerException of a null import. */
  datatype Lookup = Found(version: string) | Missing | NullImport

  predicate Matches(d: Dependency, groupId: string, artifactId: string) {
    d.groupId == groupId && d.artifactId == artifactId
  }

  function AsLookup(o: Option<string>): Lookup {
    match o
    case Some(v) => Found(v)
    case None => Missing
  }

  /** The version of the first entry of `deps` with the queried identity. */
  function FirstManaged(deps: seq<Dependency>, groupId: string, artifactId: string): Option<string> {
    if deps == [] then None
    else if Matches(deps[0], groupId, artifactId) then Some(deps[0].version)
    else FirstManaged(deps[1..], groupId, artifactId)
  }

  /** The first match in the dependency management of the active profiles, in profile order. */
  function ManagedVersion(profiles: seq<Profile>, groupId: string, artifactId: string): Option<string> {
    if profiles == [] then None
    else
      var own := if profiles[0].active then FirstManaged(profiles[0].dependencyManagement, groupId, artifactId) else None;
      if own.Some? then own else ManagedVersion(profiles[1..], groupId, artifactId)
  }

  /**
   * findDependencyVersion: own active profiles first, then each import in order
   * (searched the same way), then the parent. A null import that the search
   * reaches is dereferenced, which the model reports as NullImport.
   */
  function FindDependencyVersion(arena: seq<VersionNode>, node: VersionNode, rank: nat, groupId: string, artifactId: string): Lookup
    requires ArenaValid(arena) && rank <= |arena| && LinksBelow(node, rank)
    decreases rank, 1
  {
    var own := ManagedVersion(node.profiles, groupId, artifactId);
    if own.Some? then Found(own.value)
    else
      var imported := FindInImports(arena, node.imports, rank, groupId, artifactId);
      if !imported.Missing? then imported
      else if node.parent.None? then Missing
      else FindDependencyVersion(arena, arena[node.parent.value], node.parent.value, groupId, artifactId)
  }

  function FindInImports(arena: seq<VersionNode>, imports: seq<Option<VersionId>>, rank: nat, groupId: string, artifactId: string): Lookup
    requires ArenaValid(arena) && rank <= |arena| && ImportsBelow(imports, rank)
    decreases rank, 0, |imports|
  {
    if imports == [] then Missing
    else match imports[0]
      case None => NullImport
      case Some(id) =>
        var r := FindDependencyVersion(arena, arena[id], id, groupId, artifactId);
        if !r.Missing? then r else FindInImports(arena, imports[1..], rank, groupId, artifactId)
  }

  /** One step of the depth-first management search: an entry, or a null import. */
  datatype Entry = Managed(dep: Dependency) | Hole

  function Entries(deps: seq<Dependency>): (r: seq<Entry>)
    ensures |r| == |deps|
    ensures forall k :: 0 <= k < |deps| ==> r[k] == Managed(deps[k])
  {
    seq(|deps|, k requires 0 <= k < |deps| => Managed(deps[k]))
  }

  /** The management entries of the active profiles, in profile order. */
  function OwnManagement(profiles: seq<Profile>): seq<Entry> {
    if profiles == [] then []
    else (if profiles[0].active then Entries(profiles[0].dependencyManagement) else []) + OwnManagement(profiles[1..])
  }

  /**
   * The whole depth-first search order as one flat list: own active management
   * entries, then each import's order (a hole for a null import), then the parent's.
   */
  function ManagementOrder(arena: seq<VersionNode>, node: VersionNode, rank: nat): seq<Entry>
    requires ArenaValid(arena) && rank <= |arena| && LinksBelow(node, rank)
    decreases rank, 1
  {
    OwnManagement(node.profiles)
    + ImportsOrder(arena, node.imports, rank)
    + (if node.parent.None? then [] else ManagementOrder(arena, arena[node.parent.value], node.parent.value))
  }

  function ImportsOrder(arena: seq<VersionNode>, imports: seq<Option<VersionId>>, rank: nat): seq<Entry>
    requires ArenaValid(arena) && rank <= |arena| && ImportsBelow(imports, rank)
    decreases rank, 0, |imports|
  {
    if imports == [] then []
    else
      (match imports[0]
       case None => [Hole]
       case Some(id) => ManagementOrder(arena, arena[id], id))
      + ImportsOrder(arena, imports[1..], rank)
  }

  /** Scan a flat list for the first entry with the queried identity; a hole aborts the scan. */
  function FirstMatch(es: seq<Entry>, groupId: string, artifactId: string): Lookup {
    if es == [] then Missing
    else match es[0]
      case Hole => NullImport
      case Managed(d) => if Matches(d, groupId, artifactId) then Found(d.version) else FirstMatch(es[1..], groupId, artifactId)
  }

  lemma {:induction false} FirstMatchAppend(xs: seq<Entry>, ys: seq<Entry>, groupId: string, artifactId: string)
    ensures FirstMatch(xs + ys, groupId, artifactId)
         == if FirstMatch(xs, groupId, artifactId).Missing? then FirstMatch(ys, groupId, artifactId) else FirstMatch(xs, groupId, artifactId)
  {
    if xs != [] {
      assert (xs + ys)[1..] == xs[1..] + ys;
      FirstMatchAppend(xs[1..], ys, groupId, artifactId);
    } else {
      assert xs + ys == ys;
    }
  }

  lemma {:induction false} FirstManagedIsFirstMatch(deps: seq<Dependency>, groupId: string, artifactId: string)
    ensures FirstMatch(Entries(deps), groupId, artifactId) == AsLookup(FirstManaged(deps, groupId, artifactId))
  {
    if deps != [] {
      assert Entries(deps)[1..] == Entries(deps[1..]);
      FirstManagedIsFirstMatch(deps[1..], groupId, artifactId);
    }
  }

  lemma {:induction false} ManagedVersionIsFirstMatch(profiles: seq<Profile>, groupId: string, artifactId: string)
    ensures FirstMatch(OwnManagement(profiles), groupId, artifactId) == AsLookup(ManagedVersion(profiles, groupId, artifactId))
  {
    if profiles != [] {
      var head := if profiles[0].active then Entries(profiles[0].dependencyManagement) else [];
      FirstMatchAppend(head, OwnManagement(profiles[1..]), groupId, artifactId);
      if profiles[0].active {
        FirstManagedIsFirstMatch(profiles[0].dependencyManagement, groupId, artifactId);
      }
      ManagedVersionIsFirstMatch(profiles[1..], groupId, artifactId);
    }
  }

  /** findDependencyVersion is the first match over the flattened depth-first search order. */
  lemma {:induction false} FindDependencyVersionIsFirstMatch(arena: seq<VersionNode>, node: VersionNode, rank: nat, groupId: string, artifactId: string)
    requires ArenaValid(arena) && rank <= |arena| && LinksBelow(node, rank)
    ensures FindDependencyVersion(arena, node, rank, groupId, artifactId)
         == FirstMatch(ManagementOrder(arena, node, rank), groupId, artifactId)
    decreases rank, 1
  {
    var own := OwnManagement(node.profiles);
    var imps := ImportsOrder(arena, node.imports, rank);
    var up := if node.parent.None? then [] else ManagementOrder(arena, arena[node.parent.value], node.parent.value);
    assert ManagementOrder(arena, node, rank) == own + imps + up;
    assert own + imps + up == own + (imps + up);
    ManagedVersionIsFirstMatch(node.profiles, groupId, artifactId);
    FirstMatchAppend(own, imps + up, groupId, artifactId);
    FindInImportsIsFirstMatch(arena, node.imports, rank, groupId, artifactId);
    FirstMatchAppend(imps, up, groupId, artifactId);
    if node.parent.Some? {
      FindDependencyVersionIsFirstMatch(arena, arena[node.parent.value], node.parent.value, groupId, artifactId);
    }
  }

  lemma {:induction false} FindInImportsIsFirstMatch(arena: seq<VersionNode>, imports: seq<Option<VersionId>>, rank: nat, groupId: string, artifactId: string)
    requires ArenaValid(arena) && rank <= |arena| && ImportsBelow(imports, rank)
    ensures FindInImports(arena, imports, rank, groupId, artifactId)
         == FirstMatch(ImportsOrder(arena, imports, rank), groupId, artifactId)
    decreases rank, 0, |imports|
  {
    if imports != [] {
      var head := match imports[0] case None => [Hole] case Some(id) => ManagementOrder(arena, arena[id], id);
      assert ImportsBelow(imports[1..], rank) by {
        forall k | 0 <= k < |imports[1..]| && imports[1..][k].Some? ensures imports[1..][k].value < rank {
          assert imports[1..][k] == imports[k + 1];
        }
      }
      FirstMatchAppend(head, ImportsOrder(arena, imports[1..], rank), groupId, artifactId);
      if imports[0].Some? {
        FindDependencyVersionIsFirstMatch(arena, arena[imports[0].value], imports[0].value, groupId, artifactId);
      }
      FindInImportsIsFirstMatch(arena, imports[1..], rank, groupId, artifactId);
    }
  }

  /** The entry at `k` is the first one with the queried identity, and no hole precedes it. */
  predicate FirstMatchAt(es: seq<Entry>, k: int, groupId: string, artifactId: string) {
    && 0 <= k < |es| && es[k].Managed? && Matches(es[k].dep, groupId, artifactId)
    && forall j :: 0 <= j < k ==> es[j].Managed? && !Matches(es[j].dep, groupId, artifactId)
  }

  /**
   * The scan finds a version exactly when some entry is the first match, and then it
   * is that entry's version; it finds nothing exactly when no entry matches and no
   * hole occurs.
   */
  lemma {:induction false} FirstMatchMeaning(es: seq<Entry>, groupId: string, artifactId: string)
    ensures FirstMatch(es, groupId, artifactId).Found? <==> exists k :: FirstMatchAt(es, k, groupId, artifactId)
    ensures forall k :: FirstMatchAt(es, k, groupId, artifactId) ==> FirstMatch(es, groupId, artifactId) == Found(es[k].dep.version)
    ensures FirstMatch(es, groupId, artifactId) == Missing
        <==> forall k :: 0 <= k < |es| ==> es[k].Managed? && !Matches(es[k].dep, groupId, artifactId)
  {
    if es != [] {
      FirstMatchMeaning(es[1..], groupId, artifactId);
      forall k | 1 <= k < |es| ensures es[1..][k - 1] == es[k] { }
      if es[0].Managed? && Matches(es[0].dep, groupId, artifactId) {
        assert FirstMatchAt(es, 0, groupId, artifactId);
        forall k | FirstMatchAt(es, k, groupId, artifactId) ensures k == 0 { }
      } else if es[0].Managed? {
        forall k | FirstMatchAt(es[1..], k, groupId, artifactId) ensures FirstMatchAt(es, k + 1, groupId, artifactId) { }
        forall k | FirstMatchAt(es, k, groupId, artifactId) ensures FirstMatchAt(es[1..], k - 1, groupId, artifactId) {
          assert k != 0;
        }
      } else {
        forall k | FirstMatchAt(es, k, groupId, artifactId) ensures false { }
      }
    }
  }

  /**
   * findDependencyVersion returns the version of the first entry with the queried
   * identity in the depth-first order (own active profiles, imports in order, parent);
   * it returns none exactly when no entry anywhere in that order matches and no null
   * import is met on the way.
   */
  lemma FindDependencyVersionSpec(arena: seq<VersionNode>, node: VersionNode, rank: nat, groupId: string, artifactId: string)
    requires ArenaValid(arena) && rank <= |arena| && LinksBelow(node, rank)
    ensures var es := ManagementOrder(arena, node, rank);
      && (FindDependencyVersion(arena, node, rank, groupId, artifactId).Found? <==> exists k :: FirstMatchAt(es, k, groupId, artifactId))
      && (forall k :: FirstMatchAt(es, k, groupId, artifactId) ==>
            FindDependencyVersion(arena, node, rank, groupId, artifactId) == Found(es[k].dep.version))
      && (FindDependencyVersion(arena, node, rank, groupId, artifactId) == Missing
          <==> forall k :: 0 <= k < |es| ==> es[k].Managed? && !Matches(es[k].dep, groupId, artifactId))
  {
    FindDependencyVersionIsFirstMatch(arena, node, rank, groupId, artifactId);
    FirstMatchMeaning(ManagementOrder(arena, node, rank), groupId, artifactId);
  }

  // ---------------------------------------------------------------------------
  // The parent chain
  // ---------------------------------------------------------------------------

  /** The version itself followed by its parent, the parent's parent, and so on. */
  function AncestorChain(arena: seq<VersionNode>, node: VersionNode, rank: nat): (r: seq<VersionNode>)
    requires ArenaValid(arena) && rank <= |arena| && LinksBelow(node, rank)
    ensures |r| >= 1 && r[0] == node
    decreases rank
  {
    [node] + (if node.parent.None? then [] else AncestorChain(arena, arena[node.parent.value], node.parent.value))
  }

  /** The profiles of a list of versions, one version after another. */
  function ChainProfiles(nodes: seq<VersionNode>): seq<Profile> {
    if nodes == [] then [] else nodes[0].profiles + ChainProfiles(nodes[1..])
  }

  // ---------------------------------------------------------------------------
  // Property lookup
  // ---------------------------------------------------------------------------

  const ProjectVersion := "project.version"
  const ProjectGroupId := "project.groupId"
  const ProjectArtifactId := "project.artifactId"

  predicate IsBuiltin(name: string) {
    name == ProjectVersion || name == ProjectGroupId || name == ProjectArtifactId
  }

  /** The non-null value of the property in the first active profile that has one. */
  function ProfileProperty(profiles: seq<Profile>, name: string): Option<string> {
    if profiles == [] then None
    else if profiles[0].active && name in profiles[0].properties && profiles[0].properties[name].Some?
    then profiles[0].properties[name]
    else ProfileProperty(profiles[1..], name)
  }

  /** The walk from the version up through its parents, searching the active profiles at each. */
  function ChainProperty(arena: seq<VersionNode>, node: VersionNode, rank: nat, name: string): Option<string>
    requires ArenaValid(arena) && rank <= |arena| && LinksBelow(node, rank)
    decreases rank
  {
    var here := ProfileProperty(node.profiles, name);
    if here.Some? then here
    else if node.parent.None? then None
    else ChainProperty(arena, arena[node.parent.value], node.parent.value, name)
  }

  /** propertyResolver.get: the three built-ins, then the parent-chain walk. */
  function PropertyResolver(arena: seq<VersionNode>, node: VersionNode, rank: nat, name: string): Option<string>
    requires ArenaValid(arena) && rank <= |arena| && LinksBelow(node, rank)
  {
    if name == ProjectVersion then node.version
    else if name == ProjectGroupId then Some(node.groupId)
    else if name == ProjectArtifactId then Some(node.artifactId)
    else ChainProperty(arena, node, rank, name)
  }

  lemma {:induction false} ProfilePropertyAppend(xs: seq<Profile>, ys: seq<Profile>, name: string)
    ensures ProfileProperty(xs + ys, name) == if ProfileProperty(xs, name).Some? then ProfileProperty(xs, name) else ProfileProperty(ys, name)
  {
    if xs == [] {
      assert xs + ys == ys;
    } else {
      assert (xs + ys)[1..] == xs[1..] + ys;
      ProfilePropertyAppend(xs[1..], ys, name);
    }
  }

  /** Walking the chain node by node is the same as scanning all of its profiles as one list. */
  lemma {:induction false} ChainPropertyIsFlatScan(arena: seq<VersionNode>, node: VersionNode, rank: nat, name: string)
    requires ArenaValid(arena) && rank <= |arena| && LinksBelow(node, rank)
    ensures ChainProperty(arena, node, rank, name) == ProfileProperty(ChainProfiles(AncestorChain(arena, node, rank)), name)
    decreases rank
  {
    var chain := AncestorChain(arena, node, rank);
    assert chain[1..] == if node.parent.None? then [] else AncestorChain(arena, arena[node.parent.value], node.parent.value);
    ProfilePropertyAppend(node.profiles, ChainProfiles(chain[1..]), name);
    if node.parent.Some? {
      ChainPropertyIsFlatScan(arena, arena[node.parent.value], node.parent.value, name);
    }
  }

  /** A non-null value of the property in an active profile. */
  predicate HasProperty(p: Profile, name: string) {
    p.active && name in p.properties && p.properties[name].Some?
  }

  lemma {:induction false} ProfilePropertyMeaning(profiles: seq<Profile>, name: string)
    ensures ProfileProperty(profiles, name).None? <==> forall k :: 0 <= k < |profiles| ==> !HasProperty(profiles[k], name)
    ensures ProfileProperty(profiles, name).Some? ==>
      exists k :: 0 <= k < |profiles| && HasProperty(profiles[k], name)
               && profiles[k].properties[name] == ProfileProperty(profiles, name)
               && forall j :: 0 <= j < k ==> !HasProperty(profiles[j], name)
  {
    if profiles != [] {
      ProfilePropertyMeaning(profiles[1..], name);
      if HasProperty(profiles[0], name) {
        assert 0 < |profiles| && HasProperty(profiles[0], name);
      } else {
        assert forall k :: 1 <= k < |profiles| ==> profiles[k] == profiles[1..][k - 1];
        if ProfileProperty(profiles, name).Some? {
          var k :| 0 <= k < |profiles[1..]| && HasProperty(profiles[1..][k], name)
                 && profiles[1..][k].properties[name] == ProfileProperty(profiles[1..], name)
                 && forall j :: 0 <= j < k ==> !HasProperty(profiles[1..][j], name);
          assert HasProperty(profiles[k + 1], name);
        }
      }
    }
  }

  /**
   * propertyResolver.get: the built-ins answer from the version's own fields; any
   * other name gets the first non-null value found in the active profiles of the
   * version, then of its parents in order, and none (not an error) when no profile
   * in the chain has one.
   */
  lemma PropertyResolverSpec(arena: seq<VersionNode>, node: VersionNode, rank: nat, name: string)
    requires ArenaValid(arena) && rank <= |arena| && LinksBelow(node, rank)
    ensures name == ProjectVersion ==> PropertyResolver(arena, node, rank, name) == node.version
    ensures name == ProjectGroupId ==> PropertyResolver(arena, node, rank, name) == Some(node.groupId)
    ensures name == ProjectArtifactId ==> PropertyResolver(arena, node, rank, name) == Some(node.artifactId)
    ensures var ps := ChainProfiles(AncestorChain(arena, node, rank));
      !IsBuiltin(name) ==>
        && PropertyResolver(arena, node, rank, name) == ProfileProperty(ps, name)
        && (PropertyResolver(arena, node, rank, name).None? <==> forall k :: 0 <= k < |ps| ==> !HasProperty(ps[k], name))
  {
    ChainPropertyIsFlatScan(arena, node, rank, name);
    ProfilePropertyMeaning(ChainProfiles(AncestorChain(arena, node, rank)), name);
  }

  // ---------------------------------------------------------------------------
  // Aggregated dependencies
  // ---------------------------------------------------------------------------

  /** The dependencies of the active profiles, in profile order. */
  function OwnDependencies(profiles: seq<Profile>): seq<Dependency> {
    if profiles == [] then []
    else (if profiles[0].active then profiles[0].dependencies else []) + OwnDependencies(profiles[1..])
  }

  /** getDependencies: own active-profile dependencies, then the parent's whole list; no deduplication. */
  function GetDependencies(arena: seq<VersionNode>, node: VersionNode, rank: nat): seq<Dependency>
    requires ArenaValid(arena) && rank <= |arena| && LinksBelow(node, rank)
    decreases rank
  {
    OwnDependencies(node.profiles)
    + (if node.parent.None? then [] else GetDependencies(arena, arena[node.parent.value], node.parent.value))
  }

  /** The number of dependencies held by the active profiles. */
  function ActiveDependencyCount(profiles: seq<Profile>): nat {
    if profiles == [] then 0
    else (if profiles[0].active then |profiles[0].dependencies| else 0) + ActiveDependencyCount(profiles[1..])
  }

  /** The own dependencies of each version of a list, one version after another. */
  function ChainDependencies(nodes: seq<VersionNode>): seq<Dependency> {
    if nodes == [] then [] else OwnDependencies(nodes[0].profiles) + ChainDependencies(nodes[1..])
  }

  function ChainDependencyCount(nodes: seq<VersionNode>): nat {
    if nodes == [] then 0 else ActiveDependencyCount(nodes[0].profiles) + ChainDependencyCount(nodes[1..])
  }

  lemma {:induction false} OwnDependenciesLength(profiles: seq<Profile>)
    ensures |OwnDependencies(profiles)| == ActiveDependencyCount(profiles)
  {
    if profiles != [] {
      OwnDependenciesLength(profiles[1..]);
    }
  }

  /**
   * getDependencies is the concatenation of the own dependencies of the version and
   * of each of its ancestors, in chain order, and its length is the sum of the
   * active profiles' dependency counts along the chain (nothing is merged).
   */
  lemma {:induction false} GetDependenciesIsChainConcat(arena: seq<VersionNode>, node: VersionNode, rank: nat)
    requires ArenaValid(arena) && rank <= |arena| && LinksBelow(node, rank)
    ensures GetDependencies(arena, node, rank) == ChainDependencies(AncestorChain(arena, node, rank))
    ensures |GetDependencies(arena, node, rank)| == ChainDependencyCount(AncestorChain(arena, node, rank))
    decreases rank
  {
    var chain := AncestorChain(arena, node, rank);
    OwnDependenciesLength(node.profiles);
    if node.parent.Some? {
      assert chain[1..] == AncestorChain(arena, arena[node.parent.value], node.parent.value);
      GetDependenciesIsChainConcat(arena, arena[node.parent.value], node.parent.value);
    } else {
      assert chain[1..] == [];
    }
  }

  /**
   * The own dependencies come first and the parent's list follows unchanged; a
   * version with no parent returns only its own; a dependency declared both by the
   * version and by its parent's list appears at least twice.
   */
  lemma GetDependenciesLayout(arena: seq<VersionNode>, node: VersionNode, rank: nat, d: Dependency)
    requires ArenaValid(arena) && rank <= |arena| && LinksBelow(node, rank)
    ensures var all := GetDependencies(arena, node, rank);
            var own := OwnDependencies(node.profiles);
      && |own| <= |all| && all[..|own|] == own
      && (node.parent.None? ==> all == own)
      && (node.parent.Some? ==> all[|own|..] == GetDependencies(arena, arena[node.parent.value], node.parent.value))
      && (node.parent.Some? && d in own && d in GetDependencies(arena, arena[node.parent.value], node.parent.value)
          ==> multiset(all)[d] >= 2)
  {
    var all := GetDependencies(arena, node, rank);
    var own := OwnDependencies(node.profiles);
    if node.parent.Some? {
      var up := GetDependencies(arena, arena[node.parent.value], node.parent.value);
      assert all == own + up;
      assert multiset(all) == multiset(own) + multiset(up);
    }
  }
}
