/**
 * The artifact version object itself: the fields that loadPOM, parseProfile and
 * parseDependencies fill in step by step, and those three operations written as
 * methods over the fields. Each method is proved to leave exactly the state that
 * the corresponding function of module Parsing describes.
 */
module Loader {
  import opened Wrappers
  import opened Xml
  import opened Pom
  import opened Resolution
  import opened Parsing

  /**
   * The activation block of parseProfile, rule after rule: activeByDefault, then
   * jdk, then os (which does nothing), then a negated property, each overwriting
   * the flag when it applies.
   */
  method Activate(jdkMatches: string -> bool, element: Element, initial: bool) returns (active: bool)
    ensures active == LastRuleWins(initial, ActivationRules(jdkMatches, element))
  {
    active := initial;
    var activation := ChildElement(element, "activation");
    if activation.Some? {
      var act := activation.value;
      var byDefault := ChildElementBody(act, "activeByDefault");
      if !IsEmpty(byDefault) {
        active := ParseBoolean(byDefault.value);
      }
      var jdk := ChildElementBody(act, "jdk");
      if !IsEmpty(jdk) {
        active := jdkMatches(jdk.value);
      }
      var prop := ChildElement(act, "property");
      if prop.Some? {
        var propName := ChildElementBody(prop.value, "name");
        if propName.Some? && "!" <= propName.value {
          active := true;
        }
      }
    }
    ActivationPrecedence(jdkMatches, element, initial);
  }

  /** One resolved version of an artifact, as it is filled in while its POM is read. */
  class ArtifactVersion {
    const env: Env
    const groupId: string
    const artifactId: string
    var name: Option<string>
    var url: Option<string>
    var version: Option<string>
    var description: Option<string>
    var parent: Option<VersionId>
    var imports: seq<Option<VersionId>>
    var licenses: seq<License>
    var profiles: seq<Profile>

    /** The fields as one value. */
    function Node(): VersionNode
      reads this
    {
      VersionNode(groupId, artifactId, name, url, version, description, parent, imports, licenses, profiles)
    }

    /** The parent and every resolved import are versions the registry already holds. */
    predicate Valid()
      reads this
    {
      Building(env, Node())
    }

    /** The constructor up to the call of loadPOM: the artifact's identity and the requested version. */
    constructor (env: Env, groupId: string, artifactId: string, version: string)
      requires env.Valid()
      ensures Valid() && this.env == env
      ensures Node() == Unloaded(groupId, artifactId, version)
    {
      this.env := env;
      this.groupId := groupId;
      this.artifactId := artifactId;
      this.version := Some(version);
      name, url, description := None, None, None;
      parent := None;
      imports := [];
      licenses := [];
      profiles := [];
    }

    /**
     * One iteration of the loop of parseDependencies, up to what it does with the
     * entry: drop it, keep a dependency, add an import, or throw.
     */
    method ReadDependency(dep: Element, dm: bool) returns (e: EntryResult)
      requires Valid()
      ensures e == ParseEntry(env, Node(), dep, dm)
    {
      var node := Node();
      var groupId := Evaluate(env, node, ChildElementBody(dep, "groupId"));
      var artifactId := Evaluate(env, node, ChildElementBody(dep, "artifactId"));
      if groupId.None? || artifactId.None? {
        return Skip;
      }
      var scope := Compile;
      var scopeName := ChildElementBody(dep, "scope");
      if !IsEmpty(scopeName) {
        var parsed := ParseScope(scopeName.value);
        if parsed.None? {
          return Fail(InvalidScope(scopeName.value));
        }
        scope := parsed.value;
      }
      var optional := GetBoolean(ChildElementBody(dep, "optional"), false);
      var version := Evaluate(env, node, ChildElementBody(dep, "version"));
      if dm && scope == Import {
        if version.None? {
          return Skip;
        }
        var importedVersion := env.registry.FindArtifact(Coordinate(groupId.value, artifactId.value, version.value));
        return AddImport(importedVersion);
      } else if dm || (!optional && IncludesScope(scope)) {
        var resolved: string;
        if version.Some? {
          resolved := version.value;
        } else {
          match FindDependencyVersion(env.registry.arena, node, |env.registry.arena|, groupId.value, artifactId.value)
          case NullImport =>
            return Fail(NullImportDereference);
          case Missing =>
            return Skip;
          case Found(v) =>
            resolved := v;
        }
        var exclusions: seq<Coordinate> := [];
        if !dm {
          var exclusionsElement := ChildElement(dep, "exclusions");
          if exclusionsElement.Some? {
            var xs := ChildElementList(exclusionsElement.value, "exclusion");
            for j := 0 to |xs|
              invariant |exclusions| == j
              invariant forall k :: 0 <= k < j ==> exclusions[k] == ExclusionOf(xs[k])
            {
              exclusions := exclusions + [Coordinate(
                NotEmpty(ChildElementBody(xs[j], "groupId")),
                NotEmpty(ChildElementBody(xs[j], "artifactId")),
                "")];
            }
          }
          assert exclusions == ExclusionsOf(dep);
        }
        return Keep(Dependency(
          Evaluate(env, node, groupId).value,
          Evaluate(env, node, artifactId).value,
          Evaluate(env, node, Some(resolved)).value,
          scope, optional, exclusions));
      }
      return Skip;
    }

    /**
     * parseDependencies: the `<dependencies><dependency>` entries of `element`, read
     * in order; kept dependencies are returned, BOM imports of a management list
     * are appended to the imports, and the first entry that throws aborts.
     */
    method ParseDependencies(element: Element, dm: bool) returns (r: Result<seq<Dependency>, LoadError>)
      requires Valid()
      modifies this`imports
      ensures Valid()
      ensures var spec := ParseDependencyList(env, old(Node()), DependencyElements(element), dm);
        && (r.Ok? <==> spec.Ok?)
        && (spec.Ok? ==> r.value == spec.value.kept && imports == spec.value.imports)
        && (spec.Err? ==> r.error == spec.error)
    {
      ghost var start := Node();
      var result: seq<Dependency> := [];
      var dependenciesElement := ChildElement(element, "dependencies");
      if dependenciesElement.Some? {
        var deps := ChildElementList(dependenciesElement.value, "dependency");
        assert deps == DependencyElements(element);
        for i := 0 to |deps|
          invariant Node() == start.(imports := imports)
          invariant ParseDependencyList(env, start, deps[..i], dm) == Ok(Parsed(result, imports))
          invariant Valid()
        {
          ParseDependencyListStep(env, start, deps, i, dm);
          var e := ReadDependency(deps[i], dm);
          match e
          case Skip =>
          case Keep(d) =>
            result := result + [d];
          case AddImport(t) =>
            imports := imports + [t];
          case Fail(error) =>
            PrefixErrorPersists(env, start, deps[..i + 1], deps[i + 1..], dm);
            assert deps[..i + 1] + deps[i + 1..] == deps;
            return Err(error);
        }
        assert deps[..|deps|] == deps;
      }
      return Ok(result);
    }

    /**
     * parseProfile on the last profile: activation; an inactive profile stops
     * there; an active one gets its properties, its dependency management (when
     * present) and its dependencies.
     */
    method ParseProfile(element: Element) returns (err: Option<LoadError>)
      requires Valid() && |profiles| > 0
      modifies this
      ensures Outcome(err, Node()) == ParseProfileSpec(env, old(Node()), element)
    {
      ghost var start := Node();
      var last := |profiles| - 1;
      ghost var p := profiles[last];
      var active := Activate(env.jdkMatches, element, profiles[last].active);
      profiles := profiles[last := profiles[last].(active := active)];
      if !active {
        return None;
      }
      // Properties: every child of <properties>, in document order.
      var propsElement := ChildElement(element, "properties");
      if propsElement.Some? {
        var props := propsElement.value.children;
        for k := 0 to |props|
          invariant |profiles| == |start.profiles| && profiles[..last] == start.profiles[..last]
          invariant profiles[last] == p.(active := true, properties := PutAll(p.properties, props[..k]))
          invariant Node() == start.(profiles := profiles)
        {
          assert props[..k + 1][..k] == props[..k];
          profiles := profiles[last := profiles[last].(properties := profiles[last].properties[props[k].tag := props[k].body])];
        }
        assert props[..|props|] == props;
      }
      ghost var p1 := p.(active := true, properties := PutAll(p.properties, PropertyElements(element)));
      ghost var n1 := start.(profiles := start.profiles[last := p1]);
      assert Node() == n1;
      // Dependency management: may append BOM imports.
      var dmElement := ChildElement(element, "dependencyManagement");
      if dmElement.Some? {
        var managed := ParseDependencies(dmElement.value, true);
        if managed.Err? {
          return Some(managed.error);
        }
        profiles := profiles[last := profiles[last].(dependencyManagement := managed.value)];
      }
      ghost var n2 := Node();
      var dependencies := ParseDependencies(element, false);
      if dependencies.Err? {
        return Some(dependencies.error);
      }
      profiles := profiles[last := profiles[last].(dependencies := dependencies.value)];
      return None;
    }

    /**
     * The parent block of loadPOM: only a complete reference is looked up, and its
     * literal version stands in for a missing own version. A broken reference
     * changes nothing.
     */
    method ReadParent(root: Element)
      requires Valid()
      modifies this`version, this`parent
      ensures Valid()
      ensures CompleteParent(root) ==>
        && version == (if old(version).None? then Some(ParentCoordinate(root).version) else old(version))
        && parent == env.registry.FindArtifact(ParentCoordinate(root))
      ensures !CompleteParent(root) ==> version == old(version) && parent == old(parent)
    {
      var parentElement := ChildElement(root, "parent");
      if parentElement.Some? {
        var parentGroupId := ChildElementBody(parentElement.value, "groupId");
        var parentArtifactId := ChildElementBody(parentElement.value, "artifactId");
        var parentVersion := ChildElementBody(parentElement.value, "version");
        if parentGroupId.Some? && parentArtifactId.Some? && parentVersion.Some? {
          var parentReference := Coordinate(parentGroupId.value, parentArtifactId.value, parentVersion.value);
          if version.None? {
            version := Some(parentReference.version);
          }
          parent := env.registry.FindArtifact(parentReference);
        }
      }
    }

    /** The licenses block of loadPOM: one license per `<licenses><license>`, appended in document order. */
    method ReadLicenses(root: Element)
      modifies this`licenses
      ensures licenses == old(licenses) + LicensesOf(root)
    {
      ghost var before := licenses;
      var licensesElement := ChildElement(root, "licenses");
      if licensesElement.Some? {
        var ls := ChildElementList(licensesElement.value, "license");
        for k := 0 to |ls|
          invariant |licenses| == |before| + k
          invariant licenses[..|before|] == before
          invariant forall j :: 0 <= j < k ==> licenses[|before| + j] == License(ChildElementBody(ls[j], "name"), ChildElementBody(ls[j], "url"))
        {
          licenses := licenses + [License(ChildElementBody(ls[k], "name"), ChildElementBody(ls[k], "url"))];
        }
      }
      assert licenses == before + LicensesOf(root);
    }

    /**
     * The header part of loadPOM: name, url, version and description of the root,
     * the parent, the licenses, and the root profile, active.
     */
    method ReadHeader(root: Element)
      requires Valid() && version.Some? && Node() == Unloaded(groupId, artifactId, version.value)
      modifies this
      ensures Valid() && Node() == HeaderNode(env, groupId, artifactId, root)
    {
      name := ChildElementBody(root, "name");
      url := ChildElementBody(root, "url");
      version := ChildElementBody(root, "version");
      description := ChildElementBody(root, "description");
      ReadParent(root);
      ReadLicenses(root);
      profiles := profiles + [NewProfile(Some(RootProfileId)).(active := true)];
      assert Node() == HeaderNode(env, groupId, artifactId, root);
    }

    /** One declared profile: a new profile with the element's id is appended, then parsed. */
    method AddProfile(element: Element) returns (err: Option<LoadError>)
      requires Valid()
      modifies this
      ensures Outcome(err, Node()) == ParseProfileSpec(env, old(Node()).(profiles := old(profiles) + [NewProfile(ChildElementBody(element, "id"))]), element)
    {
      profiles := profiles + [NewProfile(ChildElementBody(element, "id"))];
      err := ParseProfile(element);
    }

    /** The loop of loadPOM over the declared profiles: each is appended as a new profile, then parsed. */
    method ParseProfiles(ps: seq<Element>) returns (err: Option<LoadError>)
      requires Valid()
      modifies this
      ensures Outcome(err, Node()) == ParseProfilesSpec(env, old(Node()), ps)
    {
      ghost var start := Node();
      for k := 0 to |ps|
        invariant ParseProfilesSpec(env, start, ps[..k]) == Ok(Node())
        invariant Valid()
      {
        err := AddProfile(ps[k]);
        ParseProfilesSpecAdvance(env, start, ps, k, err, Node());
        if err.Some? {
          return;
        }
      }
      assert ps[..|ps|] == ps;
      return None;
    }

    /**
     * loadPOM, from the parsed document on (a missing document leaves the version
     * as constructed): the header, the root profile parsed against the root, then
     * every declared profile appended and parsed in document order.
     */
    method LoadPom(document: Option<Element>) returns (err: Option<LoadError>)
      requires Valid() && version.Some? && Node() == Unloaded(groupId, artifactId, version.value)
      modifies this
      ensures Outcome(err, Node()) == LoadSpec(env, groupId, artifactId, old(version.value), document)
    {
      if document.None? {
        return None;
      }
      var root := document.value;
      ReadHeader(root);
      err := ParseProfile(root);
      if err.Some? {
        return;
      }
      // The declared profiles.
      var profilesElement := ChildElement(root, "profiles");
      var ps: seq<Element> := [];
      if profilesElement.Some? {
        ps := ChildElementList(profilesElement.value, "profile");
      }
      assert ps == NestedList(root, "profiles", "profile");
      err := ParseProfiles(ps);
    }
  }

  /**
   * The constructor with its call of loadPOM: a new version of the artifact, read
   * from `document`, or the exception that loading throws.
   */
  method Load(env: Env, groupId: string, artifactId: string, version: string, document: Option<Element>)
    returns (r: Result<ArtifactVersion, LoadError>)
    requires env.Valid()
    ensures var spec := LoadSpec(env, groupId, artifactId, version, document);
      && (r.Ok? <==> spec.Ok?)
      && (r.Ok? ==> fresh(r.value) && r.value.env == env && r.value.Node() == spec.value)
      && (spec.Err? ==> r == Err(spec.error))
  {
    var v := new ArtifactVersion(env, groupId, artifactId, version);
    var err := v.LoadPom(document);
    if err.Some? {
      return Err(err.value);
    }
    return Ok(v);
  }
}
