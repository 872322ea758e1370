/**
 * What reading a descriptor tree produces, as functions of the tree and of the state
 * reached so far: profile activation, one `<dependency>` entry, a dependency list,
 * one profile, the profile list and the whole POM. The class in module Loader
 * performs these steps in place and is proved to reach exactly these results.
 */
module Parsing {
  import opened Wrappers
  import opened Xml
  import opened Pom
  import opened Resolution

  /** The exceptions that abort loading a POM. */
  datatype LoadError =
    | InvalidScope(scope: string)   // Scope.valueOf on an unknown scope name
    | NullImportDereference         // findDependencyVersion reaching an import that did not resolve

  /** The variable-substitution engine: a text and a property resolver give the substituted text. */
  type Substitution = (string, string -> Option<string>) -> string

  /**
   * What the reader depends on but does not define: the registry, the
   * substitution engine (GeneralUtils.replaceVariables) and the JDK range check
   * against the running platform's version.
   */
  datatype Env = Env(registry: Registry, replace: Substitution, jdkMatches: string -> bool) {
    predicate Valid() {
      registry.Valid()
    }
  }

  /** A version under construction: its links point into the registry's arena. */
  predicate Building(env: Env, node: VersionNode) {
    env.Valid() && LinksBelow(node, |env.registry.arena|)
  }

  /** The property resolver of the version under construction. */
  function Resolver(env: Env, node: VersionNode): string -> Option<string>
    requires Building(env, node)
  {
    name => PropertyResolver(env.registry.arena, node, |env.registry.arena|, name)
  }

  /** evaluateString: null stays null, any text goes through the substitution engine. */
  function Evaluate(env: Env, node: VersionNode, value: Option<string>): (r: Option<string>)
    requires Building(env, node)
    ensures r.None? <==> value.None?
  {
    match value
    case None => None
    case Some(s) => Some(env.replace(s, Resolver(env, node)))
  }

  // ---------------------------------------------------------------------------
  // Profile activation
  // ---------------------------------------------------------------------------

  /** A negated `<property><name>` (one starting with '!') inside the activation block. */
  predicate NegatedProperty(activation: Element) {
    var prop := ChildElement(activation, "property");
    prop.Some? && ChildElementBody(prop.value, "name").Some? && "!" <= ChildElementBody(prop.value, "name").value
  }

  /**
   * The activation rules in the order they are applied, each giving a new flag or
   * none when it does not apply: activeByDefault, jdk, os (never applies), and a
   * negated property (forces true).
   */
  function ActivationRules(jdkMatches: string -> bool, element: Element): seq<Option<bool>> {
    match ChildElement(element, "activation")
    case None => []
    case Some(act) =>
      var byDefault := ChildElementBody(act, "activeByDefault");
      var jdk := ChildElementBody(act, "jdk");
      [ if IsEmpty(byDefault) then None else Some(ParseBoolean(byDefault.value)),
        if IsEmpty(jdk) then None else Some(jdkMatches(jdk.value)),
        None,
        if NegatedProperty(act) then Some(true) else None ]
  }

  /** The flag set by the last rule that applies, or the initial flag when none does. */
  function LastRuleWins(initial: bool, rules: seq<Option<bool>>): bool {
    if rules == [] then initial
    else match rules[|rules| - 1]
      case Some(b) => b
      case None => LastRuleWins(initial, rules[..|rules| - 1])
  }

  /**
   * "Last applicable rule wins", case by case: a negated property forces the
   * profile on; otherwise a non-empty jdk range decides; otherwise a non-empty
   * activeByDefault; otherwise (and without an activation block) the initial flag
   * stays. The os block decides nothing.
   */
  lemma ActivationPrecedence(jdkMatches: string -> bool, element: Element, initial: bool)
    ensures var active := LastRuleWins(initial, ActivationRules(jdkMatches, element));
            var act := ChildElement(element, "activation");
      && (act.None? ==> active == initial)
      && (act.Some? ==>
            var byDefault := ChildElementBody(act.value, "activeByDefault");
            var jdk := ChildElementBody(act.value, "jdk");
            && (NegatedProperty(act.value) ==> active)
            && (!NegatedProperty(act.value) && !IsEmpty(jdk) ==> active == jdkMatches(jdk.value))
            && (!NegatedProperty(act.value) && IsEmpty(jdk) && !IsEmpty(byDefault) ==> active == ParseBoolean(byDefault.value))
            && (!NegatedProperty(act.value) && IsEmpty(jdk) && IsEmpty(byDefault) ==> active == initial))
  {
    var rules := ActivationRules(jdkMatches, element);
    if rules != [] {
      assert rules[..3][..2] == rules[..2] && rules[..2][..1] == rules[..1] && rules[..1][..0] == [];
      assert LastRuleWins(initial, rules[..1]) == if rules[0].Some? then rules[0].value else initial;
      assert LastRuleWins(initial, rules[..2]) == if rules[1].Some? then rules[1].value else LastRuleWins(initial, rules[..1]);
      assert LastRuleWins(initial, rules[..3]) == LastRuleWins(initial, rules[..2]);
    }
  }

  // ---------------------------------------------------------------------------
  // Dependencies
  // ---------------------------------------------------------------------------

  /** The `<dependency>` children of the `<dependencies>` child of `e`. */
  function DependencyElements(e: Element): seq<Element> {
    NestedList(e, "dependencies", "dependency")
  }

  /** The scope of an entry: COMPILE when absent or empty, none when its text names no scope. */
  function ScopeOf(dep: Element): Option<Scope> {
    var text := ChildElementBody(dep, "scope");
    if IsEmpty(text) then Some(Compile) else ParseScope(text.value)
  }

  function NotEmpty(s: Option<string>): string {
    if s.None? then "" else s.value
  }

  /** An exclusion matches by identity only: its version is empty. */
  function ExclusionOf(e: Element): Coordinate {
    Coordinate(NotEmpty(ChildElementBody(e, "groupId")), NotEmpty(ChildElementBody(e, "artifactId")), "")
  }

  /** The exclusions declared by a plain dependency, in document order. */
  function ExclusionsOf(dep: Element): (r: seq<Coordinate>)
    ensures |r| == |NestedList(dep, "exclusions", "exclusion")|
    ensures forall k :: 0 <= k < |r| ==> r[k] == ExclusionOf(NestedList(dep, "exclusions", "exclusion")[k]) && r[k].version == ""
  {
    var xs := NestedList(dep, "exclusions", "exclusion");
    seq(|xs|, k requires 0 <= k < |xs| => ExclusionOf(xs[k]))
  }

  /** The inclusion rule: management entries are kept whatever their scope or optionality (imports aside); plain ones only when required and COMPILE or RUNTIME. */
  predicate Included(dm: bool, scope: Scope, optional: bool) {
    dm || (!optional && IncludesScope(scope))
  }

  /** What can be said of every dependency that a list keeps. */
  predicate KeptFilter(d: Dependency, dm: bool) {
    d.scope != Import && Included(dm, d.scope, d.optional) && (dm ==> d.exclusions == [])
  }

  /** The effect of one `<dependency>` entry. */
  datatype EntryResult =
    | Skip                                   // logged and dropped
    | Keep(dep: Dependency)                  // appended to the returned list
    | AddImport(target: Option<VersionId>)   // appended to the version's imports
    | Fail(error: LoadError)                 // thrown

  /** One iteration of the loop of parseDependencies, in the state `node` reached before it. */
  function ParseEntry(env: Env, node: VersionNode, dep: Element, dm: bool): (r: EntryResult)
    requires Building(env, node)
    ensures r.AddImport? && r.target.Some? ==> r.target.value < |env.registry.arena|
  {
    var groupId := Evaluate(env, node, ChildElementBody(dep, "groupId"));
    var artifactId := Evaluate(env, node, ChildElementBody(dep, "artifactId"));
    if groupId.None? || artifactId.None? then Skip
    else match ScopeOf(dep)
      case None => Fail(InvalidScope(ChildElementBody(dep, "scope").value))
      case Some(scope) =>
        var optional := GetBoolean(ChildElementBody(dep, "optional"), false);
        var version := Evaluate(env, node, ChildElementBody(dep, "version"));
        if dm && scope == Import then
          if version.None? then Skip
          else AddImport(env.registry.FindArtifact(Coordinate(groupId.value, artifactId.value, version.value)))
        else if Included(dm, scope, optional) then
          var resolved :=
            if version.Some? then Found(version.value)
            else FindDependencyVersion(env.registry.arena, node, |env.registry.arena|, groupId.value, artifactId.value);
          match resolved
          case NullImport => Fail(NullImportDereference)
          case Missing => Skip
          case Found(v) =>
            Keep(Dependency(
              Evaluate(env, node, groupId).value,
              Evaluate(env, node, artifactId).value,
              Evaluate(env, node, Some(v)).value,
              scope, optional,
              if dm then [] else ExclusionsOf(dep)))
        else Skip
  }

  /**
   * The rules of one entry: a missing groupId or artifactId skips it; an unknown
   * scope throws with the scope text; an import is added exactly for an
   * import-scope entry of a management list that has a version, and it is the
   * registry's answer for the evaluated coordinate; an entry failing the inclusion
   * rule is skipped; a kept dependency has the parsed scope and optional flag, is
   * never an import, and carries its exclusions only outside management; the
   * null-import dereference can only come from an entry without its own version.
   */
  lemma ParseEntryMeaning(env: Env, node: VersionNode, dep: Element, dm: bool)
    requires Building(env, node)
    ensures var r := ParseEntry(env, node, dep, dm);
            var groupId := ChildElementBody(dep, "groupId");
            var artifactId := ChildElementBody(dep, "artifactId");
            var version := ChildElementBody(dep, "version");
            var optional := GetBoolean(ChildElementBody(dep, "optional"), false);
      && (groupId.None? || artifactId.None? ==> r == Skip)
      && (groupId.Some? && artifactId.Some? && ScopeOf(dep).None? ==> r == Fail(InvalidScope(ChildElementBody(dep, "scope").value)))
      && (r.AddImport? <==> dm && ScopeOf(dep) == Some(Import) && groupId.Some? && artifactId.Some? && version.Some?)
      && (r.AddImport? ==>
            r.target == env.registry.FindArtifact(Coordinate(
              Evaluate(env, node, groupId).value, Evaluate(env, node, artifactId).value, Evaluate(env, node, version).value)))
      && (ScopeOf(dep).Some? && !Included(dm, ScopeOf(dep).value, optional) ==> r == Skip)
      && (r.Keep? ==>
            && KeptFilter(r.dep, dm) && Some(r.dep.scope) == ScopeOf(dep) && r.dep.optional == optional
            && (!dm ==> r.dep.exclusions == ExclusionsOf(dep)))
      && (r.Fail? && r.error.NullImportDereference? ==> version.None?)
  {
  }

  /**
   * The keep rule: an entry is kept exactly when it has both ids and a valid scope,
   * is not a BOM import of a management list, passes the inclusion rule, and has a
   * version, its own or else the one the management lookup finds. The kept
   * dependency has the ids evaluated once more, the evaluated version, the parsed
   * scope and optional flag, and its exclusions outside management. When the
   * lookup reaches a null import the entry throws, and when it finds nothing the
   * entry is skipped.
   */
  lemma ParseEntryKept(env: Env, node: VersionNode, dep: Element, dm: bool)
    requires Building(env, node)
    ensures var r := ParseEntry(env, node, dep, dm);
            var groupId := Evaluate(env, node, ChildElementBody(dep, "groupId"));
            var artifactId := Evaluate(env, node, ChildElementBody(dep, "artifactId"));
            var optional := GetBoolean(ChildElementBody(dep, "optional"), false);
      r.Keep? ==>
        groupId.Some? && artifactId.Some? && ScopeOf(dep).Some? && !(dm && ScopeOf(dep) == Some(Import))
        && Included(dm, ScopeOf(dep).value, optional)
    ensures var r := ParseEntry(env, node, dep, dm);
            var groupId := Evaluate(env, node, ChildElementBody(dep, "groupId"));
            var artifactId := Evaluate(env, node, ChildElementBody(dep, "artifactId"));
            var version := Evaluate(env, node, ChildElementBody(dep, "version"));
            var optional := GetBoolean(ChildElementBody(dep, "optional"), false);
      groupId.Some? && artifactId.Some? && ScopeOf(dep).Some? && !(dm && ScopeOf(dep) == Some(Import))
      && Included(dm, ScopeOf(dep).value, optional) ==>
        var resolved :=
          if version.Some? then Found(version.value)
          else FindDependencyVersion(env.registry.arena, node, |env.registry.arena|, groupId.value, artifactId.value);
        && (resolved.Found? ==>
              r == Keep(Dependency(
                Evaluate(env, node, groupId).value, Evaluate(env, node, artifactId).value,
                Evaluate(env, node, Some(resolved.version)).value,
                ScopeOf(dep).value, optional, if dm then [] else ExclusionsOf(dep))))
        && (resolved.NullImport? ==> r == Fail(NullImportDereference))
        && (resolved.Missing? ==> r == Skip)
  {
  }

  /** The kept dependencies and the version's import list after a run of entries. */
  datatype Parsed = Parsed(kept: seq<Dependency>, imports: seq<Option<VersionId>>)

  function ApplyEntry(p: Parsed, e: EntryResult): Result<Parsed, LoadError> {
    match e
    case Skip => Ok(p)
    case Keep(d) => Ok(Parsed(p.kept + [d], p.imports))
    case AddImport(t) => Ok(Parsed(p.kept, p.imports + [t]))
    case Fail(err) => Err(err)
  }

  /**
   * parseDependencies over the entries `deps`, starting from `node`: each entry is
   * read in the state the earlier ones left (imports appended so far are visible
   * to later version lookups). Every import it appends is a version the registry
   * already holds.
   */
  function ParseDependencyList(env: Env, node: VersionNode, deps: seq<Element>, dm: bool): (r: Result<Parsed, LoadError>)
    requires Building(env, node)
    ensures r.Ok? ==> ImportsBelow(r.value.imports, |env.registry.arena|)
    decreases |deps|
  {
    if deps == [] then Ok(Parsed([], node.imports))
    else match ParseDependencyList(env, node, deps[..|deps| - 1], dm)
      case Err(e) => Err(e)
      case Ok(p) => ApplyEntry(p, ParseEntry(env, node.(imports := p.imports), deps[|deps| - 1], dm))
  }

  /**
   * The kept list, together with the appended imports, is no longer than the
   * entries; every kept dependency passes the inclusion rule;
   * imports are only ever appended, and only management lists append any.
   */
  lemma {:induction false} ParseDependencyListMeaning(env: Env, node: VersionNode, deps: seq<Element>, dm: bool)
    requires Building(env, node) && ParseDependencyList(env, node, deps, dm).Ok?
    ensures var r := ParseDependencyList(env, node, deps, dm).value;
      && node.imports <= r.imports
      && |r.kept| + (|r.imports| - |node.imports|) <= |deps|
      && (forall k :: 0 <= k < |r.kept| ==> KeptFilter(r.kept[k], dm))
      && (!dm ==> r.imports == node.imports)
    decreases |deps|
  {
    if deps != [] {
      var init := deps[..|deps| - 1];
      ParseDependencyListMeaning(env, node, init, dm);
      var p := ParseDependencyList(env, node, init, dm).value;
      ParseEntryMeaning(env, node.(imports := p.imports), deps[|deps| - 1], dm);
    }
  }

  /** A plain dependency list never changes the imports. */
  lemma PlainListKeepsImports(env: Env, node: VersionNode, deps: seq<Element>)
    requires Building(env, node) && ParseDependencyList(env, node, deps, false).Ok?
    ensures ParseDependencyList(env, node, deps, false).value.imports == node.imports
  {
    ParseDependencyListMeaning(env, node, deps, false);
  }

  /**
   * One more entry: it is read in the state the earlier ones left, and applied to
   * their result. This is the step the loop of ArtifactVersion.ParseDependencies
   * takes.
   */
  lemma ParseDependencyListStep(env: Env, node: VersionNode, deps: seq<Element>, i: nat, dm: bool)
    requires Building(env, node) && i < |deps| && ParseDependencyList(env, node, deps[..i], dm).Ok?
    ensures var p := ParseDependencyList(env, node, deps[..i], dm).value;
      ParseDependencyList(env, node, deps[..i + 1], dm) == ApplyEntry(p, ParseEntry(env, node.(imports := p.imports), deps[i], dm))
  {
    assert deps[..i + 1][..i] == deps[..i];
  }

  lemma {:induction false} PrefixErrorPersists(env: Env, node: VersionNode, xs: seq<Element>, ys: seq<Element>, dm: bool)
    requires Building(env, node) && ParseDependencyList(env, node, xs, dm).Err?
    ensures ParseDependencyList(env, node, xs + ys, dm) == ParseDependencyList(env, node, xs, dm)
    decreases |ys|
  {
    if ys == [] {
      assert xs + ys == xs;
    } else {
      var ys' := ys[..|ys| - 1];
      assert (xs + ys)[..|xs + ys| - 1] == xs + ys';
      PrefixErrorPersists(env, node, xs, ys', dm);
    }
  }

  /** An entry that is skipped leaves no trace: the later entries are read exactly as if it were absent. */
  lemma {:induction false} SkipIsTransparent(env: Env, node: VersionNode, xs: seq<Element>, e: Element, ys: seq<Element>, dm: bool)
    requires Building(env, node) && ParseDependencyList(env, node, xs, dm).Ok?
    requires ParseEntry(env, node.(imports := ParseDependencyList(env, node, xs, dm).value.imports), e, dm) == Skip
    ensures ParseDependencyList(env, node, xs + [e] + ys, dm) == ParseDependencyList(env, node, xs + ys, dm)
    decreases |ys|
  {
    if ys == [] {
      assert (xs + [e] + ys)[..|xs|] == xs;
      assert xs + ys == xs;
    } else {
      var ys' := ys[..|ys| - 1];
      assert (xs + [e] + ys)[..|xs + [e] + ys| - 1] == xs + [e] + ys';
      assert (xs + ys)[..|xs + ys| - 1] == xs + ys';
      SkipIsTransparent(env, node, xs, e, ys', dm);
    }
  }

  /** An entry without a groupId or an artifactId is dropped without affecting the entries around it. */
  lemma MissingIdentityIsSkipped(env: Env, node: VersionNode, xs: seq<Element>, e: Element, ys: seq<Element>, dm: bool)
    requires Building(env, node)
    requires ChildElementBody(e, "groupId").None? || ChildElementBody(e, "artifactId").None?
    ensures ParseDependencyList(env, node, xs + [e] + ys, dm) == ParseDependencyList(env, node, xs + ys, dm)
  {
    if ParseDependencyList(env, node, xs, dm).Ok? {
      SkipIsTransparent(env, node, xs, e, ys, dm);
    } else {
      PrefixErrorPersists(env, node, xs, [e] + ys, dm);
      PrefixErrorPersists(env, node, xs, ys, dm);
      assert xs + [e] + ys == xs + ([e] + ys);
    }
  }

  /** An entry that throws (an unknown scope, a null import reached) aborts the whole list, whatever follows it. */
  lemma {:induction false} FailureAborts(env: Env, node: VersionNode, xs: seq<Element>, e: Element, ys: seq<Element>, dm: bool)
    requires Building(env, node) && ParseDependencyList(env, node, xs, dm).Ok?
    requires ParseEntry(env, node.(imports := ParseDependencyList(env, node, xs, dm).value.imports), e, dm).Fail?
    ensures ParseDependencyList(env, node, xs + [e] + ys, dm)
         == Err(ParseEntry(env, node.(imports := ParseDependencyList(env, node, xs, dm).value.imports), e, dm).error)
  {
    assert (xs + [e])[..|xs|] == xs;
    PrefixErrorPersists(env, node, xs + [e], ys, dm);
  }

  /**
   * A BOM import entry of a management list is never kept. When it has a version it
   * appends exactly one import, the registry's answer for the evaluated coordinate
   * (none when the BOM does not resolve); without a version it appends nothing.
   */
  lemma ImportEntryEffect(env: Env, node: VersionNode, xs: seq<Element>, e: Element)
    requires Building(env, node) && ParseDependencyList(env, node, xs, true).Ok?
    requires ChildElementBody(e, "groupId").Some? && ChildElementBody(e, "artifactId").Some? && ScopeOf(e) == Some(Import)
    ensures var before := ParseDependencyList(env, node, xs, true).value;
            var after := ParseDependencyList(env, node, xs + [e], true);
            var state := node.(imports := before.imports);
      && after.Ok? && after.value.kept == before.kept
      && (ChildElementBody(e, "version").None? ==> after.value.imports == before.imports)
      && (ChildElementBody(e, "version").Some? ==>
            after.value.imports == before.imports + [env.registry.FindArtifact(Coordinate(
              Evaluate(env, state, ChildElementBody(e, "groupId")).value,
              Evaluate(env, state, ChildElementBody(e, "artifactId")).value,
              Evaluate(env, state, ChildElementBody(e, "version")).value))])
  {
    assert (xs + [e])[..|xs|] == xs;
  }

  /**
   * An entry that passes the keep rule's conditions appends its dependency after
   * the ones kept before it, so the kept list follows document order; the imports
   * stay. A null import reached by its version lookup makes the list throw, and a
   * lookup that finds nothing leaves the result as it was.
   */
  lemma KeptEntryEffect(env: Env, node: VersionNode, xs: seq<Element>, e: Element, dm: bool)
    requires Building(env, node) && ParseDependencyList(env, node, xs, dm).Ok?
    requires ChildElementBody(e, "groupId").Some? && ChildElementBody(e, "artifactId").Some?
    requires ScopeOf(e).Some? && !(dm && ScopeOf(e) == Some(Import))
    requires Included(dm, ScopeOf(e).value, GetBoolean(ChildElementBody(e, "optional"), false))
    ensures var before := ParseDependencyList(env, node, xs, dm).value;
            var after := ParseDependencyList(env, node, xs + [e], dm);
            var state := node.(imports := before.imports);
            var groupId := Evaluate(env, state, ChildElementBody(e, "groupId")).value;
            var artifactId := Evaluate(env, state, ChildElementBody(e, "artifactId")).value;
            var version := Evaluate(env, state, ChildElementBody(e, "version"));
            var resolved :=
              if version.Some? then Found(version.value)
              else FindDependencyVersion(env.registry.arena, state, |env.registry.arena|, groupId, artifactId);
      && (resolved.Found? ==>
            after == Ok(Parsed(before.kept + [Dependency(
              Evaluate(env, state, Some(groupId)).value, Evaluate(env, state, Some(artifactId)).value,
              Evaluate(env, state, Some(resolved.version)).value,
              ScopeOf(e).value, GetBoolean(ChildElementBody(e, "optional"), false),
              if dm then [] else ExclusionsOf(e))], before.imports)))
      && (resolved.NullImport? ==> after == Err(NullImportDereference))
      && (resolved.Missing? ==> after == Ok(before))
  {
    assert (xs + [e])[..|xs|] == xs;
    var before := ParseDependencyList(env, node, xs, dm).value;
    ParseEntryKept(env, node.(imports := before.imports), e, dm);
  }

  /**
   * A kept-kind entry without a version of its own, for which the management
   * lookup finds nothing, is dropped without affecting the entries around it.
   */
  lemma UnresolvedVersionIsSkipped(env: Env, node: VersionNode, xs: seq<Element>, e: Element, ys: seq<Element>, dm: bool)
    requires Building(env, node) && ParseDependencyList(env, node, xs, dm).Ok?
    requires ChildElementBody(e, "groupId").Some? && ChildElementBody(e, "artifactId").Some?
    requires ScopeOf(e).Some? && !(dm && ScopeOf(e) == Some(Import))
    requires Included(dm, ScopeOf(e).value, GetBoolean(ChildElementBody(e, "optional"), false))
    requires ChildElementBody(e, "version").None?
    requires var state := node.(imports := ParseDependencyList(env, node, xs, dm).value.imports);
      FindDependencyVersion(env.registry.arena, state, |env.registry.arena|,
        Evaluate(env, state, ChildElementBody(e, "groupId")).value,
        Evaluate(env, state, ChildElementBody(e, "artifactId")).value) == Missing
    ensures ParseDependencyList(env, node, xs + [e] + ys, dm) == ParseDependencyList(env, node, xs + ys, dm)
  {
    SkipIsTransparent(env, node, xs, e, ys, dm);
  }

  // ---------------------------------------------------------------------------
  // Profiles
  // ---------------------------------------------------------------------------

  /** HashMap.put of each (tag, body) in document order: a later child with the same tag overwrites an earlier one. */
  function PutAll(props: map<string, Option<string>>, children: seq<Element>): map<string, Option<string>>
    decreases |children|
  {
    if children == [] then props
    else
      var last := children[|children| - 1];
      PutAll(props, children[..|children| - 1])[last.tag := last.body]
  }

  /** The keys after the puts: the earlier keys and every child's tag. */
  lemma {:induction false} PutAllKeys(props: map<string, Option<string>>, children: seq<Element>, key: string)
    ensures key in PutAll(props, children) <==> key in props || exists k :: 0 <= k < |children| && children[k].tag == key
    decreases |children|
  {
    if children != [] {
      var init := children[..|children| - 1];
      PutAllKeys(props, init, key);
      forall k | 0 <= k < |init| ensures init[k] == children[k] { }
    }
  }

  /** A tag is mapped to the body of the LAST child carrying it. */
  lemma {:induction false} PutAllLastWins(props: map<string, Option<string>>, children: seq<Element>, k: nat)
    requires k < |children|
    requires forall j :: k < j < |children| ==> children[j].tag != children[k].tag
    ensures children[k].tag in PutAll(props, children) && PutAll(props, children)[children[k].tag] == children[k].body
    decreases |children|
  {
    if k < |children| - 1 {
      var init := children[..|children| - 1];
      assert init[k] == children[k];
      PutAllLastWins(props, init, k);
    }
  }

  /** A key no child carries keeps its earlier value. */
  lemma {:induction false} PutAllKeepsOthers(props: map<string, Option<string>>, children: seq<Element>, key: string)
    requires key in props
    requires forall k :: 0 <= k < |children| ==> children[k].tag != key
    ensures key in PutAll(props, children) && PutAll(props, children)[key] == props[key]
    decreases |children|
  {
    if children != [] {
      var init := children[..|children| - 1];
      assert children[|children| - 1].tag != key;
      PutAllKeepsOthers(props, init, key);
    }
  }

  /** The child elements of `<properties>`. */
  function PropertyElements(e: Element): seq<Element> {
    match ChildElement(e, "properties")
    case None => []
    case Some(p) => p.children
  }

  /** `node` and `m` agree on everything but the import list and the profiles. */
  predicate SameHeader(node: VersionNode, m: VersionNode) {
    && m.groupId == node.groupId && m.artifactId == node.artifactId
    && m.name == node.name && m.url == node.url && m.version == node.version
    && m.description == node.description && m.parent == node.parent && m.licenses == node.licenses
  }

  /**
   * A profile as profile parsing leaves it: its id, the activation outcome for its
   * initial flag, and, when inactive, nothing parsed (empty properties and lists).
   */
  predicate ParsedProfile(p: Profile, id: Option<string>, initial: bool, jdkMatches: string -> bool, element: Element) {
    && p.id == id
    && p.active == LastRuleWins(initial, ActivationRules(jdkMatches, element))
    && (!p.active ==> p.properties == map[] && p.dependencyManagement == [] && p.dependencies == [])
  }

  /**
   * parseProfile on the last profile of `node`: activation first, then, for an
   * active profile only, its properties, its dependency management (which may
   * append imports) and its dependencies.
   */
  function ParseProfileSpec(env: Env, node: VersionNode, element: Element): (r: Result<VersionNode, LoadError>)
    requires Building(env, node) && |node.profiles| > 0
    ensures r.Ok? ==> Building(env, r.value)
  {
    var last := |node.profiles| - 1;
    var p := node.profiles[last];
    var active := LastRuleWins(p.active, ActivationRules(env.jdkMatches, element));
    if !active then Ok(node.(profiles := node.profiles[last := p.(active := false)]))
    else
      var p1 := p.(active := true, properties := PutAll(p.properties, PropertyElements(element)));
      var n1 := node.(profiles := node.profiles[last := p1]);
      var managed :=
        match ChildElement(element, "dependencyManagement")
        case None => Ok(n1)
        case Some(dmElement) =>
          match ParseDependencyList(env, n1, DependencyElements(dmElement), true)
          case Err(e) => Err(e)
          case Ok(parsed) => Ok(n1.(imports := parsed.imports, profiles := n1.profiles[last := p1.(dependencyManagement := parsed.kept)]));
      match managed
      case Err(e) => Err(e)
      case Ok(n2) =>
        match ParseDependencyList(env, n2, DependencyElements(element), false)
        case Err(e) => Err(e)
        case Ok(parsed) =>
          Ok(n2.(imports := parsed.imports, profiles := n2.profiles[last := n2.profiles[last].(dependencies := parsed.kept)]))
  }

  /** The explicit profiles: each is appended as a new profile and then parsed, in document order. */
  function ParseProfilesSpec(env: Env, node: VersionNode, elements: seq<Element>): (r: Result<VersionNode, LoadError>)
    requires Building(env, node)
    ensures r.Ok? ==> Building(env, r.value)
    decreases |elements|
  {
    if elements == [] then Ok(node)
    else match ParseProfilesSpec(env, node, elements[..|elements| - 1])
      case Err(e) => Err(e)
      case Ok(n) =>
        var e := elements[|elements| - 1];
        ParseProfileSpec(env, n.(profiles := n.profiles + [NewProfile(ChildElementBody(e, "id"))]), e)
  }

  /**
   * Profile parsing touches only the last profile and the imports: the other
   * profiles and fields stay. The profile keeps its id and takes the activation
   * outcome for its initial flag; an inactive one keeps its content and the
   * imports stay; an active one gets its properties put in document order.
   */
  lemma ParseProfileSpecMeaning(env: Env, node: VersionNode, element: Element)
    requires Building(env, node) && |node.profiles| > 0
    requires ParseProfileSpec(env, node, element).Ok?
    ensures var r := ParseProfileSpec(env, node, element).value;
      && SameHeader(node, r)
      && |r.profiles| == |node.profiles|
      && r.profiles[..|node.profiles| - 1] == node.profiles[..|node.profiles| - 1]
      && node.imports <= r.imports
    ensures var r := ParseProfileSpec(env, node, element).value;
            var before := node.profiles[|node.profiles| - 1];
            var after := r.profiles[|node.profiles| - 1];
      && after.id == before.id
      && after.active == LastRuleWins(before.active, ActivationRules(env.jdkMatches, element))
      && (!after.active ==>
            && after.properties == before.properties && after.dependencyManagement == before.dependencyManagement
            && after.dependencies == before.dependencies && r.imports == node.imports)
      && (after.active ==> after.properties == PutAll(before.properties, PropertyElements(element)))
  {
    var last := |node.profiles| - 1;
    var p := node.profiles[last];
    if LastRuleWins(p.active, ActivationRules(env.jdkMatches, element)) {
      var p1 := p.(active := true, properties := PutAll(p.properties, PropertyElements(element)));
      var n1 := node.(profiles := node.profiles[last := p1]);
      var n2 := n1;
      var dmElement := ChildElement(element, "dependencyManagement");
      if dmElement.Some? {
        var managed := ParseDependencyList(env, n1, DependencyElements(dmElement.value), true);
        if managed.Ok? {
          ParseDependencyListMeaning(env, n1, DependencyElements(dmElement.value), true);
          n2 := n1.(imports := managed.value.imports, profiles := n1.profiles[last := p1.(dependencyManagement := managed.value.kept)]);
        }
      }
      if ParseDependencyList(env, n2, DependencyElements(element), false).Ok? {
        ParseDependencyListMeaning(env, n2, DependencyElements(element), false);
      }
    }
  }

  /**
   * What an active profile without a `<dependencyManagement>` block stores after
   * its properties are put: its management list stays, its dependency list is the
   * kept list of the plain parse, and the imports stay.
   */
  lemma ParseProfileSpecContent(env: Env, node: VersionNode, element: Element)
    requires Building(env, node) && |node.profiles| > 0
    requires ParseProfileSpec(env, node, element).Ok? && ChildElement(element, "dependencyManagement").None?
    ensures var r := ParseProfileSpec(env, node, element).value;
            var last := |node.profiles| - 1;
            var before := node.profiles[last];
            var after := r.profiles[last];
            var p1 := before.(active := true, properties := PutAll(before.properties, PropertyElements(element)));
            var n1 := node.(profiles := node.profiles[last := p1]);
      after.active ==>
        && after.dependencyManagement == before.dependencyManagement
        && r.imports == node.imports
        && ParseDependencyList(env, n1, DependencyElements(element), false) == Ok(Parsed(after.dependencies, r.imports))
  {
    var last := |node.profiles| - 1;
    var p := node.profiles[last];
    if LastRuleWins(p.active, ActivationRules(env.jdkMatches, element)) {
      var p1 := p.(active := true, properties := PutAll(p.properties, PropertyElements(element)));
      PlainListKeepsImports(env, node.(profiles := node.profiles[last := p1]), DependencyElements(element));
    }
  }

  /**
   * What an active profile with a `<dependencyManagement>` block stores after its
   * properties are put: its management list is the kept list of that block's
   * parse, whose appended imports become the version's; its dependency list is the
   * kept list of the plain parse, read in the state the management parse left,
   * and that parse keeps the imports.
   */
  lemma ParseProfileSpecManagedContent(env: Env, node: VersionNode, element: Element)
    requires Building(env, node) && |node.profiles| > 0
    requires ParseProfileSpec(env, node, element).Ok? && ChildElement(element, "dependencyManagement").Some?
    ensures var r := ParseProfileSpec(env, node, element).value;
            var last := |node.profiles| - 1;
            var before := node.profiles[last];
            var after := r.profiles[last];
            var p1 := before.(active := true, properties := PutAll(before.properties, PropertyElements(element)));
            var n1 := node.(profiles := node.profiles[last := p1]);
            var managed := ParseDependencyList(env, n1, DependencyElements(ChildElement(element, "dependencyManagement").value), true);
      after.active ==>
        && managed.Ok?
        && after.dependencyManagement == managed.value.kept
        && r.imports == managed.value.imports
        && var n2 := n1.(imports := managed.value.imports, profiles := n1.profiles[last := p1.(dependencyManagement := managed.value.kept)]);
           ParseDependencyList(env, n2, DependencyElements(element), false) == Ok(Parsed(after.dependencies, r.imports))
  {
    var last := |node.profiles| - 1;
    var p := node.profiles[last];
    if LastRuleWins(p.active, ActivationRules(env.jdkMatches, element)) {
      var p1 := p.(active := true, properties := PutAll(p.properties, PropertyElements(element)));
      var n1 := node.(profiles := node.profiles[last := p1]);
      var managed := ParseDependencyList(env, n1, DependencyElements(ChildElement(element, "dependencyManagement").value), true);
      var n2 := n1.(imports := managed.value.imports, profiles := n1.profiles[last := p1.(dependencyManagement := managed.value.kept)]);
      PlainListKeepsImports(env, n2, DependencyElements(element));
    }
  }

  /** Parsing the explicit profiles appends exactly one profile per element, after the existing ones, which stay. */
  lemma {:induction false} ParseProfilesSpecShape(env: Env, node: VersionNode, elements: seq<Element>)
    requires Building(env, node) && ParseProfilesSpec(env, node, elements).Ok?
    ensures var r := ParseProfilesSpec(env, node, elements).value;
      && SameHeader(node, r)
      && |r.profiles| == |node.profiles| + |elements|
      && r.profiles[..|node.profiles|] == node.profiles
    decreases |elements|
  {
    if elements != [] {
      var init := elements[..|elements| - 1];
      ParseProfilesSpecShape(env, node, init);
      var n := ParseProfilesSpec(env, node, init).value;
      var e := elements[|elements| - 1];
      var n' := n.(profiles := n.profiles + [NewProfile(ChildElementBody(e, "id"))]);
      ParseProfileSpecMeaning(env, n', e);
      var r := ParseProfilesSpec(env, node, elements).value;
      assert r == ParseProfileSpec(env, n', e).value;
      assert r.profiles[..|n.profiles|] == n.profiles;
    }
  }

  /** What a loading step leaves: the state reached, or the exception it threw. */
  function Outcome(err: Option<LoadError>, node: VersionNode): Result<VersionNode, LoadError> {
    match err
    case None => Ok(node)
    case Some(e) => Err(e)
  }

  /**
   * One more declared profile, appended to the state the earlier ones left and
   * parsed: when that succeeds the list up to it has succeeded with that state;
   * when it throws, the whole list throws the same.
   */
  lemma ParseProfilesSpecAdvance(env: Env, node: VersionNode, ps: seq<Element>, k: nat, err: Option<LoadError>, after: VersionNode)
    requires Building(env, node) && k < |ps| && ParseProfilesSpec(env, node, ps[..k]).Ok?
    requires var n := ParseProfilesSpec(env, node, ps[..k]).value;
      Outcome(err, after) == ParseProfileSpec(env, n.(profiles := n.profiles + [NewProfile(ChildElementBody(ps[k], "id"))]), ps[k])
    ensures err.None? ==> ParseProfilesSpec(env, node, ps[..k + 1]) == Ok(after) && Building(env, after)
    ensures err.Some? ==> Outcome(err, after) == ParseProfilesSpec(env, node, ps)
  {
    assert ps[..k + 1][..k] == ps[..k];
    ParseProfilesSpecLast(env, node, ps[..k + 1]);
    if err.Some? {
      ProfilePrefixError(env, node, ps, k + 1);
    }
  }

  lemma ProfilePrefixError(env: Env, node: VersionNode, ps: seq<Element>, k: nat)
    requires Building(env, node) && k <= |ps| && ParseProfilesSpec(env, node, ps[..k]).Err?
    ensures ParseProfilesSpec(env, node, ps) == ParseProfilesSpec(env, node, ps[..k])
  {
    ProfileErrorPersists(env, node, ps[..k], ps[k..]);
    assert ps[..k] + ps[k..] == ps;
  }

  /** A profile that throws aborts loading: the profiles after it are never read. */
  lemma {:induction false} ProfileErrorPersists(env: Env, node: VersionNode, xs: seq<Element>, ys: seq<Element>)
    requires Building(env, node) && ParseProfilesSpec(env, node, xs).Err?
    ensures ParseProfilesSpec(env, node, xs + ys) == ParseProfilesSpec(env, node, xs)
    decreases |ys|
  {
    if ys == [] {
      assert xs + ys == xs;
    } else {
      var ys' := ys[..|ys| - 1];
      assert (xs + ys)[..|xs + ys| - 1] == xs + ys';
      ProfileErrorPersists(env, node, xs, ys');
    }
  }

  /**
   * Each appended profile has its declared id, is activated from an initial false,
   * and is empty when inactive.
   */
  lemma {:induction false} ParseProfilesSpecMeaning(env: Env, node: VersionNode, elements: seq<Element>, k: nat)
    requires Building(env, node) && ParseProfilesSpec(env, node, elements).Ok? && k < |elements|
    ensures var r := ParseProfilesSpec(env, node, elements).value;
      && |node.profiles| + k < |r.profiles|
      && ParsedProfile(r.profiles[|node.profiles| + k], ChildElementBody(elements[k], "id"), false, env.jdkMatches, elements[k])
    decreases |elements|
  {
    var init := elements[..|elements| - 1];
    ParseProfilesSpecShape(env, node, init);
    var n := ParseProfilesSpec(env, node, init).value;
    var e := elements[|elements| - 1];
    var n' := n.(profiles := n.profiles + [NewProfile(ChildElementBody(e, "id"))]);
    ParseProfilesSpecLast(env, node, elements);
    ParseProfileSpecMeaning(env, n', e);
    if k < |init| {
      ParseProfilesSpecMeaning(env, node, init, k);
      var r := ParseProfilesSpec(env, node, elements).value;
      assert r.profiles[..|n.profiles|] == n.profiles;
      assert r.profiles[|node.profiles| + k] == n.profiles[|node.profiles| + k];
      assert elements[k] == init[k];
    }
  }

  /**
   * The k-th declared profile is the one its own parse produced: the profile is
   * appended to the state the earlier ones left and parsed, and the later profiles
   * leave it as it was. Its content is then what ParseProfileSpecContent or
   * ParseProfileSpecManagedContent states for that parse.
   */
  lemma {:induction false} ParseProfilesSpecProfileAt(env: Env, node: VersionNode, elements: seq<Element>, k: nat)
    requires Building(env, node) && ParseProfilesSpec(env, node, elements).Ok? && k < |elements|
    ensures ParseProfilesSpec(env, node, elements[..k]).Ok?
    ensures var n := ParseProfilesSpec(env, node, elements[..k]).value;
            var n' := n.(profiles := n.profiles + [NewProfile(ChildElementBody(elements[k], "id"))]);
            var r := ParseProfilesSpec(env, node, elements).value;
      && ParseProfileSpec(env, n', elements[k]).Ok?
      && |n.profiles| < |r.profiles|
      && r.profiles[|n.profiles|] == ParseProfileSpec(env, n', elements[k]).value.profiles[|n.profiles|]
    decreases |elements|
  {
    var init := elements[..|elements| - 1];
    var m := ParseProfilesSpec(env, node, init).value;
    var e := elements[|elements| - 1];
    var m' := m.(profiles := m.profiles + [NewProfile(ChildElementBody(e, "id"))]);
    ParseProfilesSpecLast(env, node, elements);
    if k == |init| {
      assert elements[..k] == init;
    } else {
      ParseProfilesSpecProfileAt(env, node, init, k);
      assert init[..k] == elements[..k];
      assert init[k] == elements[k];
      ParseProfilesSpecShape(env, node, init);
      ParseProfilesSpecShape(env, node, elements[..k]);
      ParseProfileSpecMeaning(env, m', e);
      var r := ParseProfilesSpec(env, node, elements).value;
      var n := ParseProfilesSpec(env, node, elements[..k]).value;
      assert r.profiles[..|m.profiles|] == m.profiles;
      assert r.profiles[|n.profiles|] == m.profiles[|n.profiles|];
    }
  }

  /** The last declared profile is parsed after the state the others left. */
  lemma ParseProfilesSpecLast(env: Env, node: VersionNode, elements: seq<Element>)
    requires Building(env, node) && elements != [] && ParseProfilesSpec(env, node, elements[..|elements| - 1]).Ok?
    ensures var n := ParseProfilesSpec(env, node, elements[..|elements| - 1]).value;
            var e := elements[|elements| - 1];
      ParseProfilesSpec(env, node, elements) == ParseProfileSpec(env, n.(profiles := n.profiles + [NewProfile(ChildElementBody(e, "id"))]), e)
  {
  }

  // ---------------------------------------------------------------------------
  // The POM
  // ---------------------------------------------------------------------------

  /** The licenses of the POM, one per `<licenses><license>`, in document order. */
  function LicensesOf(root: Element): (r: seq<License>)
    ensures |r| == |NestedList(root, "licenses", "license")|
    ensures forall k :: 0 <= k < |r| ==>
      var l := NestedList(root, "licenses", "license")[k];
      r[k] == License(ChildElementBody(l, "name"), ChildElementBody(l, "url"))
  {
    var ls := NestedList(root, "licenses", "license");
    seq(|ls|, k requires 0 <= k < |ls| => License(ChildElementBody(ls[k], "name"), ChildElementBody(ls[k], "url")))
  }

  /** All three of the parent block's groupId, artifactId and version are present. */
  predicate CompleteParent(root: Element) {
    var pe := ChildElement(root, "parent");
    && pe.Some?
    && ChildElementBody(pe.value, "groupId").Some?
    && ChildElementBody(pe.value, "artifactId").Some?
    && ChildElementBody(pe.value, "version").Some?
  }

  function ParentCoordinate(root: Element): Coordinate
    requires CompleteParent(root)
  {
    var pe := ChildElement(root, "parent").value;
    Coordinate(ChildElementBody(pe, "groupId").value, ChildElementBody(pe, "artifactId").value, ChildElementBody(pe, "version").value)
  }

  /** The root profile as first added: id "#root", active. */
  function RootProfile(): Profile {
    Profile(Some(RootProfileId), true, map[], [], [])
  }

  /** A version as constructed, before its POM is read: only the identity and the requested version. */
  function Unloaded(groupId: string, artifactId: string, version: string): VersionNode {
    VersionNode(groupId, artifactId, None, None, Some(version), None, None, [], [], [])
  }

  /**
   * The version as loadPOM has it just before profile parsing: name, url and
   * description from the root; the root's own version, or, when the root has none
   * and the parent block is complete, the parent block's literal version; the
   * registry's answer for a complete parent block; the licenses; and the root
   * profile "#root", active, not yet parsed.
   */
  function HeaderNode(env: Env, groupId: string, artifactId: string, root: Element): (r: VersionNode)
    requires env.Valid()
    ensures Building(env, r)
  {
    var ownVersion := ChildElementBody(root, "version");
    var complete := CompleteParent(root);
    VersionNode(
      groupId, artifactId,
      ChildElementBody(root, "name"),
      ChildElementBody(root, "url"),
      if ownVersion.None? && complete then Some(ParentCoordinate(root).version) else ownVersion,
      ChildElementBody(root, "description"),
      if complete then env.registry.FindArtifact(ParentCoordinate(root)) else None,
      [],
      LicensesOf(root),
      [RootProfile()])
  }

  /**
   * loadPOM on the version of artifact (groupId, artifactId) registered under
   * `version`. Without a document (local POM missing, no remote read) nothing is
   * read. Otherwise the header is read, the root profile is parsed against the
   * root, then each `<profiles><profile>` is appended and parsed.
   */
  function LoadSpec(env: Env, groupId: string, artifactId: string, version: string, document: Option<Element>): (r: Result<VersionNode, LoadError>)
    requires env.Valid()
    ensures r.Ok? ==> Building(env, r.value)
  {
    match document
    case None => Ok(Unloaded(groupId, artifactId, version))
    case Some(root) =>
      match ParseProfileSpec(env, HeaderNode(env, groupId, artifactId, root), root)
      case Err(e) => Err(e)
      case Ok(n) => ParseProfilesSpec(env, n, NestedList(root, "profiles", "profile"))
  }

  /**
   * What loadPOM assigns besides the profiles. The identity is the artifact's.
   * Without a document the version stays exactly as constructed: the given
   * version and nothing else. With one: name, url and description are the root's;
   * the version is the root's own, or, when the root has none and the parent block
   * is complete, the parent block's literal version; the parent is the registry's
   * answer for a complete parent block and none otherwise; the licenses are the
   * declared ones in order.
   */
  lemma LoadSpecHeader(env: Env, groupId: string, artifactId: string, version: string, document: Option<Element>)
    requires env.Valid() && LoadSpec(env, groupId, artifactId, version, document).Ok?
    ensures var r := LoadSpec(env, groupId, artifactId, version, document).value;
      r.groupId == groupId && r.artifactId == artifactId
    ensures var r := LoadSpec(env, groupId, artifactId, version, document).value;
      document.None? ==> r == Unloaded(groupId, artifactId, version)
    ensures var r := LoadSpec(env, groupId, artifactId, version, document).value;
      document.Some? ==>
        var root := document.value;
        var ownVersion := ChildElementBody(root, "version");
        && r.name == ChildElementBody(root, "name")
        && r.url == ChildElementBody(root, "url")
        && r.description == ChildElementBody(root, "description")
        && r.version == (if ownVersion.None? && CompleteParent(root) then Some(ParentCoordinate(root).version) else ownVersion)
        && r.parent == (if CompleteParent(root) then env.registry.FindArtifact(ParentCoordinate(root)) else None)
        && r.licenses == LicensesOf(root)
  {
    if document.Some? {
      var root := document.value;
      var node := HeaderNode(env, groupId, artifactId, root);
      ParseProfileSpecMeaning(env, node, root);
      var n := ParseProfileSpec(env, node, root).value;
      ParseProfilesSpecShape(env, n, NestedList(root, "profiles", "profile"));
    }
  }

  /**
   * The profiles loadPOM builds: "#root" (activated from true against the root)
   * followed by one per declared profile in document order (activated from
   * false), each with its declared id, and every inactive one empty.
   */
  lemma LoadSpecProfiles(env: Env, groupId: string, artifactId: string, version: string, root: Element)
    requires env.Valid() && LoadSpec(env, groupId, artifactId, version, Some(root)).Ok?
    ensures var r := LoadSpec(env, groupId, artifactId, version, Some(root)).value;
            var profileElements := NestedList(root, "profiles", "profile");
      && |r.profiles| == 1 + |profileElements|
      && ParsedProfile(r.profiles[0], Some(RootProfileId), true, env.jdkMatches, root)
      && forall k :: 0 <= k < |profileElements| ==>
           ParsedProfile(r.profiles[k + 1], ChildElementBody(profileElements[k], "id"), false, env.jdkMatches, profileElements[k])
  {
    var node := HeaderNode(env, groupId, artifactId, root);
    ParseProfileSpecMeaning(env, node, root);
    var n := ParseProfileSpec(env, node, root).value;
    var elements := NestedList(root, "profiles", "profile");
    ParseProfilesSpecShape(env, n, elements);
    var r := ParseProfilesSpec(env, n, elements).value;
    forall k | 0 <= k < |elements|
      ensures ParsedProfile(r.profiles[k + 1], ChildElementBody(elements[k], "id"), false, env.jdkMatches, elements[k])
    {
      ParseProfilesSpecMeaning(env, n, elements, k);
    }
    assert r.profiles[..1] == n.profiles;
    assert r.profiles[0] == n.profiles[0];
  }

  /**
   * The loaded "#root" profile is the one the root's profile parse produced on the
   * header state, whose only profile it is, and the declared profiles are parsed after that state. Without
   * declared profiles the loaded version is that parse's state, imports included.
   */
  lemma LoadSpecRootProfile(env: Env, groupId: string, artifactId: string, version: string, root: Element)
    requires env.Valid() && LoadSpec(env, groupId, artifactId, version, Some(root)).Ok?
    ensures var r := LoadSpec(env, groupId, artifactId, version, Some(root)).value;
            var n := ParseProfileSpec(env, HeaderNode(env, groupId, artifactId, root), root);
      && n.Ok?
      && ParseProfilesSpec(env, n.value, NestedList(root, "profiles", "profile")) == Ok(r)
      && |n.value.profiles| == 1 && 0 < |r.profiles| && r.profiles[0] == n.value.profiles[0]
      && (NestedList(root, "profiles", "profile") == [] ==> r == n.value)
  {
    var node := HeaderNode(env, groupId, artifactId, root);
    ParseProfileSpecMeaning(env, node, root);
    var n := ParseProfileSpec(env, node, root).value;
    ParseProfilesSpecShape(env, n, NestedList(root, "profiles", "profile"));
    var r := LoadSpec(env, groupId, artifactId, version, Some(root)).value;
    assert r.profiles[..1] == n.profiles;
  }
}
