# Maven POM resolution in DBeaver's driver registry

This project models, in Dafny, how DBeaver's `MavenArtifactVersion` reads a POM and answers questions about it. A POM is a Maven project descriptor. Reading one builds a single resolved version of an artifact:

- its name, url, version and description;
- a link to its parent version;
- its licenses;
- an ordered list of profiles (the implicit root profile `#root` first, then the declared ones);
- an ordered list of BOM imports, which come from `<dependencyManagement>` entries of scope `import`.

Against that object the model answers three queries:

- the version of a dependency that the POM leaves unversioned (dependency management);
- the value of a `${property}`;
- the flattened runtime dependency list, walking up to the parents.

Structure:

- `wrappers.dfy` defines `Option` and `Result`. `None` stands for a Java null and `Err` for a thrown exception.
- `xml.dfy` holds the already-parsed descriptor tree (`Element`) and the child lookups the reader uses.
- `pom.dfy` holds the value types: coordinates, dependencies and scopes, profiles, and `VersionNode`, a resolved version as a value. It also holds the registry.
  - Resolved versions live in an arena: a sequence in which each version's parent and imports sit at smaller indices. The registry created each of them before the version that refers to it.
  - This ordering is what makes the recursive queries terminate. The Java code itself has no cycle check.
  - The registry lookup `findArtifact` maps a coordinate to an arena index, or to none.
- `resolution.dfy` holds the read-only queries: `findDependencyVersion`, `propertyResolver.get` and `getDependencies`. They are recursive functions over the arena. Each has an independent reference definition and lemmas connecting the two:
  - a flat depth-first list of management entries;
  - the flat list of profiles along the parent chain;
  - the concatenation of dependency lists along the chain.
- `parsing.dfy` describes, as functions, what reading produces: profile activation, one `<dependency>` entry, a dependency list, one profile, the declared profiles, and the whole POM. Lemmas state the rules the reader follows: precedence, filtering, ordering, skipping and aborting.
- `loader.dfy` holds the class `ArtifactVersion` with the fields the Java class updates in place. `LoadPom`, `ParseProfile` and `ParseDependencies` are written as loops over those fields. Each one is proved to leave exactly the state that the corresponding function of `parsing.dfy` describes.

Three things the reader depends on are parameters in `Parsing.Env`:

- the registry;
- the variable-substitution engine, `GeneralUtils.replaceVariables`;
- the JDK range check, `MavenArtifact.versionMatches` applied to the running JDK's version.

The model keeps these behaviours of the code, although a reader may not expect them:

- **Null imports.** A BOM import that the registry cannot resolve is still appended to `imports`, as null. `findDependencyVersion` then calls a method on every import without a null check. When a lookup reaches such an import it throws a NullPointerException, which aborts loading.
  - The model reports this as `Lookup.NullImport` and `LoadError.NullImportDereference`. The lookup does not skip the null import.
  - `Resolution.FindDependencyVersionSpec` states that the lookup finds nothing only when no null import lies before the end of the search.
- **Root profile activation.** The root profile is run through the same activation rules as any other profile. A top-level `<activation>` can therefore switch it off.
- **Version.** The root's `<version>` replaces the requested version even when it is absent. The literal version of a complete `<parent>` fills it in, but only in that case.
- **Unknown scope.** An unknown `<scope>` text is an exception (`Scope.valueOf`) that aborts loading, not a skipped entry.

## Model

| member | source | states |
|---|---|---|
| Pom.ParseScope | plugins/org.jkiss.dbeaver.core/src/org/jkiss/dbeaver/registry/maven/MavenArtifactVersion.java:370-374 | the scope is the one whose enum name equals the upper-cased text; none (valueOf throws) exactly when no scope's name matches |
| Pom.ParseScopeRoundTrip | plugins/org.jkiss.dbeaver.core/src/org/jkiss/dbeaver/registry/maven/MavenArtifactVersion.java:373 | every scope's name, in upper or in lower case, parses back to that scope |
| Pom.Registry.FindArtifact | plugins/org.jkiss.dbeaver.core/src/org/jkiss/dbeaver/registry/maven/MavenArtifactVersion.java:389 | the registry answers exactly for the coordinates it knows, and always with a version it already holds |
| Pom.IncludesScope | plugins/org.jkiss.dbeaver.core/src/org/jkiss/dbeaver/registry/maven/MavenArtifactVersion.java:436-441 | definition: COMPILE and RUNTIME reach the runtime set, PROVIDED does not; used by Included |
| Resolution.ManagedVersion | plugins/org.jkiss.dbeaver.core/src/org/jkiss/dbeaver/registry/maven/MavenArtifactVersion.java:444-453 | definition: the first match in the management lists of the active profiles, in profile order; see ManagedVersionIsFirstMatch |
| Resolution.FindDependencyVersion | plugins/org.jkiss.dbeaver.core/src/org/jkiss/dbeaver/registry/maven/MavenArtifactVersion.java:443-464 | definition: own active profiles, then the imports, then the parent, returning at the first version found; see FindDependencyVersionSpec |
| Resolution.FindInImports | plugins/org.jkiss.dbeaver.core/src/org/jkiss/dbeaver/registry/maven/MavenArtifactVersion.java:455-462 | definition: each import in list order, searched like the version itself, with a null import dereferenced; see FindInImportsIsFirstMatch |
| Resolution.FirstManagedIsFirstMatch | plugins/org.jkiss.dbeaver.core/src/org/jkiss/dbeaver/registry/maven/MavenArtifactVersion.java:446-451 | scanning one management list returns the version of its first entry with the queried groupId and artifactId |
| Resolution.ManagedVersionIsFirstMatch | plugins/org.jkiss.dbeaver.core/src/org/jkiss/dbeaver/registry/maven/MavenArtifactVersion.java:444-453 | the own-profile search is the first match over the management entries of the active profiles, in profile order; inactive profiles contribute nothing |
| Resolution.FindDependencyVersionIsFirstMatch | plugins/org.jkiss.dbeaver.core/src/org/jkiss/dbeaver/registry/maven/MavenArtifactVersion.java:443-464 | findDependencyVersion is the first-match scan of the depth-first order: own active profiles, then each import's whole order, then the parent's |
| Resolution.FindInImportsIsFirstMatch | plugins/org.jkiss.dbeaver.core/src/org/jkiss/dbeaver/registry/maven/MavenArtifactVersion.java:455-462 | imports are searched in list order, each recursively; a null import reached on the way ends the search with the null-dereference outcome |
| Resolution.FirstMatchAppend | plugins/org.jkiss.dbeaver.core/src/org/jkiss/dbeaver/registry/maven/MavenArtifactVersion.java:443-464 | scanning a concatenation scans the second part only when the first finds nothing, which is the early-return structure of the search |
| Resolution.FirstMatchMeaning | plugins/org.jkiss.dbeaver.core/src/org/jkiss/dbeaver/registry/maven/MavenArtifactVersion.java:446-450 | the scan finds a version exactly when some entry is the first with the queried identity and no null import precedes it, and then it is that entry's version; it finds nothing exactly when no entry matches and no null import occurs |
| Resolution.FindDependencyVersionSpec | plugins/org.jkiss.dbeaver.core/src/org/jkiss/dbeaver/registry/maven/MavenArtifactVersion.java:443-464 | findDependencyVersion returns the version of the first entry, in depth-first declaration order, whose groupId and artifactId equal the query; it returns none exactly when nothing in own profiles, imports or parents matches and no null import is reached |
| Resolution.ChainProperty | plugins/org.jkiss.dbeaver.core/src/org/jkiss/dbeaver/registry/maven/MavenArtifactVersion.java:72-83 | definition: the profiles of self, then of the parent and so on up the chain; see ChainPropertyIsFlatScan |
| Resolution.PropertyResolver | plugins/org.jkiss.dbeaver.core/src/org/jkiss/dbeaver/registry/maven/MavenArtifactVersion.java:61-85 | definition: the three built-in names first, then the chain lookup; see PropertyResolverSpec |
| Resolution.ProfilePropertyMeaning | plugins/org.jkiss.dbeaver.core/src/org/jkiss/dbeaver/registry/maven/MavenArtifactVersion.java:73-81 | the profile scan returns the non-null value of the first active profile that has one, and none exactly when no active profile has one |
| Resolution.ChainPropertyIsFlatScan | plugins/org.jkiss.dbeaver.core/src/org/jkiss/dbeaver/registry/maven/MavenArtifactVersion.java:72-83 | walking self, then parent, then its parent, scanning profiles at each, equals one scan of all their profiles in chain order |
| Resolution.ProfilePropertyAppend | plugins/org.jkiss.dbeaver.core/src/org/jkiss/dbeaver/registry/maven/MavenArtifactVersion.java:72-82 | the later profiles are consulted only when the earlier ones have no value |
| Resolution.PropertyResolverSpec | plugins/org.jkiss.dbeaver.core/src/org/jkiss/dbeaver/registry/maven/MavenArtifactVersion.java:61-85 | project.version, project.groupId and project.artifactId answer from the version's own fields; any other name gets the first non-null value over the active profiles of self and ancestors, and none (not an error) exactly when no such profile has it |
| Resolution.GetDependencies | plugins/org.jkiss.dbeaver.core/src/org/jkiss/dbeaver/registry/maven/MavenArtifactVersion.java:121-135 | definition: the active profiles' dependencies followed by the parent's whole result; see GetDependenciesIsChainConcat |
| Resolution.OwnDependenciesLength | plugins/org.jkiss.dbeaver.core/src/org/jkiss/dbeaver/registry/maven/MavenArtifactVersion.java:123-127 | the own part of the result has as many entries as the active profiles' dependency lists together |
| Resolution.GetDependenciesIsChainConcat | plugins/org.jkiss.dbeaver.core/src/org/jkiss/dbeaver/registry/maven/MavenArtifactVersion.java:121-135 | getDependencies is the concatenation of the active-profile dependencies of self and of every ancestor in chain order, and its length is the sum of their lengths |
| Resolution.GetDependenciesLayout | plugins/org.jkiss.dbeaver.core/src/org/jkiss/dbeaver/registry/maven/MavenArtifactVersion.java:121-135 | own dependencies form the prefix and the parent's list the suffix; without a parent only the own ones are returned; a dependency in both appears at least twice (no deduplication) |
| Parsing.Evaluate | plugins/org.jkiss.dbeaver.core/src/org/jkiss/dbeaver/registry/maven/MavenArtifactVersion.java:466-471 | evaluateString yields null exactly for null input |
| Parsing.ActivationRules | plugins/org.jkiss.dbeaver.core/src/org/jkiss/dbeaver/registry/maven/MavenArtifactVersion.java:266-290 | definition: the rules of the activation block in the order the code applies them; see ActivationPrecedence |
| Parsing.ActivationPrecedence | plugins/org.jkiss.dbeaver.core/src/org/jkiss/dbeaver/registry/maven/MavenArtifactVersion.java:266-290 | last applicable rule wins: a `!`-property forces active; else a non-empty jdk decides by the range check; else a non-empty activeByDefault decides; else, and without an activation block, the initial flag stays; os never decides |
| Parsing.ScopeOf | plugins/org.jkiss.dbeaver.core/src/org/jkiss/dbeaver/registry/maven/MavenArtifactVersion.java:370-374 | definition: COMPILE for an absent or empty scope, otherwise the scope parse of its text; see Pom.ParseScope |
| Parsing.Included | plugins/org.jkiss.dbeaver.core/src/org/jkiss/dbeaver/registry/maven/MavenArtifactVersion.java:397 | definition: a management entry passes whatever its scope and optionality; a plain one only when not optional and of an included scope; see ParseEntryKept |
| Parsing.ExclusionsOf | plugins/org.jkiss.dbeaver.core/src/org/jkiss/dbeaver/registry/maven/MavenArtifactVersion.java:417-429 | one exclusion per `<exclusions><exclusion>`, in document order, absent ids read as empty, version empty |
| Parsing.ParseEntry | plugins/org.jkiss.dbeaver.core/src/org/jkiss/dbeaver/registry/maven/MavenArtifactVersion.java:379-389 | an import it adds is either none or a version the registry already holds |
| Parsing.ParseEntryMeaning | plugins/org.jkiss.dbeaver.core/src/org/jkiss/dbeaver/registry/maven/MavenArtifactVersion.java:363-430 | a missing groupId or artifactId skips; an unknown scope throws with that text; an import is added exactly for an import-scope management entry with a version, and is the registry's answer for the evaluated coordinate; an entry failing the inclusion rule skips; a kept entry has the parsed scope and optional flag, is never an import, and carries its exclusions only outside management; the null-dereference arises only for an entry without its own version |
| Parsing.ParseEntryKept | plugins/org.jkiss.dbeaver.core/src/org/jkiss/dbeaver/registry/maven/MavenArtifactVersion.java:397-415 | an entry is kept exactly when both ids and the scope are valid, it is not a management BOM import, it passes the inclusion rule and its version, its own or else the one findDependencyVersion finds, is present; the kept dependency has the evaluated ids and version, the parsed scope and optional flag and, outside management, its exclusions; a null import reached throws and a version not found skips |
| Parsing.ParseDependencyList | plugins/org.jkiss.dbeaver.core/src/org/jkiss/dbeaver/registry/maven/MavenArtifactVersion.java:359-441 | every import the list appends is none or a version the registry already holds |
| Parsing.ParseDependencyListMeaning | plugins/org.jkiss.dbeaver.core/src/org/jkiss/dbeaver/registry/maven/MavenArtifactVersion.java:359-441 | imports are only appended, and only management lists append any; kept entries plus added imports never outnumber the `<dependency>` children; every kept entry is COMPILE or RUNTIME and not optional, or comes from a management list and is not an import |
| Parsing.PlainListKeepsImports | plugins/org.jkiss.dbeaver.core/src/org/jkiss/dbeaver/registry/maven/MavenArtifactVersion.java:359-441 | a list parsed outside dependency management leaves the import list as it was |
| Parsing.SkipIsTransparent | plugins/org.jkiss.dbeaver.core/src/org/jkiss/dbeaver/registry/maven/MavenArtifactVersion.java:363-431 | an entry that is skipped leaves no trace: the list parses exactly as if it were absent |
| Parsing.MissingIdentityIsSkipped | plugins/org.jkiss.dbeaver.core/src/org/jkiss/dbeaver/registry/maven/MavenArtifactVersion.java:364-369 | an entry without groupId or artifactId is dropped without affecting the entries before or after it |
| Parsing.UnresolvedVersionIsSkipped | plugins/org.jkiss.dbeaver.core/src/org/jkiss/dbeaver/registry/maven/MavenArtifactVersion.java:400-406 | an entry without its own version, for which the management lookup finds nothing, is dropped without affecting the entries around it |
| Parsing.ImportEntryEffect | plugins/org.jkiss.dbeaver.core/src/org/jkiss/dbeaver/registry/maven/MavenArtifactVersion.java:379-396 | an import-scope management entry is never kept; with a version it appends exactly one import, the registry's answer (possibly none), after the earlier ones; without a version it appends nothing |
| Parsing.KeptEntryEffect | plugins/org.jkiss.dbeaver.core/src/org/jkiss/dbeaver/registry/maven/MavenArtifactVersion.java:397-430 | an entry meeting the keep conditions appends exactly its dependency after those kept before it and leaves the imports; a reached null import makes the list throw; a version not found leaves the result unchanged |
| Parsing.ParseDependencyListStep | plugins/org.jkiss.dbeaver.core/src/org/jkiss/dbeaver/registry/maven/MavenArtifactVersion.java:363-431 | one more entry is read in the state the earlier ones left, with the imports appended so far, and its effect is applied to their result |
| Parsing.PrefixErrorPersists | plugins/org.jkiss.dbeaver.core/src/org/jkiss/dbeaver/registry/maven/MavenArtifactVersion.java:363-431 | once the loop has thrown, later entries do not change the outcome |
| Parsing.FailureAborts | plugins/org.jkiss.dbeaver.core/src/org/jkiss/dbeaver/registry/maven/MavenArtifactVersion.java:370-374 | an entry that throws makes the whole list throw that error, whatever follows it |
| Parsing.PutAll | plugins/org.jkiss.dbeaver.core/src/org/jkiss/dbeaver/registry/maven/MavenArtifactVersion.java:298-303 | definition: one put per child of `<properties>`, in document order; see PutAllKeys, PutAllLastWins, PutAllKeepsOthers |
| Parsing.PutAllKeys | plugins/org.jkiss.dbeaver.core/src/org/jkiss/dbeaver/registry/maven/MavenArtifactVersion.java:298-303 | after the puts the keys are the earlier keys plus every child's tag |
| Parsing.PutAllLastWins | plugins/org.jkiss.dbeaver.core/src/org/jkiss/dbeaver/registry/maven/MavenArtifactVersion.java:300-302 | a property is mapped to the body of the last child carrying its tag |
| Parsing.PutAllKeepsOthers | plugins/org.jkiss.dbeaver.core/src/org/jkiss/dbeaver/registry/maven/MavenArtifactVersion.java:298-303 | a key no child carries keeps its earlier value |
| Parsing.ParseProfileSpec | plugins/org.jkiss.dbeaver.core/src/org/jkiss/dbeaver/registry/maven/MavenArtifactVersion.java:264-340 | a successful parse links the version (parent and imports) only to versions the registry holds; activation, untouched profiles and properties are given by ParseProfileSpecMeaning, the stored lists and imports by ParseProfileSpecContent and ParseProfileSpecManagedContent |
| Parsing.ParseProfileSpecMeaning | plugins/org.jkiss.dbeaver.core/src/org/jkiss/dbeaver/registry/maven/MavenArtifactVersion.java:264-340 | parseProfile changes only its own profile and the imports; the profile keeps its id and takes the activation outcome; an inactive profile keeps its content and the imports stay; an active one gets its properties put in document order |
| Parsing.ParseProfileSpecContent | plugins/org.jkiss.dbeaver.core/src/org/jkiss/dbeaver/registry/maven/MavenArtifactVersion.java:332-338 | for an active profile without `<dependencyManagement>`: the management list stays, the imports stay, and the dependency list is the kept list of the plain parse in the state after the properties |
| Parsing.ParseProfileSpecManagedContent | plugins/org.jkiss.dbeaver.core/src/org/jkiss/dbeaver/registry/maven/MavenArtifactVersion.java:332-338 | for an active profile with `<dependencyManagement>`: the management list is that parse's kept list, the version's imports are the ones it left, and the dependency list is the kept list of the plain parse read in the state the management parse left |
| Parsing.ParseProfilesSpec | plugins/org.jkiss.dbeaver.core/src/org/jkiss/dbeaver/registry/maven/MavenArtifactVersion.java:249-259 | a successful parse links the version (parent and imports) only to versions the registry holds; ParseProfilesSpecShape and ParseProfilesSpecMeaning give ids, activation and inactive emptiness, and ParseProfilesSpecProfileAt makes each declared profile the result of its own profile parse |
| Parsing.ParseProfilesSpecShape | plugins/org.jkiss.dbeaver.core/src/org/jkiss/dbeaver/registry/maven/MavenArtifactVersion.java:249-259 | the declared profiles append exactly one profile each, after the existing ones, which stay; the header fields stay |
| Parsing.ParseProfilesSpecMeaning | plugins/org.jkiss.dbeaver.core/src/org/jkiss/dbeaver/registry/maven/MavenArtifactVersion.java:253-257 | the k-th declared profile has its declared id, is activated from false, and is empty when inactive |
| Parsing.ParseProfilesSpecProfileAt | plugins/org.jkiss.dbeaver.core/src/org/jkiss/dbeaver/registry/maven/MavenArtifactVersion.java:253-257 | the k-th declared profile is exactly the profile its own parse produced after appending it to the state the earlier profiles left; later profiles leave it unchanged |
| Parsing.ParseProfilesSpecAdvance | plugins/org.jkiss.dbeaver.core/src/org/jkiss/dbeaver/registry/maven/MavenArtifactVersion.java:253-257 | parsing one more declared profile, appended after the state the earlier ones left, either extends the successful prefix or gives the whole list its error |
| Parsing.ProfileErrorPersists | plugins/org.jkiss.dbeaver.core/src/org/jkiss/dbeaver/registry/maven/MavenArtifactVersion.java:253-257 | a profile that throws aborts loading; later profiles are never read |
| Parsing.LicensesOf | plugins/org.jkiss.dbeaver.core/src/org/jkiss/dbeaver/registry/maven/MavenArtifactVersion.java:230-241 | one license per `<licenses><license>`, in document order, with that element's name and url |
| Parsing.HeaderNode | plugins/org.jkiss.dbeaver.core/src/org/jkiss/dbeaver/registry/maven/MavenArtifactVersion.java:199-246 | the state before profile parsing links only to versions the registry holds; its fields are given by LoadSpecHeader |
| Parsing.LoadSpec | plugins/org.jkiss.dbeaver.core/src/org/jkiss/dbeaver/registry/maven/MavenArtifactVersion.java:180-259 | every successful load links only to versions the registry holds; LoadSpecHeader gives the header fields, LoadSpecProfiles the ids and activation, and LoadSpecRootProfile with ParseProfilesSpecProfileAt ties every profile, with its lists, to its own profile parse |
| Parsing.LoadSpecHeader | plugins/org.jkiss.dbeaver.core/src/org/jkiss/dbeaver/registry/maven/MavenArtifactVersion.java:180-241 | without a document the version is left as constructed; with one, name, url and description are the root's, the version is the root's own or, when absent and the parent block is complete, the parent's literal version, the parent is the registry's answer for a complete block and none otherwise, and the licenses are the declared ones |
| Parsing.LoadSpecProfiles | plugins/org.jkiss.dbeaver.core/src/org/jkiss/dbeaver/registry/maven/MavenArtifactVersion.java:243-259 | the profiles are `#root` (activated from true against the root) followed by one per declared profile in document order (activated from false), each inactive one empty |
| Parsing.LoadSpecRootProfile | plugins/org.jkiss.dbeaver.core/src/org/jkiss/dbeaver/registry/maven/MavenArtifactVersion.java:243-259 | the loaded `#root` profile is the one the root's profile parse produced on the header state, the declared profiles are parsed after that state, and without declared profiles the loaded version, imports included, is that state |
| Loader.Activate | plugins/org.jkiss.dbeaver.core/src/org/jkiss/dbeaver/registry/maven/MavenArtifactVersion.java:266-290 | the flag after the rule-by-rule assignments is the last applicable rule's, or the initial one |
| Loader.ArtifactVersion.constructor | plugins/org.jkiss.dbeaver.core/src/org/jkiss/dbeaver/registry/maven/MavenArtifactVersion.java:87-89 | a new version holds the artifact's identity and the requested version, and nothing else |
| Loader.ArtifactVersion.ReadDependency | plugins/org.jkiss.dbeaver.core/src/org/jkiss/dbeaver/registry/maven/MavenArtifactVersion.java:363-430 | one iteration of the parseDependencies loop, including the exclusions loop, has exactly the effect ParseEntry describes |
| Loader.ArtifactVersion.ParseDependencies | plugins/org.jkiss.dbeaver.core/src/org/jkiss/dbeaver/registry/maven/MavenArtifactVersion.java:359-434 | the loop returns the kept list and leaves the import list exactly as ParseDependencyList describes, or throws its error; only `imports` changes |
| Loader.ArtifactVersion.ParseProfile | plugins/org.jkiss.dbeaver.core/src/org/jkiss/dbeaver/registry/maven/MavenArtifactVersion.java:264-340 | activation, the properties loop and both dependency parses leave exactly the state ParseProfileSpec describes, or throw its error |
| Loader.ArtifactVersion.ReadParent | plugins/org.jkiss.dbeaver.core/src/org/jkiss/dbeaver/registry/maven/MavenArtifactVersion.java:204-228 | a complete parent block sets the parent to the registry's answer and fills a missing version with its literal version; a broken or absent block changes nothing |
| Loader.ArtifactVersion.ReadLicenses | plugins/org.jkiss.dbeaver.core/src/org/jkiss/dbeaver/registry/maven/MavenArtifactVersion.java:230-241 | the licenses loop appends exactly the declared licenses, in order |
| Loader.ArtifactVersion.ReadHeader | plugins/org.jkiss.dbeaver.core/src/org/jkiss/dbeaver/registry/maven/MavenArtifactVersion.java:199-246 | the header assignments, the parent and licenses blocks and the root profile leave exactly the state HeaderNode describes |
| Loader.ArtifactVersion.AddProfile | plugins/org.jkiss.dbeaver.core/src/org/jkiss/dbeaver/registry/maven/MavenArtifactVersion.java:253-256 | a new profile with the declared id is appended and parsed, leaving exactly the state ParseProfileSpec describes for it, or throwing its error |
| Loader.ArtifactVersion.ParseProfiles | plugins/org.jkiss.dbeaver.core/src/org/jkiss/dbeaver/registry/maven/MavenArtifactVersion.java:249-259 | the declared-profiles loop leaves exactly the state ParseProfilesSpec describes, or throws its error |
| Loader.ArtifactVersion.LoadPom | plugins/org.jkiss.dbeaver.core/src/org/jkiss/dbeaver/registry/maven/MavenArtifactVersion.java:180-259 | loadPOM on a freshly constructed version leaves exactly the state LoadSpec describes, or throws its error |
| Loader.Load | plugins/org.jkiss.dbeaver.core/src/org/jkiss/dbeaver/registry/maven/MavenArtifactVersion.java:87-90 | the constructor followed by loadPOM yields a new version in exactly the state LoadSpec describes, or throws its error |

## Left out

- POM file location and download (`getLocalPOM`, `cachePOM`, `getCacheFile`, `getExternalURL`, `getRemotePOMLocation`): file, URL and network I/O. The outcome is modelled as the input `document`:
  - an `Element` for a POM that was read;
  - none for a missing local POM with no remote read.
- XML parsing and its `IOException`: foreign I/O. The model starts from the parsed `Element`.
- XMLUtils: it is not part of this model. The child lookups and element bodies in `xml.dfy` model it as first-child-by-tag and children-by-tag, with the body taken as given.
- Repository parsing in `parseProfile` (:305-331): foreign code with no effect on the state. Each enabled release repository triggers a `context.getInfo(MavenContextInfo.class)` lookup, whose result is unused because the call that would use it is commented out; a legacy layout only logs. The model does nothing there.
- `MavenArtifact.versionMatches` with `System.getProperty("java.version")`: foreign code and the environment. They are the parameter `Env.jdkMatches`.
- `GeneralUtils.replaceVariables`: not part of this model. It is the parameter `Env.replace`, applied with the version's own property resolver. It is taken to return a text for every text, never null, so `Evaluate` is null exactly for null input.
- `MavenRegistry.findArtifact`: memoisation, thread safety and cycle handling are not part of this model. It is a lookup from a coordinate to a version already in the arena.
  - The arena ordering (links point to earlier versions) is an assumption about the registry. The Java code does not check it.
- `CommonUtils.getBoolean` and `CommonUtils.isEmpty`: CommonUtils is not part of this model. They are modelled as `Boolean.parseBoolean` on non-empty text and as a null-or-empty test.
- Pom.ParseScope: upper-cases ASCII letters only. Locale.ENGLISH upper-casing of other letters (for example the dotless ı, the long ſ and ligatures that expand) is not modelled. Such texts count as unknown scopes in the model.
- Logging, `getPath` (the `artifact:version` text used in log lines and `toString`) and `context.getMonitor()` progress calls: they have no effect on the state.
- Object identity:
  - The Java `MavenProfile` and `MavenArtifactDependency` objects are values here. `ParseProfile` writes the updated profile back into the list.
  - A dependency's exclusions are gathered before the dependency is appended rather than after. The final state is the same.
- A null `imports` list and a null `dependencyManagement` or `dependencies` list are the empty sequence. Every reader treats the two alike.
- Exceptions other than an unknown scope and a reached null import are not modelled (out of memory, I/O inside the registry).
