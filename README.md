# NPM dependency-tree service — a Dafny model

This project models the core of a small web service. Given a package name and a version
expression, the service builds the tree of the package's transitive dependencies by querying
the npm registry, and keeps finished subtrees in an in-memory cache.

The model covers:

- **Version parsing** (`Version.valueOf`). An empty expression is rejected. Otherwise the
  registry is searched with a token cut out of the expression by an unanchored search for a
  semantic-version pattern. Without a match, the whole expression is the token.
  - The pattern is written out as a hand-coded matcher, `SemverPattern`. It tries the
    alternatives in order and its quantifiers are greedy, as a backtracking engine's first
    successful path is.
  - The pattern is also stated declaratively, as the language of the regular expression.
  - The proofs show that the search returns the leftmost occurrence of that language, and
    at that start its longest member. That is what `Matcher.find()` returns for this pattern.
- **Packages** (`Package`, `NPMPackage.getDependenciesAsPackages`). Both are values:
  - `Create` is the builder constructor, with its empty-set normalisation.
  - The registry's JSON answer has an optional name, an optional version and an optional,
    ordered list of declared dependencies.
- **The tree cache** (`InMemoryDependencyTreeStorage`). It is a `map<string, Package>` keyed
  by `name@version`, where an unset version formats as `null`.
  - `Storage.TreeStorage` is the object whose `Get` and `Put` read and replace that map in
    place.
  - Pure functions `Lookup` and `Store` state the same behaviour. The lemmas beside them
    cover overwriting and key aliasing.
- **The mapper** (`NPMDependencyMapper`):
  - `getDependencyTree` and `buildDependencyTreeAsync`;
  - `getDependenciesFromNPM`, `queryNPM` and the URL it builds;
  - the fork-join task `compute` together with `createSubtasks`.

  Each method of the class `Mapper.DependencyMapper` is proved equal to a specification
  function: `Build`, `Expand`, `BuildAll`, `BuildFromExpression` or `DependencyTree`. Each
  function returns the outcome and the cache it leaves. The lemmas prove what the service
  promises about those functions:
  - a cache hit returns the node untouched;
  - a failed lookup degrades the node to a leaf;
  - a successful lookup records the reported version;
  - the children follow the declared dependencies one for one;
  - an empty child version aborts the whole build;
  - the cache only grows;
  - the depth bound only cuts builds short.

  `Scenarios` works two complete calls through against small registries.

The registry is a parameter: a function from the URL to either an I/O failure or a decoded
answer. It stands for the HTTP client and the JSON decoder. Because the registry is keyed by
the URL, "the lookup depends only on the name and the search token" is a theorem
(`QueryUrlDependsOnSearchExpression`), not an assumption.

The source recurses without a depth bound. On a dependency cycle it recurses until the JVM
runs out of stack, and the error surfaces through `join()` out of `getDependencyTree`. The
model threads a `fuel` depth bound and reports `OutOfFuel` when the bound is reached.
`MoreFuelSameBuild` shows that fuel never changes a result that was reached within the bound.

Two details of the cache follow `compute` exactly:

- `compute` consults the cache under the node's *current* `minimalVersion`, never under its
  search token. For a node that has not been looked up yet, that version is unset, so the key
  is `name@null`. (The unused `buildDependencyTreeRecursive` at
  `NPMDependencyMapper.java:125` looks up by the search token instead; it is not modelled.)
- A cache hit returns the node that was passed in, not the cached tree. For a fresh child
  that means a node without dependencies or a resolved version (`CacheHitReturnsNodeUnchanged`).

## Model

| member | source | states |
|---|---|---|
| SemverPattern.NumEnd | src/main/java/com/snyk/models/Version.java:13-14 | the major or minor number group (`0` or `[1-9]\d*`) at a position: what it returns is a number of the language, and when it returns nothing no number starts there |
| SemverPattern.PatchEnd | src/main/java/com/snyk/models/Version.java:13-14 | the patch group (`0`, `[1-9]\d*` or `*`): sound when it matches, and no patch starts there when it does not |
| SemverPattern.FindFrom | src/main/java/com/snyk/models/Version.java:33-34 | the unanchored search: the start it returns is the first position at which the anchored match succeeds, and it returns nothing only when the match fails at every position |
| SemverPattern.MatchEndSound | src/main/java/com/snyk/models/Version.java:13-14 | the anchored match returns a substring that belongs to the pattern's language |
| SemverPattern.MatchEndMaximal | src/main/java/com/snyk/models/Version.java:13-14 | wherever a member of the language starts, the anchored match succeeds there and reaches at least as far as that member |
| SemverPattern.SegmentSound | src/main/java/com/snyk/models/Version.java:14 | the greedy optional pre-release or build segment stays inside the language of dot-separated lower-case identifiers |
| SemverPattern.SegmentCovers | src/main/java/com/snyk/models/Version.java:14 | the greedy optional segment reaches at least as far as any segment of the language at that position |
| SemverPattern.FindIsLeftmostLongest | src/main/java/com/snyk/models/Version.java:33-35 | find returns the leftmost occurrence of the language and, at that start, its longest member; it returns nothing exactly when no substring belongs to the language |
| SemverPattern.LeftmostLongestUnique | src/main/java/com/snyk/models/Version.java:33-35 | the leftmost-longest occurrence is unique, so the search token is determined by the expression alone |
| SemverPattern.SemVerShape | src/main/java/com/snyk/models/Version.java:13-14 | a member of the language is at least five characters long, starts with a digit, holds two dots and uses only digits, lower-case letters, `.`, `-`, `+` and `*` |
| Versions.ValueOf | src/main/java/com/snyk/models/Version.java:28-40 | fails with EmptyVersion exactly on the empty expression; otherwise the original expression is kept verbatim, the resolved version is unset, and the search token is the whole expression or strictly shorter |
| Versions.SearchExpressionOfMatch | src/main/java/com/snyk/models/Version.java:33-36 | when the pattern occurs, the search token is its leftmost-longest occurrence |
| Versions.SearchExpressionWithoutMatch | src/main/java/com/snyk/models/Version.java:39 | when the pattern does not occur, the search token is the whole expression |
| Versions.SubstringShape | src/main/java/com/snyk/models/Version.java:13-14 | the shape of a language member, read off the substring itself |
| Versions.SearchExpressionShape | src/main/java/com/snyk/models/Version.java:33-36 | a token found by the search is a contiguous piece of the expression that starts with a digit, holds two dots and uses only the pattern's characters |
| Versions.CaretRangeExample | src/main/java/com/snyk/models/Version.java:33-36 | `^1.2.3` is searched as `1.2.3` |
| Versions.PreReleaseAndBuildExample | src/main/java/com/snyk/models/Version.java:33-36 | `~1.2.3-beta.1+b2` is searched as `1.2.3-beta.1+b2`: both optional segments are taken |
| Versions.TagExample | src/main/java/com/snyk/models/Version.java:39 | a dist-tag such as `latest` is sent unchanged |
| Versions.PartialRangeExample | src/main/java/com/snyk/models/Version.java:39 | a partial range `^1.2` has no match and is sent unchanged |
| Versions.LeadingZeroPatchExample | src/main/java/com/snyk/models/Version.java:13-14 | `1.2.05` is searched as `1.2.0`: the `0` alternative wins and nothing anchors the end |
| Versions.LeadingZeroMajorExample | src/main/java/com/snyk/models/Version.java:33-35 | `01.2.3` is searched as `1.2.3`: nothing anchors the start |
| Versions.LeadingZeroMinorExample | src/main/java/com/snyk/models/Version.java:39 | `1.02.3` has no match at all and is sent unchanged |
| Versions.UpperCasePreReleaseExample | src/main/java/com/snyk/models/Version.java:14 | `1.2.3-Beta` is searched as `1.2.3`: the identifier class is lower case only |
| Packages.Create | src/main/java/com/snyk/models/Package.java:16-21 | name and version are stored as given; the dependency set is the given one, or empty when none was given |
| Packages.CreateFromFields | src/main/java/com/snyk/models/Package.java:16-21 | rebuilding a node from its own fields gives it back, so the empty-set normalisation loses nothing |
| Packages.DistinctNamesDistinctPackages | src/main/java/com/snyk/models/Package.java:10-14 | with field-wise equality, nodes with different names are never equal |
| Packages.EntriesAsPackages | src/main/java/com/snyk/models/NPMPackage.java:23-27 | succeeds exactly when no entry has an empty version; it then gives one bare node per entry, in order, named by the key, with the version parsed from the value and no dependencies; otherwise it fails with EmptyVersion |
| Packages.DependenciesAsPackages | src/main/java/com/snyk/models/NPMPackage.java:23-27 | the same, for the declared dependencies of a registry answer |
| Packages.DistinctKeysGiveDistinctNodes | src/main/java/com/snyk/core/NPMDependencyMapper.java:100-106 | nodes built from the distinct keys of a JSON object have distinct names, so collecting them into a set keeps every one |
| Storage.LookupAfterStore | src/main/java/com/snyk/storage/InMemoryDependencyTreeStorage.java:18-25 | a get right after a put under the same name and version returns what was put |
| Storage.StoreOverwrites | src/main/java/com/snyk/storage/InMemoryDependencyTreeStorage.java:23-25 | the last put under a key wins and the earlier value leaves no trace |
| Storage.StoreLeavesOtherKeys | src/main/java/com/snyk/storage/InMemoryDependencyTreeStorage.java:23-25 | a put leaves every other formatted key as it was, absent ones included |
| Storage.AtSignAliasing | src/main/java/com/snyk/storage/InMemoryDependencyTreeStorage.java:19 | moving an `@` between name and version gives the same key, so `("a@b", "c")` and `("a", "b@c")` share one entry |
| Storage.NullAliasing | src/main/java/com/snyk/storage/InMemoryDependencyTreeStorage.java:19 | an unset version formats as `null` and shares its entry with the literal version `"null"` |
| Storage.KeyInjective | src/main/java/com/snyk/storage/InMemoryDependencyTreeStorage.java:19 | for names without `@`, two keys are equal exactly when the names are equal and the versions format alike |
| Storage.TreeStorage.constructor | src/main/java/com/snyk/storage/InMemoryDependencyTreeStorage.java:13-15 | a new storage starts with an empty cache |
| Storage.TreeStorage.Get | src/main/java/com/snyk/storage/InMemoryDependencyTreeStorage.java:18-20 | returns the entry under the formatted key (present exactly when the key is in the cache) and changes nothing |
| Storage.TreeStorage.Put | src/main/java/com/snyk/storage/InMemoryDependencyTreeStorage.java:23-25 | the new cache is the old one with the formatted key mapped to the tree, whatever it held before |
| Mapper.UrlInjective | src/main/java/com/snyk/core/NPMDependencyMapper.java:179 | for names without `/`, two lookups go to the same URL exactly when name and search token agree |
| Mapper.QueryUrlDependsOnSearchExpression | src/main/java/com/snyk/core/NPMDependencyMapper.java:175-181 | for one name, two versions are looked up at the same URL exactly when their search tokens agree; the original expression and the resolved version play no part |
| Mapper.DependenciesFromNpm | src/main/java/com/snyk/core/NPMDependencyMapper.java:89-116 | an I/O failure leaves the node as it was, with no children; on a reply the resolved version becomes the reported one, a missing map gives no children, and otherwise the children are the mapped declared dependencies, failing with EmptyVersion exactly when that mapping fails; name, dependencies and both expressions are kept |
| Mapper.CacheHitReturnsNodeUnchanged | src/main/java/com/snyk/core/NPMDependencyMapper.java:197-201 | on a cache hit the node comes back as it was passed in, the cache is unchanged and the registry is never consulted |
| Mapper.LookupFailureDegradesToLeaf | src/main/java/com/snyk/core/NPMDependencyMapper.java:108-115 | a failed lookup does not abort the build: the node becomes a leaf with its resolved version unset and is stored under that version |
| Mapper.SuccessfulLookupRecordsVersion | src/main/java/com/snyk/core/NPMDependencyMapper.java:94 | after a successful lookup the finished node carries exactly the reported version and is cached under it |
| Mapper.BuildKeepsIdentity | src/main/java/com/snyk/core/NPMDependencyMapper.java:194-216 | a finished node keeps its name and both expressions and is in the cache under its own key; unless it was a cache hit, that entry is the node itself |
| Mapper.BuildAllShape | src/main/java/com/snyk/core/NPMDependencyMapper.java:205-210 | the fan-out appends one finished child per pending child, in order, each with the name and expressions of the child it came from |
| Mapper.JoinedChildrenShape | src/main/java/com/snyk/core/NPMDependencyMapper.java:205-210 | joined from scratch, the finished children line up one for one with the bare children |
| Mapper.FetchedChildrenMatchEntries | src/main/java/com/snyk/core/NPMDependencyMapper.java:100-106 | after a successful lookup the bare children are the declared entries, one for one and in order |
| Mapper.JoinedChildrenMatchEntries | src/main/java/com/snyk/core/NPMDependencyMapper.java:205-212 | the finished children, collected into a set, match the entries in both directions, and with distinct keys there are as many as entries |
| Mapper.ChildrenFollowDeclaredEntries | src/main/java/com/snyk/core/NPMDependencyMapper.java:96-106 | the dependency set of a looked-up node is empty when the answer has no map; otherwise every child comes from a declared entry and every entry gives a child, and with distinct keys there is exactly one per entry |
| Mapper.EmptyChildVersionFails | src/main/java/com/snyk/core/NPMDependencyMapper.java:100-108 | an empty declared version is not an I/O error and is not caught: the build fails with EmptyVersion and the cache is unchanged |
| Mapper.BuildNeverRemovesEntries | src/main/java/com/snyk/core/NPMDependencyMapper.java:194-216 | building only adds or replaces cache entries |
| Mapper.ExpandNeverRemovesEntries | src/main/java/com/snyk/core/NPMDependencyMapper.java:203-213 | the work after a cache miss only adds or replaces cache entries |
| Mapper.BuildAllNeverRemovesEntries | src/main/java/com/snyk/core/NPMDependencyMapper.java:205-210 | the fan-out only adds or replaces cache entries |
| Mapper.MoreFuelSameBuild | src/main/java/com/snyk/core/NPMDependencyMapper.java:194-216 | a build that did not run out of depth gives the same outcome and cache with more depth |
| Mapper.MoreFuelSameExpand | src/main/java/com/snyk/core/NPMDependencyMapper.java:203-213 | the same for the work after a cache miss |
| Mapper.MoreFuelSameBuildAll | src/main/java/com/snyk/core/NPMDependencyMapper.java:205-210 | the same for the fan-out |
| Mapper.DependencyTreeResult | src/main/java/com/snyk/core/NPMDependencyMapper.java:41-59 | an empty expression fails with EmptyVersion before any lookup and leaves the cache alone; a finished root has the requested name, expression and search token and is cached under its resolved version |
| Mapper.DependencyMapper.constructor | src/main/java/com/snyk/core/NPMDependencyMapper.java:28-33 | the mapper holds the cache it was given and the registry it queries |
| Mapper.DependencyMapper.GetDependencyTree | src/main/java/com/snyk/core/NPMDependencyMapper.java:41-50 | the outcome and the new cache are those of DependencyTree on the old cache |
| Mapper.DependencyMapper.BuildDependencyTree | src/main/java/com/snyk/core/NPMDependencyMapper.java:52-59 | the outcome and the new cache are those of BuildFromExpression on the old cache |
| Mapper.DependencyMapper.Compute | src/main/java/com/snyk/core/NPMDependencyMapper.java:194-216 | the outcome and the new cache are those of Build on the old cache |
| Mapper.DependencyMapper.ExpandNode | src/main/java/com/snyk/core/NPMDependencyMapper.java:203-215 | the outcome and the new cache are those of Expand on the old cache |
| Mapper.DependencyMapper.JoinChildren | src/main/java/com/snyk/core/NPMDependencyMapper.java:205-226 | one subtask per child, run in order: the result and the new cache are those of BuildAll on the old cache |
| Scenarios.ExactVersionParses | src/main/java/com/snyk/models/Version.java:28-40 | `1.0.0` is searched as itself |
| Scenarios.CaretVersionParses | src/main/java/com/snyk/models/Version.java:28-40 | `^2.0.0` is searched as `2.0.0` |
| Scenarios.ResolvedChildStep | src/main/java/com/snyk/core/NPMDependencyMapper.java:194-216 | a child declared as `^2.0.0` is looked up at `.../b/2.0.0`, takes the reported `2.1.0` and is cached under `b@2.1.0` |
| Scenarios.ResolvedRootLookup | src/main/java/com/snyk/core/NPMDependencyMapper.java:89-106 | the root's lookup records its version and yields one bare child per declared dependency |
| Scenarios.ResolvedScenario | src/main/java/com/snyk/core/NPMDependencyMapper.java:41-59 | from an empty cache, a full call returns the resolved root with its resolved child, and the cache holds exactly those two under their reported versions |
| Scenarios.DegradedJoin | src/main/java/com/snyk/core/NPMDependencyMapper.java:108-115 | a child the registry cannot serve becomes a leaf cached under `missing@null` |
| Scenarios.DegradedScenario | src/main/java/com/snyk/core/NPMDependencyMapper.java:41-59 | from an empty cache, a failed child lookup does not fail the call: the root holds the child as a bare leaf, and the cache holds the root and `missing@null` |

## Left out

- Concurrency: the fork-join pool, `invokeAll` and `join` are modelled as building the
  children one after the other.
  - A failing child aborts its parent at once. In the source, siblings already running may
    still finish and fill the cache.
  - Races between tasks that look up or store the same key are not modelled.
- Sibling order: the source iterates over a `HashSet` of children. The model uses the order
  in which the registry declared the dependencies. The set that collects the bare children
  is a sequence in the model. With the distinct keys of a JSON object it removes nothing
  (`DistinctKeysGiveDistinctNodes`).
- Object identity and aliasing: `Package` and `Version` are values. The source mutates each
  node only inside its own task, before the node is stored or joined into its parent. The
  model snapshots that final state. It does not capture later mutation of an object already
  placed in a hash set.
- The HTTP client (`RestClient`) and the JSON decoder (`JsonHandler`) are not part of this
  model. They are the registry parameter, which yields an I/O failure or a decoded answer.
  Exceptions other than `IOException` from those classes are not modelled; nor is a `null`
  body.
- Logging is left out.
- Unbounded recursion: the `fuel` depth bound and `OutOfFuel` have no counterpart in the
  source. On a dependency cycle the source recurses until the JVM runs out of stack; the model
  reports `OutOfFuel` instead. The stack overflow itself is not modelled.
- The deprecated builders `buildDependencyTreeIterative` and `buildDependencyTreeRecursive`
  are left out, because nothing calls them.
- The controller's checks for an empty package name and an empty version are left out.
  `GetDependencyTree` accepts any name, and an empty version fails through `ValueOf`.
- The `DependencyMapper` and `DependencyTreeStorage` interfaces are not modelled separately.
  Each has one implementation, and that implementation is modelled.
- Mapper.DependenciesFromNpm: a `null` dependency map and an empty one both give no children.
  The model does not distinguish between them.
- Repeated keys in a JSON dependency object: the decoder keeps only the last value for a key,
  so the source builds one child per distinct key. The model's decoded answer is an ordered
  list of entries and does not merge repeated keys. With repeated keys it builds one child
  per entry. The lemmas that count children say so only under `DistinctKeys`.
- A `null` dependency version in the JSON: the decoded entries hold strings, so the model
  cannot represent it. `StringUtils.isEmpty` treats `null` like `""`
  (`Version.java:29-30`), so a decoder that passes `""` for `null` gets the same
  `EmptyVersion` failure the source throws. The model does not check that mapping.
- Packages.DependenciesAsPackages: requires a present dependency map, because the source
  throws a `NullPointerException` on a missing one. The mapper performs the same mapping
  only after checking that the map is not empty.
