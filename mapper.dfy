/**
 * NPMDependencyMapper.java: builds the dependency tree of a package by querying the
 * registry for every node, consulting and filling the tree cache on the way.
 *
 * The source runs one fork-join task per node and joins the children of a node before
 * the node is finished. Here the children of a node are built one after the other, in the
 * order the registry declared them, threading the cache through. The source never detects
 * a cycle; the model bounds the depth by `fuel` and reports `OutOfFuel` when it runs out.
 */
module Mapper {
  import opened Wrappers
  import opened Versions
  import opened Packages
  import opened Storage

  const NpmUrl := "https://registry.npmjs.org"

  /** What fetching a URL and decoding the JSON body yields: an IOException, or the record. */
  datatype Reply = IoFailure | Fetched(answer: NpmPackage)

  /** The registry, as the reply it gives at each URL. */
  type Registry = string -> Reply

  /** `String.format("%s/%s/%s", NPM_URL, name, search)`. */
  function Url(name: string, search: string): string {
    NpmUrl + "/" + name + "/" + search
  }

  /** queryNPM: the registry is addressed by the name and the search token only. */
  function QueryUrl(name: string, version: Version): string {
    Url(name, version.searchExpression)
  }

  /**
   * For names without a '/', different (name, search token) pairs are sent to different
   * URLs; with a '/' in a name, ("a/b", "c") and ("a", "b/c") would share one.
   */
  lemma UrlInjective(name1: string, search1: string, name2: string, search2: string)
    requires '/' !in name1 && '/' !in name2
    ensures Url(name1, search1) == Url(name2, search2) <==> name1 == name2 && search1 == search2
  {
    var prefix := NpmUrl + "/";
    var u1, u2 := Url(name1, search1), Url(name2, search2);
    assert u1 == prefix + (name1 + "/" + search1);
    assert u2 == prefix + (name2 + "/" + search2);
    if u1 == u2 {
      var t1, t2 := name1 + "/" + search1, name2 + "/" + search2;
      assert t1 == u1[|prefix|..] == u2[|prefix|..] == t2;
      assert t1[|name1|] == '/' && t2[|name2|] == '/';
      assert name1 == t1[..|name1|] == t2[..|name2|] == name2;
      assert search1 == t1[|name1| + 1..] == t2[|name2| + 1..] == search2;
    }
  }

  /**
   * For a given name, two versions are looked up at the same URL exactly when their search
   * tokens agree: the original expression and the resolved version play no part.
   */
  lemma QueryUrlDependsOnSearchExpression(name: string, v1: Version, v2: Version)
    ensures QueryUrl(name, v1) == QueryUrl(name, v2) <==> v1.searchExpression == v2.searchExpression
  {
    var prefix := NpmUrl + "/" + name + "/";
    assert QueryUrl(name, v1) == prefix + v1.searchExpression;
    assert QueryUrl(name, v2) == prefix + v2.searchExpression;
    if QueryUrl(name, v1) == QueryUrl(name, v2) {
      assert v1.searchExpression == QueryUrl(name, v1)[|prefix|..];
      assert v2.searchExpression == QueryUrl(name, v2)[|prefix|..];
    }
  }

  /** A node after its registry lookup, with the bare children it declares. */
  datatype Fetch = Fetch(node: Package, children: seq<Package>)

  /**
   * getDependenciesFromNPM: an IOException leaves the node as it was and gives no children;
   * a reply records the reported version as the node's minimalVersion and maps the declared
   * dependencies to bare children, failing on an empty version expression.
   */
  function DependenciesFromNpm(registry: Registry, p: Package): (r: Result<Fetch, Error>)
    ensures registry(QueryUrl(p.name, p.version)).IoFailure? ==> r == Success(Fetch(p, []))
    ensures r.Failure? ==> r.error == EmptyVersion
    ensures r.Success? ==>
      && r.value.node.name == p.name
      && r.value.node.dependencies == p.dependencies
      && r.value.node.version.originalExpression == p.version.originalExpression
      && r.value.node.version.searchExpression == p.version.searchExpression
    ensures registry(QueryUrl(p.name, p.version)).Fetched? ==>
      var answer := registry(QueryUrl(p.name, p.version)).answer;
      && (r.Success? ==> r.value.node.version.minimalVersion == answer.version)
      && (answer.dependencies.None? ==> r.Success? && r.value.children == [])
      && (answer.dependencies.Some? ==> (r.Success? <==> DependenciesAsPackages(answer).Success?))
      && (answer.dependencies.Some? && r.Success? ==> DependenciesAsPackages(answer) == Success(r.value.children))
  {
    match registry(QueryUrl(p.name, p.version))
    case IoFailure => Success(Fetch(p, []))
    case Fetched(answer) =>
      var resolved := p.(version := p.version.(minimalVersion := answer.version));
      if answer.dependencies.None? || answer.dependencies.value == [] then
        Success(Fetch(resolved, []))
      else
        match DependenciesAsPackages(answer)
        case Failure(e) => Failure(e)
        case Success(children) => Success(Fetch(resolved, children))
  }

  /** The result of building one node: the finished node, or the failure that escapes. */
  datatype Outcome = Built(tree: Package) | Failed(error: Error)

  /**
   * DependencyTreeBuildingTask.compute, as a function of the cache it starts from: the
   * outcome and the cache it leaves. The cache is consulted under the node's current
   * minimalVersion before any registry call; a hit returns the node itself unchanged. After
   * the lookup the children are built in order, the finished node is stored under its
   * name and new minimalVersion, and returned.
   */
  function Build(registry: Registry, cache: Cache, node: Package, fuel: nat): (Outcome, Cache)
    decreases fuel, 1, 0
  {
    if fuel == 0 then
      (Failed(OutOfFuel), cache)
    else if Lookup(cache, node.name, node.version.minimalVersion).Some? then
      (Built(node), cache)
    else
      Expand(registry, cache, node, fuel)
  }

  /**
   * The rest of compute after a cache miss: look the node up, build the children it
   * declares with one level less of depth, then assemble.
   */
  function Expand(registry: Registry, cache: Cache, node: Package, fuel: nat): (Outcome, Cache)
    requires fuel > 0
    decreases fuel, 0, 0
  {
    match DependenciesFromNpm(registry, node)
    case Failure(e) => (Failed(e), cache)
    case Success(fetched) => Assemble(fetched.node, BuildAll(registry, cache, fetched.children, fuel - 1, []))
  }

  /**
   * The end of compute once the children are joined: the looked-up node takes the finished
   * children as its dependency set and is stored under its name and resolved version.
   */
  function Assemble(node: Package, joined: (Result<seq<Package>, Error>, Cache)): (Outcome, Cache) {
    match joined.0
    case Failure(e) => (Failed(e), joined.1)
    case Success(done) =>
      var tree := node.(dependencies := ToSet(done));
      (Built(tree), Store(joined.1, tree.name, tree.version.minimalVersion, tree))
  }

  /**
   * The fan-out of createSubtasks and invokeAll/join, one child after the other: `done`
   * holds the children finished so far; the first failure escapes.
   */
  function BuildAll(registry: Registry, cache: Cache, pending: seq<Package>, fuel: nat, done: seq<Package>)
    : (Result<seq<Package>, Error>, Cache)
    decreases fuel, 2, |pending|
  {
    if pending == [] then
      (Success(done), cache)
    else
      var first := Build(registry, cache, pending[0], fuel);
      match first.0
      case Failed(e) => (Failure(e), first.1)
      case Built(t) => BuildAll(registry, first.1, pending[1..], fuel, done + [t])
  }

  /** buildDependencyTreeAsync: parse the expression, make a bare root and build it. */
  function BuildFromExpression(registry: Registry, cache: Cache, name: string, expression: string, fuel: nat)
    : (Outcome, Cache)
  {
    match ValueOf(expression)
    case Failure(e) => (Failed(e), cache)
    case Success(v) => Build(registry, cache, Create(name, v, None), fuel)
  }

  /** getDependencyTree: build the tree, then store the root once more under its resolved version. */
  function DependencyTree(registry: Registry, cache: Cache, name: string, expression: string, fuel: nat)
    : (Outcome, Cache)
  {
    var built := BuildFromExpression(registry, cache, name, expression, fuel);
    match built.0
    case Failed(_) => built
    case Built(t) => (built.0, Store(built.1, name, t.version.minimalVersion, t))
  }

  /** Build past the fuel check, a cache miss and a successful lookup: assemble the joined children. */
  lemma BuildUnfold(registry: Registry, cache: Cache, node: Package, fuel: nat)
    requires fuel > 0 && Key(node.name, node.version.minimalVersion) !in cache
    requires DependenciesFromNpm(registry, node).Success?
    ensures var fetched := DependenciesFromNpm(registry, node).value;
      Build(registry, cache, node, fuel) == Assemble(fetched.node, BuildAll(registry, cache, fetched.children, fuel - 1, []))
  {
    assert Build(registry, cache, node, fuel) == Expand(registry, cache, node, fuel);
  }

  /** A node and the node it was built from agree on name and on both expressions. */
  predicate SameOrigin(built: Package, bare: Package) {
    && built.name == bare.name
    && built.version.originalExpression == bare.version.originalExpression
    && built.version.searchExpression == bare.version.searchExpression
  }

  /** The cache key of a finished node: its name and the version the registry reported. */
  function KeyOf(t: Package): string {
    Key(t.name, t.version.minimalVersion)
  }

  /**
   * On a cache hit the node comes back exactly as it was passed in (for a fresh node: no
   * dependencies, no resolved version), whatever is cached and whatever the registry says,
   * and the cache is left alone.
   */
  lemma CacheHitReturnsNodeUnchanged(registry: Registry, other: Registry, cache: Cache, node: Package, fuel: nat)
    requires fuel > 0 && Key(node.name, node.version.minimalVersion) in cache
    ensures Build(registry, cache, node, fuel) == (Built(node), cache)
    ensures Build(other, cache, node, fuel) == Build(registry, cache, node, fuel)
  {
  }

  /**
   * A failed registry lookup does not abort the traversal: the node becomes a leaf that keeps
   * its (unset) resolved version and is stored under that version.
   */
  lemma LookupFailureDegradesToLeaf(registry: Registry, cache: Cache, node: Package, fuel: nat)
    requires fuel > 0 && Key(node.name, node.version.minimalVersion) !in cache
    requires registry(QueryUrl(node.name, node.version)).IoFailure?
    ensures var leaf := node.(dependencies := {});
      Build(registry, cache, node, fuel) == (Built(leaf), Store(cache, node.name, node.version.minimalVersion, leaf))
  {
    assert BuildAll(registry, cache, [], fuel - 1, []) == (Success([]), cache);
    assert ToSet([]) == {};
  }

  /**
   * A successful lookup sets the resolved version to exactly the reported one, and the
   * finished node is then stored under that version.
   */
  lemma SuccessfulLookupRecordsVersion(registry: Registry, cache: Cache, node: Package, fuel: nat)
    requires Key(node.name, node.version.minimalVersion) !in cache
    requires registry(QueryUrl(node.name, node.version)).Fetched?
    ensures var built := Build(registry, cache, node, fuel);
      var outcome, after := built.0, built.1;
      outcome.Built? ==>
        && outcome.tree.version.minimalVersion == registry(QueryUrl(node.name, node.version)).answer.version
        && Key(node.name, outcome.tree.version.minimalVersion) in after
        && after[Key(node.name, outcome.tree.version.minimalVersion)] == outcome.tree
  {
  }

  /**
   * A finished node keeps the name and expressions it was created with, and can be found in
   * the cache it leaves under its own key; unless it was a cache hit, the entry is the node.
   */
  lemma BuildKeepsIdentity(registry: Registry, cache: Cache, node: Package, fuel: nat)
    ensures var built := Build(registry, cache, node, fuel);
      var outcome, after := built.0, built.1;
      outcome.Built? ==>
        && SameOrigin(outcome.tree, node)
        && KeyOf(outcome.tree) in after
        && (KeyOf(node) !in cache ==> after[KeyOf(outcome.tree)] == outcome.tree)
  {
  }

  /** The fan-out yields one finished child per pending child, in order, after those already done. */
  lemma {:induction false} BuildAllShape(registry: Registry, cache: Cache, pending: seq<Package>, fuel: nat, done: seq<Package>)
    ensures var result := BuildAll(registry, cache, pending, fuel, done).0;
      result.Success? ==>
        && |done| <= |result.value|
        && result.value[..|done|] == done
        && SameOrigins(result.value[|done|..], pending)
    decreases |pending|
  {
    if pending != [] {
      var first := Build(registry, cache, pending[0], fuel);
      BuildKeepsIdentity(registry, cache, pending[0], fuel);
      if first.0.Built? {
        var t := first.0.tree;
        BuildAllShape(registry, first.1, pending[1..], fuel, done + [t]);
        var result := BuildAll(registry, first.1, pending[1..], fuel, done + [t]).0;
        if result.Success? {
          var out := result.value;
          assert out[..|done| + 1] == done + [t];
          assert out[..|done|] == (done + [t])[..|done|];
          assert out[|done|] == (done + [t])[|done|];
          var tail := out[|done|..];
          forall k | 0 <= k < |tail|
            ensures SameOrigin(tail[k], pending[k])
          {
            if k > 0 {
              assert tail[k] == out[|done| + 1..][k - 1];
              assert pending[k] == pending[1..][k - 1];
            }
          }
        }
      }
    }
  }

  /** Joining from scratch: the finished children line up with the bare ones. */
  lemma JoinedChildrenShape(registry: Registry, cache: Cache, pending: seq<Package>, fuel: nat)
    ensures var result := BuildAll(registry, cache, pending, fuel, []).0;
      result.Success? ==> SameOrigins(result.value, pending)
  {
    BuildAllShape(registry, cache, pending, fuel, []);
    var result := BuildAll(registry, cache, pending, fuel, []).0;
    if result.Success? {
      assert result.value[0..] == result.value;
    }
  }

  /**
   * The children of a looked-up node follow the declared dependencies: each child comes
   * from an entry (name = key, expressions parsed from the value) and each entry gives a
   * child; a missing map gives none; with distinct keys no two entries collapse.
   */
  lemma ChildrenFollowDeclaredEntries(registry: Registry, cache: Cache, node: Package, fuel: nat)
    requires Key(node.name, node.version.minimalVersion) !in cache
    requires registry(QueryUrl(node.name, node.version)).Fetched?
    requires Build(registry, cache, node, fuel).0.Built?
    ensures var answer := registry(QueryUrl(node.name, node.version)).answer;
      var children := Build(registry, cache, node, fuel).0.tree.dependencies;
      && (answer.dependencies.None? ==> children == {})
      && (answer.dependencies.Some? ==>
            && MatchesEntries(children, answer.dependencies.value)
            && (DistinctKeys(answer.dependencies.value) ==> |children| == |answer.dependencies.value|))
  {
    var answer := registry(QueryUrl(node.name, node.version)).answer;
    var fetched := DependenciesFromNpm(registry, node).value;
    var joined := BuildAll(registry, cache, fetched.children, fuel - 1, []);
    BuildUnfold(registry, cache, node, fuel);
    JoinedChildrenShape(registry, cache, fetched.children, fuel - 1);
    var done := joined.0.value;
    var children := Build(registry, cache, node, fuel).0.tree.dependencies;
    assert children == ToSet(done);
    if answer.dependencies.Some? {
      var bare := fetched.children;
      FetchedChildrenMatchEntries(registry, node);
      JoinedChildrenMatchEntries(answer.dependencies.value, bare, done, children);
    } else {
      assert fetched.children == [];
    }
  }

  /** After a successful lookup, the bare children are the declared entries, one for one and in order. */
  lemma FetchedChildrenMatchEntries(registry: Registry, node: Package)
    requires registry(QueryUrl(node.name, node.version)).Fetched?
    requires registry(QueryUrl(node.name, node.version)).answer.dependencies.Some?
    requires DependenciesFromNpm(registry, node).Success?
    ensures var entries := registry(QueryUrl(node.name, node.version)).answer.dependencies.value;
      BareFromEntries(DependenciesFromNpm(registry, node).value.children, entries)
  {
  }

  /** One bare node per entry, in order: named by the key, with the version parsed from the value. */
  predicate BareFromEntries(bare: seq<Package>, entries: seq<Entry>) {
    && |bare| == |entries|
    && (forall k :: 0 <= k < |entries| ==> bare[k].name == entries[k].0)
    && (forall k {:trigger ValueOf(entries[k].1)} :: 0 <= k < |entries| ==> ValueOf(entries[k].1) == Success(bare[k].version))
  }

  /** Two sequences of nodes that agree pairwise on name and expressions. */
  predicate SameOrigins(built: seq<Package>, bare: seq<Package>) {
    |built| == |bare| && forall k :: 0 <= k < |built| ==> SameOrigin(built[k], bare[k])
  }

  /** Every child comes from some entry and every entry gives some child. */
  predicate MatchesEntries(children: set<Package>, entries: seq<Entry>) {
    && (forall c :: c in children ==> exists k :: 0 <= k < |entries| && FromEntry(c, entries[k]))
    && (forall k :: 0 <= k < |entries| ==> exists c :: c in children && FromEntry(c, entries[k]))
  }

  /** The finished children, collected into a set, correspond one to one with the entries they came from. */
  lemma JoinedChildrenMatchEntries(entries: seq<Entry>, bare: seq<Package>, done: seq<Package>, children: set<Package>)
    requires BareFromEntries(bare, entries) && SameOrigins(done, bare)
    requires children == ToSet(done)
    ensures MatchesEntries(children, entries)
    ensures DistinctKeys(entries) ==> |children| == |entries|
  {
    forall k | 0 <= k < |entries|
      ensures done[k] in children && FromEntry(done[k], entries[k])
    {
    }
    forall c | c in children
      ensures exists k :: 0 <= k < |entries| && FromEntry(c, entries[k])
    {
      var k :| 0 <= k < |done| && done[k] == c;
      assert FromEntry(done[k], entries[k]);
    }
    if DistinctKeys(entries) {
      DistinctKeysGiveDistinctNodes(entries, done);
    }
  }

  /** A child built from a declared entry: named by its key, with both expressions read from its value. */
  predicate FromEntry(child: Package, entry: Entry) {
    && child.name == entry.0
    && ValueOf(entry.1).Success?
    && child.version.originalExpression == entry.1
    && child.version.searchExpression == ValueOf(entry.1).value.searchExpression
  }

  /**
   * An empty version expression among the declared dependencies is not an I/O error, so it
   * is not caught: the whole build fails before any child is visited.
   */
  lemma EmptyChildVersionFails(registry: Registry, cache: Cache, node: Package, fuel: nat, k: nat)
    requires fuel > 0 && Key(node.name, node.version.minimalVersion) !in cache
    requires registry(QueryUrl(node.name, node.version)).Fetched?
    requires var entries := registry(QueryUrl(node.name, node.version)).answer.dependencies;
      entries.Some? && k < |entries.value| && entries.value[k].1 == ""
    ensures Build(registry, cache, node, fuel) == (Failed(EmptyVersion), cache)
  {
  }

  /** Building only adds or replaces cache entries; it never removes one. */
  lemma {:induction false} BuildNeverRemovesEntries(registry: Registry, cache: Cache, node: Package, fuel: nat)
    ensures cache.Keys <= Build(registry, cache, node, fuel).1.Keys
    decreases fuel, 1, 0
  {
    if fuel > 0 && Lookup(cache, node.name, node.version.minimalVersion).None? {
      ExpandNeverRemovesEntries(registry, cache, node, fuel);
    }
  }

  /** The part after a cache miss only adds or replaces cache entries. */
  lemma {:induction false} ExpandNeverRemovesEntries(registry: Registry, cache: Cache, node: Package, fuel: nat)
    requires fuel > 0
    ensures cache.Keys <= Expand(registry, cache, node, fuel).1.Keys
    decreases fuel, 0, 0
  {
    var fetched := DependenciesFromNpm(registry, node);
    if fetched.Success? {
      BuildAllNeverRemovesEntries(registry, cache, fetched.value.children, fuel - 1, []);
    }
  }

  /** The fan-out only adds or replaces cache entries. */
  lemma {:induction false} BuildAllNeverRemovesEntries(registry: Registry, cache: Cache, pending: seq<Package>, fuel: nat, done: seq<Package>)
    ensures cache.Keys <= BuildAll(registry, cache, pending, fuel, done).1.Keys
    decreases fuel, 2, |pending|
  {
    if pending != [] {
      var first := Build(registry, cache, pending[0], fuel);
      BuildNeverRemovesEntries(registry, cache, pending[0], fuel);
      if first.0.Built? {
        BuildAllNeverRemovesEntries(registry, first.1, pending[1..], fuel, done + [first.0.tree]);
      }
    }
  }

  /**
   * The depth bound only cuts a build short: a build that did not run out of fuel gives the
   * same outcome and the same cache with more fuel.
   */
  lemma {:induction false} MoreFuelSameBuild(registry: Registry, cache: Cache, node: Package, fuel: nat)
    requires Build(registry, cache, node, fuel).0 != Failed(OutOfFuel)
    ensures Build(registry, cache, node, fuel + 1) == Build(registry, cache, node, fuel)
    decreases fuel, 1, 0
  {
    if fuel == 0 {
      assert false;
    } else if Lookup(cache, node.name, node.version.minimalVersion).None? {
      MoreFuelSameExpand(registry, cache, node, fuel);
    }
  }

  /** The part after a cache miss, with more fuel. */
  lemma {:induction false} MoreFuelSameExpand(registry: Registry, cache: Cache, node: Package, fuel: nat)
    requires fuel > 0 && Expand(registry, cache, node, fuel).0 != Failed(OutOfFuel)
    ensures Expand(registry, cache, node, fuel + 1) == Expand(registry, cache, node, fuel)
    decreases fuel, 0, 0
  {
    var fetched := DependenciesFromNpm(registry, node);
    if fetched.Success? {
      MoreFuelSameBuildAll(registry, cache, fetched.value.children, fuel - 1, []);
    }
  }

  /** The fan-out counterpart of MoreFuelSameBuild. */
  lemma {:induction false} MoreFuelSameBuildAll(registry: Registry, cache: Cache, pending: seq<Package>, fuel: nat, done: seq<Package>)
    requires BuildAll(registry, cache, pending, fuel, done).0 != Failure(OutOfFuel)
    ensures BuildAll(registry, cache, pending, fuel + 1, done) == BuildAll(registry, cache, pending, fuel, done)
    decreases fuel, 2, |pending|
  {
    if pending != [] {
      var first := Build(registry, cache, pending[0], fuel);
      if first.0 != Failed(OutOfFuel) {
        MoreFuelSameBuild(registry, cache, pending[0], fuel);
        if first.0.Built? {
          MoreFuelSameBuildAll(registry, first.1, pending[1..], fuel, done + [first.0.tree]);
        }
      }
    }
  }

  /**
   * getDependencyTree: an empty expression fails before any lookup and leaves the cache
   * alone; a finished root carries the requested name and expression and is cached under
   * its resolved version.
   */
  lemma DependencyTreeResult(registry: Registry, cache: Cache, name: string, expression: string, fuel: nat)
    ensures expression == "" ==> DependencyTree(registry, cache, name, expression, fuel) == (Failed(EmptyVersion), cache)
    ensures var built := DependencyTree(registry, cache, name, expression, fuel);
      var outcome, after := built.0, built.1;
      outcome.Built? ==>
        && outcome.tree.name == name
        && outcome.tree.version.originalExpression == expression
        && outcome.tree.version.searchExpression == ValueOf(expression).value.searchExpression
        && Key(name, outcome.tree.version.minimalVersion) in after
        && after[Key(name, outcome.tree.version.minimalVersion)] == outcome.tree
  {
    if expression != "" {
      BuildKeepsIdentity(registry, cache, Create(name, ValueOf(expression).value, None), fuel);
    }
  }

  /** The mapper object: the shared cache it fills and the registry it queries. */
  class DependencyMapper {
    const storage: TreeStorage
    const registry: Registry

    constructor(storage: TreeStorage, registry: Registry)
      ensures this.storage == storage && this.registry == registry
    {
      this.storage := storage;
      this.registry := registry;
    }

    /** getDependencyTree */
    method GetDependencyTree(packageName: string, version: string, fuel: nat) returns (r: Outcome)
      modifies storage
      ensures (r, storage.cache) == DependencyTree(registry, old(storage.cache), packageName, version, fuel)
    {
      r := BuildDependencyTree(packageName, version, fuel);
      if r.Built? {
        storage.Put(packageName, r.tree.version.minimalVersion, r.tree);
      }
    }

    /** buildDependencyTreeAsync, with the root fork-join task run to completion in place of submit/join. */
    method BuildDependencyTree(packageName: string, versionExpression: string, fuel: nat) returns (r: Outcome)
      modifies storage
      ensures (r, storage.cache) == BuildFromExpression(registry, old(storage.cache), packageName, versionExpression, fuel)
    {
      var version := ValueOf(versionExpression);
      if version.Failure? {
        return Failed(version.error);
      }
      var root := Create(packageName, version.value, None);
      r := Compute(root, fuel);
    }

    /** DependencyTreeBuildingTask.compute on `parent`. */
    method Compute(parent: Package, fuel: nat) returns (r: Outcome)
      modifies storage
      ensures (r, storage.cache) == Build(registry, old(storage.cache), parent, fuel)
      decreases fuel, 1
    {
      if fuel == 0 {
        return Failed(OutOfFuel);
      }
      var cached := storage.Get(parent.name, parent.version.minimalVersion);
      if cached.Some? {
        return Built(parent);
      }
      r := ExpandNode(parent, fuel);
    }

    /** compute after a cache miss: query the registry, join one subtask per child, store the node. */
    method ExpandNode(parent: Package, fuel: nat) returns (r: Outcome)
      requires fuel > 0
      modifies storage
      ensures (r, storage.cache) == Expand(registry, old(storage.cache), parent, fuel)
      decreases fuel, 0
    {
      var fetched := DependenciesFromNpm(registry, parent);
      if fetched.Failure? {
        return Failed(fetched.error);
      }
      var joined := JoinChildren(fetched.value.children, fuel - 1);
      if joined.Failure? {
        return Failed(joined.error);
      }
      var node := fetched.value.node.(dependencies := ToSet(joined.value));
      storage.Put(node.name, node.version.minimalVersion, node);
      r := Built(node);
    }

    /**
     * createSubtasks followed by invokeAll and join: one subtask per child, each run to
     * completion before the next; the first failure escapes.
     */
    method JoinChildren(children: seq<Package>, fuel: nat) returns (r: Result<seq<Package>, Error>)
      modifies storage
      ensures (r, storage.cache) == BuildAll(registry, old(storage.cache), children, fuel, [])
      decreases fuel, 2
    {
      var done: seq<Package> := [];
      var i := 0;
      while i < |children|
        invariant 0 <= i <= |children|
        invariant BuildAll(registry, old(storage.cache), children, fuel, [])
               == BuildAll(registry, storage.cache, children[i..], fuel, done)
      {
        assert children[i..][1..] == children[i + 1..];
        var child := Compute(children[i], fuel);
        if child.Failed? {
          return Failure(child.error);
        }
        done := done + [child.tree];
        i := i + 1;
      }
      r := Success(done);
    }
  }
}
