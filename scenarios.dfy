/**
 * Two complete runs of getDependencyTree against small registries, from an empty cache:
 * one where every lookup succeeds, and one where the lookup of a dependency fails and
 * that dependency degrades to a leaf.
 */
module Scenarios {
  import opened Wrappers
  import opened SemverPattern
  import opened Versions
  import opened Packages
  import opened Storage
  import opened Mapper

  lemma ExactVersionParses()
    ensures ValueOf("1.0.0") == Success(Version(None, "1.0.0", "1.0.0"))
  {
    ExactVersionMatches();
    assert Find("1.0.0") == Some((0, 5));
    assert "1.0.0"[0..5] == "1.0.0";
  }

  lemma ExactVersionMatches()
    ensures MatchEnd("1.0.0", 0) == Some(5)
  {
    MatchEndUnfold("1.0.0", 0, 1, 3, 5);
  }

  lemma CaretVersionParses()
    ensures ValueOf("^2.0.0") == Success(Version(None, "^2.0.0", "2.0.0"))
  {
    CaretVersionMatches();
    assert FindFrom("^2.0.0", 1) == Some((1, 6));
    assert Find("^2.0.0") == Some((1, 6));
    CaretVersionToken();
  }

  lemma CaretVersionMatches()
    ensures MatchEnd("^2.0.0", 0) == None
    ensures MatchEnd("^2.0.0", 1) == Some(6)
  {
    MatchEndUnfold("^2.0.0", 1, 2, 4, 6);
  }

  lemma CaretVersionToken()
    ensures "^2.0.0"[1..6] == "2.0.0"
  {
  }

  /** "a" at 1.0.0 declares b at ^2.0.0; b resolves to 2.1.0 and declares nothing. */
  function ResolvingRegistry(): Registry {
    (url: string) =>
      if url == Url("a", "1.0.0") then Fetched(NpmPackage(Some("a"), Some("1.0.0"), Some([("b", "^2.0.0")])))
      else if url == Url("b", "2.0.0") then Fetched(NpmPackage(Some("b"), Some("2.1.0"), None))
      else IoFailure
  }

  /** The root of both scenarios before its lookup. */
  function BareRoot(): Package {
    Package("a", Version(None, "1.0.0", "1.0.0"), {})
  }

  function ResolvedChild(): Package {
    Package("b", Version(Some("2.1.0"), "^2.0.0", "2.0.0"), {})
  }

  function ResolvedRoot(): Package {
    Package("a", Version(Some("1.0.0"), "1.0.0", "1.0.0"), {ResolvedChild()})
  }

  /** The cache after the resolved run: both nodes, each under its reported version. */
  function ResolvedCache(): Cache {
    map["a@1.0.0" := ResolvedRoot(), "b@2.1.0" := ResolvedChild()]
  }

  /** b is looked up at .../b/2.0.0, takes the reported 2.1.0, and is stored under "b@2.1.0". */
  lemma ResolvedChildStep()
    ensures Build(ResolvingRegistry(), map[], Package("b", Version(None, "^2.0.0", "2.0.0"), {}), 1)
         == (Built(ResolvedChild()), map["b@2.1.0" := ResolvedChild()])
  {
    var registry := ResolvingRegistry();
    var bare := Package("b", Version(None, "^2.0.0", "2.0.0"), {});
    UrlInjective("b", "2.0.0", "a", "1.0.0");
    assert registry(QueryUrl("b", bare.version)) == Fetched(NpmPackage(Some("b"), Some("2.1.0"), None));
    assert DependenciesFromNpm(registry, bare) == Success(Fetch(ResolvedChild(), []));
    assert ToSet([]) == {};
    assert Key("b", Some("2.1.0")) == "b@2.1.0";
    BuildUnfold(registry, map[], bare, 1);
  }

  /** a is looked up at .../a/1.0.0, takes 1.0.0, and declares one bare child b. */
  lemma ResolvedRootLookup()
    ensures DependenciesFromNpm(ResolvingRegistry(), BareRoot())
         == Success(Fetch(ResolvedRoot().(dependencies := {}), [Package("b", Version(None, "^2.0.0", "2.0.0"), {})]))
  {
    var registry := ResolvingRegistry();
    CaretVersionParses();
    assert registry(QueryUrl("a", BareRoot().version)) == Fetched(NpmPackage(Some("a"), Some("1.0.0"), Some([("b", "^2.0.0")])));
    var entries := [("b", "^2.0.0")];
    assert entries[1..] == [];
    var r := EntriesAsPackages(entries);
    assert ValueOf(entries[0].1) == Success(Version(None, "^2.0.0", "2.0.0"));
    assert r.Success? && |r.value| == 1;
    assert r.value == [r.value[0]];
    assert r.value[0] == Package("b", Version(None, "^2.0.0", "2.0.0"), {});
    assert r == Success([Package("b", Version(None, "^2.0.0", "2.0.0"), {})]);
  }

  /** The fan-out over b alone. */
  lemma ResolvedJoin()
    ensures BuildAll(ResolvingRegistry(), map[], [Package("b", Version(None, "^2.0.0", "2.0.0"), {})], 1, [])
         == (Success([ResolvedChild()]), map["b@2.1.0" := ResolvedChild()])
  {
    var childBare := Package("b", Version(None, "^2.0.0", "2.0.0"), {});
    var afterChild := map["b@2.1.0" := ResolvedChild()];
    var registry := ResolvingRegistry();
    ResolvedChildStep();
    assert [childBare][0] == childBare && [childBare][1..] == [];
    assert Build(registry, map[], [childBare][0], 1) == (Built(ResolvedChild()), afterChild);
    assert [] + [ResolvedChild()] == [ResolvedChild()];
    assert BuildAll(registry, map[], [childBare], 1, []) == BuildAll(registry, afterChild, [], 1, [ResolvedChild()]);
  }

  /** a is assembled from its joined child and stored under "a@1.0.0". */
  lemma ResolvedRootStep(cache: Cache)
    requires cache == map[]  // an empty cache passed as a variable, so the solver does not unroll a literal map
    ensures Build(ResolvingRegistry(), cache, BareRoot(), 2)
         == (Built(ResolvedRoot()), ResolvedCache())
  {
    ResolvedRootLookup();
    ResolvedJoin();
    BuildUnfold(ResolvingRegistry(), cache, BareRoot(), 2);
    ResolvedRootAssembled();
  }

  lemma ResolvedRootAssembled()
    ensures Assemble(ResolvedRoot().(dependencies := {}), (Success([ResolvedChild()]), map["b@2.1.0" := ResolvedChild()])) == (Built(ResolvedRoot()), ResolvedCache())
  {
    assert ToSet([ResolvedChild()]) == {ResolvedChild()};
    assert Key("a", Some("1.0.0")) == "a@1.0.0";
    assert map["b@2.1.0" := ResolvedChild()]["a@1.0.0" := ResolvedRoot()] == ResolvedCache();
  }

  /** getDependencyTree over a root whose build is known: the root is stored once more under its resolved version. */
  lemma TreeFromBuiltRoot(registry: Registry, cache: Cache, name: string, expression: string, v: Version,
                          root: Package, tree: Package, after: Cache)
    requires ValueOf(expression) == Success(v) && Create(name, v, None) == root
    requires Build(registry, cache, root, 2) == (Built(tree), after)
    ensures DependencyTree(registry, cache, name, expression, 2) == (Built(tree), Store(after, name, tree.version.minimalVersion, tree))
  {
  }

  /** Storing a node again under the key it already has changes nothing. */
  lemma StoreAgain(cache: Cache, name: string, version: Option<string>, tree: Package)
    requires Key(name, version) in cache && cache[Key(name, version)] == tree
    ensures Store(cache, name, version, tree) == cache
  {
  }

  /**
   * The root comes back resolved with its one resolved child, and the cache holds exactly
   * the two nodes, each under its reported version.
   */
  lemma ResolvedScenario(cache: Cache)
    requires cache == map[]  // an empty cache passed as a variable, so the solver does not unroll a literal map
    ensures DependencyTree(ResolvingRegistry(), cache, "a", "1.0.0", 2) == (Built(ResolvedRoot()), ResolvedCache())
  {
    ExactVersionParses();
    ResolvedRootStep(cache);
    TreeFromBuiltRoot(ResolvingRegistry(), cache, "a", "1.0.0", Version(None, "1.0.0", "1.0.0"), BareRoot(), ResolvedRoot(), ResolvedCache());
    StoreAgain(ResolvedCache(), "a", Some("1.0.0"), ResolvedRoot());
  }

  /** "a" at 1.0.0 declares missing at 1.0.0, and the registry cannot serve missing. */
  function FailingRegistry(): Registry {
    (url: string) =>
      if url == Url("a", "1.0.0") then Fetched(NpmPackage(Some("a"), Some("1.0.0"), Some([("missing", "1.0.0")])))
      else IoFailure
  }

  function MissingLeaf(): Package {
    Package("missing", Version(None, "1.0.0", "1.0.0"), {})
  }

  function RootWithLeaf(): Package {
    Package("a", Version(Some("1.0.0"), "1.0.0", "1.0.0"), {MissingLeaf()})
  }

  /** The cache after the degraded run: the root under 1.0.0 and the leaf under "null". */
  function DegradedCache(): Cache {
    map["a@1.0.0" := RootWithLeaf(), "missing@null" := MissingLeaf()]
  }

  /** a is looked up at .../a/1.0.0, takes 1.0.0, and declares one bare child, missing. */
  lemma RootWithLeafLookup()
    ensures DependenciesFromNpm(FailingRegistry(), BareRoot()) == Success(Fetch(RootWithLeaf().(dependencies := {}), [MissingLeaf()]))
  {
    var registry := FailingRegistry();
    ExactVersionParses();
    assert registry(QueryUrl("a", BareRoot().version)) == Fetched(NpmPackage(Some("a"), Some("1.0.0"), Some([("missing", "1.0.0")])));
    var entries := [("missing", "1.0.0")];
    assert entries[1..] == [];
    var r := EntriesAsPackages(entries);
    assert ValueOf(entries[0].1) == Success(Version(None, "1.0.0", "1.0.0"));
    assert r.Success? && |r.value| == 1;
    assert r.value == [r.value[0]];
    assert r.value[0] == MissingLeaf();
    assert r == Success([MissingLeaf()]);
  }

  /** The fan-out over the unreachable child: it degrades to a leaf stored under "missing@null". */
  lemma DegradedJoin()
    ensures BuildAll(FailingRegistry(), map[], [MissingLeaf()], 1, [])
         == (Success([MissingLeaf()]), map["missing@null" := MissingLeaf()])
  {
    var registry := FailingRegistry();
    var afterChild := map["missing@null" := MissingLeaf()];
    UrlInjective("missing", "1.0.0", "a", "1.0.0");
    assert registry(QueryUrl("missing", MissingLeaf().version)).IoFailure?;
    LookupFailureDegradesToLeaf(registry, map[], MissingLeaf(), 1);
    assert Key("missing", None) == "missing@null";
    assert MissingLeaf().(dependencies := {}) == MissingLeaf();
    assert Store(map[], "missing", None, MissingLeaf()) == afterChild;
    assert [MissingLeaf()][0] == MissingLeaf() && [MissingLeaf()][1..] == [];
    assert Build(registry, map[], [MissingLeaf()][0], 1) == (Built(MissingLeaf()), afterChild);
    assert [] + [MissingLeaf()] == [MissingLeaf()];
    assert BuildAll(registry, map[], [MissingLeaf()], 1, []) == BuildAll(registry, afterChild, [], 1, [MissingLeaf()]);
  }

  /** a is assembled from its degraded child and stored under "a@1.0.0". */
  lemma DegradedRootStep(cache: Cache)
    requires cache == map[]  // an empty cache passed as a variable, so the solver does not unroll a literal map
    ensures Build(FailingRegistry(), cache, BareRoot(), 2)
         == (Built(RootWithLeaf()), DegradedCache())
  {
    RootWithLeafLookup();
    DegradedJoin();
    BuildUnfold(FailingRegistry(), cache, BareRoot(), 2);
    DegradedRootAssembled();
  }

  lemma DegradedRootAssembled()
    ensures Assemble(RootWithLeaf().(dependencies := {}), (Success([MissingLeaf()]), map["missing@null" := MissingLeaf()])) == (Built(RootWithLeaf()), DegradedCache())
  {
    assert ToSet([MissingLeaf()]) == {MissingLeaf()};
    assert Key("a", Some("1.0.0")) == "a@1.0.0";
    assert map["missing@null" := MissingLeaf()]["a@1.0.0" := RootWithLeaf()] == DegradedCache();
  }

  /**
   * The failed lookup does not fail the call: the child appears as a leaf with no resolved
   * version, and it is cached under "missing@null".
   */
  lemma DegradedScenario(cache: Cache)
    requires cache == map[]  // an empty cache passed as a variable, so the solver does not unroll a literal map
    ensures DependencyTree(FailingRegistry(), cache, "a", "1.0.0", 2) == (Built(RootWithLeaf()), DegradedCache())
  {
    ExactVersionParses();
    DegradedRootStep(cache);
    TreeFromBuiltRoot(FailingRegistry(), cache, "a", "1.0.0", Version(None, "1.0.0", "1.0.0"), BareRoot(), RootWithLeaf(), DegradedCache());
    StoreAgain(DegradedCache(), "a", Some("1.0.0"), RootWithLeaf());
  }
}
