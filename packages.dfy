/**
 * Package.java and NPMPackage.java: a node of the dependency tree, and the record the
 * registry's JSON answer is decoded into.
 */
module Packages {
  import opened Wrappers
  import opened Versions

  /**
   * A node of the tree. Equality is structural over all three fields, as Lombok's
   * generated equals is; the dependency set is never null.
   */
  datatype Package = Package(name: string, version: Version, dependencies: set<Package>)

  /**
   * The builder constructor: name and version are stored as given; a missing (null) or
   * empty dependency set is replaced by a fresh empty set, any other set is kept.
   */
  function Create(name: string, version: Version, dependencies: Option<set<Package>>): (p: Package)
    ensures p.name == name && p.version == version
    ensures p.dependencies == if dependencies.Some? then dependencies.value else {}
  {
    Package(name, version, if dependencies.None? || dependencies.value == {} then {} else dependencies.value)
  }

  /** Rebuilding a node from its own fields gives the node back: the normalisation loses nothing. */
  lemma CreateFromFields(p: Package)
    ensures Create(p.name, p.version, Some(p.dependencies)) == p
  {
  }

  /** Packages with different names are never equal, whatever their versions and dependencies. */
  lemma DistinctNamesDistinctPackages(p: Package, q: Package)
    requires p.name != q.name
    ensures p != q
  {
  }

  /** A declared dependency: the child's name and its version expression, in the answer's order. */
  type Entry = (string, string)

  /**
   * The decoded registry answer. Fields missing from the JSON are None; `dependencies`
   * keeps the entries in the order of the JSON object.
   */
  datatype NpmPackage = NpmPackage(packageName: Option<string>, version: Option<string>, dependencies: Option<seq<Entry>>)

  /** The keys of a decoded JSON object are pairwise distinct. */
  predicate DistinctKeys(entries: seq<Entry>) {
    forall i, j :: 0 <= i < j < |entries| ==> entries[i].0 != entries[j].0
  }

  /**
   * One bare node per entry, in order; the first empty version expression throws and so
   * fails the whole mapping.
   */
  function EntriesAsPackages(entries: seq<Entry>): (r: Result<seq<Package>, Error>)
    ensures r.Success? <==> forall k :: 0 <= k < |entries| ==> entries[k].1 != ""
    ensures r.Failure? ==> r.error == EmptyVersion
    ensures r.Success? ==> |r.value| == |entries|
    ensures r.Success? ==> forall k :: 0 <= k < |entries| ==> r.value[k].name == entries[k].0 && r.value[k].dependencies == {}
    ensures r.Success? ==> forall k {:trigger ValueOf(entries[k].1)} :: 0 <= k < |entries| ==> ValueOf(entries[k].1) == Success(r.value[k].version)
  {
    if entries == [] then
      Success([])
    else
      match ValueOf(entries[0].1)
      case Failure(e) => Failure(e)
      case Success(v) =>
        match EntriesAsPackages(entries[1..])
        case Failure(e) => Failure(e)
        case Success(rest) => Success([Create(entries[0].0, v, None)] + rest)
  }

  /**
   * NPMPackage.getDependenciesAsPackages: exactly one bare node per declared dependency,
   * named by its key, with the version parsed from its value, and nothing deduplicated.
   * A null map is a NullPointerException in the source, hence the precondition.
   */
  function DependenciesAsPackages(p: NpmPackage): (r: Result<seq<Package>, Error>)
    requires p.dependencies.Some?
    ensures var entries := p.dependencies.value;
      && (r.Success? <==> forall k :: 0 <= k < |entries| ==> entries[k].1 != "")
      && (r.Failure? ==> r.error == EmptyVersion)
      && (r.Success? ==> |r.value| == |entries|)
      && (r.Success? ==> forall k :: 0 <= k < |entries| ==> r.value[k].name == entries[k].0 && r.value[k].dependencies == {})
      && (r.Success? ==> forall k {:trigger ValueOf(entries[k].1)} :: 0 <= k < |entries| ==> ValueOf(entries[k].1) == Success(r.value[k].version))
  {
    EntriesAsPackages(p.dependencies.value)
  }

  /** `Collectors.toSet()`: the nodes of a sequence as a set, duplicates merged by equality. */
  function ToSet(nodes: seq<Package>): (s: set<Package>)
    ensures forall n :: n in s <==> n in nodes
  {
    set n | n in nodes
  }

  /** Under distinct keys the nodes have distinct names, so collecting them into a set keeps them all. */
  lemma {:induction false} DistinctKeysGiveDistinctNodes(entries: seq<Entry>, nodes: seq<Package>)
    requires DistinctKeys(entries) && |nodes| == |entries|
    requires forall k :: 0 <= k < |entries| ==> nodes[k].name == entries[k].0
    ensures |ToSet(nodes)| == |nodes|
  {
    if nodes != [] {
      var rest := ToSet(nodes[1..]);
      DistinctKeysGiveDistinctNodes(entries[1..], nodes[1..]);
      assert nodes[0] !in rest by {
        forall k | 0 <= k < |nodes[1..]|
          ensures nodes[1..][k] != nodes[0]
        {
          assert entries[k + 1].0 != entries[0].0;
        }
      }
      assert ToSet(nodes) == {nodes[0]} + rest;
    }
  }
}
