/**
 * InMemoryDependencyTreeStorage.java: the tree cache, a map from the formatted key
 * `name@version` to a package node. The key is built by string formatting, so different
 * (name, version) pairs can share one entry.
 */
module Storage {
  import opened Wrappers
  import opened Packages

  /** How `%s` renders a possibly-null String. */
  function Format(version: Option<string>): string {
    match version
    case None => "null"
    case Some(v) => v
  }

  /** `String.format("%s@%s", name, version)`. */
  function Key(name: string, version: Option<string>): string {
    name + "@" + Format(version)
  }

  type Cache = map<string, Package>

  /** `cache.get(key)`: the node stored under the formatted key, or None (null). */
  function Lookup(cache: Cache, name: string, version: Option<string>): Option<Package> {
    var k := Key(name, version);
    if k in cache then Some(cache[k]) else None
  }

  /** `cache.compute(key, (k, v) -> tree)`: the old value is ignored and replaced. */
  function Store(cache: Cache, name: string, version: Option<string>, tree: Package): Cache {
    cache[Key(name, version) := tree]
  }

  /** A lookup right after a store under the same pair returns what was stored. */
  lemma LookupAfterStore(cache: Cache, name: string, version: Option<string>, tree: Package)
    ensures Lookup(Store(cache, name, version, tree), name, version) == Some(tree)
  {
  }

  /** The last store under a key wins; the earlier value leaves no trace. */
  lemma StoreOverwrites(cache: Cache, name: string, version: Option<string>, first: Package, second: Package)
    ensures Store(Store(cache, name, version, first), name, version, second) == Store(cache, name, version, second)
  {
  }

  /** A store leaves every entry under a different formatted key as it was, absent ones included. */
  lemma StoreLeavesOtherKeys(cache: Cache, name: string, version: Option<string>, tree: Package,
                             otherName: string, otherVersion: Option<string>)
    requires Key(otherName, otherVersion) != Key(name, version)
    ensures Lookup(Store(cache, name, version, tree), otherName, otherVersion) == Lookup(cache, otherName, otherVersion)
  {
  }

  /** An '@' moved between name and version gives the same key: ("a@b", "c") and ("a", "b@c") share one entry. */
  lemma {:induction false} AtSignAliasing(cache: Cache, name: string, middle: string, version: string, tree: Package)
    ensures Key(name + "@" + middle, Some(version)) == Key(name, Some(middle + "@" + version))
    ensures Lookup(Store(cache, name + "@" + middle, Some(version), tree), name, Some(middle + "@" + version)) == Some(tree)
  {
    assert name + "@" + middle + "@" + version == name + "@" + (middle + "@" + version);
  }

  /** An unset version formats as "null", so it aliases the literal version "null". */
  lemma NullAliasing(cache: Cache, name: string, tree: Package)
    ensures Key(name, None) == Key(name, Some("null"))
    ensures Lookup(Store(cache, name, None, tree), name, Some("null")) == Some(tree)
  {
  }

  /**
   * Aliasing needs an '@' in a name: for names without one, two keys are equal exactly when
   * the names are equal and the versions format alike.
   */
  lemma KeyInjective(name1: string, version1: Option<string>, name2: string, version2: Option<string>)
    requires '@' !in name1 && '@' !in name2
    ensures Key(name1, version1) == Key(name2, version2) <==> name1 == name2 && Format(version1) == Format(version2)
  {
    var k1, k2 := Key(name1, version1), Key(name2, version2);
    if k1 == k2 {
      assert k1[|name1|] == '@' && k2[|name2|] == '@';
      assert name1 == k1[..|name1|] == k2[..|name2|] == name2;
      assert Format(version1) == k1[|name1| + 1..] == k2[|name2| + 1..] == Format(version2);
    }
  }

  /** The storage object; `cache` is the ConcurrentHashMap field, updated in place. */
  class TreeStorage {
    var cache: Cache

    constructor()
      ensures cache == map[]
    {
      cache := map[];
    }

    /** get: reads the entry under the formatted key and changes nothing. */
    method Get(name: string, version: Option<string>) returns (r: Option<Package>)
      ensures r == Lookup(cache, name, version)
      ensures r.Some? <==> Key(name, version) in cache
    {
      var k := Key(name, version);
      if k in cache {
        r := Some(cache[k]);
      } else {
        r := None;
      }
    }

    /** put: replaces the entry under the formatted key, whatever it held. */
    method Put(name: string, version: Option<string>, tree: Package)
      modifies this
      ensures cache == Store(old(cache), name, version, tree)
    {
      cache := cache[Key(name, version) := tree];
    }
  }
}
