/**
 * The synchronous engine of index.js as it runs: one shared registry (the
 * `lookups` array) that every stage pushes stubs onto and updates in place.
 * Each method mirrors one function of index.js and is proved to leave the
 * registry, and to return the value or the error, that the function of the
 * same stage in `Engine` gives for the registry it started from.
 */
module Resolver {
  import opened Wrappers
  import opened Paths
  import opened Manifests
  import opened Packages
  import opened Locator
  import opened Engine

  /** Nothing put in front leaves the outcome as it is. */
  lemma PrefixedEmpty<T>(s: Step<seq<T>>)
    ensures Prefixed([], s) == s
  {
    if s.value.Success? {
      assert [] + s.value.value == s.value.value;
    }
  }

  /** One step of the map over a batch: the first stub's outcome, then the rest's. */
  lemma LocateAllStep(env: Env, table: map<string, string>, first: nat, count: nat, reg: seq<Node>, basedir: Path)
    requires FreshStubs(first, count, reg, basedir) && count > 0
    requires FreshStubs(first + 1, count - 1, PackageStep(env, table, first, reg).reg, basedir)
    ensures var head := PackageStep(env, table, first, reg);
      head.value.Failure? ==> LocateAll(env, table, first, count, reg, basedir) == Step(Failure(head.value.error), head.reg)
    ensures var head := PackageStep(env, table, first, reg);
      head.value.Success? ==>
        LocateAll(env, table, first, count, reg, basedir) ==
        Prefixed([head.value.value], LocateAll(env, table, first + 1, count - 1, head.reg, basedir))
  {
  }

  /** One step of `resolveDependenciesSync`'s map: the first node's outcome, then the rest's. */
  lemma DescendStep(env: Env, table: map<string, string>, found: seq<Found>, k: nat, opts: Options,
                    reg: seq<Node>, held: set<Path>)
    requires k < |found| && DescendReady(env, found[k..], reg, held)
    ensures held <= Held(reg) && (found[k].Own? ==> OwnReady(env, found[k].index, reg, held))
    ensures var head := DescendOne(env, table, found[k], opts, reg, held);
      (head.value.Success? ==> DescendReady(env, found[k + 1..], head.reg, held)) &&
      Descend(env, table, found[k..], opts, reg, held) ==
        if head.value.Failure? then Step(Failure(head.value.error), head.reg)
        else Prefixed([head.value.value], Descend(env, table, found[k + 1..], opts, head.reg, held))
  {
    assert found[k..][0] == found[k] && found[k..][1..] == found[k + 1..];
    var head := DescendOne(env, table, found[k], opts, reg, held);
    if head.value.Success? {
      DescendReadyRest(env, found[k..], reg, head.reg, held);
    }
  }

  /** The shared registry of one top-level call: the `lookups` array. */
  class Registry {
    var entries: seq<Node>

    /** `lookups = lookups || []`. */
    constructor ()
      ensures entries == []
    {
      entries := [];
    }

    /** `lookups.push(meta)`. */
    method Push(n: Node)
      modifies this
      ensures entries == old(entries) + [n]
    {
      entries := entries + [n];
    }

    /**
     * `mapPackages(names, opts, lookups)`: push one stub per name, in order;
     * the stubs returned are the entries from `first` on.
     */
    method MapPackages(names: seq<Request>, basedir: Path) returns (first: nat)
      modifies this
      ensures first == |old(entries)|
      ensures entries == Engine.MapPackages(names, basedir, old(entries))
    {
      first := |entries|;
      var i := 0;
      while i < |names|
        invariant 0 <= i <= |names|
        invariant entries == old(entries) + Stubs(names[..i], basedir)
      {
        assert Stubs(names[..i + 1], basedir) == Stubs(names[..i], basedir) + [Stub(names[i], basedir)];
        Push(Stub(names[i], basedir));
        i := i + 1;
      }
      assert names[..|names|] == names;
    }

    /** The assignments of `resolveManifestSync` to the stub at `i`. */
    method Locate(i: nat, main: Path, manifestPath: Path, m: Manifest)
      requires i < |entries|
      modifies this
      ensures entries == old(entries)[i := Located(old(entries)[i], main, manifestPath, m)]
    {
      entries := entries[i := Located(entries[i], main, manifestPath, m)];
    }

    /**
     * `resolveManifestSync(main, pkg, lookups)` for the stub registered at `i`:
     * the outcome and the registry are those of `ManifestStep`.
     */
    method ResolveManifest(env: Env, main: Path, i: nat) returns (r: Result<Found, Error>)
      requires i < |entries|
      modifies this
      ensures Step(r, entries) == ManifestStep(env, main, i, old(entries))
    {
      var manifestPath := FindManifest(env.files, Dirname(main));
      if manifestPath.None? {
        return Failure(ManifestNotFound(entries[i].name));
      }
      var mp := manifestPath.value;
      if mp !in env.json {
        return Failure(BadJson(mp));
      }
      Locate(i, main, mp, env.json[mp]);
      var predecessor := FindPredecessor(entries, i, Dirname(mp));
      if predecessor.Some? {
        return Success(Copy(predecessor.value));
      }
      return Success(Own(i));
    }

    /**
     * `resolvePackageSync(lookups)(pkg)` for the stub registered at `i`: the
     * outcome and the registry are those of `PackageStep`.
     */
    method ResolvePackage(env: Env, table: map<string, string>, i: nat) returns (r: Result<Option<Found>, Error>)
      requires i < |entries|
      modifies this
      ensures Step(r, entries) == PackageStep(env, table, i, old(entries))
    {
      var pkg := entries[i];
      var name := LookupName(table, pkg.name);
      if (name, pkg.basedir) !in env.locate {
        if pkg.optional {
          return Success(None);
        }
        return Failure(ModuleNotFound(name, pkg.basedir));
      }
      var found := ResolveManifest(env, env.locate[(name, pkg.basedir)], i);
      if found.Failure? {
        if pkg.optional {
          return Success(None);
        }
        return Failure(found.error);
      }
      return Success(Some(found.value));
    }

    /**
     * The `pkgs.map(resolvePackageSync(lookups))` of `lookupPackagesSync` over
     * the batch `entries[first..first + count]`: the outcome and the registry
     * are those of `LocateAll`.
     */
    method LocatePackages(env: Env, table: map<string, string>, first: nat, count: nat, ghost basedir: Path)
      returns (r: Result<seq<Option<Found>>, Error>)
      requires FreshStubs(first, count, entries, basedir)
      modifies this
      ensures Step(r, entries) == LocateAll(env, table, first, count, old(entries), basedir)
      decreases count
    {
      if count == 0 {
        return Success([]);
      }
      FreshAfterHead(env, table, first, count, entries, basedir);
      LocateAllStep(env, table, first, count, entries, basedir);
      var f := ResolvePackage(env, table, first);
      if f.Failure? {
        return Failure(f.error);
      }
      var rest := LocatePackages(env, table, first + 1, count - 1, basedir);
      if rest.Failure? {
        return Failure(rest.error);
      }
      return Success([f.value] + rest.value);
    }

    /**
     * `lookupPackagesSync(pkgs, opts, lookups)` for the batch
     * `entries[first..first + count]`: the outcome and the registry are those
     * of `Lookup`.
     */
    method LookupPackages(env: Env, table: map<string, string>, first: nat, count: nat, opts: Options)
      returns (r: Result<seq<Node>, Error>)
      requires FreshStubs(first, count, entries, opts.basedir)
      modifies this
      ensures Step(r, entries) == Lookup(env, table, first, count, opts, old(entries))
      decreases Free(env, entries), 2
    {
      ghost var before := entries;
      var located := LocatePackages(env, table, first, count, opts.basedir);
      if located.Failure? {
        return Failure(located.error);
      }
      HeldGrows(before, entries);
      KeptReady(env, located.value, first, entries, Held(before));
      var resolved := ResolveDependencies(env, table, Kept(located.value), opts, Held(before));
      if resolved.Failure? {
        return Failure(resolved.error);
      }
      return Success(KeepExisting(resolved.value));
    }

    /**
     * `resolveDependenciesSync(pkgs, opts, lookups)`: the outcome and the
     * registry are those of `Descend`. `held` is the set of roots the
     * registry held when the batch was registered.
     */
    method ResolveDependencies(env: Env, table: map<string, string>, found: seq<Found>, opts: Options,
                               ghost held: set<Path>) returns (r: Result<seq<Node>, Error>)
      requires DescendReady(env, found, entries, held)
      modifies this
      ensures Step(r, entries) == Descend(env, table, found, opts, old(entries), held)
      decreases |Roots(env.files) - held|, 1, |found|
    {
      var resolved: seq<Node> := [];
      var k := 0;
      assert found[0..] == found;
      PrefixedEmpty(Descend(env, table, found, opts, entries, held));
      while k < |found|
        invariant 0 <= k <= |found|
        invariant DescendReady(env, found[k..], entries, held)
        invariant Descend(env, table, found, opts, old(entries), held) ==
          Prefixed(resolved, Descend(env, table, found[k..], opts, entries, held))
      {
        DescendStep(env, table, found, k, opts, entries, held);
        var n := ResolveOne(env, table, found[k], opts, held);
        if n.Failure? {
          return Failure(n.error);
        }
        PrefixedTwice(resolved, [n.value], Descend(env, table, found[k + 1..], opts, entries, held));
        resolved := resolved + [n.value];
        k := k + 1;
      }
      assert found[k..] == [] && resolved + [] == resolved;
      return Success(resolved);
    }

    /** `attachDependencies(pkg, deps)` on the node registered at `i`. */
    method AttachDependencies(i: nat, deps: seq<Node>)
      requires i < |entries|
      modifies this
      ensures entries == Attached(old(entries), i, deps)
    {
      entries := entries[i := entries[i].(dependencies := DependsOn(deps))];
    }

    /**
     * The callback of `resolveDependenciesSync` on one located node: the
     * outcome and the registry are those of `DescendOne`.
     */
    method ResolveOne(env: Env, table: map<string, string>, f: Found, opts: Options, ghost held: set<Path>)
      returns (r: Result<Node, Error>)
      requires held <= Held(entries) && (f.Own? ==> OwnReady(env, f.index, entries, held))
      modifies this
      ensures Step(r, entries) == DescendOne(env, table, f, opts, old(entries), held)
      decreases |Roots(env.files) - held|, 0
    {
      match f
      case Copy(n) =>
        return Success(n);
      case Own(i) =>
        var pkg := entries[i];
        var deps := DeclaredDependencies(pkg, opts.lookups);
        if deps == [] || pkg.repeated {
          return Success(pkg);
        }
        FreeShrinks(env, entries, held, i);
        var children := ResolveByName(env, table, deps, ChildParams(opts, Dirname(pkg.manifest)));
        if children.Failure? {
          return Failure(children.error);
        }
        AttachDependencies(i, children.value);
        return Success(entries[i]);
    }

    /**
     * `resolveByNameSync(names, params, lookups)`: the outcome and the
     * registry are those of `Resolve`.
     */
    method ResolveByName(env: Env, table: map<string, string>, names: seq<Request>, params: Params)
      returns (r: Result<seq<Node>, Error>)
      modifies this
      ensures Step(r, entries) == Resolve(env, table, names, params, old(entries))
      decreases Free(env, entries), 3
    {
      var opts := SetOptions(params, env.cwd);
      MapPackagesAppends(names, opts.basedir, entries);
      var first := MapPackages(names, opts.basedir);
      r := LookupPackages(env, table, first, |names|, opts);
    }
  }

  /**
   * `resolveByNameSync(names, params)`: a fresh registry, then the lookup,
   * under the `resolutions` table as index.js writes it.
   */
  method ResolveByNameSync(env: Env, names: Names, params: Params) returns (r: Result<seq<Node>, Error>)
    ensures r == ByName(env, names, params)
  {
    var registry := new Registry();
    r := registry.ResolveByName(env, Resolutions, Requests(names), params);
  }

  /** `manifestSync(meta, params)`: the manifest's dependencies, on a fresh registry. */
  method ManifestSync(env: Env, meta: Manifest, params: Params) returns (r: Result<seq<Node>, Error>)
    ensures r == FromManifest(env, meta, params)
  {
    var opts := SetOptions(params, env.cwd);
    var deps := ReadDependencies(meta, opts.lookups);
    var registry := new Registry();
    r := registry.ResolveByName(env, Resolutions, deps, AsParams(opts));
  }
}
