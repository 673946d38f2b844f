/**
 * The synchronous dependency-tree engine of index.js (`resolveByNameSync`,
 * `lookupPackagesSync`, `resolvePackageSync`, `resolveManifestSync`,
 * `resolveDependenciesSync`, `attachDependencies`, `manifestSync`) as
 * functions on values. The shared `lookups` array is the registry, a
 * `seq<Node>` threaded through every stage; a node's identity is its index
 * in it. Each stage yields its value, or the error it throws, together with
 * the registry it leaves behind. The methods of `Resolver.Registry` are
 * proved to compute exactly these functions.
 */
module Engine {
  import opened Wrappers
  import opened Paths
  import opened Manifests
  import opened Packages
  import opened Locator

  /**
   * What the engine asks of the outside world: the module lookup
   * (`resolve.sync(name, {basedir})`, a partial map), the paths at which a
   * package.json exists (`fs.existsSync`), the manifests that parse
   * (`require` of a JSON file) and the working directory (`process.cwd()`).
   */
  datatype Env = Env(locate: map<(string, Path), Path>, files: set<Path>, json: map<Path, Manifest>, cwd: Path)

  /** The errors the engine throws. */
  datatype Error =
    | ModuleNotFound(request: string, basedir: Path)  // thrown by `resolve.sync`
    | ManifestNotFound(name: string)                   // 'Cannot find package.json for package: ' + name
    | BadJson(path: Path)                              // 'Bad formed JSON: ' + path

  /** A located node: the registered stub itself, or a repeated copy of its predecessor. */
  datatype Found = Own(index: nat) | Copy(node: Node)

  /** The outcome of a stage and the registry it leaves, also after a throw. */
  datatype Step<T> = Step(value: Result<T, Error>, reg: seq<Node>)

  // ---- The measure that bounds the recursion ----

  /** Every root a node can get: the directory of an existing package.json. */
  function Roots(files: set<Path>): set<Path>
  {
    set p | p in files :: Dirname(p)
  }

  /** The roots the registry holds. */
  function Held(reg: seq<Node>): set<Path>
  {
    set j | 0 <= j < |reg| && reg[j].root.Some? :: reg[j].root.value
  }

  /** The roots no registered node holds yet. */
  function Free(env: Env, reg: seq<Node>): nat
  {
    |Roots(env.files) - Held(reg)|
  }

  /** `reg'` is `reg`, possibly grown, with every root already set kept. */
  predicate RootsKept(reg: seq<Node>, reg': seq<Node>)
  {
    |reg| <= |reg'| && forall j :: 0 <= j < |reg| && reg[j].root.Some? ==> reg'[j].root == reg[j].root
  }

  lemma HeldGrows(reg: seq<Node>, reg': seq<Node>)
    requires RootsKept(reg, reg')
    ensures Held(reg) <= Held(reg')
  {
    forall x | x in Held(reg)
      ensures x in Held(reg')
    {
      var j :| 0 <= j < |reg| && reg[j].root.Some? && reg[j].root.value == x;
      assert reg'[j].root.value == x;
    }
  }

  /** The registered node `i` holds a root from the universe that `held` does not. */
  predicate OwnReady(env: Env, i: nat, reg: seq<Node>, held: set<Path>)
  {
    i < |reg| && reg[i].root.Some? && reg[i].root.value !in held && reg[i].root.value in Roots(env.files)
  }

  /** Descending into a node whose root was free when its batch began takes a free root away. */
  lemma FreeShrinks(env: Env, reg: seq<Node>, held: set<Path>, i: nat)
    requires held <= Held(reg) && OwnReady(env, i, reg, held)
    ensures Free(env, reg) < |Roots(env.files) - held|
  {
    var u := Roots(env.files);
    var r := reg[i].root.value;
    assert r in Held(reg);
    var small, big := u - Held(reg), u - held;
    assert small <= big;
    assert r in big - small;
    assert small + big == big;
    assert small * big == small;
    assert small - big == {};
    assert |big - small| > 0;
  }

  // ---- mapPackages ----

  /** `mapPackages(names, opts, lookups)`: one stub per name pushed onto the registry, in order. */
  function MapPackages(names: seq<Request>, basedir: Path, reg: seq<Node>): (r: seq<Node>)
    ensures |r| == |reg| + |names| && r[..|reg|] == reg
  {
    reg + Stubs(names, basedir)
  }

  /**
   * The registry `mapPackages` leaves: the earlier entries untouched, then
   * exactly one stub per name in input order, each with the basedir given.
   * Stubs hold no root, so the roots held stay as they were.
   */
  lemma MapPackagesAppends(names: seq<Request>, basedir: Path, reg: seq<Node>)
    ensures var r := MapPackages(names, basedir, reg);
      |r| == |reg| + |names| && (forall j :: 0 <= j < |reg| ==> r[j] == reg[j]) &&
      (forall j :: |reg| <= j < |r| ==> r[j] == Stub(names[j - |reg|], basedir)) &&
      FreshStubs(|reg|, |names|, r, basedir) && Held(r) == Held(reg)
  {
    var stubs := Stubs(names, basedir);
    var r := reg + stubs;
    assert forall j :: |reg| <= j < |r| ==> r[j] == stubs[j - |reg|];
    forall x | x in Held(r)
      ensures x in Held(reg)
    {
      var j :| 0 <= j < |r| && r[j].root.Some? && r[j].root.value == x;
      assert j < |reg| && reg[j] == r[j];
    }
    forall x | x in Held(reg)
      ensures x in Held(r)
    {
      var j :| 0 <= j < |reg| && reg[j].root.Some? && reg[j].root.value == x;
      assert r[j] == reg[j];
    }
  }

  // ---- resolveManifestSync ----

  /** The stub fields a node keeps through every stage. */
  predicate SameStub(a: Node, b: Node)
  {
    a.name == b.name && a.basedir == b.basedir && a.optional == b.optional && a.repeated == b.repeated
  }

  /** The fields `resolveManifestSync` attaches to the stub it located. */
  function Located(pkg: Node, main: Path, manifestPath: Path, m: Manifest): (n: Node)
    ensures SameStub(pkg, n) && n.dependencies == pkg.dependencies
    ensures n.main == Some(main) && n.manifest == manifestPath && n.meta == Some(m)
    ensures n.root == Some(Dirname(manifestPath)) && n.version == m.version
  {
    pkg.(main := Some(main), manifest := manifestPath, root := Some(Dirname(manifestPath)),
         meta := Some(m), version := m.version)
  }

  /**
   * `resolveManifestSync(main, pkg, lookups)` for the stub registered at `i`:
   * search for the manifest from the directory of `main`, read it, attach the
   * location fields to the stub, then consult the repetition tracker.
   */
  function ManifestStep(env: Env, main: Path, i: nat, reg: seq<Node>): (s: Step<Found>)
    requires i < |reg|
    ensures |s.reg| == |reg| && forall j :: 0 <= j < |reg| && j != i ==> s.reg[j] == reg[j]
    ensures s.value.Failure? <==>
      FindManifest(env.files, Dirname(main)).None? || FindManifest(env.files, Dirname(main)).value !in env.json
    ensures s.value.Failure? ==> s.reg == reg
    ensures FindManifest(env.files, Dirname(main)).None? ==> s.value == Failure(ManifestNotFound(reg[i].name))
    ensures s.value.Success? ==>
      var mp := FindManifest(env.files, Dirname(main)).value;
      s.reg[i] == Located(reg[i], main, mp, env.json[mp]) && Dirname(mp) in Roots(env.files)
    ensures s.value.Success? && s.value.value.Own? ==>
      s.value.value.index == i && forall j :: !SameRoot(s.reg, i, s.reg[i].root.value, j)
    ensures s.value.Success? && s.value.value.Copy? ==>
      FindPredecessor(s.reg, i, s.reg[i].root.value) == Some(s.value.value.node)
  {
    match FindManifest(env.files, Dirname(main))
    case None => Step(Failure(ManifestNotFound(reg[i].name)), reg)
    case Some(mp) =>
      if mp !in env.json then Step(Failure(BadJson(mp)), reg)
      else
        var reg' := reg[i := Located(reg[i], main, mp, env.json[mp])];
        match FindPredecessor(reg', i, Dirname(mp))
        case Some(p) => Step(Success(Copy(p)), reg')
        case None => Step(Success(Own(i)), reg')
  }

  // ---- resolvePackageSync ----

  /** What a located stub at `i` looks like in the registry after its stage. */
  predicate LocatedAs(env: Env, f: Option<Found>, i: nat, reg: seq<Node>, held: set<Path>)
  {
    i < |reg| &&
    (f.None? ==> reg[i].root.None? && reg[i].optional) &&
    (f.Some? ==> reg[i].root.Some? && reg[i].meta.Some?) &&
    (f.Some? && f.value.Own? ==> f.value.index == i && OwnReady(env, i, reg, held)) &&
    (f.Some? && f.value.Copy? ==> f.value.node.repeated && f.value.node.root == reg[i].root)
  }

  /** A root no other node shares was not held before the stub at `i` took it. */
  lemma OwnRootUnheld(reg: seq<Node>, reg': seq<Node>, i: nat)
    requires i < |reg| == |reg'| && reg[i].root.None? && reg'[i].root.Some?
    requires forall j :: 0 <= j < |reg| && j != i ==> reg'[j] == reg[j]
    requires forall j :: !SameRoot(reg', i, reg'[i].root.value, j)
    ensures reg'[i].root.value !in Held(reg)
  {
    forall j | 0 <= j < |reg| && reg[j].root.Some?
      ensures reg[j].root.value != reg'[i].root.value
    {
      assert j != i && reg'[j] == reg[j];
      assert !SameRoot(reg', i, reg'[i].root.value, j);
    }
  }

  /**
   * A stub named `name` and looked up from `basedir` fails to be located:
   * the module lookup finds nothing, or the manifest search from the entry's
   * directory finds nothing, or the manifest found is not well-formed JSON.
   * This depends on nothing the registry holds.
   */
  predicate LocateFails(env: Env, table: map<string, string>, name: string, basedir: Path)
  {
    var request := LookupName(table, name);
    (request, basedir) !in env.locate ||
    var found := FindManifest(env.files, Dirname(env.locate[(request, basedir)]));
    found.None? || found.value !in env.json
  }

  /**
   * `resolvePackageSync(lookups)(pkg)` for the stub registered at `i`: look
   * up `resolutions[name]` or `name/package.json` from the stub's basedir,
   * then resolve its manifest. Any throw of these steps is absorbed for an
   * optional stub, which then yields nothing, and rethrown otherwise.
   */
  function PackageStep(env: Env, table: map<string, string>, i: nat, reg: seq<Node>): (s: Step<Option<Found>>)
    requires i < |reg|
    ensures |s.reg| == |reg| && forall j :: 0 <= j < |reg| && j != i ==> s.reg[j] == reg[j]
    ensures SameStub(reg[i], s.reg[i]) && s.reg[i].dependencies == reg[i].dependencies
    ensures s.value.Failure? <==> !reg[i].optional && LocateFails(env, table, reg[i].name, reg[i].basedir)
    ensures s.value == Success(None) <==> reg[i].optional && LocateFails(env, table, reg[i].name, reg[i].basedir)
    ensures s.value.Failure? || s.value == Success(None) ==> s.reg == reg
    ensures (LookupName(table, reg[i].name), reg[i].basedir) !in env.locate && !reg[i].optional ==>
      s.value == Failure(ModuleNotFound(LookupName(table, reg[i].name), reg[i].basedir))
    ensures s.value.Success? && s.value.value.Some? ==>
      var main := env.locate[(LookupName(table, reg[i].name), reg[i].basedir)];
      ManifestStep(env, main, i, reg) == Step(Success(s.value.value.value), s.reg)
    ensures reg[i].root.None? && s.value.Success? ==> LocatedAs(env, s.value.value, i, s.reg, Held(reg))
  {
    var pkg := reg[i];
    var request := LookupName(table, pkg.name);
    if (request, pkg.basedir) !in env.locate then
      if pkg.optional then Step(Success(None), reg)
      else Step(Failure(ModuleNotFound(request, pkg.basedir)), reg)
    else
      var m := ManifestStep(env, env.locate[(request, pkg.basedir)], i, reg);
      match m.value
      case Failure(e) => if pkg.optional then Step(Success(None), reg) else Step(Failure(e), reg)
      case Success(f) =>
        assert pkg.root.None? && f.Own? ==> m.reg[i].root.value !in Held(reg) by {
          if pkg.root.None? && f.Own? {
            OwnRootUnheld(reg, m.reg, i);
          }
        }
        Step(Success(Some(f)), m.reg)
  }

  // ---- the `pkgs.map(resolvePackageSync(lookups))` of lookupPackagesSync ----

  /**
   * The batch `reg[first..first + count]` was freshly registered with
   * `basedir`: its stubs are unlocated and not repeated.
   */
  predicate FreshStubs(first: nat, count: nat, reg: seq<Node>, basedir: Path)
  {
    first + count <= |reg| &&
    forall j :: first <= j < first + count ==> reg[j].root.None? && !reg[j].repeated && reg[j].basedir == basedir
  }

  /** Locating the first stub of a batch leaves the rest of it fresh. */
  lemma FreshAfterHead(env: Env, table: map<string, string>, first: nat, count: nat, reg: seq<Node>, basedir: Path)
    requires FreshStubs(first, count, reg, basedir) && count > 0
    ensures FreshStubs(first + 1, count - 1, PackageStep(env, table, first, reg).reg, basedir)
  {
    var head := PackageStep(env, table, first, reg);
    forall j | first + 1 <= j < first + count
      ensures head.reg[j] == reg[j]
    {
    }
  }

  /** Locate every stub of the batch in order; the first throw stops the map. */
  function LocateAll(env: Env, table: map<string, string>, first: nat, count: nat, reg: seq<Node>,
                     ghost basedir: Path): (s: Step<seq<Option<Found>>>)
    requires FreshStubs(first, count, reg, basedir)
    ensures |s.reg| == |reg| && forall j :: 0 <= j < first ==> s.reg[j] == reg[j]
    ensures RootsKept(reg, s.reg)
    ensures s.value.Success? ==> (|s.value.value| == count &&
      forall k :: 0 <= k < count ==> LocatedAs(env, s.value.value[k], first + k, s.reg, Held(reg)))
    decreases count
  {
    if count == 0 then Step(Success([]), reg)
    else
      var head := PackageStep(env, table, first, reg);
      match head.value
      case Failure(e) => Step(Failure(e), head.reg)
      case Success(f) =>
        FreshAfterHead(env, table, first, count, reg, basedir);
        var rest := LocateAll(env, table, first + 1, count - 1, head.reg, basedir);
        HeldGrows(reg, head.reg);
        match rest.value
        case Failure(e) => Step(Failure(e), rest.reg)
        case Success(fs) =>
          assert rest.reg[first] == head.reg[first];
          LocatedAsCons(env, f, fs, first, rest.reg, Held(reg), Held(head.reg));
          Step(Success([f] + fs), rest.reg)
  }

  /** Locating a batch changes no entry outside it. */
  lemma {:induction false} LocateAllOutside(env: Env, table: map<string, string>, first: nat, count: nat,
                                            reg: seq<Node>, basedir: Path)
    requires FreshStubs(first, count, reg, basedir)
    ensures var s := LocateAll(env, table, first, count, reg, basedir);
      forall j :: 0 <= j < |reg| && !(first <= j < first + count) ==> s.reg[j] == reg[j]
    decreases count
  {
    if count > 0 {
      var head := PackageStep(env, table, first, reg);
      if head.value.Success? {
        LocateAllOutside(env, table, first + 1, count - 1, head.reg, basedir);
      }
    }
  }

  /** Locating a batch keeps the own fields and the dependencies of its stub `j`. */
  lemma {:induction false} LocateAllStub(env: Env, table: map<string, string>, first: nat, count: nat,
                                         reg: seq<Node>, basedir: Path, j: nat)
    requires FreshStubs(first, count, reg, basedir) && first <= j < first + count
    ensures var s := LocateAll(env, table, first, count, reg, basedir);
      SameStub(reg[j], s.reg[j]) && s.reg[j].dependencies == reg[j].dependencies
    decreases count
  {
    var s := LocateAll(env, table, first, count, reg, basedir);
    var head := PackageStep(env, table, first, reg);
    if head.value.Failure? {
      assert s.reg == head.reg;
    } else {
      var rest := LocateAll(env, table, first + 1, count - 1, head.reg, basedir);
      assert s.reg == rest.reg;
      if j == first {
        assert rest.reg[first] == head.reg[first];
      } else {
        LocateAllStub(env, table, first + 1, count - 1, head.reg, basedir, j);
        assert head.reg[j] == reg[j];
      }
    }
  }

  /**
   * Once a batch is located, a stub is left without a root exactly when it is
   * optional and fails to be located.
   */
  lemma {:induction false} LocateAllUnlocated(env: Env, table: map<string, string>, first: nat, count: nat,
                                              reg: seq<Node>, basedir: Path, j: nat)
    requires FreshStubs(first, count, reg, basedir) && first <= j < first + count
    ensures var s := LocateAll(env, table, first, count, reg, basedir);
      s.value.Success? ==>
        (s.reg[j].root.None? <==> reg[j].optional && LocateFails(env, table, reg[j].name, reg[j].basedir))
    decreases count
  {
    var head := PackageStep(env, table, first, reg);
    if head.value.Success? {
      FreshAfterHead(env, table, first, count, reg, basedir);
      var rest := LocateAll(env, table, first + 1, count - 1, head.reg, basedir);
      if j == first {
        assert rest.reg[first] == head.reg[first];
      } else {
        LocateAllUnlocated(env, table, first + 1, count - 1, head.reg, basedir, j);
        assert head.reg[j] == reg[j];
      }
    }
  }

  /** A required stub of the batch that fails to be located makes the whole map throw. */
  lemma {:induction false} LocateAllThrows(env: Env, table: map<string, string>, first: nat, count: nat,
                                           reg: seq<Node>, basedir: Path, j: nat)
    requires FreshStubs(first, count, reg, basedir) && first <= j < first + count
    requires !reg[j].optional && LocateFails(env, table, reg[j].name, reg[j].basedir)
    ensures LocateAll(env, table, first, count, reg, basedir).value.Failure?
    decreases count
  {
    var head := PackageStep(env, table, first, reg);
    if head.value.Success? {
      assert j != first;
      assert head.reg[j] == reg[j];
      FreshAfterHead(env, table, first, count, reg, basedir);
      LocateAllThrows(env, table, first + 1, count - 1, head.reg, basedir, j);
    }
  }

  /** The first stub's description joins the rest's, whose `held` may be larger. */
  lemma LocatedAsCons(env: Env, f: Option<Found>, fs: seq<Option<Found>>, first: nat, reg: seq<Node>,
                      held: set<Path>, held': set<Path>)
    requires held <= held' && LocatedAs(env, f, first, reg, held)
    requires forall k :: 0 <= k < |fs| ==> LocatedAs(env, fs[k], first + 1 + k, reg, held')
    ensures forall k :: 0 <= k < 1 + |fs| ==> LocatedAs(env, ([f] + fs)[k], first + k, reg, held)
  {
    forall k | 0 < k < 1 + |fs|
      ensures LocatedAs(env, ([f] + fs)[k], first + k, reg, held)
    {
      assert ([f] + fs)[k] == fs[k - 1];
      assert LocatedAs(env, fs[k - 1], first + 1 + (k - 1), reg, held');
    }
  }

  // ---- resolveDependenciesSync ----

  /** The declared dependencies of a located node (every located node has its manifest). */
  function DeclaredDependencies(n: Node, lookups: seq<string>): seq<Request>
  {
    if n.meta.Some? then ReadDependencies(n.meta.value, lookups) else []
  }

  /**
   * `attachDependencies(pkg, deps)` on the node registered at `i`. Its filter
   * keeps every resolved child, all of which are objects.
   */
  function Attached(reg: seq<Node>, i: nat, deps: seq<Node>): (r: seq<Node>)
    requires i < |reg|
    ensures |r| == |reg| && r[i] == reg[i].(dependencies := DependsOn(deps))
    ensures forall j :: 0 <= j < |reg| && j != i ==> r[j] == reg[j]
  {
    reg[i := reg[i].(dependencies := DependsOn(deps))]
  }

  /** The own nodes of a batch: ready to descend into, each registered once. */
  predicate DescendReady(env: Env, found: seq<Found>, reg: seq<Node>, held: set<Path>)
  {
    held <= Held(reg) &&
    (forall k :: 0 <= k < |found| && found[k].Own? ==> OwnReady(env, found[k].index, reg, held)) &&
    (forall k, l :: 0 <= k < l < |found| && found[k].Own? && found[l].Own? ==> found[k].index != found[l].index)
  }

  /** Descending into the first node keeps the rest of the batch ready. */
  lemma DescendReadyRest(env: Env, found: seq<Found>, reg: seq<Node>, reg': seq<Node>, held: set<Path>)
    requires found != [] && DescendReady(env, found, reg, held) && RootsKept(reg, reg')
    ensures DescendReady(env, found[1..], reg', held)
  {
    HeldGrows(reg, reg');
    forall k | 0 <= k < |found[1..]| && found[1..][k].Own?
      ensures OwnReady(env, found[1..][k].index, reg', held)
    {
      assert found[1..][k] == found[k + 1];
    }
    forall k, l | 0 <= k < l < |found[1..]| && found[1..][k].Own? && found[1..][l].Own?
      ensures found[1..][k].index != found[1..][l].index
    {
      assert found[1..][k] == found[k + 1] && found[1..][l] == found[l + 1];
    }
  }

  /**
   * The callback of `resolveDependenciesSync` on one located node: a node
   * whose manifest declares nothing, or that is repeated, comes back as it
   * is; otherwise its dependencies are resolved with `basedir` set to the
   * directory of its manifest, and attached to it.
   */
  function DescendOne(env: Env, table: map<string, string>, f: Found, opts: Options, reg: seq<Node>,
                      held: set<Path>): (s: Step<Node>)
    requires held <= Held(reg) && (f.Own? ==> OwnReady(env, f.index, reg, held))
    ensures RootsKept(reg, s.reg)
    decreases |Roots(env.files) - held|, 0
  {
    match f
    case Copy(n) => Step(Success(n), reg)
    case Own(i) =>
      var pkg := reg[i];
      var deps := DeclaredDependencies(pkg, opts.lookups);
      if deps == [] || pkg.repeated then Step(Success(pkg), reg)
      else
        FreeShrinks(env, reg, held, i);
        var child := Resolve(env, table, deps, ChildParams(opts, Dirname(pkg.manifest)), reg);
        match child.value
        case Failure(e) => Step(Failure(e), child.reg)
        case Success(ch) =>
          var reg' := Attached(child.reg, i, ch);
          Step(Success(reg'[i]), reg')
  }

  /**
   * `resolveDependenciesSync(pkgs, opts, lookups)`: map the callback over the
   * located nodes in order. `held` is the set of roots the registry held when
   * this batch was registered; it bounds the recursion.
   */
  function Descend(env: Env, table: map<string, string>, found: seq<Found>, opts: Options, reg: seq<Node>,
                   held: set<Path>): (s: Step<seq<Node>>)
    requires DescendReady(env, found, reg, held)
    ensures RootsKept(reg, s.reg)
    decreases |Roots(env.files) - held|, 1, |found|
  {
    if found == [] then Step(Success([]), reg)
    else
      var head := DescendOne(env, table, found[0], opts, reg, held);
      match head.value
      case Failure(e) => Step(Failure(e), head.reg)
      case Success(n) =>
        DescendReadyRest(env, found, reg, head.reg, held);
        Prefixed([n], Descend(env, table, found[1..], opts, head.reg, held))
  }

  /** Put the results for the first nodes in front of the results for the rest. */
  function Prefixed<T>(xs: seq<T>, s: Step<seq<T>>): (r: Step<seq<T>>)
    ensures r.reg == s.reg
    ensures r.value.Success? <==> s.value.Success?
    ensures s.value.Failure? ==> r == s
    ensures s.value.Success? ==> r.value.value == xs + s.value.value
  {
    match s.value
    case Success(ys) => Step(Success(xs + ys), s.reg)
    case Failure(_) => s
  }

  /** Putting two groups of results in front, one after the other, puts them in front together. */
  lemma PrefixedTwice<T>(xs: seq<T>, ys: seq<T>, s: Step<seq<T>>)
    ensures Prefixed(xs, Prefixed(ys, s)) == Prefixed(xs + ys, s)
  {
    if s.value.Success? {
      assert xs + (ys + s.value.value) == (xs + ys) + s.value.value;
    }
  }

  // ---- lookupPackagesSync and resolveByNameSync ----

  /** The located nodes, dropping those an optional failure left undefined (`filter(exists)`). */
  function Kept(located: seq<Option<Found>>): (fs: seq<Found>)
    ensures |fs| <= |located|
  {
    if located == [] then []
    else (if located[0].Some? then [located[0].value] else []) + Kept(located[1..])
  }

  /** `filter(exists)` keeps exactly the located outcomes, and drops only the undefined ones. */
  lemma {:induction false} KeptMembers(located: seq<Option<Found>>)
    ensures forall f :: f in Kept(located) <==> Some(f) in located
    ensures |Kept(located)| == |located| <==> forall k :: 0 <= k < |located| ==> located[k].Some?
    decreases |located|
  {
    if located != [] {
      KeptMembers(located[1..]);
      assert located == [located[0]] + located[1..];
      if located[0].None? {
        assert |Kept(located)| < |located|;
      }
    }
  }

  /** `filter(exists)` on nodes. */
  function KeepExisting(ns: seq<Node>): (r: seq<Node>)
    ensures forall n :: n in r <==> n in ns && Exists(n)
    ensures (forall n :: n in ns ==> Exists(n)) ==> r == ns
  {
    if ns == [] then []
    else (if Exists(ns[0]) then [ns[0]] else []) + KeepExisting(ns[1..])
  }

  /** The located nodes of a batch are ready to be descended into. */
  lemma {:induction false} KeptReady(env: Env, fs: seq<Option<Found>>, first: nat, reg: seq<Node>, held: set<Path>)
    requires held <= Held(reg)
    requires forall k :: 0 <= k < |fs| ==> LocatedAs(env, fs[k], first + k, reg, held)
    ensures DescendReady(env, Kept(fs), reg, held)
    ensures forall f :: f in Kept(fs) && f.Own? ==> first <= f.index < first + |fs|
    ensures forall f :: f in Kept(fs) && f.Copy? ==> f.node.repeated
    decreases |fs|
  {
    if fs != [] {
      assert forall k :: 0 <= k < |fs[1..]| ==> fs[1..][k] == fs[k + 1];
      KeptReady(env, fs[1..], first + 1, reg, held);
      var head: seq<Found> := if fs[0].Some? then [fs[0].value] else [];
      var rest: seq<Found> := Kept(fs[1..]);
      assert Kept(fs) == head + rest;
      assert LocatedAs(env, fs[0], first, reg, held);
      forall k, l | 0 <= k < l < |head + rest| && (head + rest)[k].Own? && (head + rest)[l].Own?
        ensures (head + rest)[k].index != (head + rest)[l].index
      {
        if k < |head| {
          assert (head + rest)[l] == rest[l - |head|];
          assert rest[l - |head|] in rest;
        } else {
          assert (head + rest)[k] == rest[k - |head|] && (head + rest)[l] == rest[l - |head|];
        }
      }
      forall k | 0 <= k < |head + rest| && (head + rest)[k].Own?
        ensures OwnReady(env, (head + rest)[k].index, reg, held)
      {
        if k >= |head| {
          assert (head + rest)[k] == rest[k - |head|];
        }
      }
    }
  }

  /**
   * `lookupPackagesSync(pkgs, opts, lookups)` for the batch
   * `reg[first..first + count]`: locate every stub, then resolve the
   * dependencies of the located ones, then keep those that exist.
   */
  function Lookup(env: Env, table: map<string, string>, first: nat, count: nat, opts: Options, reg: seq<Node>)
    : (s: Step<seq<Node>>)
    requires FreshStubs(first, count, reg, opts.basedir)
    ensures RootsKept(reg, s.reg)
    decreases Free(env, reg), 2
  {
    var located := LocateAll(env, table, first, count, reg, opts.basedir);
    match located.value
    case Failure(e) => Step(Failure(e), located.reg)
    case Success(fs) =>
      HeldGrows(reg, located.reg);
      KeptReady(env, fs, first, located.reg, Held(reg));
      var d := Descend(env, table, Kept(fs), opts, located.reg, Held(reg));
      match d.value
      case Failure(e) => Step(Failure(e), d.reg)
      case Success(ns) => Step(Success(KeepExisting(ns)), d.reg)
  }

  /**
   * `resolveByNameSync(names, params, lookups)`: apply the defaults to the
   * caller's options, push one stub per name onto the registry, then look
   * them all up.
   */
  function Resolve(env: Env, table: map<string, string>, names: seq<Request>, params: Params, reg: seq<Node>)
    : (s: Step<seq<Node>>)
    ensures RootsKept(reg, s.reg) && |s.reg| >= |reg| + |names|
    decreases Free(env, reg), 3
  {
    var opts := SetOptions(params, env.cwd);
    MapPackagesAppends(names, opts.basedir, reg);
    Lookup(env, table, |reg|, |names|, opts, MapPackages(names, opts.basedir, reg))
  }

  // ---- The entry points: resolveByNameSync on a fresh registry, and manifestSync ----

  /** The names argument: a single name, or a list of requests. */
  datatype Names = One(name: string) | Many(requests: seq<Request>)

  /** `if (typeof names === 'string') names = [names]`. */
  function Requests(names: Names): seq<Request>
  {
    match names
    case One(n) => [Named(n)]
    case Many(rs) => rs
  }

  /**
   * `resolveByNameSync(names, params)`: the lookup with an empty registry,
   * under the `resolutions` table as index.js writes it.
   */
  function ByName(env: Env, names: Names, params: Params): Result<seq<Node>, Error>
  {
    Resolve(env, Resolutions, Requests(names), params, []).value
  }

  /**
   * `manifestSync(meta, params)`: resolve the dependencies the manifest
   * declares under the options the defaults give, on an empty registry and
   * under the `resolutions` table as index.js writes it.
   */
  function FromManifest(env: Env, meta: Manifest, params: Params): Result<seq<Node>, Error>
  {
    var opts := SetOptions(params, env.cwd);
    Resolve(env, Resolutions, ReadDependencies(meta, opts.lookups), AsParams(opts), []).value
  }
}
