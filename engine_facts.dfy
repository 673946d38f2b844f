/**
 * What the synchronous engine of index.js promises, proved about the
 * functions of `Engine` by induction along the same recursion: the registry
 * only grows and each stage touches only its own entries; results list only
 * located nodes, in input order; repeated nodes are never descended into;
 * children are looked up from their parent's manifest directory.
 */
module EngineFacts {
  import opened Wrappers
  import opened Paths
  import opened Manifests
  import opened Packages
  import opened Engine

  // ---- Roots in order ----

  /** The roots of the nodes that hold one, in order. */
  function PresentRoots(ns: seq<Node>): seq<Path>
  {
    if ns == [] then []
    else (if ns[0].root.Some? then [ns[0].root.value] else []) + PresentRoots(ns[1..])
  }

  /** The node a located entry stands for: the registered node itself, or the copy. */
  function NodeOf(f: Found, reg: seq<Node>): Node
    requires f.Own? ==> f.index < |reg|
  {
    match f
    case Own(i) => reg[i]
    case Copy(n) => n
  }

  /** Every own entry refers to a registered node. */
  predicate InRegistry(found: seq<Found>, reg: seq<Node>)
  {
    forall k :: 0 <= k < |found| && found[k].Own? ==> found[k].index < |reg|
  }

  /** The roots of the nodes the located entries stand for, in order. */
  function FoundRoots(found: seq<Found>, reg: seq<Node>): seq<Path>
    requires InRegistry(found, reg)
  {
    if found == [] then []
    else
      var n := NodeOf(found[0], reg);
      (if n.root.Some? then [n.root.value] else []) + FoundRoots(found[1..], reg)
  }

  /** Results that keep, one for one, the roots of the located entries list those roots. */
  lemma {:induction false} PresentRootsOfFound(ns: seq<Node>, found: seq<Found>, reg: seq<Node>)
    requires InRegistry(found, reg)
    requires |ns| == |found| && forall k :: 0 <= k < |ns| ==> ns[k].root == NodeOf(found[k], reg).root
    ensures PresentRoots(ns) == FoundRoots(found, reg)
    decreases |ns|
  {
    if ns != [] {
      assert forall k :: 0 <= k < |ns[1..]| ==> ns[1..][k] == ns[k + 1] && found[1..][k] == found[k + 1];
      PresentRootsOfFound(ns[1..], found[1..], reg);
    }
  }

  /** The roots in order depend on nothing but each node's root. */
  lemma {:induction false} PresentRootsPointwise(a: seq<Node>, b: seq<Node>)
    requires |a| == |b| && forall k :: 0 <= k < |a| ==> a[k].root == b[k].root
    ensures PresentRoots(a) == PresentRoots(b)
    decreases |a|
  {
    if a != [] {
      PresentRootsPointwise(a[1..], b[1..]);
    }
  }

  /**
   * The located entries of a batch stand for existing nodes whose roots, in
   * order, are the roots the batch's stubs were given.
   */
  lemma {:induction false} KeptRoots(env: Env, fs: seq<Option<Found>>, first: nat, count: nat, reg: seq<Node>,
                                     held: set<Path>)
    requires |fs| == count && first + count <= |reg|
    requires forall k :: 0 <= k < |fs| ==> LocatedAs(env, fs[k], first + k, reg, held)
    ensures InRegistry(Kept(fs), reg)
    ensures forall k :: 0 <= k < |Kept(fs)| ==> Exists(NodeOf(Kept(fs)[k], reg))
    ensures FoundRoots(Kept(fs), reg) == PresentRoots(reg[first..first + count])
    decreases |fs|
  {
    if fs == [] {
      assert reg[first..first + count] == [];
    } else {
      assert forall k :: 0 <= k < |fs[1..]| ==> fs[1..][k] == fs[k + 1];
      KeptRoots(env, fs[1..], first + 1, count - 1, reg, held);
      var rest := Kept(fs[1..]);
      assert LocatedAs(env, fs[0], first, reg, held);
      var batch := reg[first..first + count];
      assert batch[0] == reg[first] && batch[1..] == reg[first + 1..first + 1 + (count - 1)];
      if fs[0].Some? {
        var all := [fs[0].value] + rest;
        assert Kept(fs) == all && all[0] == fs[0].value && all[1..] == rest;
        assert forall k :: 0 < k < |all| ==> all[k] == rest[k - 1];
      } else {
        assert Kept(fs) == rest;
      }
    }
  }

  // ---- The registry only grows, and each stage touches only its own entries ----

  /** A stage that only attaches dependencies to entries of `reg`, and may append. */
  predicate OnlyDependencies(reg: seq<Node>, reg': seq<Node>)
  {
    |reg| <= |reg'| && forall j :: 0 <= j < |reg| ==> reg'[j] == reg[j].(dependencies := reg'[j].dependencies)
  }

  /** Attaching to `i` after a stage that left `reg` as it was changes only `i`'s dependencies. */
  lemma AttachedOnlyDependencies(reg: seq<Node>, reg': seq<Node>, i: nat, deps: seq<Node>)
    requires i < |reg| <= |reg'| && forall j :: 0 <= j < |reg| ==> reg'[j] == reg[j]
    ensures OnlyDependencies(reg, Attached(reg', i, deps))
    ensures forall j :: 0 <= j < |reg| && j != i ==> Attached(reg', i, deps)[j] == reg[j]
  {
  }

  /** Descending into one node leaves every other entry of the registry as it was. */
  lemma DescendOneUntouched(env: Env, table: map<string, string>, f: Found, opts: Options, reg: seq<Node>,
                            held: set<Path>)
    requires held <= Held(reg) && (f.Own? ==> OwnReady(env, f.index, reg, held))
    ensures var s := DescendOne(env, table, f, opts, reg, held);
      forall j :: 0 <= j < |reg| && f != Own(j) ==> s.reg[j] == reg[j]
    decreases |Roots(env.files) - held|, 0
  {
    if f.Own? {
      var i := f.index;
      var pkg := reg[i];
      var deps := DeclaredDependencies(pkg, opts.lookups);
      if !(deps == [] || pkg.repeated) {
        FreeShrinks(env, reg, held, i);
        ResolvePrefix(env, table, deps, ChildParams(opts, Dirname(pkg.manifest)), reg);
      }
    }
  }

  /** `resolveDependenciesSync` leaves every entry it does not descend into as it was. */
  lemma DescendUntouched(env: Env, table: map<string, string>, found: seq<Found>, opts: Options, reg: seq<Node>,
                         held: set<Path>)
    requires DescendReady(env, found, reg, held)
    ensures var s := Descend(env, table, found, opts, reg, held);
      forall j :: 0 <= j < |reg| && Own(j) !in found ==> s.reg[j] == reg[j]
    decreases |Roots(env.files) - held|, 1, |found|
  {
    if found != [] {
      var head := DescendOne(env, table, found[0], opts, reg, held);
      DescendOneUntouched(env, table, found[0], opts, reg, held);
      if head.value.Success? {
        DescendReadyRest(env, found, reg, head.reg, held);
        DescendUntouched(env, table, found[1..], opts, head.reg, held);
        var s := Descend(env, table, found, opts, reg, held);
        assert s.reg == Descend(env, table, found[1..], opts, head.reg, held).reg;
        forall j | 0 <= j < |reg| && Own(j) !in found
          ensures s.reg[j] == reg[j]
        {
          assert Own(j) !in found[1..];
        }
      }
    }
  }

  /** Looking up a batch changes no entry outside it. */
  lemma LookupOutside(env: Env, table: map<string, string>, first: nat, count: nat, opts: Options, reg: seq<Node>)
    requires FreshStubs(first, count, reg, opts.basedir)
    ensures var s := Lookup(env, table, first, count, opts, reg);
      forall j :: 0 <= j < |reg| && !(first <= j < first + count) ==> s.reg[j] == reg[j]
    decreases Free(env, reg), 2
  {
    var s := Lookup(env, table, first, count, opts, reg);
    var located := LocateAll(env, table, first, count, reg, opts.basedir);
    LocateAllOutside(env, table, first, count, reg, opts.basedir);
    if located.value.Success? {
      var fs := located.value.value;
      HeldGrows(reg, located.reg);
      KeptReady(env, fs, first, located.reg, Held(reg));
      DescendUntouched(env, table, Kept(fs), opts, located.reg, Held(reg));
      assert s.reg == Descend(env, table, Kept(fs), opts, located.reg, Held(reg)).reg;
    } else {
      assert s.reg == located.reg;
    }
  }

  /** `resolveByNameSync` leaves every entry it found in the registry as it was. */
  lemma ResolvePrefix(env: Env, table: map<string, string>, names: seq<Request>, params: Params, reg: seq<Node>)
    ensures var s := Resolve(env, table, names, params, reg);
      forall j :: 0 <= j < |reg| ==> s.reg[j] == reg[j]
    decreases Free(env, reg), 3
  {
    var opts := SetOptions(params, env.cwd);
    MapPackagesAppends(names, opts.basedir, reg);
    LookupOutside(env, table, |reg|, |names|, opts, MapPackages(names, opts.basedir, reg));
  }

  /**
   * Descending into one node changes no entry of the registry but its
   * dependencies.
   */
  lemma DescendOneOnlyDependencies(env: Env, table: map<string, string>, f: Found, opts: Options, reg: seq<Node>,
                                   held: set<Path>)
    requires held <= Held(reg) && (f.Own? ==> OwnReady(env, f.index, reg, held))
    ensures OnlyDependencies(reg, DescendOne(env, table, f, opts, reg, held).reg)
  {
    if f.Own? {
      var i := f.index;
      var pkg := reg[i];
      var deps := DeclaredDependencies(pkg, opts.lookups);
      if !(deps == [] || pkg.repeated) {
        var params := ChildParams(opts, Dirname(pkg.manifest));
        var child := Resolve(env, table, deps, params, reg);
        ResolvePrefix(env, table, deps, params, reg);
        if child.value.Success? {
          AttachedOnlyDependencies(reg, child.reg, i, child.value.value);
        }
      }
    }
  }

  /** `resolveDependenciesSync` changes no entry of the registry but dependencies. */
  lemma {:induction false} DescendOnlyDependencies(env: Env, table: map<string, string>, found: seq<Found>,
                                                   opts: Options, reg: seq<Node>, held: set<Path>)
    requires DescendReady(env, found, reg, held)
    ensures OnlyDependencies(reg, Descend(env, table, found, opts, reg, held).reg)
    decreases |found|
  {
    if found != [] {
      var head := DescendOne(env, table, found[0], opts, reg, held);
      DescendOneOnlyDependencies(env, table, found[0], opts, reg, held);
      if head.value.Success? {
        DescendReadyRest(env, found, reg, head.reg, held);
        DescendOnlyDependencies(env, table, found[1..], opts, head.reg, held);
        assert Descend(env, table, found, opts, reg, held).reg == Descend(env, table, found[1..], opts, head.reg, held).reg;
      }
    }
  }

  /** Looking up a batch keeps its stubs' own fields. */
  lemma LookupStubs(env: Env, table: map<string, string>, first: nat, count: nat, opts: Options, reg: seq<Node>)
    requires FreshStubs(first, count, reg, opts.basedir)
    ensures var s := Lookup(env, table, first, count, opts, reg);
      forall j :: first <= j < first + count ==> SameStub(reg[j], s.reg[j])
  {
    var s := Lookup(env, table, first, count, opts, reg);
    var located := LocateAll(env, table, first, count, reg, opts.basedir);
    forall j | first <= j < first + count
      ensures SameStub(reg[j], located.reg[j]) && located.reg[j].dependencies == reg[j].dependencies
    {
      LocateAllStub(env, table, first, count, reg, opts.basedir, j);
    }
    if located.value.Success? {
      var fs := located.value.value;
      HeldGrows(reg, located.reg);
      KeptReady(env, fs, first, located.reg, Held(reg));
      DescendOnlyDependencies(env, table, Kept(fs), opts, located.reg, Held(reg));
      assert s.reg == Descend(env, table, Kept(fs), opts, located.reg, Held(reg)).reg;
    } else {
      assert s.reg == located.reg;
    }
  }

  /**
   * `resolveByNameSync` appends one stub per name, in order, each keeping the
   * name, the basedir and the optional flag `mapPackages` gave it.
   */
  lemma ResolveStubs(env: Env, table: map<string, string>, names: seq<Request>, params: Params, reg: seq<Node>)
    ensures var s := Resolve(env, table, names, params, reg);
      forall j :: |reg| <= j < |reg| + |names| ==>
        SameStub(s.reg[j], Stub(names[j - |reg|], SetOptions(params, env.cwd).basedir))
  {
    var opts := SetOptions(params, env.cwd);
    MapPackagesAppends(names, opts.basedir, reg);
    LookupStubs(env, table, |reg|, |names|, opts, MapPackages(names, opts.basedir, reg));
  }

  // ---- What comes back ----

  /**
   * How `resolveDependenciesSync` returns one located node `f`, as `n`: a
   * repeated copy as it is; the registered node with every field it had,
   * unchanged when its manifest declares nothing or it is repeated, and
   * otherwise with dependencies attached.
   */
  predicate Shaped(f: Found, n: Node, reg: seq<Node>, lookups: seq<string>)
  {
    match f
    case Copy(c) => n == c
    case Own(i) =>
      i < |reg| && n == reg[i].(dependencies := n.dependencies) &&
      (DeclaredDependencies(reg[i], lookups) == [] || reg[i].repeated ==> n == reg[i]) &&
      (DeclaredDependencies(reg[i], lookups) != [] && !reg[i].repeated ==> n.dependencies.DependsOn?)
  }

  /**
   * One located node: a repeated copy is returned as it is and nothing is
   * looked up for it; the registered node is returned as the registry then
   * holds it.
   */
  lemma DescendOneShape(env: Env, table: map<string, string>, f: Found, opts: Options, reg: seq<Node>,
                        held: set<Path>)
    requires held <= Held(reg) && (f.Own? ==> OwnReady(env, f.index, reg, held))
    ensures var s := DescendOne(env, table, f, opts, reg, held);
      (f.Copy? ==> s == Step(Success(f.node), reg)) &&
      (s.value.Success? ==> (Shaped(f, s.value.value, reg, opts.lookups) &&
        (f.Own? ==> f.index < |s.reg| && s.value.value == s.reg[f.index])))
  {
    if f.Own? {
      var i := f.index;
      var pkg := reg[i];
      var deps := DeclaredDependencies(pkg, opts.lookups);
      if !(deps == [] || pkg.repeated) {
        var params := ChildParams(opts, Dirname(pkg.manifest));
        ResolvePrefix(env, table, deps, params, reg);
        assert Resolve(env, table, deps, params, reg).reg[i] == reg[i];
      }
    }
  }

  /**
   * One result per located node, in order, each as `Shaped` describes it
   * against `reg`; a registered node's result is the entry `reg'` holds for it.
   */
  predicate ShapedAll(found: seq<Found>, ns: seq<Node>, reg: seq<Node>, reg': seq<Node>, lookups: seq<string>)
  {
    |ns| == |found| &&
    forall k :: 0 <= k < |found| ==>
      Shaped(found[k], ns[k], reg, lookups) &&
      (found[k].Own? ==> found[k].index < |reg'| && ns[k] == reg'[found[k].index])
  }

  /**
   * The first result joins the rest's when descending into the first node
   * left the others' entries alone and the rest left the first's alone.
   */
  lemma ShapedCons(found: seq<Found>, n: Node, ns: seq<Node>, reg: seq<Node>, reg1: seq<Node>, reg2: seq<Node>,
                   lookups: seq<string>)
    requires found != [] && |reg| <= |reg1| <= |reg2|
    requires Shaped(found[0], n, reg, lookups) && (found[0].Own? ==> found[0].index < |reg1| && n == reg1[found[0].index])
    requires ShapedAll(found[1..], ns, reg1, reg2, lookups)
    requires forall k :: 0 <= k < |found| && found[k].Own? ==> found[k].index < |reg|
    requires forall k :: 0 < k < |found| && found[k].Own? && found[0].Own? ==> found[k].index != found[0].index
    requires forall j :: 0 <= j < |reg| && found[0] != Own(j) ==> reg1[j] == reg[j]
    requires forall j :: 0 <= j < |reg1| && Own(j) !in found[1..] ==> reg2[j] == reg1[j]
    ensures ShapedAll(found, [n] + ns, reg, reg2, lookups)
  {
    var all := [n] + ns;
    forall k | 0 <= k < |found|
      ensures Shaped(found[k], all[k], reg, lookups)
      ensures found[k].Own? ==> found[k].index < |reg2| && all[k] == reg2[found[k].index]
    {
      if k == 0 {
        if found[0].Own? {
          assert Own(found[0].index) !in found[1..] by {
            forall l | 0 <= l < |found[1..]| ensures found[1..][l] != found[0] {
              assert found[1..][l] == found[l + 1];
            }
          }
        }
      } else {
        assert found[k] == found[1..][k - 1] && all[k] == ns[k - 1];
        if found[k].Own? && found[0].Own? {
          assert found[0].index != found[k].index;
        }
      }
    }
  }

  /**
   * `resolveDependenciesSync`: one result per located node, in order, each
   * as `Shaped` describes it; a registered node's result is the entry the
   * registry finally holds for it.
   */
  lemma {:induction false} DescendShape(env: Env, table: map<string, string>, found: seq<Found>, opts: Options,
                                        reg: seq<Node>, held: set<Path>)
    requires DescendReady(env, found, reg, held)
    ensures var s := Descend(env, table, found, opts, reg, held);
      s.value.Success? ==> ShapedAll(found, s.value.value, reg, s.reg, opts.lookups)
    decreases |found|
  {
    if found != [] {
      var head := DescendOne(env, table, found[0], opts, reg, held);
      DescendOneUntouched(env, table, found[0], opts, reg, held);
      DescendOneShape(env, table, found[0], opts, reg, held);
      if head.value.Success? {
        DescendReadyRest(env, found, reg, head.reg, held);
        var rest := Descend(env, table, found[1..], opts, head.reg, held);
        DescendShape(env, table, found[1..], opts, head.reg, held);
        DescendUntouched(env, table, found[1..], opts, head.reg, held);
        var s := Descend(env, table, found, opts, reg, held);
        assert s == Prefixed([head.value.value], rest);
        if rest.value.Success? {
          ShapedCons(found, head.value.value, rest.value.value, reg, head.reg, rest.reg, opts.lookups);
        }
      }
    }
  }

  /** Results shaped after located nodes that are repeated or fresh are themselves. */
  lemma ResultsFresh(found: seq<Found>, ns: seq<Node>, reg: seq<Node>, reg': seq<Node>, lookups: seq<string>,
                     basedir: Path, held: set<Path>)
    requires ShapedAll(found, ns, reg, reg', lookups)
    requires InRegistry(found, reg) && forall k :: 0 <= k < |found| ==> Exists(NodeOf(found[k], reg))
    requires forall k :: 0 <= k < |found| && found[k].Copy? ==> found[k].node.repeated
    requires forall k :: 0 <= k < |found| && found[k].Own? ==>
      reg[found[k].index].basedir == basedir && reg[found[k].index].root.Some? &&
      reg[found[k].index].root.value !in held
    ensures forall n :: n in ns ==> Exists(n) && (n.repeated || (n.basedir == basedir && n.root.value !in held))
  {
    forall n | n in ns
      ensures Exists(n) && (n.repeated || (n.basedir == basedir && n.root.value !in held))
    {
      var k :| 0 <= k < |ns| && ns[k] == n;
      assert Shaped(found[k], n, reg, lookups);
    }
  }

  /**
   * `lookupPackagesSync`: every node it returns is located, and is either
   * repeated or a stub of the batch, with its basedir and a root no entry of
   * `reg` held.
   */
  lemma LookupFresh(env: Env, table: map<string, string>, first: nat, count: nat, opts: Options, reg: seq<Node>)
    requires FreshStubs(first, count, reg, opts.basedir)
    ensures var s := Lookup(env, table, first, count, opts, reg);
      s.value.Success? ==> forall n :: n in s.value.value ==> (Exists(n) &&
        (n.repeated || (n.basedir == opts.basedir && n.root.value !in Held(reg))))
  {
    var s := Lookup(env, table, first, count, opts, reg);
    var located := LocateAll(env, table, first, count, reg, opts.basedir);
    forall j | first <= j < first + count
      ensures SameStub(reg[j], located.reg[j]) && located.reg[j].dependencies == reg[j].dependencies
    {
      LocateAllStub(env, table, first, count, reg, opts.basedir, j);
    }
    if located.value.Success? {
      var fs := located.value.value;
      HeldGrows(reg, located.reg);
      KeptReady(env, fs, first, located.reg, Held(reg));
      KeptRoots(env, fs, first, count, located.reg, Held(reg));
      var found := Kept(fs);
      var d := Descend(env, table, found, opts, located.reg, Held(reg));
      DescendShape(env, table, found, opts, located.reg, Held(reg));
      if d.value.Success? {
        var ns := d.value.value;
        forall k | 0 <= k < |found|
          ensures found[k].Copy? ==> found[k].node.repeated
          ensures found[k].Own? ==> (found[k].index < |located.reg| && located.reg[found[k].index].basedir == opts.basedir &&
            located.reg[found[k].index].root.Some? && located.reg[found[k].index].root.value !in Held(reg))
        {
          assert found[k] in found;
        }
        ResultsFresh(found, ns, located.reg, d.reg, opts.lookups, opts.basedir, Held(reg));
        assert s.value.value == KeepExisting(ns) == ns;
      }
    }
  }

  /** A stage that only attaches dependencies keeps the roots of a batch, in order. */
  lemma BatchRootsKept(reg: seq<Node>, reg': seq<Node>, first: nat, count: nat)
    requires OnlyDependencies(reg, reg') && first + count <= |reg|
    ensures PresentRoots(reg[first..first + count]) == PresentRoots(reg'[first..first + count])
  {
    var batch, batch' := reg[first..first + count], reg'[first..first + count];
    forall k | 0 <= k < count
      ensures batch[k].root == batch'[k].root
    {
      assert batch[k] == reg[first + k] && batch'[k] == reg'[first + k];
    }
    PresentRootsPointwise(batch, batch');
  }

  /**
   * Results that keep, one for one, the roots of the located entries of a
   * batch list the roots of the batch, also once dependencies are attached.
   */
  lemma RootsInOrder(ns: seq<Node>, found: seq<Found>, reg: seq<Node>, reg': seq<Node>, first: nat, count: nat)
    requires InRegistry(found, reg)
    requires |ns| == |found| && forall k :: 0 <= k < |ns| ==> ns[k].root == NodeOf(found[k], reg).root
    requires first + count <= |reg| && FoundRoots(found, reg) == PresentRoots(reg[first..first + count])
    requires OnlyDependencies(reg, reg')
    ensures PresentRoots(ns) == PresentRoots(reg'[first..first + count])
  {
    PresentRootsOfFound(ns, found, reg);
    BatchRootsKept(reg, reg', first, count);
  }

  /**
   * `lookupPackagesSync`: after a successful lookup, a stub of the batch is
   * left unlocated exactly when it is optional and its module lookup, its
   * manifest search or its JSON read fails.
   */
  lemma LookupUnlocated(env: Env, table: map<string, string>, first: nat, count: nat, opts: Options,
                        reg: seq<Node>)
    requires FreshStubs(first, count, reg, opts.basedir)
    ensures var s := Lookup(env, table, first, count, opts, reg);
      s.value.Success? ==> forall j :: first <= j < first + count ==>
        (s.reg[j].root.None? <==> reg[j].optional && LocateFails(env, table, reg[j].name, reg[j].basedir))
  {
    var s := Lookup(env, table, first, count, opts, reg);
    var located := LocateAll(env, table, first, count, reg, opts.basedir);
    if located.value.Success? {
      var fs := located.value.value;
      HeldGrows(reg, located.reg);
      KeptReady(env, fs, first, located.reg, Held(reg));
      var d := Descend(env, table, Kept(fs), opts, located.reg, Held(reg));
      DescendOnlyDependencies(env, table, Kept(fs), opts, located.reg, Held(reg));
      if d.value.Success? {
        assert s.reg == d.reg;
        forall j | first <= j < first + count
          ensures d.reg[j].root.None? <==> reg[j].optional && LocateFails(env, table, reg[j].name, reg[j].basedir)
        {
          LocateAllUnlocated(env, table, first, count, reg, opts.basedir, j);
          assert d.reg[j].root == located.reg[j].root;
        }
      }
    }
  }

  /**
   * `lookupPackagesSync`: the roots of the results are those of the located
   * stubs, in input order.
   */
  lemma LookupOrder(env: Env, table: map<string, string>, first: nat, count: nat, opts: Options, reg: seq<Node>)
    requires FreshStubs(first, count, reg, opts.basedir)
    ensures var s := Lookup(env, table, first, count, opts, reg);
      s.value.Success? ==> PresentRoots(s.value.value) == PresentRoots(s.reg[first..first + count])
  {
    var s := Lookup(env, table, first, count, opts, reg);
    var located := LocateAll(env, table, first, count, reg, opts.basedir);
    if located.value.Success? {
      var fs := located.value.value;
      HeldGrows(reg, located.reg);
      KeptReady(env, fs, first, located.reg, Held(reg));
      KeptRoots(env, fs, first, count, located.reg, Held(reg));
      var found := Kept(fs);
      var d := Descend(env, table, found, opts, located.reg, Held(reg));
      DescendOnlyDependencies(env, table, found, opts, located.reg, Held(reg));
      DescendShape(env, table, found, opts, located.reg, Held(reg));
      if d.value.Success? {
        var ns := d.value.value;
        forall k | 0 <= k < |ns|
          ensures ns[k].root == NodeOf(found[k], located.reg).root && Exists(ns[k])
        {
          assert Shaped(found[k], ns[k], located.reg, opts.lookups);
        }
        assert s.value.value == KeepExisting(ns) == ns;
        assert s.reg == d.reg;
        RootsInOrder(ns, found, located.reg, d.reg, first, count);
      }
    }
  }

  /**
   * `resolveByNameSync`: every node it returns is located, and is either
   * repeated or one looked up from the caller's basedir whose root the
   * registry did not hold before the call.
   */
  lemma ResolveFresh(env: Env, table: map<string, string>, names: seq<Request>, params: Params, reg: seq<Node>)
    ensures var s := Resolve(env, table, names, params, reg);
      s.value.Success? ==> forall n :: n in s.value.value ==> (Exists(n) &&
        (n.repeated || (n.basedir == SetOptions(params, env.cwd).basedir && n.root.value !in Held(reg))))
  {
    var opts := SetOptions(params, env.cwd);
    MapPackagesAppends(names, opts.basedir, reg);
    LookupFresh(env, table, |reg|, |names|, opts, MapPackages(names, opts.basedir, reg));
  }

  /**
   * `resolveByNameSync`: after a successful call, the entry of a name is left
   * unlocated, and so is missing from the results, exactly when the name was
   * requested as optional and its module lookup, its manifest search or its
   * JSON read fails.
   */
  lemma ResolveUnlocatedOptional(env: Env, table: map<string, string>, names: seq<Request>, params: Params,
                                 reg: seq<Node>)
    ensures var s := Resolve(env, table, names, params, reg);
      s.value.Success? ==> forall k :: 0 <= k < |names| ==>
        (s.reg[|reg| + k].root.None? <==>
          names[k].Declared? && names[k].optional &&
          LocateFails(env, table, names[k].name, SetOptions(params, env.cwd).basedir))
  {
    var opts := SetOptions(params, env.cwd);
    var reg1 := MapPackages(names, opts.basedir, reg);
    MapPackagesAppends(names, opts.basedir, reg);
    LookupUnlocated(env, table, |reg|, |names|, opts, reg1);
    assert forall k :: 0 <= k < |names| ==> reg1[|reg| + k] == Stub(names[k], opts.basedir);
  }

  /**
   * `resolveByNameSync`: the roots of the results are those of the located
   * names, in input order.
   */
  lemma ResolveOrder(env: Env, table: map<string, string>, names: seq<Request>, params: Params, reg: seq<Node>)
    ensures var s := Resolve(env, table, names, params, reg);
      s.value.Success? ==> PresentRoots(s.value.value) == PresentRoots(s.reg[|reg|..|reg| + |names|])
  {
    var opts := SetOptions(params, env.cwd);
    var reg1 := MapPackages(names, opts.basedir, reg);
    MapPackagesAppends(names, opts.basedir, reg);
    assert Resolve(env, table, names, params, reg) == Lookup(env, table, |reg|, |names|, opts, reg1);
    LookupOrder(env, table, |reg|, |names|, opts, reg1);
  }

  // ---- The tree, all the way down ----

  /**
   * A resolved tree, checked at every depth: every node exists; a node that
   * is not repeated was looked up from `basedir`, holds a root outside `held`,
   * and has its children as `ChildrenFrom` says.
   */
  predicate TreeFrom(ns: seq<Node>, basedir: Path, held: set<Path>, lookups: seq<string>)
    decreases ns, 1
  {
    forall k :: 0 <= k < |ns| ==>
      Exists(ns[k]) &&
      (ns[k].repeated || (ns[k].basedir == basedir && ns[k].root.value !in held && ChildrenFrom(ns[k], held, lookups)))
  }

  /**
   * The node is located and, when its manifest declares dependencies, has
   * them attached as a tree looked up from its manifest's directory whose
   * roots lie outside `held` and outside its own root. Going down, every
   * ancestor's root joins `held`: a package met again below itself comes back
   * repeated.
   */
  predicate ChildrenFrom(n: Node, held: set<Path>, lookups: seq<string>)
    decreases n, 0
  {
    n.root.Some? &&
    (DeclaredDependencies(n, lookups) != [] ==>
      n.dependencies.DependsOn? &&
      TreeFrom(n.dependencies.nodes, Dirname(n.manifest), held + {n.root.value}, lookups))
  }

  /** A smaller set of roots keeps a tree a tree. */
  lemma {:induction false} TreeFromSmaller(ns: seq<Node>, basedir: Path, held: set<Path>, held': set<Path>,
                                           lookups: seq<string>)
    requires TreeFrom(ns, basedir, held', lookups) && held <= held'
    ensures TreeFrom(ns, basedir, held, lookups)
    decreases ns, 1
  {
    forall k | 0 <= k < |ns| && !ns[k].repeated
      ensures ChildrenFrom(ns[k], held, lookups)
    {
      ChildrenFromSmaller(ns[k], held, held', lookups);
    }
  }

  /** A smaller set of roots keeps the children's description. */
  lemma {:induction false} ChildrenFromSmaller(n: Node, held: set<Path>, held': set<Path>, lookups: seq<string>)
    requires ChildrenFrom(n, held', lookups) && held <= held'
    ensures ChildrenFrom(n, held, lookups)
    decreases n, 0
  {
    if DeclaredDependencies(n, lookups) != [] {
      TreeFromSmaller(n.dependencies.nodes, Dirname(n.manifest), held + {n.root.value}, held' + {n.root.value}, lookups);
    }
  }

  /** Attaching a tree looked up from a node's manifest directory, outside roots that include its own. */
  lemma ChildrenAttached(pkg: Node, ch: seq<Node>, held: set<Path>, lookups: seq<string>)
    requires pkg.root.Some? && pkg.root.value in held
    requires TreeFrom(ch, Dirname(pkg.manifest), held, lookups)
    ensures ChildrenFrom(pkg.(dependencies := DependsOn(ch)), held, lookups)
  {
    assert held + {pkg.root.value} == held;
  }

  /**
   * Descending into a registered node that is not repeated leaves it with
   * its children as `ChildrenFrom` says, outside the roots `reg` held.
   */
  lemma {:induction false} DescendOneChildren(env: Env, table: map<string, string>, f: Found, opts: Options, reg: seq<Node>,
                           held: set<Path>)
    requires held <= Held(reg) && (f.Own? ==> OwnReady(env, f.index, reg, held))
    ensures var s := DescendOne(env, table, f, opts, reg, held);
      s.value.Success? && f.Own? && !reg[f.index].repeated ==> ChildrenFrom(s.value.value, Held(reg), opts.lookups)
    decreases |Roots(env.files) - held|, 0
  {
    if f.Own? {
      var i := f.index;
      var pkg := reg[i];
      var deps := DeclaredDependencies(pkg, opts.lookups);
      if !(deps == [] || pkg.repeated) {
        var params := ChildParams(opts, Dirname(pkg.manifest));
        assert SetOptions(params, env.cwd) == opts.(basedir := Dirname(pkg.manifest));
        FreeShrinks(env, reg, held, i);
        ResolvePrefix(env, table, deps, params, reg);
        ResolveTree(env, table, deps, params, reg);
        var child := Resolve(env, table, deps, params, reg);
        if child.value.Success? {
          assert child.reg[i] == reg[i];
          assert pkg.root.value in Held(reg);
          ChildrenAttached(pkg, child.value.value, Held(reg), opts.lookups);
        }
      }
    }
  }

  /** `resolveDependenciesSync` leaves every registered node it descends into as `ChildrenFrom` says. */
  lemma {:induction false} DescendChildren(env: Env, table: map<string, string>, found: seq<Found>, opts: Options,
                        reg: seq<Node>, held: set<Path>)
    requires DescendReady(env, found, reg, held)
    ensures var s := Descend(env, table, found, opts, reg, held);
      s.value.Success? ==> (|s.value.value| == |found| &&
        forall k :: (0 <= k < |found| && found[k].Own? && !reg[found[k].index].repeated) ==>
          ChildrenFrom(s.value.value[k], Held(reg), opts.lookups))
    decreases |Roots(env.files) - held|, 1, |found|
  {
    if found != [] {
      var head := DescendOne(env, table, found[0], opts, reg, held);
      DescendOneUntouched(env, table, found[0], opts, reg, held);
      DescendOneChildren(env, table, found[0], opts, reg, held);
      if head.value.Success? {
        DescendReadyRest(env, found, reg, head.reg, held);
        var rest := Descend(env, table, found[1..], opts, head.reg, held);
        DescendChildren(env, table, found[1..], opts, head.reg, held);
        HeldGrows(reg, head.reg);
        var s := Descend(env, table, found, opts, reg, held);
        assert s == Prefixed([head.value.value], rest);
        if s.value.Success? {
          var ns := s.value.value;
          forall k | 0 <= k < |found| && found[k].Own? && !reg[found[k].index].repeated
            ensures ChildrenFrom(ns[k], Held(reg), opts.lookups)
          {
            if k > 0 {
              assert found[k] == found[1..][k - 1] && ns[k] == rest.value.value[k - 1];
              if found[0].Own? {
                assert found[0].index != found[k].index;
              }
              ChildrenFromSmaller(ns[k], Held(reg), Held(head.reg), opts.lookups);
            }
          }
        }
      }
    }
  }

  /** Results shaped after located nodes that exist exist, so `filter(exists)` keeps them all. */
  lemma ShapedExisting(found: seq<Found>, ns: seq<Node>, reg: seq<Node>, reg': seq<Node>, lookups: seq<string>)
    requires ShapedAll(found, ns, reg, reg', lookups)
    requires InRegistry(found, reg) && forall k :: 0 <= k < |found| ==> Exists(NodeOf(found[k], reg))
    ensures KeepExisting(ns) == ns
  {
    forall k | 0 <= k < |ns|
      ensures Exists(ns[k])
    {
      assert Shaped(found[k], ns[k], reg, lookups);
    }
  }

  /** A result that is not repeated stands for a registered node that is not repeated either. */
  lemma ShapedNotRepeated(found: seq<Found>, ns: seq<Node>, reg: seq<Node>, reg': seq<Node>, lookups: seq<string>,
                          k: nat)
    requires ShapedAll(found, ns, reg, reg', lookups) && k < |ns| && !ns[k].repeated
    requires forall f :: f in found && f.Copy? ==> f.node.repeated
    ensures found[k].Own? && !reg[found[k].index].repeated
  {
    assert Shaped(found[k], ns[k], reg, lookups);
    assert found[k] in found;
  }

  /**
   * `lookupPackagesSync`: every node it returns that is not repeated has its
   * children as `ChildrenFrom` says, outside the roots `reg` held.
   */
  lemma {:induction false} LookupChildren(env: Env, table: map<string, string>, first: nat, count: nat, opts: Options, reg: seq<Node>)
    requires FreshStubs(first, count, reg, opts.basedir)
    ensures var s := Lookup(env, table, first, count, opts, reg);
      s.value.Success? ==> forall n :: n in s.value.value && !n.repeated ==> ChildrenFrom(n, Held(reg), opts.lookups)
    decreases Free(env, reg), 2
  {
    var s := Lookup(env, table, first, count, opts, reg);
    var located := LocateAll(env, table, first, count, reg, opts.basedir);
    if located.value.Success? {
      var fs := located.value.value;
      HeldGrows(reg, located.reg);
      KeptReady(env, fs, first, located.reg, Held(reg));
      var found := Kept(fs);
      var d := Descend(env, table, found, opts, located.reg, Held(reg));
      KeptRoots(env, fs, first, count, located.reg, Held(reg));
      DescendShape(env, table, found, opts, located.reg, Held(reg));
      DescendChildren(env, table, found, opts, located.reg, Held(reg));
      if d.value.Success? {
        var ns := d.value.value;
        ShapedExisting(found, ns, located.reg, d.reg, opts.lookups);
        assert s.value.value == ns;
        forall n | n in ns && !n.repeated
          ensures ChildrenFrom(n, Held(reg), opts.lookups)
        {
          var k :| 0 <= k < |ns| && ns[k] == n;
          ShapedNotRepeated(found, ns, located.reg, d.reg, opts.lookups, k);
          ChildrenFromSmaller(n, Held(reg), Held(located.reg), opts.lookups);
        }
      }
    }
  }

  /**
   * `resolveByNameSync`: what it returns is a tree at every depth. Every node
   * exists; a node that is not repeated was looked up from the options'
   * basedir, holds a root the registry did not hold before the call, and,
   * when its manifest declares dependencies, has them attached as such a tree
   * looked up from its manifest's directory, outside those roots and the
   * roots of all its ancestors. So a cycle ends at the first package met
   * again: it comes back as a repeated copy, and is not descended into.
   */
  lemma {:induction false} ResolveTree(env: Env, table: map<string, string>, names: seq<Request>, params: Params, reg: seq<Node>)
    ensures var s := Resolve(env, table, names, params, reg);
      var opts := SetOptions(params, env.cwd);
      s.value.Success? ==> TreeFrom(s.value.value, opts.basedir, Held(reg), opts.lookups)
    decreases Free(env, reg), 3
  {
    var opts := SetOptions(params, env.cwd);
    var reg1 := MapPackages(names, opts.basedir, reg);
    MapPackagesAppends(names, opts.basedir, reg);
    LookupFresh(env, table, |reg|, |names|, opts, reg1);
    LookupChildren(env, table, |reg|, |names|, opts, reg1);
    assert Resolve(env, table, names, params, reg) == Lookup(env, table, |reg|, |names|, opts, reg1);
  }

  /**
   * In such a tree, a package that depends on a package that depends on it
   * again (a, then b, then a) ends there: the inner one is a repeated copy.
   */
  lemma CycleComesBackRepeated(ns: seq<Node>, basedir: Path, held: set<Path>, lookups: seq<string>,
                               k: nat, b: Node, a: Node)
    requires TreeFrom(ns, basedir, held, lookups) && k < |ns| && !ns[k].repeated
    requires DeclaredDependencies(ns[k], lookups) != [] && b in Children(ns[k]) && !b.repeated
    requires DeclaredDependencies(b, lookups) != [] && a in Children(b) && a.root == ns[k].root
    ensures a.repeated
  {
    var top := ns[k];
    var bs := top.dependencies.nodes;
    var j :| 0 <= j < |bs| && bs[j] == b;
    var outer := held + {top.root.value};
    assert TreeFrom(bs, Dirname(top.manifest), outer, lookups);
    assert ChildrenFrom(b, outer, lookups);
    var as_ := b.dependencies.nodes;
    var i :| 0 <= i < |as_| && as_[i] == a;
    assert TreeFrom(as_, Dirname(b.manifest), outer + {b.root.value}, lookups);
  }

  // ---- Errors and the entry points ----

  /**
   * A first name that is not optional and that the module lookup cannot
   * find makes `resolveByNameSync` throw the lookup's error, before any
   * other name is looked at.
   */
  lemma ResolveFirstMissing(env: Env, table: map<string, string>, names: seq<Request>, params: Params,
                            reg: seq<Node>)
    requires names != [] && !(names[0].Declared? && names[0].optional)
    requires (LookupName(table, names[0].name), SetOptions(params, env.cwd).basedir) !in env.locate
    ensures Resolve(env, table, names, params, reg).value ==
      Failure(ModuleNotFound(LookupName(table, names[0].name), SetOptions(params, env.cwd).basedir))
  {
    var opts := SetOptions(params, env.cwd);
    var reg1 := MapPackages(names, opts.basedir, reg);
    MapPackagesAppends(names, opts.basedir, reg);
    assert reg1[|reg|] == Stub(names[0], opts.basedir);
    var head := PackageStep(env, table, |reg|, reg1);
    assert head.value == Failure(ModuleNotFound(LookupName(table, names[0].name), opts.basedir));
    assert LocateAll(env, table, |reg|, |names|, reg1, opts.basedir).value == Failure(head.value.error);
    assert Resolve(env, table, names, params, reg) == Lookup(env, table, |reg|, |names|, opts, reg1);
  }

  /**
   * A name that is not optional and whose module lookup, manifest search or
   * JSON read fails makes `resolveByNameSync` throw, wherever it stands in
   * the list: the names before it can only change which error is thrown.
   */
  lemma ResolveAnyFails(env: Env, table: map<string, string>, names: seq<Request>, params: Params,
                        reg: seq<Node>, k: nat)
    requires k < |names| && !(names[k].Declared? && names[k].optional)
    requires LocateFails(env, table, names[k].name, SetOptions(params, env.cwd).basedir)
    ensures Resolve(env, table, names, params, reg).value.Failure?
  {
    var opts := SetOptions(params, env.cwd);
    var reg1 := MapPackages(names, opts.basedir, reg);
    MapPackagesAppends(names, opts.basedir, reg);
    assert reg1[|reg| + k] == Stub(names[k], opts.basedir);
    LocateAllThrows(env, table, |reg|, |names|, reg1, opts.basedir, |reg| + k);
    assert Resolve(env, table, names, params, reg) == Lookup(env, table, |reg|, |names|, opts, reg1);
  }

  /**
   * `resolveByNameSync(names, params)`: what it returns is a tree at every
   * depth, as `TreeFrom` says, starting from the caller's basedir with no
   * root held.
   */
  lemma ByNameTree(env: Env, names: Names, params: Params)
    ensures var r := ByName(env, names, params);
      var opts := SetOptions(params, env.cwd);
      r.Success? ==> TreeFrom(r.value, opts.basedir, {}, opts.lookups)
  {
    ResolveTree(env, Resolutions, Requests(names), params, []);
    assert Held([]) == {};
  }

  /**
   * `manifestSync(meta, params)`: what it returns is a tree at every depth,
   * as `TreeFrom` says, starting from the caller's basedir with no root held.
   */
  lemma FromManifestTree(env: Env, meta: Manifest, params: Params)
    ensures var r := FromManifest(env, meta, params);
      var opts := SetOptions(params, env.cwd);
      r.Success? ==> TreeFrom(r.value, opts.basedir, {}, opts.lookups)
  {
    var opts := SetOptions(params, env.cwd);
    ResolveTree(env, Resolutions, ReadDependencies(meta, opts.lookups), AsParams(opts), []);
    assert Held([]) == {};
  }
}
