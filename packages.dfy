/**
 * Package nodes, the stubs `mapPackages` registers, the repetition tracker
 * (`findPredecessor`) and the alias table (`resolutions`) of index.js.
 */
module Packages {
  import opened Wrappers
  import opened Paths
  import opened Manifests

  /**
   * One package node, with the fields index.js gives it: `name`, `manifest`
   * (first the guessed, then the found manifest path), `basedir`, `optional`,
   * and, once located, `main`, `root`, `meta`, `version`; `dependencies` once
   * its children are attached, and `repeated` for a copy of a predecessor.
   */
  datatype Node = Node(
    name: string,
    manifest: Path,
    basedir: Path,
    optional: bool,
    main: Option<Path>,
    root: Option<Path>,
    meta: Option<Manifest>,
    version: Option<string>,
    dependencies: Dependencies,
    repeated: bool)

  /** A node's `dependencies` field: not set, or the array of its resolved children. */
  datatype Dependencies = NotAttached | DependsOn(nodes: seq<Node>)

  /** `exists(pkg)`: the node was located, so it has a `root`. */
  predicate Exists(n: Node)
  {
    n.root.Some?
  }

  /** The dependencies attached to a node, `[]` when it has none. */
  function Children(n: Node): seq<Node>
  {
    if n.dependencies.DependsOn? then n.dependencies.nodes else []
  }

  /** The object `mapPackages` builds and pushes for one requested name. */
  function Stub(r: Request, basedir: Path): (n: Node)
    ensures n.name == r.name && n.basedir == basedir
    ensures n.optional <==> r.Declared? && r.optional
    ensures !Exists(n) && n.dependencies.NotAttached? && !n.repeated
  {
    Node(r.name, basedir + ["node_modules", r.name, ManifestFile], basedir, r.Declared? && r.optional,
         None, None, None, None, NotAttached, false)
  }

  /** The stubs for a list of requests, in order. */
  function Stubs(rs: seq<Request>, basedir: Path): (s: seq<Node>)
    ensures |s| == |rs| && forall k :: 0 <= k < |rs| ==> s[k] == Stub(rs[k], basedir)
  {
    seq(|rs|, k requires 0 <= k < |rs| => Stub(rs[k], basedir))
  }

  /** Entry `j` of the registry is another node than `self` with root `root`. */
  predicate SameRoot(reg: seq<Node>, self: nat, root: Path, j: int)
  {
    0 <= j < |reg| && j != self && reg[j].root == Some(root)
  }

  /**
   * The reduce of `findPredecessor` over the first `n` entries: once a match
   * is found it is kept, the node itself (`lookup === pkg`) is skipped, and
   * an entry with an equal `root` becomes the match. The match is the earliest
   * such entry.
   */
  function Earliest(reg: seq<Node>, self: nat, root: Path, n: nat): (m: Option<nat>)
    requires n <= |reg|
    ensures m.None? <==> forall j :: 0 <= j < n ==> !SameRoot(reg, self, root, j)
    ensures m.Some? ==> m.value < n && SameRoot(reg, self, root, m.value)
    ensures m.Some? ==> forall j :: 0 <= j < m.value ==> !SameRoot(reg, self, root, j)
  {
    if n == 0 then None
    else
      var acc := Earliest(reg, self, root, n - 1);
      if acc.Some? then acc
      else if n - 1 == self then None
      else if reg[n - 1].root == Some(root) then
        assert SameRoot(reg, self, root, n - 1);
        Some(n - 1)
      else None
  }

  /**
   * `findPredecessor(lookups, pkg)` for the node registered at `self` with
   * root `root`: nothing when no other entry has that root; otherwise a copy
   * of the earliest such entry, with `repeated` set and all its other fields,
   * its name, basedir and any attached dependencies among them.
   * (`assign({repeated: true}, predecessor)`: registered entries never carry
   * a `repeated` key, so the copy's is true.) The registry is a value and stays
   * as it was.
   */
  function FindPredecessor(reg: seq<Node>, self: nat, root: Path): (r: Option<Node>)
    ensures r.None? <==> forall j :: 0 <= j < |reg| ==> !SameRoot(reg, self, root, j)
    ensures r.Some? ==> exists j :: (SameRoot(reg, self, root, j) && r.value == reg[j].(repeated := true) &&
      forall i :: 0 <= i < j ==> !SameRoot(reg, self, root, i))
    ensures r.Some? ==> r.value.repeated && r.value.root == Some(root)
  {
    var m := Earliest(reg, self, root, |reg|);
    if m.Some? then Some(reg[m.value].(repeated := true)) else None
  }

  /**
   * The `resolutions` table as index.js writes it: packages without a main
   * module, mapped to the file to look up instead.
   */
  const Resolutions: map<string, string> := map[
    "babel-runtime" := "babel-runtime/core-js",
    "mz" := "mz/fs",
    "spdx-exceptions" := "spdx-exceptions/index.json",
    "semantic-ui" := "sematic-ui/package.json",
    "timers-ext" := "timers-ext/package.json",
    "unicode" := "unicode/package.json"]

  /** The table with the `semantic-ui` entry pointing into `semantic-ui`. */
  const CorrectedResolutions: map<string, string> := Resolutions["semantic-ui" := "semantic-ui/package.json"]

  /**
   * The name handed to the module lookup: the table's entry for the name when
   * it has one (`hasOwnProperty`), else `path.join(name, 'package.json')`.
   */
  function LookupName(table: map<string, string>, name: string): (s: string)
    ensures name in table ==> s == table[name]
    ensures name !in table ==> s == name + "/" + ManifestFile
  {
    if name in table then table[name] else name + "/" + ManifestFile
  }

  /** Every entry of the table names a file inside the package it is the entry of. */
  predicate InsidePackages(table: map<string, string>)
  {
    forall name :: name in table ==> name + "/" <= table[name]
  }

  /** With such a table, every lookup looks inside the package requested. */
  lemma LookupStaysInPackage(table: map<string, string>, name: string)
    requires InsidePackages(table)
    ensures name + "/" <= LookupName(table, name)
  {
    if name !in table {
      assert name + "/" + ManifestFile == (name + "/") + ManifestFile;
    }
  }

  /** As written, the `semantic-ui` entry points into a package named `sematic-ui`. */
  lemma ResolutionsLeaveSemanticUi()
    ensures !InsidePackages(Resolutions)
    ensures !("semantic-ui/" <= LookupName(Resolutions, "semantic-ui"))
  {
    var s := LookupName(Resolutions, "semantic-ui");
    assert s == "sematic-ui" + "/" + ManifestFile;
    assert s[4] != "semantic-ui/"[4];
  }

  /** The corrected table keeps every lookup inside the package requested. */
  lemma CorrectedResolutionsInside()
    ensures InsidePackages(CorrectedResolutions)
  {
    forall name | name in CorrectedResolutions
      ensures name + "/" <= CorrectedResolutions[name]
    {
      if name == "babel-runtime" {
        assert CorrectedResolutions[name] == "babel-runtime/core-js";
      } else if name == "mz" {
        assert CorrectedResolutions[name] == "mz/fs";
      } else if name == "spdx-exceptions" {
        assert CorrectedResolutions[name] == "spdx-exceptions/index.json";
      } else if name == "semantic-ui" {
        assert CorrectedResolutions[name] == "semantic-ui/package.json";
      } else if name == "timers-ext" {
        assert CorrectedResolutions[name] == "timers-ext/package.json";
      } else {
        assert name == "unicode";
        assert CorrectedResolutions[name] == "unicode/package.json";
      }
    }
  }
}
