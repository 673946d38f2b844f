/**
 * `flatten` and `flattenMap` of index.js: the pre-order linearisation of a
 * resolved tree into a buffer, and the projection of its nodes.
 */
module Flattener {
  import opened Wrappers
  import opened Paths
  import opened Manifests
  import opened Packages

  // ---- The linearisation ----

  /**
   * What one node of a tree contributes: nothing when it does not exist,
   * which drops its subtree too; otherwise the node, then the nodes its
   * attached dependencies contribute.
   */
  function FlattenNode(n: Node): (r: seq<Node>)
    ensures forall m :: m in r ==> Exists(m)
    decreases n
  {
    if !Exists(n) then []
    else [n] + (if n.dependencies.DependsOn? then Flatten(n.dependencies.nodes) else [])
  }

  /** `flatten(tree)`: what the nodes of the tree contribute, in array order. */
  function Flatten(tree: seq<Node>): (r: seq<Node>)
    ensures forall m :: m in r ==> Exists(m)
    decreases tree
  {
    if tree == [] then [] else FlattenNode(tree[0]) + Flatten(tree[1..])
  }

  /** Flattening two arrays one after the other is flattening their concatenation. */
  lemma {:induction false} FlattenAppend(a: seq<Node>, b: seq<Node>)
    ensures Flatten(a + b) == Flatten(a) + Flatten(b)
    decreases |a|
  {
    if a == [] {
      assert a + b == b;
    } else {
      assert (a + b)[0] == a[0] && (a + b)[1..] == a[1..] + b;
      FlattenAppend(a[1..], b);
    }
  }

  /**
   * Pre-order, at any position of the tree: what comes before the node, then
   * the node and its whole subtree, then what comes after it; a node that
   * does not exist is dropped with its subtree.
   */
  lemma {:induction false} FlattenAt(tree: seq<Node>, i: nat)
    requires i < |tree|
    ensures Exists(tree[i]) ==>
      Flatten(tree) == Flatten(tree[..i]) + [tree[i]] + Flatten(Children(tree[i])) + Flatten(tree[i + 1..])
    ensures !Exists(tree[i]) ==> Flatten(tree) == Flatten(tree[..i]) + Flatten(tree[i + 1..])
  {
    var rest := [tree[i]] + tree[i + 1..];
    assert tree == tree[..i] + rest;
    FlattenAppend(tree[..i], rest);
    var before, after := Flatten(tree[..i]), Flatten(tree[i + 1..]);
    assert Flatten(tree) == before + Flatten(rest);
    assert rest[0] == tree[i] && rest[1..] == tree[i + 1..];
    assert Flatten(rest) == FlattenNode(tree[i]) + after;
    if Exists(tree[i]) {
      var below := Flatten(Children(tree[i]));
      assert FlattenNode(tree[i]) == [tree[i]] + below;
      assert before + ([tree[i]] + below + after) == before + [tree[i]] + below + after;
    } else {
      assert FlattenNode(tree[i]) == [];
      assert before + ([] + after) == before + after;
    }
  }

  // ---- A reference definition: the nodes reachable through existing nodes ----

  /**
   * The node a path of array indices leads to, descending from one node to
   * its attached dependencies at each step; nothing when an index is out of
   * range or a node on the way does not exist.
   */
  function Follow(tree: seq<Node>, path: seq<nat>): Option<Node>
    decreases |path|
  {
    if path == [] || path[0] >= |tree| || !Exists(tree[path[0]]) then None
    else if |path| == 1 then Some(tree[path[0]])
    else Follow(Children(tree[path[0]]), path[1..])
  }

  /** Every node the linearisation lists is reachable through existing nodes. */
  lemma {:induction false} FlattenReached(tree: seq<Node>, m: Node)
    requires m in Flatten(tree)
    ensures exists path :: Follow(tree, path) == Some(m)
    decreases tree
  {
    var n := tree[0];
    if m in FlattenNode(n) {
      if m == n {
        assert Follow(tree, [0]) == Some(m);
      } else {
        FlattenNodeReached(n, m);
        var q :| Follow(Children(n), q) == Some(m);
        var path := [0] + q;
        assert path[1..] == q;
        assert Follow(tree, path) == Some(m);
      }
    } else {
      FlattenReached(tree[1..], m);
      var q :| Follow(tree[1..], q) == Some(m);
      var path := [q[0] + 1] + q[1..];
      assert tree[path[0]] == tree[1..][q[0]] && path[1..] == q[1..];
      assert Follow(tree, path) == Follow(tree[1..], q);
    }
  }

  /** A node of a node's contribution is the node itself or reachable from its dependencies. */
  lemma {:induction false} FlattenNodeReached(n: Node, m: Node)
    requires m in FlattenNode(n) && m != n
    ensures exists path :: Follow(Children(n), path) == Some(m)
    decreases n
  {
    assert n.dependencies.DependsOn? && Children(n) == n.dependencies.nodes;
    FlattenReached(n.dependencies.nodes, m);
  }

  /** Every node reachable through existing nodes is listed. */
  lemma {:induction false} ReachedFlattened(tree: seq<Node>, path: seq<nat>)
    requires Follow(tree, path).Some?
    ensures Follow(tree, path).value in Flatten(tree)
    decreases |path|
  {
    var i := path[0];
    FlattenAt(tree, i);
    if |path| > 1 {
      ReachedFlattened(Children(tree[i]), path[1..]);
    }
  }

  /** Membership, both ways: the linearisation lists exactly the reachable nodes. */
  lemma FlattenMembers(tree: seq<Node>, m: Node)
    ensures m in Flatten(tree) <==> exists path :: Follow(tree, path) == Some(m)
  {
    if m in Flatten(tree) {
      FlattenReached(tree, m);
    }
    if exists path :: Follow(tree, path) == Some(m) {
      var path :| Follow(tree, path) == Some(m);
      ReachedFlattened(tree, path);
    }
  }

  // ---- The buffer `flatten` appends to ----

  /** The accumulator `buf` of `flatten(tree, buf)`. */
  class Buffer {
    var items: seq<Node>

    /** `buf || []`: the buffer handed in, or a fresh empty one. */
    constructor (init: seq<Node>)
      ensures items == init
    {
      items := init;
    }

    /** `buf.push(pkg)`. */
    method Push(n: Node)
      modifies this
      ensures items == old(items) + [n]
    {
      items := items + [n];
    }

    /**
     * `flatten(tree, buf)`: the reduce over the existing nodes of the tree,
     * each pushed and then, when its dependencies are an array, flattened
     * into the same buffer.
     */
    method Append(tree: seq<Node>)
      modifies this
      ensures items == old(items) + Flatten(tree)
      decreases tree
    {
      var k := 0;
      while k < |tree|
        invariant 0 <= k <= |tree|
        invariant items == old(items) + Flatten(tree[..k])
      {
        assert tree[..k + 1] == tree[..k] + [tree[k]];
        FlattenAppend(tree[..k], [tree[k]]);
        assert [tree[k]][1..] == [];
        if Exists(tree[k]) {
          Visit(tree[k]);
        }
        k := k + 1;
      }
      assert tree[..|tree|] == tree;
    }

    /** The callback of the reduce, on one existing node. */
    method Visit(n: Node)
      requires Exists(n)
      modifies this
      ensures items == old(items) + FlattenNode(n)
      decreases n
    {
      Push(n);
      if n.dependencies.DependsOn? {
        Append(n.dependencies.nodes);
      }
    }
  }

  /** `flatten(tree)`, with no buffer handed in. */
  method FlattenTree(tree: seq<Node>) returns (r: seq<Node>)
    ensures r == Flatten(tree)
  {
    var buf := new Buffer([]);
    buf.Append(tree);
    r := buf.items;
  }

  // ---- flattenMap ----

  /** A value read off a node: its fields hold strings, paths, flags, a manifest or nodes. */
  datatype Value =
    | Undefined
    | Text(text: string)
    | Location(path: Path)
    | Flag(flag: bool)
    | Json(manifest: Manifest)
    | Nodes(nodes: seq<Node>)

  /** The field `flattenMap` reads when none is given. */
  const DefaultField := "manifest"

  /**
   * `pkg[field]`: the value of a field the node has, `undefined` for one it
   * lacks. A stub has no `main`, `root`, `meta` or `version`, only a repeated
   * copy has `repeated`, and `dependencies` is set only once attached.
   */
  function FieldOf(n: Node, field: string): (v: Value)
    ensures field == "manifest" ==> v == Location(n.manifest)
    ensures field == "root" ==> (v == if n.root.Some? then Location(n.root.value) else Undefined)
  {
    if field == "name" then Text(n.name)
    else if field == "manifest" then Location(n.manifest)
    else if field == "basedir" then Location(n.basedir)
    else if field == "optional" then Flag(n.optional)
    else if field == "main" then (if n.main.Some? then Location(n.main.value) else Undefined)
    else if field == "root" then (if n.root.Some? then Location(n.root.value) else Undefined)
    else if field == "meta" then (if n.meta.Some? then Json(n.meta.value) else Undefined)
    else if field == "version" then (if n.version.Some? then Text(n.version.value) else Undefined)
    else if field == "dependencies" then (if n.dependencies.DependsOn? then Nodes(n.dependencies.nodes) else Undefined)
    else if field == "repeated" then (if n.repeated then Flag(true) else Undefined)
    else Undefined
  }

  /** `notEmpty(x)`: `x != null`. A node value is never null. */
  predicate NotEmpty(n: Node)
    ensures NotEmpty(n)
  {
    true
  }

  /** `xs.filter(notEmpty)`. */
  function FilterNotEmpty(xs: seq<Node>): (r: seq<Node>)
    ensures forall m :: m in r <==> m in xs && NotEmpty(m)
  {
    if xs == [] then [] else (if NotEmpty(xs[0]) then [xs[0]] else []) + FilterNotEmpty(xs[1..])
  }

  /** `xs.map(f)`. */
  function MapNodes<T>(xs: seq<Node>, f: Node -> T): (r: seq<T>)
    ensures |r| == |xs| && forall k :: 0 <= k < |xs| ==> r[k] == f(xs[k])
  {
    if xs == [] then [] else [f(xs[0])] + MapNodes(xs[1..], f)
  }

  /** `flattenMap(tree, f)` with a function: `flatten(tree).filter(notEmpty).map(f)`. */
  function FlattenMapWith<T>(tree: seq<Node>, f: Node -> T): seq<T>
  {
    MapNodes(FilterNotEmpty(Flatten(tree)), f)
  }

  /**
   * The field `flattenMap` reads: the one given, unless it is absent or the
   * empty string (`field || 'manifest'`).
   */
  function SelectedField(field: Option<string>): (f: string)
    ensures f == DefaultField <==> field.None? || field.value == "" || field.value == DefaultField
  {
    if field.None? || field.value == "" then DefaultField else field.value
  }

  /** `flattenMap(tree, field)` with a field name or none: `pkg[field || 'manifest']` for each node. */
  function FlattenMapField(tree: seq<Node>, field: Option<string>): seq<Value>
  {
    FlattenMapWith(tree, (n: Node) => FieldOf(n, SelectedField(field)))
  }

  lemma {:induction false} FilterNotEmptyKeeps(xs: seq<Node>)
    ensures FilterNotEmpty(xs) == xs
    decreases |xs|
  {
    if xs != [] {
      FilterNotEmptyKeeps(xs[1..]);
      assert xs == [xs[0]] + xs[1..];
    }
  }

  /** With a function, `flattenMap` is `flatten` followed by the map: nothing is filtered out. */
  lemma FlattenMapIsMap<T>(tree: seq<Node>, f: Node -> T)
    ensures var r := FlattenMapWith(tree, f);
      |r| == |Flatten(tree)| && forall k :: 0 <= k < |r| ==> r[k] == f(Flatten(tree)[k])
  {
    FilterNotEmptyKeeps(Flatten(tree));
  }

  /** With no field, `flattenMap` lists the manifest path of every node, in pre-order. */
  lemma FlattenMapManifests(tree: seq<Node>)
    ensures var r := FlattenMapField(tree, None);
      |r| == |Flatten(tree)| && forall k :: 0 <= k < |r| ==> r[k] == Location(Flatten(tree)[k].manifest)
  {
    FlattenMapIsMap(tree, (n: Node) => FieldOf(n, SelectedField(None)));
  }

  /** Asked for `root`, `flattenMap` lists a root for every node: every listed node exists. */
  lemma FlattenMapRoots(tree: seq<Node>)
    ensures var r := FlattenMapField(tree, Some("root"));
      |r| == |Flatten(tree)| && forall k :: 0 <= k < |r| ==>
        Flatten(tree)[k].root.Some? && r[k] == Location(Flatten(tree)[k].root.value)
  {
    var fl := Flatten(tree);
    FlattenMapIsMap(tree, (n: Node) => FieldOf(n, SelectedField(Some("root"))));
    assert forall k :: 0 <= k < |fl| ==> fl[k] in fl && Exists(fl[k]);
  }
}
