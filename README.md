# resolve-tree, synchronous engine, in Dafny

This project models the synchronous dependency-tree engine of `resolve-tree`
(`index.js`) and proves properties of it. The engine takes a list of package
names, or a parsed `package.json`. It finds each package with Node's module
lookup and then finds the package's own manifest by searching ancestor
directories. It reads the dependencies the manifest declares under the
configured fields and descends into them. One shared registry (`lookups`)
records every package node of the traversal. A node whose package root was
already registered comes back as a `repeated` copy and is not descended into.
That rule is what makes a cyclic dependency graph terminate. `flatten` and
`flattenMap` then linearise the resulting tree in pre-order.

The files:

- `wrappers.dfy`: `Option` and `Result`.
- `paths.dfy`: absolute paths as segment sequences (`[]` is "/"); `dirname` and `isRoot`.
- `manifests.dfy`:
  - `setOptions` and the options handed to a child lookup;
  - `readDependencies` and `isOptional`.
- `locator.dfy`: the ancestor search `findMainfestSync` over an oracle, the set of existing manifest paths.
- `packages.dfy`:
  - the package node, and the stubs `mapPackages` registers;
  - the repetition tracker `findPredecessor`;
  - the `resolutions` alias table and the lookup name built from it.
- `engine.dfy`: the engine as functions on values. The registry is a `seq<Node>` threaded through every stage, and a node's identity is its index in it (index.js:85 compares objects with `===`). Each stage returns its value, or the error it throws, together with the registry it leaves. This holds also after a throw.
- `engine_facts.dfy`: what the engine promises, proved about those functions.
- `resolver.dfy`: the engine as index.js runs it. It is a `Registry` class whose `entries` field is the `lookups` array. Its methods push stubs, update entries in place and loop over each batch. Each method is proved to compute exactly the corresponding function of `engine.dfy`, on the registry it started from.
- `flattener.dfy`: `flatten` as a `Buffer` class that the reduce appends to, proved against a pre-order function, and `flattenMap`.

The outside world is a parameter `Env`:

- `resolve.sync(name, {basedir})` becomes a partial map from a (request, basedir) pair to an entry path;
- `fs.existsSync` becomes the set of paths holding a `package.json`;
- `require` of a JSON file becomes a partial map from path to parsed manifest, missing where parsing fails;
- `process.cwd()` becomes a path.

Termination of the mutual recursion is proved for every input. The measure is the number of package roots — directories of existing manifests — that no registered node holds yet. Descending into a node is only done when its root was free when its batch began, so each descent takes one free root away.

## Model

| member | source | states |
|---|---|---|
| Paths.Dirname | index.js:346 | `path.dirname` / `path.join(p, '..')` drops the last segment and keeps "/" as "/" |
| Paths.IsRoot | index.js:243-245 | `isRoot(dir)` holds exactly for "/" and the directories directly below it |
| Locator.FindManifest | index.js:340-351 | a result is an existing manifest of an examined directory (the start, or an ancestor whose own parent is not "/"), with none deeper; there is no result exactly when no examined directory has a manifest |
| Manifests.SetOptions | index.js:225-233 | every option the caller gives overrides its default; `lookups` defaults to `['dependencies']`, `basedir` and `root` to the working directory |
| Manifests.AsParams | index.js:262-269 | options handed on as a caller's options come back unchanged from `setOptions`, whatever the working directory |
| Manifests.ChildParams | index.js:359-360 | a child lookup runs with the parent's options and only `basedir` replaced; the parent's options are not changed |
| Manifests.ReadDependencies | index.js:183-194 | every entry the reduce over `opts.lookups` lists is a `{name, optional}` object; which ones is stated by the lemmas below |
| Manifests.IsOptional | index.js:196-199 | optional iff `optionalDependencies` is the field, or the manifest has that field and the name is one of its own keys |
| Manifests.FieldDependencies | index.js:184-191 | one `{name, optional}` entry per key of the field, in key order, optional as `isOptional` says |
| Manifests.ReadDependenciesAppend | index.js:183-194 | reading two lists of fields is reading each and concatenating |
| Manifests.ReadDependenciesCons | index.js:183-194 | the first field's entries come first, then the rest's |
| Manifests.ReadDependenciesLength | index.js:183-194 | one entry per key of every listed field; names in two fields are not deduplicated |
| Manifests.AbsentFieldContributesNothing | index.js:185 | a field the manifest lacks contributes nothing, wherever it is listed |
| Manifests.ReadDependenciesMembers | index.js:183-199 | an entry is listed iff its name is a key of a listed field, and it is optional iff the field is `optionalDependencies` or the name is an own key of it |
| Packages.Exists | index.js:251-253 | `exists(pkg)`: the node has a `root` |
| Packages.Stub | index.js:210-219 | a stub has the request's name, the given basedir, is optional only for `optional === true`, is unlocated, has no dependencies and is not repeated |
| Packages.Stubs | index.js:201-223 | one stub per request, in order |
| Packages.Earliest | index.js:83-88 | the reduce finds no match iff no other entry has the root; otherwise the match has the root and no earlier entry does |
| Packages.FindPredecessor | index.js:82-94 | nothing iff no other entry has the node's root; otherwise a copy of the earliest such entry with `repeated` set and every other field copied |
| Packages.LookupName | index.js:297-299 | the alias table's entry when the name has one, else `name/package.json` |
| Packages.LookupStaysInPackage | index.js:297-299 | with a table whose entries lie inside their packages, every lookup name lies inside the requested package |
| Packages.ResolutionsLeaveSemanticUi | index.js:13 | the table as written sends `semantic-ui` to a file outside `semantic-ui` |
| Packages.CorrectedResolutionsInside | index.js:9-16 | with the `semantic-ui` entry corrected, every entry lies inside its package |
| Engine.FreeShrinks | index.js:362-366 | descending into a node whose root was free when its batch began leaves fewer free roots: the recursion terminates, cycles included |
| Engine.MapPackages | index.js:201-223 | the registry `mapPackages` leaves keeps every earlier entry and grows by one entry per name; `Engine.MapPackagesAppends` states which |
| Engine.MapPackagesAppends | index.js:201-223 | `mapPackages` keeps earlier entries, appends exactly one stub per name in input order with `basedir = opts.basedir`, and adds no root |
| Engine.Located | index.js:327-331 | locating a stub sets `main`, `manifest`, `root` (the manifest's directory), `meta`, and `version` from the manifest, and keeps the stub's own fields |
| Engine.ManifestStep | index.js:314-338 | throws iff no manifest is found or its JSON does not read, leaving the registry as it was; otherwise locates only entry `i` and returns the stub itself iff no other entry has its root, else the `findPredecessor` copy |
| Engine.LocateFails | index.js:302-304 | the module lookup, the manifest search or the JSON read fails for a name and basedir |
| Engine.PackageStep | index.js:295-312 | changes only entry `i`; throws iff the stub is required and its module lookup, manifest search or JSON read fails, and yields nothing iff it is optional and one of them fails, leaving the registry as it was in both cases; a failed module lookup throws the lookup's error; a located outcome is exactly `ManifestStep`'s; a stub located as itself holds a root no entry held before |
| Engine.LocateAll | index.js:284-286 | the map over a batch keeps the entries before it and every root already set; on success it gives one outcome per stub, each describing its entry |
| Engine.LocateAllOutside | index.js:284-286 | locating a batch changes no entry outside it |
| Engine.LocateAllUnlocated | index.js:302-310 | after a successful map, a stub has no root iff it is optional and its module lookup, manifest search or JSON read fails |
| Engine.LocateAllThrows | index.js:284-286 | a required stub anywhere in the batch whose lookup, manifest search or JSON read fails makes the map throw |
| Engine.LocateAllStub | index.js:284-286 | locating a batch keeps each stub's name, basedir, optional flag and dependencies |
| Engine.Attached | index.js:162-167 | `attachDependencies` sets the node's `dependencies` to the resolved children and changes nothing else |
| Engine.DescendOne | index.js:354-368 | descending into one node keeps every root already set |
| Engine.Descend | index.js:353-369 | the map over the located nodes keeps every root already set |
| Engine.KeptMembers | index.js:287 | `filter(exists)` on the located outcomes keeps exactly the located nodes, and drops nothing iff every stub was located |
| Engine.KeepExisting | index.js:290-292 | `filter(exists)` keeps exactly the nodes with a root |
| Engine.Lookup | index.js:283-293 | `lookupPackagesSync` keeps every root already set |
| Engine.Resolve | index.js:271-281 | `resolveByNameSync` keeps every root already set and grows the registry by at least one entry per name |
| EngineFacts.KeptRoots | index.js:287 | the kept outcomes of a batch name registry nodes that exist, and their roots are the roots of the batch, in order |
| EngineFacts.PresentRootsOfFound | index.js:287 | results that match the kept outcomes list the same roots in the same order |
| EngineFacts.DescendOneUntouched | index.js:354-368 | descending into one node changes no entry but the node's own |
| EngineFacts.DescendUntouched | index.js:353-369 | the map changes no entry that is not one of its own nodes |
| EngineFacts.LookupOutside | index.js:283-293 | looking up a batch changes no entry outside it |
| EngineFacts.ResolvePrefix | index.js:271-281 | `resolveByNameSync` leaves every entry registered before it as it was |
| EngineFacts.DescendOneOnlyDependencies | index.js:354-368 | descending into one node changes only `dependencies` fields of earlier entries |
| EngineFacts.DescendOnlyDependencies | index.js:353-369 | the map changes only `dependencies` fields of earlier entries |
| EngineFacts.LookupStubs | index.js:283-293 | looking up a batch keeps its stubs' name, basedir, optional flag and repeated flag |
| EngineFacts.ResolveStubs | index.js:271-281 | the entries `resolveByNameSync` appends keep the stub fields `mapPackages` gave them, in input order |
| EngineFacts.DescendOneShape | index.js:354-368 | a repeated copy comes back as it is; otherwise the result is the registered node, with children attached only when it declares dependencies and is not repeated |
| EngineFacts.DescendShape | index.js:353-369 | one result per located node, in order, each shaped as `DescendOneShape` says |
| EngineFacts.LookupFresh | index.js:283-293 | every result exists, and is repeated or was looked up from the batch's basedir with a root no earlier entry held |
| EngineFacts.LookupUnlocated | index.js:302-310 | after a successful lookup, a stub of the batch is left unlocated iff it is optional and its lookup, manifest search or JSON read fails |
| EngineFacts.LookupOrder | index.js:284-288 | the results list the roots of the batch's located entries, in input order |
| EngineFacts.ResolveFresh | index.js:271-281 | every node returned exists, and is repeated or was looked up from the options' basedir with a root not held before the call |
| EngineFacts.ResolveUnlocatedOptional | index.js:302-310 | after a successful call, the entry of a name is left unlocated, and so is missing from the results, iff the name was requested as optional and its module lookup, manifest search or JSON read fails |
| EngineFacts.ResolveOrder | index.js:277-280 | the results list the roots of the appended entries that were located, in input order |
| EngineFacts.DescendOneChildren | index.js:355-367 | descending into a registered node that is not repeated leaves its children as `ChildrenFrom` says: attached when its manifest declares dependencies, a tree looked up from its manifest's directory, at every depth outside the roots held before and the roots of its ancestors |
| EngineFacts.DescendChildren | index.js:353-369 | the same for each registered node of the map, position by position |
| EngineFacts.LookupChildren | index.js:283-293 | every non-repeated result of `lookupPackagesSync` has its children as `ChildrenFrom` says |
| EngineFacts.ResolveTree | index.js:353-369 | what `resolveByNameSync` returns is a tree at every depth: every node exists; a non-repeated node was looked up from the options' basedir (or its parent's manifest directory), holds a root held neither before the call nor by any ancestor, and has its declared dependencies attached; repeated nodes are never descended into |
| EngineFacts.CycleComesBackRepeated | index.js:362-363 | in such a tree, for a→b→a the inner `a` is a repeated copy |
| EngineFacts.ResolveAnyFails | index.js:302-310 | a required name at any position whose module lookup, manifest search or JSON read fails makes `resolveByNameSync` throw |
| EngineFacts.ResolveFirstMissing | index.js:303 | a required first name that the module lookup cannot find makes `resolveByNameSync` throw exactly the lookup's error |
| Engine.Requests | index.js:275 | a single name counts as a list of one |
| Engine.ByName | index.js:271-281 | `resolveByNameSync(names, params)` on a fresh registry, under the table as written |
| Engine.FromManifest | index.js:262-269 | `manifestSync(meta, params)`: the manifest's declared dependencies under the defaulted options, on a fresh registry |
| EngineFacts.ByNameTree | index.js:271-281 | `resolveByNameSync` on a fresh registry returns a tree as `ResolveTree` says, with no root held at the start |
| EngineFacts.FromManifestTree | index.js:262-269 | the same for `manifestSync` |
| Resolver.Registry.constructor | index.js:272 | a fresh registry is empty |
| Resolver.Registry.Push | index.js:220 | appends one entry |
| Resolver.Registry.MapPackages | index.js:201-223 | the pushes leave the registry `Engine.MapPackages` gives, and the batch starts at the old length |
| Resolver.Registry.Locate | index.js:327-331 | updates entry `i` in place to the located node |
| Resolver.Registry.ResolveManifest | index.js:314-338 | returns and leaves what `Engine.ManifestStep` gives |
| Resolver.Registry.ResolvePackage | index.js:295-312 | returns and leaves what `Engine.PackageStep` gives |
| Resolver.Registry.LocatePackages | index.js:284-286 | returns and leaves what `Engine.LocateAll` gives |
| Resolver.Registry.LookupPackages | index.js:283-293 | returns and leaves what `Engine.Lookup` gives |
| Resolver.Registry.ResolveDependencies | index.js:353-369 | the loop returns and leaves what `Engine.Descend` gives |
| Resolver.Registry.AttachDependencies | index.js:162-167 | updates entry `i` in place as `Engine.Attached` says |
| Resolver.Registry.ResolveOne | index.js:354-368 | returns and leaves what `Engine.DescendOne` gives |
| Resolver.Registry.ResolveByName | index.js:271-281 | returns and leaves what `Engine.Resolve` gives |
| Resolver.ResolveByNameSync | index.js:271-281 | `resolveByNameSync(names, params)` on a fresh registry, a single name counting as a list of one, returns `Engine.ByName` |
| Resolver.ManifestSync | index.js:262-269 | `manifestSync(meta, params)` resolves the manifest's declared dependencies under the defaulted options and returns `Engine.FromManifest` |
| Flattener.FlattenNode | index.js:49-55 | every node a node contributes exists |
| Flattener.Flatten | index.js:47-57 | every node listed exists |
| Flattener.FlattenAppend | index.js:47-57 | flattening a concatenation is concatenating the flattenings |
| Flattener.FlattenAt | index.js:47-57 | pre-order at every position: the earlier siblings, then the node and its whole subtree, then the later siblings; a node without a root is dropped with its subtree |
| Flattener.FlattenReached | index.js:47-57 | every node listed is reachable by a path of indices through existing nodes |
| Flattener.FlattenNodeReached | index.js:50-54 | every node a node contributes, other than itself, is reachable from its dependencies |
| Flattener.ReachedFlattened | index.js:47-57 | every node reachable through existing nodes is listed |
| Flattener.FlattenMembers | index.js:47-57 | a node is listed iff it is reachable through existing nodes |
| Flattener.Buffer.constructor | index.js:56 | the buffer starts as the one handed in |
| Flattener.Buffer.Push | index.js:51 | appends one node |
| Flattener.Buffer.Append | index.js:47-57 | appends exactly the pre-order flattening of the tree to the buffer |
| Flattener.Buffer.Visit | index.js:50-55 | appends the node, then the flattening of its dependencies when they are an array |
| Flattener.FlattenTree | index.js:47-57 | `flatten(tree)` with no buffer returns the pre-order flattening |
| Flattener.FieldOf | index.js:62 | the `manifest` field is the manifest path; `root` is the root, or undefined before the node is located |
| Flattener.NotEmpty | index.js:247-249 | `notEmpty(x)` holds of every node: a node value is never null |
| Flattener.FilterNotEmpty | index.js:247-249 | keeps exactly the values that are not null |
| Flattener.FilterNotEmptyKeeps | index.js:63 | a list of nodes loses nothing to `filter(notEmpty)` |
| Flattener.MapNodes | index.js:63 | one mapped value per node, in order |
| Flattener.SelectedField | index.js:60-62 | `field \|\| 'manifest'`: the default is read when no field or the empty string is given |
| Flattener.FlattenMapWith | index.js:59-63 | `flattenMap(tree, f)` with a function |
| Flattener.FlattenMapField | index.js:59-63 | `flattenMap(tree, field)` with a field name or none |
| Flattener.FlattenMapIsMap | index.js:59-64 | with a function, `flattenMap(tree, f)` is `flatten(tree).map(f)` |
| Flattener.FlattenMapManifests | index.js:59-64 | with no field, `flattenMap` lists each flattened node's manifest path, in pre-order |
| Flattener.FlattenMapRoots | index.js:59-64 | asked for `root`, `flattenMap` lists a root for every flattened node |

## Left out

- The asynchronous API (`manifest`, `resolveByName`, `lookupPackages`, `resolvePackage`, `resolveManifest`, `resolveDependencies`, `childDependencies`, `findMainfest`) is left out because it is callback plumbing over `fw.each`. Only the synchronous semantics is modelled.
- `resolve.sync`, `fs.existsSync`, `require`-based JSON reading and `process.cwd()` are parameters of `Engine.Env`, not code.
- The third `lookups` argument of `resolveByNameSync` is only modelled inside the engine. The entry points `Resolver.ResolveByNameSync` and `Resolver.ManifestSync` always start from an empty registry, as a caller of the exported API does.
- The exported `resolutions` object is mutable, and changes to it are left out. Every stage takes the table as a parameter `table`. The entry points use its value as written, `Packages.Resolutions`; `Packages.CorrectedResolutions` (see "## Findings") can be handed to every stage instead.
- Manifests are modelled as the key lists of their object-valued fields plus `version`. JavaScript key-order corner cases (integer-like keys) and fields that are not objects are left out.
- Inherited object properties are left out. `Flattener.FieldOf` knows only the fields a node is given, so any other field name reads as undefined.
- The engine's error messages are modelled as the constructors of `Engine.Error`. Their text is left out.
- `notEmpty` filters nodes: a node value is never `null`, so the filter in `flattenMap` drops nothing. This is proved in `Flattener.FilterNotEmptyKeeps`.
- The fixture-based expectations of test.sync.js are not stated, since they need a concrete file tree: `foo` having exactly three children, and three top-level results with optional lookups.
- Engine.DescendOne, Engine.Descend, Engine.Lookup, Engine.Resolve: their own contracts state only that roots are kept, which the termination proof needs. What they compute is stated in the lemmas of `EngineFacts`.
- Flattener.FlattenMembers: it states membership, not multiplicity. The length of `flatten` is not related to a count of reachable nodes; `Flattener.FlattenAt` gives the exact order instead.
- EngineFacts.ResolveFirstMissing: it names the error thrown for the first name only. For a later name the names before it can throw first, so only the throw itself is stated, in `EngineFacts.ResolveAnyFails`.
- EngineFacts.ResolveTree: non-repeated nodes have distinct roots along every path from the top, and none repeats a root held before the call. That two non-repeated siblings or cousins never share a root is not stated.

Where the code and an informal reading of the library differ, the model follows the code:

- `findMainfestSync` gives up one level early. It never looks in a directory directly below "/" (the start directory excepted) nor in "/" itself, because it stops as soon as the next parent's dirname is "/".
- A repeated copy is a shallow copy of its predecessor. It carries the predecessor's `dependencies` whenever they were attached before the copy was made (a diamond rather than a cycle).
- `resolvePackageSync` absorbs every failure of an optional package, manifest errors included.

## Findings

| source | as written | input that shows it | evidently intended | confidence | as-written member | corrected member |
|---|---|---|---|---|---|---|
| index.js:13 | the `resolutions` entry for `semantic-ui` is `'sematic-ui/package.json'` | a dependency named `semantic-ui`: the module lookup is asked for `sematic-ui/package.json`, a different package | `'semantic-ui/package.json'` | high, not executed | Packages.ResolutionsLeaveSemanticUi | Packages.CorrectedResolutionsInside |
