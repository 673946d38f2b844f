/**
 * Options handling (`setOptions`) and dependency extraction
 * (`readDependencies`, `isOptional`) of index.js.
 */
module Manifests {
  import opened Wrappers
  import opened Paths

  /**
   * A parsed package.json: for every object-valued field, its own keys
   * in insertion order (`Object.keys`), and the `version` field.
   */
  datatype Manifest = Manifest(fields: map<string, seq<string>>, version: Option<string>)

  const DependenciesField := "dependencies"
  const OptionalField := "optionalDependencies"

  /** `Object.keys(manifest[field] || {})`: an absent field has no keys. */
  function Keys(m: Manifest, field: string): seq<string>
  {
    if field in m.fields then m.fields[field] else []
  }

  /**
   * A name handed to the resolver: a bare string, or a `{name, optional}`
   * object whose `optional` is `optional === true`.
   */
  datatype Request = Named(name: string) | Declared(name: string, optional: bool)

  /** The options every resolution runs with. */
  datatype Options = Options(lookups: seq<string>, basedir: Path, root: Path)

  /** The caller's options object: a key is either given or absent. */
  datatype Params = Params(lookups: Option<seq<string>>, basedir: Option<Path>, root: Option<Path>)

  const NoParams := Params(None, None, None)

  /**
   * `setOptions`: `assign({lookups: ['dependencies'], basedir: cwd, root: cwd}, params)`,
   * so every key the caller gives overrides its default.
   */
  function SetOptions(params: Params, cwd: Path): (o: Options)
    ensures params.lookups.Some? ==> o.lookups == params.lookups.value
    ensures params.lookups.None? ==> o.lookups == [DependenciesField]
    ensures o.basedir == if params.basedir.Some? then params.basedir.value else cwd
    ensures o.root == if params.root.Some? then params.root.value else cwd
  {
    Options(params.lookups.GetOr([DependenciesField]), params.basedir.GetOr(cwd), params.root.GetOr(cwd))
  }

  /**
   * Options handed on as the caller's options object: every key is present,
   * so the `setOptions` of the call they are handed to changes nothing,
   * whatever the working directory.
   */
  function AsParams(o: Options): (p: Params)
    ensures forall cwd :: SetOptions(p, cwd) == o
  {
    Params(Some(o.lookups), Some(o.basedir), Some(o.root))
  }

  /** The options object handed to a child lookup: `assign({}, opts)` with `basedir` replaced. */
  function ChildParams(opts: Options, basedir: Path): (p: Params)
    ensures forall cwd :: SetOptions(p, cwd) == opts.(basedir := basedir)
  {
    AsParams(opts.(basedir := basedir))
  }

  /** `isOptional`: the field is `optionalDependencies`, or the name is an own key of it. */
  predicate IsOptional(m: Manifest, field: string, name: string)
    ensures IsOptional(m, field, name) <==>
      field == OptionalField || (OptionalField in m.fields && name in m.fields[OptionalField])
  {
    field == OptionalField || name in Keys(m, OptionalField)
  }

  /** One `{name, optional}` entry per key of one field, in key order. */
  function FieldDependencies(m: Manifest, field: string): (r: seq<Request>)
    ensures |r| == |Keys(m, field)|
    ensures forall k :: 0 <= k < |r| ==>
      r[k] == Declared(Keys(m, field)[k], IsOptional(m, field, Keys(m, field)[k]))
  {
    var keys := Keys(m, field);
    seq(|keys|, k requires 0 <= k < |keys| => Declared(keys[k], IsOptional(m, field, keys[k])))
  }

  /**
   * `readDependencies`: the reduce over `opts.lookups` that concatenates each
   * field's entries onto the buffer, left to right.
   */
  function ReadDependencies(m: Manifest, lookups: seq<string>): (r: seq<Request>)
    ensures forall k :: 0 <= k < |r| ==> r[k].Declared?
  {
    if lookups == [] then []
    else ReadDependencies(m, lookups[..|lookups| - 1]) + FieldDependencies(m, lookups[|lookups| - 1])
  }

  /** The sum of the key counts of the fields: names are never deduplicated. */
  function KeyCount(m: Manifest, lookups: seq<string>): nat
  {
    if lookups == [] then 0 else |Keys(m, lookups[0])| + KeyCount(m, lookups[1..])
  }

  /** Reading two lists of fields is reading each and concatenating. */
  lemma {:induction false} ReadDependenciesAppend(m: Manifest, a: seq<string>, b: seq<string>)
    ensures ReadDependencies(m, a + b) == ReadDependencies(m, a) + ReadDependencies(m, b)
    decreases |b|
  {
    if b == [] {
      assert a + b == a;
    } else {
      var b' := b[..|b| - 1];
      assert (a + b)[..|a + b| - 1] == a + b';
      assert (a + b)[|a + b| - 1] == b[|b| - 1];
      ReadDependenciesAppend(m, a, b');
    }
  }

  /** The fields in order: the first field's entries, then the rest's. */
  lemma {:induction false} ReadDependenciesCons(m: Manifest, lookups: seq<string>)
    requires lookups != []
    ensures ReadDependencies(m, lookups) == FieldDependencies(m, lookups[0]) + ReadDependencies(m, lookups[1..])
  {
    assert lookups == [lookups[0]] + lookups[1..];
    ReadDependenciesAppend(m, [lookups[0]], lookups[1..]);
    assert [lookups[0]][..0] == [];
  }

  /** One entry per key of every listed field: a name in two fields is listed twice. */
  lemma {:induction false} ReadDependenciesLength(m: Manifest, lookups: seq<string>)
    ensures |ReadDependencies(m, lookups)| == KeyCount(m, lookups)
    decreases |lookups|
  {
    if lookups != [] {
      ReadDependenciesCons(m, lookups);
      ReadDependenciesLength(m, lookups[1..]);
    }
  }

  /** A field the manifest does not have contributes nothing, wherever it is listed. */
  lemma {:induction false} AbsentFieldContributesNothing(m: Manifest, a: seq<string>, field: string, b: seq<string>)
    requires field !in m.fields
    ensures ReadDependencies(m, a + [field] + b) == ReadDependencies(m, a + b)
  {
    ReadDependenciesAppend(m, a + [field], b);
    ReadDependenciesAppend(m, a, [field]);
    ReadDependenciesAppend(m, a, b);
    assert [field][..0] == [];
  }

  /**
   * Membership, both ways: an entry is listed exactly when its name is a key
   * of a listed field, and then it is optional exactly when `isOptional` says so.
   */
  lemma {:induction false} ReadDependenciesMembers(m: Manifest, lookups: seq<string>, r: Request)
    ensures r in ReadDependencies(m, lookups) <==>
      r.Declared? && exists f :: f in lookups && r.name in Keys(m, f) && r.optional == IsOptional(m, f, r.name)
    decreases |lookups|
  {
    if lookups != [] {
      ReadDependenciesCons(m, lookups);
      ReadDependenciesMembers(m, lookups[1..], r);
      var head := FieldDependencies(m, lookups[0]);
      if r in head {
        var k :| 0 <= k < |head| && head[k] == r;
        assert lookups[0] in lookups;
      }
      if r.Declared? && r.name in Keys(m, lookups[0]) && r.optional == IsOptional(m, lookups[0], r.name) {
        var keys := Keys(m, lookups[0]);
        var k :| 0 <= k < |keys| && keys[k] == r.name;
        assert head[k] == r;
      }
      if r.Declared? && exists f :: f in lookups && r.name in Keys(m, f) && r.optional == IsOptional(m, f, r.name) {
        var f :| f in lookups && r.name in Keys(m, f) && r.optional == IsOptional(m, f, r.name);
        if f != lookups[0] {
          assert f in lookups[1..];
        }
      }
    }
  }
}
