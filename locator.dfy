/**
 * The ancestor search for a package manifest (`findMainfestSync`), over an
 * oracle: the set of paths at which a package.json exists.
 */
module Locator {
  import opened Wrappers
  import opened Paths

  /**
   * The directories `findMainfestSync(base)` looks in: `base` itself, and every
   * ancestor whose own parent is not "/". The search gives up before looking in
   * a directory directly below "/", or in "/" itself, unless it started there.
   */
  predicate Examined(base: Path, k: int)
  {
    k == |base| || 2 <= k < |base|
  }

  /** No examined directory deeper than `base[..k]` has a manifest. */
  predicate NoneDeeper(files: set<Path>, base: Path, k: int)
  {
    forall k' :: k < k' <= |base| && Examined(base, k') ==> base[..k'] + [ManifestFile] !in files
  }

  /**
   * `findMainfestSync`: `base/package.json` if it exists; otherwise, unless
   * `isRoot(join(base, '..'))` (where the source throws), the same search in
   * the parent. The result is the manifest of the deepest examined directory
   * that has one, and there is none exactly when no examined directory has one.
   */
  function FindManifest(files: set<Path>, base: Path): (r: Option<Path>)
    ensures r.Some? ==> r.value in files
    ensures r.Some? ==>
      exists k :: Examined(base, k) && r.value == base[..k] + [ManifestFile] && NoneDeeper(files, base, k)
    ensures r.None? <==> NoneDeeper(files, base, -1)
    decreases |base|
  {
    var file := base + [ManifestFile];
    assert base[..|base|] == base;
    if file in files then
      assert Examined(base, |base|) && NoneDeeper(files, base, |base|);
      Some(file)
    else
      var parent := Dirname(base);
      assert forall k :: 0 <= k <= |parent| ==> parent[..k] == base[..k];
      if IsRoot(parent) then
        assert forall k :: Examined(base, k) ==> k == |base|;
        None
      else
        var r := FindManifest(files, parent);
        assert forall k :: Examined(base, k) && k != |base| ==> Examined(parent, k);
        assert forall k :: Examined(parent, k) ==> Examined(base, k);
        r
  }
}
