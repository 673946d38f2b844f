/**
 * Absolute file-system paths as sequences of segments: `[]` is "/",
 * `["a", "b"]` is "/a/b". Only what the core needs from Node's `path`
 * module is modelled.
 */
module Paths {

  type Path = seq<string>

  /** The file name every package directory holds its manifest in. */
  const ManifestFile := "package.json"

  /**
   * `path.dirname(p)`, which for these normalised paths is also
   * `path.join(p, '..')`: drop the last segment; "/" stays "/".
   */
  function Dirname(p: Path): (d: Path)
    ensures p == [] ==> d == []
    ensures p != [] ==> |d| == |p| - 1 && d + [p[|p| - 1]] == p
  {
    if p == [] then [] else p[..|p| - 1]
  }

  /** `isRoot(dir)` of index.js: the directory's parent is "/", so it is "/" or directly below it. */
  predicate IsRoot(dir: Path)
    ensures IsRoot(dir) <==> |dir| <= 1
  {
    Dirname(dir) == []
  }
}
