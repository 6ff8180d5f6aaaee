/**
 * Path triples: each original file path is re-rooted under the upscaled
 * root and under the output (alpha-fixed) root by stripping the original
 * root and joining the remainder onto the other two roots. Paths are
 * sequences of components.
 */
module Paths {

  type Component = string
  type Path = seq<Component>

  datatype Option<T> = None | Some(value: T)

  /** The three paths one unit of work reads and writes. */
  datatype PairTask = PairTask(original: Path, upscaled: Path, alphafixed: Path)

  /**
   * Strips `prefix` from `path` component by component; `None` when `prefix`
   * is not a leading part of `path`. On success the remainder, joined back
   * onto the prefix, is the path again.
   */
  function StripPrefix(path: Path, prefix: Path): (r: Option<Path>)
    ensures r.Some? <==> prefix <= path
    ensures r.Some? ==> path == prefix + r.value
  {
    if prefix == [] then Some(path)
    else if path == [] || path[0] != prefix[0] then None
    else
      var rest := StripPrefix(path[1..], prefix[1..]);
      assert rest.Some? ==> path == [path[0]] + path[1..];
      rest
  }

  /**
   * Joining a relative path onto a root appends its components; stripping
   * the root from the joined path gives the relative path back.
   */
  function Join(root: Path, relative: Path): (r: Path)
    ensures StripPrefix(r, root) == Some(relative)
  {
    assert root <= root + relative;
    assert (root + relative)[|root|..] == relative;
    root + relative
  }

  /**
   * The triple for one original file. `None` stands for the panic of
   * unwrapping a failed prefix strip, which happens exactly when the file
   * does not lie under the original root.
   */
  function DeriveTask(originalPath: Path, originalRoot: Path, upscaledRoot: Path, alphafixedRoot: Path): (r: Option<PairTask>)
    ensures r.Some? <==> originalRoot <= originalPath
    ensures r.Some? ==> r.value.original == originalPath
  {
    match StripPrefix(originalPath, originalRoot)
    case None => None
    case Some(relative) => Some(PairTask(originalPath, Join(upscaledRoot, relative), Join(alphafixedRoot, relative)))
  }

  /**
   * For a file `originalRoot + relative`, the upscaled input is
   * `upscaledRoot + relative` and the output is `alphafixedRoot + relative`.
   */
  lemma DeriveTaskOfJoined(originalRoot: Path, relative: Path, upscaledRoot: Path, alphafixedRoot: Path)
    ensures DeriveTask(Join(originalRoot, relative), originalRoot, upscaledRoot, alphafixedRoot)
         == Some(PairTask(originalRoot + relative, upscaledRoot + relative, alphafixedRoot + relative))
  {
    assert StripPrefix(Join(originalRoot, relative), originalRoot) == Some(relative);
  }

  /**
   * The output tree mirrors the original tree: two different files under the
   * original root never share an output path (nor an upscaled input path).
   */
  lemma DeriveTaskInjective(p: Path, q: Path, originalRoot: Path, upscaledRoot: Path, alphafixedRoot: Path)
    requires originalRoot <= p && originalRoot <= q && p != q
    ensures DeriveTask(p, originalRoot, upscaledRoot, alphafixedRoot).value.alphafixed
         != DeriveTask(q, originalRoot, upscaledRoot, alphafixedRoot).value.alphafixed
    ensures DeriveTask(p, originalRoot, upscaledRoot, alphafixedRoot).value.upscaled
         != DeriveTask(q, originalRoot, upscaledRoot, alphafixedRoot).value.upscaled
  {
    var rp := StripPrefix(p, originalRoot).value;
    var rq := StripPrefix(q, originalRoot).value;
    assert rp != rq;
    assert Join(alphafixedRoot, rp)[|alphafixedRoot|..] == rp;
    assert Join(alphafixedRoot, rq)[|alphafixedRoot|..] == rq;
    assert Join(upscaledRoot, rp)[|upscaledRoot|..] == rp;
    assert Join(upscaledRoot, rq)[|upscaledRoot|..] == rq;
  }
}
