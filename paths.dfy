/**
 * Paths as sequences of components, the output directory beside the input
 * directory, and the relocation of a file from the input tree into the
 * output tree (`_get_save_file_function`).
 */
module Paths {

  import opened Common

  /**
   * An absolute path as its components below the filesystem root; [] is the
   * root. Components are compared as text, as pathlib does: `..` is kept
   * and never resolved against the disk.
   */
  type Path = seq<string>

  const SaveSuffix: string := "_compressed"

  /** `Path.parent`; the root is its own parent. */
  function Parent(p: Path): Path {
    if |p| == 0 then p else p[..|p| - 1]
  }

  /** `Path.name`; the root has the empty name. */
  function Name(p: Path): string {
    if |p| == 0 then "" else p[|p| - 1]
  }

  /** `file.relative_to(base)`; None where it raises ValueError. */
  function RelativeTo(file: Path, base: Path): (r: Option<Path>)
    ensures r.Some? <==> base <= file
    ensures r.Some? ==> base + r.value == file
  {
    if base <= file then Some(file[|base|..]) else None
  }

  /** `base.parent.joinpath(base.name + "_compressed")`: the output root. */
  function SaveDir(base: Path): Path {
    Parent(base) + [Name(base) + SaveSuffix]
  }

  /**
   * The closure made by `_get_save_file_function(base, saveRoot)`, applied to
   * `file`: the save root joined with the file's path relative to `base`.
   * Every file the script maps comes from a traversal of `base`.
   */
  function SaveFilePath(base: Path, saveRoot: Path, file: Path): Path
    requires base <= file
  {
    saveRoot + RelativeTo(file, base).value
  }

  /** `str(path)` in its POSIX spelling: the components each preceded by a slash; the root is "/". */
  function Render(p: Path): string {
    if |p| == 0 then "/" else JoinComponents(p)
  }

  function JoinComponents(p: Path): string {
    if |p| == 0 then "" else "/" + p[0] + JoinComponents(p[1..])
  }

  /** The output root is a sibling of the input directory, named after it. */
  lemma SaveDirIsSibling(base: Path)
    ensures Parent(SaveDir(base)) == Parent(base)
    ensures Name(SaveDir(base)) == Name(base) + "_compressed"
    ensures SaveDir(base) != base
  {
    assert |Name(SaveDir(base))| > |Name(base)|;
  }

  /**
   * Below any directory other than the root, the output root and the input
   * directory are not inside one another.
   */
  lemma SaveDirApart(base: Path)
    requires |base| >= 1
    ensures !(base <= SaveDir(base)) && !(SaveDir(base) <= base)
  {
    var save := SaveDir(base);
    assert |save| == |base|;
    assert save[|base| - 1] != base[|base| - 1] by {
      assert |save[|base| - 1]| == |base[|base| - 1]| + |SaveSuffix|;
    }
  }

  /**
   * A relocated file lies under the save root, with the same path relative
   * to it as the original has relative to the input directory.
   */
  lemma RelocationKeepsRelativePath(base: Path, saveRoot: Path, file: Path)
    requires base <= file
    ensures RelativeTo(SaveFilePath(base, saveRoot, file), saveRoot) == RelativeTo(file, base)
  {
  }

  /** Relocating back from the save root restores the original path. */
  lemma RelocationInverse(base: Path, saveRoot: Path, file: Path)
    requires base <= file
    ensures saveRoot <= SaveFilePath(base, saveRoot, file)
    ensures SaveFilePath(saveRoot, base, SaveFilePath(base, saveRoot, file)) == file
  {
    var rel := file[|base|..];
    assert (saveRoot + rel)[|saveRoot|..] == rel;
    assert base + rel == file;
  }

  /** Distinct files of the input tree have distinct output paths. */
  lemma RelocationInjective(base: Path, saveRoot: Path, f: Path, g: Path)
    requires base <= f && base <= g
    requires SaveFilePath(base, saveRoot, f) == SaveFilePath(base, saveRoot, g)
    ensures f == g
  {
    RelocationInverse(base, saveRoot, f);
    RelocationInverse(base, saveRoot, g);
  }

  /** The parent of a relocated entry is the relocated parent of the entry. */
  lemma RelocationParent(base: Path, saveRoot: Path, file: Path)
    requires base <= file && |file| > |base|
    ensures base <= Parent(file)
    ensures Parent(SaveFilePath(base, saveRoot, file)) == SaveFilePath(base, saveRoot, Parent(file))
  {
    var rel := file[|base|..];
    assert Parent(file)[|base|..] == rel[..|rel| - 1];
    assert (saveRoot + rel)[..|saveRoot + rel| - 1] == saveRoot + rel[..|rel| - 1];
  }

  /**
   * With the output root beside the input directory, no output path lies in
   * the input tree: the script never writes among the files it reads.
   */
  lemma OutputOutsideInput(base: Path, file: Path)
    requires |base| >= 1 && base <= file
    ensures !(base <= SaveFilePath(base, SaveDir(base), file))
  {
    var out := SaveFilePath(base, SaveDir(base), file);
    SaveDirApart(base);
    assert out[..|base|] == SaveDir(base);
  }

  /** A path whose components have no double quote renders without one. */
  lemma {:induction false} RenderWithoutQuote(p: Path)
    requires forall i :: 0 <= i < |p| ==> '"' !in p[i]
    ensures '"' !in Render(p)
  {
    JoinWithoutQuote(p);
  }

  lemma {:induction false} JoinWithoutQuote(p: Path)
    requires forall i :: 0 <= i < |p| ==> '"' !in p[i]
    ensures '"' !in JoinComponents(p)
  {
    if |p| > 0 {
      JoinWithoutQuote(p[1..]);
    }
  }
}
