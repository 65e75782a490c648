/**
 * The two passes of the script that only shape the output tree: the
 * structure mirror (create the mapped parent directory of every entry of
 * the input tree) and the copier of the extra files the user asked for
 * (copy a match to its mapped path unless something is already there).
 * Both are stated here as functions over an abstract filesystem: a set of
 * directories and a map from file paths to contents.
 */
module Layout {

  import opened Paths
  import opened Command

  /**
   * The contents of a file: plain bytes, or what the encoder wrote when run
   * with the command line `CommandOf(request)`.
   */
  datatype Blob = Bytes(data: seq<bv8>) | EncoderOutput(request: Request)

  /** What `mkdir(parents=True)` leaves in place: the directory and all its ancestors. */
  function Lineage(d: Path): set<Path> {
    set n | 0 <= n <= |d| :: d[..n]
  }

  /** A directory set in which every directory's ancestors exist too. */
  ghost predicate PrefixClosed(dirs: set<Path>) {
    forall d :: d in dirs ==> Lineage(d) <= dirs
  }

  /** The mapped parent directory of every traversed entry, in traversal order. */
  function MappedParents(base: Path, saveRoot: Path, entries: seq<Path>): (ds: seq<Path>)
    requires forall i :: 0 <= i < |entries| ==> base <= entries[i]
    ensures |ds| == |entries|
  {
    if entries == [] then []
    else
      var last := entries[|entries| - 1];
      MappedParents(base, saveRoot, entries[..|entries| - 1]) + [Parent(SaveFilePath(base, saveRoot, last))]
  }

  /** The directory the mirror loop computes for `entries[i]`. */
  lemma {:induction false} MappedParentAt(base: Path, saveRoot: Path, entries: seq<Path>, i: nat)
    requires forall k :: 0 <= k < |entries| ==> base <= entries[k]
    requires i < |entries|
    ensures MappedParents(base, saveRoot, entries)[i] == Parent(SaveFilePath(base, saveRoot, entries[i]))
  {
    var n := |entries| - 1;
    if i < n {
      var prefix := entries[..n];
      assert prefix[i] == entries[i];
      MappedParentAt(base, saveRoot, prefix, i);
    }
  }

  /**
   * The directory mapped for an entry strictly below the input directory is
   * the output counterpart of the directory holding that entry, inside the
   * output root.
   */
  lemma MappedParentIsRelocatedHolder(base: Path, saveRoot: Path, entries: seq<Path>, i: nat)
    requires forall k :: 0 <= k < |entries| ==> base <= entries[k]
    requires i < |entries| && |entries[i]| > |base|
    ensures var ds := MappedParents(base, saveRoot, entries);
            && i < |ds|
            && saveRoot <= ds[i]
            && ds[i] == SaveFilePath(base, saveRoot, Parent(entries[i]))
  {
    MappedParentAt(base, saveRoot, entries, i);
    RelocationParent(base, saveRoot, entries[i]);
  }

  /**
   * The mirror loop over the mapped parent directories `ds`: a directory
   * that exists (as a directory or as a file) is left alone, any other is
   * created with its missing ancestors.
   */
  function Mirrored(dirs: set<Path>, files: map<Path, Blob>, ds: seq<Path>): (r: set<Path>)
    ensures dirs <= r
    ensures forall i :: 0 <= i < |ds| ==> ds[i] in r || ds[i] in files
  {
    if ds == [] then dirs
    else
      var before := Mirrored(dirs, files, ds[..|ds| - 1]);
      var d := ds[|ds| - 1];
      assert forall i :: 0 <= i < |ds| - 1 ==> ds[i] == ds[..|ds| - 1][i];
      if d in before || d in files then before
      else
        assert d == d[..|d|];
        before + Lineage(d)
  }

  /** The mirror pass creates nothing but the mapped directories and their ancestors. */
  lemma {:induction false} MirroredOnlyLineages(dirs: set<Path>, files: map<Path, Blob>, ds: seq<Path>, p: Path)
    requires p in Mirrored(dirs, files, ds) && p !in dirs
    ensures exists i :: 0 <= i < |ds| && p in Lineage(ds[i])
  {
    var before := Mirrored(dirs, files, ds[..|ds| - 1]);
    if p in before {
      MirroredOnlyLineages(dirs, files, ds[..|ds| - 1], p);
      var i :| 0 <= i < |ds| - 1 && p in Lineage(ds[..|ds| - 1][i]);
      assert ds[..|ds| - 1][i] == ds[i];
    } else {
      assert p in Lineage(ds[|ds| - 1]);
    }
  }

  lemma LineageClosed(d: Path)
    ensures forall e :: e in Lineage(d) ==> Lineage(e) <= Lineage(d)
  {
    forall e | e in Lineage(d) ensures Lineage(e) <= Lineage(d) {
      var n :| 0 <= n <= |d| && e == d[..n];
      forall x | x in Lineage(e) ensures x in Lineage(d) {
        var m :| 0 <= m <= |e| && x == e[..m];
        assert x == d[..m];
      }
    }
  }

  /**
   * On a filesystem where every directory's ancestors exist, the mirror pass
   * keeps that so, and afterwards every mapped directory not blocked by a
   * file exists together with all its ancestors.
   */
  lemma {:induction false} MirroredCreatesAncestors(dirs: set<Path>, files: map<Path, Blob>, ds: seq<Path>)
    requires PrefixClosed(dirs)
    ensures PrefixClosed(Mirrored(dirs, files, ds))
    ensures forall i :: 0 <= i < |ds| && ds[i] !in files ==> Lineage(ds[i]) <= Mirrored(dirs, files, ds)
  {
    if ds != [] {
      var prefix := ds[..|ds| - 1];
      var before := Mirrored(dirs, files, prefix);
      var d := ds[|ds| - 1];
      MirroredCreatesAncestors(dirs, files, prefix);
      LineageClosed(d);
      var r := Mirrored(dirs, files, ds);
      assert r == before || r == before + Lineage(d);
      forall i | 0 <= i < |ds| && ds[i] !in files ensures Lineage(ds[i]) <= r {
        if i < |ds| - 1 {
          assert ds[i] == prefix[i];
        }
      }
    }
  }

  /** Once every mapped directory exists, the mirror pass changes nothing. */
  lemma {:induction false} MirroredNoop(dirs: set<Path>, files: map<Path, Blob>, ds: seq<Path>)
    requires forall i :: 0 <= i < |ds| ==> ds[i] in dirs || ds[i] in files
    ensures Mirrored(dirs, files, ds) == dirs
  {
    if ds != [] {
      var prefix := ds[..|ds| - 1];
      assert forall i :: 0 <= i < |prefix| ==> prefix[i] == ds[i];
      MirroredNoop(dirs, files, prefix);
    }
  }

  /** The mirror pass is idempotent: running it again changes nothing. */
  lemma MirroredIdempotent(dirs: set<Path>, files: map<Path, Blob>, ds: seq<Path>)
    ensures Mirrored(Mirrored(dirs, files, ds), files, ds) == Mirrored(dirs, files, ds)
  {
    MirroredNoop(Mirrored(dirs, files, ds), files, ds);
  }

  /**
   * After the mirror pass, the output counterpart of the directory holding
   * each traversed entry exists, unless a file is in its place.
   */
  lemma MirroredCoversEntries(dirs: set<Path>, files: map<Path, Blob>, base: Path, saveRoot: Path, entries: seq<Path>, i: nat)
    requires forall k :: 0 <= k < |entries| ==> base <= entries[k]
    requires i < |entries| && |entries[i]| > |base|
    ensures var holder := SaveFilePath(base, saveRoot, Parent(entries[i]));
            holder in Mirrored(dirs, files, MappedParents(base, saveRoot, entries)) || holder in files
  {
    MappedParentIsRelocatedHolder(base, saveRoot, entries, i);
  }

  /**
   * The copy loop over the matched files `ms`: a match is copied to its
   * mapped path unless a directory or file already exists there.
   * The matches are files of the input tree.
   */
  function Copied(dirs: set<Path>, files: map<Path, Blob>, base: Path, saveRoot: Path, ms: seq<Path>): (r: map<Path, Blob>)
    requires forall i :: 0 <= i < |ms| ==> base <= ms[i] && ms[i] in files
    ensures forall p :: p in files ==> p in r && r[p] == files[p]
    ensures forall p :: p in r && p !in files ==>
              saveRoot <= p && base <= SaveFilePath(saveRoot, base, p) && SaveFilePath(saveRoot, base, p) in files
              && r[p] == files[SaveFilePath(saveRoot, base, p)]
    ensures forall i :: 0 <= i < |ms| ==> SaveFilePath(base, saveRoot, ms[i]) in dirs || SaveFilePath(base, saveRoot, ms[i]) in r
  {
    if ms == [] then files
    else
      var prefix := ms[..|ms| - 1];
      assert forall i :: 0 <= i < |prefix| ==> prefix[i] == ms[i];
      var before := Copied(dirs, files, base, saveRoot, prefix);
      var f := ms[|ms| - 1];
      var out := SaveFilePath(base, saveRoot, f);
      if out in dirs || out in before then before
      else
        RelocationInverse(base, saveRoot, f);
        before[out := before[f]]
  }

  /**
   * The copy pass creates files only at the destinations of the matches:
   * nothing outside the include patterns is copied.
   */
  lemma {:induction false} CopiedOnlyMatches(dirs: set<Path>, files: map<Path, Blob>, base: Path, saveRoot: Path, ms: seq<Path>, p: Path)
    requires forall i :: 0 <= i < |ms| ==> base <= ms[i] && ms[i] in files
    requires p in Copied(dirs, files, base, saveRoot, ms) && p !in files
    ensures exists i :: 0 <= i < |ms| && p == SaveFilePath(base, saveRoot, ms[i])
  {
    var prefix := ms[..|ms| - 1];
    assert forall i :: 0 <= i < |prefix| ==> prefix[i] == ms[i];
    if p in Copied(dirs, files, base, saveRoot, prefix) {
      CopiedOnlyMatches(dirs, files, base, saveRoot, prefix, p);
      var i :| 0 <= i < |prefix| && p == SaveFilePath(base, saveRoot, prefix[i]);
      assert p == SaveFilePath(base, saveRoot, ms[i]);
    } else {
      assert p == SaveFilePath(base, saveRoot, ms[|ms| - 1]);
    }
  }

  /**
   * The copy pass never writes a file where a directory stands: `exists()`
   * is true for a directory, so such a destination is skipped.
   */
  lemma {:induction false} CopiedSkipsDirectories(dirs: set<Path>, files: map<Path, Blob>, base: Path, saveRoot: Path, ms: seq<Path>, p: Path)
    requires forall i :: 0 <= i < |ms| ==> base <= ms[i] && ms[i] in files
    requires p in dirs && p !in files
    ensures p !in Copied(dirs, files, base, saveRoot, ms)
  {
    if ms != [] {
      var prefix := ms[..|ms| - 1];
      assert forall i :: 0 <= i < |prefix| ==> prefix[i] == ms[i];
      CopiedSkipsDirectories(dirs, files, base, saveRoot, prefix, p);
    }
  }

  /**
   * After the copy pass every match whose destination was free holds the
   * match's contents, a destination taken by a directory stays without a
   * file, and nothing that existed before was changed.
   */
  lemma CopiedFillsDestinations(dirs: set<Path>, files: map<Path, Blob>, base: Path, saveRoot: Path, ms: seq<Path>, i: nat)
    requires forall k :: 0 <= k < |ms| ==> base <= ms[k] && ms[k] in files
    requires i < |ms|
    ensures var out, r := SaveFilePath(base, saveRoot, ms[i]), Copied(dirs, files, base, saveRoot, ms);
            && (out in files ==> r[out] == files[out])
            && (out !in files && out in dirs ==> out !in r)
            && (out !in files && out !in dirs ==> out in r && r[out] == files[ms[i]])
  {
    RelocationInverse(base, saveRoot, ms[i]);
    var out := SaveFilePath(base, saveRoot, ms[i]);
    if out !in files && out in dirs {
      CopiedSkipsDirectories(dirs, files, base, saveRoot, ms, out);
    }
  }

  /** Once every destination is taken, the copy pass changes nothing. */
  lemma {:induction false} CopiedNoop(dirs: set<Path>, files: map<Path, Blob>, base: Path, saveRoot: Path, ms: seq<Path>)
    requires forall i :: 0 <= i < |ms| ==> base <= ms[i] && ms[i] in files
    requires forall i :: 0 <= i < |ms| ==> SaveFilePath(base, saveRoot, ms[i]) in dirs || SaveFilePath(base, saveRoot, ms[i]) in files
    ensures Copied(dirs, files, base, saveRoot, ms) == files
  {
    if ms != [] {
      var prefix := ms[..|ms| - 1];
      assert forall i :: 0 <= i < |prefix| ==> prefix[i] == ms[i];
      CopiedNoop(dirs, files, base, saveRoot, prefix);
    }
  }

  /** Running the copy pass twice in a row is the same as running it once. */
  lemma CopiedIdempotent(dirs: set<Path>, files: map<Path, Blob>, base: Path, saveRoot: Path, ms: seq<Path>)
    requires forall i :: 0 <= i < |ms| ==> base <= ms[i] && ms[i] in files
    ensures var once := Copied(dirs, files, base, saveRoot, ms);
            Copied(dirs, once, base, saveRoot, ms) == once
  {
    CopiedNoop(dirs, Copied(dirs, files, base, saveRoot, ms), base, saveRoot, ms);
  }
}
