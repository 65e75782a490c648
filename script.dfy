/**
 * The script itself, step by step, over the filesystem it works on: the
 * index (counter) file, the directory tree, the files and the encoder calls
 * made so far. Each method takes the filesystem as it finds it and returns
 * it as it leaves it, and is proved against the functions of `Driver` and
 * `Layout`.
 */
module Script {

  import opened Common
  import opened Paths
  import opened Command
  import opened Layout
  import opened Driver

  /** How a run of the script ends. */
  datatype Outcome =
    | Completed
      /** `base_dir` does not exist (`FileNotFoundError`). */
    | InputMissing
      /** A file is in the place of the output directory (`FileExistsError` from `mkdir`). */
    | SaveDirBlocked
      /** The encoder failed on `videos[position]` (the `Exception` from `compress`). */
    | EncodeFailed(position: nat)

  /** The counter file `<parent of base>/index`. */
  function IndexPath(base: Path): Path {
    Parent(base) + ["index"]
  }

  /** The value `get_index` returns for the counter file's contents. */
  function IndexRead(indexFile: Option<int>): int {
    if indexFile.Some? then indexFile.value else 0
  }

  /** The counter file once `k` more videos are done after reading it. */
  function CounterAfter(indexFile: Option<int>, k: nat): Option<int> {
    Some(IndexRead(indexFile) + k)
  }

  /**
   * The counter file never lies in the output tree, and it lies in the
   * input tree exactly when the input directory is itself named "index",
   * in which case it is that directory.
   */
  lemma IndexOutsideTrees(base: Path)
    requires |base| >= 1
    ensures base <= IndexPath(base) <==> Name(base) == "index"
    ensures base <= IndexPath(base) ==> base == IndexPath(base)
    ensures !(SaveDir(base) <= IndexPath(base))
  {
    var last := |base| - 1;
    assert IndexPath(base)[last] == "index";
    if Name(base) == "index" {
      assert base == Parent(base) + [Name(base)];
    }
  }

  /**
   * The filesystem the script works on: directories, files with their
   * contents, the value the counter file spells (`None` when absent) and
   * the encoder calls made so far. Each step of the script takes the
   * filesystem as it finds it and returns it as it leaves it.
   */
  datatype Disk = Disk(dirs: set<Path>, files: map<Path, Blob>, indexFile: Option<int>, log: seq<Invocation>)
  {
    /** `Path.exists()`: true for a directory and for a file. */
    predicate Exists(p: Path) {
      p in dirs || p in files
    }
  }

  /**
   * `get_index`: read the counter; create the file holding 0 when it is
   * missing.
   */
  method GetIndex(fs: Disk) returns (index: int, fs': Disk)
    ensures index == IndexRead(fs.indexFile)
    ensures fs' == fs.(indexFile := Some(index))
  {
    if fs.indexFile.None? {
      fs' := fs.(indexFile := Some(0));
      index := 0;
    } else {
      index := fs.indexFile.value;
      fs' := fs;
    }
  }

  /** `update_index`: overwrite the counter file with `val`. */
  method UpdateIndex(fs: Disk, val: int) returns (fs': Disk)
    ensures fs' == fs.(indexFile := Some(val))
  {
    fs' := fs.(indexFile := Some(val));
  }

  /** What `update_index` writes, `get_index` reads back, and nothing else changes. */
  method CounterReadsBack(fs: Disk, val: int) returns (index: int, fs': Disk)
    ensures index == val
    ensures fs' == fs.(indexFile := Some(val))
  {
    var written := UpdateIndex(fs, val);
    index, fs' := GetIndex(written);
  }

  /** `index_file_path.unlink()` */
  method RemoveIndex(fs: Disk) returns (fs': Disk)
    requires fs.indexFile.Some?
    ensures fs' == fs.(indexFile := None)
  {
    fs' := fs.(indexFile := None);
  }

  /**
   * `compress`: run the encoder on the command line for this file; on
   * success the output file holds what the encoder wrote, on failure
   * nothing changes but the call is on record. `encoder(q)` is the exit
   * status of the encoder run on the command line `CommandOf(q)`.
   */
  method Compress(encoder: Request -> int, fs: Disk, file: Path, out: Path, crf: int, scaling: int, overwrite: bool)
    returns (ok: bool, fs': Disk)
    ensures var q := Request(Render(file), Render(out), crf, scaling, overwrite);
            ok == (encoder(q) == 0)
    ensures var q := Request(Render(file), Render(out), crf, scaling, overwrite);
            fs'.log == fs.log + [Invocation(file, out, q)]
    ensures var q := Request(Render(file), Render(out), crf, scaling, overwrite);
            fs'.files == if ok then fs.files[out := EncoderOutput(q)] else fs.files
    ensures fs'.dirs == fs.dirs && fs'.indexFile == fs.indexFile
  {
    var q := Request(Render(file), Render(out), crf, scaling, overwrite);
    ok := encoder(q) == 0;
    fs' := fs.(log := fs.log + [Invocation(file, out, q)]);
    if ok {
      fs' := fs'.(files := fs'.files[out := EncoderOutput(q)]);
    }
  }

  /**
   * The mirror loop: for every entry of the input tree, create the mapped
   * parent directory, with its ancestors, unless something exists there.
   */
  method MirrorTree(fs: Disk, base: Path, saveRoot: Path, entries: seq<Path>) returns (fs': Disk)
    requires forall i :: 0 <= i < |entries| ==> base <= entries[i]
    ensures fs' == fs.(dirs := Mirrored(fs.dirs, fs.files, MappedParents(base, saveRoot, entries)))
  {
    ghost var ds := MappedParents(base, saveRoot, entries);
    fs' := fs;
    var i := 0;
    while i < |entries|
      invariant 0 <= i <= |entries|
      invariant fs' == fs.(dirs := Mirrored(fs.dirs, fs.files, ds[..i]))
    {
      var directory := Parent(SaveFilePath(base, saveRoot, entries[i]));
      MappedParentAt(base, saveRoot, entries, i);
      assert ds[..i + 1][..i] == ds[..i];
      if !fs'.Exists(directory) {
        fs' := fs'.(dirs := fs'.dirs + Lineage(directory));
      }
      i := i + 1;
    }
    assert ds[..i] == ds;
  }

  /**
   * `get_index` and the resume loop over `videos[index:]`: encode each
   * video in turn and count it in the counter file; stop at the first
   * failure. `failed` is the position of the video the encoder failed on;
   * the counter file then holds the number the loop had counted, which
   * makes the next run start at that video.
   */
  method RunVideos(encoder: Request -> int, fs: Disk, cfg: Config, videos: seq<Path>)
    returns (failed: Option<nat>, fs': Disk, ghost start: nat, ghost stop: nat)
    requires AllUnder(cfg.base, videos)
    ensures start == SliceStart(IndexRead(fs.indexFile), |videos|)
    ensures stop == FirstFailure(encoder, Plan(cfg, videos), start)
    ensures failed == (if stop < |videos| then Some(stop) else None)
    ensures fs'.log == fs.log + Plan(cfg, videos)[start..if stop < |videos| then stop + 1 else stop]
    ensures fs'.files == Encoded(fs.files, Plan(cfg, videos)[start..stop])
    ensures fs'.indexFile == CounterAfter(fs.indexFile, stop - start)
    ensures fs'.dirs == fs.dirs
  {
    var index;
    index, fs' := GetIndex(fs);
    var counter;
    failed, fs', counter, start, stop := EncodeFrom(encoder, fs', cfg, videos, index);
  }

  /** The loop of `RunVideos`, once the counter reads `index`. */
  method EncodeFrom(encoder: Request -> int, fs: Disk, cfg: Config, videos: seq<Path>, index: int)
    returns (failed: Option<nat>, fs': Disk, counter: int, ghost start: nat, ghost stop: nat)
    requires AllUnder(cfg.base, videos)
    requires fs.indexFile == Some(index)
    ensures start == SliceStart(index, |videos|)
    ensures stop == FirstFailure(encoder, Plan(cfg, videos), start)
    ensures failed == (if stop < |videos| then Some(stop) else None)
    ensures fs'.log == fs.log + Plan(cfg, videos)[start..if stop < |videos| then stop + 1 else stop]
    ensures fs'.files == Encoded(fs.files, Plan(cfg, videos)[start..stop])
    ensures counter == index + (stop - start)
    ensures fs'.indexFile == Some(counter)
    ensures fs'.dirs == fs.dirs
  {
    fs' := fs;
    ghost var plan := Plan(cfg, videos);
    var s := SliceStart(index, |videos|);
    counter := index;
    var i := s;
    while i < |videos|
      invariant s <= i <= |videos|
      invariant counter == index + (i - s)
      invariant FirstFailure(encoder, plan, s) == FirstFailure(encoder, plan, i)
      invariant fs'.log == fs.log + plan[s..i]
      invariant fs'.files == Encoded(fs.files, plan[s..i])
      invariant fs'.indexFile == Some(counter)
      invariant fs'.dirs == fs.dirs
    {
      var ok;
      ok, fs' := EncodeAt(encoder, fs', cfg, videos, i);
      AppendNext(fs.log, plan, s, i);
      if !ok {
        assert FirstFailure(encoder, plan, s) == i;
        failed, start, stop := Some(i), s, i;
        return;
      }
      EncodedNext(fs.files, plan, s, i);
      counter := counter + 1;
      fs' := UpdateIndex(fs', counter);
      i := i + 1;
    }
    assert FirstFailure(encoder, plan, s) == i;
    failed, start, stop := None, s, i;
  }

  /** One pass of the resume loop: encode `videos[i]` into its mapped output. */
  method EncodeAt(encoder: Request -> int, fs: Disk, cfg: Config, videos: seq<Path>, i: nat)
    returns (ok: bool, fs': Disk)
    requires AllUnder(cfg.base, videos) && i < |videos|
    ensures ok == Succeeds(encoder, Plan(cfg, videos)[i])
    ensures fs'.log == fs.log + [Plan(cfg, videos)[i]]
    ensures fs'.files == if ok then fs.files[Plan(cfg, videos)[i].output := EncoderOutput(Plan(cfg, videos)[i].request)]
                         else fs.files
    ensures fs'.dirs == fs.dirs && fs'.indexFile == fs.indexFile
  {
    var file := videos[i];
    var out := cfg.OutputOf(file);
    ok, fs' := Compress(encoder, fs, file, out, cfg.crf, cfg.scaling, true);
    PlanAt(cfg, videos, i);
  }

  /**
   * The copy loop: each match goes to its mapped path unless a directory
   * or a file is already there.
   */
  method CopyIncluded(fs: Disk, base: Path, saveRoot: Path, matches: seq<Path>) returns (fs': Disk)
    requires forall i :: 0 <= i < |matches| ==> base <= matches[i] && matches[i] in fs.files
    ensures fs' == fs.(files := Copied(fs.dirs, fs.files, base, saveRoot, matches))
  {
    fs' := fs;
    var i := 0;
    while i < |matches|
      invariant 0 <= i <= |matches|
      invariant fs' == fs.(files := Copied(fs.dirs, fs.files, base, saveRoot, matches[..i]))
    {
      var file := matches[i];
      var out := SaveFilePath(base, saveRoot, file);
      assert matches[..i + 1][..i] == matches[..i];
      if !fs'.Exists(out) {
        fs' := fs'.(files := fs'.files[out := fs'.files[file]]);
      }
      i := i + 1;
    }
    assert matches[..i] == matches;
  }

  /**
   * The filesystem once the set-up is through: the output root made and
   * every entry's mapped parent directory mirrored.
   */
  function Prepared(fs: Disk, cfg: Config, entries: seq<Path>): Disk
    requires forall i :: 0 <= i < |entries| ==> cfg.base <= entries[i]
  {
    fs.(dirs := Mirrored(fs.dirs + {cfg.SaveRoot()}, fs.files, MappedParents(cfg.base, cfg.SaveRoot(), entries)))
  }

  /**
   * The set-up (`base_dir.exists()`, `save_dir.mkdir(exist_ok=True)` and
   * the mirror loop): `Some` of the error the script stops with, or `None`
   * and the prepared filesystem. `entries` is what `rglob("*")` lists.
   */
  method SetUp(fs: Disk, cfg: Config, entries: seq<Path>) returns (stopped: Option<Outcome>, fs': Disk)
    requires forall i :: 0 <= i < |entries| ==> cfg.base <= entries[i]
    ensures stopped == Some(InputMissing) <==> !fs.Exists(cfg.base)
    ensures stopped == Some(SaveDirBlocked) <==> fs.Exists(cfg.base) && cfg.SaveRoot() in fs.files
    ensures stopped.Some? ==> fs' == fs && (stopped.value.InputMissing? || stopped.value.SaveDirBlocked?)
    ensures stopped.None? ==> fs' == Prepared(fs, cfg, entries)
  {
    if !fs.Exists(cfg.base) {
      return Some(InputMissing), fs;
    }
    var saveDir := cfg.SaveRoot();
    if saveDir in fs.files {
      return Some(SaveDirBlocked), fs;
    }
    fs' := fs.(dirs := fs.dirs + {saveDir});
    fs' := MirrorTree(fs', cfg.base, saveDir, entries);
    stopped := None;
  }

  /** Once every video is done: remove the counter file, then copy the included files. */
  method Finish(fs: Disk, cfg: Config, matches: seq<Path>) returns (fs': Disk)
    requires fs.indexFile.Some?
    requires forall i :: 0 <= i < |matches| ==> cfg.base <= matches[i] && matches[i] in fs.files
    ensures fs' == fs.(indexFile := None, files := Copied(fs.dirs, fs.files, cfg.base, cfg.SaveRoot(), matches))
  {
    fs' := RemoveIndex(fs);
    fs' := CopyIncluded(fs', cfg.base, cfg.SaveRoot(), matches);
  }

  /**
   * Everything after the output tree is prepared: the resume loop, then,
   * when every video is done, removing the counter file and copying the
   * included files.
   */
  method ResumeAndFinish(encoder: Request -> int, fs: Disk, cfg: Config, videos: seq<Path>, matches: seq<Path>)
    returns (outcome: Outcome, fs': Disk, ghost start: nat, ghost stop: nat)
    requires AllUnder(cfg.base, videos)
    requires forall i :: 0 <= i < |matches| ==> cfg.base <= matches[i] && matches[i] in fs.files
    ensures start == SliceStart(IndexRead(fs.indexFile), |videos|)
    ensures stop == FirstFailure(encoder, Plan(cfg, videos), start)
    ensures outcome == (if stop < |videos| then EncodeFailed(stop) else Completed)
    ensures fs'.dirs == fs.dirs
    ensures fs'.log == fs.log + Plan(cfg, videos)[start..if stop < |videos| then stop + 1 else stop]
    ensures outcome.EncodeFailed? ==>
              && fs'.files == Encoded(fs.files, Plan(cfg, videos)[start..stop])
              && fs'.indexFile == CounterAfter(fs.indexFile, stop - start)
    ensures outcome.EncodeFailed? && IndexRead(fs.indexFile) + |videos| >= 0 ==>
              SliceStart(fs'.indexFile.value, |videos|) == stop
    ensures outcome.EncodeFailed? ==> SliceStart(fs'.indexFile.value, |videos|) <= stop
    ensures outcome.Completed? ==>
              && fs'.files == Copied(fs.dirs, Encoded(fs.files, Plan(cfg, videos)[start..]), cfg.base, cfg.SaveRoot(), matches)
              && fs'.indexFile == None
  {
    var failed;
    failed, fs', start, stop := RunVideos(encoder, fs, cfg, videos);
    if failed.Some? {
      if IndexRead(fs.indexFile) + |videos| >= 0 {
        ResumeAtFailedVideo(IndexRead(fs.indexFile), |videos|, stop);
      }
      ResumeNeverSkips(IndexRead(fs.indexFile), |videos|, stop);
      return EncodeFailed(failed.value), fs', start, stop;
    }
    assert Plan(cfg, videos)[start..stop] == Plan(cfg, videos)[start..];
    fs' := Finish(fs', cfg, matches);
    outcome := Completed;
  }

  /**
   * The whole script on one input directory. It stops with
   * `FileNotFoundError` when the input directory is missing, with
   * `FileExistsError` when a file stands where the output root goes, and
   * at the first video the encoder fails on; otherwise it removes the
   * counter file and copies the included files. `videos` and `matches` are
   * what `rglob("*.mp4")` and `rglob` of the include patterns list; the
   * run itself is `ResumeAndFinish` on the prepared disk.
   */
  method CompressDirectory(encoder: Request -> int, fs: Disk, cfg: Config,
                           entries: seq<Path>, videos: seq<Path>, matches: seq<Path>)
    returns (outcome: Outcome, fs': Disk, ghost start: nat, ghost stop: nat)
    requires forall i :: 0 <= i < |entries| ==> cfg.base <= entries[i]
    requires AllUnder(cfg.base, videos)
    requires forall i :: 0 <= i < |matches| ==> cfg.base <= matches[i] && matches[i] in fs.files
    ensures outcome == InputMissing <==> !fs.Exists(cfg.base)
    ensures outcome == SaveDirBlocked <==> fs.Exists(cfg.base) && cfg.SaveRoot() in fs.files
    ensures outcome.InputMissing? || outcome.SaveDirBlocked? ==> fs' == fs
    ensures start == SliceStart(IndexRead(fs.indexFile), |videos|)
    ensures stop == FirstFailure(encoder, Plan(cfg, videos), start)
    ensures outcome.Completed? || outcome.EncodeFailed? ==>
              var p := Prepared(fs, cfg, entries);
              && outcome == (if stop < |videos| then EncodeFailed(stop) else Completed)
              && fs'.dirs == p.dirs
              && fs'.log == p.log + Plan(cfg, videos)[start..if stop < |videos| then stop + 1 else stop]
    ensures outcome.EncodeFailed? ==>
              var p := Prepared(fs, cfg, entries);
              && fs'.files == Encoded(p.files, Plan(cfg, videos)[start..stop])
              && fs'.indexFile == CounterAfter(p.indexFile, stop - start)
    ensures outcome.EncodeFailed? && IndexRead(fs.indexFile) + |videos| >= 0 ==>
              SliceStart(fs'.indexFile.value, |videos|) == stop
    ensures outcome.EncodeFailed? ==> SliceStart(fs'.indexFile.value, |videos|) <= stop
    ensures outcome.Completed? ==>
              var p := Prepared(fs, cfg, entries);
              && fs'.files == Copied(p.dirs, Encoded(p.files, Plan(cfg, videos)[start..]), cfg.base, cfg.SaveRoot(), matches)
              && fs'.indexFile == None
  {
    var stopped;
    stopped, fs' := SetUp(fs, cfg, entries);
    if stopped.Some? {
      start := SliceStart(IndexRead(fs.indexFile), |videos|);
      stop := FirstFailure(encoder, Plan(cfg, videos), start);
      return stopped.value, fs', start, stop;
    }
    outcome, fs', start, stop := ResumeAndFinish(encoder, fs', cfg, videos, matches);
  }

  lemma AppendNext<T>(done: seq<T>, xs: seq<T>, s: nat, i: nat)
    requires s <= i < |xs|
    ensures done + xs[s..i] + [xs[i]] == done + xs[s..i + 1]
  {
    assert xs[s..i + 1] == xs[s..i] + [xs[i]];
  }

  /** Encoding one more call of a slice writes that call's output on top. */
  lemma EncodedNext(files: map<Path, Blob>, jobs: seq<Invocation>, s: nat, i: nat)
    requires s <= i < |jobs|
    ensures Encoded(files, jobs[s..i + 1]) == Encoded(files, jobs[s..i])[jobs[i].output := EncoderOutput(jobs[i].request)]
  {
    assert jobs[s..i + 1][..i - s] == jobs[s..i];
  }

}
