/**
 * The compression driver's plan, as functions: the encoder call each video
 * gets, where the resume loop starts (`videos[index:]`), at which call the
 * encoder first fails, and what the successful calls leave in the output
 * tree.
 */
module Driver {

  import opened Common
  import opened Paths
  import opened Command
  import opened Layout

  /** The script's settings: the input directory, the crf and the scale height. */
  datatype Config = Config(base: Path, crf: int, scaling: int) {

    /** The output root beside the input directory. */
    function SaveRoot(): Path {
      SaveDir(base)
    }

    /** `get_save_file_path(file)` */
    function OutputOf(file: Path): Path
      requires base <= file
    {
      SaveFilePath(base, SaveRoot(), file)
    }
  }

  /**
   * One encoder call: the video, its output path and the arguments of
   * `compress_command`; the command line run is `Command()`.
   */
  datatype Invocation = Invocation(source: Path, output: Path, request: Request) {
    function Command(): string {
      CommandOf(request)
    }
  }

  predicate AllUnder(base: Path, vs: seq<Path>) {
    forall i :: 0 <= i < |vs| ==> base <= vs[i]
  }

  /** The call for one video: `compress(file, out_file, crf, scaling, True)`. */
  function InvocationOf(cfg: Config, video: Path): Invocation
    requires cfg.base <= video
  {
    var out := cfg.OutputOf(video);
    Invocation(video, out, Request(Render(video), Render(out), cfg.crf, cfg.scaling, true))
  }

  /** The calls for the videos `vs`, one per video, in order. */
  function Plan(cfg: Config, vs: seq<Path>): (jobs: seq<Invocation>)
    requires AllUnder(cfg.base, vs)
    ensures |jobs| == |vs|
  {
    if vs == [] then []
    else
      var last := vs[|vs| - 1];
      Plan(cfg, vs[..|vs| - 1]) + [InvocationOf(cfg, last)]
  }

  /** The call planned for each video is the one `compress` makes for it. */
  lemma {:induction false} PlanAt(cfg: Config, vs: seq<Path>, i: nat)
    requires AllUnder(cfg.base, vs) && i < |vs|
    ensures Plan(cfg, vs)[i] == InvocationOf(cfg, vs[i])
  {
    var n := |vs| - 1;
    if i < n {
      var prefix := vs[..n];
      assert prefix[i] == vs[i];
      PlanAt(cfg, prefix, i);
    }
  }

  /** Calls with the same output path are the same call. */
  ghost predicate OutputsDetermineCalls(jobs: seq<Invocation>) {
    forall a, b :: 0 <= a < |jobs| && 0 <= b < |jobs| && jobs[a].output == jobs[b].output ==> jobs[a] == jobs[b]
  }

  /**
   * The encoder is given as the exit status it returns when run on the
   * command line `CommandOf(q)` of a request `q`; 0 is success.
   */
  predicate Succeeds(encoder: Request -> int, job: Invocation) {
    encoder(job.request) == 0
  }

  /**
   * The first position of `xs[k:]` in `xs` for `|xs| == n`, as Python
   * slices: a negative `k` counts from the end, and both ends clamp.
   */
  function SliceStart(k: int, n: nat): (s: nat)
    ensures s <= n
  {
    if k < 0 then (if n + k < 0 then 0 else n + k)
    else if k > n then n
    else k
  }

  /**
   * The position of the first call, from `from` on, on which the encoder
   * fails; `|jobs|` when it succeeds on all of them.
   */
  function FirstFailure(encoder: Request -> int, jobs: seq<Invocation>, from: nat): (j: nat)
    requires from <= |jobs|
    ensures from <= j <= |jobs|
    ensures j < |jobs| ==> !Succeeds(encoder, jobs[j])
    decreases |jobs| - from
  {
    if from == |jobs| || !Succeeds(encoder, jobs[from]) then from
    else FirstFailure(encoder, jobs, from + 1)
  }

  /** Every call before the first failure succeeds. */
  lemma {:induction false} SucceedsBeforeFirstFailure(encoder: Request -> int, jobs: seq<Invocation>, from: nat, t: nat)
    requires from <= t < |jobs| && t < FirstFailure(encoder, jobs, from)
    ensures Succeeds(encoder, jobs[t])
    decreases t - from
  {
    if from < t {
      SucceedsBeforeFirstFailure(encoder, jobs, from + 1, t);
    }
  }

  /**
   * `FirstFailure` is characterised by its result: every call before it
   * succeeds and the call at it, if any, fails.
   */
  lemma {:induction false} FirstFailureAt(encoder: Request -> int, jobs: seq<Invocation>, from: nat, j: nat)
    requires from <= j <= |jobs|
    requires forall t :: from <= t < j ==> Succeeds(encoder, jobs[t])
    requires j < |jobs| ==> !Succeeds(encoder, jobs[j])
    ensures FirstFailure(encoder, jobs, from) == j
    decreases j - from
  {
    if from < j {
      FirstFailureAt(encoder, jobs, from + 1, j);
    }
  }

  /** The files after the encoder has succeeded on each of `jobs`, in order. */
  function Encoded(files: map<Path, Blob>, jobs: seq<Invocation>): (r: map<Path, Blob>)
    ensures files.Keys <= r.Keys
  {
    if jobs == [] then files
    else
      var last := jobs[|jobs| - 1];
      Encoded(files, jobs[..|jobs| - 1])[last.output := EncoderOutput(last.request)]
  }

  /**
   * When calls with the same output are the same call, each output holds
   * exactly what the encoder wrote for its call.
   */
  lemma {:induction false} EncodedHoldsOutputs(files: map<Path, Blob>, jobs: seq<Invocation>, i: nat)
    requires OutputsDetermineCalls(jobs) && i < |jobs|
    ensures jobs[i].output in Encoded(files, jobs)
    ensures Encoded(files, jobs)[jobs[i].output] == EncoderOutput(jobs[i].request)
  {
    var n := |jobs| - 1;
    if i < n {
      var prefix := jobs[..n];
      assert prefix[i] == jobs[i];
      assert OutputsDetermineCalls(prefix) by {
        forall a, b | 0 <= a < n && 0 <= b < n && prefix[a].output == prefix[b].output
          ensures prefix[a] == prefix[b]
        {
          assert prefix[a] == jobs[a] && prefix[b] == jobs[b];
        }
      }
      EncodedHoldsOutputs(files, prefix, i);
      if jobs[n].output == jobs[i].output {
        assert jobs[n] == jobs[i];
      }
    }
  }

  /** The encoder touches nothing but the outputs of its calls. */
  lemma {:induction false} EncodedOnlyOutputs(files: map<Path, Blob>, jobs: seq<Invocation>, p: Path)
    requires p in Encoded(files, jobs) && (p !in files || Encoded(files, jobs)[p] != files[p])
    ensures exists i :: 0 <= i < |jobs| && jobs[i].output == p
  {
    var n := |jobs| - 1;
    if jobs[n].output != p {
      var prefix := jobs[..n];
      EncodedOnlyOutputs(files, prefix, p);
      var i :| 0 <= i < n && prefix[i].output == p;
      assert jobs[i] == prefix[i];
    }
  }

  /** Different videos of the input tree get different output paths and calls. */
  lemma PlanOutputsDetermineCalls(cfg: Config, vs: seq<Path>)
    requires AllUnder(cfg.base, vs)
    ensures OutputsDetermineCalls(Plan(cfg, vs))
  {
    var jobs := Plan(cfg, vs);
    forall a, b | 0 <= a < |jobs| && 0 <= b < |jobs| && jobs[a].output == jobs[b].output
      ensures jobs[a] == jobs[b]
    {
      PlanAt(cfg, vs, a);
      PlanAt(cfg, vs, b);
      RelocationInjective(cfg.base, cfg.SaveRoot(), vs[a], vs[b]);
    }
  }

  /**
   * The value the loop leaves in the index file when the encoder fails on
   * `videos[j]` makes the next run resume exactly at `videos[j]`; this holds
   * for every stored value from `-n` up, which includes every value the
   * script writes itself.
   */
  lemma ResumeAtFailedVideo(k: int, n: nat, j: nat)
    requires k + n >= 0 && SliceStart(k, n) <= j < n
    ensures SliceStart(k + (j - SliceStart(k, n)), n) == j
  {
  }

  /**
   * For every stored counter, the next run never starts past the video that
   * failed: below `-n` the slice clamps, and the rerun may start earlier
   * and encode some videos again, but never skips one.
   */
  lemma ResumeNeverSkips(k: int, n: nat, j: nat)
    requires SliceStart(k, n) <= j < n
    ensures SliceStart(k + (j - SliceStart(k, n)), n) <= j
    ensures k + n < 0 ==> SliceStart(k + (j - SliceStart(k, n)), n) == if n + k + j < 0 then 0 else n + k + j
  {
  }

  /**
   * The resume loop never runs the encoder on a video before its start:
   * with no video listed twice, no call in `Plan(videos)[s..e]` is for one
   * of `videos[..s]`.
   */
  lemma PlanSkipsDone(cfg: Config, videos: seq<Path>, s: nat, e: nat)
    requires AllUnder(cfg.base, videos) && s <= e <= |videos|
    requires forall a, b :: 0 <= a < b < |videos| ==> videos[a] != videos[b]
    ensures forall t :: s <= t < e ==> Plan(cfg, videos)[t].source !in videos[..s]
  {
    forall t | s <= t < e
      ensures Plan(cfg, videos)[t].source !in videos[..s]
    {
      PlanAt(cfg, videos, t);
    }
  }

  /**
   * Every planned command reads back as the call `compress` made: the
   * rendered video and output paths, the crf, the scale height and
   * overwriting on, when no component of the video's path has a double quote.
   */
  lemma PlannedCommandsReadBack(cfg: Config, vs: seq<Path>, t: nat)
    requires AllUnder(cfg.base, vs) && t < |vs|
    requires forall c :: 0 <= c < |vs[t]| ==> '"' !in vs[t][c]
    ensures var job := Plan(cfg, vs)[t];
            ParseCommand(job.Command()) == Some(job.request)
            && job.request == Request(Render(job.source), Render(job.output), cfg.crf, cfg.scaling, true)
  {
    PlanAt(cfg, vs, t);
    RenderWithoutQuote(vs[t]);
    ParseCommandOf(Request(Render(vs[t]), Render(cfg.OutputOf(vs[t])), cfg.crf, cfg.scaling, true));
  }
}
