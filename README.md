# compress-ffmpeg, modelled in Dafny

`compress.py` compresses every `.mp4` video below one input directory with
ffmpeg and writes the results into a sibling directory named
`<input>_compressed`, which has the same layout as the input tree. It keeps a
progress counter in a file `index` next to the input directory, so that a run
which stops at a failing video resumes at that video next time. When every
video is done, it removes the counter and copies the extra files the user
listed by glob pattern, such as `*.pdf`, unless something is already at
their destination.

This project models that script and proves what it does:

- `Command`: the ffmpeg command line that `compress_command` builds, and a
  reader that recovers every argument from it. The round trip proves the
  command line and its arguments determine each other.
- `Numerals`: `str` of the counter and of the numbers in the command, and
  a reader of canonical decimal numerals (what `str` writes), with both
  round trips. `int` also accepts other spellings, such as `"05"`, `"+5"`,
  `" 5\n"` or `"1_0"`; the reader does not.
- `Paths`: paths as sequences of components. Covers the output root beside
  the input directory, and the relocation of a file from the input tree
  into the output tree (`_get_save_file_function`).
- `Layout`: the structure mirror and the extra-file copier, as functions
  over a set of directories and a map from file paths to contents, with
  their lemmas.
- `Driver`: the plan of the resume loop as functions:
  - the encoder call each video gets;
  - where `videos[index:]` starts, with Python's rules for negative and
    oversized indices;
  - the first call the encoder fails on;
  - what the successful calls leave in the output tree.
- `Script`: the script's steps as methods that take the filesystem value
  (`Disk`) and return it changed. `get_index`, `update_index`, `compress`,
  the mirror loop, the resume loop, the copy loop and the whole run are each
  proved against the functions above.

The encoder is a parameter `encoder: Request -> int`: the exit status of
running the command line `CommandOf(q)` of request `q`, with 0 meaning
success. That status is only defined where the platform runs a command
string given to `run` without a shell, as Windows does (see "## Left out").
`Command.ParseCommandOf` and `Command.CommandOfParse` show that a request and its command line determine each other when the input path
has no double quote. So an oracle over requests is the same as an oracle over
the command strings the script passes to `run`. The traversals are
parameters too: `entries` is what `rglob("*")` yields, `videos` what
`rglob("*.mp4")` yields, and `matches` the concatenated results of `rglob`
for each include pattern. All three are in their traversal order.

Three facts about the code that a reader might not expect:

- The code has no skip-if-exists rule for videos. Every video from the
  resume point on is encoded, with `-y`, overwriting any existing output.
- The mirror creates only the mapped *parent* of each entry. An empty
  directory of the input tree that is a leaf therefore gets no counterpart
  in the output tree.
- After a failure the counter holds `index + (j - start)`. This equals `j`
  only when the stored index was between 0 and the number of videos.

## Model

| member | source | states |
|---|---|---|
| Numerals.IntToString | compress.py:45 | `str(i)` is non-empty, starts with `-` exactly for negative `i`, and contains no blank or double quote, so it never splits the command line |
| Numerals.IntRoundTrip | compress.py:28-45 | what `update_index` writes with `str`, `get_index` reads back with `int` unchanged, for every integer |
| Numerals.NumeralRoundTrip | compress.py:28-30 | every counter text `int` accepts as canonical is exactly `str` of the value read |
| Command.ParseCommandOf | compress.py:48-62 | the command line for any request whose input path has no double quote reads back as exactly that request (both paths, crf, scale height, overwrite flag) |
| Command.CommandOfParse | compress.py:48-62 | any text the reader accepts is exactly the command line of the request it returns, so the command determines the request and vice versa |
| Command.CommandLayout | compress.py:62 | the command `CompressCommand` starts with `ffmpeg `, has the input path right after `-i "` and closed by a quote, and ends with `-vcodec libx264 -crf <crf> "<out>"` |
| Command.OverwriteFlagIff | compress.py:60-62 | `-y` follows the program name if and only if overwriting is requested |
| Command.ScaleFilterIff | compress.py:59-62 | after the quoted input path comes `-vf scale=-1:<height>` if and only if the height is non-zero, followed by that height's digits |
| Paths.RelativeTo | compress.py:94 | `relative_to` succeeds exactly for paths under the base, and the base joined with the result is the path |
| Paths.SaveDirIsSibling | compress.py:119 | the output root `SaveDir` has the input directory's parent and the name `<name>_compressed`, and differs from the input directory |
| Paths.SaveDirApart | compress.py:119 | below any directory other than the root, the input directory and the output root are not inside one another |
| Paths.RelocationKeepsRelativePath | compress.py:93-94 | a file relocated by `SaveFilePath` has the same path relative to the output root as the original has relative to the input directory |
| Paths.RelocationInverse | compress.py:93-94 | the relocated path lies under the output root, and relocating it back gives the original file |
| Paths.RelocationInjective | compress.py:93-94 | distinct files of the input tree get distinct output paths |
| Paths.RelocationParent | compress.py:128 | the parent of a relocated entry is the relocation of the entry's parent |
| Paths.OutputOutsideInput | compress.py:119-124 | as path text, no output path lies under the input directory: for an input without `..` components, the script never writes among the files it traverses |
| Paths.RenderWithoutQuote | compress.py:76-77 | a path whose components have no double quote renders (`Render`, `str(path)`) as text without one |
| Layout.MappedParentIsRelocatedHolder | compress.py:127-128 | the directory mapped for an entry strictly below the input directory lies in the output root and is the relocation of the directory that holds the entry |
| Layout.Mirrored | compress.py:127-131 | the mirror only adds directories, and afterwards every mapped directory exists as a directory or is blocked by a file |
| Layout.MirroredOnlyLineages | compress.py:130-131 | every directory the mirror adds is a mapped directory or one of its ancestors |
| Layout.MirroredCreatesAncestors | compress.py:130-131 | on a tree where ancestors of directories exist, the mirror keeps that so and leaves every unblocked mapped directory there with all its ancestors |
| Layout.MirroredNoop | compress.py:130 | once every mapped directory exists, the mirror changes nothing |
| Layout.MirroredIdempotent | compress.py:127-131 | running the mirror a second time changes nothing |
| Layout.MirroredCoversEntries | compress.py:127-131 | after the mirror, the output counterpart of the directory holding each traversed entry exists unless a file is in its place |
| Layout.Copied | compress.py:151-159 | the copier never changes an existing file; every new file lies under the output root and holds its input counterpart's contents; and every match's destination ends up taken |
| Layout.CopiedOnlyMatches | compress.py:151-159 | every file the copier creates is the destination of one of the matches, so nothing outside the include patterns is copied |
| Layout.CopiedFillsDestinations | compress.py:154-159 | an already existing file keeps its contents; a destination where only a directory stands gets no file; a free destination receives the match's contents |
| Layout.CopiedSkipsDirectories | compress.py:157 | a destination where a directory stands never receives a file, since `exists()` is true for a directory |
| Layout.CopiedNoop | compress.py:157 | when every destination is taken, the copier changes nothing |
| Layout.CopiedIdempotent | compress.py:151-159 | running the copier a second time changes nothing |
| Driver.Plan | compress.py:140-144 | one encoder call per video |
| Driver.PlanAt | compress.py:143-144 | the call planned for `videos[i]` (`InvocationOf`) is `compress(file, get_save_file_path(file), crf, scaling, True)` on the rendered paths |
| Driver.PlanOutputsDetermineCalls | compress.py:143 | different videos get different output paths, so an output path determines its call |
| Driver.PlannedCommandsReadBack | compress.py:76-77 | each planned command line reads back as the call made for it, when the video's path has no double quote |
| Driver.FirstFailure | compress.py:79-80 | the position found is within range, and the encoder fails on the call there if there is one |
| Driver.SucceedsBeforeFirstFailure | compress.py:140-147 | the encoder succeeds on every call before the first failure |
| Driver.FirstFailureAt | compress.py:140-147 | a position before which every call succeeds, and at which the call fails or the list ends, is the first failure |
| Driver.Encoded | compress.py:144 | successful encodes only add or overwrite files, never remove one |
| Driver.EncodedHoldsOutputs | compress.py:144 | after the encodes, each call's output exists and holds what the encoder wrote for that call |
| Driver.EncodedOnlyOutputs | compress.py:144 | the encodes change no path other than the outputs of their calls |
| Driver.SliceStart | compress.py:140 | the position where `videos[index:]` starts lies within the list of videos |
| Driver.ResumeAtFailedVideo | compress.py:140-147 | for a stored index from `-n` up, the counter left after a failure at `videos[j]` makes the next run's `videos[index:]` start at `videos[j]` |
| Driver.ResumeNeverSkips | compress.py:140-147 | for every stored index, the counter left after a failure at `videos[j]` makes the next run start at or before `videos[j]`; below `-n` it starts at `max(0, n + index + j)` |
| Driver.PlanSkipsDone | compress.py:140 | with no video listed twice, the resume loop never calls the encoder on a video before its start |
| Script.IndexOutsideTrees | compress.py:133 | as path text, the counter file `IndexPath` is never under the output root; it is under the input directory exactly when that directory is named `index`, and then it is that directory |
| Script.GetIndex | compress.py:20-34 | returns the stored counter, or 0 when the file is missing, after which the file holds 0; nothing else changes |
| Script.UpdateIndex | compress.py:37-45 | the counter file holds the new value; nothing else changes |
| Script.CounterReadsBack | compress.py:20-45 | a value written by `update_index` is what `get_index` then returns, and the filesystem is the same as after the write |
| Script.RemoveIndex | compress.py:149 | the counter file is gone; nothing else changes |
| Script.Compress | compress.py:65-80 | succeeds exactly when the encoder exits 0 on this file's command; records the call; the output holds the encoder's result on success, and the files are untouched on failure |
| Script.MirrorTree | compress.py:124-131 | the loop leaves exactly the directories of `Layout.Mirrored` over the mapped parents, and nothing else changes |
| Script.EncodeAt | compress.py:143-144 | one pass encodes `videos[i]` by its planned call: success as the encoder says, the call recorded, the output written only on success |
| Script.EncodeFrom | compress.py:140-147 | from `videos[index:]`, it encodes up to and including the first failure. It returns that position; the log gains exactly those calls; the files hold the successful encodes; the counter advanced by the number of successes |
| Script.RunVideos | compress.py:133-147 | `get_index`, then the resume loop: the same as `EncodeFrom`, from the counter as stored, with the counter file created when missing |
| Script.CopyIncluded | compress.py:151-159 | the loop leaves exactly the files of `Layout.Copied`, and nothing else changes |
| Script.SetUp | compress.py:116-131 | stops with the missing-input error exactly when the input is missing; with the blocked-output error exactly when a file stands at the output root; otherwise leaves the output root made and the tree mirrored |
| Script.Finish | compress.py:149-159 | removes the counter file, then leaves exactly the files of `Layout.Copied` |
| Script.ResumeAndFinish | compress.py:133-159 | runs the videos from the stored counter. At the first failure it stops, with the successful outputs written and a counter from which the next run never starts past the failed video, and starts exactly there for a stored index from `-n` up. With no failure, the counter file is gone and the extra files are copied |
| Script.CompressDirectory | compress.py:116-159 | the whole run: each error outcome occurs exactly when its condition holds, leaving the filesystem untouched. Otherwise it is the prepared tree, then the resume loop up to the first failure, then (with no failure) counter removal and copying |

## Left out

- Command-line parsing (compress.py:99-112) is left out: the settings arrive as a `Config`, so argparse's defaults (crf 24, scale 0) are not modelled.
- The progress messages printed at compress.py:141 and compress.py:158 are left out.
- Running ffmpeg is an oracle over the request. compress.py:75-77 passes `run` one string without `shell=True`. On POSIX, Python takes that whole string as the program's path, so `run` raises FileNotFoundError and the script stops at its first video having encoded nothing. The model covers that case only as an encoder that fails every call; its `log` then records a call that never started.
- Paths.Render: paths are spelled the POSIX way, with slashes and no drive. On Windows, the one platform where the encoder calls can succeed, `str` gives a drive and backslashes, so the real command text differs in those characters. The `Command` round trip does not depend on the separator.
- Paths.Path: only absolute paths are modelled, as the usage text at compress.py:6-7 recommends. A relative input such as `.` has the empty name, so its output root `_compressed` lies inside the input tree. That is the same situation as the filesystem root, which `Paths.SaveDirApart` and `Paths.OutputOutsideInput` exclude. Components are compared as text, as pathlib does: `..` is kept and not resolved. So `Paths.SaveDirApart`, `Paths.OutputOutsideInput` and `Script.IndexOutsideTrees` are facts about the path text. For an input such as `/a/b/..`, which names `/a`, the output root `/a/b/.._compressed` and the counter file `/a/b/index` lie inside the input tree on disk, and the traversals of that tree reach them.
- `rglob` is not modelled. Its results are inputs, taken as snapshots rather than lazy generators, and assumed to lie under the input directory.
- Script.GetIndex: the counter is held as the integer it spells. A file whose text `int` rejects raises ValueError; that case is not modelled (the text form is covered by `Numerals`).
- Script.GetIndex: when a directory stands at `<parent>/index`, `open` at compress.py:29 raises IsADirectoryError, which the `except FileNotFoundError` does not catch, and the script stops. The model keeps the counter in its own `indexFile` field and cannot express a directory there. One such case is an input directory itself named `index` (`Script.IndexOutsideTrees` exhibits the coincidence).
- Script.Compress: when the encoder fails, a partially written output file may remain. The model leaves the files unchanged.
- Script.Compress: whether ffmpeg prompts before overwriting without `-y` is the encoder's behaviour, outside the model. The script always passes `-y`.
- Script.MirrorTree: `mkdir(parents=True)` fails when an ancestor of the directory is a file; the model adds the whole lineage anyway.
- Script.SetUp: other `mkdir` failures, such as permissions, are not modelled; only the input-missing and file-in-place errors are.
- Script.CopyIncluded: matches must be files. `copyfile` on a directory match, or into a parent blocked by a file, raises; that is not modelled.
- Script.RunVideos: the exact resume guarantee (a rerun starts at the failed video) is stated only for a stored index `k` of at least minus the number of videos `n`. Below that, the counter left after a failure at `videos[j]` is `k + j`, and the rerun starts at `max(0, n + k + j)`. That is at or before the failed video, so videos may be encoded again but none is skipped (`Driver.ResumeNeverSkips`).
- Interruption of the process mid-encode is not modelled.
