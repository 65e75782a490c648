/**
 * The ffmpeg command line the script passes to `run` for one video
 * (`compress_command`), and a reader that recovers every argument from it.
 */
module Command {

  import opened Common
  import opened Numerals
  import opened Text

  /** The arguments `compress_command` is called with. */
  datatype Request = Request(inFile: string, outFile: string, crf: int, scaling: int, overwrite: bool)

  const Program: string := "ffmpeg "
  const InputFlag: string := " -i \""
  const ScalePrefix: string := "-vf scale=-1:"
  const CodecFlags: string := " -vcodec libx264 -crf "

  /** `-y` when overwriting is on, otherwise nothing. */
  function OverwriteOption(overwrite: bool): string {
    if overwrite then "-y" else ""
  }

  /** The scale filter to the given height; absent when the height is 0. */
  function ScalingFilter(scaling: int): string {
    if scaling != 0 then ScalePrefix + IntToString(scaling) else ""
  }

  /**
   * `compress_command`: the f-string of the source, piece by piece, with
   * both paths in double quotes; an empty option still leaves its
   * surrounding blanks in place.
   */
  function CompressCommand(inFile: string, outFile: string, crf: int, scaling: int, overwrite: bool): string {
    Program + (OverwriteOption(overwrite) + (InputFlag + (inFile + AfterInput(outFile, crf, scaling))))
  }

  /** The command after the input path: `" <filter> -vcodec libx264 -crf <crf> "<out>"`. */
  function AfterInput(outFile: string, crf: int, scaling: int): string {
    "\" " + (ScalingFilter(scaling) + CodecTail(outFile, crf))
  }

  /** The command after the scale filter. */
  function CodecTail(outFile: string, crf: int): string {
    CodecFlags + (IntToString(crf) + (" \"" + (outFile + "\"")))
  }

  function CommandOf(q: Request): string {
    CompressCommand(q.inFile, q.outFile, q.crf, q.scaling, q.overwrite)
  }

  /** Reads the overwrite option and the input flag. */
  function ParseOverwrite(s: string): (r: Option<(bool, string)>)
    ensures r.Some? ==> s == OverwriteOption(r.value.0) + (InputFlag + r.value.1)
  {
    if "-y" + InputFlag <= s then
      assert s == "-y" + (InputFlag + s[|"-y" + InputFlag|..]);
      Some((true, s[|"-y" + InputFlag|..]))
    else if InputFlag <= s then Some((false, s[|InputFlag|..]))
    else None
  }

  /** Reads an optional scale filter, up to the blank that ends it. */
  function ParseScaling(s: string): (r: Option<(int, string)>)
    ensures r.Some? ==> s == ScalingFilter(r.value.0) + r.value.1
  {
    if ScalePrefix <= s then
      var height :- TakeUntil(s[|ScalePrefix|..], ' ');
      var n :- ParseInt(height.0);
      if n == 0 then None
      else
        NumeralRoundTrip(height.0);
        assert s == ScalePrefix + height.0 + height.1;
        Some((n, height.1))
    else Some((0, s))
  }

  function ParseCodecTail(s: string): (r: Option<(string, int)>)
    ensures r.Some? ==> s == CodecTail(r.value.0, r.value.1)
  {
    var afterCodec :- StripPrefix(s, CodecFlags);
    var crfSplit :- TakeUntil(afterCodec, ' ');
    var crf :- ParseInt(crfSplit.0);
    var quoted :- StripPrefix(crfSplit.1, " \"");
    if |quoted| >= 1 && quoted[|quoted| - 1] == '"' then
      NumeralRoundTrip(crfSplit.0);
      assert quoted == quoted[..|quoted| - 1] + "\"";
      Some((quoted[..|quoted| - 1], crf))
    else None
  }

  function ParseAfterInput(s: string): (r: Option<(string, int, int)>)
    ensures r.Some? ==> s == AfterInput(r.value.0, r.value.1, r.value.2)
  {
    var afterQuote :- StripPrefix(s, "\" ");
    var scale :- ParseScaling(afterQuote);
    var tail :- ParseCodecTail(scale.1);
    Some((tail.0, tail.1, scale.0))
  }

  /** Recovers the arguments from a command line; None when it is not one. */
  function ParseCommand(cmd: string): (r: Option<Request>)
  {
    var afterProgram :- StripPrefix(cmd, Program);
    var input :- ParseOverwrite(afterProgram);
    var inSplit :- TakeUntil(input.1, '"');
    var rest :- ParseAfterInput(inSplit.1);
    Some(Request(inSplit.0, rest.0, rest.1, rest.2, input.0))
  }

  lemma ParseOverwriteOf(overwrite: bool, rest: string)
    ensures ParseOverwrite(OverwriteOption(overwrite) + (InputFlag + rest)) == Some((overwrite, rest))
  {
    var s := OverwriteOption(overwrite) + (InputFlag + rest);
    if overwrite {
      assert s == ("-y" + InputFlag) + rest;
    } else {
      assert s == InputFlag + rest;
      assert !("-y" + InputFlag <= s) by { assert s[0] != ("-y" + InputFlag)[0]; }
    }
  }

  lemma ParseScalingOf(n: int, rest: string)
    requires |rest| >= 1 && rest[0] == ' '
    ensures ParseScaling(ScalingFilter(n) + rest) == Some((n, rest))
  {
    var s := ScalingFilter(n) + rest;
    if n != 0 {
      var h := IntToString(n);
      assert s == ScalePrefix + (h + rest);
      assert s[|ScalePrefix|..] == h + rest;
      TakeUntilFirst(h, rest, ' ');
      IntRoundTrip(n);
    } else {
      assert s == rest;
      assert !(ScalePrefix <= s) by { assert s[0] != ScalePrefix[0]; }
    }
  }

  lemma ParseCodecTailOf(outFile: string, crf: int)
    ensures ParseCodecTail(CodecTail(outFile, crf)) == Some((outFile, crf))
  {
    var c := IntToString(crf);
    var quoted := outFile + "\"";
    var rest := " \"" + quoted;
    assert CodecTail(outFile, crf) == CodecFlags + (c + rest);
    StripPrefixOf(CodecFlags, c + rest);
    TakeUntilFirst(c, rest, ' ');
    IntRoundTrip(crf);
    StripPrefixOf(" \"", quoted);
    assert quoted[..|quoted| - 1] == outFile;
  }

  lemma ParseAfterInputOf(outFile: string, crf: int, scaling: int)
    ensures ParseAfterInput(AfterInput(outFile, crf, scaling)) == Some((outFile, crf, scaling))
  {
    ParseScalingOf(scaling, CodecTail(outFile, crf));
    ParseCodecTailOf(outFile, crf);
  }

  /**
   * Reading a command back yields exactly the arguments it was built from,
   * provided the input path has no double quote in it.
   */
  lemma ParseCommandOf(q: Request)
    requires '"' !in q.inFile
    ensures ParseCommand(CommandOf(q)) == Some(q)
  {
    var rest := AfterInput(q.outFile, q.crf, q.scaling);
    ParseOverwriteOf(q.overwrite, q.inFile + rest);
    TakeUntilFirst(q.inFile, rest, '"');
    ParseAfterInputOf(q.outFile, q.crf, q.scaling);
  }

  /** Whatever the reader accepts is exactly the command of what it returns. */
  lemma CommandOfParse(cmd: string)
    requires ParseCommand(cmd).Some?
    ensures '"' !in ParseCommand(cmd).value.inFile
    ensures CommandOf(ParseCommand(cmd).value) == cmd
  {
  }

  /** What follows the first five of six consecutive pieces. */
  lemma AfterPieces<T>(a: seq<T>, b: seq<T>, c: seq<T>, d: seq<T>, e: seq<T>, f: seq<T>)
    ensures (a + (b + (c + (d + (e + f)))))[|a| + |b| + |c| + |d| + |e|..] == f
  {
    assert a + (b + (c + (d + (e + f)))) == (a + b + c + d + e) + f;
  }

  /**
   * The command starts with the program name, holds the quoted input path
   * right after `-i`, and ends with the codec, the crf and the quoted output
   * path; the input path comes before all of that.
   */
  lemma CommandLayout(inFile: string, outFile: string, crf: int, scaling: int, overwrite: bool)
    ensures var cmd := CompressCommand(inFile, outFile, crf, scaling, overwrite);
            var start := |Program| + |OverwriteOption(overwrite)| + |InputFlag|;
            var tail := CodecTail(outFile, crf);
            && Program <= cmd
            && cmd[start - |InputFlag|..start] == InputFlag
            && cmd[start..start + |inFile|] == inFile
            && cmd[start + |inFile|] == '"'
            && start + |inFile| + 2 + |tail| <= |cmd|
            && cmd[|cmd| - |tail|..] == tail
  {
    var cmd := CompressCommand(inFile, outFile, crf, scaling, overwrite);
    var start := |Program| + |OverwriteOption(overwrite)| + |InputFlag|;
    InputAt(inFile, outFile, crf, scaling, overwrite);
    TailAt(inFile, outFile, crf, scaling, overwrite);
    SliceOfSuffix(cmd, start - |InputFlag|, |InputFlag|);
    SliceOfSuffix(cmd, start, |inFile|);
    assert cmd[start + |inFile|] == cmd[start..][|inFile|];
  }

  /** A slice is the front of the suffix it starts. */
  lemma SliceOfSuffix<T>(s: seq<T>, at: nat, n: nat)
    requires at + n <= |s|
    ensures s[at..at + n] == s[at..][..n]
  {
  }

  lemma InputAt(inFile: string, outFile: string, crf: int, scaling: int, overwrite: bool)
    ensures var cmd := CompressCommand(inFile, outFile, crf, scaling, overwrite);
            && Program <= cmd
            && cmd[|Program| + |OverwriteOption(overwrite)|..] == InputFlag + (inFile + AfterInput(outFile, crf, scaling))
            && cmd[|Program| + |OverwriteOption(overwrite)| + |InputFlag|..] == inFile + AfterInput(outFile, crf, scaling)
  {
    var cmd := CompressCommand(inFile, outFile, crf, scaling, overwrite);
    var ow := OverwriteOption(overwrite);
    var x := inFile + AfterInput(outFile, crf, scaling);
    assert cmd == Program + (ow + (InputFlag + x));
    assert cmd[|Program|..] == ow + (InputFlag + x);
    assert cmd[|Program| + |ow|..] == cmd[|Program|..][|ow|..];
    assert cmd[|Program| + |ow| + |InputFlag|..] == cmd[|Program| + |ow|..][|InputFlag|..];
  }

  lemma TailAt(inFile: string, outFile: string, crf: int, scaling: int, overwrite: bool)
    ensures var cmd := CompressCommand(inFile, outFile, crf, scaling, overwrite);
            var tail := CodecTail(outFile, crf);
            && FilterStart(inFile, overwrite) + |tail| <= |cmd|
            && cmd[|cmd| - |tail|..] == tail
  {
    FilterAt(inFile, outFile, crf, scaling, overwrite);
    EndOfSuffix(CompressCommand(inFile, outFile, crf, scaling, overwrite), FilterStart(inFile, overwrite),
                ScalingFilter(scaling), CodecTail(outFile, crf));
  }

  lemma EndOfSuffix<T>(s: seq<T>, at: nat, a: seq<T>, b: seq<T>)
    requires at <= |s| && s[at..] == a + b
    ensures at + |b| <= |s| && s[|s| - |b|..] == b
  {
    assert s[|s| - |b|..] == s[at..][|a|..];
  }

  /** `-y` follows the program name exactly when overwriting is requested. */
  lemma OverwriteFlagIff(inFile: string, outFile: string, crf: int, scaling: int, overwrite: bool)
    ensures var cmd := CompressCommand(inFile, outFile, crf, scaling, overwrite);
            |cmd| >= |Program| + 2 && (cmd[|Program|..|Program| + 2] == "-y" <==> overwrite)
  {
    var cmd := CompressCommand(inFile, outFile, crf, scaling, overwrite);
    if !overwrite {
      assert cmd[|Program|] == ' ';
    }
  }

  /** The position of the scale filter: after the quoted input path and a blank. */
  function FilterStart(inFile: string, overwrite: bool): nat {
    |Program| + |OverwriteOption(overwrite)| + |InputFlag| + |inFile| + 2
  }

  lemma FilterAt(inFile: string, outFile: string, crf: int, scaling: int, overwrite: bool)
    ensures var cmd := CompressCommand(inFile, outFile, crf, scaling, overwrite);
            FilterStart(inFile, overwrite) <= |cmd|
            && cmd[FilterStart(inFile, overwrite)..] == ScalingFilter(scaling) + CodecTail(outFile, crf)
  {
    AfterPieces(Program, OverwriteOption(overwrite), InputFlag, inFile, "\" ", ScalingFilter(scaling) + CodecTail(outFile, crf));
  }

  /** Within any text, a scale filter followed by a blank is recognised by its prefix. */
  lemma FilterIffAt(s: string, at: nat, scaling: int, tail: string)
    requires |tail| >= |ScalePrefix| && tail[0] == ' '
    requires at <= |s| && s[at..] == ScalingFilter(scaling) + tail
    ensures && at + |ScalePrefix| <= |s|
            && (s[at..at + |ScalePrefix|] == ScalePrefix <==> scaling != 0)
            && (scaling != 0 ==> s[at + |ScalePrefix|..at + |ScalePrefix| + |IntToString(scaling)|] == IntToString(scaling))
  {
    var rest := ScalingFilter(scaling) + tail;
    if scaling == 0 {
      assert rest[0] == ' ';
      assert s[at] == ' ';
    } else {
      var h := IntToString(scaling);
      assert rest == ScalePrefix + (h + tail);
      assert s[at..at + |ScalePrefix|] == rest[..|ScalePrefix|];
      assert s[at + |ScalePrefix|..at + |ScalePrefix| + |h|] == rest[|ScalePrefix|..|ScalePrefix| + |h|];
    }
  }

  /**
   * Right after the quoted input path and its blank comes the scale filter
   * `-vf scale=-1:<height>` exactly when the height is non-zero.
   */
  lemma ScaleFilterIff(inFile: string, outFile: string, crf: int, scaling: int, overwrite: bool)
    ensures var cmd := CompressCommand(inFile, outFile, crf, scaling, overwrite);
            var at := FilterStart(inFile, overwrite);
            && at + |ScalePrefix| <= |cmd|
            && (cmd[at..at + |ScalePrefix|] == "-vf scale=-1:" <==> scaling != 0)
            && (scaling != 0 ==> cmd[at + |ScalePrefix|..at + |ScalePrefix| + |IntToString(scaling)|] == IntToString(scaling))
  {
    FilterAt(inFile, outFile, crf, scaling, overwrite);
    FilterIffAt(CompressCommand(inFile, outFile, crf, scaling, overwrite), FilterStart(inFile, overwrite),
                scaling, CodecTail(outFile, crf));
  }
}
