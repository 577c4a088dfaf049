/** Concat mode (main.go, `concatInputFiles` and `concatVideos`): check that
    at least two videos were given, write a manifest with one ffmpeg `file`
    directive per video, and run ffmpeg's concat demuxer on it. File creation,
    the write and the ffmpeg run are abstract inputs saying whether each
    succeeds. */
module Concat {
  import opened Wrappers
  import opened Strs

  const DirectivePrefix: string := "file 'file:"
  const DirectiveSuffix: string := "'"

  /** The manifest line naming one input. */
  function Directive(path: string): (line: string)
    ensures '\n' in line <==> '\n' in path
  {
    DirectivePrefix + path + DirectiveSuffix
  }

  /** Reads back the path a manifest line names, if it is a directive. */
  function ParseDirective(line: string): (r: Option<string>)
    ensures r.Some? ==> Directive(r.value) == line
  {
    if |line| >= |DirectivePrefix| + |DirectiveSuffix|
       && HasPrefix(line, DirectivePrefix) && HasSuffix(line, DirectiveSuffix)
    then
      var path := line[|DirectivePrefix|..|line| - |DirectiveSuffix|];
      assert line == line[..|DirectivePrefix|] + path + line[|line| - |DirectiveSuffix|..];
      Some(path)
    else None
  }

  /** Reading a directive back gives the path it was written for. */
  lemma ParseDirectiveInverts(path: string)
    ensures ParseDirective(Directive(path)) == Some(path)
  {
    var line := Directive(path);
    assert line[..|DirectivePrefix|] == DirectivePrefix;
    assert line[|line| - |DirectiveSuffix|..] == DirectiveSuffix;
    assert line[|DirectivePrefix|..|line| - |DirectiveSuffix|] == path;
  }

  /** One directive per input, in input order. */
  function Directives(files: seq<string>): (lines: seq<string>)
    ensures |lines| == |files|
  {
    seq(|files|, i requires 0 <= i < |files| => Directive(files[i]))
  }

  /** `concatInputFiles`: the directives joined by newlines. */
  function Manifest(files: seq<string>): (m: string)
    ensures m == "" <==> |files| == 0
    ensures |files| > 0 ==> m[|m| - 1] == DirectiveSuffix[0]
  {
    ManifestShape(files);
    Join(Directives(files), "\n")
  }

  /** The directives of a non-empty input start with the first input's. */
  lemma DirectivesCons(files: seq<string>)
    requires |files| > 0
    ensures Directives(files) == [Directive(files[0])] + Directives(files[1..])
  {
  }

  /** The joined directives are empty exactly when there are no inputs, and
      otherwise end in the directive suffix (no trailing newline). */
  lemma {:induction false} ManifestShape(files: seq<string>)
    ensures Join(Directives(files), "\n") == "" <==> |files| == 0
    ensures |files| > 0 ==> var m := Join(Directives(files), "\n"); |m| > 0 && m[|m| - 1] == DirectiveSuffix[0]
    decreases |files|
  {
    if |files| > 0 {
      DirectivesCons(files);
      var first := Directive(files[0]);
      if |files| > 1 {
        ManifestShape(files[1..]);
      } else {
        assert first[|first| - 1] == DirectiveSuffix[0];
      }
    }
  }

  /** Reads a whole manifest back: one path per line. */
  ghost function ParseLines(lines: seq<string>): Option<seq<string>> {
    if |lines| == 0 then Some([])
    else
      var first := ParseDirective(lines[0]);
      var rest := ParseLines(lines[1..]);
      if first.Some? && rest.Some? then Some([first.value] + rest.value) else None
  }

  ghost function ParseManifest(m: string): Option<seq<string>> {
    ParseLines(Split(m, '\n'))
  }

  /** Reading the directives back line by line gives the inputs. */
  lemma {:induction false} ParseDirectivesInverts(files: seq<string>)
    ensures ParseLines(Directives(files)) == Some(files)
    decreases |files|
  {
    if |files| > 0 {
      DirectivesCons(files);
      ParseDirectiveInverts(files[0]);
      ParseDirectivesInverts(files[1..]);
      assert [files[0]] + files[1..] == files;
    }
  }

  /** The manifest has exactly one line per input, in input order, when no
      path contains a newline. */
  lemma ManifestLines(files: seq<string>)
    requires |files| >= 1
    requires forall i :: 0 <= i < |files| ==> '\n' !in files[i]
    ensures Split(Manifest(files), '\n') == Directives(files)
  {
    var lines := Directives(files);
    forall i | 0 <= i < |lines|
      ensures '\n' !in lines[i]
    {
      assert lines[i] == DirectivePrefix + files[i] + DirectiveSuffix;
    }
    SplitJoin(lines, '\n');
  }

  /** Reading the manifest back gives the inputs, in order. */
  lemma ManifestRoundTrip(files: seq<string>)
    requires |files| >= 1
    requires forall i :: 0 <= i < |files| ==> '\n' !in files[i]
    ensures ParseManifest(Manifest(files)) == Some(files)
  {
    ManifestLines(files);
    ParseDirectivesInverts(files);
  }

  /** The two fatal usage errors. */
  datatype UsageError = NoVideos | OneVideo

  /** Why a concat run stopped. */
  datatype ConcatError =
    | Usage(usage: UsageError)   // fatal before anything is created
    | CreateFailed               // os.Create of the manifest failed
    | WriteFailed                // writing the manifest failed
    | ToolFailed                 // ffmpeg exited with an error

  /** The manifest file `concatVideos` creates in the working directory. */
  const ManifestName: string := "list.txt"

  /** The literal token the output name starts with. */
  const OutputPrefix: string := "concat - "

  /** The argument check: fewer than two inputs is a usage error. */
  function CheckInputs(files: seq<string>): (r: Option<UsageError>)
    ensures r.None? <==> |files| >= 2
    ensures r == Some(NoVideos) <==> |files| == 0
  {
    if |files| == 0 then Some(NoVideos)
    else if |files| == 1 then Some(OneVideo)
    else None
  }

  /** ffmpeg's concat invocation reading the manifest at `manifestPath`. */
  function ConcatArgs(manifestPath: string, files: seq<string>): (args: seq<string>)
    requires |files| >= 1
    ensures |args| == 7 && args[..4] == ["-f", "concat", "-safe", "0"]
    ensures args[4] == "-i" && args[5] == manifestPath
    ensures args[6] == OutputPrefix + files[0]
  {
    ["-f", "concat", "-safe", "0", "-i", manifestPath, OutputPrefix + files[0]]
  }

  /** What one concat run did. */
  datatype ConcatReport = ConcatReport(
    manifestCreated: bool,
    written: Option<string>,
    command: Option<seq<string>>,
    error: Option<ConcatError>)

  /** `concatVideos`, given whether creating the manifest, writing it and
      running ffmpeg succeed. */
  function ConcatVideos(files: seq<string>, createOk: bool, writeOk: bool, toolOk: bool): (r: ConcatReport)
    ensures |files| == 0 ==> r.error == Some(Usage(NoVideos))
    ensures |files| == 1 ==> r.error == Some(Usage(OneVideo))
    ensures (r.error.Some? && r.error.value.Usage?) <==> |files| < 2
    ensures |files| < 2 ==> !r.manifestCreated && r.written.None? && r.command.None?
    ensures r.written.Some? ==> r.manifestCreated && r.written.value == Manifest(files)
    ensures r.command.Some? <==> |files| >= 2 && createOk && writeOk
    ensures r.command.Some? ==> r.written.Some? && r.command.value == ConcatArgs(ManifestName, files)
    ensures r.error.None? <==> |files| >= 2 && createOk && writeOk && toolOk
    ensures |files| >= 2 && !createOk ==> r.error == Some(CreateFailed) && !r.manifestCreated && r.written.None?
    ensures |files| >= 2 && createOk && !writeOk ==> r.error == Some(WriteFailed) && r.manifestCreated && r.written.None?
    ensures r.command.Some? && !toolOk ==> r.error == Some(ToolFailed)
  {
    match CheckInputs(files)
    case Some(usage) => ConcatReport(false, None, None, Some(Usage(usage)))
    case None =>
      if !createOk then ConcatReport(false, None, None, Some(CreateFailed))
      else if !writeOk then ConcatReport(true, None, None, Some(WriteFailed))
      else
        var args := ConcatArgs(ManifestName, files);
        ConcatReport(true, Some(Manifest(files)), Some(args), if toolOk then None else Some(ToolFailed))
  }
}
