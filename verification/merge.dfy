/** The merge task (`mp3Mp4Merger` in main.go): choose the ffmpeg argument
    vector from the video's extension, run it, and on success remove the two
    source files, video first, stopping at the first failure. The ffmpeg run
    and the file system are abstract inputs: whether the command succeeds,
    the set of files present and the set of files whose removal the system
    refuses. */
module MergeTask {
  import opened Wrappers
  import opened Strs
  import opened FilePath
  import opened Discovery

  /** The one error a merge task reports. */
  datatype TaskError =
    | UnrecognizedExtension(ext: string, path: string)
    | CommandFailed(videoPath: string, audioPath: string)
    | RemoveFailed(path: string)

  /** The merged file's name: the marker, a space, then the video's name. */
  function OutputName(videoPath: string): (out: string)
    ensures HasPrefix(out, MergedFilePrefix)
    ensures !Eligible(DirEntry(out, false))
  {
    MergedFilePrefix + " " + videoPath
  }

  /** The merged file keeps the video's media extension. */
  lemma OutputKeepsExt(videoPath: string)
    requires Ext(videoPath) in MediaExts
    ensures Ext(OutputName(videoPath)) == Ext(videoPath)
  {
    var ext := Ext(videoPath);
    var base := MergedFilePrefix + " " + Stem(videoPath);
    assert videoPath == Stem(videoPath) + ext;
    assert OutputName(videoPath) == base + ext;
    StemOfMediaName(base, ext);
  }

  /** The ffmpeg arguments for one pair, chosen by the video's extension:
      ".mp4" copies both streams, ".webm" copies the video and re-encodes the
      audio as Vorbis, any other extension is an error. */
  function MergeArgs(videoPath: string, audioPath: string): (r: Result<seq<string>, TaskError>)
    ensures r.Success? <==> Ext(videoPath) == Mp4 || Ext(videoPath) == Webm
    ensures r.Failure? ==> r.error == UnrecognizedExtension(Ext(videoPath), videoPath)
    ensures r.Success? ==> |r.value| >= 5 && r.value[..4] == ["-i", videoPath, "-i", audioPath]
    ensures r.Success? ==> r.value[|r.value| - 1] == OutputName(videoPath)
    ensures Ext(videoPath) == Mp4 ==> r.value[4..|r.value| - 1] == ["-c", "copy"]
    ensures Ext(videoPath) == Webm ==> r.value[4..|r.value| - 1] == ["-c:v", "copy", "-c:a", "libvorbis"]
  {
    var ext := Ext(videoPath);
    var out := OutputName(videoPath);
    if ext == Mp4 then
      var args := ["-i", videoPath, "-i", audioPath, "-c", "copy", out];
      assert args[..4] == ["-i", videoPath, "-i", audioPath] && args[4..6] == ["-c", "copy"];
      Success(args)
    else if ext == Webm then
      var args := ["-i", videoPath, "-i", audioPath, "-c:v", "copy", "-c:a", "libvorbis", out];
      assert args[..4] == ["-i", videoPath, "-i", audioPath] && args[4..8] == ["-c:v", "copy", "-c:a", "libvorbis"];
      Success(args)
    else
      Failure(UnrecognizedExtension(ext, videoPath))
  }

  /** `os.Remove` succeeds on `path` when the file exists and the system does
      not refuse to remove it. */
  predicate Removable(path: string, files: set<string>, refused: set<string>) {
    path in files && path !in refused
  }

  /** The removal loop's outcome: the paths removed, in order, the one whose
      removal failed (if any) and the files left afterwards. */
  datatype Removal = Removal(removed: seq<string>, failed: Option<string>, remaining: set<string>) {
    /** Every path the loop tried, in order. */
    function Attempted(): seq<string> {
      if failed.Some? then removed + [failed.value] else removed
    }
  }

  /** Remove `paths` in order, returning at the first failure. */
  function RemoveInOrder(paths: seq<string>, files: set<string>, refused: set<string>): (r: Removal)
    ensures r.Attempted() <= paths
    ensures r.failed.None? ==> r.removed == paths
    ensures r.failed.Some? ==> !Removable(r.failed.value, r.remaining, refused)
    ensures forall p :: p in r.remaining <==> p in files && p !in r.removed
  {
    if |paths| == 0 then Removal([], None, files)
    else if !Removable(paths[0], files, refused) then Removal([], Some(paths[0]), files)
    else
      var rest := RemoveInOrder(paths[1..], files - {paths[0]}, refused);
      var r := Removal([paths[0]] + rest.removed, rest.failed, rest.remaining);
      assert r.Attempted() == [paths[0]] + rest.Attempted();
      assert forall p :: p in r.removed <==> p == paths[0] || p in rest.removed;
      r
  }

  /** Every removed path was removable when the loop started, and none is
      removed twice: a removed file is gone from the set the later removals
      see. */
  lemma {:induction false} RemovedEachOnce(paths: seq<string>, files: set<string>, refused: set<string>)
    ensures forall p :: p in RemoveInOrder(paths, files, refused).removed ==> Removable(p, files, refused)
    ensures NoDuplicates(RemoveInOrder(paths, files, refused).removed)
    decreases |paths|
  {
    if |paths| > 0 && Removable(paths[0], files, refused) {
      var rest := RemoveInOrder(paths[1..], files - {paths[0]}, refused);
      RemovedEachOnce(paths[1..], files - {paths[0]}, refused);
      var removed := RemoveInOrder(paths, files, refused).removed;
      assert removed == [paths[0]] + rest.removed;
      forall i, j | 0 <= i < j < |removed|
        ensures removed[i] != removed[j]
      {
        assert removed[j] == rest.removed[j - 1];
        if i > 0 {
          assert removed[i] == rest.removed[i - 1];
          assert rest.removed[i - 1] != rest.removed[j - 1];
        } else {
          assert rest.removed[j - 1] in rest.removed;
        }
      }
    }
  }

  /** The removal loop on the task's two paths, step by step. */
  lemma RemovePair(videoPath: string, audioPath: string, files: set<string>, refused: set<string>)
    ensures RemoveInOrder([videoPath, audioPath], files, refused)
         == if !Removable(videoPath, files, refused) then Removal([], Some(videoPath), files)
            else if !Removable(audioPath, files - {videoPath}, refused) then Removal([videoPath], Some(audioPath), files - {videoPath})
            else Removal([videoPath, audioPath], None, files - {videoPath} - {audioPath})
  {
    assert [videoPath, audioPath][1..] == [audioPath];
    assert [audioPath][1..] == [];
  }

  /** Everything one merge task does: the command it runs (if any), the
      removals it attempts in order, the error it reports (at most one) and
      the files left afterwards. */
  datatype MergeReport = MergeReport(
    command: Option<seq<string>>,
    removals: seq<string>,
    error: Option<TaskError>,
    files: set<string>)

  /** `mp3Mp4Merger` on one pair, given whether ffmpeg succeeds. */
  function Merge(videoPath: string, audioPath: string, commandSucceeds: bool,
                 files: set<string>, refused: set<string>): (r: MergeReport)
    ensures r.command.Some? <==> Ext(videoPath) == Mp4 || Ext(videoPath) == Webm
    ensures r.command.None? ==>
              r.error == Some(UnrecognizedExtension(Ext(videoPath), videoPath)) && r.removals == [] && r.files == files
    ensures r.command.Some? && !commandSucceeds ==>
              r.error == Some(CommandFailed(videoPath, audioPath)) && r.removals == [] && r.files == files
    ensures r.command.Some? && commandSucceeds ==>
              1 <= |r.removals| && r.removals <= [videoPath, audioPath]
    ensures |r.removals| == 2 ==> Removable(videoPath, files, refused) && videoPath !in r.files
    ensures !Removable(videoPath, files, refused) && r.removals != [] ==>
              r.removals == [videoPath] && r.error == Some(RemoveFailed(videoPath)) && r.files == files
    ensures r.error.None? <==>
              && r.command.Some? && commandSucceeds
              && Removable(videoPath, files, refused)
              && Removable(audioPath, files - {videoPath}, refused)
    ensures r.error.None? ==> r.files == files - {videoPath, audioPath}
    ensures r.command.Some? ==> MergeArgs(videoPath, audioPath) == Success(r.command.value)
    ensures r.command.Some? && commandSucceeds && Removable(videoPath, files, refused) ==>
              r.removals == [videoPath, audioPath]
    ensures r.removals == [videoPath, audioPath] && r.error.Some? ==>
              r.error == Some(RemoveFailed(audioPath)) && r.files == files - {videoPath}
  {
    match MergeArgs(videoPath, audioPath)
    case Failure(e) => MergeReport(None, [], Some(e), files)
    case Success(args) =>
      if !commandSucceeds then
        MergeReport(Some(args), [], Some(CommandFailed(videoPath, audioPath)), files)
      else
        var removal := RemoveInOrder([videoPath, audioPath], files, refused);
        RemovePair(videoPath, audioPath, files, refused);
        var error := if removal.failed.Some? then Some(RemoveFailed(removal.failed.value)) else None;
        MergeReport(Some(args), removal.Attempted(), error, removal.remaining)
  }
}
