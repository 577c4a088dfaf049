# audio-video-merger, modelled in Dafny

audio-video-merger is a small Go command (`main.go`) with two modes, both
driving `ffmpeg`:

* **merge mode** (`mergeAudVid`): list the working directory, group the
  media files by stem (`song.mp3` and `song.mp4` share the stem `song`),
  keep the stems that can form an audio/video pair, and for each pair run
  `ffmpeg` to mux the video with the `.mp3` audio into
  `"[MERGED] " + videoPath`, then delete both sources, video first.
  In the current `main` (lines 236-241) only concat mode runs: the call
  to `mergeAudVid` at line 240 is commented out, so merge mode is
  modelled as written but is not reachable from `main`;
* **concat mode** (`concatVideos`): given two or more video paths on the
  command line, write a manifest `list.txt` with one
  `file 'file:<path>'` directive per video and run ffmpeg's concat demuxer
  on it, producing `"concat - " + firstPath`.

This project models the sequential decision logic of both modes as pure
functions over immutable values and proves what each one promises:

| file | module | what it models |
|---|---|---|
| `wrappers.dfy` | `Wrappers` | `Option` and `Result` |
| `strs.dfy` | `Strs` | the Go string helpers used: `strings.TrimSuffix`, `strings.HasPrefix`, `slices.Index`, `strings.Join`, and a `Split` used to read manifests back |
| `filepath.dfy` | `FilePath` | `filepath.Ext` on a Unix path |
| `discovery.dfy` | `Discovery` | `filenameFromBasename`, the eligibility filter and the grouping loop (main.go lines 80-98) |
| `resolver.dfy` | `Resolver` | the resolver loop (lines 100-108) including its out-of-range index, and the job paths (line 129) |
| `merge.dfy` | `MergeTask` | `mp3Mp4Merger`: argument vector, single error, ordered removals |
| `concat.dfy` | `Concat` | `concatInputFiles`, the usage check and the argument vector of `concatVideos` |
| `pipeline.dfy` | `MergeAudVid` | merge mode end to end, with worked examples |

The directory listing is a sequence of `DirEntry(name, isDir)`. The file
system seen by a merge task is a set of existing names together with a
set of names whose removal is refused. Whether `ffmpeg`, `os.Create` and
the manifest write succeed is given as a boolean.

The resolver indexes `exts[1 - slices.Index(exts, ".mp3")]`. That index is
only in range while ".mp3" is at position 0 or 1 of its group. A group like
`a.mp4, a.webm, a.mp3`, in that order, would index -1 and panic. The model
makes this visible as an explicit `IndexOutOfRange` failure naming the
stems involved (`Resolver.Resolve`). Go visits every stem and never deletes
an offending stem before reaching it, so one such group is enough for the
run to panic. `Resolver.UnsortedListingPanics` exhibits such a listing for any stem whose names are not merge output, and shows the index is exactly -1.

`os.ReadDir` returns its entries sorted by file name, and ".mp3" sorts
before ".mp4" and ".webm". So if `mergeAudVid` were called, ".mp3" would
always be first in its group, and the panic could not happen. `SortedListingResolves`
proves this.

For groups of three or more where ".mp3" is at position 0 or 1, the code
takes `exts[1 - index]`, whichever extension that is. The model does the
same; it is not an error.

`concatVideos` does not use the `tmpFile` helper (lines 136-182). It
creates `list.txt` in the working directory (line 202), and the model
follows the code (`Concat.ManifestName`).

## Model

| member | source | states |
|---|---|---|
| Strs.TrimSuffix | main.go:59 | with the suffix present, the result followed by the suffix is the input; otherwise the input is unchanged |
| Strs.HasPrefix | main.go:87 | `strings.HasPrefix`; characterised by `Strs.PrefixDecomposes` |
| Strs.PrefixDecomposes | main.go:87 | `s` has the prefix exactly when `s` is the prefix followed by some rest |
| Strs.Join | main.go:190 | `strings.Join`: a non-empty list's join starts with its first piece and ends with its last; `Strs.SplitJoin` shows the pieces come back out |
| Strs.IndexOf | main.go:106 | `slices.Index`: -1 exactly when the element is absent; otherwise the position of its first occurrence |
| Strs.SplitJoin | main.go:190 | splitting a newline-joined list of newline-free lines gives the lines back |
| FilePath.ExtScan | main.go:86 | the backward scan of `filepath.Ext` returns a suffix of the path that, when non-empty, starts at a '.' at or before the scan position |
| FilePath.ExtScanShape | main.go:86 | the scan stops at the last '.' of the final path element: there is no '.' or '/' after the extension's dot, and an empty result means every '.' the scan passed is followed by a '/' |
| FilePath.Ext | main.go:86 | the extension is a suffix of the name and, when non-empty, starts with '.' |
| FilePath.ExtShape | main.go:86 | the extension holds no '/' and no '.' after its first character; an empty extension means no '.' of the path lies in the last path element |
| FilePath.ExtOfAppended | main.go:86 | appending ".ext" (one dot, no '/') to any name makes ".ext" its extension |
| FilePath.ExtWithoutDot | main.go:86 | a name without a '.' has the empty extension |
| FilePath.ExtStartsAtLastDot | main.go:86 | in a name without '/', the extension is the suffix from the last '.' |
| Discovery.Stem | main.go:58-60 | stem round trip: `filenameFromBasename(n) + Ext(n) == n` for every name |
| Discovery.StemOfMediaName | main.go:58-60 | `stem + ext` with a media extension splits back into exactly that stem and extension |
| Discovery.Eligible | main.go:82-89 | the filter: entries that are not directories (symlinks and other non-directory entries pass, as `IsDir` lets them), with a media extension and no "[MERGED]" prefix; `Discovery.DiscoverKeepsOnlyEligible` and `Discovery.DiscoverKeepsEveryEligible` show that exactly the entries it accepts reach a group |
| Discovery.MediaContribution | main.go:81-97 | a non-directory entry `stem + ext` with a media extension and no "[MERGED]" prefix adds `ext` to the group of `stem` and nothing to any other group |
| Discovery.ExtsOfThree | main.go:81-97 | a three-entry listing groups as the three entries' contributions, in listing order |
| Discovery.Discover | main.go:80-98 | the grouping loop: a stem is a key exactly when some eligible entry has it, and its value is the extensions of those entries in listing order |
| Discovery.DiscoverDeterminedByGroups | main.go:80-98 | the map is fully determined by the per-stem groups, with no other keys |
| Discovery.ExtsOfProvenance | main.go:81-97 | every extension in a group comes from an eligible listing entry with that stem and extension |
| Discovery.DiscoverKeepsOnlyEligible | main.go:81-89 | every extension in a discovered group is a media extension, and `stem + ext` is the name of an eligible entry (no directory, no "[MERGED]" name) |
| Discovery.ExtsOfKeepsEveryEligible | main.go:81-97 | every eligible entry's extension is recorded in its stem's group |
| Discovery.DiscoverKeepsEveryEligible | main.go:81-97 | the same for the discovered map: the stem is a key and its value holds the extension |
| Discovery.ExtsOfNoDuplicates | main.go:81-97 | distinct names never give a group a duplicate extension |
| Discovery.DiscoverNoDuplicates | main.go:81-97 | the same for the groups of the discovered map |
| Discovery.ExtsOfSorted | main.go:75-97 | a listing sorted by name gives strictly increasing groups |
| Strs.Less | main.go:75 | Go's string `<`, the order `os.ReadDir` sorts entries by; `Strs.LessCommonPrefix` and `Discovery.Mp3IsLeast` are what `Resolver.SortedListingResolves` uses of it |
| Strs.LessCommonPrefix | main.go:75 | a shared prefix does not change the order: `p + x < p + y` exactly when `x < y`, so names with one stem sort by extension |
| Discovery.Mp3IsLeast | main.go:22 | ".mp3" is the least media extension in byte order |
| Discovery.SortedListingPutsMp3First | main.go:75-97 | with a sorted listing, ".mp3" is first in every group that holds it |
| Resolver.Qualifies | main.go:101 | the keep condition, ".mp3" present and two or more extensions; `Resolver.ResolveGroup` drops a group exactly when it fails, and `MergeAudVid.PlanKeepsExactlyPairableStems` shows the plan keeps exactly the stems it accepts |
| Resolver.ResolveGroup | main.go:101-107 | a group is dropped exactly when it lacks ".mp3" or has fewer than two entries; it is out of range (negative index) exactly when it qualifies but ".mp3" is not among its first two; otherwise it becomes `[video, ".mp3"]` with `video` one of its first two entries |
| Resolver.ResolveGroupVideoNotMp3 | main.go:105-106 | in a duplicate-free group the chosen video is never ".mp3" |
| Resolver.ResolveGroupPermutesPair | main.go:101-107 | a two-extension group holding ".mp3" is resolved to a reordering of itself (same multiset) |
| Resolver.Resolve | main.go:100-108 | the loop fails exactly when some qualifying group is out of range, naming only such stems; on success the keys are exactly the qualifying stems (none added) and each value is `[video, ".mp3"]` taken from the group's first two entries |
| Resolver.ResolveDeterminedByGroups | main.go:100-108 | the resolved map is fixed by the per-group outcomes |
| Resolver.Jobs | main.go:121-129 | one job per resolved stem, no other |
| Resolver.JobPathsSplit | main.go:129 | a job's video and audio paths split back into the stem and the resolved video and audio extensions |
| Resolver.ResolveGroupPair | main.go:105-107 | `[v, ".mp3"]` and `[".mp3", v]` both resolve to `[v, ".mp3"]` |
| Resolver.ResolvePairOrder | main.go:100-108 | the same inside the whole loop |
| Resolver.Plan | main.go:80-129 | planning never invents a stem: on success every job's stem was discovered, and on failure the offending stems are non-empty and discovered; `Resolver.PlanFailsIff`, `MergeAudVid.PlanKeepsExactlyPairableStems` and `Resolver.PlanUsesListedFiles` characterise it further |
| Resolver.PairAssignment | main.go:105-107 | when planning succeeds (which `SortedListingResolves` guarantees for `os.ReadDir` order), a stem whose group is a two-file pair, in either listing order, gets the task video `stem + v` and audio `stem + ".mp3"` (the paths built at line 129) |
| Resolver.SortedListingResolves | main.go:75-108 | with a name-sorted listing, as `os.ReadDir` returns, the resolver never indexes out of range |
| Resolver.PlanUsesListedFiles | main.go:80-129 | both paths of every job are names of eligible listing entries; the audio path ends in ".mp3" |
| Resolver.UnsortedGroup | main.go:81-97 | the listing `s.mp4, s.webm, s.mp3`, in that order, groups as `[".mp4", ".webm", ".mp3"]` |
| Resolver.PlanFailsIff | main.go:100-108 | planning fails exactly when some stem's group qualifies with ".mp3" outside its first two positions |
| Resolver.UnsortedListingPanics | main.go:106 | on `s.mp4, s.webm, s.mp3`, for any stem `s` whose names are not merge output, the group resolves to `OutOfRange(-1)` (index `1 - 2`) and planning fails |
| MergeTask.OutputName | main.go:26 | the output name starts with "[MERGED]", so a later discovery skips it |
| MergeTask.OutputKeepsExt | main.go:26 | the output name keeps the video's media extension |
| MergeTask.MergeArgs | main.go:26-36 | a command exactly for ".mp4" and ".webm" videos; otherwise exactly the unrecognized-extension error naming the extension and path; the command is `-i v -i a`, then `-c copy` (".mp4") or `-c:v copy -c:a libvorbis` (".webm"), then the output name |
| MergeTask.Removable | main.go:49 | the success condition of `os.Remove`: the file exists and its removal is not refused; `MergeTask.RemoveInOrder` and `MergeTask.RemovedEachOnce` state its use |
| MergeTask.RemoveInOrder | main.go:48-55 | removals are attempted in order and stop at the first refused one; the files left are exactly the files not removed |
| MergeTask.RemovedEachOnce | main.go:48-55 | every removed path was removable when the loop started, and no path is removed twice |
| MergeTask.RemovePair | main.go:48-55 | the loop on `[video, audio]`, step by step: a refused video stops it with nothing removed; a refused audio leaves only the video removed; otherwise both are removed |
| MergeTask.Merge | main.go:28-55 | at most one error; no command means the extension error with no removals; a failed command means no removals; after success the video is attempted before the audio, the audio removal is always attempted once the video is removable, and a failed video removal leaves the audio untouched; no error exactly when the command and both removals succeed, after which both sources are gone; a refused audio removal reports `RemoveFailed(audio)` with only the video gone; the command run is exactly the `MergeArgs` vector |
| Concat.Directive | main.go:187 | the `Sprintf` line for one input holds a newline exactly when the path does, so it is one manifest line exactly for newline-free paths; `Concat.ParseDirectiveInverts` reads the path back |
| Concat.ParseDirective | main.go:187 | a parsed line is exactly the directive for the path it yields |
| Concat.ParseDirectiveInverts | main.go:187 | each directive parses back to its path |
| Concat.Directives | main.go:185-188 | one directive per input |
| Concat.Manifest | main.go:184-191 | empty exactly for no inputs; otherwise it ends with the closing quote, so there is no trailing newline |
| Concat.ManifestShape | main.go:184-191 | the same statement about the join |
| Concat.ParseDirectivesInverts | main.go:184-191 | reading the directives back gives the inputs in order |
| Concat.ManifestLines | main.go:190 | for newline-free paths, splitting the manifest at newlines gives exactly the directives, one per input, in input order |
| Concat.ManifestRoundTrip | main.go:184-191 | for newline-free paths, parsing the manifest gives back the input list |
| Concat.CheckInputs | main.go:194-200 | a usage error exactly when fewer than two inputs; "no videos" exactly for zero |
| Concat.ConcatArgs | main.go:223 | exactly `-f concat -safe 0 -i <manifest> "concat - "+files[0]` |
| Concat.ConcatVideos | main.go:193-233 | a usage error exactly when fewer than two inputs, before any manifest is created; the manifest written is `Manifest(files)`; ffmpeg is run with `ConcatArgs("list.txt", files)` exactly when create and write succeed; a failed create reports `CreateFailed` with nothing created or written, a failed write reports `WriteFailed` with the file created but nothing written, and a failed ffmpeg run reports `ToolFailed`, in the order of lines 202-204, 218-221 and 229-231; no error exactly when all three steps succeed |
| MergeAudVid.ResolvedVideoIsRecognized | main.go:105-107 | in a duplicate-free group of media extensions the resolved video is ".mp4" or ".webm" |
| MergeAudVid.PlannedJobsAreRecognized | main.go:129 | on a listing with distinct names, no planned job hits the unrecognized-extension error |
| MergeAudVid.PlanKeepsExactlyPairableStems | main.go:100-104 | the plan keeps exactly the discovered stems whose group holds ".mp3" and at least two extensions |
| MergeAudVid.PairListingGroups | main.go:81-97 | `s.mp3, s.mp4, o.mp4` groups as `s: [".mp3", ".mp4"]`, `o: [".mp4"]` |
| MergeAudVid.PairListingDiscovery | main.go:80-98 | the same as the discovered map, with no other keys |
| MergeAudVid.PairListingResolution | main.go:100-108 | that map resolves to `s: [".mp4", ".mp3"]`, and the lone video `o` is dropped |
| MergeAudVid.PairJobs | main.go:129 | the resolved pair gives the job `s.mp4` with `s.mp3` |
| MergeAudVid.PairListingPlan | main.go:80-129 | `s.mp3, s.mp4, o.mp4` plans exactly one job: `s.mp4` with `s.mp3` |
| MergeAudVid.WebmPairMerge | main.go:25-55 | `s.webm` with `s.mp3` uses the ".webm" arguments and removes both files, video first, leaving neither |

## Left out

- The goroutine scheduling in merge mode (main.go lines 110-133) is not modelled: the `newBucket` permit channel, the `sync.WaitGroup`, the `errs` channel and its logging goroutine. Each merge task is modelled on its own, and tasks touch disjoint files. `runtime.NumCPU() / 2` is 0 on a one-CPU machine, and then, with at least one job, the main goroutine blocks at line 122 while the collector (line 116) blocks on `errs`, so the Go runtime aborts with its "all goroutines are asleep" deadlock error; with no jobs that loop never runs. That is noted here, not proved.
- Go map iteration order is random. The model returns the whole resolved map, or the set of stems whose index is out of range, instead of one visit order.
- `os.Getwd`, `os.ReadDir`, `os.Remove`, `os.Create`, the manifest write and `exec.CommandContext` are not modelled as real calls. The listing is an input. Removal is decided by a set of refused names. The other calls are booleans saying whether they succeed.
- ffmpeg's effect is not modelled: the merged output file is not added to the modelled file set, and stderr capture is left out.
- The deferred close/remove of the manifest in `concatVideos` (lines 206-216) is left out, and so is the unused `tmpFile` helper (lines 136-182). Both are file-system cleanup with no decision in them.
- `log` output, the text of error messages, `context` handling and the `main` wiring are left out (`main` calls only `concatVideos`; the `mergeAudVid` call at line 240 is commented out). Errors are datatype values. `UnrecognizedExtension` and `RemoveFailed` carry the extension and path their messages print. `CommandFailed` carries the pair's two paths instead of the exec error and captured stderr that line 43 prints, since neither is modelled.
- `log.Fatal` for zero or one concat input ends the process. The model returns `Usage(NoVideos)` or `Usage(OneVideo)` instead.
- Discovery.ExtsOfSorted: string order is compared as code points, which equals Go's byte order for UTF-8.
- Concat.ManifestRoundTrip: holds only for paths without a newline; a path containing one would split into extra manifest lines.
- The discovery model assumes a listing of base names, as `os.ReadDir` returns. `Ext` still models the stop at '/' for completeness.
