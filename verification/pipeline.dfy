/** Merge mode end to end (`mergeAudVid` in main.go without its goroutines):
    the jobs planned from one directory listing, and what the merge task
    does with them. */
module MergeAudVid {
  import opened Wrappers
  import opened Strs
  import opened Discovery
  import opened Resolver
  import opened MergeTask

  /** The job the plan builds for a kept stem, in terms of the resolved group. */
  lemma PlanJob(entries: seq<DirEntry>, stem: string)
    requires Plan(entries).Success? && stem in Plan(entries).value
    ensures Resolve(Discover(entries)).Success?
    ensures stem in Resolve(Discover(entries)).value
    ensures var exts := Resolve(Discover(entries)).value[stem];
            Plan(entries).value[stem] == MergeJob(stem + exts[0], stem + exts[1])
  {
  }

  /** A resolved group of distinct media extensions names a video
      extension the merge task recognizes. */
  lemma ResolvedVideoIsRecognized(g: seq<string>)
    requires NoDuplicates(g)
    requires forall k :: 0 <= k < |g| ==> g[k] in MediaExts
    ensures ResolveGroup(g).Resolved? ==> ResolveGroup(g).exts[0] == Mp4 || ResolveGroup(g).exts[0] == Webm
  {
    ResolveGroupVideoNotMp3(g);
    if ResolveGroup(g).Resolved? {
      assert ResolveGroup(g).exts[0] in g[..2];
    }
  }

  /** On a real directory (distinct names) every planned job's video has an
      extension the merge task recognizes, so the "unrecognized extension"
      error cannot come from a planned job. */
  lemma PlannedJobsAreRecognized(entries: seq<DirEntry>, stem: string)
    requires DistinctNames(entries)
    ensures Plan(entries).Success? && stem in Plan(entries).value ==>
              MergeArgs(Plan(entries).value[stem].videoPath, Plan(entries).value[stem].audioPath).Success?
  {
    if Plan(entries).Success? && stem in Plan(entries).value {
      PlanJob(entries, stem);
      var groups := Discover(entries);
      DiscoverNoDuplicates(entries, stem);
      forall k | 0 <= k < |groups[stem]|
        ensures groups[stem][k] in MediaExts
      {
        DiscoverKeepsOnlyEligible(entries, stem, k);
      }
      ResolvedVideoIsRecognized(groups[stem]);
      var video := Resolve(groups).value[stem][0];
      StemOfMediaName(stem, video);
    }
  }

  /** The stems the plan keeps are exactly those whose group has ".mp3" and
      at least one more extension: a stem with only an audio or only a video
      file never yields a job. */
  lemma PlanKeepsExactlyPairableStems(entries: seq<DirEntry>, stem: string)
    requires Plan(entries).Success?
    ensures stem in Plan(entries).value <==>
              stem in Discover(entries) && Mp3 in Discover(entries)[stem] && |Discover(entries)[stem]| >= 2
  {
  }

  /** A listing with one complete pair under `stem` and a lone video under
      `other`. */
  function PairListing(stem: string, other: string): seq<DirEntry> {
    [DirEntry(stem + Mp3, false), DirEntry(stem + Mp4, false), DirEntry(other + Mp4, false)]
  }

  /** Its names are media names, none of them merge output. */
  predicate PairNamesEligible(stem: string, other: string) {
    && !HasPrefix(stem + Mp3, MergedFilePrefix)
    && !HasPrefix(stem + Mp4, MergedFilePrefix)
    && !HasPrefix(other + Mp4, MergedFilePrefix)
  }

  lemma PairListingGroups(stem: string, other: string, s: string)
    requires stem != other && PairNamesEligible(stem, other)
    ensures ExtsOf(PairListing(stem, other), s)
         == if s == stem then [Mp3, Mp4] else if s == other then [Mp4] else []
  {
    MediaContribution(stem, Mp3, s);
    MediaContribution(stem, Mp4, s);
    MediaContribution(other, Mp4, s);
    ExtsOfThree(DirEntry(stem + Mp3, false), DirEntry(stem + Mp4, false), DirEntry(other + Mp4, false), s);
  }

  lemma PairListingDiscovery(stem: string, other: string)
    requires stem != other && PairNamesEligible(stem, other)
    ensures Discover(PairListing(stem, other)) == map[stem := [Mp3, Mp4], other := [Mp4]]
  {
    var expected := map[stem := [Mp3, Mp4], other := [Mp4]];
    forall s
      ensures ExtsOf(PairListing(stem, other), s) == if s in expected then expected[s] else []
    {
      PairListingGroups(stem, other, s);
    }
    DiscoverDeterminedByGroups(PairListing(stem, other), expected);
  }

  /** Resolution keeps the pair with its video first and drops the lone video. */
  lemma PairListingResolution(stem: string, other: string)
    requires stem != other
    ensures Resolve(map[stem := [Mp3, Mp4], other := [Mp4]]) == Success(map[stem := [Mp4, Mp3]])
  {
    var groups := map[stem := [Mp3, Mp4], other := [Mp4]];
    ResolveGroupPair(groups[stem], Mp4);
    assert ResolveGroup(groups[other]) == Dropped;
    ResolveDeterminedByGroups(groups, map[stem := [Mp4, Mp3]]);
  }

  /** The job built for a resolved pair. */
  lemma PairJobs(stem: string)
    ensures Jobs(map[stem := [Mp4, Mp3]]) == map[stem := MergeJob(stem + Mp4, stem + Mp3)]
  {
    var jobs := Jobs(map[stem := [Mp4, Mp3]]);
    assert jobs.Keys == {stem};
    assert jobs[stem] == MergeJob(stem + Mp4, stem + Mp3);
  }

  /** The pair's listing plans exactly one job: the `.mp4` video with the
      `.mp3` audio. The lone video yields nothing. */
  lemma PairListingPlan(stem: string, other: string)
    requires stem != other && PairNamesEligible(stem, other)
    ensures Plan(PairListing(stem, other)) == Success(map[stem := MergeJob(stem + Mp4, stem + Mp3)])
  {
    PairListingDiscovery(stem, other);
    PairListingResolution(stem, other);
    PairJobs(stem);
  }

  /** A ".webm" video with its ".mp3": the ".webm" argument form, and on
      success both files are removed, video first. */
  lemma WebmPairMerge(stem: string)
    ensures Merge(stem + Webm, stem + Mp3, true, {stem + Webm, stem + Mp3}, {})
         == MergeReport(Some(["-i", stem + Webm, "-i", stem + Mp3, "-c:v", "copy", "-c:a", "libvorbis",
                              MergedFilePrefix + " " + stem + Webm]),
                        [stem + Webm, stem + Mp3], None, {})
  {
    var video, audio := stem + Webm, stem + Mp3;
    StemOfMediaName(stem, Webm);
    assert OutputName(video) == MergedFilePrefix + " " + stem + Webm;
    assert MergeArgs(video, audio)
        == Success(["-i", video, "-i", audio, "-c:v", "copy", "-c:a", "libvorbis", OutputName(video)]);
    assert |video| != |audio|;
    var files: set<string> := {video, audio};
    assert RemoveInOrder([], {}, {}) == Removal([], None, {});
    assert [audio][1..] == [];
    assert RemoveInOrder([audio], {audio}, {}) == Removal([audio], None, {});
    assert files - {video} == {audio};
    assert [video, audio][1..] == [audio];
    assert RemoveInOrder([video, audio], files, {}) == Removal([video, audio], None, {});
  }
}
