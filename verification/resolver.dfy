/** The pair resolver: the second loop of `mergeAudVid` (main.go), which keeps
    the stems whose group can form an audio/video pair and rewrites each kept
    group to `[videoExt, ".mp3"]`, and the task arguments built from the
    rewritten groups. */
module Resolver {
  import opened Wrappers
  import opened Strs
  import opened FilePath
  import opened Discovery

  /** What the loop body does with one group. */
  datatype Resolution =
    | Dropped                        // deleted from the map
    | Resolved(exts: seq<string>)    // rewritten to [videoExt, ".mp3"]
    | OutOfRange(index: int)         // `exts[index]` with a negative index: a run-time panic

  /** The loop's keep condition: ".mp3" is present and there are two or more
      extensions. */
  predicate Qualifies(exts: seq<string>) {
    Mp3 in exts && |exts| >= 2
  }

  /** One iteration of the resolver loop, on the group `exts`. The video
      extension is read at `1 - Index(exts, ".mp3")`, which is in range only
      when ".mp3" is one of the first two extensions. */
  function ResolveGroup(exts: seq<string>): (r: Resolution)
    ensures r.Dropped? <==> !Qualifies(exts)
    ensures r.OutOfRange? <==> Qualifies(exts) && Mp3 !in exts[..2]
    ensures r.OutOfRange? ==> r.index < 0
    ensures r.Resolved? ==> |r.exts| == 2 && r.exts[1] == Mp3 && r.exts[0] in exts[..2]
  {
    if !Qualifies(exts) then Dropped
    else
      var at := IndexOf(exts, Mp3);
      assert Mp3 in exts[..2] <==> at < 2 by {
        if at >= 2 { assert exts[..2] <= exts[..at]; }
      }
      var video := 1 - at;
      if video < 0 then OutOfRange(video)
      else Resolved([exts[video], Mp3])
  }

  /** In a group without duplicates the chosen video is never ".mp3". */
  lemma ResolveGroupVideoNotMp3(exts: seq<string>)
    requires NoDuplicates(exts)
    ensures ResolveGroup(exts).Resolved? ==> ResolveGroup(exts).exts[0] != Mp3
  {
    if ResolveGroup(exts).Resolved? {
      var at := IndexOf(exts, Mp3);
      assert ResolveGroup(exts).exts[0] == exts[1 - at];
    }
  }

  /** A two-extension group holding ".mp3" is resolved to a reordering of
      itself: nothing is lost or invented. */
  lemma ResolveGroupPermutesPair(exts: seq<string>)
    requires |exts| == 2 && Mp3 in exts
    ensures ResolveGroup(exts).Resolved? && multiset(ResolveGroup(exts).exts) == multiset(exts)
  {
    var at := IndexOf(exts, Mp3);
    assert exts == [exts[at], exts[1 - at]] || exts == [exts[1 - at], exts[at]];
  }

  /** The resolver's failure: the stems whose group makes the loop panic.
      Go visits every key, and no such key is deleted before its visit, so
      the panic happens whenever this set is non-empty. */
  datatype ResolveError = IndexOutOfRange(stems: set<string>)

  /** The whole resolver loop over the candidate groups. */
  function Resolve(groups: Groups): (r: Result<Groups, ResolveError>)
    ensures r.Failure? <==> exists stem :: stem in groups && Qualifies(groups[stem]) && Mp3 !in groups[stem][..2]
    ensures r.Failure? ==> r.error.stems != {} && forall stem :: stem in r.error.stems ==> stem in groups && Qualifies(groups[stem]) && Mp3 !in groups[stem][..2]
    ensures r.Success? ==> forall stem :: stem in r.value <==> stem in groups && Qualifies(groups[stem])
    ensures r.Success? ==> forall stem :: stem in r.value ==>
              |r.value[stem]| == 2 && r.value[stem][1] == Mp3 && r.value[stem][0] in groups[stem][..2]
    ensures r.Success? ==> forall stem :: stem in r.value ==> ResolveGroup(groups[stem]) == Resolved(r.value[stem])
  {
    var bad := set stem | stem in groups && ResolveGroup(groups[stem]).OutOfRange?;
    if bad != {} then Failure(IndexOutOfRange(bad))
    else
      assert forall stem :: stem in groups ==> (ResolveGroup(groups[stem]).OutOfRange? ==> stem in bad);
      Success(map stem | stem in groups && ResolveGroup(groups[stem]).Resolved? :: ResolveGroup(groups[stem]).exts)
  }

  /** The resolved map is fixed by what ResolveGroup does with each group. */
  lemma ResolveDeterminedByGroups(groups: Groups, expected: Groups)
    requires expected.Keys <= groups.Keys
    requires forall stem :: stem in groups ==>
               ResolveGroup(groups[stem]) == if stem in expected then Resolved(expected[stem]) else Dropped
    ensures Resolve(groups) == Success(expected)
  {
    forall stem | stem in groups
      ensures !(Qualifies(groups[stem]) && Mp3 !in groups[stem][..2])
    {
      assert !ResolveGroup(groups[stem]).OutOfRange?;
    }
    var resolved := Resolve(groups).value;
    forall stem | stem in groups
      ensures stem in resolved <==> stem in expected
      ensures stem in resolved ==> resolved[stem] == expected[stem]
    {
      var r := ResolveGroup(groups[stem]);
      if stem in expected {
        assert r == Resolved(expected[stem]) && Qualifies(groups[stem]);
      } else {
        assert r == Dropped && !Qualifies(groups[stem]);
      }
    }
    assert resolved.Keys == expected.Keys;
    assert resolved == expected;
  }

  /** The two paths one merge task receives. */
  datatype MergeJob = MergeJob(videoPath: string, audioPath: string)

  /** Line 129: the task for each resolved stem gets stem + exts[0] as the
      video path and stem + exts[1] as the audio path. */
  function Jobs(resolved: Groups): (jobs: map<string, MergeJob>)
    requires forall stem :: stem in resolved ==> |resolved[stem]| >= 2
    ensures jobs.Keys == resolved.Keys
  {
    map stem | stem in resolved :: MergeJob(stem + resolved[stem][0], stem + resolved[stem][1])
  }

  /** A job's paths split back into its stem and the resolved extensions. */
  lemma JobPathsSplit(resolved: Groups, stem: string)
    requires forall stem :: stem in resolved ==> |resolved[stem]| >= 2
    requires stem in resolved && resolved[stem][0] in MediaExts && resolved[stem][1] in MediaExts
    ensures Stem(Jobs(resolved)[stem].videoPath) == stem && Ext(Jobs(resolved)[stem].videoPath) == resolved[stem][0]
    ensures Stem(Jobs(resolved)[stem].audioPath) == stem && Ext(Jobs(resolved)[stem].audioPath) == resolved[stem][1]
  {
    StemOfMediaName(stem, resolved[stem][0]);
    StemOfMediaName(stem, resolved[stem][1]);
  }

  /** Discovery, resolution and task construction together: the merge jobs
      for one directory listing, or the panic. */
  function Plan(entries: seq<DirEntry>): (r: Result<map<string, MergeJob>, ResolveError>)
    ensures r.Success? ==> r.value.Keys <= Discover(entries).Keys
    ensures r.Failure? ==> r.error.stems != {} && r.error.stems <= Discover(entries).Keys
  {
    match Resolve(Discover(entries))
    case Failure(e) => Failure(e)
    case Success(resolved) => Success(Jobs(resolved))
  }

  /** A group of exactly one video and one audio extension resolves to
      [video, ".mp3"], whichever order the listing gave them. */
  lemma ResolveGroupPair(g: seq<string>, video: string)
    requires g == [video, Mp3] || g == [Mp3, video]
    requires video != Mp3
    ensures ResolveGroup(g) == Resolved([video, Mp3])
  {
    assert g[..2] == g;
    if g == [video, Mp3] {
      assert IndexOf(g, Mp3) == 1;
    } else {
      assert IndexOf(g, Mp3) == 0;
    }
  }

  /** The same, inside the whole resolver loop. */
  lemma ResolvePairOrder(groups: Groups, stem: string, video: string)
    requires stem in groups
    requires groups[stem] == [video, Mp3] || groups[stem] == [Mp3, video]
    requires video != Mp3
    requires Resolve(groups).Success?
    ensures stem in Resolve(groups).value
    ensures Resolve(groups).value[stem] == [video, Mp3]
  {
    ResolveGroupPair(groups[stem], video);
    assert Qualifies(groups[stem]);
  }

  /** The task for such a group gets stem + video as its video path and
      stem + ".mp3" as its audio path. */
  lemma PairAssignment(entries: seq<DirEntry>, stem: string, video: string)
    requires ExtsOf(entries, stem) == [video, Mp3] || ExtsOf(entries, stem) == [Mp3, video]
    requires video != Mp3
    ensures Plan(entries).Success? ==>
              stem in Plan(entries).value && Plan(entries).value[stem] == MergeJob(stem + video, stem + Mp3)
  {
    var groups := Discover(entries);
    assert stem in groups;
    if Plan(entries).Success? {
      ResolvePairOrder(groups, stem, video);
    }
  }

  /** The panic cannot happen on a listing in `os.ReadDir` order: ".mp3"
      sorts before the other media extensions, so it is always first in its
      group. */
  lemma SortedListingResolves(entries: seq<DirEntry>)
    requires SortedByName(entries)
    ensures Plan(entries).Success?
  {
    var groups := Discover(entries);
    forall stem | stem in groups && Qualifies(groups[stem])
      ensures Mp3 in groups[stem][..2]
    {
      SortedListingPutsMp3First(entries, stem);
      assert groups[stem][..2][0] == Mp3;
    }
  }

  /** Every job's two paths are names of eligible entries of the listing, and
      the audio path is a ".mp3" file. */
  lemma PlanUsesListedFiles(entries: seq<DirEntry>, stem: string)
    ensures Plan(entries).Success? && stem in Plan(entries).value ==>
              (exists i :: 0 <= i < |entries| && Eligible(entries[i])
                           && entries[i].name == Plan(entries).value[stem].videoPath)
              && (exists i :: 0 <= i < |entries| && Eligible(entries[i])
                              && entries[i].name == Plan(entries).value[stem].audioPath)
              && Ext(Plan(entries).value[stem].audioPath) == Mp3
  {
    if Plan(entries).Success? && stem in Plan(entries).value {
      var groups := Discover(entries);
      var resolved := Resolve(groups).value;
      var g := groups[stem];
      var r := resolved[stem];
      assert r[0] in g[..2];
      var kv :| 0 <= kv < 2 && g[kv] == r[0];
      DiscoverKeepsOnlyEligible(entries, stem, kv);
      var ka := IndexOf(g, Mp3);
      DiscoverKeepsOnlyEligible(entries, stem, ka);
      StemOfMediaName(stem, Mp3);
    }
  }

  /** A listing out of `os.ReadDir` order: ".mp3" last in a full group. */
  function UnsortedListing(stem: string): seq<DirEntry> {
    [DirEntry(stem + Mp4, false), DirEntry(stem + Webm, false), DirEntry(stem + Mp3, false)]
  }

  /** Its names are media names, none of them merge output. */
  predicate UnsortedNamesEligible(stem: string) {
    && !HasPrefix(stem + Mp4, MergedFilePrefix)
    && !HasPrefix(stem + Webm, MergedFilePrefix)
    && !HasPrefix(stem + Mp3, MergedFilePrefix)
  }

  lemma UnsortedGroup(stem: string)
    requires UnsortedNamesEligible(stem)
    ensures ExtsOf(UnsortedListing(stem), stem) == [Mp4, Webm, Mp3]
  {
    MediaContribution(stem, Mp4, stem);
    MediaContribution(stem, Webm, stem);
    MediaContribution(stem, Mp3, stem);
    ExtsOfThree(DirEntry(stem + Mp4, false), DirEntry(stem + Webm, false), DirEntry(stem + Mp3, false), stem);
  }

  /** The plan fails exactly when some stem's reference group qualifies but
      has ".mp3" beyond its first two extensions. */
  lemma PlanFailsIff(entries: seq<DirEntry>)
    ensures Plan(entries).Failure? <==>
              exists stem :: Qualifies(ExtsOf(entries, stem)) && Mp3 !in ExtsOf(entries, stem)[..2]
  {
    var groups := Discover(entries);
    assert Plan(entries).Failure? <==> Resolve(groups).Failure?;
    if Resolve(groups).Failure? {
      var stem :| stem in groups && Qualifies(groups[stem]) && Mp3 !in groups[stem][..2];
      assert groups[stem] == ExtsOf(entries, stem);
    }
    if exists stem :: Qualifies(ExtsOf(entries, stem)) && Mp3 !in ExtsOf(entries, stem)[..2] {
      var stem :| Qualifies(ExtsOf(entries, stem)) && Mp3 !in ExtsOf(entries, stem)[..2];
      assert stem in groups && groups[stem] == ExtsOf(entries, stem);
      assert Resolve(groups).Failure?;
    }
  }

  /** On that listing the resolver indexes position 1 - 2 = -1: the loop
      panics. */
  lemma UnsortedListingPanics(stem: string)
    requires UnsortedNamesEligible(stem)
    ensures ResolveGroup(ExtsOf(UnsortedListing(stem), stem)) == OutOfRange(-1)
    ensures Plan(UnsortedListing(stem)).Failure?
  {
    UnsortedGroup(stem);
    assert IndexOf([Mp4, Webm, Mp3], Mp3) == 2;
    var g := ExtsOf(UnsortedListing(stem), stem);
    assert g[..2] == [Mp4, Webm];
    assert Mp3 in g && Mp3 !in g[..2];
    PlanFailsIff(UnsortedListing(stem));
  }
}
