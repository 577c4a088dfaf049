/** Discovery: turning one directory listing into candidate groups, a map
    from each file stem to the media extensions seen for it, in listing
    order (main.go, `filenameFromBasename` and the first loop of
    `mergeAudVid`). */
module Discovery {
  import opened Strs
  import opened FilePath

  /** Names starting with this marker are earlier merge output. */
  const MergedFilePrefix: string := "[MERGED]"

  const Mp3: string := ".mp3"
  const Mp4: string := ".mp4"
  const Webm: string := ".webm"

  /** The allow-list of media extensions. */
  const MediaExts: seq<string> := [Mp3, Mp4, Webm]

  /** One directory entry: its base name and whether it is a directory. */
  datatype DirEntry = DirEntry(name: string, isDir: bool)

  /** Candidate groups: stem to the extensions seen for it. */
  type Groups = map<string, seq<string>>

  /** `filenameFromBasename`: the name without its extension. Putting the
      extension back gives the name again. */
  function Stem(basename: string): (stem: string)
    ensures stem + Ext(basename) == basename
  {
    TrimSuffix(basename, Ext(basename))
  }

  /** A stem followed by a media extension splits back into exactly those
      two parts. */
  lemma StemOfMediaName(stem: string, ext: string)
    requires ext in MediaExts
    ensures Ext(stem + ext) == ext
    ensures Stem(stem + ext) == stem
  {
    ExtOfAppended(stem, ext);
  }

  /** The entries discovery keeps: non-directories with a media extension that
      are not earlier merge output. */
  predicate Eligible(entry: DirEntry) {
    && !entry.isDir
    && Ext(entry.name) in MediaExts
    && !HasPrefix(entry.name, MergedFilePrefix)
  }

  /** What one listing entry adds to the group of `stem`: its extension
      when it is eligible and has that stem, nothing otherwise. */
  function Contribution(entry: DirEntry, stem: string): seq<string> {
    if Eligible(entry) && Stem(entry.name) == stem then [Ext(entry.name)] else []
  }

  /** Reference grouping, one stem at a time: the extensions of the eligible
      entries with stem `stem`, in listing order. */
  ghost function ExtsOf(entries: seq<DirEntry>, stem: string): seq<string> {
    if |entries| == 0 then []
    else ExtsOf(entries[..|entries| - 1], stem) + Contribution(entries[|entries| - 1], stem)
  }

  /** A non-directory entry named `stem + ext`, with a media extension and not
      marked as merge output, adds `ext` to the group of `stem` and nothing
      to any other group. */
  lemma MediaContribution(stem: string, ext: string, s: string)
    requires ext in MediaExts && !HasPrefix(stem + ext, MergedFilePrefix)
    ensures Contribution(DirEntry(stem + ext, false), s) == if s == stem then [ext] else []
  {
    StemOfMediaName(stem, ext);
  }

  /** The groups of a three-entry listing. */
  lemma ExtsOfThree(a: DirEntry, b: DirEntry, c: DirEntry, stem: string)
    ensures ExtsOf([a, b, c], stem) == Contribution(a, stem) + Contribution(b, stem) + Contribution(c, stem)
  {
    var ca, cb, cc := Contribution(a, stem), Contribution(b, stem), Contribution(c, stem);
    assert [a, b, c][..2] == [a, b];
    assert [a, b][..1] == [a];
    assert [a][..0] == [];
    assert ExtsOf([a], stem) == ca;
    assert ExtsOf([a, b], stem) == ca + cb;
  }

  /** The discovery loop: one pass over the listing, appending the extension
      of every eligible entry under its stem. */
  function Discover(entries: seq<DirEntry>): (groups: Groups)
    ensures forall stem :: stem in groups <==> ExtsOf(entries, stem) != []
    ensures forall stem :: stem in groups ==> groups[stem] == ExtsOf(entries, stem)
  {
    if |entries| == 0 then map[]
    else
      var groups := Discover(entries[..|entries| - 1]);
      var entry := entries[|entries| - 1];
      if !Eligible(entry) then groups
      else
        var stem := Stem(entry.name);
        var exts := if stem in groups then groups[stem] else [];
        groups[stem := exts + [Ext(entry.name)]]
  }

  /** The entry at `i` is eligible and splits into `stem` and `ext`. */
  ghost predicate Source(entries: seq<DirEntry>, i: int, stem: string, ext: string) {
    && 0 <= i < |entries|
    && Eligible(entries[i])
    && Stem(entries[i].name) == stem
    && Ext(entries[i].name) == ext
  }

  /** Discovery is determined by the per-stem reference groups. */
  lemma DiscoverDeterminedByGroups(entries: seq<DirEntry>, expected: Groups)
    requires forall stem :: stem in expected ==> expected[stem] != []
    requires forall stem :: ExtsOf(entries, stem) == if stem in expected then expected[stem] else []
    ensures Discover(entries) == expected
  {
    var groups := Discover(entries);
    forall stem
      ensures stem in groups <==> stem in expected
      ensures stem in groups ==> groups[stem] == expected[stem]
    {
      assert ExtsOf(entries, stem) == if stem in expected then expected[stem] else [];
    }
    assert groups.Keys == expected.Keys;
  }

  /** Every extension in a stem's reference group comes from an eligible
      entry with that stem and that extension. */
  lemma {:induction false} ExtsOfProvenance(entries: seq<DirEntry>, stem: string, k: int)
    requires 0 <= k < |ExtsOf(entries, stem)|
    ensures exists i :: Source(entries, i, stem, ExtsOf(entries, stem)[k])
    decreases |entries|
  {
    var n := |entries|;
    var init := entries[..n - 1];
    if k < |ExtsOf(init, stem)| {
      ExtsOfProvenance(init, stem, k);
      var i :| Source(init, i, stem, ExtsOf(init, stem)[k]);
      assert entries[i] == init[i];
      assert Source(entries, i, stem, ExtsOf(entries, stem)[k]);
    } else {
      assert Source(entries, n - 1, stem, ExtsOf(entries, stem)[k]);
    }
  }

  /** Discovery keeps only eligible entries: each grouped extension is a
      media extension and comes from a non-directory, not yet merged entry named
      stem + extension. */
  lemma DiscoverKeepsOnlyEligible(entries: seq<DirEntry>, stem: string, k: int)
    requires stem in Discover(entries) && 0 <= k < |Discover(entries)[stem]|
    ensures Discover(entries)[stem][k] in MediaExts
    ensures exists i :: 0 <= i < |entries| && Eligible(entries[i])
                        && entries[i].name == stem + Discover(entries)[stem][k]
  {
    ExtsOfProvenance(entries, stem, k);
    var i :| Source(entries, i, stem, ExtsOf(entries, stem)[k]);
    assert entries[i].name == Stem(entries[i].name) + Ext(entries[i].name);
  }

  /** Grouping loses nothing: every eligible entry's extension appears in
      the group of its stem. */
  lemma {:induction false} ExtsOfKeepsEveryEligible(entries: seq<DirEntry>, i: int)
    requires 0 <= i < |entries| && Eligible(entries[i])
    ensures Ext(entries[i].name) in ExtsOf(entries, Stem(entries[i].name))
    decreases |entries|
  {
    var n := |entries|;
    var stem := Stem(entries[i].name);
    var prev := ExtsOf(entries[..n - 1], stem);
    var tail := Contribution(entries[n - 1], stem);
    assert ExtsOf(entries, stem) == prev + tail;
    if i < n - 1 {
      assert entries[..n - 1][i] == entries[i];
      ExtsOfKeepsEveryEligible(entries[..n - 1], i);
    }
  }

  /** The same for the discovered map. */
  lemma DiscoverKeepsEveryEligible(entries: seq<DirEntry>, i: int)
    requires 0 <= i < |entries| && Eligible(entries[i])
    ensures Stem(entries[i].name) in Discover(entries)
    ensures Ext(entries[i].name) in Discover(entries)[Stem(entries[i].name)]
  {
    ExtsOfKeepsEveryEligible(entries, i);
  }

  /** No two entries of the listing share a name (true of any directory). */
  ghost predicate DistinctNames(entries: seq<DirEntry>) {
    forall i, j :: 0 <= i < j < |entries| ==> entries[i].name != entries[j].name
  }

  /** The extensions of a sequence are pairwise distinct. */
  predicate NoDuplicates(exts: seq<string>) {
    forall i, j :: 0 <= i < j < |exts| ==> exts[i] != exts[j]
  }

  /** Distinct names never put the same extension twice into a group. */
  lemma {:induction false} ExtsOfNoDuplicates(entries: seq<DirEntry>, stem: string)
    requires DistinctNames(entries)
    ensures NoDuplicates(ExtsOf(entries, stem))
    decreases |entries|
  {
    var n := |entries|;
    if n > 0 {
      var init := entries[..n - 1];
      var last := entries[n - 1];
      ExtsOfNoDuplicates(init, stem);
      var prev := ExtsOf(init, stem);
      if Eligible(last) && Stem(last.name) == stem {
        forall k | 0 <= k < |prev|
          ensures prev[k] != Ext(last.name)
        {
          ExtsOfProvenance(init, stem, k);
          var i :| Source(init, i, stem, prev[k]);
          assert entries[i] == init[i];
          assert init[i].name == stem + prev[k];
          assert last.name == stem + Ext(last.name);
        }
      }
    }
  }

  /** Discovery over a directory listing gives no group a duplicate extension. */
  lemma DiscoverNoDuplicates(entries: seq<DirEntry>, stem: string)
    requires DistinctNames(entries) && stem in Discover(entries)
    ensures NoDuplicates(Discover(entries)[stem])
  {
    ExtsOfNoDuplicates(entries, stem);
  }

  /** The order `os.ReadDir` lists entries in: strictly increasing names. */
  ghost predicate SortedByName(entries: seq<DirEntry>) {
    forall i, j :: 0 <= i < j < |entries| ==> Less(entries[i].name, entries[j].name)
  }

  /** The extensions of a sequence are in strictly increasing order. */
  ghost predicate StrictlyIncreasing(exts: seq<string>) {
    forall i, j :: 0 <= i < j < |exts| ==> Less(exts[i], exts[j])
  }

  /** A sorted listing yields groups whose extensions are sorted too. */
  lemma {:induction false} ExtsOfSorted(entries: seq<DirEntry>, stem: string)
    requires SortedByName(entries)
    ensures StrictlyIncreasing(ExtsOf(entries, stem))
    decreases |entries|
  {
    var n := |entries|;
    if n > 0 {
      var init := entries[..n - 1];
      var last := entries[n - 1];
      ExtsOfSorted(init, stem);
      var prev := ExtsOf(init, stem);
      if Eligible(last) && Stem(last.name) == stem {
        forall k | 0 <= k < |prev|
          ensures Less(prev[k], Ext(last.name))
        {
          ExtsOfProvenance(init, stem, k);
          var i :| Source(init, i, stem, prev[k]);
          assert entries[i] == init[i];
          assert init[i].name == stem + prev[k];
          assert last.name == stem + Ext(last.name);
          LessCommonPrefix(stem, prev[k], Ext(last.name));
        }
      }
    }
  }

  /** No media extension sorts before ".mp3". */
  lemma Mp3IsLeast(ext: string)
    requires ext in MediaExts
    ensures !Less(ext, Mp3)
  {
    assert Mp3[1..] == "mp3" && Mp4[1..] == "mp4" && Webm[1..] == "webm";
    assert "mp3"[1..] == "p3" && "mp4"[1..] == "p4";
    assert "p3"[1..] == "3" && "p4"[1..] == "4";
  }

  /** In every group discovered from a sorted listing, ".mp3" (when present)
      comes first. */
  lemma SortedListingPutsMp3First(entries: seq<DirEntry>, stem: string)
    requires SortedByName(entries)
    requires stem in Discover(entries) && Mp3 in Discover(entries)[stem]
    ensures Discover(entries)[stem][0] == Mp3
  {
    var g := Discover(entries)[stem];
    ExtsOfSorted(entries, stem);
    DiscoverKeepsOnlyEligible(entries, stem, 0);
    var k :| 0 <= k < |g| && g[k] == Mp3;
    if k > 0 {
      assert Less(g[0], g[k]);
      Mp3IsLeast(g[0]);
      assert false;
    }
  }
}
