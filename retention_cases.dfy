/**
 * The caches of pkg/tfs/cache_test.go, and which releases `AutoClean` and `PruneUntil`
 * remove from them: as the code orders keys, and as the tests expect.
 */
module RetentionCases {
  import opened Wrappers
  import opened Strings
  import opened Versions
  import Ordering
  import opened Releases
  import opened Retention
  import opened IntendedRetention

  /**
   * A release cached under `key`, as `Load` reads it back from the file `Install` wrote:
   * its version was read from the key (the directory and prefix play no part in retention).
   */
  function Cached(key: string, v: Version): Release {
    Release(v, key, "/cache", "terraform_" + key)
  }

  // ------------------------------------------------------------ 1.9.0, 1.10.0, 1.11.0

  const V190 := Version(1, 9, 0)
  const V1100 := Version(1, 10, 0)
  const V1110 := Version(1, 11, 0)

  /** The cache of TestCacheAutoClean_DefaultConfig and TestCachePruneUntil. */
  function Three(): map<string, Release> {
    map["1.9.0" := Cached("1.9.0", V190), "1.10.0" := Cached("1.10.0", V1100), "1.11.0" := Cached("1.11.0", V1110)]
  }

  lemma ThreeKeys()
    ensures Three().Keys == {"1.9.0", "1.10.0", "1.11.0"} && |Three()| == 3
  {
  }

  lemma ThreeSorted()
    ensures Ordering.Sorted(["1.10.0", "1.11.0", "1.9.0"], LexLess)
  {
    assert LexLess("1.10.0", "1.11.0") && LexLess("1.11.0", "1.9.0") && LexLess("1.10.0", "1.9.0");
  }

  /** As strings, "1.10.0" < "1.11.0" < "1.9.0". */
  lemma ThreeStringOrder()
    ensures StringOrder({"1.9.0", "1.10.0", "1.11.0"}) == ["1.10.0", "1.11.0", "1.9.0"]
  {
    var xs := ["1.10.0", "1.11.0", "1.9.0"];
    LexStrictTotalOrder();
    ThreeSorted();
    Ordering.ListingOfSorted(xs, {"1.9.0", "1.10.0", "1.11.0"}, LexLess);
  }

  /** As written: with history 2, the one release removed is 1.10.0, and 1.9.0 stays. */
  lemma DefaultConfigAsWritten()
    ensures Victims(Three(), None, 2, 0, 0) == {"1.10.0"}
  {
    ThreeKeys();
    ThreeStringOrder();
    var xs := ["1.10.0", "1.11.0", "1.9.0"];
    assert First(xs, 1) == {"1.10.0"} by {
      assert xs[0] in First(xs, 1);
    }
  }

  /** The removal keeps a release older than the one it removes. */
  lemma DefaultConfigKeepsOlder()
    ensures "1.9.0" in Three() && "1.9.0" !in Victims(Three(), None, 2, 0, 0)
    ensures "1.10.0" in Victims(Three(), None, 2, 0, 0) && Less(Three()["1.9.0"].version, Three()["1.10.0"].version)
  {
    DefaultConfigAsWritten();
  }

  lemma ThreeVersions()
    ensures VersionsIn(Three()) == {V190, V1100, V1110}
  {
    ThreeKeys();
    assert Three()["1.9.0"].version == V190;
    assert Three()["1.10.0"].version == V1100;
    assert Three()["1.11.0"].version == V1110;
  }

  lemma ThreeVersionOrder()
    ensures VersionOrder({V190, V1100, V1110}) == [V190, V1100, V1110]
  {
    var xs := [V190, V1100, V1110];
    LessStrictTotalOrder();
    assert Ordering.Sorted(xs, Less);
    Ordering.ListingOfSorted(xs, {V190, V1100, V1110}, Less);
  }

  /** As intended, and as TestCacheAutoClean_DefaultConfig expects: 1.9.0 is removed. */
  lemma DefaultConfigIntended()
    ensures OldestVictims(Three(), None, 2) == {"1.9.0"}
  {
    ThreeKeys();
    ThreeVersions();
    ThreeVersionOrder();
    var xs := [V190, V1100, V1110];
    assert First(xs, 1) == {V190} by {
      assert xs[0] in First(xs, 1);
    }
  }

  /** TestCachePruneUntil: before 1.10.0, only 1.9.0 goes. */
  lemma PruneUntilCase()
    ensures Older(Three(), V1100) == {"1.9.0"}
  {
    ThreeKeys();
  }

  // ------------------------------------------------------------ minor-line limit

  const V165 := Version(1, 6, 5)
  const V166 := Version(1, 6, 6)
  const V181 := Version(1, 8, 1)
  const V192 := Version(1, 9, 2)
  const V198 := Version(1, 9, 8)
  const V1101 := Version(1, 10, 1)
  const V1102 := Version(1, 10, 2)

  /** The cache of TestCacheAutoClean_MinorVersionLimit. */
  function Seven(): map<string, Release> {
    map["1.6.5" := Cached("1.6.5", V165), "1.6.6" := Cached("1.6.6", V166), "1.8.1" := Cached("1.8.1", V181),
        "1.9.2" := Cached("1.9.2", V192), "1.9.8" := Cached("1.9.8", V198),
        "1.10.1" := Cached("1.10.1", V1101), "1.10.2" := Cached("1.10.2", V1102)]
  }

  lemma SevenKeys()
    ensures Seven().Keys == {"1.6.5", "1.6.6", "1.8.1", "1.9.2", "1.9.8", "1.10.1", "1.10.2"}
  {
  }

  lemma SevenLines()
    ensures GroupKey(V165) == "1.6.0" && GroupKey(V166) == "1.6.0" && GroupKey(V181) == "1.8.0"
    ensures GroupKey(V192) == "1.9.0" && GroupKey(V198) == "1.9.0"
    ensures GroupKey(V1101) == "1.10.0" && GroupKey(V1102) == "1.10.0"
  {
    assert Decimal(10) == "10";
  }

  lemma SevenGroups()
    ensures Groups(Seven()) == {"1.6.0", "1.8.0", "1.9.0", "1.10.0"}
  {
    SevenKeys();
    SevenLines();
  }

  lemma GroupLex()
    ensures LexLess("1.10.0", "1.6.0") && LexLess("1.6.0", "1.8.0") && LexLess("1.8.0", "1.9.0")
    ensures LexLess("1.10.0", "1.8.0") && LexLess("1.10.0", "1.9.0") && LexLess("1.6.0", "1.9.0")
  {
  }

  lemma GroupSorted()
    ensures Ordering.Sorted(["1.10.0", "1.6.0", "1.8.0", "1.9.0"], LexLess)
  {
    GroupLex();
  }

  /** As strings, "1.10.0" comes first. */
  lemma GroupStringOrder()
    ensures StringOrder({"1.6.0", "1.8.0", "1.9.0", "1.10.0"}) == ["1.10.0", "1.6.0", "1.8.0", "1.9.0"]
  {
    var xs := ["1.10.0", "1.6.0", "1.8.0", "1.9.0"];
    LexStrictTotalOrder();
    GroupSorted();
    Ordering.ListingOfSorted(xs, {"1.6.0", "1.8.0", "1.9.0", "1.10.0"}, LexLess);
  }

  /** As written: the two lines dropped are 1.10 and 1.6. */
  lemma DroppedAsWritten()
    ensures DroppedGroups(Seven(), 2) == {"1.10.0", "1.6.0"}
  {
    SevenGroups();
    GroupStringOrder();
    var xs := ["1.10.0", "1.6.0", "1.8.0", "1.9.0"];
    assert First(xs, 2) == {"1.10.0", "1.6.0"} by {
      assert xs[0] in First(xs, 2) && xs[1] in First(xs, 2);
    }
  }

  /** No line has more versions than the patch limit, so nothing is trimmed. */
  lemma TrimmedNone(releases: map<string, Release>, g: string, patchLimit: nat)
    requires |GroupVersions(releases, g)| <= patchLimit
    ensures TrimmedVersions(releases, g, patchLimit) == {}
  {
  }

  lemma SevenLineVersions()
    ensures GroupVersions(Seven(), "1.6.0") == {V165, V166}
    ensures GroupVersions(Seven(), "1.8.0") == {V181}
    ensures GroupVersions(Seven(), "1.9.0") == {V192, V198}
    ensures GroupVersions(Seven(), "1.10.0") == {V1101, V1102}
  {
    SevenKeys();
    SevenLines();
  }

  lemma SevenTrimmedNone()
    ensures TrimmedVersions(Seven(), "1.6.0", 99) == {} && TrimmedVersions(Seven(), "1.8.0", 99) == {}
    ensures TrimmedVersions(Seven(), "1.9.0", 99) == {} && TrimmedVersions(Seven(), "1.10.0", 99) == {}
  {
    SevenLineVersions();
    TrimmedNone(Seven(), "1.6.0", 99);
    TrimmedNone(Seven(), "1.8.0", 99);
    TrimmedNone(Seven(), "1.9.0", 99);
    TrimmedNone(Seven(), "1.10.0", 99);
  }

  lemma SevenUntrimmed(lines: set<string>)
    requires lines <= {"1.6.0", "1.8.0", "1.9.0", "1.10.0"}
    ensures TrimVictims(Seven(), None, lines, 99) == {}
  {
    SevenTrimmedNone();
    SevenKeys();
    SevenLines();
  }

  lemma Remaining()
    ensures {"1.6.0", "1.8.0", "1.9.0", "1.10.0"} - {"1.10.0", "1.6.0"} == {"1.8.0", "1.9.0"}
    ensures {"1.6.0", "1.8.0", "1.9.0", "1.10.0"} - {"1.6.0", "1.8.0"} == {"1.9.0", "1.10.0"}
  {
  }

  lemma SevenDropped(lines: set<string>)
    ensures DropVictims(Seven(), None, lines)
      == (if "1.6.0" in lines then {"1.6.5", "1.6.6"} else {}) + (if "1.8.0" in lines then {"1.8.1"} else {})
       + (if "1.9.0" in lines then {"1.9.2", "1.9.8"} else {}) + (if "1.10.0" in lines then {"1.10.1", "1.10.2"} else {})
  {
    SevenKeys();
    SevenLines();
  }

  lemma MinorLimitParts()
    ensures GroupVictims(Seven(), None, 2, 99)
      == DropVictims(Seven(), None, {"1.10.0", "1.6.0"}) + TrimVictims(Seven(), None, {"1.8.0", "1.9.0"}, 99)
  {
    DroppedAsWritten();
    SevenGroups();
    Remaining();
    assert ZeroLine() !in {"1.10.0", "1.6.0"};
    TildeIsDrop(Seven(), None, {"1.10.0", "1.6.0"});
  }

  /** As written: 1.10.1 and 1.10.2 are removed with 1.6.5 and 1.6.6, and 1.8.1 stays. */
  lemma MinorLimitAsWritten()
    ensures Victims(Seven(), None, 0, 2, 99) == {"1.6.5", "1.6.6", "1.10.1", "1.10.2"}
  {
    assert Victims(Seven(), None, 0, 2, 99) == GroupVictims(Seven(), None, 2, 99);
    MinorLimitParts();
    DroppedReleasesAsWritten();
    SevenUntrimmed({"1.8.0", "1.9.0"});
  }

  lemma DroppedReleasesAsWritten()
    ensures DropVictims(Seven(), None, {"1.10.0", "1.6.0"}) == {"1.6.5", "1.6.6", "1.10.1", "1.10.2"}
  {
    var lines := {"1.10.0", "1.6.0"};
    assert "1.6.0" in lines && "1.8.0" !in lines && "1.9.0" !in lines && "1.10.0" in lines;
    SevenDropped(lines);
  }

  /** The removal keeps a release older than one it removes. */
  lemma MinorLimitKeepsOlder()
    ensures "1.8.1" in Seven() && "1.8.1" !in Victims(Seven(), None, 0, 2, 99)
    ensures "1.10.1" in Victims(Seven(), None, 0, 2, 99) && Less(Seven()["1.8.1"].version, Seven()["1.10.1"].version)
  {
    MinorLimitAsWritten();
    AsWrittenMembers();
    SevenLookups();
    assert Less(V181, V1101);
  }

  lemma SevenLookups()
    ensures "1.8.1" in Seven() && Seven()["1.8.1"].version == V181
    ensures "1.10.1" in Seven() && Seven()["1.10.1"].version == V1101
  {
  }

  lemma AsWrittenMembers()
    ensures "1.8.1" !in {"1.6.5", "1.6.6", "1.10.1", "1.10.2"} && "1.10.1" in {"1.6.5", "1.6.6", "1.10.1", "1.10.2"}
  {
    assert "1.8.1"[2] != "1.6.5"[2] && "1.8.1"[2] != "1.6.6"[2];
    assert |"1.8.1"| != |"1.10.1"| && |"1.8.1"| != |"1.10.2"|;
  }

  const L16 := Version(1, 6, 0)
  const L18 := Version(1, 8, 0)
  const L19 := Version(1, 9, 0)
  const L110 := Version(1, 10, 0)

  lemma SevenLinesIn()
    ensures LinesIn(Seven()) == {L16, L18, L19, L110}
  {
    SevenKeys();
  }

  lemma LineOrder()
    ensures VersionOrder({L16, L18, L19, L110}) == [L16, L18, L19, L110]
  {
    var xs := [L16, L18, L19, L110];
    LessStrictTotalOrder();
    assert Ordering.Sorted(xs, Less);
    Ordering.ListingOfSorted(xs, {L16, L18, L19, L110}, Less);
  }

  lemma OldestTwoLines()
    ensures var ls := VersionOrder(LinesIn(Seven())); First(ls, |ls| - 2) == {L16, L18}
  {
    SevenLinesIn();
    LineOrder();
    var xs := [L16, L18, L19, L110];
    assert xs[0] in First(xs, 2) && xs[1] in First(xs, 2);
  }

  /** As intended: the two oldest lines, 1.6 and 1.8, are dropped. */
  lemma DroppedIntended()
    ensures OldestLines(Seven(), 2) == {"1.6.0", "1.8.0"}
  {
    OldestTwoLines();
    assert ToString(L16) == "1.6.0" && ToString(L18) == "1.8.0";
  }

  lemma LineVictimsParts()
    ensures LineVictims(Seven(), None, 2, 99)
      == DropVictims(Seven(), None, {"1.6.0", "1.8.0"}) + TrimVictims(Seven(), None, {"1.9.0", "1.10.0"}, 99)
  {
    DroppedIntended();
    SevenGroups();
    Remaining();
  }

  /** As intended, and as TestCacheAutoClean_MinorVersionLimit expects: 1.6.5, 1.6.6 and 1.8.1 go. */
  lemma MinorLimitIntended()
    ensures LineVictims(Seven(), None, 2, 99) == {"1.6.5", "1.6.6", "1.8.1"}
  {
    LineVictimsParts();
    DroppedReleasesIntended();
    SevenUntrimmed({"1.9.0", "1.10.0"});
  }

  lemma DroppedReleasesIntended()
    ensures DropVictims(Seven(), None, {"1.6.0", "1.8.0"}) == {"1.6.5", "1.6.6", "1.8.1"}
  {
    var lines := {"1.6.0", "1.8.0"};
    assert "1.6.0" in lines && "1.8.0" in lines && "1.9.0" !in lines && "1.10.0" !in lines;
    SevenDropped(lines);
  }

  // ------------------------------------------------------------ patch limit

  const V1103 := Version(1, 10, 3)
  const V1104 := Version(1, 10, 4)

  /** The cache of TestCacheAutoClean_PatchVersionLimit. */
  function Five(): map<string, Release> {
    map["1.10.0" := Cached("1.10.0", V1100), "1.10.1" := Cached("1.10.1", V1101), "1.10.2" := Cached("1.10.2", V1102),
        "1.10.3" := Cached("1.10.3", V1103), "1.10.4" := Cached("1.10.4", V1104)]
  }

  lemma FiveLines()
    ensures Five().Keys == {"1.10.0", "1.10.1", "1.10.2", "1.10.3", "1.10.4"}
    ensures GroupKey(V1100) == "1.10.0" && GroupKey(V1101) == "1.10.0" && GroupKey(V1102) == "1.10.0"
    ensures GroupKey(V1103) == "1.10.0" && GroupKey(V1104) == "1.10.0"
  {
    assert Decimal(10) == "10";
  }

  lemma FiveGroups()
    ensures Groups(Five()) == {"1.10.0"}
    ensures GroupVersions(Five(), "1.10.0") == {V1100, V1101, V1102, V1103, V1104}
  {
    FiveLines();
  }

  lemma FiveSorted()
    ensures Ordering.Sorted([V1100, V1101, V1102, V1103, V1104], Less)
  {
  }

  lemma FiveOrder()
    ensures VersionOrder({V1100, V1101, V1102, V1103, V1104}) == [V1100, V1101, V1102, V1103, V1104]
  {
    LessStrictTotalOrder();
    FiveSorted();
    Ordering.ListingOfSorted([V1100, V1101, V1102, V1103, V1104], {V1100, V1101, V1102, V1103, V1104}, Less);
  }

  /** The newest two patches of 1.10 are kept. */
  lemma FiveTrimmed()
    ensures TrimmedVersions(Five(), "1.10.0", 2) == {V1100, V1101, V1102}
  {
    var xs := [V1100, V1101, V1102, V1103, V1104];
    FiveGroups();
    FiveOrder();
    assert xs[0] in First(xs, 3) && xs[1] in First(xs, 3) && xs[2] in First(xs, 3);
  }

  lemma FiveTrimVictims()
    ensures TrimVictims(Five(), None, {"1.10.0"}, 2) == {"1.10.0", "1.10.1", "1.10.2"}
  {
    FiveLines();
    FiveTrimmed();
    assert Five()["1.10.3"].version !in TrimmedVersions(Five(), "1.10.0", 2);
    assert Five()["1.10.4"].version !in TrimmedVersions(Five(), "1.10.0", 2);
  }

  lemma PatchLimitParts()
    ensures GroupVictims(Five(), None, 99, 2) == TrimVictims(Five(), None, {"1.10.0"}, 2)
  {
    FiveGroups();
    FirstNone(StringOrder({"1.10.0"}), 1 - 99);
  }

  /** TestCacheAutoClean_PatchVersionLimit: 1.10.0, 1.10.1 and 1.10.2 go; string and version order agree here. */
  lemma PatchLimitCase()
    ensures Victims(Five(), None, 0, 99, 2) == {"1.10.0", "1.10.1", "1.10.2"}
  {
    PatchLimitParts();
    FiveTrimVictims();
  }

  // ------------------------------------------------------------ the current release

  const V120 := Version(1, 2, 0)
  const V130 := Version(1, 3, 0)
  const V140 := Version(1, 4, 0)

  /** A cache holding 1.2.0, 1.3.0 and 1.4.0, as `Load` reads it back. */
  function Twelve(): map<string, Release> {
    map["1.2.0" := Cached("1.2.0", V120), "1.3.0" := Cached("1.3.0", V130), "1.4.0" := Cached("1.4.0", V140)]
  }

  /**
   * The current release after `required_version = "1.2"`: version 1.2.0 in the file of
   * 1.2.0, its version read from "1.2".
   */
  function ShortCurrent(): Release {
    Release(V120, "1.2", "/cache", "terraform_1.2.0")
  }

  lemma TwelveSorted()
    ensures Ordering.Sorted(["1.2.0", "1.3.0", "1.4.0"], LexLess)
  {
    assert LexLess("1.2.0", "1.3.0") && LexLess("1.3.0", "1.4.0") && LexLess("1.2.0", "1.4.0");
  }

  lemma TwelveStringOrder()
    ensures StringOrder({"1.2.0", "1.3.0", "1.4.0"}) == ["1.2.0", "1.3.0", "1.4.0"]
  {
    var xs := ["1.2.0", "1.3.0", "1.4.0"];
    LexStrictTotalOrder();
    TwelveSorted();
    Ordering.ListingOfSorted(xs, {"1.2.0", "1.3.0", "1.4.0"}, LexLess);
  }

  /** With history 1, default mode looks at the keys 1.2.0 and 1.3.0. */
  lemma TwelveOldest()
    ensures First(StringOrder(Twelve().Keys), |Twelve()| - 1) == {"1.2.0", "1.3.0"}
  {
    assert Twelve().Keys == {"1.2.0", "1.3.0", "1.4.0"};
    TwelveStringOrder();
    var xs := ["1.2.0", "1.3.0", "1.4.0"];
    assert xs[0] in First(xs, 2) && xs[1] in First(xs, 2);
  }

  /**
   * As written: with history 1, 1.2.0 is removed although it is the current release, because
   * the cached 1.2.0 was read from "1.2.0" and the current one from "1.2"; its file is the
   * current release's file.
   */
  lemma CurrentRemovedAsWritten()
    ensures Victims(Twelve(), Some(ShortCurrent()), 1, 0, 0) == {"1.2.0", "1.3.0"}
    ensures Target(ShortCurrent()) in Targets(Twelve(), Victims(Twelve(), Some(ShortCurrent()), 1, 0, 0))
  {
    TwelveOldest();
    assert !SameAs(Twelve()["1.2.0"], Some(ShortCurrent()));
    assert Target(Twelve()["1.2.0"]) == Target(ShortCurrent());
  }

  /** The cached release of the current version is the cached 1.2.0. */
  lemma TwelveAsLoaded()
    ensures AsLoaded(Twelve(), Some(ShortCurrent())) == Some(Twelve()["1.2.0"])
  {
    assert ToString(V120) == "1.2.0";
  }

  /** Compared by version, only 1.3.0 goes and the current release stays. */
  lemma CurrentKeptIntended()
    ensures VersionSpared(Twelve(), Some(ShortCurrent()), 1, 0, 0) == {"1.3.0"}
  {
    TwelveOldest();
    TwelveAsLoaded();
    assert "1.2.0" != "1.3.0";
  }

  // ------------------------------------------------------------ line 0.0

  const V001 := Version(0, 0, 1)
  const V150 := Version(1, 5, 0)
  const V160 := Version(1, 6, 0)

  /** A cache holding 0.0.1, 1.5.0 and 1.6.0: three minor lines, the oldest of them 0.0. */
  function Zero(): map<string, Release> {
    map["0.0.1" := Cached("0.0.1", V001), "1.5.0" := Cached("1.5.0", V150), "1.6.0" := Cached("1.6.0", V160)]
  }

  lemma ZeroLines()
    ensures Zero().Keys == {"0.0.1", "1.5.0", "1.6.0"}
    ensures GroupKey(V001) == "0.0.0" && GroupKey(V150) == "1.5.0" && GroupKey(V160) == "1.6.0"
  {
  }

  lemma ZeroGroups()
    ensures Zero().Keys == {"0.0.1", "1.5.0", "1.6.0"}
    ensures Groups(Zero()) == {"0.0.0", "1.5.0", "1.6.0"}
    ensures GroupVersions(Zero(), "1.5.0") == {V150} && GroupVersions(Zero(), "1.6.0") == {V160}
  {
    ZeroLines();
  }

  lemma ZeroSorted()
    ensures Ordering.Sorted(["0.0.0", "1.5.0", "1.6.0"], LexLess)
  {
    assert LexLess("0.0.0", "1.5.0") && LexLess("1.5.0", "1.6.0") && LexLess("0.0.0", "1.6.0");
  }

  /** With minor limit 2, the code drops line 0.0, the first of the three in string order. */
  lemma ZeroDropped()
    ensures DroppedGroups(Zero(), 2) == {"0.0.0"}
  {
    var xs := ["0.0.0", "1.5.0", "1.6.0"];
    ZeroGroups();
    LexStrictTotalOrder();
    ZeroSorted();
    Ordering.ListingOfSorted(xs, {"0.0.0", "1.5.0", "1.6.0"}, LexLess);
    assert xs[0] in First(xs, 1);
  }

  lemma ZeroLineText()
    ensures ZeroLine() == "0.0.0"
  {
  }

  /**
   * As written: dropping line 0.0 builds the constraint `~0.0.0`, which the semver library
   * reads as `>= 0.0.0`, so 1.5.0 and 1.6.0 go with 0.0.1 and the cache is emptied.
   */
  lemma ZeroLineAsWritten()
    ensures Victims(Zero(), None, 0, 2, 99) == {"0.0.1", "1.5.0", "1.6.0"}
  {
    assert Victims(Zero(), None, 0, 2, 99) == GroupVictims(Zero(), None, 2, 99);
    ZeroDropped();
    ZeroLineText();
    ZeroLineTakesAll(Zero(), None, {"0.0.0"});
    ZeroGroups();
  }

  const L00 := Version(0, 0, 0)
  const L15 := Version(1, 5, 0)

  lemma ZeroLinesIn()
    ensures LinesIn(Zero()) == {L00, L15, L16}
  {
    ZeroLines();
  }

  lemma ZeroLineOrder()
    ensures VersionOrder({L00, L15, L16}) == [L00, L15, L16]
  {
    var xs := [L00, L15, L16];
    LessStrictTotalOrder();
    assert Ordering.Sorted(xs, Less);
    Ordering.ListingOfSorted(xs, {L00, L15, L16}, Less);
  }

  lemma ZeroOldestLine()
    ensures var ls := VersionOrder(LinesIn(Zero())); First(ls, |ls| - 2) == {L00}
  {
    ZeroLinesIn();
    ZeroLineOrder();
    var xs := [L00, L15, L16];
    assert xs[0] in First(xs, 1);
  }

  lemma ZeroTrimmedNone()
    ensures TrimVictims(Zero(), None, {"1.5.0", "1.6.0"}, 99) == {}
  {
    ZeroGroups();
    TrimmedNone(Zero(), "1.5.0", 99);
    TrimmedNone(Zero(), "1.6.0", 99);
  }

  /** As intended: only the release on line 0.0 goes, and 1.5.0 and 1.6.0 stay. */
  lemma ZeroLineIntended()
    ensures LineVictims(Zero(), None, 2, 99) == {"0.0.1"}
  {
    ZeroOldestLine();
    assert ToString(L00) == "0.0.0";
    assert OldestLines(Zero(), 2) == {"0.0.0"};
    ZeroGroups();
    assert {"0.0.0", "1.5.0", "1.6.0"} - {"0.0.0"} == {"1.5.0", "1.6.0"};
    ZeroTrimmedNone();
    assert DropVictims(Zero(), None, {"0.0.0"}) == {"0.0.1"};
  }
}
