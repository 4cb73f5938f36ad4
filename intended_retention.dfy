/**
 * The retention `AutoClean` evidently intends (pkg/tfs/cache.go), with the release keys
 * and the minor lines ordered by version rather than as strings. `Retention` keeps the
 * order the code uses; the two differ once a minor or major number reaches two digits.
 */
module IntendedRetention {
  import opened Wrappers
  import opened Versions
  import Ordering
  import opened Releases
  import opened Retention

  /** The versions of the cached releases. */
  ghost function VersionsIn(releases: map<string, Release>): set<Version> {
    set k | k in releases :: releases[k].version
  }

  /** The keys whose version is among the `n` oldest. */
  ghost function Oldest(releases: map<string, Release>, n: int): set<string> {
    set k | k in releases && releases[k].version in First(VersionOrder(VersionsIn(releases)), n)
  }

  /** Default mode as intended: the `len - history` oldest releases, except the current release. */
  ghost function OldestVictims(releases: map<string, Release>, current: Option<Release>, history: nat): set<string> {
    Evictable(releases, current, Oldest(releases, |releases| - history))
  }

  /** The minor line a version belongs to, as a version. */
  function Line(v: Version): (l: Version)
    ensures ToString(l) == GroupKey(v) && LessEq(l, v)
  {
    Version(v.major, v.minor, 0)
  }

  /** The minor lines of the cached releases. */
  ghost function LinesIn(releases: map<string, Release>): set<Version> {
    set k | k in releases :: Line(releases[k].version)
  }

  /** The printed forms of the `lines - minorLimit` oldest minor lines. */
  ghost function OldestLines(releases: map<string, Release>, minorLimit: nat): set<string> {
    var ls := VersionOrder(LinesIn(releases));
    set l | l in First(ls, |ls| - minorLimit) :: ToString(l)
  }

  /** Grouped mode as intended: `GroupVictims` with the oldest minor lines dropped. */
  ghost function LineVictims(releases: map<string, Release>, current: Option<Release>, minorLimit: nat, patchLimit: nat): set<string> {
    var dropped := OldestLines(releases, minorLimit);
    DropVictims(releases, current, dropped) + TrimVictims(releases, current, Groups(releases) - dropped, patchLimit)
  }

  // ------------------------------------------------------------ sparing the current release

  /**
   * The comparison the exemption of the current release evidently intends: the same
   * version, whatever text either side was read from.
   */
  predicate SameVersion(r: Release, ref: Option<Release>) {
    ref.Some? && r.version == ref.value.version
  }

  /** The cached release of the current release's version, when there is one; otherwise the current release. */
  function AsLoaded(releases: map<string, Release>, current: Option<Release>): Option<Release> {
    if current.Some? && ToString(current.value.version) in releases then Some(releases[ToString(current.value.version)])
    else current
  }

  /**
   * Handing `SameAs` the cached release of the current version in place of the current
   * release turns it into the comparison by version, for every key of a cache keyed by version.
   */
  lemma SpareByVersion(releases: map<string, Release>, current: Option<Release>, k: string)
    requires KeyedByVersion(releases) && k in releases
    ensures SameAs(releases[k], AsLoaded(releases, current)) <==> SameVersion(releases[k], current)
  {
    if SameVersion(releases[k], current) {
      assert k == ToString(current.value.version);
    }
    if SameAs(releases[k], AsLoaded(releases, current)) && ToString(current.value.version) in releases {
      ToStringInjective(releases[ToString(current.value.version)].version, current.value.version);
    }
  }

  /** The releases the retention removes when the current release is compared by version. */
  ghost function VersionSpared(releases: map<string, Release>, current: Option<Release>, history: nat, minorLimit: nat, patchLimit: nat): set<string> {
    Victims(releases, AsLoaded(releases, current), history, minorLimit, patchLimit)
  }

  /** Compared by version, the current release's version is never removed, in either mode. */
  lemma CurrentVersionKept(releases: map<string, Release>, current: Option<Release>, history: nat, minorLimit: nat, patchLimit: nat, k: string)
    requires KeyedByVersion(releases) && k in VersionSpared(releases, current, history, minorLimit, patchLimit)
    ensures k in releases && !SameVersion(releases[k], current)
  {
    assert k in releases && !SameAs(releases[k], AsLoaded(releases, current));
    SpareByVersion(releases, current, k);
  }

  /** In a sorted list, an element among the first `n` comes before every element after them. */
  lemma FirstBefore(xs: seq<Version>, n: int, a: Version, b: Version)
    requires Ordering.Sorted(xs, Less) && a in First(xs, n) && b in xs && b !in First(xs, n)
    ensures Less(a, b)
  {
    var i :| 0 <= i < n && i < |xs| && xs[i] == a;
    var j :| 0 <= j < |xs| && xs[j] == b;
  }

  /** Default mode as intended removes no release newer than one it keeps (other than the current one). */
  lemma OldestVictimsAreOlder(releases: map<string, Release>, current: Option<Release>, history: nat, k: string, kept: string)
    requires k in OldestVictims(releases, current, history)
    requires kept in releases && kept !in OldestVictims(releases, current, history) && !SameAs(releases[kept], current)
    ensures Less(releases[k].version, releases[kept].version)
  {
    var xs := VersionOrder(VersionsIn(releases));
    assert releases[kept].version in VersionsIn(releases);
    FirstBefore(xs, |releases| - history, releases[k].version, releases[kept].version);
  }

  /**
   * Grouped mode as intended removes a release of a kept minor line only in the patch trim:
   * exactly when it is not the current release and is among all but the newest
   * `patchLimit` versions of its line.
   */
  lemma KeptLinesOnlyTrimmed(releases: map<string, Release>, current: Option<Release>, minorLimit: nat, patchLimit: nat, k: string)
    requires k in releases && GroupKey(releases[k].version) !in OldestLines(releases, minorLimit)
    ensures k in LineVictims(releases, current, minorLimit, patchLimit)
      <==> !SameAs(releases[k], current) && releases[k].version in TrimmedVersions(releases, GroupKey(releases[k].version), patchLimit)
  {
    assert GroupKey(releases[k].version) in Groups(releases);
  }

  /** Grouped mode as intended drops minor lines only below every line it keeps. */
  lemma DroppedLinesAreOlder(releases: map<string, Release>, minorLimit: nat, k: string, kept: string)
    requires k in releases && kept in releases
    requires GroupKey(releases[k].version) in OldestLines(releases, minorLimit)
    requires GroupKey(releases[kept].version) !in OldestLines(releases, minorLimit)
    ensures Less(Line(releases[k].version), Line(releases[kept].version))
    ensures Less(releases[k].version, releases[kept].version)
  {
    var v, w := releases[k].version, releases[kept].version;
    var ls := VersionOrder(LinesIn(releases));
    var n := |ls| - minorLimit;
    var l :| l in First(ls, n) && ToString(l) == GroupKey(v);
    ToStringInjective(l, Line(v));
    assert Line(w) in LinesIn(releases);
    FirstBefore(ls, n, Line(v), Line(w));
  }
}
