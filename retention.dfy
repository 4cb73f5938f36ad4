/**
 * Which cached releases `AutoClean` and `PruneUntil` remove (pkg/tfs/cache.go), stated
 * over the release map the cache has just loaded: keys are printed versions, and each
 * release sits in the cache directory under the prefix followed by its key. "Except the
 * current release" means except a release `SameAs` it, so a release of the current version
 * read from another text is not spared.
 */
module Retention {
  import opened Wrappers
  import opened Strings
  import opened Versions
  import Ordering
  import opened Disk
  import opened Releases

  /** Each key is the printed version of its release. */
  ghost predicate KeyedByVersion(releases: map<string, Release>) {
    forall k :: k in releases ==> ToString(releases[k].version) == k
  }

  /** What `Load` builds: keyed by version, and each release's file is prefix + key in the directory. */
  ghost predicate WellFormed(releases: map<string, Release>, directory: string, prefix: string) {
    && KeyedByVersion(releases)
    && forall k :: k in releases ==> releases[k] == Release(releases[k].version, releases[k].original, directory, prefix + k)
  }

  /** The keys in `sort.Strings` order. */
  ghost function StringOrder(keys: set<string>): (xs: seq<string>)
    ensures Ordering.Sorted(xs, LexLess) && (forall z :: z in xs <==> z in keys) && |xs| == |keys|
  {
    LexStrictTotalOrder();
    Ordering.Listing(keys, LexLess)
  }

  /** The versions in semantic order, as `sort.Sort(semver.Collection(...))` leaves them. */
  ghost function VersionOrder(vs: set<Version>): (xs: seq<Version>)
    ensures Ordering.Sorted(xs, Less) && (forall z :: z in xs <==> z in vs) && |xs| == |vs|
  {
    LessStrictTotalOrder();
    Ordering.Listing(vs, Less)
  }

  /** `xs[0:n]` as a set; nothing when `n` is not positive. */
  function First<T>(xs: seq<T>, n: int): set<T> {
    set i | 0 <= i < n && i < |xs| :: xs[i]
  }

  /** The files of the releases with the given keys. */
  function Targets(releases: map<string, Release>, keys: set<string>): set<Path> {
    set k | k in keys && k in releases :: Target(releases[k])
  }

  // ------------------------------------------------------------ default mode

  /**
   * Default mode: with `n = len - history`, the first `n` keys in string order, except
   * the current release; nothing when `n <= 0`.
   */
  ghost function DefaultVictims(releases: map<string, Release>, current: Option<Release>, history: nat): set<string> {
    Evictable(releases, current, First(StringOrder(releases.Keys), |releases| - history))
  }

  /** The given keys of the map, except the current release's. */
  ghost function Evictable(releases: map<string, Release>, current: Option<Release>, keys: set<string>): set<string> {
    set k | k in keys && k in releases && !SameAs(releases[k], current)
  }

  // ------------------------------------------------------------ grouped mode

  /** The minor line of a version, printed as `semver.NewVersion("X.Y").String()` prints it. */
  function GroupKey(v: Version): string {
    ToString(Version(v.major, v.minor, 0))
  }

  /** The minor lines of the releases with the given keys. */
  ghost function GroupsOf(releases: map<string, Release>, keys: set<string>): set<string> {
    set k | k in keys && k in releases :: GroupKey(releases[k].version)
  }

  ghost function Groups(releases: map<string, Release>): set<string> {
    GroupsOf(releases, releases.Keys)
  }

  /** The versions on line `g` among the releases with the given keys. */
  ghost function VersionsOf(releases: map<string, Release>, keys: set<string>, g: string): set<Version> {
    set k | k in keys && k in releases && GroupKey(releases[k].version) == g :: releases[k].version
  }

  ghost function GroupVersions(releases: map<string, Release>, g: string): set<Version> {
    VersionsOf(releases, releases.Keys, g)
  }

  /** The first `groups - minorLimit` minor lines in string order. */
  ghost function DroppedGroups(releases: map<string, Release>, minorLimit: nat): set<string> {
    var groups := Groups(releases);
    First(StringOrder(groups), |groups| - minorLimit)
  }

  /** All but the newest `patchLimit` versions of a minor line. */
  ghost function TrimmedVersions(releases: map<string, Release>, g: string, patchLimit: nat): set<Version> {
    var vs := VersionOrder(GroupVersions(releases, g));
    First(vs, |vs| - patchLimit)
  }

  /** Every release of the given lines, except the current release. */
  ghost function DropVictims(releases: map<string, Release>, current: Option<Release>, lines: set<string>): set<string> {
    set k | k in releases && !SameAs(releases[k], current) && GroupKey(releases[k].version) in lines
  }

  /** The key of line 0.0, which the semver library reads in `~0.0.0` as `>= 0.0.0`. */
  function ZeroLine(): string {
    GroupKey(Version(0, 0, 0))
  }

  /**
   * Whether `semver.NewConstraint("~" + g)` matches `v`, for the key `g` of a minor line:
   * `v` lies on that line, or `g` is line 0.0, whose constraint matches every version.
   */
  predicate TildeCovers(g: string, v: Version) {
    GroupKey(v) == g || g == ZeroLine()
  }

  /** Every release that `~g` matches for a dropped line `g`, except the current release. */
  ghost function TildeVictims(releases: map<string, Release>, current: Option<Release>, lines: set<string>): set<string> {
    set k | k in releases && !SameAs(releases[k], current) && (GroupKey(releases[k].version) in lines || ZeroLine() in lines)
  }

  /** On the given lines, every release but the newest `patchLimit` of its line, except the current release. */
  ghost function TrimVictims(releases: map<string, Release>, current: Option<Release>, lines: set<string>, patchLimit: nat): set<string> {
    set k | k in releases && !SameAs(releases[k], current) && GroupKey(releases[k].version) in lines
      && releases[k].version in TrimmedVersions(releases, GroupKey(releases[k].version), patchLimit)
  }

  /**
   * Grouped mode: every release that `~g` matches for a dropped minor line `g`, and every
   * release that is not among the newest `patchLimit` of its surviving line, except the
   * current release.
   */
  ghost function GroupVictims(releases: map<string, Release>, current: Option<Release>, minorLimit: nat, patchLimit: nat): set<string> {
    var dropped := DroppedGroups(releases, minorLimit);
    TildeVictims(releases, current, dropped) + TrimVictims(releases, current, Groups(releases) - dropped, patchLimit)
  }

  /** Grouped mode applies only when both limits are set. */
  ghost function Victims(releases: map<string, Release>, current: Option<Release>, history: nat, minorLimit: nat, patchLimit: nat): set<string> {
    if minorLimit != 0 && patchLimit != 0 then GroupVictims(releases, current, minorLimit, patchLimit)
    else DefaultVictims(releases, current, history)
  }

  // ------------------------------------------------------------ PruneUntil

  /** The releases strictly older than `v`. */
  ghost function Older(releases: map<string, Release>, v: Version): set<string> {
    set k | k in releases && Less(releases[k].version, v)
  }

  // ------------------------------------------------------------ one step at a time

  lemma FirstStep<T>(xs: seq<T>, i: nat)
    requires i < |xs|
    ensures First(xs, i + 1) == First(xs, i) + {xs[i]}
  {
  }

  /** A listing of a set, taken whole, is the set. */
  lemma FirstAll<T>(xs: seq<T>, s: set<T>)
    requires forall z :: z in xs <==> z in s
    ensures First(xs, |xs|) == s
  {
  }

  /** In a list without repetitions, the next element is not among those before it. */
  lemma FirstFresh<T>(xs: seq<T>, i: nat)
    requires Ordering.Distinct(xs) && i < |xs|
    ensures xs[i] !in First(xs, i)
  {
  }

  lemma FirstNone<T>(xs: seq<T>, n: int)
    requires n <= 0
    ensures First(xs, n) == {}
  {
  }

  lemma TargetsAdd(releases: map<string, Release>, keys: set<string>, k: string)
    requires k in releases
    ensures Targets(releases, keys + {k}) == Targets(releases, keys) + {Target(releases[k])}
  {
  }

  lemma TargetsUnion(releases: map<string, Release>, a: set<string>, b: set<string>)
    ensures Targets(releases, a + b) == Targets(releases, a) + Targets(releases, b)
  {
  }

  lemma TildeSplit(releases: map<string, Release>, current: Option<Release>, a: set<string>, b: set<string>)
    ensures TildeVictims(releases, current, a + b) == TildeVictims(releases, current, a) + TildeVictims(releases, current, b)
  {
  }

  /** Without line 0.0, `~g` drops exactly the releases of the dropped lines. */
  lemma TildeIsDrop(releases: map<string, Release>, current: Option<Release>, lines: set<string>)
    requires ZeroLine() !in lines
    ensures TildeVictims(releases, current, lines) == DropVictims(releases, current, lines)
  {
  }

  /** Once line 0.0 is dropped, every release but the current one goes. */
  lemma ZeroLineTakesAll(releases: map<string, Release>, current: Option<Release>, lines: set<string>)
    requires ZeroLine() in lines
    ensures TildeVictims(releases, current, lines) == Evictable(releases, current, releases.Keys)
  {
  }

  lemma TrimSplit(releases: map<string, Release>, current: Option<Release>, a: set<string>, b: set<string>, patchLimit: nat)
    ensures TrimVictims(releases, current, a + b, patchLimit)
         == TrimVictims(releases, current, a, patchLimit) + TrimVictims(releases, current, b, patchLimit)
  {
  }

  /** A version of line `g` belongs to the release keyed by its printed form, and lies on `g`. */
  lemma VersionOnLine(releases: map<string, Release>, keys: set<string>, g: string, v: Version)
    requires KeyedByVersion(releases) && v in VersionsOf(releases, keys, g)
    ensures ToString(v) in releases && ToString(v) in keys && releases[ToString(v)].version == v && GroupKey(v) == g
  {
    var k :| k in keys && k in releases && GroupKey(releases[k].version) == g && releases[k].version == v;
  }
}
