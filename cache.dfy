/**
 * The local cache of Terraform binaries (pkg/tfs/cache.go), together with the release
 * operations that update the global cache (`Init`, `Install` and `Activate` in
 * pkg/tfs/release.go). The configuration read through viper (file name prefix, history
 * and version limits, the auto-clean switch) becomes parameters; the disk is a
 * `FileSystem` object.
 */
module Cache {
  import opened Wrappers
  import opened Strings
  import opened Versions
  import Ordering
  import opened Disk
  import opened Releases
  import opened Retention
  import opened Sums
  import Util

  // ------------------------------------------------------------ what Load reads

  /** `filepath.Glob(dir/prefix*)`: the matching names, sorted. */
  ghost function GlobNames(files: map<Path, nat>, dir: string, prefix: string): seq<string> {
    StringOrder(Matching(files, dir, prefix))
  }

  /** What `versionFromFileName` makes of each name. */
  ghost function Parsed(names: seq<string>, prefix: string): (ps: seq<Result<Version, string>>)
    ensures |ps| == |names|
  {
    if names == [] then [] else [Util.VersionFromFileName(names[0], prefix)] + Parsed(names[1..], prefix)
  }

  lemma {:induction false} ParsedAt(names: seq<string>, prefix: string, i: nat)
    requires i < |names|
    ensures Parsed(names, prefix)[i] == Util.VersionFromFileName(names[i], prefix)
  {
    if i > 0 {
      ParsedAt(names[1..], prefix, i - 1);
    }
  }

  /** The position of the first failure, or the length when there is none. */
  ghost function FirstBad(ps: seq<Result<Version, string>>): (i: nat)
    ensures i <= |ps|
    ensures forall j :: 0 <= j < i ==> ps[j].Success?
    ensures i < |ps| ==> ps[i].Failure?
    decreases |ps|
  {
    if ps == [] || ps[0].Failure? then 0 else 1 + FirstBad(ps[1..])
  }

  /** The keys `Load` files the first `n` parsed versions under: the versions, printed. */
  ghost function KeysUpTo(ps: seq<Result<Version, string>>, n: nat): set<string> {
    set j | 0 <= j < n && j < |ps| && ps[j].Success? :: ToString(ps[j].value)
  }

  /**
   * `LastRelease`: a release no older than any, nil exactly when there are none. It is the
   * release filed under its version, except that a later name of the same version (read
   * from another text) replaces that entry but not the last release.
   */
  ghost predicate IsLast(last: Option<Release>, releases: map<string, Release>) {
    && (last.None? <==> releases == map[])
    && (last.Some? ==> var key := ToString(last.value.version);
         key in releases && releases[key] == last.value.(original := releases[key].original))
    && (forall k :: k in releases && last.Some? ==> LessEq(releases[k].version, last.value.version))
  }

  /**
   * `ActiveRelease` after the `Init` calls: the release whose file the link resolves to,
   * when there is one; otherwise whatever it was before.
   */
  ghost predicate ActiveFrom(active0: Option<Release>, active: Option<Release>, releases: map<string, Release>, resolved: Option<Path>) {
    && (forall k :: k in releases && resolved == Some(Target(releases[k])) ==> active == Some(releases[k]))
    && ((forall k :: k in releases ==> resolved != Some(Target(releases[k]))) ==> active == active0)
  }

  class LocalCache {
    const directory: string
    var releases: map<string, Release>
    var lastRelease: Option<Release>
    /** The release installed last, which cleaning never removes. */
    var currentRelease: Option<Release>
    /** The release the `terraform` link points to. */
    var activeRelease: Option<Release>

    constructor(directory: string)
      ensures this.directory == directory && releases == map[]
      ensures lastRelease == None && currentRelease == None && activeRelease == None
    {
      this.directory := directory;
      releases := map[];
      lastRelease := None;
      currentRelease := None;
      activeRelease := None;
    }

    /**
     * What `Load` leaves behind for the given disk: one release per name before the
     * first that is not a version, keyed by version, the newest of them as the last
     * release, and the active release found through the link.
     */
    ghost predicate Loaded(files: map<Path, nat>, resolved: Option<Path>, prefix: string, active0: Option<Release>)
      reads this
    {
      LoadedFrom(GlobNames(files, directory, prefix), resolved, prefix, active0)
    }

    /**
     * What loading the names in order leaves behind; each release keeps the text of the
     * last name read under its key.
     */
    ghost predicate LoadedFrom(names: seq<string>, resolved: Option<Path>, prefix: string, active0: Option<Release>)
      reads this
    {
      LoadResult(names, resolved, prefix, active0, directory, releases, lastRelease, activeRelease)
    }

    /**
     * `NewRelease(v).Init()` for a version `v` read from the text `original`: the release
     * for `v`, made active when the link resolves to its file.
     */
    method InitRelease(v: Version, original: string, prefix: string, fs: FileSystem) returns (r: Release)
      modifies this
      ensures r == Release(v, original, directory, prefix + ToString(v))
      ensures activeRelease == if fs.Resolved() == Some(Target(r)) then Some(r) else old(activeRelease)
      ensures releases == old(releases) && lastRelease == old(lastRelease) && currentRelease == old(currentRelease)
    {
      r := Release(v, original, directory, prefix + ToString(v));
      if fs.Resolved() == Some(Target(r)) {
        activeRelease := Some(r);
      }
    }

    /**
     * One turn of the loop of `Load`, for a name that is the version `v`: `NewRelease(v).Init()`
     * goes into `Releases` under the string of `v`, and becomes `LastRelease` when `v` is newer.
     */
    method AddRelease(v: Version, original: string, prefix: string, fs: FileSystem)
      modifies this
      ensures var r := Release(v, original, directory, prefix + ToString(v));
        && releases == old(releases)[ToString(v) := r]
        && lastRelease == (if old(lastRelease).None? || Less(old(lastRelease).value.version, v) then Some(r) else old(lastRelease))
        && activeRelease == (if fs.Resolved() == Some(Target(r)) then Some(r) else old(activeRelease))
      ensures currentRelease == old(currentRelease)
    {
      var r := InitRelease(v, original, prefix, fs);
      releases := releases[ToString(v) := r];
      if lastRelease.None? || Less(lastRelease.value.version, v) {
        lastRelease := Some(r);
      }
    }

    /**
     * `Install`: downloads the release only when its file is missing (`download` is the
     * outcome of fetching and writing it), and records it as the current release unless
     * that failed.
     */
    method Install(r: Release, download: Result<nat, string>, fs: FileSystem) returns (err: Option<string>)
      modifies this, fs
      ensures Target(r) in old(fs.files) ==> err.None? && fs.files == old(fs.files)
      ensures Target(r) !in old(fs.files) && download.Failure? ==> err == Some(download.error) && fs.files == old(fs.files)
      ensures Target(r) !in old(fs.files) && download.Success? ==>
        err.None? && fs.files == old(fs.files)[Target(r) := download.value]
      ensures fs.link == old(fs.link)
      ensures currentRelease == if err.None? then Some(r) else old(currentRelease)
      ensures releases == old(releases) && lastRelease == old(lastRelease) && activeRelease == old(activeRelease)
    {
      var target := Target(r);
      if target !in fs.files {
        if download.Failure? {
          return Some(download.error);
        }
        fs.files := fs.files[target := download.value];
      }
      currentRelease := Some(r);
      return None;
    }

    /**
     * `Activate`: `mkdir` is the outcome of creating the bin directory and `symlink` that
     * of creating the link. An already active release is left alone; otherwise the old
     * link goes before the new one is made, so a failure leaves no link at all.
     */
    method Activate(r: Release, mkdir: Option<string>, symlink: Option<string>, fs: FileSystem) returns (err: Option<string>)
      modifies this, fs
      ensures fs.files == old(fs.files)
      ensures mkdir.Some? ==> err == mkdir && fs.link == old(fs.link) && activeRelease == old(activeRelease)
      ensures mkdir.None? && SameAs(r, old(activeRelease)) ==>
        err.None? && fs.link == old(fs.link) && activeRelease == old(activeRelease)
      ensures mkdir.None? && !SameAs(r, old(activeRelease)) && symlink.Some? ==>
        err == symlink && fs.link == None && activeRelease == old(activeRelease)
      ensures mkdir.None? && !SameAs(r, old(activeRelease)) && symlink.None? ==>
        err.None? && fs.link == Some(Target(r)) && activeRelease == Some(r)
      ensures releases == old(releases) && lastRelease == old(lastRelease) && currentRelease == old(currentRelease)
    {
      if mkdir.Some? {
        return mkdir;
      }
      if SameAs(r, activeRelease) {
        return None;
      }
      if fs.link.Some? {
        fs.link := None;
      }
      if symlink.Some? {
        return symlink;
      }
      fs.link := Some(Target(r));
      activeRelease := Some(r);
      return None;
    }

    /** `isEmpty`. */
    function IsEmpty(): (b: bool)
      reads this
      ensures b <==> releases == map[]
    {
      |releases| == 0
    }

    /**
     * `Load`: rebuilds the releases from the files of the cache directory, in glob order,
     * stopping at the first file name that is not a version and returning its error.
     */
    method Load(prefix: string, fs: FileSystem) returns (err: Option<string>)
      modifies this
      ensures Loaded(fs.files, fs.Resolved(), prefix, old(activeRelease))
      ensures var ps := Parsed(GlobNames(fs.files, directory, prefix), prefix); var bad := FirstBad(ps);
        err == if bad == |ps| then None else Some(ps[bad].error)
      ensures currentRelease == old(currentRelease)
    {
      var names := SortedStrings(Matching(fs.files, directory, prefix));
      err := LoadNames(names, prefix, fs);
    }

    /** The loop of `Load`, over the names `filepath.Glob` returned. */
    method LoadNames(names: seq<string>, prefix: string, fs: FileSystem) returns (err: Option<string>)
      modifies this
      ensures LoadedFrom(names, fs.Resolved(), prefix, old(activeRelease))
      ensures var ps := Parsed(names, prefix); var bad := FirstBad(ps);
        err == if bad == |ps| then None else Some(ps[bad].error)
      ensures currentRelease == old(currentRelease)
    {
      releases := map[];
      lastRelease := None;
      ghost var ps := Parsed(names, prefix);
      ghost var resolved, active0 := fs.Resolved(), activeRelease;
      var i := 0;
      while i < |names|
        invariant i <= |names| && fs.Resolved() == resolved
        invariant LoadInvariant(names, ps, i, prefix, directory, releases, lastRelease, activeRelease, active0, resolved)
        invariant currentRelease == old(currentRelease)
      {
        var parsed := Util.VersionFromFileName(names[i], prefix);
        ParsedAt(names, prefix, i);
        if parsed.Failure? {
          LoadDone(names, ps, i, prefix, directory, releases, lastRelease, activeRelease, active0, resolved);
          return Some(parsed.error);
        }
        var v := parsed.value;
        ghost var releases0, last0, active1 := releases, lastRelease, activeRelease;
        AddRelease(v, DeleteAll(names[i], prefix), prefix, fs);
        LoadIteration(names, ps, i, prefix, directory, releases0, last0, active1, active0, resolved, v,
                      releases, lastRelease, activeRelease);
        i := i + 1;
      }
      LoadDone(names, ps, i, prefix, directory, releases, lastRelease, activeRelease, active0, resolved);
      return None;
    }

    /**
     * `Size`: reloads (ignoring the error) and adds up the sizes of the releases' files in
     * the cache directory; a missing file makes it (0, error).
     */
    method Size(prefix: string, fs: FileSystem) returns (size: nat, err: Option<string>)
      modifies this
      ensures Loaded(fs.files, fs.Resolved(), prefix, old(activeRelease)) && currentRelease == old(currentRelease)
      ensures err.None? <==> forall k :: k in releases ==> Path(directory, releases[k].fileName) in fs.files
      ensures err.None? ==> size == Total(FileSizes(releases, directory, fs.files))
      ensures err.Some? ==> size == 0
    {
      var _ := Load(prefix, fs);
      size, err := SumSizes(fs);
    }

    /** The loop of `Size`, over the releases in map order. */
    method SumSizes(fs: FileSystem) returns (size: nat, err: Option<string>)
      ensures err.None? <==> forall k :: k in releases ==> Path(directory, releases[k].fileName) in fs.files
      ensures err.None? ==> size == Total(FileSizes(releases, directory, fs.files))
      ensures err.Some? ==> size == 0
    {
      var rest := releases.Keys;
      ghost var seen: set<string> := {};
      size := 0;
      while rest != {}
        invariant rest <= releases.Keys && seen == releases.Keys - rest
        invariant forall k :: k in seen ==> Path(directory, releases[k].fileName) in fs.files
        invariant size == Total(SizesOf(releases, seen, directory, fs.files))
        decreases |rest|
      {
        var k :| k in rest;
        var s := ReleaseSize(directory, releases[k], fs);
        if s.Failure? {
          return 0, Some(s.error);
        }
        SizesStep(releases, seen, k, directory, fs.files);
        size := size + s.value;
        rest := rest - {k};
        seen := seen + {k};
      }
      assert seen == releases.Keys;
      return size, None;
    }

    // ---------------------------------------------------------- Prune and PruneUntil

    /**
     * `Prune`: removes every release, in map order, checking each file's size first; the
     * first error stops it, before anything is reloaded. Otherwise the cache is reloaded
     * through `Size`, whose error (a file of the reloaded releases missing) is passed on.
     */
    method Prune(prefix: string, fs: FileSystem) returns (err: Option<string>, ghost removed: set<string>, ghost reloaded: bool)
      modifies this, fs
      ensures removed <= old(releases).Keys
      ensures (fs.files, fs.link) == Removed(old(fs.files), old(fs.link), Targets(old(releases), removed))
      ensures !reloaded ==> err.Some? && releases == old(releases) && lastRelease == old(lastRelease) && activeRelease == old(activeRelease)
      ensures reloaded ==> removed == old(releases).Keys && Loaded(fs.files, fs.Resolved(), prefix, old(activeRelease))
      ensures reloaded ==> (err.None? <==> forall k :: k in releases ==> Path(directory, releases[k].fileName) in fs.files)
      ensures Removable(old(releases), None, directory, old(fs.files)) ==> reloaded
      ensures currentRelease == old(currentRelease)
    {
      err, removed := RemoveWhere(None, fs);
      reloaded := err.None?;
      if err.None? {
        var _, e := Size(prefix, fs);
        err := e;
      }
    }

    /** `PruneUntil`: the same, for the releases strictly older than `v` only. */
    method PruneUntil(v: Version, prefix: string, fs: FileSystem) returns (err: Option<string>, ghost removed: set<string>, ghost reloaded: bool)
      modifies this, fs
      ensures removed <= Older(old(releases), v)
      ensures (fs.files, fs.link) == Removed(old(fs.files), old(fs.link), Targets(old(releases), removed))
      ensures !reloaded ==> err.Some? && releases == old(releases) && lastRelease == old(lastRelease) && activeRelease == old(activeRelease)
      ensures reloaded ==> removed == Older(old(releases), v) && Loaded(fs.files, fs.Resolved(), prefix, old(activeRelease))
      ensures reloaded ==> (err.None? <==> forall k :: k in releases ==> Path(directory, releases[k].fileName) in fs.files)
      ensures Removable(old(releases), Some(v), directory, old(fs.files)) ==> reloaded
      ensures currentRelease == old(currentRelease)
    {
      err, removed := RemoveWhere(Some(v), fs);
      reloaded := err.None?;
      if err.None? {
        var _, e := Size(prefix, fs);
        err := e;
      }
    }

    /** The loop `Prune` and `PruneUntil` share, over the releases older than `until` (all, for none). */
    method RemoveWhere(until: Option<Version>, fs: FileSystem) returns (err: Option<string>, ghost removed: set<string>)
      modifies fs
      ensures removed <= Chosen(releases, until)
      ensures (fs.files, fs.link) == Removed(old(fs.files), old(fs.link), Targets(releases, removed))
      ensures err.None? ==> removed == Chosen(releases, until)
      ensures Removable(releases, until, directory, old(fs.files)) ==> err.None?
    {
      ghost var files0, link0 := fs.files, fs.link;
      var keys := Enumerate(releases.Keys);
      FirstNone(keys, 0);
      assert ChosenIn(releases, until, {}) == {};
      NothingRemoved(files0, link0, releases);
      removed := {};
      for i := 0 to |keys|
        invariant removed == ChosenIn(releases, until, First(keys, i))
        invariant (fs.files, fs.link) == Removed(files0, link0, Targets(releases, removed))
      {
        FirstStep(keys, i);
        ChosenSplit(releases, until, First(keys, i), {keys[i]});
        ghost var taken;
        FirstFresh(keys, i);
        RemovableNext(releases, until, directory, files0, removed, keys[i]);
        err, taken := RemoveIfChosen(until, keys[i], fs);
        RemovedInTurn(files0, link0, releases, removed, taken);
        ChosenWithin(releases, until, First(keys, i + 1));
        removed := removed + taken;
        if err.Some? {
          return err, removed;
        }
      }
      FirstAll(keys, releases.Keys);
      ChosenWithin(releases, until, releases.Keys);
      return None, removed;
    }

    /** One release of the loop of `RemoveWhere`: when chosen, its size is checked, then it is removed. */
    method RemoveIfChosen(until: Option<Version>, k: string, fs: FileSystem) returns (err: Option<string>, ghost taken: set<string>)
      requires k in releases
      modifies fs
      ensures taken <= ChosenIn(releases, until, {k})
      ensures (fs.files, fs.link) == Removed(old(fs.files), old(fs.link), Targets(releases, taken))
      ensures err.None? ==> taken == ChosenIn(releases, until, {k})
      ensures err.None? <==> (k !in ChosenIn(releases, until, {k})
        || (Path(directory, releases[k].fileName) in old(fs.files) && Target(releases[k]) in old(fs.files)))
    {
      var r := releases[k];
      taken := {};
      NothingRemoved(fs.files, fs.link, releases);
      if until.None? || Less(r.version, until.value) {
        var size := ReleaseSize(directory, r, fs);
        if size.Failure? {
          return Some(size.error), taken;
        }
        taken := {k};
        assert Targets(releases, taken) == {Target(r)};
        err := Remove(r, fs);
      } else {
        err := None;
      }
    }

    // ---------------------------------------------------------- AutoClean

    /**
     * `AutoClean`: unless it is switched off or the cache holds nothing, reloads the cache
     * and removes what the configured retention leaves out, never a release `SameAs` the
     * current one; removal errors are ignored.
     */
    method AutoClean(enabled: bool, history: nat, minorLimit: nat, patchLimit: nat, prefix: string, fs: FileSystem)
      modifies this, fs
      ensures !enabled || old(releases) == map[] ==>
        && releases == old(releases) && lastRelease == old(lastRelease) && activeRelease == old(activeRelease)
        && fs.files == old(fs.files) && fs.link == old(fs.link)
      ensures enabled && old(releases) != map[] ==>
        && Loaded(old(fs.files), old(fs.Resolved()), prefix, old(activeRelease))
        && (fs.files, fs.link) == Removed(old(fs.files), old(fs.link),
             Targets(releases, Victims(releases, currentRelease, history, minorLimit, patchLimit)))
      ensures currentRelease == old(currentRelease)
    {
      if !enabled || IsEmpty() {
        return;
      }
      var _ := Load(prefix, fs);
      if minorLimit != 0 && patchLimit != 0 {
        GroupedClean(minorLimit, patchLimit, fs);
      } else {
        DefaultClean(history, fs);
      }
    }

    /** Default mode: the first `len - history` keys in string order go, except the current release. */
    method DefaultClean(history: nat, fs: FileSystem)
      modifies fs
      ensures (fs.files, fs.link) == Removed(old(fs.files), old(fs.link), Targets(releases, DefaultVictims(releases, currentRelease, history)))
    {
      var n := |releases| - history;
      if n > 0 {
        var keys := SortedStrings(releases.Keys);
        EvictFirst(keys, n, fs);
      } else {
        FirstNone(StringOrder(releases.Keys), n);
        EvictNone(fs.files, fs.link, releases, currentRelease);
      }
    }

    /** Removes the releases with the first `n` of the keys, except the current release. */
    method EvictFirst(keys: seq<string>, n: nat, fs: FileSystem)
      requires n <= |keys| && forall i :: 0 <= i < |keys| ==> keys[i] in releases
      modifies fs
      ensures (fs.files, fs.link) == Removed(old(fs.files), old(fs.link), Targets(releases, Evictable(releases, currentRelease, First(keys, n))))
    {
      ghost var files0, link0 := fs.files, fs.link;
      FirstNone(keys, 0);
      EvictNone(files0, link0, releases, currentRelease);
      for i := 0 to n
        invariant (fs.files, fs.link) == Removed(files0, link0, Targets(releases, Evictable(releases, currentRelease, First(keys, i))))
      {
        FirstStep(keys, i);
        EvictMore(files0, link0, releases, currentRelease, First(keys, i), keys[i]);
        RemoveUnlessCurrent(keys[i], fs);
      }
    }

    /** `if !release.SameAs(c.CurrentRelease) { release.Remove() }`, the error ignored. */
    method RemoveUnlessCurrent(k: string, fs: FileSystem)
      requires k in releases
      modifies fs
      ensures (fs.files, fs.link) == Removed(old(fs.files), old(fs.link), Targets(releases, Evictable(releases, currentRelease, {k})))
    {
      if !SameAs(releases[k], currentRelease) {
        assert Targets(releases, Evictable(releases, currentRelease, {k})) == {Target(releases[k])};
        var _ := Remove(releases[k], fs);
      } else {
        assert Evictable(releases, currentRelease, {k}) == {};
        NothingRemoved(fs.files, fs.link, releases);
      }
    }

    /**
     * Grouped mode: the oldest minor lines in string order beyond `minorLimit` go whole;
     * on each line left, all but the newest `patchLimit` patches go; never the current
     * release.
     */
    method GroupedClean(minorLimit: nat, patchLimit: nat, fs: FileSystem)
      requires KeyedByVersion(releases)
      modifies fs
      ensures (fs.files, fs.link) == Removed(old(fs.files), old(fs.link),
        Targets(releases, GroupVictims(releases, currentRelease, minorLimit, patchLimit)))
    {
      ghost var files0, link0 := fs.files, fs.link;
      var groups := CollectGroups();
      var keys := SortedStrings(groups.Keys);
      var n := |keys| - minorLimit;
      if n > 0 {
        groups := DropLines(groups, keys, n, fs);
      } else {
        NoLineDropped(files0, link0, releases, currentRelease, keys, n);
      }
      ghost var mid := (fs.files, fs.link);
      TrimGroups(groups, patchLimit, fs);
      GroupedInTurn(files0, link0, releases, currentRelease, minorLimit, patchLimit, keys, groups.Keys, mid, (fs.files, fs.link));
    }

    /** Drops the first `n` minor lines of `keys`, from the disk and from the groups. */
    method DropLines(groups0: map<string, seq<Version>>, keys: seq<string>, n: nat, fs: FileSystem)
      returns (groups: map<string, seq<Version>>)
      requires n <= |keys| && forall i :: 0 <= i < |keys| ==> keys[i] in Groups(releases)
      modifies fs
      ensures groups.Keys == groups0.Keys - First(keys, n)
      ensures forall g :: g in groups ==> groups[g] == groups0[g]
      ensures (fs.files, fs.link) == Removed(old(fs.files), old(fs.link),
        Targets(releases, TildeVictims(releases, currentRelease, First(keys, n))))
    {
      ghost var files0, link0 := fs.files, fs.link;
      FirstNone(keys, 0);
      assert TildeVictims(releases, currentRelease, {}) == {};
      NothingRemoved(files0, link0, releases);
      groups := groups0;
      for i := 0 to n
        invariant groups.Keys == groups0.Keys - First(keys, i)
        invariant forall g :: g in groups ==> groups[g] == groups0[g]
        invariant (fs.files, fs.link) == Removed(files0, link0,
          Targets(releases, TildeVictims(releases, currentRelease, First(keys, i))))
      {
        var g := keys[i];
        FirstStep(keys, i);
        DropGroup(g, fs);
        TildeSplit(releases, currentRelease, First(keys, i), {g});
        RemovedInTurn(files0, link0, releases, TildeVictims(releases, currentRelease, First(keys, i)),
                      TildeVictims(releases, currentRelease, {g}));
        groups := groups - {g};
      }
    }

    /** The versions of each minor line, keyed `X.Y.0`, each list sorted. */
    method CollectGroups() returns (groups: map<string, seq<Version>>)
      requires KeyedByVersion(releases)
      ensures groups.Keys == Groups(releases)
      ensures forall g :: g in groups ==> groups[g] == VersionOrder(GroupVersions(releases, g))
    {
      groups := map[];
      var keys := Enumerate(releases.Keys);
      FirstNone(keys, 0);
      for i := 0 to |keys|
        invariant Collected(releases, First(keys, i), groups)
      {
        var k := keys[i];
        var v := releases[k].version;
        var g := GroupKey(v);
        var line := if g in groups then groups[g] else [];
        FirstStep(keys, i);
        FirstFresh(keys, i);
        CollectStep(releases, First(keys, i), groups, k, line);
        groups := groups[g := line + [v]];
      }
      FirstAll(keys, releases.Keys);
      groups := SortEach(groups);
    }

    /** `sort.Sort` on each group, in map order. */
    method SortEach(groups0: map<string, seq<Version>>) returns (groups: map<string, seq<Version>>)
      requires forall g :: g in groups0 ==>
        Ordering.Distinct(groups0[g]) && forall v :: v in groups0[g] <==> v in GroupVersions(releases, g)
      ensures groups.Keys == groups0.Keys
      ensures forall g :: g in groups ==> groups[g] == VersionOrder(GroupVersions(releases, g))
    {
      groups := groups0;
      var rest := groups0.Keys;
      while rest != {}
        invariant rest <= groups0.Keys && groups.Keys == groups0.Keys
        invariant forall g :: g in rest ==> groups[g] == groups0[g]
        invariant forall g :: g in groups && g !in rest ==> groups[g] == VersionOrder(GroupVersions(releases, g))
        decreases |rest|
      {
        var g :| g in rest;
        var sorted := Ordering.Sort(groups[g], Less);
        LessStrictTotalOrder();
        Ordering.SortIsListing(groups[g], GroupVersions(releases, g), Less);
        groups := groups[g := sorted];
        rest := rest - {g};
      }
    }

    /** Drops one minor line: every release matching `~g` except the current one. */
    method DropGroup(g: string, fs: FileSystem)
      requires g in Groups(releases)
      modifies fs
      ensures (fs.files, fs.link) == Removed(old(fs.files), old(fs.link), Targets(releases, TildeVictims(releases, currentRelease, {g})))
    {
      ghost var k0 :| k0 in releases && GroupKey(releases[k0].version) == g;
      ghost var w := releases[k0].version;
      var base := LineBase(g, w);
      var keys := Enumerate(releases.Keys);
      DropMatching(base, g, keys, w, fs);
      FirstAll(keys, releases.Keys);
      DropOnLine(releases, currentRelease, g);
    }

    /** The loop of `DropGroup` over the releases, in the order of `keys`. */
    method DropMatching(base: Version, g: string, keys: seq<string>, ghost w: Version, fs: FileSystem)
      requires (forall i :: 0 <= i < |keys| ==> keys[i] in releases) && g == GroupKey(w) && base == Version(w.major, w.minor, 0)
      modifies fs
      ensures (fs.files, fs.link) == Removed(old(fs.files), old(fs.link),
        Targets(releases, Evictable(releases, currentRelease, OnLine(releases, g, First(keys, |keys|)))))
    {
      ghost var files0, link0 := fs.files, fs.link;
      FirstNone(keys, 0);
      assert OnLine(releases, g, {}) == {};
      EvictNone(files0, link0, releases, currentRelease);
      for i := 0 to |keys|
        invariant (fs.files, fs.link) == Removed(files0, link0,
          Targets(releases, Evictable(releases, currentRelease, OnLine(releases, g, First(keys, i)))))
      {
        FirstStep(keys, i);
        OnLineMore(files0, link0, releases, currentRelease, g, First(keys, i), keys[i]);
        RemoveIfOnLine(base, g, keys[i], w, fs);
      }
    }

    /** One release of the loop of `DropGroup`: removed when `~base` matches it, unless it is current. */
    method RemoveIfOnLine(base: Version, g: string, k: string, ghost w: Version, fs: FileSystem)
      requires k in releases && g == GroupKey(w) && base == Version(w.major, w.minor, 0)
      modifies fs
      ensures (fs.files, fs.link) == Removed(old(fs.files), old(fs.link),
        Targets(releases, Evictable(releases, currentRelease, OnLine(releases, g, {k}))))
    {
      TildeLine(base, releases[k].version, g, w);
      if TildeMatch(base, releases[k].version) {
        assert OnLine(releases, g, {k}) == {k};
        RemoveUnlessCurrent(k, fs);
      } else {
        assert OnLine(releases, g, {k}) == {};
        EvictNone(fs.files, fs.link, releases, currentRelease);
      }
    }

    /** Trims each surviving line in turn, in map order. */
    method TrimGroups(groups: map<string, seq<Version>>, patchLimit: nat, fs: FileSystem)
      requires KeyedByVersion(releases)
      requires forall g :: g in groups ==> groups[g] == VersionOrder(GroupVersions(releases, g))
      modifies fs
      ensures (fs.files, fs.link) == Removed(old(fs.files), old(fs.link),
        Targets(releases, TrimVictims(releases, currentRelease, groups.Keys, patchLimit)))
    {
      ghost var files0, link0 := fs.files, fs.link;
      assert TrimVictims(releases, currentRelease, {}, patchLimit) == {};
      NothingRemoved(files0, link0, releases);
      var lines := Enumerate(groups.Keys);
      FirstNone(lines, 0);
      for i := 0 to |lines|
        invariant (fs.files, fs.link) == Removed(files0, link0,
          Targets(releases, TrimVictims(releases, currentRelease, First(lines, i), patchLimit)))
      {
        var g := lines[i];
        FirstStep(lines, i);
        TrimGroup(g, groups[g], patchLimit, fs);
        TrimSplit(releases, currentRelease, First(lines, i), {g}, patchLimit);
        RemovedInTurn(files0, link0, releases, TrimVictims(releases, currentRelease, First(lines, i), patchLimit),
                      TrimVictims(releases, currentRelease, {g}, patchLimit));
      }
      FirstAll(lines, groups.Keys);
    }

    /** Keeps the newest `patchLimit` versions of line `g`: the older ones go, except the current release. */
    method TrimGroup(g: string, values0: seq<Version>, patchLimit: nat, fs: FileSystem)
      requires KeyedByVersion(releases)
      requires values0 == VersionOrder(GroupVersions(releases, g))
      modifies fs
      ensures (fs.files, fs.link) == Removed(old(fs.files), old(fs.link),
        Targets(releases, TrimVictims(releases, currentRelease, {g}, patchLimit)))
    {
      var values := Ordering.Sort(values0, Less);
      LessStrictTotalOrder();
      Ordering.SortedIsDistinct(values0, Less);
      Ordering.SortIsListing(values0, GroupVersions(releases, g), Less);
      var n := |values| - patchLimit;
      TrimOf(releases, currentRelease, g, patchLimit);
      if n > 0 {
        TrimFirst(g, values, n, fs);
      } else {
        FirstNone(values, n);
        assert Printed({}) == {};
        EvictNone(fs.files, fs.link, releases, currentRelease);
      }
    }

    /** Removes the releases of the first `n` versions of line `g`, except the current release. */
    method TrimFirst(g: string, values: seq<Version>, n: nat, fs: FileSystem)
      requires KeyedByVersion(releases)
      requires n <= |values| && forall j :: 0 <= j < |values| ==> values[j] in GroupVersions(releases, g)
      modifies fs
      ensures (fs.files, fs.link) == Removed(old(fs.files), old(fs.link),
        Targets(releases, Evictable(releases, currentRelease, Printed(First(values, n)))))
    {
      ghost var files0, link0 := fs.files, fs.link;
      FirstNone(values, 0);
      assert Printed({}) == {};
      EvictNone(files0, link0, releases, currentRelease);
      for j := 0 to n
        invariant (fs.files, fs.link) == Removed(files0, link0,
          Targets(releases, Evictable(releases, currentRelease, Printed(First(values, j)))))
      {
        var v := values[j];
        VersionOnLine(releases, releases.Keys, g, v);
        FirstStep(values, j);
        PrintedStep(First(values, j), v);
        EvictMore(files0, link0, releases, currentRelease, Printed(First(values, j)), ToString(v));
        RemoveUnlessCurrent(ToString(v), fs);
      }
    }
  }

  // ------------------------------------------------------------ library calls

  /** The elements of a set in some order (a Go map's keys, in its iteration order). */
  method Enumerate<T>(s: set<T>) returns (ys: seq<T>)
    ensures Ordering.Distinct(ys) && forall z :: z in ys <==> z in s
  {
    ys := [];
    var rest := s;
    while rest != {}
      invariant rest <= s && Ordering.Distinct(ys)
      invariant forall z :: z in ys <==> z in s && z !in rest
      decreases |rest|
    {
      var x :| x in rest;
      ys := ys + [x];
      rest := rest - {x};
    }
  }

  /** `sort.Strings` applied to the elements of a set. */
  method SortedStrings(s: set<string>) returns (xs: seq<string>)
    ensures xs == StringOrder(s)
  {
    var ys := Enumerate(s);
    xs := Ordering.Sort(ys, LexLess);
    LexStrictTotalOrder();
    Ordering.SortIsListing(ys, s, LexLess);
  }

  // ------------------------------------------------------------ Load, one name at a time

  /** The state of `Load` once the first `i` names are in, all of them versions. */
  ghost predicate Progress(ps: seq<Result<Version, string>>, i: nat, prefix: string, directory: string, releases: map<string, Release>,
                           active: Option<Release>, active0: Option<Release>, resolved: Option<Path>) {
    && i <= FirstBad(ps)
    && releases.Keys == KeysUpTo(ps, i)
    && WellFormed(releases, directory, prefix)
    && ActiveFrom(active0, active, releases, resolved)
  }

  /** The caches `LoadedFrom` describes, as values. */
  ghost predicate LoadResult(names: seq<string>, resolved: Option<Path>, prefix: string, active0: Option<Release>, directory: string,
                             releases: map<string, Release>, last: Option<Release>, active: Option<Release>)
  {
    var ps := Parsed(names, prefix);
    // One named fact, proved and used whole by the lemmas below.
    var loaded :=
      && releases.Keys == KeysUpTo(ps, FirstBad(ps))
      && WellFormed(releases, directory, prefix)
      && IsLast(last, releases)
      && ActiveFrom(active0, active, releases, resolved)
      && TextsFrom(names, prefix, FirstBad(ps), releases);
    loaded
  }

  /** Where the loop of `Load` stops, it has loaded what `LoadResult` describes. */
  lemma LoadDone(names: seq<string>, ps: seq<Result<Version, string>>, i: nat, prefix: string, directory: string,
                 releases: map<string, Release>, last: Option<Release>, active: Option<Release>,
                 active0: Option<Release>, resolved: Option<Path>)
    requires ps == Parsed(names, prefix) && i <= |names|
    requires LoadInvariant(names, ps, i, prefix, directory, releases, last, active, active0, resolved)
    requires i == |ps| || (i < |ps| && ps[i].Failure?)
    ensures i == FirstBad(ps)
    ensures LoadResult(names, resolved, prefix, active0, directory, releases, last, active)
  {
    StopAt(ps, i, prefix, directory, releases, active, active0, resolved);
  }

  /** What the loop of `Load` keeps after taking in `i` names. */
  ghost predicate LoadInvariant(names: seq<string>, ps: seq<Result<Version, string>>, i: nat, prefix: string, directory: string,
                                releases: map<string, Release>, last: Option<Release>, active: Option<Release>,
                                active0: Option<Release>, resolved: Option<Path>)
    requires i <= |names|
  {
    // One named fact, proved and used whole by the lemmas below.
    var kept :=
      && Progress(ps, i, prefix, directory, releases, active, active0, resolved)
      && IsLast(last, releases)
      && TextsFrom(names, prefix, i, releases);
    kept
  }

  /** One turn of the loop of `Load`, on a name that is a version. */
  lemma LoadIteration(names: seq<string>, ps: seq<Result<Version, string>>, i: nat, prefix: string, directory: string,
                      releases: map<string, Release>, last: Option<Release>, active: Option<Release>,
                      active0: Option<Release>, resolved: Option<Path>, v: Version,
                      releases1: map<string, Release>, last1: Option<Release>, active1: Option<Release>)
    requires i < |names| && i < |ps| && ps[i] == Success(v) && Util.VersionFromFileName(names[i], prefix) == Success(v)
    requires LoadInvariant(names, ps, i, prefix, directory, releases, last, active, active0, resolved)
    requires var r := Release(v, DeleteAll(names[i], prefix), directory, prefix + ToString(v));
      && releases1 == releases[ToString(v) := r]
      && last1 == (if last.None? || Less(last.value.version, v) then Some(r) else last)
      && active1 == (if resolved == Some(Target(r)) then Some(r) else active)
    ensures LoadInvariant(names, ps, i + 1, prefix, directory, releases1, last1, active1, active0, resolved)
  {
    var r := Release(v, DeleteAll(names[i], prefix), directory, prefix + ToString(v));
    TextStep(names, prefix, i, releases, v, r);
    LastStep(last, releases, directory, prefix, v, r.original);
    LoadStep(ps, i, prefix, directory, releases, active, active0, resolved, v, r.original, releases1, active1);
  }

  /** Taking in one more name that is a version. */
  lemma LoadStep(ps: seq<Result<Version, string>>, i: nat, prefix: string, directory: string, releases: map<string, Release>,
                 active: Option<Release>, active0: Option<Release>, resolved: Option<Path>, v: Version,
                 text: string, releases1: map<string, Release>, active1: Option<Release>)
    requires Progress(ps, i, prefix, directory, releases, active, active0, resolved)
    requires i < |ps| && ps[i] == Success(v)
    requires var r := Release(v, text, directory, prefix + ToString(v));
      && releases1 == releases[ToString(v) := r]
      && active1 == (if resolved == Some(Target(r)) then Some(r) else active)
    ensures Progress(ps, i + 1, prefix, directory, releases1, active1, active0, resolved)
  {
    WellFormedStep(releases, directory, prefix, v, text);
    ActiveStep(active0, active, releases, resolved, directory, prefix, v, text);
    BadAfter(ps, i);
    KeysStep(ps, i, v);
  }

  lemma KeysStep(ps: seq<Result<Version, string>>, i: nat, v: Version)
    requires i < |ps| && ps[i] == Success(v)
    ensures KeysUpTo(ps, i + 1) == KeysUpTo(ps, i) + {ToString(v)}
  {
  }

  /**
   * The text after the prefix of the last of the first `n` names whose version prints as
   * `k`: the text the release `Load` files under `k` was read from.
   */
  ghost function TextOf(names: seq<string>, prefix: string, n: nat, k: string): string
    requires n <= |names|
  {
    if n == 0 then ""
    else match Util.VersionFromFileName(names[n - 1], prefix)
      case Success(v) => if ToString(v) == k then DeleteAll(names[n - 1], prefix) else TextOf(names, prefix, n - 1, k)
      case Failure(_) => TextOf(names, prefix, n - 1, k)
  }

  /** Each release keeps the text of the last of the first `n` names filed under its key. */
  ghost predicate TextsFrom(names: seq<string>, prefix: string, n: nat, releases: map<string, Release>)
    requires n <= |names|
  {
    forall k :: k in releases ==> releases[k].original == TextOf(names, prefix, n, k)
  }

  /** A later name of the same version replaces the release, and its text with it. */
  lemma TextStep(names: seq<string>, prefix: string, i: nat, releases: map<string, Release>, v: Version, r: Release)
    requires i < |names| && TextsFrom(names, prefix, i, releases)
    requires Util.VersionFromFileName(names[i], prefix) == Success(v) && r.original == DeleteAll(names[i], prefix)
    ensures TextsFrom(names, prefix, i + 1, releases[ToString(v) := r])
  {
  }

  /** Where the loop of `Load` stops: at the first name that is not a version, or at the end. */
  lemma StopAt(ps: seq<Result<Version, string>>, i: nat, prefix: string, directory: string, releases: map<string, Release>,
               active: Option<Release>, active0: Option<Release>, resolved: Option<Path>)
    requires Progress(ps, i, prefix, directory, releases, active, active0, resolved)
    requires i == |ps| || (i < |ps| && ps[i].Failure?)
    ensures i == FirstBad(ps)
    ensures releases.Keys == KeysUpTo(ps, FirstBad(ps))
  {
  }

  lemma BadAfter(ps: seq<Result<Version, string>>, i: nat)
    requires i <= FirstBad(ps) && i < |ps| && ps[i].Success?
    ensures i + 1 <= FirstBad(ps)
  {
  }

  lemma WellFormedStep(releases: map<string, Release>, directory: string, prefix: string, v: Version, text: string)
    requires WellFormed(releases, directory, prefix)
    ensures WellFormed(releases[ToString(v) := Release(v, text, directory, prefix + ToString(v))], directory, prefix)
  {
  }

  lemma LastStep(last: Option<Release>, releases: map<string, Release>, directory: string, prefix: string, v: Version, text: string)
    requires WellFormed(releases, directory, prefix) && IsLast(last, releases)
    ensures var r := Release(v, text, directory, prefix + ToString(v));
      IsLast(if last.None? || Less(last.value.version, v) then Some(r) else last, releases[ToString(v) := r])
  {
    var r := Release(v, text, directory, prefix + ToString(v));
    if last.Some? && !Less(last.value.version, v) {
      var k := ToString(last.value.version);
      if k == ToString(v) {
        ToStringInjective(last.value.version, v);
      }
    }
  }

  lemma ActiveStep(active0: Option<Release>, active: Option<Release>, releases: map<string, Release>,
                   resolved: Option<Path>, directory: string, prefix: string, v: Version, text: string)
    requires WellFormed(releases, directory, prefix) && ActiveFrom(active0, active, releases, resolved)
    ensures var r := Release(v, text, directory, prefix + ToString(v));
      ActiveFrom(active0, if resolved == Some(Target(r)) then Some(r) else active, releases[ToString(v) := r], resolved)
  {
    var key := ToString(v);
    var r := Release(v, text, directory, prefix + key);
    forall k | k in releases && k != key
      ensures Target(releases[k]) != Target(r)
    {
      if Target(releases[k]) == Target(r) {
        PrefixCancel(prefix, k, key);
      }
    }
    if key in releases {
      assert Target(releases[key]) == Target(r);
    }
    var active' := if resolved == Some(Target(r)) then Some(r) else active;
    var releases' := releases[key := r];
    forall k | k in releases' && resolved == Some(Target(releases'[k]))
      ensures active' == Some(releases'[k])
    {
      if k != key {
        assert active == Some(releases[k]);
      }
    }
    if forall k :: k in releases' ==> resolved != Some(Target(releases'[k])) {
      assert releases'[key] == r;
      forall k | k in releases ensures resolved != Some(Target(releases[k])) {
        assert k in releases';
      }
    }
  }

  lemma PrefixCancel(p: string, a: string, b: string)
    requires p + a == p + b
    ensures a == b
  {
    assert a == (p + a)[|p|..];
    assert b == (p + b)[|p|..];
  }

  // ------------------------------------------------------------ Size

  /** The sizes of the files of the releases with the given keys, by key. */
  function SizesOf(releases: map<string, Release>, keys: set<string>, directory: string, files: map<Path, nat>): map<string, nat>
    requires forall k :: k in keys ==> k in releases && Path(directory, releases[k].fileName) in files
  {
    map k | k in keys :: files[Path(directory, releases[k].fileName)]
  }

  /** The sizes of all the releases' files, by key. */
  function FileSizes(releases: map<string, Release>, directory: string, files: map<Path, nat>): map<string, nat>
    requires forall k :: k in releases ==> Path(directory, releases[k].fileName) in files
  {
    SizesOf(releases, releases.Keys, directory, files)
  }

  lemma SizesStep(releases: map<string, Release>, seen: set<string>, k: string, directory: string, files: map<Path, nat>)
    requires k in releases && k !in seen && Path(directory, releases[k].fileName) in files
    requires forall j :: j in seen ==> j in releases && Path(directory, releases[j].fileName) in files
    ensures Total(SizesOf(releases, seen + {k}, directory, files))
         == Total(SizesOf(releases, seen, directory, files)) + files[Path(directory, releases[k].fileName)]
  {
    var m := SizesOf(releases, seen, directory, files);
    assert SizesOf(releases, seen + {k}, directory, files) == m[k := files[Path(directory, releases[k].fileName)]];
    TotalAdd(m, k, files[Path(directory, releases[k].fileName)]);
  }

  // ------------------------------------------------------------ removal, one release at a time

  /** Which releases `RemoveWhere` takes: those older than `until`, or all. */
  ghost function Chosen(releases: map<string, Release>, until: Option<Version>): set<string> {
    if until.None? then releases.Keys else Older(releases, until.value)
  }

  /** The keys among `keys` that `RemoveWhere` takes. */
  ghost function ChosenIn(releases: map<string, Release>, until: Option<Version>, keys: set<string>): set<string> {
    set k | k in keys && k in releases && (until.None? || Less(releases[k].version, until.value))
  }

  lemma ChosenSplit(releases: map<string, Release>, until: Option<Version>, a: set<string>, b: set<string>)
    ensures ChosenIn(releases, until, a + b) == ChosenIn(releases, until, a) + ChosenIn(releases, until, b)
  {
  }

  /** What is taken among some keys is chosen, and among all the keys it is all that is chosen. */
  lemma ChosenWithin(releases: map<string, Release>, until: Option<Version>, keys: set<string>)
    ensures ChosenIn(releases, until, keys) <= Chosen(releases, until)
    ensures keys == releases.Keys ==> ChosenIn(releases, until, keys) == Chosen(releases, until)
  {
  }

  /**
   * Every release `RemoveWhere` chooses lies in `directory`, its file is on the disk, and
   * no two of them share a file: then each size check and each removal succeeds.
   */
  ghost predicate Removable(releases: map<string, Release>, until: Option<Version>, directory: string, files: map<Path, nat>) {
    && (forall k :: k in ChosenIn(releases, until, releases.Keys) ==> releases[k].cacheDirectory == directory && Target(releases[k]) in files)
    && (forall k, j :: k in ChosenIn(releases, until, releases.Keys) && j in ChosenIn(releases, until, releases.Keys) && k != j
          ==> Target(releases[k]) != Target(releases[j]))
  }

  /** A release not yet removed still has its file when the chosen ones are removable. */
  lemma RemovableNext(releases: map<string, Release>, until: Option<Version>, directory: string, files0: map<Path, nat>,
                      removed: set<string>, k: string)
    requires k in releases && k !in removed && removed <= ChosenIn(releases, until, releases.Keys)
    ensures Removable(releases, until, directory, files0) && k in ChosenIn(releases, until, {k})
      ==> var files := files0 - Targets(releases, removed);
          Path(directory, releases[k].fileName) in files && Target(releases[k]) in files
  {
    if Removable(releases, until, directory, files0) && k in ChosenIn(releases, until, {k}) {
      assert k in ChosenIn(releases, until, releases.Keys);
      assert Target(releases[k]) !in Targets(releases, removed);
    }
  }

  /**
   * A cache as `Load` builds it, each release in `directory` under the file `prefix + key`,
   * is removable whenever every release's file is on the disk.
   */
  lemma {:induction false} WellFormedRemovable(releases: map<string, Release>, until: Option<Version>, directory: string, prefix: string,
                                               files: map<Path, nat>)
    requires WellFormed(releases, directory, prefix)
    requires forall k :: k in releases ==> Target(releases[k]) in files
    ensures Removable(releases, until, directory, files)
  {
    forall k, j | k in releases && j in releases && k != j
      ensures Target(releases[k]) != Target(releases[j])
    {
      PrefixInjective(prefix, k, j);
    }
  }

  lemma PrefixInjective(prefix: string, a: string, b: string)
    requires a != b
    ensures prefix + a != prefix + b
  {
    assert (prefix + a)[|prefix|..] == a && (prefix + b)[|prefix|..] == b;
  }

  lemma NothingRemoved(files: map<Path, nat>, link: Option<Path>, releases: map<string, Release>)
    ensures Removed(files, link, Targets(releases, {})) == (files, link)
  {
    assert Targets(releases, {}) == {};
    RemovedNothing(files, link);
  }

  /** The grouped victims, split into the dropped lines' and the trimmed ones'. */
  lemma GroupVictimsSplit(releases: map<string, Release>, current: Option<Release>, minorLimit: nat, patchLimit: nat,
                          dropped: set<string>, kept: set<string>)
    requires dropped == DroppedGroups(releases, minorLimit) && kept == Groups(releases) - dropped
    ensures GroupVictims(releases, current, minorLimit, patchLimit)
         == TildeVictims(releases, current, dropped) + TrimVictims(releases, current, kept, patchLimit)
  {
  }

  /** When no minor line is in excess, none is dropped and nothing is removed. */
  lemma NoLineDropped(files: map<Path, nat>, link: Option<Path>, releases: map<string, Release>, current: Option<Release>,
                      keys: seq<string>, n: int)
    requires n <= 0
    ensures First(keys, n) == {}
    ensures Removed(files, link, Targets(releases, TildeVictims(releases, current, First(keys, n)))) == (files, link)
  {
    FirstNone(keys, n);
    assert TildeVictims(releases, current, {}) == {};
    NothingRemoved(files, link, releases);
  }

  /** Dropping the first lines in string order, then trimming the others, removes the grouped victims. */
  lemma GroupedInTurn(files0: map<Path, nat>, link0: Option<Path>, releases: map<string, Release>, current: Option<Release>,
                      minorLimit: nat, patchLimit: nat, keys: seq<string>, kept: set<string>,
                      mid: (map<Path, nat>, Option<Path>), after: (map<Path, nat>, Option<Path>))
    requires keys == StringOrder(Groups(releases))
    requires kept == Groups(releases) - First(keys, |keys| - minorLimit)
    requires mid == Removed(files0, link0, Targets(releases, TildeVictims(releases, current, First(keys, |keys| - minorLimit))))
    requires after == Removed(mid.0, mid.1, Targets(releases, TrimVictims(releases, current, kept, patchLimit)))
    ensures after == Removed(files0, link0, Targets(releases, GroupVictims(releases, current, minorLimit, patchLimit)))
  {
    var dropped := First(keys, |keys| - minorLimit);
    RemovedInTurn(files0, link0, releases, TildeVictims(releases, current, dropped), TrimVictims(releases, current, kept, patchLimit));
    GroupVictimsSplit(releases, current, minorLimit, patchLimit, dropped, kept);
  }

  /** Removing nothing of the evictable releases of no keys changes nothing. */
  lemma EvictNone(files: map<Path, nat>, link: Option<Path>, releases: map<string, Release>, current: Option<Release>)
    ensures Removed(files, link, Targets(releases, Evictable(releases, current, {}))) == (files, link)
  {
    assert Evictable(releases, current, {}) == {};
    NothingRemoved(files, link, releases);
  }

  /** Removing the files of `a` and then those of `b` removes the files of both. */
  lemma RemovedInTurn(files0: map<Path, nat>, link0: Option<Path>, releases: map<string, Release>, a: set<string>, b: set<string>)
    ensures var (f, l) := Removed(files0, link0, Targets(releases, a));
      Removed(f, l, Targets(releases, b)) == Removed(files0, link0, Targets(releases, a + b))
  {
    TargetsUnion(releases, a, b);
    RemovedTwice(files0, link0, Targets(releases, a), Targets(releases, b));
  }

  /** One more key considered for eviction, after those of `keys`. */
  lemma EvictMore(files0: map<Path, nat>, link0: Option<Path>, releases: map<string, Release>, current: Option<Release>,
                  keys: set<string>, k: string)
    ensures var (f, l) := Removed(files0, link0, Targets(releases, Evictable(releases, current, keys)));
      Removed(f, l, Targets(releases, Evictable(releases, current, {k})))
        == Removed(files0, link0, Targets(releases, Evictable(releases, current, keys + {k})))
  {
    assert Evictable(releases, current, keys + {k}) == Evictable(releases, current, keys) + Evictable(releases, current, {k});
    RemovedInTurn(files0, link0, releases, Evictable(releases, current, keys), Evictable(releases, current, {k}));
  }

  /** The given keys whose release `~g` matches. */
  ghost function OnLine(releases: map<string, Release>, g: string, keys: set<string>): set<string> {
    set k | k in keys && k in releases && TildeCovers(g, releases[k].version)
  }

  /** One more key considered for dropping, after those of `keys`. */
  lemma OnLineMore(files0: map<Path, nat>, link0: Option<Path>, releases: map<string, Release>, current: Option<Release>,
                   g: string, keys: set<string>, k: string)
    ensures var (f, l) := Removed(files0, link0, Targets(releases, Evictable(releases, current, OnLine(releases, g, keys))));
      Removed(f, l, Targets(releases, Evictable(releases, current, OnLine(releases, g, {k}))))
        == Removed(files0, link0, Targets(releases, Evictable(releases, current, OnLine(releases, g, keys + {k}))))
  {
    var a, b := OnLine(releases, g, keys), OnLine(releases, g, {k});
    assert OnLine(releases, g, keys + {k}) == a + b;
    assert Evictable(releases, current, a + b) == Evictable(releases, current, a) + Evictable(releases, current, b);
    RemovedInTurn(files0, link0, releases, Evictable(releases, current, a), Evictable(releases, current, b));
  }

  /** Evicting every release `~g` matches is dropping line `g`. */
  lemma DropOnLine(releases: map<string, Release>, current: Option<Release>, g: string)
    ensures Evictable(releases, current, OnLine(releases, g, releases.Keys)) == TildeVictims(releases, current, {g})
  {
  }

  /** The printed forms of some versions. */
  ghost function Printed(vs: set<Version>): set<string> {
    set v | v in vs :: ToString(v)
  }

  lemma PrintedStep(vs: set<Version>, v: Version)
    ensures Printed(vs + {v}) == Printed(vs) + {ToString(v)}
  {
  }

  /** One line's trim victims are the releases with its trimmed versions. */
  lemma TrimOf(releases: map<string, Release>, current: Option<Release>, g: string, patchLimit: nat)
    requires KeyedByVersion(releases)
    ensures TrimVictims(releases, current, {g}, patchLimit)
         == Evictable(releases, current, Printed(TrimmedVersions(releases, g, patchLimit)))
  {
    var trimmed := TrimmedVersions(releases, g, patchLimit);
    forall k | k in Evictable(releases, current, Printed(trimmed))
      ensures k in TrimVictims(releases, current, {g}, patchLimit)
    {
      var v :| v in trimmed && ToString(v) == k;
      VersionOnLine(releases, releases.Keys, g, v);
    }
    forall k | k in TrimVictims(releases, current, {g}, patchLimit)
      ensures k in Evictable(releases, current, Printed(trimmed))
    {
      assert ToString(releases[k].version) == k;
    }
  }

  /** The lines collected from the releases with keys `done`: each holds its versions once. */
  ghost predicate Collected(releases: map<string, Release>, done: set<string>, groups: map<string, seq<Version>>) {
    && groups.Keys == GroupsOf(releases, done)
    && forall g :: g in groups ==>
         Ordering.Distinct(groups[g]) && forall v :: v in groups[g] <==> v in VersionsOf(releases, done, g)
  }

  /** Folding one more release into the lines being collected. */
  lemma CollectStep(releases: map<string, Release>, done: set<string>, groups: map<string, seq<Version>>, k: string, line: seq<Version>)
    requires KeyedByVersion(releases) && k in releases && k !in done && Collected(releases, done, groups)
    requires line == if GroupKey(releases[k].version) in groups then groups[GroupKey(releases[k].version)] else []
    ensures Collected(releases, done + {k}, groups[GroupKey(releases[k].version) := line + [releases[k].version]])
  {
    var g := GroupKey(releases[k].version);
    CollectLine(releases, done, k, line, g);
    CollectOthers(releases, done, k, g);
    var groups1 := groups[g := line + [releases[k].version]];
    forall h | h in groups1
      ensures Ordering.Distinct(groups1[h]) && forall v :: v in groups1[h] <==> v in VersionsOf(releases, done + {k}, h)
    {
      if h != g {
        assert groups1[h] == groups[h];
      }
    }
  }

  /** The line of the new release gains its version, which it did not hold yet. */
  lemma CollectLine(releases: map<string, Release>, done: set<string>, k: string, line: seq<Version>, g: string)
    requires KeyedByVersion(releases) && k in releases && k !in done && g == GroupKey(releases[k].version)
    requires Ordering.Distinct(line) && forall v :: v in line <==> v in VersionsOf(releases, done, g)
    ensures Ordering.Distinct(line + [releases[k].version])
    ensures forall v :: v in line + [releases[k].version] <==> v in VersionsOf(releases, done + {k}, g)
  {
    var v := releases[k].version;
    if v in VersionsOf(releases, done, g) {
      VersionOnLine(releases, done, g, v);
    }
    assert v !in line;
  }

  /** The other lines do not change, and the new release's line is among the lines. */
  lemma CollectOthers(releases: map<string, Release>, done: set<string>, k: string, g: string)
    requires k in releases && g == GroupKey(releases[k].version)
    ensures GroupsOf(releases, done + {k}) == GroupsOf(releases, done) + {g}
    ensures forall h :: h != g ==> VersionsOf(releases, done + {k}, h) == VersionsOf(releases, done, h)
  {
  }

  // ------------------------------------------------------------ semver tilde

  /**
   * `semver.NewConstraint("~" + base).Check(v)` for a base without wildcards: at least
   * `base`, and below the next minor line unless `base` is 0.0.0, which the library reads
   * as `>= 0.0.0`.
   */
  predicate TildeMatch(base: Version, v: Version) {
    LessEq(base, v) && (base == Version(0, 0, 0) || Less(v, Version(base.major, base.minor + 1, 0)))
  }

  /** The key of a minor line parses back to the line's first version. */
  lemma LineParse(g: string, w: Version)
    requires g == GroupKey(w)
    ensures Parse(g) == Success(Version(w.major, w.minor, 0))
  {
    ParseToString(Version(w.major, w.minor, 0));
  }

  /** `semver.NewConstraint("~" + g)` for the key `g` of a minor line: the version it starts from. */
  method LineBase(g: string, ghost w: Version) returns (base: Version)
    requires g == GroupKey(w)
    ensures Parse(g) == Success(base) && base == Version(w.major, w.minor, 0)
  {
    LineParse(g, w);
    base := Parse(g).value;
  }

  /** `~X.Y.0` matches exactly the versions of line `X.Y`, and `~0.0.0` every version. */
  lemma TildeLine(base: Version, v: Version, g: string, w: Version)
    requires g == GroupKey(w) && base == Version(w.major, w.minor, 0)
    ensures TildeMatch(base, v) <==> TildeCovers(g, v)
  {
    if GroupKey(v) == g {
      ToStringInjective(Version(v.major, v.minor, 0), base);
    }
    if g == ZeroLine() {
      ToStringInjective(Version(0, 0, 0), base);
    }
  }
}
