/**
 * A cached Terraform release (pkg/tfs/release.go) and the operations on it that touch
 * only the disk: `SameAs`, `Size` and `Remove`. The operations that also update the
 * global cache (`Init`, `Install`, `Activate`) live with the cache.
 */
module Releases {
  import opened Wrappers
  import opened Versions
  import opened Disk

  /**
   * A release. `original` is the text its version was parsed from: the go-version value
   * keeps it (it is what `Original()` returns), so `reflect.DeepEqual` compares it too.
   */
  datatype Release = Release(version: Version, original: string, cacheDirectory: string, fileName: string)

  /** `filepath.Join(r.CacheDirectory, r.FileName)`. */
  function Target(r: Release): Path {
    Path(r.cacheDirectory, r.fileName)
  }

  /** `SameAs`: `reflect.DeepEqual` of two release references; a nil reference matches nothing. */
  predicate SameAs(r: Release, ref: Option<Release>) {
    ref.Some? && ref.value == r
  }

  /**
   * Structural equality: reflexive, symmetric, field by field (the text the version was
   * parsed from included), and false against nil.
   */
  lemma SameAsLaws(a: Release, b: Release)
    ensures SameAs(a, Some(a))
    ensures SameAs(a, Some(b)) <==> SameAs(b, Some(a))
    ensures SameAs(a, Some(b)) <==>
      a.version == b.version && a.original == b.original && a.cacheDirectory == b.cacheDirectory && a.fileName == b.fileName
    ensures !SameAs(a, None)
  {
  }

  /**
   * Two releases of one version, in one file, differ for `SameAs` as soon as their versions
   * were read from different texts ("1.2" and "1.2.0", say).
   */
  lemma SameAsSeesText(a: Release, text: string)
    requires text != a.original
    ensures !SameAs(a, Some(a.(original := text)))
    ensures Target(a.(original := text)) == Target(a)
  {
  }

  /**
   * `Size`: the length of the release's file, looked up in the cache's directory (not the
   * directory recorded in the release); an error when there is no such file.
   */
  function ReleaseSize(cacheDirectory: string, r: Release, fs: FileSystem): (res: Result<nat, string>)
    reads fs
    ensures res.Success? <==> Path(cacheDirectory, r.fileName) in fs.files
    ensures res.Success? ==> res.value == fs.files[Path(cacheDirectory, r.fileName)]
  {
    var target := Path(cacheDirectory, r.fileName);
    if target in fs.files then Success(fs.files[target])
    else Failure("stat " + target.dir + "/" + target.name + ": no such file or directory")
  }

  /** The size does not depend on the directory recorded in the release. */
  lemma SizeIgnoresRecordedDirectory(cacheDirectory: string, r: Release, elsewhere: string, fs: FileSystem)
    ensures ReleaseSize(cacheDirectory, r, fs) == ReleaseSize(cacheDirectory, r.(cacheDirectory := elsewhere), fs)
  {
  }

  /**
   * `Remove`: the link goes only when it resolves to this release's file; then the file
   * goes, and a missing file is an error.
   */
  method Remove(r: Release, fs: FileSystem) returns (err: Option<string>)
    modifies fs
    ensures (fs.files, fs.link) == Removed(old(fs.files), old(fs.link), {Target(r)})
    ensures err.None? <==> Target(r) in old(fs.files)
    ensures old(fs.link).Some? && old(fs.link) != Some(Target(r)) ==> fs.link == old(fs.link)
  {
    var target := Target(r);
    if fs.Resolved() == Some(target) {
      fs.link := None;
    }
    if target !in fs.files {
      assert fs.files - {target} == fs.files;
      return Some("remove " + target.dir + "/" + target.name + ": no such file or directory");
    }
    fs.files := fs.files - {target};
    return None;
  }
}
