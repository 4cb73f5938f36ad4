/**
 * The part of the operating system the cache touches: the files of the cache directory
 * with their sizes, and the `terraform` symbolic link in the user's bin directory.
 */
module Disk {
  import opened Wrappers
  import opened Strings

  /** `filepath.Join(dir, name)`, kept as its two parts. */
  datatype Path = Path(dir: string, name: string)

  class FileSystem {
    /** Regular files and their lengths in bytes. */
    var files: map<Path, nat>
    /** Where the `terraform` link points, when there is one. */
    var link: Option<Path>

    constructor(files: map<Path, nat>, link: Option<Path>)
      ensures this.files == files && this.link == link
    {
      this.files := files;
      this.link := link;
    }

    /**
     * `filepath.EvalSymlinks` on the link: its target, provided the link exists and the
     * target does too (a dangling link does not resolve).
     */
    function Resolved(): (r: Option<Path>)
      reads this
      ensures r.Some? <==> link.Some? && link.value in files
      ensures r.Some? ==> r == link
    {
      if link.Some? && link.value in files then link else None
    }
  }

  /** The names `filepath.Glob(dir/prefix*)` matches. */
  function Matching(files: map<Path, nat>, dir: string, prefix: string): (names: set<string>)
    ensures forall n :: n in names <==> Path(dir, n) in files && HasPrefix(n, prefix)
  {
    set p | p in files && p.dir == dir && HasPrefix(p.name, prefix) :: p.name
  }

  /**
   * The files and the link after the files `gone` have been removed one by one, each
   * removal first dropping the link when it resolves to the file removed.
   */
  function Removed(files: map<Path, nat>, link: Option<Path>, gone: set<Path>): (map<Path, nat>, Option<Path>) {
    (files - gone, if link.Some? && link.value in gone && link.value in files then None else link)
  }

  /** Removing nothing changes nothing. */
  lemma RemovedNothing(files: map<Path, nat>, link: Option<Path>)
    ensures Removed(files, link, {}) == (files, link)
  {
    assert files - {} == files;
  }

  /** Removing two sets in turn is removing their union, whichever comes first. */
  lemma RemovedTwice(files: map<Path, nat>, link: Option<Path>, a: set<Path>, b: set<Path>)
    ensures var (f, l) := Removed(files, link, a); Removed(f, l, b) == Removed(files, link, a + b)
  {
    var (f, l) := Removed(files, link, a);
    assert f - b == files - (a + b);
  }
}
