/**
 * The filesystem as the loader sees it, as a value: which paths are
 * directories, which paths exist, and what the `glob` for entries named `*.*` returns
 * for each directory.
 */
module FileSystems {

  datatype FileSystem = FileSystem(
    dirs: set<string>,
    files: set<string>,
    listing: map<string, seq<string>>)
  {
    /** PHP `is_dir`. */
    predicate IsDir(path: string)
    {
      path in dirs
    }

    /** PHP `file_exists`, which is true for directories as well. */
    predicate FileExists(path: string)
    {
      path in files || path in dirs
    }

    /** The entries `glob` returns for the pattern `*.*` under `dir`, in the order it returns
        them; a directory without a listing has no matching entry. */
    function Glob(dir: string): seq<string>
    {
      if dir in listing then listing[dir] else []
    }

    /** What a real filesystem guarantees: only directories have listings,
        and every listed entry exists. */
    ghost predicate Valid()
    {
      && listing.Keys <= dirs
      && forall d, k :: d in listing && 0 <= k < |listing[d]| ==> FileExists(listing[d][k])
    }
  }
}
