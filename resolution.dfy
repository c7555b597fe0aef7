/**
 * Turning a path specification into the ordered list of files to load:
 * `getValidPath` (a string names a directory or a file; an array is handed
 * to `getPathFromArray`) and `getPathFromArray` (resolve every element in
 * order, skipping an optional `?path` element that is not found).
 */
module PathResolution {
  import opened Outcomes
  import opened FileSystems
  import opened PathNames

  /** A path specification: a path string, or an array of specifications. */
  datatype PathSpec = Path(path: string) | Group(items: seq<PathSpec>)

  /** Nesting measure; a path string weighs nothing, so the optional branch,
      which resolves a trimmed string rather than a sub-term, still
      terminates. */
  function Size(spec: PathSpec): nat
    decreases spec
  {
    match spec
    case Path(_) => 0
    case Group(items) => 1 + SizeAll(items)
  }

  function SizeAll(items: seq<PathSpec>): nat
    decreases items
  {
    if items == [] then 0 else 1 + Size(items[0]) + SizeAll(items[1..])
  }

  lemma {:induction false} SizeAllBound(items: seq<PathSpec>, k: nat)
    requires k < |items|
    ensures Size(items[k]) < SizeAll(items)
    decreases items
  {
    if k > 0 {
      SizeAllBound(items[1..], k - 1);
    }
  }

  /** An array element written `?path` is optional. Only string elements
      can be: a nested array is never optional. */
  predicate IsOptional(item: PathSpec)
  {
    item.Path? && |item.path| > 0 && item.path[0] == '?'
  }

  /** The three cases of `getValidPath` on a string. */
  function ResolveString(fs: FileSystem, path: string): Result<seq<string>>
  {
    if fs.IsDir(path) then
      var found := fs.Glob(path);
      if found == [] then Err(EmptyDirectory) else Ok(found)
    else if !fs.FileExists(path) then Err(FileNotFound)
    else Ok([path])
  }

  /** `getValidPath`. */
  function Resolve(fs: FileSystem, spec: PathSpec): Result<seq<string>>
    decreases Size(spec), 1
  {
    match spec
    case Path(path) => ResolveString(fs, path)
    case Group(items) => ResolveArray(fs, items)
  }

  /** One pass of the `try`/`catch` in `getPathFromArray`: an optional
      element is resolved without its leading `?`s and a `FileNotFound` from
      it becomes "nothing to add"; every other failure propagates. */
  function ResolveElement(fs: FileSystem, item: PathSpec): Result<seq<string>>
    decreases Size(item), 2
  {
    if IsOptional(item) then
      match ResolveString(fs, LTrim(item.path, '?'))
      case Err(FileNotFound) => Ok([])
      case other => other
    else Resolve(fs, item)
  }

  /** `getPathFromArray`: the element results concatenated in input order;
      the first failing element's error aborts. */
  function ResolveArray(fs: FileSystem, items: seq<PathSpec>): Result<seq<string>>
    decreases SizeAll(items), 3
  {
    if items == [] then Ok([])
    else
      SizeAllBound(items, 0);
      Prepend(ResolveElement(fs, items[0]), ResolveArray(fs, items[1..]))
  }

  /** Sequencing two resolutions, left first, as `array_merge` after each
      successful step does. */
  function Prepend(first: Result<seq<string>>, rest: Result<seq<string>>): Result<seq<string>>
  {
    match first
    case Err(e) => Err(e)
    case Ok(ps) =>
      match rest
      case Err(e) => Err(e)
      case Ok(qs) => Ok(ps + qs)
  }

  lemma PrependUnit(r: Result<seq<string>>)
    ensures Prepend(Ok([]), r) == r
    ensures Prepend(r, Ok([])) == r
  {
    if r.Ok? {
      assert [] + r.value == r.value + [] == r.value;
    }
  }

  lemma PrependAssoc(a: Result<seq<string>>, b: Result<seq<string>>, c: Result<seq<string>>)
    ensures Prepend(Prepend(a, b), c) == Prepend(a, Prepend(b, c))
  {
    if a.Ok? && b.Ok? && c.Ok? {
      assert a.value + b.value + c.value == a.value + (b.value + c.value);
    }
  }

  /** `getValidPath` as the source runs it. On a string it returns the
      directory's listing, fails with `EmptyDirectory` on an empty directory,
      fails with `FileNotFound` on a path that is neither a directory nor an
      existing file, and otherwise returns exactly that path. */
  method GetValidPath(fs: FileSystem, spec: PathSpec) returns (r: Result<seq<string>>)
    ensures r == Resolve(fs, spec)
    ensures spec.Path? && fs.IsDir(spec.path) ==>
      r == if fs.Glob(spec.path) == [] then Err(EmptyDirectory) else Ok(fs.Glob(spec.path))
    ensures spec.Path? && !fs.IsDir(spec.path) ==>
      (r == Err(FileNotFound) <==> !fs.FileExists(spec.path))
    ensures spec.Path? && !fs.IsDir(spec.path) && fs.FileExists(spec.path) ==>
      r == Ok([spec.path])
    ensures spec.Path? && r.Ok? ==> r.value != []
    decreases Size(spec), 0
  {
    if spec.Group? {
      r := GetPathFromArray(fs, spec.items);
      return;
    }
    var path := spec.path;
    if fs.IsDir(path) {
      var paths := fs.Glob(path);
      if paths == [] {
        return Err(EmptyDirectory);
      }
      return Ok(paths);
    }
    if !fs.FileExists(path) {
      return Err(FileNotFound);
    }
    return Ok([path]);
  }

  /** `getPathFromArray` as the source runs it: a loop accumulating the
      paths, with the optional element's `FileNotFound` caught and skipped. */
  method GetPathFromArray(fs: FileSystem, items: seq<PathSpec>) returns (r: Result<seq<string>>)
    ensures r == ResolveArray(fs, items)
    decreases SizeAll(items), 1
  {
    var paths: seq<string> := [];
    var i := 0;
    PrependUnit(ResolveArray(fs, items));
    while i < |items|
      invariant 0 <= i <= |items|
      invariant ResolveArray(fs, items) == Prepend(Ok(paths), ResolveArray(fs, items[i..]))
    {
      var item := items[i];
      assert items[i..][0] == item && items[i..][1..] == items[i + 1..];
      assert ResolveArray(fs, items[i..])
        == Prepend(ResolveElement(fs, item), ResolveArray(fs, items[i + 1..]));
      PrependAssoc(Ok(paths), ResolveElement(fs, item), ResolveArray(fs, items[i + 1..]));
      if !IsOptional(item) {
        SizeAllBound(items, i);
        var found := GetValidPath(fs, item);
        assert ResolveElement(fs, item) == found;
        if found.Err? {
          return Err(found.error);
        }
        assert ResolveElement(fs, item) == found;
        paths := paths + found.value;
      } else {
        var found := GetValidPath(fs, Path(LTrim(item.path, '?')));
        if found.Err? {
          if found.error == FileNotFound {
            assert ResolveElement(fs, item) == Ok([]);
            assert paths + [] == paths;
            i := i + 1;
            continue;
          }
          return Err(found.error);
        }
        assert ResolveElement(fs, item) == found;
        paths := paths + found.value;
      }
      i := i + 1;
    }
    assert items[i..] == [];
    PrependUnit(Ok(paths));
    return Ok(paths);
  }

  /** Resolving an array is a homomorphism from concatenation of
      specifications to concatenation of file lists: the parts are resolved
      left to right and the first failure wins. */
  lemma {:induction false} ResolveArrayConcat(fs: FileSystem, a: seq<PathSpec>, b: seq<PathSpec>)
    ensures ResolveArray(fs, a + b) == Prepend(ResolveArray(fs, a), ResolveArray(fs, b))
    decreases |a|
  {
    if a == [] {
      assert a + b == b;
      PrependUnit(ResolveArray(fs, b));
    } else {
      assert (a + b)[0] == a[0] && (a + b)[1..] == a[1..] + b;
      ResolveArrayConcat(fs, a[1..], b);
      PrependAssoc(ResolveElement(fs, a[0]), ResolveArray(fs, a[1..]), ResolveArray(fs, b));
    }
  }

  /** A one-element array resolves as its element does; an empty array
      resolves to no files and no error. */
  lemma ResolveArrayBase(fs: FileSystem, item: PathSpec)
    ensures ResolveArray(fs, []) == Ok([])
    ensures ResolveArray(fs, [item]) == ResolveElement(fs, item)
  {
    assert [item][1..] == [];
    PrependUnit(ResolveElement(fs, item));
  }

  /** Duplicates are kept: listing a specification twice lists its files
      twice. */
  lemma DuplicatesKept(fs: FileSystem, item: PathSpec, ps: seq<string>)
    requires ResolveElement(fs, item) == Ok(ps)
    ensures ResolveArray(fs, [item, item]) == Ok(ps + ps)
  {
    ResolveArrayConcat(fs, [item], [item]);
    assert [item] + [item] == [item, item];
    ResolveArrayBase(fs, item);
  }

  /** An optional element whose trimmed path is not found is skipped,
      wherever it stands in the array. */
  lemma OptionalMissingSkipped(fs: FileSystem, before: seq<PathSpec>, path: string, after: seq<PathSpec>)
    requires IsOptional(Path(path))
    requires ResolveString(fs, LTrim(path, '?')) == Err(FileNotFound)
    ensures ResolveArray(fs, before + [Path(path)] + after) == ResolveArray(fs, before + after)
  {
    ResolveArrayConcat(fs, before + [Path(path)], after);
    ResolveArrayConcat(fs, before, [Path(path)]);
    ResolveArrayConcat(fs, before, after);
    ResolveArrayBase(fs, Path(path));
    PrependUnit(ResolveArray(fs, before));
  }

  /** Any element that fails (a required path that is not found, an empty
      directory even when optional, a failing nested array) aborts the whole
      array with its error, once the elements before it have resolved. */
  lemma ElementFailureAborts(fs: FileSystem, before: seq<PathSpec>, item: PathSpec, after: seq<PathSpec>)
    requires ResolveArray(fs, before).Ok?
    requires ResolveElement(fs, item).Err?
    ensures ResolveArray(fs, before + [item] + after) == Err(ResolveElement(fs, item).error)
  {
    ResolveArrayConcat(fs, before + [item], after);
    ResolveArrayConcat(fs, before, [item]);
    ResolveArrayBase(fs, item);
  }

  /** Which element failures are caught: a not-found error only, and only
      for an element marked optional. */
  lemma ElementCatchesOnlyOptionalNotFound(fs: FileSystem, item: PathSpec)
    ensures IsOptional(item) ==>
      ResolveElement(fs, item) ==
        if ResolveString(fs, LTrim(item.path, '?')) == Err(FileNotFound) then Ok([])
        else ResolveString(fs, LTrim(item.path, '?'))
    ensures !IsOptional(item) ==> ResolveElement(fs, item) == Resolve(fs, item)
    ensures ResolveElement(fs, item) == Err(EmptyDirectory) <==>
      Resolve(fs, if IsOptional(item) then Path(LTrim(item.path, '?')) else item) == Err(EmptyDirectory)
  {
  }

  /** On a well-formed filesystem, every resolved path exists. */
  lemma {:induction false} ResolvedPathsExist(fs: FileSystem, spec: PathSpec)
    requires fs.Valid()
    ensures Resolve(fs, spec).Ok? ==>
      forall k :: 0 <= k < |Resolve(fs, spec).value| ==> fs.FileExists(Resolve(fs, spec).value[k])
    decreases Size(spec), 1
  {
    match spec
    case Path(path) =>
      ResolvedStringExists(fs, path);
    case Group(items) =>
      ResolvedArrayExists(fs, items);
  }

  lemma ResolvedStringExists(fs: FileSystem, path: string)
    requires fs.Valid()
    ensures ResolveString(fs, path).Ok? ==>
      forall k :: 0 <= k < |ResolveString(fs, path).value| ==> fs.FileExists(ResolveString(fs, path).value[k])
  {
  }

  lemma {:induction false} ResolvedArrayExists(fs: FileSystem, items: seq<PathSpec>)
    requires fs.Valid()
    ensures ResolveArray(fs, items).Ok? ==>
      forall k :: 0 <= k < |ResolveArray(fs, items).value| ==> fs.FileExists(ResolveArray(fs, items).value[k])
    decreases SizeAll(items), 3
  {
    if items != [] {
      var item := items[0];
      SizeAllBound(items, 0);
      if IsOptional(item) {
        ResolvedStringExists(fs, LTrim(item.path, '?'));
      } else {
        ResolvedPathsExist(fs, item);
      }
      ResolvedArrayExists(fs, items[1..]);
    }
  }

  /** `["?missing", "present"]` with `missing` absent resolves to the one
      file `present`: the optional element leaves no trace. */
  lemma OptionalMissingThenPresent(fs: FileSystem, missing: string, present: string)
    requires missing == [] || missing[0] != '?'
    requires !fs.IsDir(missing) && !fs.FileExists(missing)
    requires present == [] || present[0] != '?'
    requires !fs.IsDir(present) && fs.FileExists(present)
    ensures Resolve(fs, Group([Path("?" + missing), Path(present)])) == Ok([present])
  {
    var opt := Path("?" + missing);
    assert ("?" + missing)[1..] == missing;
    assert LTrim("?" + missing, '?') == missing;
    OptionalMissingSkipped(fs, [], "?" + missing, [Path(present)]);
    assert [] + [opt] + [Path(present)] == [opt, Path(present)];
    assert [] + [Path(present)] == [Path(present)];
    ResolveArrayBase(fs, Path(present));
  }
}
