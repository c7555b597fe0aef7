/**
 * Construction of a configuration: resolve the path specification, pick a
 * parser for every file from its extension, parse it, and merge the parsed
 * trees. A single resolved file becomes the whole tree; several files are
 * each stored under their `pathinfo` filename, later files overwriting
 * earlier ones.
 */
module ConfigLoader {
  import opened Outcomes
  import opened FileSystems
  import opened PathNames
  import opened Parsers
  import opened PathResolution

  /** A value in a configuration tree, as the format parsers produce it. */
  datatype Value = Scalar(text: string) | List(elements: seq<Value>) | Dict(entries: map<string, Value>)

  /** The configuration data: the array the loader hands to its accessor
      layer. */
  type Tree = map<string, Value>

  /** The parsers' `parse($path)`, which the loader cannot see into: given
      the parser chosen and the file, the parsed tree, or `None` when the
      parser throws. */
  type ParseFn = (ParserKind, string) -> Option<Tree>

  /** The parser selected for a file: derive the extension from the basename
      and look it up in the registry. */
  function ParserFor(path: string): Result<ParserKind>
  {
    match Extension(Basename(path))
    case None => Err(UnsupportedFormat)
    case Some(extension) => FirstClaiming(SupportedFileParsers, extension)
  }

  /** One file's contents: its parser's output, or why there is none. */
  function ParseFile(path: string, parse: ParseFn): Result<Tree>
  {
    match ParserFor(path)
    case Err(e) => Err(e)
    case Ok(kind) =>
      match parse(kind, path)
      case None => Err(ParseError)
      case Some(items) => Ok(items)
  }

  /** The key a file's contents go under when several files are loaded. */
  function Key(path: string): string
  {
    Filename(Basename(path))
  }

  /** The multi-file policy: every file's contents under its key, in list
      order, so that a later file replaces an earlier one with the same key.
      The first file that cannot be parsed aborts. */
  function MergeAll(paths: seq<string>, parsed: string -> Result<Tree>, key: string -> string): Result<Tree>
    decreases |paths|
  {
    if paths == [] then Ok(map[])
    else
      var last := paths[|paths| - 1];
      match MergeAll(paths[..|paths| - 1], parsed, key)
      case Err(e) => Err(e)
      case Ok(data) =>
        match parsed(last)
        case Err(e) => Err(e)
        case Ok(items) => Ok(data[key(last) := Dict(items)])
  }

  /** Every file parsed as `ParseFile` does. */
  function Parsed(parse: ParseFn): string -> Result<Tree>
  {
    path => ParseFile(path, parse)
  }

  /** The merge policy: one file is the whole tree, unwrapped; any other
      number of files (none included) is merged by key. */
  function Merge(paths: seq<string>, parse: ParseFn): Result<Tree>
  {
    if |paths| == 1 then ParseFile(paths[0], parse) else MergeAll(paths, Parsed(parse), Key)
  }

  /** What constructing a configuration yields: the empty tree without a
      path, otherwise the merge of the resolved files. */
  function Loaded(fs: FileSystem, path: Option<PathSpec>, parse: ParseFn): Result<Tree>
  {
    match path
    case None => Ok(map[])
    case Some(spec) =>
      match Resolve(fs, spec)
      case Err(e) => Err(e)
      case Ok(paths) => Merge(paths, parse)
  }

  /** Once a prefix of the files fails, the whole merge fails the same way. */
  lemma {:induction false} MergeAllErrorSticks(paths: seq<string>, n: nat, parsed: string -> Result<Tree>, key: string -> string)
    requires n <= |paths|
    requires MergeAll(paths[..n], parsed, key).Err?
    ensures MergeAll(paths, parsed, key) == MergeAll(paths[..n], parsed, key)
    decreases |paths| - n
  {
    if n < |paths| {
      assert paths[..n + 1][..n] == paths[..n];
      MergeAllErrorSticks(paths, n + 1, parsed, key);
    } else {
      assert paths[..n] == paths;
    }
  }

  /** One more file extends the merge of a prefix. */
  lemma MergeAllStep(paths: seq<string>, i: nat, parsed: string -> Result<Tree>, key: string -> string)
    requires i < |paths|
    ensures MergeAll(paths[..i + 1], parsed, key) ==
      match MergeAll(paths[..i], parsed, key)
      case Err(e) => Err(e)
      case Ok(data) =>
        match parsed(paths[i])
        case Err(e) => Err(e)
        case Ok(items) => Ok(data[key(paths[i]) := Dict(items)])
  {
    assert paths[..i + 1][..i] == paths[..i] && paths[..i + 1][i] == paths[i];
  }

  /** The constructor, `__construct($path)`: the data starts empty; with a
      path, the resolved files are walked in order and merged. */
  method Construct(fs: FileSystem, path: Option<PathSpec>, parse: ParseFn) returns (r: Result<Tree>)
    ensures r == Loaded(fs, path, parse)
    ensures path.None? ==> r == Ok(map[])
    ensures path.Some? && Resolve(fs, path.value).Err? ==> r == Err(Resolve(fs, path.value).error)
    ensures path.Some? && Resolve(fs, path.value).Ok? && |Resolve(fs, path.value).value| == 1 ==>
      r == ParseFile(Resolve(fs, path.value).value[0], parse)
  {
    if path.None? {
      return Ok(map[]);
    }
    var resolved := GetValidPath(fs, path.value);
    if resolved.Err? {
      return Err(resolved.error);
    }
    r := MergeFiles(resolved.value, parse);
  }

  /** The per-file steps of `__construct`: derive the extension from the
      basename, ask the registry for a parser and parse the file with it.
      A file whose basename is exactly `dist`, or whose extension no parser
      claims, is unsupported; otherwise the result is what the first
      claiming parser makes of the file. */
  method ParsePath(file: string, parse: ParseFn) returns (r: Result<Tree>)
    ensures r == ParseFile(file, parse)
    ensures Extension(Basename(file)).None? ==> r == Err(UnsupportedFormat)
    ensures Extension(Basename(file)).Some? ==>
      (r == Err(UnsupportedFormat) <==> !Claimed(SupportedFileParsers, Extension(Basename(file)).value))
    ensures forall k :: Extension(Basename(file)).Some? && FirstClaimer(SupportedFileParsers, k, Extension(Basename(file)).value) ==>
      r == (if parse(SupportedFileParsers[k], file).None? then Err(ParseError) else Ok(parse(SupportedFileParsers[k], file).value))
  {
    var extension := Extension(Basename(file));
    if extension.None? {
      return Err(UnsupportedFormat);
    }
    var parser := GetParser(SupportedFileParsers, extension.value);
    FirstClaimingIsFirst(SupportedFileParsers, extension.value);
    if parser.Err? {
      return Err(parser.error);
    }
    var items := parse(parser.value, file);
    if items.None? {
      return Err(ParseError);
    }
    return Ok(items.value);
  }

  /** The walk over the resolved files in `__construct`: the first file of a
      one-file list becomes the data and ends the walk; otherwise each file's
      contents are stored under its filename. */
  method MergeFiles(paths: seq<string>, parse: ParseFn) returns (r: Result<Tree>)
    ensures r == Merge(paths, parse)
  {
    var data: Tree := map[];
    var i := 0;
    while i < |paths|
      invariant 0 <= i <= |paths|
      invariant |paths| == 1 ==> i == 0
      invariant |paths| != 1 ==> MergeAll(paths[..i], Parsed(parse), Key) == Ok(data)
    {
      var file := paths[i];
      MergeAllStep(paths, i, Parsed(parse), Key);
      var parsed := ParsePath(file, parse);
      assert Parsed(parse)(file) == parsed;
      if parsed.Err? {
        MergeAllErrorSticks(paths, i + 1, Parsed(parse), Key);
        return Err(parsed.error);
      }
      if |paths| == 1 {
        data := parsed.value;
        break;
      }
      data := data[Key(file) := Dict(parsed.value)];
      i := i + 1;
    }
    assert |paths| != 1 ==> paths[..i] == paths;
    return Ok(data);
  }

  /** The static `load($path)`: the same as constructing directly. */
  method Load(fs: FileSystem, path: Option<PathSpec>, parse: ParseFn) returns (r: Result<Tree>)
    ensures r == Loaded(fs, path, parse)
  {
    r := Construct(fs, path, parse);
  }

  /** The multi-file merge succeeds exactly when every file parses. */
  lemma {:induction false} MergeAllSucceeds(paths: seq<string>, parsed: string -> Result<Tree>, key: string -> string)
    ensures MergeAll(paths, parsed, key).Ok? <==> forall k :: 0 <= k < |paths| ==> parsed(paths[k]).Ok?
    decreases |paths|
  {
    if paths != [] {
      var init := paths[..|paths| - 1];
      MergeAllSucceeds(init, parsed, key);
      assert forall k :: 0 <= k < |init| ==> init[k] == paths[k];
    }
  }

  /** A failing merge reports the error of the first file that fails. */
  lemma {:induction false} MergeAllFirstError(paths: seq<string>, parsed: string -> Result<Tree>, key: string -> string)
    requires MergeAll(paths, parsed, key).Err?
    ensures exists k :: 0 <= k < |paths| && parsed(paths[k]) == Err(MergeAll(paths, parsed, key).error) &&
                        (forall j :: 0 <= j < k ==> parsed(paths[j]).Ok?)
    decreases |paths|
  {
    var init := paths[..|paths| - 1];
    assert forall k :: 0 <= k < |init| ==> init[k] == paths[k];
    if MergeAll(init, parsed, key).Err? {
      MergeAllFirstError(init, parsed, key);
    } else {
      MergeAllSucceeds(init, parsed, key);
      assert parsed(paths[|paths| - 1]) == Err(MergeAll(paths, parsed, key).error);
    }
  }

  /** The merged tree has one key per distinct filename among the files. */
  lemma {:induction false} MergeAllKeys(paths: seq<string>, parsed: string -> Result<Tree>, key: string -> string)
    requires MergeAll(paths, parsed, key).Ok?
    ensures MergeAll(paths, parsed, key).value.Keys == set p | p in paths :: key(p)
    decreases |paths|
  {
    if paths != [] {
      var n := |paths| - 1;
      var init, last := paths[..n], paths[n];
      MergeAllKeys(init, parsed, key);
      assert paths == init + [last];
      assert (set p | p in paths :: key(p)) == (set p | p in init :: key(p)) + {key(last)};
    }
  }

  /** Each key holds the contents of the last file with that filename:
      later files overwrite earlier ones entirely. */
  lemma {:induction false} MergeAllLastWins(paths: seq<string>, parsed: string -> Result<Tree>, key: string -> string)
    requires MergeAll(paths, parsed, key).Ok?
    ensures forall k :: 0 <= k < |paths| ==> parsed(paths[k]).Ok?
    ensures forall k :: 0 <= k < |paths| ==> key(paths[k]) in MergeAll(paths, parsed, key).value
    ensures forall k :: 0 <= k < |paths| && (forall j :: k < j < |paths| ==> key(paths[j]) != key(paths[k])) ==>
      MergeAll(paths, parsed, key).value[key(paths[k])] == Dict(parsed(paths[k]).value)
    decreases |paths|
  {
    MergeAllSucceeds(paths, parsed, key);
    MergeAllKeys(paths, parsed, key);
    if paths != [] {
      var n := |paths| - 1;
      var init, last := paths[..n], paths[n];
      MergeAllLastWins(init, parsed, key);
      var d := MergeAll(init, parsed, key).value;
      var merged := MergeAll(paths, parsed, key).value;
      assert merged == d[key(last) := Dict(parsed(last).value)];
      forall k | 0 <= k < |paths| && (forall j :: k < j < |paths| ==> key(paths[j]) != key(paths[k]))
        ensures merged[key(paths[k])] == Dict(parsed(paths[k]).value)
      {
        if k < n {
          assert init[k] == paths[k];
          assert forall j :: k < j < n ==> init[j] == paths[j];
          assert key(last) != key(paths[k]);
        }
      }
    }
  }

  /** With pairwise distinct filenames, `N` files give exactly `N` keys. */
  lemma {:induction false} DistinctKeysCount(paths: seq<string>, parsed: string -> Result<Tree>, key: string -> string)
    requires MergeAll(paths, parsed, key).Ok?
    requires forall i, j :: 0 <= i < j < |paths| ==> key(paths[i]) != key(paths[j])
    ensures |MergeAll(paths, parsed, key).value| == |paths|
    decreases |paths|
  {
    if paths != [] {
      var n := |paths| - 1;
      var init := paths[..n];
      assert forall k :: 0 <= k < n ==> init[k] == paths[k];
      DistinctKeysCount(init, parsed, key);
      MergeAllKeys(init, parsed, key);
      assert key(paths[n]) !in MergeAll(init, parsed, key).value;
    }
  }

  /** Two files with the same key: the second replaces the first
      entirely. */
  lemma SameKeyOverwrites(a: string, b: string, parsed: string -> Result<Tree>, key: string -> string)
    requires key(a) == key(b)
    requires parsed(a).Ok? && parsed(b).Ok?
    ensures MergeAll([a, b], parsed, key) == Ok(map[key(b) := Dict(parsed(b).value)])
  {
    assert [a, b][..1] == [a];
    assert [a][..0] == [];
    assert MergeAll([a], parsed, key) == Ok(map[key(a) := Dict(parsed(a).value)]);
    assert map[key(a) := Dict(parsed(a).value)][key(b) := Dict(parsed(b).value)]
      == map[key(b) := Dict(parsed(b).value)];
  }

  /** A `.dist` copy of a file selects the same parser as the file. */
  lemma DistFileParser(path: string)
    requires LastComponent(Basename(path)) != "dist"
    ensures ParserFor(path + ".dist") == ParserFor(path)
  {
    BasenameAppend(path, ".dist");
    DistSuffixIgnored(Basename(path));
  }

  /** A `.dist` copy of a file is keyed by the file's whole basename: only
      the last component, `dist`, is dropped. */
  lemma DistFileKey(path: string)
    ensures Key(path + ".dist") == Basename(path)
  {
    var base := Basename(path);
    BasenameAppend(path, ".dist");
    FilenameOfDist(base);
  }

  /** A single resolved file is the whole tree, with no key around it, also
      when it is the one file left after an optional element was skipped. */
  lemma OptionalSkipThenSingle(fs: FileSystem, missing: string, present: string, parse: ParseFn)
    requires missing == [] || missing[0] != '?'
    requires !fs.IsDir(missing) && !fs.FileExists(missing)
    requires present == [] || present[0] != '?'
    requires !fs.IsDir(present) && fs.FileExists(present)
    ensures Loaded(fs, Some(Group([Path("?" + missing), Path(present)])), parse) == ParseFile(present, parse)
  {
    OptionalMissingThenPresent(fs, missing, present);
  }

  /** Loading several files fails exactly when some resolved file cannot
      be parsed. */
  lemma LoadedMultiFileSucceeds(fs: FileSystem, spec: PathSpec, paths: seq<string>, parse: ParseFn)
    requires Resolve(fs, spec) == Ok(paths) && |paths| != 1
    ensures Loaded(fs, Some(spec), parse).Ok? <==> forall k :: 0 <= k < |paths| ==> ParseFile(paths[k], parse).Ok?
  {
    assert Loaded(fs, Some(spec), parse) == MergeAll(paths, Parsed(parse), Key);
    MergeAllSucceeds(paths, Parsed(parse), Key);
  }

  /** Loading several files that all parse: the data has one key per
      resolved file's filename. */
  lemma LoadedMultiFileKeys(fs: FileSystem, spec: PathSpec, paths: seq<string>, parse: ParseFn)
    requires Resolve(fs, spec) == Ok(paths) && |paths| != 1
    requires Loaded(fs, Some(spec), parse).Ok?
    ensures Loaded(fs, Some(spec), parse).value.Keys == (set p | p in paths :: Key(p))
  {
    assert Loaded(fs, Some(spec), parse) == MergeAll(paths, Parsed(parse), Key);
    MergeAllKeys(paths, Parsed(parse), Key);
  }

  /** Loading several files that all parse: each filename holds the
      contents of the last resolved file with that filename. */
  lemma LoadedMultiFileData(fs: FileSystem, spec: PathSpec, paths: seq<string>, parse: ParseFn)
    requires Resolve(fs, spec) == Ok(paths) && |paths| != 1
    requires Loaded(fs, Some(spec), parse).Ok?
    ensures forall k :: 0 <= k < |paths| ==>
      ParseFile(paths[k], parse).Ok? && Key(paths[k]) in Loaded(fs, Some(spec), parse).value
    ensures forall k :: 0 <= k < |paths| && (forall j :: k < j < |paths| ==> Key(paths[j]) != Key(paths[k])) ==>
      Loaded(fs, Some(spec), parse).value[Key(paths[k])] == Dict(ParseFile(paths[k], parse).value)
  {
    assert Loaded(fs, Some(spec), parse) == MergeAll(paths, Parsed(parse), Key);
    MergeAllLastWins(paths, Parsed(parse), Key);
  }

  /** An array that resolves to no files (empty, or only optional elements
      that are missing) loads as the empty tree, without an error. */
  lemma NoFilesLoadEmpty(fs: FileSystem, spec: PathSpec, parse: ParseFn)
    requires Resolve(fs, spec) == Ok([])
    ensures Loaded(fs, Some(spec), parse) == Ok(map[])
  {
  }
}
