# vanry/config loader, modelled in Dafny

`Vanry\Config\Config` loads application configuration from one or more
files (PHP, INI, XML, JSON, YAML) into one tree. Its constructor does four
things, and this project models all four:

1. **Path resolution.** `getValidPath` and `getPathFromArray` turn a path
   specification into an ordered list of files. The specification is a
   string or a nested array. A directory expands to its `*.*` listing, and
   an empty listing fails with `EmptyDirectory`. A path that is neither a
   directory nor an existing file fails with `FileNotFound`. An array
   element written `?path` is optional: its `FileNotFound` is caught and the
   element is skipped. Any other failure is passed on.
2. **Extension derivation.** The basename is split on `.` and the last part
   is taken. If that part is `dist`, the part before it is taken instead.
3. **Parser lookup.** `getParser` scans the fixed list Php, Ini, Xml, Json,
   Yaml and returns the first parser that claims the extension. When none
   does, it fails with `UnsupportedFormat`.
4. **Merge.** A list of exactly one file makes that file's parsed content
   the whole data, with no key around it. Any other number of files stores
   each file's content under its `pathinfo` filename. A later file with the
   same filename replaces the earlier one entirely.

Modules, one per component:

- `Outcomes` (outcomes.dfy): the error kinds, `Result` and `Option`.
- `FileSystems` (filesystems.dfy): the filesystem as a value. It records
  which paths are directories, which exist, and what `glob` returns for
  each directory.
- `PathNames` (pathnames.dfy): `explode`, the `basename` and `filename`
  parts of `pathinfo`, `ltrim`, and extension derivation.
- `Parsers` (parsers.dfy): the parser kinds, their extensions,
  `$supportedFileParsers`, and `getParser`.
- `PathResolution` (resolution.dfy): `getValidPath` and `getPathFromArray`.
- `ConfigLoader` (loader.dfy): `__construct`, `load` and the merge policy.

Each loop of the source is a method. Its `ensures` clause ties the result
to a specification function: `GetPathFromArray` to `ResolveArray`,
`GetParser` to `FirstClaiming`, `MergeFiles` to `Merge`, and `Construct` to
`Loaded`. The lemmas then state what the source promises about those
functions.

The code decides the following points:

- The multi-file key is `pathinfo`'s `filename`. Only the last extension is
  removed, so `a.json.dist` is keyed `a.json`, not `a` (`DistFileKey`).
- Whether a load is single-file is decided after optional elements are
  skipped. So `["?missing", "present.json"]` yields the content of
  `present.json` with no key around it (`OptionalSkipThenSingle`).
- An array can resolve to no files: it is empty, or every element is a
  missing optional path. That is not an error, and the data stays the
  empty map (`NoFilesLoadEmpty`).
- A basename without a dot is its own extension. A file named `json` is
  parsed as JSON (`ExtensionIsLastComponent`).

## Model

| member | source | states |
|---|---|---|
| PathNames.Explode | src/Config.php:43 | `explode('.', ...)` returns at least one part, no part contains `.`, and joining the parts with `.` gives back the input |
| PathNames.ExtensionIsComponent | src/Config.php:43-49 | the derived extension is a single `.`-free component; there is none (PHP's `null`) exactly when the basename is `dist` |
| PathNames.ExtensionOfName | src/Config.php:43-49 | `name.ext` yields `ext` for any `.`-free `ext` other than `dist` |
| PathNames.ExtensionIsLastComponent | src/Config.php:43-49 | unless the last `.`-component is `dist`, it is the extension; a basename without a dot is its own extension |
| PathNames.DistSuffixIgnored | src/Config.php:45-49 | one trailing `.dist` is skipped: `x.dist` gives the same extension as `x` whenever `x` does not itself end in `dist` |
| PathNames.BasenameIsLastSegment | src/Config.php:41 | `pathinfo`'s basename is the path's last `/`-separated segment: a suffix without `/`, preceded by `/` unless it is the whole path |
| PathNames.BasenameInDirectory | src/Config.php:41 | a file `dir/name` listed under a directory has basename `name` |
| PathNames.FilenameDropsLastComponent | src/Config.php:41 | `pathinfo`'s filename removes only the last `.`-component: `name.ext` gives `name` |
| PathNames.FilenameAndLastComponent | src/Config.php:41-45 | for a basename with a dot, the filename, a `.` and the last exploded part put back together give the basename |
| PathNames.LTrim | src/Config.php:133 | `ltrim(s, '?')` removes exactly the leading `?` characters: the result is a suffix of `s`, everything removed is `?`, and the result does not start with `?` |
| Parsers.FirstClaimingIsFirst | src/Config.php:87-107 | the lookup fails with `UnsupportedFormat` exactly when no parser claims the extension; otherwise it returns a parser that claims it and no earlier parser in the list claims it |
| Parsers.DefaultParsersDisjoint | src/Config.php:18-24 | no extension is claimed by two of the five default parsers, and `php`, `ini`, `xml`, `json`, `yaml` and `yml` each select their own parser |
| Parsers.GetParser | src/Config.php:87-107 | the scan that breaks at the first claiming parser returns exactly the first-claiming parser, or `UnsupportedFormat` |
| PathResolution.GetValidPath | src/Config.php:161-185 | a directory yields its listing, or `EmptyDirectory` if the listing is empty; a path that is neither a directory nor existing yields `FileNotFound`; an existing non-directory yields exactly `[path]`; a string never resolves to an empty list; an array is resolved as `getPathFromArray` does |
| PathResolution.GetPathFromArray | src/Config.php:118-148 | the loop with its `try`/`catch` returns exactly `ResolveArray`, the element resolutions concatenated in order, with the first failing element's error |
| PathResolution.ResolveArrayConcat | src/Config.php:118-147 | resolving `a + b` resolves `a`, then `b`, and concatenates the two lists in that order; the first failure wins |
| PathResolution.ResolveArrayBase | src/Config.php:120-147 | an empty array resolves to the empty list without error; a one-element array resolves as its element |
| PathResolution.DuplicatesKept | src/Config.php:128-135 | an element listed twice contributes its files twice |
| PathResolution.OptionalMissingSkipped | src/Config.php:127-143 | an optional element whose trimmed path is not found is skipped, wherever it stands in the array |
| PathResolution.ElementFailureAborts | src/Config.php:136-144 | a required element that is not found, an empty directory (optional or not) and a failing nested array each abort the whole array with their error |
| PathResolution.ElementCatchesOnlyOptionalNotFound | src/Config.php:127-143 | only `FileNotFound` of an element marked `?` is caught, after its leading `?`s are removed; an element fails with `EmptyDirectory` exactly when its path is an empty directory, optional or not |
| PathResolution.ResolvedPathsExist | src/Config.php:161-185 | on a well-formed filesystem, every resolved path exists |
| PathResolution.ResolvedArrayExists | src/Config.php:118-148 | on a well-formed filesystem, every path an array resolves to exists |
| PathResolution.OptionalMissingThenPresent | src/Config.php:118-147 | `["?missing", "present"]`, with `missing` absent, resolves to exactly `[present]` |
| ConfigLoader.ParsePath | src/Config.php:41-51 | a file whose basename is exactly `dist` is unsupported; otherwise it is unsupported exactly when no default parser claims its extension; when one does, the result is the first claiming parser's output for the file, or `ParseError` when that parser fails |
| ConfigLoader.MergeFiles | src/Config.php:40-60 | the walk over the resolved files gives exactly `Merge`: one file is the whole data, unwrapped; otherwise each file's content is stored under its filename, in order; the first file that cannot be parsed aborts |
| ConfigLoader.Construct | src/Config.php:33-64 | no path gives the empty data; a resolution error is the load's error; a one-file resolution gives that file's content unwrapped; otherwise the result is the merge of the resolved files |
| ConfigLoader.Load | src/Config.php:73-76 | the static `load` gives the same result as construction |
| ConfigLoader.MergeAllErrorSticks | src/Config.php:40-60 | once the files up to some point fail, the whole merge fails with that error |
| ConfigLoader.MergeAllSucceeds | src/Config.php:40-60 | the multi-file merge succeeds exactly when every file parses |
| ConfigLoader.MergeAllFirstError | src/Config.php:40-60 | a failed merge reports the error of the first file that fails, and every file before it parses |
| ConfigLoader.MergeAllKeys | src/Config.php:59 | the merged data has exactly one key per distinct filename among the files |
| ConfigLoader.MergeAllLastWins | src/Config.php:59 | every file's key is present, and each key holds the content of the last file with that key |
| ConfigLoader.DistinctKeysCount | src/Config.php:59 | `N` files with pairwise distinct filenames give exactly `N` keys |
| ConfigLoader.SameKeyOverwrites | src/Config.php:59 | two files with the same key leave only the second file's content under it |
| ConfigLoader.DistFileParser | src/Config.php:41-51 | `x.json.dist` selects the same parser as `x.json` |
| ConfigLoader.DistFileKey | src/Config.php:41-59 | a `.dist` file is keyed by the full basename of the file it copies (`a.json.dist` under `a.json`) |
| ConfigLoader.OptionalSkipThenSingle | src/Config.php:53-57 | after a missing optional element is skipped, a single remaining file is the whole data, with no key around it |
| ConfigLoader.LoadedMultiFileSucceeds | src/Config.php:40-60 | loading several resolved files fails exactly when one of them cannot be parsed |
| ConfigLoader.LoadedMultiFileKeys | src/Config.php:59 | loading several files gives one key per resolved file's filename |
| ConfigLoader.LoadedMultiFileData | src/Config.php:51-59 | loading several files stores under each filename the content of the last resolved file with that filename |
| ConfigLoader.NoFilesLoadEmpty | src/Config.php:35-40 | a specification that resolves to no files loads as the empty data, without an error |

## Left out

- Filesystem calls (`is_dir`, `glob`, `file_exists`): these are a
  `FileSystem` value. The listing map gives `glob`'s result for the `*.*`
  pattern directly, in whatever order it holds. The pattern match itself,
  with its rule about leading dots, is not modelled. A directory without a
  listing has no matching entry.
- Changes to the filesystem during a load: every check reads the same
  `FileSystem` value.
- The format parsers: parsing is the parameter `parse`, which the model
  cannot see into. Each parser's extensions are those its
  `getSupportedExtensions` returns. A parser's exception is the single
  error kind `ParseError`; its message and exception class are not
  modelled.
- Exception messages: only the error kinds are modelled.
- The `AbstractConfig` base class and its `get`/`set`/`has` accessors:
  the model ends with the data handed to `parent::__construct`.
- The `Config` object: construction is a method that returns the data or
  the error, because a constructor that throws leaves no object.
- PHP string offsets on non-strings: `$unverifiedPath[0]` on a nested
  array is not modelled, and nested arrays are never optional.
  `$unverifiedPath[0]` on an empty string gives no `?`, so an empty element
  is not optional, as in PHP.
- Trailing slashes: `pathinfo` strips a trailing `/` before it takes the
  basename. Paths here are taken not to end in `/`.
- PHP array keys: trees have string keys only. Integer keys of list-like
  parsed arrays are not modelled.
- Key order: PHP arrays keep insertion order, and a key that a later file
  overwrites keeps the position of its first file. `Tree` is a map, so the
  order of keys is not modelled; only which keys exist and what they hold.
- Loose comparison in `in_array`: an extension that is PHP's `null` is
  modelled as matching no parser. `null == ''` would match only an empty
  extension, and no parser claims one.
