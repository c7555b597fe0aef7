/**
 * The string operations the loader applies to file names: PHP's
 * `explode('.', ...)`, the `basename` and `filename` parts of `pathinfo`,
 * `ltrim(..., '?')`, and the extension derivation of the constructor,
 * which skips one trailing `dist` component.
 */
module PathNames {
  import opened Outcomes

  /** Position of the last occurrence of `c` in `s`, if any. */
  function LastIndex(s: string, c: char): (r: Option<nat>)
    ensures r.Some? ==> r.value < |s| && s[r.value] == c
  {
    if |s| == 0 then None
    else if s[|s| - 1] == c then Some(|s| - 1)
    else LastIndex(s[..|s| - 1], c)
  }

  /** `LastIndex` finds the last `c`: none follows it, and there is none
      at all when it finds nothing. */
  lemma {:induction false} LastIndexIsLast(s: string, c: char)
    ensures LastIndex(s, c).Some? ==> c !in s[LastIndex(s, c).value + 1..]
    ensures LastIndex(s, c).None? <==> c !in s
    decreases |s|
  {
    if |s| > 0 && s[|s| - 1] != c {
      var init := s[..|s| - 1];
      LastIndexIsLast(init, c);
      assert s == init + [s[|s| - 1]];
      match LastIndex(init, c)
      case Some(i) =>
        assert s[i + 1..] == init[i + 1..] + [s[|s| - 1]];
      case None =>
    }
  }

  /** Appending text without `c` does not move the last `c`. */
  lemma {:induction false} LastIndexAppend(a: string, b: string, c: char)
    requires c !in b
    ensures LastIndex(a + b, c) == LastIndex(a, c)
  {
    if |b| > 0 {
      var b' := b[..|b| - 1];
      assert (a + b)[..|a + b| - 1] == a + b';
      assert c !in b';
      LastIndexAppend(a, b', c);
    } else {
      assert a + b == a;
    }
  }

  /** In `a + [c] + b` with no `c` in `b`, the last `c` is the separator. */
  lemma LastIndexOfSeparator(a: string, c: char, b: string)
    requires c !in b
    ensures LastIndex(a + [c] + b, c) == Some(|a|)
  {
    LastIndexAppend(a + [c], b, c);
  }

  /** PHP `explode('.', s)`: every `.`-separated component, in order. It
      never returns an empty list (an empty string gives one empty part) and
      joining the parts back with `.` gives `s`. */
  function Explode(s: string): (parts: seq<string>)
    ensures |parts| >= 1
    ensures forall k :: 0 <= k < |parts| ==> '.' !in parts[k]
    ensures Implode(parts) == s
    decreases |s|
  {
    LastIndexIsLast(s, '.');
    match LastIndex(s, '.')
    case None => [s]
    case Some(i) =>
      var init := Explode(s[..i]);
      var parts := init + [s[i + 1..]];
      assert parts[..|parts| - 1] == init;
      assert s == s[..i] + "." + s[i + 1..];
      parts
  }

  /** PHP `implode('.', parts)`, the inverse of `Explode`. */
  function Implode(parts: seq<string>): string
    requires |parts| >= 1
  {
    if |parts| == 1 then parts[0]
    else Implode(parts[..|parts| - 1]) + "." + parts[|parts| - 1]
  }

  /** Adding one more `.`-free component adds exactly one part. */
  lemma ExplodeAppend(s: string, last: string)
    requires '.' !in last
    ensures Explode(s + "." + last) == Explode(s) + [last]
  {
    LastIndexOfSeparator(s, '.', last);
    var t := s + "." + last;
    assert t[..|s|] == s;
    assert t[|s| + 1..] == last;
  }

  /** The last `.`-separated component of a name. */
  function LastComponent(name: string): string
  {
    var parts := Explode(name);
    parts[|parts| - 1]
  }

  /** The extension the constructor derives from a basename: the last
      component, or, when that is `dist`, the one before it. `None` stands for
      the `null` that `array_pop` gives when the basename is exactly `dist`. */
  function Extension(basename: string): Option<string>
  {
    var parts := Explode(basename);
    var last := parts[|parts| - 1];
    if last != "dist" then Some(last)
    else if |parts| >= 2 then Some(parts[|parts| - 2])
    else None
  }

  /** A derived extension is a single `.`-free component; there is none
      only for a basename that is exactly `dist`. */
  lemma ExtensionIsComponent(basename: string)
    ensures Extension(basename).Some? ==> '.' !in Extension(basename).value
    ensures Extension(basename).None? <==> basename == "dist"
  {
    var parts := Explode(basename);
    if |parts| == 1 {
      assert Implode(parts) == parts[0];
    }
  }

  /** `name.ext` yields `ext`. */
  lemma ExtensionOfName(name: string, ext: string)
    requires '.' !in ext && ext != "dist"
    ensures Extension(name + "." + ext) == Some(ext)
  {
    ExplodeAppend(name, ext);
  }

  /** Unless it is `dist`, the last component is the extension; a name
      without a dot is therefore its own extension. */
  lemma ExtensionIsLastComponent(basename: string)
    requires LastComponent(basename) != "dist"
    ensures Extension(basename) == Some(LastComponent(basename))
    ensures '.' !in basename ==> Extension(basename) == Some(basename)
  {
    LastIndexIsLast(basename, '.');
  }

  /** A trailing `.dist` is skipped: `x.json.dist` yields what `x.json`
      yields, whenever `x.json` does not itself end in `dist`. */
  lemma {:induction false} DistSuffixIgnored(basename: string)
    requires LastComponent(basename) != "dist"
    ensures Extension(basename + ".dist") == Extension(basename)
  {
    var parts := Explode(basename);
    ExplodeDist(basename);
    var parts' := parts + ["dist"];
    assert parts'[|parts'| - 2] == parts[|parts| - 1];
  }

  lemma ExplodeDist(basename: string)
    ensures Explode(basename + ".dist") == Explode(basename) + ["dist"]
  {
    ExplodeAppend(basename, "dist");
    assert basename + ".dist" == basename + "." + "dist";
  }

  /** The `basename` part of `pathinfo`: everything after the last `/`. */
  function Basename(path: string): string
  {
    match LastIndex(path, '/')
    case None => path
    case Some(i) => path[i + 1..]
  }

  /** The basename is the path's last `/`-separated segment: a suffix of
      the path, without `/`, preceded by `/` unless it is the whole path. */
  lemma BasenameIsLastSegment(path: string)
    ensures '/' !in Basename(path)
    ensures |Basename(path)| <= |path| && path[|path| - |Basename(path)|..] == Basename(path)
    ensures |Basename(path)| < |path| ==> path[|path| - |Basename(path)| - 1] == '/'
  {
    LastIndexIsLast(path, '/');
  }

  /** A name without `/` appended under a directory is the basename. */
  lemma BasenameInDirectory(dir: string, name: string)
    requires '/' !in name
    ensures Basename(dir + "/" + name) == name
  {
    LastIndexOfSeparator(dir, '/', name);
    assert (dir + "/" + name)[|dir| + 1..] == name;
  }

  /** Appending a suffix without `/` appends it to the basename. */
  lemma BasenameAppend(path: string, suffix: string)
    requires '/' !in suffix
    ensures Basename(path + suffix) == Basename(path) + suffix
  {
    LastIndexAppend(path, suffix, '/');
    if LastIndex(path, '/').Some? {
      var i := LastIndex(path, '/').value;
      SliceOfAppend(path, suffix, i + 1);
    }
  }

  lemma SliceOfAppend(a: string, b: string, from: nat)
    requires from <= |a|
    ensures (a + b)[from..] == a[from..] + b
  {
  }

  /** The `filename` part of `pathinfo`: the basename without its last
      `.`-component only. */
  function Filename(basename: string): (stem: string)
    ensures |stem| <= |basename| && basename[..|stem|] == stem
  {
    match LastIndex(basename, '.')
    case None => basename
    case Some(i) => basename[..i]
  }

  /** Only the last extension is removed: `a.json.dist` has filename
      `a.json`, `a.json` has filename `a`. */
  lemma FilenameDropsLastComponent(name: string, ext: string)
    requires '.' !in ext
    ensures Filename(name + "." + ext) == name
  {
    LastIndexOfSeparator(name, '.', ext);
    assert (name + "." + ext)[..|name|] == name;
  }

  /** `x.dist` has filename `x`. */
  lemma FilenameOfDist(name: string)
    ensures Filename(name + ".dist") == name
  {
    FilenameDropsLastComponent(name, "dist");
    assert name + "." + "dist" == name + ".dist";
  }

  /** A filename and the last component put back together give the basename. */
  lemma FilenameAndLastComponent(basename: string)
    requires '.' in basename
    ensures Filename(basename) + "." + LastComponent(basename) == basename
  {
    LastIndexIsLast(basename, '.');
    var i := LastIndex(basename, '.').value;
    assert Explode(basename) == Explode(basename[..i]) + [basename[i + 1..]];
    assert basename == basename[..i] + "." + basename[i + 1..];
  }

  /** PHP `ltrim(s, c)`: drops every leading `c`. */
  function LTrim(s: string, c: char): (r: string)
    ensures |r| <= |s| && s[|s| - |r|..] == r
    ensures forall k :: 0 <= k < |s| - |r| ==> s[k] == c
    ensures r == [] || r[0] != c
  {
    if |s| > 0 && s[0] == c then LTrim(s[1..], c) else s
  }
}
