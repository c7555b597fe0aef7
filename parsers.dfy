/**
 * The parser registry: the five format parsers the loader knows, each with
 * the extensions it claims, in the fixed order the lookup tries them.
 */
module Parsers {
  import opened Outcomes

  /** The format parsers `FileParser\Php`, `Ini`, `Xml`, `Json`, `Yaml`. */
  datatype ParserKind = Php | Ini | Xml | Json | Yaml

  /** What each parser's `getSupportedExtensions` returns. */
  function SupportedExtensions(kind: ParserKind): set<string>
  {
    match kind
    case Php => {"php"}
    case Ini => {"ini"}
    case Xml => {"xml"}
    case Json => {"json"}
    case Yaml => {"yaml", "yml"}
  }

  /** `$supportedFileParsers`, in declaration order. */
  const SupportedFileParsers: seq<ParserKind> := [Php, Ini, Xml, Json, Yaml]

  /** Whether some parser in `parsers` claims `extension`. */
  predicate Claimed(parsers: seq<ParserKind>, extension: string)
  {
    exists k :: 0 <= k < |parsers| && extension in SupportedExtensions(parsers[k])
  }

  /** Reference definition of the lookup: the first parser in `parsers` that
      claims `extension`, or `UnsupportedFormat`. */
  function FirstClaiming(parsers: seq<ParserKind>, extension: string): Result<ParserKind>
  {
    if parsers == [] then Err(UnsupportedFormat)
    else if extension in SupportedExtensions(parsers[0]) then Ok(parsers[0])
    else FirstClaiming(parsers[1..], extension)
  }

  /** `parsers[k]` claims `extension` and no parser before it does. */
  predicate FirstClaimer(parsers: seq<ParserKind>, k: int, extension: string)
  {
    0 <= k < |parsers| && extension in SupportedExtensions(parsers[k])
    && forall j :: 0 <= j < k ==> extension !in SupportedExtensions(parsers[j])
  }

  /** The lookup finds the first claiming parser, and fails with
      `UnsupportedFormat` exactly when no parser claims the extension. */
  lemma {:induction false} FirstClaimingIsFirst(parsers: seq<ParserKind>, extension: string)
    ensures FirstClaiming(parsers, extension).Err? <==> !Claimed(parsers, extension)
    ensures FirstClaiming(parsers, extension).Err? ==>
      FirstClaiming(parsers, extension).error == UnsupportedFormat
    ensures FirstClaiming(parsers, extension).Ok? ==>
      exists k :: FirstClaimer(parsers, k, extension) && parsers[k] == FirstClaiming(parsers, extension).value
  {
    if parsers != [] && extension !in SupportedExtensions(parsers[0]) {
      FirstClaimingIsFirst(parsers[1..], extension);
      if Claimed(parsers, extension) {
        var k :| 0 <= k < |parsers| && extension in SupportedExtensions(parsers[k]);
        assert extension in SupportedExtensions(parsers[1..][k - 1]);
      }
      if FirstClaiming(parsers, extension).Ok? {
        var k :| FirstClaimer(parsers[1..], k, extension) && parsers[1..][k] == FirstClaiming(parsers, extension).value;
        assert forall j :: 1 <= j < k + 1 ==> parsers[j] == parsers[1..][j - 1];
        assert FirstClaimer(parsers, k + 1, extension);
      }
    }
  }

  /** No extension is claimed by two of the default parsers, so their order
      decides nothing for the defaults; each extension selects its parser. */
  lemma DefaultParsersDisjoint()
    ensures forall i, j :: 0 <= i < j < |SupportedFileParsers| ==>
      SupportedExtensions(SupportedFileParsers[i]) !! SupportedExtensions(SupportedFileParsers[j])
    ensures FirstClaiming(SupportedFileParsers, "php") == Ok(Php)
    ensures FirstClaiming(SupportedFileParsers, "ini") == Ok(Ini)
    ensures FirstClaiming(SupportedFileParsers, "xml") == Ok(Xml)
    ensures FirstClaiming(SupportedFileParsers, "json") == Ok(Json)
    ensures FirstClaiming(SupportedFileParsers, "yaml") == Ok(Yaml)
    ensures FirstClaiming(SupportedFileParsers, "yml") == Ok(Yaml)
  {
  }

  /** `getParser`: a scan over the parser list that stops at the first
      parser claiming the extension. */
  method GetParser(parsers: seq<ParserKind>, extension: string) returns (r: Result<ParserKind>)
    ensures r == FirstClaiming(parsers, extension)
  {
    var parser: Option<ParserKind> := None;
    var i := 0;
    while i < |parsers|
      invariant 0 <= i <= |parsers|
      invariant parser.None? ==> FirstClaiming(parsers, extension) == FirstClaiming(parsers[i..], extension)
      invariant parser.Some? ==> FirstClaiming(parsers, extension) == Ok(parser.value)
    {
      assert parsers[i..][1..] == parsers[i + 1..];
      if extension in SupportedExtensions(parsers[i]) {
        parser := Some(parsers[i]);
        break;
      }
      i := i + 1;
    }
    if parser.None? {
      assert parsers[i..] == [];
      return Err(UnsupportedFormat);
    }
    return Ok(parser.value);
  }
}
