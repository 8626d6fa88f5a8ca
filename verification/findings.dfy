/**
 The errors and warnings the translation verifier records, and the exact text
 it records for each (verify_translations.rb, lines 103-155).
 */
module Findings {
  import opened KeyPath

  /** Findings that fail a run. Each names the locale of the file it is about. */
  datatype Error =
    | MissingLocaleKey(locale: string)
    | MissingKeyPath(locale: string)
    | NotAString(locale: string)
    | ContainsTabs(locale: string)
    | InvalidEncoding(locale: string)
    | YamlSyntax(locale: string, detail: string)
    | ReadError(locale: string, detail: string)

  /** Findings that are only reported. */
  datatype Warning =
    | TranslationDiffers(locale: string, actual: string, expected: string)
    | LegacyStructure(locale: string)

  /** The line recorded for an error: the locale, a colon, then the detail. */
  function ErrorText(e: Error): (r: string)
    ensures |r| > |e.locale| + 2 && r[..|e.locale| + 2] == e.locale + ": "
    // The missing-path error spells out the whole walked path, dotted.
    ensures e.MissingKeyPath? ==> r == e.locale + ": " + ("Missing key path '" + Join(TranslationPath, ".") + "'")
  {
    var l := e.locale;
    var detail :=
      match e
      case MissingLocaleKey(_) => "Missing locale key '" + l + "'"
      case MissingKeyPath(_) => (PathTextIsJoinedPath(); "Missing key path '" + PathText + "'")
      case NotAString(_) => "Translation value is not a string"
      case ContainsTabs(_) => "Contains tabs (should use spaces only)"
      case InvalidEncoding(_) => "Invalid encoding detected"
      case YamlSyntax(_, d) => "YAML syntax error: " + d
      case ReadError(_, d) => "Error reading file: " + d;
    assert |detail| > 0;
    assert (l + ": " + detail)[..|l| + 2] == l + ": ";
    l + ": " + detail
  }

  /** The line recorded for a warning: the locale, a colon, then the detail. */
  function WarningText(w: Warning): (r: string)
    ensures |r| > |w.locale| + 2 && r[..|w.locale| + 2] == w.locale + ": "
  {
    var l := w.locale;
    var detail :=
      match w
      case TranslationDiffers(_, a, x) => "Translation '" + a + "' differs from expected '" + x + "'"
      case LegacyStructure(_) => "Has 'timelines' key but missing 'js' key (possible old structure)";
    assert |detail| > 0;
    assert (l + ": " + detail)[..|l| + 2] == l + ": ";
    l + ": " + detail
  }
}
