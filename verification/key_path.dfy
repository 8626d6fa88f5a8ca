/**
 The one key path the translation verifier checks under each locale key
 (verify_translations.rb, line 110), and the dotted text its error uses
 (line 115).
 */
module KeyPath {

  /** The keys from the locale's data down to the toolbar button's label. */
  const TranslationPath: seq<string> := ["js", "timelines", "composer_toolbar", "insert_button"]

  /** The key path as the missing-path error spells it. */
  const PathText: string := "js.timelines.composer_toolbar.insert_button"

  /** Ruby's `parts.join(sep)`: the parts in order, `sep` between neighbours. */
  function Join(parts: seq<string>, sep: string): string
    decreases |parts|
  {
    if |parts| == 0 then ""
    else if |parts| == 1 then parts[0]
    else parts[0] + sep + Join(parts[1..], sep)
  }

  /** The error's dotted text is exactly the walked path joined with dots. */
  lemma PathTextIsJoinedPath()
    ensures PathText == Join(TranslationPath, ".")
  {
  }
}
