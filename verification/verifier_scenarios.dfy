/**
 Concrete locale files run through the verifier: a clean file, a drifted text,
 and the inputs where the code's behaviour differs from a first reading.
 */
module VerifierScenarios {
  import opened Optional
  import opened YamlTree
  import opened LocaleFiles
  import opened Findings
  import opened TranslationVerifier
  import opened KeyPath

  /** `{locale: {js: {timelines: {composer_toolbar: {insert_button: leaf}}}}}`. */
  function Nest(locale: string, leaf: Node): Node {
    Map(map[locale := Map(map["js" := Map(map["timelines" :=
      Map(map["composer_toolbar" := Map(map["insert_button" := leaf])])])])])
  }

  /** A readable, well-encoded file `locales/<locale>.yml` that parsed to `doc`. */
  function FileFor(locale: string, hasTab: bool, doc: Node): LocaleFile {
    LocaleFile("locales/" + locale + ".yml", Text(hasTab, true, Parsed(doc)))
  }

  /** The same, without tabs. */
  function CleanFile(locale: string, doc: Node): LocaleFile {
    FileFor(locale, false, doc)
  }

  lemma CleanFileLocale(locale: string)
    requires '/' !in locale && locale != ""
    ensures forall hasTab, doc :: FileFor(locale, hasTab, doc).Locale() == locale
  {
    LocaleOfGlobbedPath("locales", locale);
    assert "locales/" + locale + ".yml" == "locales" + "/" + locale + ".yml";
  }

  /** The nested document resolves the locale's translation path to its leaf. */
  lemma NestResolves(locale: string, leaf: Node)
    ensures Walk(Nest(locale, leaf), [locale] + TranslationPath) == Some(leaf)
  {
    var n4 := Map(map["insert_button" := leaf]);
    var n3 := Map(map["composer_toolbar" := n4]);
    var n2 := Map(map["timelines" := n3]);
    var n1 := Map(map["js" := n2]);
    var p := TranslationPath;
    assert p[3..] == ["insert_button"] + [];
    assert p[2..] == ["composer_toolbar"] + p[3..];
    assert p[1..] == ["timelines"] + p[2..];
    assert p == ["js"] + p[1..];
    WalkCons(n4, "insert_button", []);
    WalkCons(n3, "composer_toolbar", p[3..]);
    WalkCons(n2, "timelines", p[2..]);
    WalkCons(n1, "js", p[1..]);
    WalkCons(Nest(locale, leaf), locale, p);
  }

  /** A clean nested file for a named locale: its translation is the leaf. */
  lemma CleanNestedFile(locale: string, leaf: Node)
    requires '/' !in locale && locale != ""
    ensures CleanFile(locale, Nest(locale, leaf)).Locale() == locale
    ensures Translation(locale, CleanFile(locale, Nest(locale, leaf)).content) == Some(leaf)
  {
    CleanFileLocale(locale);
    NestResolves(locale, leaf);
  }

  /** A clean file carrying the table's own text passes with no finding at all. */
  lemma ExpectedTextPasses(locale: string)
    requires '/' !in locale && locale != "" && locale in ExpectedTranslations
    ensures VerifyAll(ExpectedTranslations, [CleanFile(locale, Nest(locale, Str(ExpectedTranslations[locale])))])
         == RunReport(true, [], [])
  {
    CleanNestedFile(locale, Str(ExpectedTranslations[locale]));
    SingleFileRun(ExpectedTranslations, CleanFile(locale, Nest(locale, Str(ExpectedTranslations[locale]))));
  }

  /** A text that drifts from the table gets one warning and the run still passes. */
  lemma DriftOnlyWarns(locale: string, text: string)
    requires '/' !in locale && locale != "" && locale in ExpectedTranslations
    requires text != ExpectedTranslations[locale]
    ensures VerifyAll(ExpectedTranslations, [CleanFile(locale, Nest(locale, Str(text)))])
         == RunReport(true, [], [TranslationDiffers(locale, text, ExpectedTranslations[locale])])
  {
    CleanNestedFile(locale, Str(text));
    SingleFileRun(ExpectedTranslations, CleanFile(locale, Nest(locale, Str(text))));
  }

  /** A locale the table does not list is never compared, whatever its text. */
  lemma UnlistedLocaleNeverWarns(locale: string, text: string)
    requires '/' !in locale && locale != "" && locale !in ExpectedTranslations
    ensures VerifyAll(ExpectedTranslations, [CleanFile(locale, Nest(locale, Str(text)))]) == RunReport(true, [], [])
  {
    CleanNestedFile(locale, Str(text));
    SingleFileRun(ExpectedTranslations, CleanFile(locale, Nest(locale, Str(text))));
  }

  /** A file whose `js` mapping lacks `timelines` fails with the generic
      missing-path error, which does not name `timelines`. */
  lemma MissingTimelinesFails(locale: string)
    requires '/' !in locale && locale != ""
    ensures VerifyAll(ExpectedTranslations, [CleanFile(locale, Map(map[locale := Map(map["js" := Map(map[])])]))])
         == RunReport(false, [MissingKeyPath(locale)], [])
  {
    CleanFileLocale(locale);
    var f := CleanFile(locale, Map(map[locale := Map(map["js" := Map(map[])])]));
    var localeData := Map(map["js" := Map(map[])]);
    assert TranslationPath[..1] == ["js"] + [];
    WalkCons(localeData, "js", []);
    assert FailsAt(localeData, TranslationPath, 1);
    MissingPathErrorIsGeneric(ExpectedTranslations, locale, f.content, 1);
    SingleFileRun(ExpectedTranslations, f);
  }

  /** The old layout, `timelines` directly under the locale and no `js`, gets
      the missing-path error and never the old-structure warning. */
  lemma OldLayoutIsAnErrorNotAWarning(locale: string, legacy: Node)
    requires '/' !in locale && locale != ""
    ensures VerifyAll(ExpectedTranslations, [CleanFile(locale, Map(map[locale := Map(map["timelines" := legacy])]))])
         == RunReport(false, [MissingKeyPath(locale)], [])
  {
    CleanFileLocale(locale);
    var f := CleanFile(locale, Map(map[locale := Map(map["timelines" := legacy])]));
    var localeData := Map(map["timelines" := legacy]);
    assert TranslationPath[..0] == [];
    assert FailsAt(localeData, TranslationPath, 0);
    MissingPathErrorIsGeneric(ExpectedTranslations, locale, f.content, 0);
    SingleFileRun(ExpectedTranslations, f);
  }

  /** A file with a tab is reported valid by `verify_file` yet fails the run. */
  lemma TabbedFileIsValidButFailsRun(locale: string, text: string)
    requires '/' !in locale && locale != ""
    ensures Check(ExpectedTranslations, FileFor(locale, true, Nest(locale, Str(text)))).valid
    ensures VerifyAll(ExpectedTranslations, [FileFor(locale, true, Nest(locale, Str(text)))]).errors == [ContainsTabs(locale)]
    ensures !VerifyAll(ExpectedTranslations, [FileFor(locale, true, Nest(locale, Str(text)))]).success
  {
    CleanFileLocale(locale);
    NestResolves(locale, Str(text));
    SingleFileRun(ExpectedTranslations, FileFor(locale, true, Nest(locale, Str(text))));
  }

  /** An empty document parses to nil and lacks the locale key. */
  lemma EmptyDocumentMissesLocaleKey(locale: string)
    requires '/' !in locale && locale != ""
    ensures VerifyAll(ExpectedTranslations, [CleanFile(locale, Other)]) == RunReport(false, [MissingLocaleKey(locale)], [])
  {
    CleanFileLocale(locale);
    SingleFileRun(ExpectedTranslations, CleanFile(locale, Other));
  }

  /** A German file whose text drifts from the table's `Zeitstrahl einfügen`
      (verify_translations.rb, line 27) only warns. */
  lemma GermanExample()
    ensures VerifyAll(ExpectedTranslations, [CleanFile("de", Nest("de", Str("Zeitstrahl hinzufügen")))])
         == RunReport(true, [], [TranslationDiffers("de", "Zeitstrahl hinzufügen", "Zeitstrahl einfügen")])
  {
    DriftOnlyWarns("de", "Zeitstrahl hinzufügen");
  }

  /** No file found means failure, with nothing recorded. */
  lemma NoFilesFails()
    ensures VerifyAll(ExpectedTranslations, []) == RunReport(false, [], [])
  {
  }
}
