/**
 The locale-file verifier of verify_translations.rb: `verify_file` checks one
 parsed locale file, and `verify_all` runs it over every file found and folds
 the results into one pass/fail answer.
 */
module TranslationVerifier {
  import opened Optional
  import opened YamlTree
  import opened LocaleFiles
  import opened Findings
  import opened KeyPath

  /** The translation each known locale is expected to carry. */
  const ExpectedTranslations: map<string, string> := map[
    "en" := "Insert Timeline",
    "zh_CN" := "插入时间轴",
    "zh_TW" := "插入時間軌",
    "ja" := "タイムラインを挿入",
    "es" := "Insertar línea de tiempo",
    "de" := "Zeitstrahl einfügen",
    "fr" := "Insérer une chronologie",
    "ru" := "Вставить временную шкалу",
    "ko" := "타임라인 삽입"
  ]

  /** The keys of `ExpectedTranslations` in the order the table lists them
      (a Ruby Hash keeps insertion order). */
  const ExpectedLocales: seq<string> := ["en", "zh_CN", "zh_TW", "ja", "es", "de", "fr", "ru", "ko"]

  lemma ExpectedLocalesListTable()
    ensures forall l :: l in ExpectedLocales <==> l in ExpectedTranslations
  {
  }

  /** What one file contributed: whether `verify_file` returned true, and the
      errors and warnings it appended. */
  datatype FileReport = FileReport(valid: bool, errors: seq<Error>, warnings: seq<Warning>)

  /** The value at `locale.js.timelines.composer_toolbar.insert_button` of the
      file's document, if the file parsed and that path resolves. */
  function Translation(locale: string, content: Content): Option<Node> {
    match content.Document()
    case None => None
    case Some(doc) => TranslationIn(doc, locale)
  }

  /** The value at `locale.js.timelines.composer_toolbar.insert_button` of a
      parsed document, if that path resolves. */
  function TranslationIn(data: Node, locale: string): Option<Node> {
    Walk(data, [locale] + TranslationPath)
  }

  function Failed(e: Error): FileReport {
    FileReport(false, [e], [])
  }

  /** The checks after the key walk has reached `leaf` (lines 121-150): its
      type, its drift from the expected table, the old-structure hint, and the
      raw-text checks. */
  function CheckLeaf(expected: map<string, string>, locale: string, localeData: Node, leaf: Node, hasTab: bool, validEncoding: bool): (r: FileReport)
    requires Walk(localeData, TranslationPath) == Some(leaf)
    ensures r.valid <==> leaf.Str?
    ensures !r.valid ==> r.errors == [NotAString(locale)] && r.warnings == []
    ensures r.valid ==> forall e :: e in r.errors ==> e == ContainsTabs(locale) || e == InvalidEncoding(locale)
    ensures r.valid ==> (ContainsTabs(locale) in r.errors <==> hasTab)
    ensures r.valid ==> (InvalidEncoding(locale) in r.errors <==> !validEncoding)
    ensures r.valid ==> r.errors == (if hasTab then [ContainsTabs(locale)] else [])
                                    + (if validEncoding then [] else [InvalidEncoding(locale)])
    ensures |r.errors| <= 2
    ensures r.warnings != [] <==>
              leaf.Str? && locale in expected && leaf.text != expected[locale]
    ensures r.warnings != [] ==>
              r.warnings == [TranslationDiffers(locale, leaf.text, expected[locale])]
  {
    if !leaf.Str? then Failed(NotAString(locale))
    else
      var drift :=
        if locale in expected && leaf.text != expected[locale]
        then [TranslationDiffers(locale, leaf.text, expected[locale])]
        else [];
      var legacy :=
        if HasKey(localeData, "timelines") && !HasKey(localeData, "js")
        then [LegacyStructure(locale)]
        else [];
      LegacyCheckUnreachable(localeData);
      var tabs := if hasTab then [ContainsTabs(locale)] else [];
      var encoding := if !validEncoding then [InvalidEncoding(locale)] else [];
      FileReport(true, tabs + encoding, drift + legacy)
  }

  /** The key walk over the locale's data (lines 109-119), then `CheckLeaf`. */
  function CheckLocaleData(expected: map<string, string>, locale: string, localeData: Node, hasTab: bool, validEncoding: bool): (r: FileReport)
    ensures r.valid <==> Walk(localeData, TranslationPath).Some? && Walk(localeData, TranslationPath).value.Str?
    ensures Walk(localeData, TranslationPath).None? ==> r == Failed(MissingKeyPath(locale))
  {
    match Walk(localeData, TranslationPath)
    case None => Failed(MissingKeyPath(locale))
    case Some(leaf) => CheckLeaf(expected, locale, localeData, leaf, hasTab, validEncoding)
  }

  /** The checks on a parsed document (lines 101-150): the locale key, the key
      walk, the leaf, and the raw-text checks. */
  function CheckDocument(expected: map<string, string>, locale: string, data: Node, hasTab: bool, validEncoding: bool)
    : (r: FileReport)
    ensures r.valid <==> TranslationIn(data, locale).Some? && TranslationIn(data, locale).value.Str?
    ensures !r.valid ==> |r.errors| == 1 && r.warnings == []
    ensures !HasKey(data, locale) ==> r.errors == [MissingLocaleKey(locale)]
    ensures HasKey(data, locale) && TranslationIn(data, locale).None? ==> r.errors == [MissingKeyPath(locale)]
    ensures TranslationIn(data, locale).Some? && !TranslationIn(data, locale).value.Str?
            ==> r.errors == [NotAString(locale)]
    ensures r.valid ==> forall e :: e in r.errors ==> e == ContainsTabs(locale) || e == InvalidEncoding(locale)
    ensures r.valid ==> (ContainsTabs(locale) in r.errors <==> hasTab)
    ensures r.valid ==> (InvalidEncoding(locale) in r.errors <==> !validEncoding)
    ensures r.valid ==> r.errors == (if hasTab then [ContainsTabs(locale)] else [])
                                    + (if validEncoding then [] else [InvalidEncoding(locale)])
    ensures |r.errors| <= 2
    ensures r.warnings != [] <==>
              r.valid && locale in expected && TranslationIn(data, locale).value.text != expected[locale]
    ensures r.warnings != [] ==>
              r.warnings == [TranslationDiffers(locale, TranslationIn(data, locale).value.text, expected[locale])]
  {
    WalkCons(data, locale, TranslationPath);
    if !(data.Map? && locale in data.entries) then Failed(MissingLocaleKey(locale))
    else CheckLocaleData(expected, locale, data.entries[locale], hasTab, validEncoding)
  }

  /** `TranslationVerifier#verify_file(file_path, locale)`, with what reading
      and parsing the file gave in place of its path, and the table of expected
      texts (`ExpectedTranslations` in the script) as a parameter. */
  function VerifyFile(expected: map<string, string>, locale: string, content: Content): (r: FileReport)
    // The file passes exactly when its translation exists and is a string.
    ensures r.valid <==> Translation(locale, content).Some? && Translation(locale, content).value.Str?
    // A failing file records exactly one error and no warning.
    ensures !r.valid ==> |r.errors| == 1 && r.warnings == []
    // Which error a failing file records.
    ensures content.ReadFailed? ==> r.errors == [ReadError(locale, content.message)]
    ensures content.Text? && content.parse.LoadFailed? ==> r.errors == [ReadError(locale, content.parse.message)]
    ensures content.Text? && content.parse.SyntaxFailed? ==> r.errors == [YamlSyntax(locale, content.parse.message)]
    ensures content.Document().Some? && !HasKey(content.Document().value, locale)
            ==> r.errors == [MissingLocaleKey(locale)]
    ensures content.Document().Some? && HasKey(content.Document().value, locale) && Translation(locale, content).None?
            ==> r.errors == [MissingKeyPath(locale)]
    ensures Translation(locale, content).Some? && !Translation(locale, content).value.Str?
            ==> r.errors == [NotAString(locale)]
    // A passing file records only the raw-text errors, each exactly when it applies.
    ensures r.valid ==> forall e :: e in r.errors ==> e == ContainsTabs(locale) || e == InvalidEncoding(locale)
    ensures r.valid ==> (ContainsTabs(locale) in r.errors <==> content.hasTab)
    ensures r.valid ==> (InvalidEncoding(locale) in r.errors <==> !content.validEncoding)
    ensures r.valid ==> r.errors == (if content.hasTab then [ContainsTabs(locale)] else [])
                                    + (if content.validEncoding then [] else [InvalidEncoding(locale)])
    ensures |r.errors| <= 2
    // The only warning is a drift from the expected table, and only for a locale it lists.
    ensures r.warnings != [] <==>
              r.valid && locale in expected
              && Translation(locale, content).value.text != expected[locale]
    ensures r.warnings != [] ==>
              r.warnings == [TranslationDiffers(locale, Translation(locale, content).value.text, expected[locale])]
    // Every finding is about this locale.
    ensures forall e :: e in r.errors ==> e.locale == locale
    ensures forall w :: w in r.warnings ==> w.locale == locale
  {
    match content
    case ReadFailed(message) => Failed(ReadError(locale, message))
    case Text(hasTab, validEncoding, parse) =>
      match parse
      case SyntaxFailed(message) => Failed(YamlSyntax(locale, message))
      case LoadFailed(message) => Failed(ReadError(locale, message))
      case Parsed(data) => CheckDocument(expected, locale, data, hasTab, validEncoding)
  }

  /** Reaching the old-structure check needs a resolved translation path, and
      its first step already demands a `js` key: the warning is never emitted. */
  lemma LegacyCheckUnreachable(localeData: Node)
    requires Walk(localeData, TranslationPath).Some?
    ensures HasKey(localeData, "js")
    ensures !(HasKey(localeData, "timelines") && !HasKey(localeData, "js"))
  {
    assert TranslationPath[0] == "js";
  }

  /** Wherever the walk stops, the error recorded is the same one: it does not
      say which segment is missing. */
  lemma MissingPathErrorIsGeneric(expected: map<string, string>, locale: string, content: Content, i: nat)
    requires content.Document().Some? && HasKey(content.Document().value, locale)
    requires FailsAt(content.Document().value.entries[locale], TranslationPath, i)
    ensures VerifyFile(expected, locale, content).errors == [MissingKeyPath(locale)]
  {
    var doc := content.Document().value;
    StopMeansNoWalk(doc.entries[locale], TranslationPath, i);
    WalkCons(doc, locale, TranslationPath);
  }

  /** The state `verify_all` accumulates: `all_valid`, `@errors`, `@warnings`. */
  datatype Tally = Tally(allValid: bool, errors: seq<Error>, warnings: seq<Warning>)

  /** A fresh verifier: no errors, no warnings, every file valid so far. */
  const Fresh: Tally := Tally(true, [], [])

  /** One iteration of the per-file loop, given what `verify_file` reported. */
  function Record(t: Tally, r: FileReport): Tally {
    Tally(t.allValid && r.valid, t.errors + r.errors, t.warnings + r.warnings)
  }

  /** The per-file loop, in order, every report taken in. */
  function RecordAll(t: Tally, rs: seq<FileReport>): Tally
    decreases |rs|
  {
    if |rs| == 0 then t else RecordAll(Record(t, rs[0]), rs[1..])
  }

  /** Every report passed. */
  predicate AllValid(rs: seq<FileReport>) {
    forall i :: 0 <= i < |rs| ==> rs[i].valid
  }

  /** The reports' errors, report by report, in order. */
  function AllErrors(rs: seq<FileReport>): seq<Error>
    decreases |rs|
  {
    if |rs| == 0 then [] else rs[0].errors + AllErrors(rs[1..])
  }

  /** The reports' warnings, report by report, in order. */
  function AllWarnings(rs: seq<FileReport>): seq<Warning>
    decreases |rs|
  {
    if |rs| == 0 then [] else rs[0].warnings + AllWarnings(rs[1..])
  }

  /** The loop appends each file's findings after what it already holds and
      keeps `all_valid` only while every file passes. */
  lemma {:induction false} RecordAllAccumulates(t: Tally, rs: seq<FileReport>)
    ensures RecordAll(t, rs)
         == Tally(t.allValid && AllValid(rs), t.errors + AllErrors(rs), t.warnings + AllWarnings(rs))
    decreases |rs|
  {
    if |rs| > 0 {
      var r := rs[0];
      RecordAllAccumulates(Record(t, r), rs[1..]);
      assert t.errors + r.errors + AllErrors(rs[1..]) == t.errors + (r.errors + AllErrors(rs[1..]));
      assert t.warnings + r.warnings + AllWarnings(rs[1..]) == t.warnings + (r.warnings + AllWarnings(rs[1..]));
      assert AllValid(rs) <==> r.valid && AllValid(rs[1..]) by {
        if r.valid && AllValid(rs[1..]) {
          forall i | 0 < i < |rs| ensures rs[i].valid {
            assert rs[i] == rs[1..][i - 1];
          }
        }
      }
    } else {
      assert t.errors + [] == t.errors;
      assert t.warnings + [] == t.warnings;
    }
  }

  /** No error is collected exactly when no report holds one. */
  lemma {:induction false} AllErrorsEmpty(rs: seq<FileReport>)
    ensures AllErrors(rs) == [] <==> forall i :: 0 <= i < |rs| ==> rs[i].errors == []
    decreases |rs|
  {
    if |rs| > 0 {
      AllErrorsEmpty(rs[1..]);
      forall i | 0 < i < |rs| ensures rs[i] == rs[1..][i - 1] { }
    }
  }

  /** Collecting over two runs of reports is collecting over each in turn:
      what one file records never displaces what another records. */
  lemma {:induction false} AllErrorsAppend(a: seq<FileReport>, b: seq<FileReport>)
    ensures AllErrors(a + b) == AllErrors(a) + AllErrors(b)
    decreases |a|
  {
    if |a| == 0 {
      assert a + b == b;
    } else {
      assert (a + b)[0] == a[0];
      assert (a + b)[1..] == a[1..] + b;
      AllErrorsAppend(a[1..], b);
    }
  }

  /** What `verify_file` reports for a file, under the locale its name gives. */
  function Check(expected: map<string, string>, f: LocaleFile): FileReport {
    VerifyFile(expected, f.Locale(), f.content)
  }

  /** What `verify_file` reports for each file, in order. */
  function Reports(expected: map<string, string>, files: seq<LocaleFile>): (rs: seq<FileReport>)
    ensures |rs| == |files|
    ensures forall i :: 0 <= i < |files| ==> rs[i] == Check(expected, files[i])
  {
    seq(|files|, i requires 0 <= i < |files| => Check(expected, files[i]))
  }

  /** What a run reports: the value `verify_all` returns, `@errors`, `@warnings`. */
  datatype RunReport = RunReport(success: bool, errors: seq<Error>, warnings: seq<Warning>)

  /** `TranslationVerifier#verify_all` on the files `Dir.glob` found, for a
      freshly created verifier checking against the table `expected`
      (`ExpectedTranslations` in the script). */
  function VerifyAll(expected: map<string, string>, files: seq<LocaleFile>): (r: RunReport)
    // Every file is checked, and the findings are collected file by file.
    ensures r.errors == AllErrors(Reports(expected, files))
    ensures r.warnings == AllWarnings(Reports(expected, files))
    // The run passes exactly when there is a file and no file records an error.
    ensures r.success <==> |files| > 0 && forall i :: 0 <= i < |files| ==> Check(expected, files[i]).errors == []
    ensures r.success <==> |files| > 0 && r.errors == []
  {
    var rs := Reports(expected, files);
    if |files| == 0 then RunReport(false, [], [])
    else
      RecordAllAccumulates(Fresh, rs);
      AllErrorsEmpty(rs);
      var t := RecordAll(Fresh, rs);
      RunReport(t.allValid && t.errors == [], t.errors, t.warnings)
  }

  /** The reports' errors are those before report `i`, then report `i`'s, then
      those after it. */
  lemma {:induction false} AllErrorsAround(rs: seq<FileReport>, i: nat)
    requires i < |rs|
    ensures AllErrors(rs) == AllErrors(rs[..i]) + rs[i].errors + AllErrors(rs[i + 1..])
  {
    var before, here, after := rs[..i], rs[..i + 1], rs[i + 1..];
    assert rs == here + after;
    assert here == before + [rs[i]];
    AllErrorsAppend(here, after);
    AllErrorsAppend(before, [rs[i]]);
    AllErrorsOne(rs[i]);
  }

  lemma AllErrorsOne(r: FileReport)
    ensures AllErrors([r]) == r.errors
  {
    assert [r][1..] == [];
    assert AllErrors([r]) == r.errors + AllErrors([]);
  }

  lemma AllWarningsOne(r: FileReport)
    ensures AllWarnings([r]) == r.warnings
  {
    assert [r][1..] == [];
    assert AllWarnings([r]) == r.warnings + AllWarnings([]);
  }

  /** A run over a single file reports that file's findings, and passes
      exactly when the file records no error. */
  lemma SingleFileRun(expected: map<string, string>, f: LocaleFile)
    ensures var r := Check(expected, f);
            VerifyAll(expected, [f]) == RunReport(r.errors == [], r.errors, r.warnings)
  {
    var rs := Reports(expected, [f]);
    assert rs == [Check(expected, f)];
    AllErrorsOne(rs[0]);
    AllWarningsOne(rs[0]);
  }

  /** However far a file's checks get, its errors sit in the run's list between
      those of the files before it and those of the files after it: one bad
      file never stops the others being checked. */
  lemma FileErrorsReachRun(expected: map<string, string>, files: seq<LocaleFile>, i: nat)
    requires i < |files|
    ensures var rs := Reports(expected, files);
            VerifyAll(expected, files).errors
            == AllErrors(rs[..i]) + Check(expected, files[i]).errors + AllErrors(rs[i + 1..])
  {
    AllErrorsAround(Reports(expected, files), i);
  }

  /** Every file of `b` also occurs in `a`, and `a`'s files record no error. */
  lemma ErrorFreeCovers(expected: map<string, string>, a: seq<LocaleFile>, b: seq<LocaleFile>)
    requires multiset(b) <= multiset(a)
    requires forall i :: 0 <= i < |a| ==> Check(expected, a[i]).errors == []
    ensures forall j :: 0 <= j < |b| ==> Check(expected, b[j]).errors == []
  {
    forall j | 0 <= j < |b|
      ensures Check(expected, b[j]).errors == []
    {
      assert b[j] in multiset(b);
      assert b[j] in multiset(a);
      var i :| 0 <= i < |a| && a[i] == b[j];
    }
  }

  /** The order in which `Dir.glob` lists the files does not change the verdict. */
  lemma SuccessIgnoresFileOrder(expected: map<string, string>, a: seq<LocaleFile>, b: seq<LocaleFile>)
    requires multiset(a) == multiset(b)
    ensures VerifyAll(expected, a).success == VerifyAll(expected, b).success
  {
    assert |a| == |multiset(a)| == |multiset(b)| == |b|;
    if VerifyAll(expected, a).success { ErrorFreeCovers(expected, a, b); }
    if VerifyAll(expected, b).success { ErrorFreeCovers(expected, b, a); }
  }

  /** The locales of the script's own table, `ExpectedTranslations`, that no
      file was found for, in table order. Only printed: it is not part of the
      run's result. A run against another table pairs with `Missing` over that
      table's keys. */
  function MissingLocales(files: seq<LocaleFile>): (r: seq<string>)
    ensures forall l :: l in r <==> l in ExpectedLocales && forall i :: 0 <= i < |files| ==> files[i].Locale() != l
    ensures |r| <= |ExpectedLocales|
  {
    Missing(ExpectedLocales, files)
  }

  /** The locales of `wanted` that no file is for, in `wanted`'s order. */
  function Missing(wanted: seq<string>, files: seq<LocaleFile>): (r: seq<string>)
    ensures forall l :: l in r <==> l in wanted && forall i :: 0 <= i < |files| ==> files[i].Locale() != l
    ensures |r| <= |wanted|
    decreases |wanted|
  {
    if |wanted| == 0 then []
    else
      var rest := Missing(wanted[1..], files);
      if exists i :: 0 <= i < |files| && files[i].Locale() == wanted[0] then rest
      else [wanted[0]] + rest
  }
}
