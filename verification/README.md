# Timeline plugin locale verifier and icon choice, in Dafny

This project models the two pieces of logic in the developer scripts of a
forum plugin that adds a "timeline" button to the post composer.

- **The locale-file verifier** (`verify_translations.rb`). `verify_file` checks
  one parsed locale file. The document must have the locale as its root key.
  The key path `js → timelines → composer_toolbar → insert_button` must
  resolve, strictly left to right, to a string. That string is compared with
  a table of expected texts. The raw text must hold no tab and be valid
  UTF-8. `verify_all` runs `verify_file` on every file found and folds the
  results, the error list and the warning list into one pass/fail value.
- **The icon choice** (`icon_implementation_examples.js`).
  `getTimelineIcon` looks a timeline type up in a fixed table and falls back
  to a default. `getAdaptiveTimelineIcon` prefers a stored user preference.

Parsed YAML is a finite tree: `YamlTree.Node = Map | Str | Other`. A raw file
is a record: either it could not be read, or its text has two flags (holds a
tab, is valid UTF-8) and a parse outcome (a tree, a syntax error, or another
loader exception). The verifier then becomes a set of total functions. Their
contracts say which findings are errors and which are warnings, and what the
run returns.

Modules, in dependency order:

| file | module | models |
|---|---|---|
| `optional.dfy` | `Optional` | `Option`: a missing result (an unresolved key path, an unparsed file) and JavaScript's `null`/`undefined`; Ruby's `nil` is `YamlTree.Node.Other` |
| `key_path.dfy` | `KeyPath` | the fixed key path and the text its error uses |
| `yaml_tree.dfy` | `YamlTree` | parsed YAML, and the key walk (function `Walk` and the loop `WalkPath`) |
| `locale_files.dfy` | `LocaleFiles` | a found file: path, read/parse outcome, locale from the file name |
| `findings.dfy` | `Findings` | error and warning kinds, with the exact text each is recorded as |
| `translation_verifier.dfy` | `TranslationVerifier` | `verify_file`, `verify_all`, the expected-text table, the missing-locale list |
| `verifier_scenarios.dfy` | `VerifierScenarios` | concrete files run through the verifier |
| `timeline_icons.dfy` | `TimelineIcons` | `getTimelineIcon`, `getAdaptiveTimelineIcon` |

## Where the code differs from a first reading

Some of the verifier's behaviour is not what its comments and message texts
suggest. The model follows the code in each case:

- **The old-structure warning is never emitted.** The check for
  "`timelines` without `js`" (verify_translations.rb:135-138) runs only after
  the key walk at lines 110-119 has succeeded, and that walk's first step
  already requires a `js` key. So the condition is always false when it is
  reached (`TranslationVerifier.LegacyCheckUnreachable`). A file laid out the
  old way gets the missing-path *error* instead
  (`VerifierScenarios.OldLayoutIsAnErrorNotAWarning`).
- **The missing-path error does not name the missing segment.** The walk
  stops at the first absent key (lines 113-117), but the error text at line
  115 always spells the whole path `js.timelines.composer_toolbar.insert_button`
  (`KeyPath.PathTextIsJoinedPath`, `Findings.ErrorText`). Wherever the walk
  stops, a file records the same error
  (`TranslationVerifier.MissingPathErrorIsGeneric`).
- **Some errors do not fail the file.** A tab or invalid encoding adds an
  error (lines 141-148), yet `verify_file` still returns true at line 150, so
  the file is printed as valid. The run still fails, because its result at
  line 91 also requires an empty error list
  (`VerifierScenarios.TabbedFileIsValidButFailsRun`).
- **The run verdict does not depend on file order, but the lists do.** The
  verdict at line 91 is the same for any order in which `Dir.glob` (line 45)
  lists the files (`TranslationVerifier.SuccessIgnoresFileOrder`). The error
  and warning lists keep that order
  (`TranslationVerifier.FileErrorsReachRun`).

## Model

| member | source | states |
|---|---|---|
| `TranslationVerifier.VerifyFile` | verify_translations.rb:96-158 | A file is valid iff its document resolves `locale.js.timelines.composer_toolbar.insert_button` to a string. An invalid file records exactly one error and no warning. That error is the read error, syntax error, missing-locale-key, missing-key-path or not-a-string error, matching the step that failed. A valid file's errors are exactly the tab error if the text holds a tab, followed by the encoding error if the text is not valid UTF-8: each at most once, tab first. The only warning is a drift from the table, issued exactly when the locale is listed and the text differs. Every finding names the file's locale. |
| `TranslationVerifier.CheckDocument` | verify_translations.rb:101-150 | On a parsed document, checking the locale key and then the four-key walk is the same as walking the five-key path `[locale] + path`. The error on failure is missing-locale-key, missing-key-path or not-a-string, according to where the walk ends. A valid document's errors are exactly the tab error, then the encoding error, each present only when its flag says so. |
| `TranslationVerifier.CheckLocaleData` | verify_translations.rb:109-119 | When the walk under the locale fails, the file records exactly the missing-key-path error and fails. Otherwise it is valid iff the leaf is a string. |
| `TranslationVerifier.CheckLeaf` | verify_translations.rb:121-150 | A non-string leaf gives exactly the not-a-string error. A string leaf always passes. Its warning is a drift from the table, present iff the locale is in the table and the text differs. Its errors are exactly the tab error if there is a tab, then the encoding error if the encoding is invalid. |
| `TranslationVerifier.LegacyCheckUnreachable` | verify_translations.rb:110-138 | Whenever the key walk succeeds, the locale data has a `js` key, so the old-structure condition is false. |
| `TranslationVerifier.MissingPathErrorIsGeneric` | verify_translations.rb:113-117 | Whichever segment the walk stops at, the file records the same single missing-key-path error. |
| `YamlTree.WalkPath` | verify_translations.rb:110-119 | The loop as written returns the same result as the recursive walk. It stops exactly at a segment whose parent is not a mapping or lacks the key. |
| `YamlTree.WalkFailsIffFailsAt` | verify_translations.rb:113-119 | A walk fails iff some prefix resolves and the next key is missing there. That stopping segment is unique: only the first missing key is ever reached. |
| `YamlTree.WalkAppend` | verify_translations.rb:113-119 | Walking `p + q` is walking `p`, then walking `q` from where `p` ends. |
| `TranslationVerifier.RecordAllAccumulates` | verify_translations.rb:56-69 | The per-file loop appends each file's errors and warnings, in file order, after what was already recorded. `all_valid` stays true only if every file passes. |
| `TranslationVerifier.VerifyAll` | verify_translations.rb:40-92 | The run's errors and warnings are the files' findings in order. The run passes iff at least one file was found and no file recorded an error. Equivalently, iff files exist and the error list is empty. Warnings never matter. |
| `TranslationVerifier.FileErrorsReachRun` | verify_translations.rb:58-69 | Each file's errors appear in the run's list between those of the files before it and those after it. A failing file never stops later files from being checked. |
| `TranslationVerifier.SuccessIgnoresFileOrder` | verify_translations.rb:58-91 | Two runs over the same files in any order give the same verdict. |
| `TranslationVerifier.SingleFileRun` | verify_translations.rb:58-91 | A run over one file reports that file's errors and warnings. It passes iff that file recorded no error. |
| `TranslationVerifier.AllErrorsEmpty` | verify_translations.rb:79-91 | The collected error list is empty iff every file's error list is. |
| `TranslationVerifier.MissingLocales` | verify_translations.rb:71-75 | A locale is reported missing iff it is in the expected table and no found file has it as its name. This list is not part of the run's result. |
| `LocaleFiles.LocaleOfGlobbedPath` | verify_translations.rb:59 | For a file `dir/name.yml` found by the glob, the locale is `name`. |
| `LocaleFiles.BaseNameOfJoin` | verify_translations.rb:59 | The base name of `dir/name` is `name` when `name` holds no `/`. |
| `Findings.ErrorText` | verify_translations.rb:103-155 | Every recorded error line starts with the file's locale and `: `. The missing-path line is `<locale>: Missing key path '<path>'`, where `<path>` is the walked key path joined with dots. |
| `KeyPath.PathTextIsJoinedPath` | verify_translations.rb:110-115 | The dotted text in the missing-path error is exactly the walked key path `%w[js timelines composer_toolbar insert_button]` joined with `.`. |
| `Findings.WarningText` | verify_translations.rb:131-137 | Every recorded warning line starts with the file's locale and `: `. |
| `VerifierScenarios.ExpectedTextPasses` | verify_translations.rb:127-133 | A clean file holding its table text passes, with no error and no warning. |
| `VerifierScenarios.DriftOnlyWarns` | verify_translations.rb:127-133 | A listed locale whose text differs from the table gets exactly one drift warning, and the run passes. |
| `VerifierScenarios.UnlistedLocaleNeverWarns` | verify_translations.rb:128 | A locale absent from the table is never compared: no warning, whatever its text. |
| `VerifierScenarios.MissingTimelinesFails` | verify_translations.rb:113-117 | A `js` mapping without `timelines` gives exactly one missing-key-path error, and the run fails. |
| `VerifierScenarios.OldLayoutIsAnErrorNotAWarning` | verify_translations.rb:135-138 | `timelines` directly under the locale, with no `js`, gives the missing-key-path error and no warning. |
| `VerifierScenarios.TabbedFileIsValidButFailsRun` | verify_translations.rb:141-150 | A well-formed file with a tab is valid per `verify_file`. Its only error is the tab error, and the run fails. |
| `VerifierScenarios.EmptyDocumentMissesLocaleKey` | verify_translations.rb:101-105 | An empty document parses to nil and gives exactly the missing-locale-key error. |
| `VerifierScenarios.GermanExample` | verify_translations.rb:27 | A German file reading `Zeitstrahl hinzufügen` gets one drift warning against `Zeitstrahl einfügen`, and the run passes. |
| `VerifierScenarios.NoFilesFails` | verify_translations.rb:47-50 | With no file found, the run fails and records nothing. |
| `TimelineIcons.GetTimelineIcon` | icon_implementation_examples.js:74-85 | A table key gives its table icon. Any other key, or no argument, gives `stream`. The result is always one of clock, tasks, history, calendar-alt, stream. |
| `TimelineIcons.IconTableEntries` | icon_implementation_examples.js:75-84 | Each of the six keys gives its listed icon. `process`, `default` and no argument all give `stream`. |
| `TimelineIcons.GetAdaptiveTimelineIcon` | icon_implementation_examples.js:135-148 | A non-empty stored preference is returned verbatim. With no preference, or an empty one, the result is `stream`. The result is never empty. |
| `TimelineIcons.AdaptiveIconIgnoresTheme` | icon_implementation_examples.js:146-147 | Dark mode never changes the adaptive choice. |
| `TimelineIcons.AdaptiveIconDefaultsLikeTable` | icon_implementation_examples.js:142-147 | Without a usable preference, the adaptive choice equals `getTimelineIcon()` with no argument. |

## Left out

- Reading files, listing the directory and parsing YAML (`File.read`,
  `Dir.glob`, `YAML.safe_load`) are not modelled. Their outcomes are
  inputs: a read failure, a syntax error, another loader exception, or a
  tree plus the two text flags. The model takes these as independent
  inputs. Read against Psych's behaviour, though, the encoding error looks
  unreachable: `YAML.safe_load` hands the UTF-8 text to libyaml, whose reader
  rejects invalid UTF-8 with a `Psych::SyntaxError`. That is caught at lines
  151-153 (the parse is at line 99), so such a file would record the
  syntax error and fail before line 146. The model does not encode this
  parser behaviour and keeps the two flags independent.
- Which YAML scalars become which Ruby values (for example, `no:` as a
  boolean key) is part of the parser and is not modelled. A mapping keeps
  only its String keys, because the verifier looks keys up by String only.
- All printing (`puts` of per-file lines, the summary, the error and
  warning lists) and the exit-code mapping are not modelled. Only the
  values that decide them are.
- The expected-text table is a parameter of `VerifyFile` and `VerifyAll`.
  The script's own table is the constant
  `TranslationVerifier.ExpectedTranslations`, which the scenarios use.
- A verifier object used for more than one `verify_all` call keeps its
  earlier errors. The model runs a freshly created verifier.
- `EXPECTED_STRUCTURE` is defined but never read, so it is not modelled.
- `LocaleFiles.BaseName` models `File.basename` only for paths without
  trailing slashes, which is all the glob produces.
- `TranslationVerifier.MissingLocales`: states which locales are listed, not
  that they keep the table's order (the function does keep it).
- `browser_icon_test.js` and `translation_test.js` are not modelled. They
  build DOM nodes, probe fonts, read globals and only print.
  `translation_test.js` also has its own expected table, which differs
  from the Ruby one for `zh_TW`; the model uses the Ruby table.
- In `icon_implementation_examples.js`, these host-framework calls are not
  modelled: `api.addComposerToolbarPopupMenuOption` and `I18n.t`. The CSS
  comment block is not modelled either.
- The environment reads of `getAdaptiveTimelineIcon` (the `dark-mode`
  class and `localStorage`) are parameters.
- `TimelineIcons.GetTimelineIcon`: models lookup by own key only.
  JavaScript's prototype-chain quirks are not modelled (`constructor`
  yields a function), and neither are non-string arguments.
