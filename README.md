# astroquery-cli: catalogue tools, language selection and IRSA result post-processing

This project is a Dafny model of three small pieces of sequential logic from
`astroquery-cli`, a command-line front end to astroquery.

- **The PO-catalogue maintenance tools** under `locales/`:
  - `clean_po_file` keeps the first entry of each msgid and drops the
    obsolete and fuzzy ones.
  - `extract_untranslated` writes the sorted, distinct msgids that still
    need a translation, one `msgid|||` line each.
  - `backfill_translated` reads `msgid|||msgstr` lines into a dict, writes
    each translation into the matching live entry, clears `fuzzy` and counts
    the updates.
- **Language selection and the translator object** (`astroquery_cli/i18n.py`):
  - the `.mo` path that `load_translation_file` opens;
  - the `Translator` object with its two fields;
  - `_parse_lang_from_argv`, where the first accepted `-l/--lang/--language`
    flag beats `AQC_LANG`, which beats `~/.aqc_config`, which beats `"en"`;
  - module start-up.
- **The post-processing of the IRSA `gator` and `region` commands**
  (`astroquery_cli/modules/irsa_cli.py`):
  - `--col` column selection;
  - the `--filter` loop and its regular expression;
  - the three outcomes: matches found, "No information found", or exit code 1.

The model is split into these modules:

| module | what it holds |
|---|---|
| `Wrappers` | `Option` and `Result`. |
| `Seqs` | Sets of elements and the subsequence relation. |
| `PyStr` | The Python `str` behaviour the tools use: `isspace`, the `strip` family, `find`, `split(sep, 1)`, universal-newline reading, line iteration and string order. |
| `PoCatalogue` | A catalogue entry, with the `PoFile` class holding the header, the metadata and the entry list. |
| `CleanPo`, `ExtractUntranslated`, `BackfillTranslated` | The three tools. |
| `I18n` | The language selection and the `Translator` class. |
| `IrsaCli` | The table post-processing. |

The files that change state are imperative Dafny:

- loops become methods with invariants;
- the PO file and the translator are classes whose methods modify their
  fields.

Each method is proved equal to a specification function. The properties are
then proved about those functions as lemmas.

Things the model takes as inputs instead of computing them:

- File contents are parameters: the PO entry list, the `.tmp` text, the
  config file's state and text, and the set of existing paths.
- `sys.argv` and `AQC_LANG` are parameters. `argv` includes the program
  name at index 0, because `enumerate(sys.argv[:-1])` scans it as well.
- The astroquery call is a parameter: it either raised or returned an
  optional table.
- The two astropy/numpy operations are one `Evaluator` value:
  - `type(col[0])(val)` becomes a partial conversion `convert(col, text)`;
  - the comparison becomes `compare(op, x, y)`.

## Model

| member | source | states |
|---|---|---|
| CleanPo.Cleaned | locales/clean_po_files.py:17-25 | The written entry list is never longer than the input. |
| CleanPo.DedupAndClean | locales/clean_po_files.py:17-25 | The loop with its `seen_msgids` set yields exactly `Cleaned(es)`. Its invariant is that `seen` is the set of msgids scanned so far. |
| CleanPo.CleanPoFile | locales/clean_po_files.py:32-34 | The new catalogue is fresh, has the original metadata and an empty header comment, and holds the cleaned entries. |
| CleanPo.CleanedDistinct | locales/clean_po_files.py:17-22 | The msgids written are pairwise distinct. |
| CleanPo.CleanedKeepsOnlyLive | locales/clean_po_files.py:23-25 | No written entry is obsolete and none is fuzzy. |
| CleanPo.CleanedIsSubsequence | locales/clean_po_files.py:20-25 | The output is the input with entries deleted, in the original order. |
| CleanPo.CleanedMsgIds | locales/clean_po_files.py:20-25 | Every msgid written occurs in the input. |
| CleanPo.CleanedMembership | locales/clean_po_files.py:20-25 | An entry is written iff it is the first occurrence of its msgid and is neither obsolete nor fuzzy. |
| CleanPo.CleanedDropsShadowed | locales/clean_po_files.py:21-25 | When the first entry of a msgid is obsolete or fuzzy, no entry with that msgid is written, so later duplicates are dropped as well. |
| CleanPo.CleanedFixpoint | locales/clean_po_files.py:20-25 | A list with distinct msgids and only live entries is left unchanged. |
| CleanPo.CleanIdempotent | locales/clean_po_files.py:20-34 | Cleaning a cleaned list gives the same list. |
| CleanPo.FirstOccurrenceLast | locales/clean_po_files.py:21-22 | The last entry is a first occurrence iff its msgid is not among the msgids seen before it. |
| PoCatalogue.MsgIdsMembership | locales/clean_po_files.py:17-22 | A msgid is in the seen set iff some scanned entry carries it. |
| PoCatalogue.PoFile.constructor | locales/clean_po_files.py:32 | `POFile()` is empty: no header comment, no metadata and no entries. |
| PoCatalogue.PoFile.Extend | locales/clean_po_files.py:34 | Appends the entries in order and changes nothing else. |
| ExtractUntranslated.UntranslatedIds | locales/extract_untranslated.py:15-20 | No more msgids are collected than there are entries. |
| ExtractUntranslated.CollectUntranslated | locales/extract_untranslated.py:15-20 | The selection loop yields `UntranslatedIds(es)`. |
| ExtractUntranslated.UntranslatedIdsMembership | locales/extract_untranslated.py:16-20 | A msgid is collected iff some entry with that msgid is live and has an empty msgstr, a msgstr equal to its msgid, or the fuzzy flag. |
| ExtractUntranslated.IsUntranslated | locales/extract_untranslated.py:19 | The selection test: a live entry whose msgstr is empty, equals its msgid, or is fuzzy. Its meaning over a whole list is stated by `UntranslatedIdsMembership`. |
| ExtractUntranslated.Insert | locales/extract_untranslated.py:23 | Inserting into an ascending list keeps it strictly ascending and adds exactly that element. |
| ExtractUntranslated.SortedUnique | locales/extract_untranslated.py:23 | `sorted(list(set(xs)))` is strictly ascending and has exactly the elements of `xs`. |
| ExtractUntranslated.AscendingDistinct | locales/extract_untranslated.py:23 | A strictly ascending list has no repeats. |
| ExtractUntranslated.AscendingUnique | locales/extract_untranslated.py:23 | Two strictly ascending lists with the same elements are equal, so the sorted output is determined by the set. |
| ExtractUntranslated.TmpLine | locales/extract_untranslated.py:29 | The line written for one msgid: the msgid, the triple-bar separator and "\n". `ParseWrittenLine` shows it reads back as that msgid with an empty translation. |
| ExtractUntranslated.Serialize | locales/extract_untranslated.py:27-29 | The whole text written, specified by `SerializeCons` and `SerializedLines`: one line per msgid, in order. |
| ExtractUntranslated.WriteTmp | locales/extract_untranslated.py:26-29 | The writing loop produces `Serialize(ids)`, the concatenation of one msgid + triple-bar separator + "\n" line per msgid. |
| ExtractUntranslated.SerializeCons | locales/extract_untranslated.py:27-29 | The text for `[x] + ids` is the line of `x` followed by the text for `ids`. |
| ExtractUntranslated.SerializedLines | locales/extract_untranslated.py:27-29 | For msgids without a newline, reading the text back line by line gives exactly one line per msgid, and line k is `ids[k]` + triple-bar separator + "\n". |
| ExtractUntranslated.ExtractUntranslated | locales/extract_untranslated.py:15-29 | The written list is strictly ascending. A msgid is in it iff some entry with it is selected. The text is its serialization. |
| PyStr.LStripSpec | locales/backfill_translated.py:27 | `lstrip()` gives the longest suffix that does not start with whitespace; everything dropped is whitespace. |
| PyStr.RStripSpec | locales/backfill_translated.py:27 | `rstrip()` gives the longest prefix that does not end with whitespace; everything dropped is whitespace. |
| PyStr.StripSpec | locales/backfill_translated.py:22 | `strip()` is empty iff the text is all whitespace. Otherwise it neither starts nor ends with whitespace. |
| PyStr.StripUnpadded | locales/backfill_translated.py:27 | Text without whitespace at either end is its own `strip()`. |
| PyStr.FindFrom | locales/backfill_translated.py:24 | `find` returns the first occurrence at or after the start, or none when there is none. |
| PyStr.SplitOnce | locales/backfill_translated.py:24-25 | `split(sep, 1)` has two parts iff `sep` occurs. The parts rebuild the text around the FIRST occurrence. |
| PyStr.UniversalNewlines | locales/backfill_translated.py:19 | Text-mode reading leaves no "\r", and text without "\r" reads unchanged. |
| PyStr.NewlineIndex | locales/backfill_translated.py:20 | The index of the first "\n", or the length when there is none. |
| PyStr.LinesConcat | locales/backfill_translated.py:20 | The lines `for line in f` yields spell the text when concatenated. |
| PyStr.LinesSpec | locales/backfill_translated.py:20 | Every line is non-empty and has no inner "\n". Every line but the last ends in "\n". |
| PyStr.LinesCons | locales/backfill_translated.py:20 | A text starting with a newline-free body and "\n" yields that line first. |
| PyStr.LessIrreflexive | locales/extract_untranslated.py:23 | Python's string `<` is irreflexive. |
| PyStr.LessTransitive | locales/extract_untranslated.py:23 | Python's string `<` is transitive. |
| PyStr.LessTotal | locales/extract_untranslated.py:23 | Python's string `<` is total. |
| PyStr.LessAsymmetric | locales/extract_untranslated.py:23 | Python's string `<` is asymmetric. |
| BackfillTranslated.ParseTmpLineSpec | locales/backfill_translated.py:22-28 | A line gives nothing iff it starts with `/`, is all whitespace, or has no triple-bar separator. Otherwise the key is the raw text before the FIRST separator and the value is the stripped rest. |
| BackfillTranslated.ParseTmpLine | locales/backfill_translated.py:22-28 | The parse of one line, specified by `ParseTmpLineSpec`. |
| BackfillTranslated.ParsedLines | locales/backfill_translated.py:20-28 | One parse result per line. |
| BackfillTranslated.ParsedLinesAt | locales/backfill_translated.py:20-28 | Result k is the parse of line k. |
| BackfillTranslated.Gather | locales/backfill_translated.py:17-28 | The dict built from parse results in order, specified by `GatherSnoc`, `GatherKeys` and `LastLineWins`. |
| BackfillTranslated.Translations | locales/backfill_translated.py:17-28 | The dict read from the lines of the file, specified by `GatherKeys`, `LastLineWins` and `RoundTrip`; `ReadTranslations` is proved to compute it. |
| BackfillTranslated.ReadTranslations | locales/backfill_translated.py:17-28 | The line loop builds exactly `Translations(lines)`: the dict filled from the parsed lines in file order. |
| BackfillTranslated.GatherSnoc | locales/backfill_translated.py:28 | One more line updates the dict with its parse, if it has one. |
| BackfillTranslated.GatherKeys | locales/backfill_translated.py:24-28 | A msgid is in the dict iff some line defines it. |
| BackfillTranslated.LastLineWins | locales/backfill_translated.py:28 | When several lines define a msgid, the dict holds the value of the last one. |
| BackfillTranslated.SkippedLineAddsNothing | locales/backfill_translated.py:22-25 | A line that parses to nothing (a comment, a blank line, no separator) can be removed anywhere without changing the dict. |
| BackfillTranslated.ParseSafePrefix | locales/backfill_translated.py:24-27 | For a safe msgid, the first separator is the one written after it. |
| BackfillTranslated.ParseWrittenLine | locales/backfill_translated.py:22-28 | The line extract writes for a safe msgid reads back as that msgid with an empty translation. |
| BackfillTranslated.SerializeHasNoCarriageReturn | locales/extract_untranslated.py:27-29 | The written text has no "\r" when no msgid has one. |
| BackfillTranslated.GatherWritten | locales/backfill_translated.py:20-28 | Lines that each define their msgid as "" give a dict whose keys are exactly those msgids, each mapped to "". |
| BackfillTranslated.RoundTrip | locales/backfill_translated.py:17-28 | The file extract writes for safe msgids reads back as exactly those msgids, each mapped to "". |
| BackfillTranslated.TrailingBarNotRecovered | locales/backfill_translated.py:24-27 | A msgid ending in a bar is read back without that bar, translated as a single bar. |
| BackfillTranslated.NormalizeMsgid | locales/backfill_translated.py:37-39 | Exactly one leading "\n" is removed, only when the msgid is longer than 1 and its second character is not "\n". Otherwise the msgid is unchanged. |
| BackfillTranslated.RoundTripLeadingNewline | locales/backfill_translated.py:37-42 | A msgid "\n" + m is written over a blank line and the line of m. It reads back as `{m: ""}`, and its normalised form m finds that key. |
| BackfillTranslated.LeadingNewlineLines | locales/extract_untranslated.py:27-29 | The text written for "\n" + m is read as the two lines "\n" and m + triple-bar separator + "\n". |
| BackfillTranslated.RemoveFirst | locales/backfill_translated.py:48 | `flags.remove(x)` drops exactly one occurrence of x: one element fewer, and the multiset loses one x. |
| BackfillTranslated.FirstIndex | locales/backfill_translated.py:48 | The position of the first x: it holds x and no x comes before it. |
| BackfillTranslated.RemoveFirstSplits | locales/backfill_translated.py:48 | The occurrence dropped is the FIRST one: the result is the list before the first x joined to the list after it. |
| BackfillTranslated.BackfillEntry | locales/backfill_translated.py:37-53 | Obsolete or unmatched entries are unchanged. A matched entry gets the new msgstr and loses one `fuzzy`. It is counted iff it changed. |
| BackfillTranslated.Backfilled | locales/backfill_translated.py:34-53 | Updating keeps the number of entries. |
| BackfillTranslated.UpdateCountIsModifiedCount | locales/backfill_translated.py:33-53 | `updated_count` is the number of entries the loop modified. |
| BackfillTranslated.UpdateCount | locales/backfill_translated.py:33-53 | The final `updated_count`, specified by `UpdateCountIsModifiedCount`, `UpdateCountZero` and `RerunUpdatesNothing`. |
| BackfillTranslated.BackfillEntryStable | locales/backfill_translated.py:44-53 | With at most one `fuzzy` flag, a second pass over an updated entry does not count it. |
| BackfillTranslated.UpdateCountZero | locales/backfill_translated.py:33-53 | When no entry is counted, `updated_count` is 0. |
| BackfillTranslated.RerunUpdatesNothing | locales/backfill_translated.py:44-53 | Rerunning the same translations on the result updates 0 entries when every entry carries `fuzzy` at most once. |
| BackfillTranslated.DoubledFuzzyCountedAgain | locales/backfill_translated.py:47-53 | An entry flagged `fuzzy` twice is counted again on a rerun. |
| BackfillTranslated.UpdateEntries | locales/backfill_translated.py:33-53 | The in-place loop leaves the entries as `Backfilled`, with the count of modified entries, and changes no other field. |
| BackfillTranslated.BackfillTranslated | locales/backfill_translated.py:17-63 | The entries are updated from the file's lines. The count is the number of modified entries. The catalogue is saved iff the count is positive. |
| I18n.JoinSpec | astroquery_cli/i18n.py:18 | `os.path.join` keeps an absolute part as is. It adds one "/" between a directory and a relative part. |
| I18n.LangMoPathShape | astroquery_cli/i18n.py:18 | A plain language code gives `<dir>/<code>/LC_MESSAGES/messages.mo`. An absolute code escapes the locale directory. |
| I18n.MoPath | astroquery_cli/i18n.py:15-20 | "en" always gets the base `messages.mo`. Any other code gets its own catalogue iff that path exists, otherwise the base. |
| I18n.MoPathCandidates | astroquery_cli/i18n.py:15-20 | The path is one of the two candidates. For "en" the existence of an `en` catalogue does not matter. |
| I18n.Gettext | astroquery_cli/i18n.py:37-39 | A null translator returns the message. A catalogue returns its translation, or the message when it has none. |
| I18n.LoadTranslationFile | astroquery_cli/i18n.py:14-30 | The catalogue at the chosen path when it can be read, otherwise a null translator. |
| I18n.EnglishIgnoresLanguageCatalogues | astroquery_cli/i18n.py:15-20 | The translations for "en" do not depend on which language catalogues exist. |
| I18n.Translator.constructor | astroquery_cli/i18n.py:10-12 | A fresh translator has null translations and reports "en". |
| I18n.Translator.InitTranslation | astroquery_cli/i18n.py:32-35 | Loads the catalogue for the code (defaulting to "en") and records it. Afterwards `get_current_language()` returns the code, and the shared translator translates every message as `get_translator` does for that code. |
| I18n.Translator.Translate | astroquery_cli/i18n.py:37-39 | `gettext` through the current translations; after `init_translation` it agrees with `GetTranslator`, as `InitTranslation` states. |
| I18n.Translator.GetCurrentLanguage | astroquery_cli/i18n.py:41-42 | The recorded code; after `init_translation` it is the code given, as `InitTranslation` states. |
| I18n.GetTranslator | astroquery_cli/i18n.py:55-58 | A one-off lookup (language defaulting to "en") returns the translation from the catalogue at the path `MoPath` chooses for the language when that catalogue exists and has the message, and the message itself otherwise. |
| I18n.DefaultTranslatorUsesBase | astroquery_cli/i18n.py:55-58 | `get_translator()` with its default `"en"` translates through the base catalogue, whatever language catalogues exist. |
| I18n.FlagValueFrom | astroquery_cli/i18n.py:63-69 | None iff no accepted flag lies at or after the index. Otherwise the value after the FIRST accepted flag. |
| I18n.FlagValue | astroquery_cli/i18n.py:63-69 | The value of the first accepted flag in `argv[:-1]`, specified by `FlagValueFrom` (from index 0), `LastFlagUnused` and `TrailingDashArgIgnored`. |
| I18n.ParseLangFromArgv | astroquery_cli/i18n.py:60-79 | The scan with its `break` gives `LangChoice`: the first accepted flag, else `AQC_LANG`, else the stripped config file, else "en". An unreadable config file is an error. |
| I18n.LangChoice | astroquery_cli/i18n.py:60-79 | The language chosen, specified by `FlagOverridesEnv`, `EmptyEnvCounts`, `ConfigOnlyAsLastResort` and `DefaultLanguage`. |
| I18n.ConfigLang | astroquery_cli/i18n.py:72-78 | The fallback when neither a flag nor `AQC_LANG` gives a language, specified by `DefaultLanguage` and `ConfigLangStripped`: "en" without a config file, its stripped text when readable, an error when unreadable. |
| I18n.FlagOverridesEnv | astroquery_cli/i18n.py:61-69 | The first accepted flag decides, whatever `AQC_LANG` and the config file say. |
| I18n.TrailingDashArgIgnored | astroquery_cli/i18n.py:64-69 | An argument starting with "-" appended at the end changes nothing. |
| I18n.FlagValueFromAgree | astroquery_cli/i18n.py:64-69 | Argument lists that accept at the same positions with the same values give the same flag value. |
| I18n.LastFlagUnused | astroquery_cli/i18n.py:64 | A language flag in the last position is never used. |
| I18n.ConfigOnlyAsLastResort | astroquery_cli/i18n.py:72-76 | When argv or the environment gives a value, the config file is irrelevant and the result is not an error. |
| I18n.EmptyEnvCounts | astroquery_cli/i18n.py:61-72 | `AQC_LANG=""` is used as the language and the config file is not consulted. |
| I18n.DefaultLanguage | astroquery_cli/i18n.py:72-78 | With no flag and no `AQC_LANG`: no config file gives "en"; a readable one gives its stripped text; an unreadable one raises. |
| I18n.ConfigLangStripped | astroquery_cli/i18n.py:76 | The config value is empty iff the text read is all whitespace. Otherwise it neither starts nor ends with whitespace. |
| I18n.StartUp | astroquery_cli/i18n.py:81-82 | Start-up picks `LangChoice` and, when it succeeds, initialises a fresh translator to that language and its catalogue. |
| IrsaCli.SelectedColumns | astroquery_cli/modules/irsa_cli.py:75-76 | A name is selected iff it is requested and is a table column. A value such as `ra,dec` is one name. |
| IrsaCli.SelectedColumnsInOrder | astroquery_cli/modules/irsa_cli.py:76 | The selected names keep the requested order. |
| IrsaCli.SelectedColumnsCounts | astroquery_cli/modules/irsa_cli.py:76 | Each requested name that is a column is selected as many times as it is requested; no other name is selected. |
| IrsaCli.SelectColumnsSpec | astroquery_cli/modules/irsa_cli.py:74-78 | No selection without `--col`, for exactly `["all"]` or for an empty table. A table none of whose columns is requested is unchanged. Otherwise the table is projected onto the selected names in order and stays well formed. |
| IrsaCli.SelectColumns | astroquery_cli/modules/irsa_cli.py:74-78 | The selection block, specified by `SelectColumnsSpec`. |
| IrsaCli.Project | astroquery_cli/modules/irsa_cli.py:78 | `result_table[selected_cols]`, specified by `SelectColumnsSpec`: the selected names as the columns, every row kept and cut down to them. |
| IrsaCli.Truthy | astroquery_cli/modules/irsa_cli.py:74-102 | `if result_table`: present and non-empty. It gates selection and filtering (`SelectColumnsSpec`, `FilterSelected`) and decides Found against "No information found" (`PostProcessSpec`). |
| IrsaCli.Span | astroquery_cli/modules/irsa_cli.py:85 | The longest run of one character class from a position. |
| IrsaCli.SpanUnique | astroquery_cli/modules/irsa_cli.py:85 | A run that cannot be extended is that span. |
| IrsaCli.ParseFilterSound | astroquery_cli/modules/irsa_cli.py:85-87 | What the recogniser accepts matches `^(\w+)\s*([<>=!]+)\s*([\w\.\-]+)$`, with those groups. |
| IrsaCli.ParseFilterComplete | astroquery_cli/modules/irsa_cli.py:85-87 | Whatever the pattern matches, the recogniser accepts with the same three groups. |
| IrsaCli.ParseUnspaced | astroquery_cli/modules/irsa_cli.py:85-87 | `col`, operator and value written together parse into exactly those groups. |
| IrsaCli.ParseFilter | astroquery_cli/modules/irsa_cli.py:85-87 | The `re.match` of a filter, specified by `ParseFilterSound` and `ParseFilterComplete`. |
| IrsaCli.ParseOpText | astroquery_cli/modules/irsa_cli.py:89-90 | The six operator texts and the six comparisons correspond one to one. |
| IrsaCli.Select | astroquery_cli/modules/irsa_cli.py:90 | `table[mask]` keeps exactly the rows the mask accepts and never adds rows. |
| IrsaCli.SelectInOrder | astroquery_cli/modules/irsa_cli.py:90 | The kept rows stay in their original order. |
| IrsaCli.SelectCounts | astroquery_cli/modules/irsa_cli.py:90 | Every copy of a row the mask accepts is kept, and no copy of a row it rejects. |
| IrsaCli.SelectSelect | astroquery_cli/modules/irsa_cli.py:82-90 | Two masks in turn are their conjunction. |
| IrsaCli.StepAsWritten | astroquery_cli/modules/irsa_cli.py:86-90 | (As written.) One pass of the loop: a filter naming a column of an empty table raises. Specified with the loop by `EmptiedThenNamedRaises` and `FiltersAsWrittenShrinks`. |
| IrsaCli.ApplyFilter | astroquery_cli/modules/irsa_cli.py:89-90 | Convert the value, read the operator with `eval`, apply the mask: a rejected value or operator raises, otherwise the table keeps the rows passing the mask. Specified by `StepIsMask` and `FiltersAsWrittenShrinks`. |
| IrsaCli.FiltersAsWrittenErrorSticks | astroquery_cli/modules/irsa_cli.py:82-90 | (As written.) Once a filter raises, the later filters are never reached. |
| IrsaCli.EmptiedThenNamedRaises | astroquery_cli/modules/irsa_cli.py:86-89 | (As written.) Once the filters so far have emptied the table, any further filter naming one of its columns raises `EmptyColumn`. |
| IrsaCli.FiltersAsWrittenShrinks | astroquery_cli/modules/irsa_cli.py:81-91 | (As written.) A loop that does not raise keeps the columns and exactly the rows passing every filter, in order: a subsequence of the input rows, each still well formed. |
| IrsaCli.Step | astroquery_cli/modules/irsa_cli.py:86-90 | (Corrected.) One pass of the loop with an empty table left alone, specified by `StepIsMask`. |
| IrsaCli.Filtered | astroquery_cli/modules/irsa_cli.py:81-91 | (Corrected.) The whole loop with an empty table left alone, specified by `FilteredIsConjunction`, `FilteredShrinks` and `CorrectionOnlyAffectsEmptied`. |
| IrsaCli.FilteredErrorSticks | astroquery_cli/modules/irsa_cli.py:82-90 | (Corrected.) Once a filter raises, the later filters are never reached. |
| IrsaCli.ApplyFilters | astroquery_cli/modules/irsa_cli.py:81-91 | The loop that rebinds the table, raising on the column of an emptied table, yields `FiltersAsWritten`. |
| IrsaCli.StepIsMask | astroquery_cli/modules/irsa_cli.py:86-90 | (Corrected.) A pass that does not raise applies that filter's row mask. |
| IrsaCli.FilteredIsConjunction | astroquery_cli/modules/irsa_cli.py:81-91 | (Corrected.) The surviving rows are exactly those passing every filter, in order, and the columns are unchanged. |
| IrsaCli.FilteredShrinks | astroquery_cli/modules/irsa_cli.py:81-91 | (Corrected.) Filtering keeps a subsequence of the rows. The count never grows and the table stays well formed. |
| IrsaCli.AbsentColumnIgnored | astroquery_cli/modules/irsa_cli.py:86-88 | A well-formed filter naming a column the table lacks is ignored. Because selection runs first, this covers deselected columns. |
| IrsaCli.CorrectionOnlyAffectsEmptied | astroquery_cli/modules/irsa_cli.py:81-91 | The corrected loop agrees with the loop as written wherever that succeeds. Where only the loop as written raises, it raised on an emptied table. |
| IrsaCli.FilterSelected | astroquery_cli/modules/irsa_cli.py:81-91 | (As written.) The filter block, run only for a truthy table and a non-empty filter list; specified by `FiltersAsWrittenShrinks` and `PostProcessSpec`. |
| IrsaCli.Report | astroquery_cli/modules/irsa_cli.py:93-102 | The final test and the exception handler, specified by `PostProcessSpec`: a filter error gives exit code 1, a non-empty final table is Found with its count, and an empty or missing one gives "No information found". |
| IrsaCli.PostProcess | astroquery_cli/modules/irsa_cli.py:73-102 | (As written.) Selection, the filter loop and the report, specified by `PostProcessSpec`. |
| IrsaCli.PostProcessSpec | astroquery_cli/modules/irsa_cli.py:73-102 | For the command as written, the outcome follows the filter block's result: an error exits with code 1, a non-empty final table is Found with that table and its row count, and a missing or empty final table gives "No information found". In addition a found result reports its own positive row count and a subsequence of the selected rows. An exception gives exit code 1. A missing or empty table gives "No information found". A failure after the query comes from the filter loop. |
| IrsaCli.FilterSelectedCorrected | astroquery_cli/modules/irsa_cli.py:81-91 | (Corrected.) The filter block with the corrected loop. |
| IrsaCli.PostProcessCorrected | astroquery_cli/modules/irsa_cli.py:73-102 | (Corrected.) The post-processing with the corrected loop, specified by `EmptiedGivesNoInformation` and `CorrectedOutcomeOnlyAffectsEmptied`. |
| IrsaCli.EmptiedGivesNoInformation | astroquery_cli/modules/irsa_cli.py:93-99 | (Corrected.) Filters that leave no rows give "No information found". |
| IrsaCli.CorrectedOutcomeOnlyAffectsEmptied | astroquery_cli/modules/irsa_cli.py:81-102 | The corrected command has the same outcome as the command as written, except where the one as written exits with code 1 because the filters emptied the table; there the corrected one reports "No information found". |
| IrsaCli.ExampleFiltersParse | astroquery_cli/modules/irsa_cli.py:83-87 | `w1mpro>10` and `w1mpro<5` parse into their column, operator and value. |
| IrsaCli.FiltersAsWritten | astroquery_cli/modules/irsa_cli.py:88-90 | (As written.) Once a filter has emptied the table, a later filter that names a column raises. |
| IrsaCli.EmptiedTableFailsAsWritten | astroquery_cli/modules/irsa_cli.py:88-102 | For the one-row table `w1mpro=3` and the filters `w1mpro>10` then `w1mpro<5`: the loop as written raises and the command exits with code 1, while the corrected command reports "No information found". |
| IrsaCli.RunQuery | astroquery_cli/modules/irsa_cli.py:147-174 | The `region` command, like `gator`, selects, filters with the loop as written and reports, giving `PostProcess`. |

## Left out

- File I/O, polib reading and saving, and `.mo` parsing. PO files are entry lists, the `.tmp` file is its text, and `.mo` catalogues are maps held by a `Host` value. `polib.pofile` load errors and the stderr messages are not modelled.
- The only `POEntry` fields modelled are msgid, msgstr, obsolete and flags. polib's own escaping is not modelled.
- `PoCatalogue.PoFile.constructor`, `CleanPo.CleanPoFile`: a new `POFile()` is modelled with an empty header comment. polib's default header text is not modelled.
- `I18n.LoadTranslationFile`: any failure to open or parse the `.mo` file gives `NullTranslations`. This is modelled as "the path has no catalogue in the host". A catalogue that fails to parse is not distinguished from a missing one.
- `I18n.Gettext`: gettext plural forms and the `GNUTranslations` fallback chain are not modelled.
- The rebinding of the module-level `_` and `builtins._` (`astroquery_cli/i18n.py:46-53`) is left out. It is aliasing of a bound method, which the model carries as the `Translator` object itself.
- The `try/except Exception: pass` around the argv scan is left out. No exception can arise there, because `i + 1` is always a valid index.
- `os.path.expanduser` and the real file system are left out. The config file is a three-way parameter.
- I18n.Join, I18n.JoinAll: model POSIX `os.path.join` only. The Windows `ntpath` rules (drive letters, backslashes) are not modelled.
- `os.path.abspath` of the locale base directory is left out. The locale directory is a parameter.
- `IrsaCli.IsWordChar`: regex `\w` is modelled on ASCII letters, digits and `_` only. Python's `\w` also accepts Unicode letters and digits.
- `IrsaCli.ParseOp`: only the six comparison operators are modelled. Invalid operator text such as `=` or `!!` reaches the error path. `<<` and `>>`, which Python would evaluate as shifts, are also sent to the error path.
- The `eval` text, `repr` and numpy type coercion are a partial `convert` function and an abstract `compare` function.
- IrsaCli.ApplyFilter: the value is converted by `convert(col, text)`, which depends on the column only. The code converts with the type of the value in the current table's first row, `type(result_table[col][0])`. The model therefore does not capture three cases. A masked first value has type `MaskedConstant`, which rejects the text, so the command exits with code 1. In an object column the type is whatever that one row holds. And which row is first changes as earlier filters drop rows.
- `IrsaCli.SelectColumnsSpec`: a `--col` list that names a column twice keeps the duplicate in the selected names. What astropy does with a repeated column name is not modelled.
- The network queries `Irsa.query_gator` and `Irsa.query_region`, coordinate and angle parsing, `display_table`, `save_table_to_file`, the console messages and the error handler's own output are left out. They are foreign or UI code. The query is a parameter that returned or raised.
- The test-mode timing with `time.perf_counter` and the `list-gator-catalogs` command are left out. They only print.
- `astroquery_cli/modules/heasarc_cli.py`, `astroquery_cli/main.py`, `astroquery_cli/__init__.py`, `npx-entry.js` and `astroquery_cli/tests/test_field_validity.py` are not part of this model. They are CLI wiring, process spawning, logging set-up and tests against live services.
- `BackfillTranslated.RoundTrip`: needs each msgid to be free of line breaks and `|||`, and not to start with `/`. It also needs the msgid not to end with `|`, because a trailing `|` merges with the separator. `BackfillTranslated.TrailingBarNotRecovered` shows what happens when that condition is dropped.
- `BackfillTranslated.RerunUpdatesNothing`: holds only when each entry carries `fuzzy` at most once. `flags.remove` drops one occurrence, and `BackfillTranslated.DoubledFuzzyCountedAgain` shows an entry with two flags being counted again.
- The help text of the `region` command gives `ph_qual=A` as an example filter. In the model, as in the code, its single `=` reaches the error path when `ph_qual` is a column of a non-empty table.

## Findings

| source | as written | input that shows it | evidently intended | confidence | as-written member | corrected member |
|---|---|---|---|---|---|---|
| astroquery_cli/modules/irsa_cli.py:88-90 | Table truthiness is checked once, before the filter loop. A later filter that names a column indexes `result_table[col][0]` on the table an earlier filter emptied, which raises `IndexError`, so the command exits with code 1. The `region` command does the same at lines 160-162. | A table with one row `w1mpro = 3` and `--filter w1mpro>10 --filter w1mpro<5` | Filters that leave no rows report "No information found" | not executed | IrsaCli.EmptiedTableFailsAsWritten | IrsaCli.EmptiedGivesNoInformation |
