/** `astroquery_cli.i18n`: which `.mo` catalogue a language code loads, the
    translator object that holds the current catalogue and language, and the
    start-up choice of language from argv, `AQC_LANG` and `~/.aqc_config`. */
module I18n {
  import opened Wrappers
  import opened PyStr

  const TEXT_DOMAIN := "messages"
  const MO_FILE := TEXT_DOMAIN + ".mo"
  const DEFAULT_LANG := "en"

  /** `posixpath.join(a, b)`: an absolute `b` replaces what came before;
      otherwise a "/" is inserted unless `a` is empty or already ends in one. */
  function Join(a: string, b: string): (r: string)
  {
    if |b| > 0 && b[0] == '/' then b
    else if a == [] || a[|a| - 1] == '/' then a + b
    else a + "/" + b
  }

  /** `os.path.join(a, p0, p1, ...)`: joins the parts from left to right. */
  function JoinAll(a: string, parts: seq<string>): string
    decreases |parts|
  {
    if parts == [] then a else JoinAll(Join(a, parts[0]), parts[1..])
  }

  /** Joining a relative part onto a directory that does not end in "/"
      puts exactly one "/" between them; an absolute part discards the
      directory. */
  lemma JoinSpec(a: string, b: string)
    ensures |b| > 0 && b[0] == '/' ==> Join(a, b) == b
    ensures a != [] && a[|a| - 1] != '/' && (b == [] || b[0] != '/') ==> Join(a, b) == a + "/" + b
    ensures Join(a, b) == b || Join(a, b)[..|a|] == a
  {
  }

  /** `<locale dir>/messages.mo`, the catalogue used for "en" and as the
      fall-back. */
  function BaseMoPath(localeDir: string): string
  {
    Join(localeDir, MO_FILE)
  }

  /** `<locale dir>/<lang>/LC_MESSAGES/messages.mo`. */
  function LangMoPath(localeDir: string, lang: string): string
  {
    JoinAll(localeDir, [lang, "LC_MESSAGES", MO_FILE])
  }

  /** For a language code that is a plain directory name the language
      catalogue lies under the locale directory; an absolute code escapes it. */
  lemma LangMoPathShape(localeDir: string, lang: string)
    requires localeDir != [] && localeDir[|localeDir| - 1] != '/'
    ensures lang != [] && lang[0] != '/' && lang[|lang| - 1] != '/' ==>
      LangMoPath(localeDir, lang) == localeDir + "/" + lang + "/LC_MESSAGES/messages.mo"
    ensures lang != [] && lang[0] == '/' && lang[|lang| - 1] != '/' ==>
      LangMoPath(localeDir, lang) == lang + "/LC_MESSAGES/messages.mo"
  {
    var mid := Join(localeDir, lang);
    if lang != [] && lang[|lang| - 1] != '/' {
      assert mid[|mid| - 1] == lang[|lang| - 1];
      var deeper := Join(mid, "LC_MESSAGES");
      assert deeper == mid + "/LC_MESSAGES";
      assert deeper[|deeper| - 1] == 'S';
      var full := Join(deeper, MO_FILE);
      assert MO_FILE == "messages.mo";
      assert full == deeper + "/messages.mo";
      assert JoinAll(full, []) == full;
      assert JoinAll(deeper, [MO_FILE]) == JoinAll(full, []);
      assert JoinAll(mid, ["LC_MESSAGES", MO_FILE]) == JoinAll(deeper, [MO_FILE]);
      assert LangMoPath(localeDir, lang) == JoinAll(mid, ["LC_MESSAGES", MO_FILE]);
      assert full == mid + "/LC_MESSAGES/messages.mo";
    }
  }

  /** The path `load_translation_file` opens: the base catalogue for "en";
      for any other code the language catalogue when that path exists, else
      the base catalogue. `existing` is the set of paths that exist. */
  function MoPath(localeDir: string, lang: string, existing: set<string>): (r: string)
    ensures lang == DEFAULT_LANG ==> r == BaseMoPath(localeDir)
    ensures lang != DEFAULT_LANG && LangMoPath(localeDir, lang) in existing ==> r == LangMoPath(localeDir, lang)
    ensures lang != DEFAULT_LANG && LangMoPath(localeDir, lang) !in existing ==> r == BaseMoPath(localeDir)
  {
    var base := BaseMoPath(localeDir);
    if lang != DEFAULT_LANG then
      var specific := LangMoPath(localeDir, lang);
      if specific in existing then specific else base
    else base
  }

  /** The path chosen is always one of the two candidates, and the language
      catalogue is never chosen for "en" even when it exists. */
  lemma MoPathCandidates(localeDir: string, lang: string, existing: set<string>)
    ensures MoPath(localeDir, lang, existing) in {BaseMoPath(localeDir), LangMoPath(localeDir, lang)}
    ensures MoPath(localeDir, DEFAULT_LANG, existing + {LangMoPath(localeDir, DEFAULT_LANG)}) == BaseMoPath(localeDir)
  {
  }

  /** A `gettext` translations object: `NullTranslations` or a parsed
      `GNUTranslations` catalogue (its `.mo` parsing is not modelled). */
  datatype Translations = NullTranslations | GnuTranslations(catalog: map<string, string>)

  /** `translations.gettext(message)`: the catalogue's translation when it
      has one, the message itself otherwise. */
  function Gettext(t: Translations, message: string): (r: string)
    ensures t.NullTranslations? ==> r == message
    ensures t.GnuTranslations? && message in t.catalog ==> r == t.catalog[message]
    ensures t.GnuTranslations? && message !in t.catalog ==> r == message
  {
    match t
    case NullTranslations => message
    case GnuTranslations(catalog) => if message in catalog then catalog[message] else message
  }

  /** What the process sees of the file system: the locale directory, the
      paths that exist, and for each `.mo` file that opens and parses, its
      catalogue. A path outside `catalogs` fails to open or to parse. */
  datatype Host = Host(localeDir: string, existing: set<string>, catalogs: map<string, map<string, string>>)

  /** `load_translation_file(lang)`: the catalogue at the chosen path, or
      `NullTranslations` when opening or parsing it raises. */
  function LoadTranslationFile(host: Host, lang: string): (t: Translations)
    ensures var path := MoPath(host.localeDir, lang, host.existing);
      && (t.GnuTranslations? <==> path in host.catalogs)
      && (t.GnuTranslations? ==> t.catalog == host.catalogs[path])
  {
    var path := MoPath(host.localeDir, lang, host.existing);
    if path in host.catalogs then GnuTranslations(host.catalogs[path]) else NullTranslations
  }

  /** The translations for "en" never depend on which language catalogues
      exist. */
  lemma EnglishIgnoresLanguageCatalogues(host: Host, existing: set<string>)
    ensures LoadTranslationFile(host, DEFAULT_LANG) == LoadTranslationFile(host.(existing := existing), DEFAULT_LANG)
  {
  }

  /** The `Translator` object: the loaded translations and the current
      language code. */
  class Translator {
    var translator: Translations
    var currentLangCode: string

    /** A fresh translator translates nothing and reports "en". */
    constructor()
      ensures translator == NullTranslations
      ensures currentLangCode == DEFAULT_LANG
      ensures GetCurrentLanguage() == DEFAULT_LANG
    {
      translator := NullTranslations;
      currentLangCode := DEFAULT_LANG;
    }

    /** `init_translation(lang_code="en")`: loads the catalogue for the code and
        records the code, whether or not a catalogue was found. */
    method InitTranslation(host: Host, langCode: string := DEFAULT_LANG)
      modifies this
      ensures translator == LoadTranslationFile(host, langCode)
      ensures currentLangCode == langCode
      ensures GetCurrentLanguage() == langCode
      ensures forall m :: Translate(m) == GetTranslator(host, m, langCode)
    {
      translator := LoadTranslationFile(host, langCode);
      currentLangCode := langCode;
    }

    /** `gettext(message)` through the current translations. */
    function Translate(message: string): string
      reads this
    {
      Gettext(translator, message)
    }

    /** `get_current_language()`. */
    function GetCurrentLanguage(): string
      reads this
    {
      currentLangCode
    }
  }

  /** `get_translator(lang="en")(message)`: a one-off lookup through the catalogue for
      `lang`, leaving the shared translator alone. The translation comes from
      the catalogue at the path chosen for `lang` when that catalogue exists
      and has the message; otherwise the message is returned unchanged. */
  function GetTranslator(host: Host, message: string, lang: string := DEFAULT_LANG): (r: string)
    ensures var path := MoPath(host.localeDir, lang, host.existing);
      r == if path in host.catalogs && message in host.catalogs[path] then host.catalogs[path][message] else message
    ensures r == message || (exists path :: path in host.catalogs && message in host.catalogs[path] && r == host.catalogs[path][message])
  {
    Gettext(LoadTranslationFile(host, lang), message)
  }

  /** Without a language, `get_translator()` translates through the base
      catalogue, whatever language catalogues exist. */
  lemma DefaultTranslatorUsesBase(host: Host, message: string)
    ensures var base := BaseMoPath(host.localeDir);
      GetTranslator(host, message) ==
        if base in host.catalogs && message in host.catalogs[base] then host.catalogs[base][message] else message
  {
  }

  const LANG_FLAGS: seq<string> := ["-l", "--lang", "--language"]

  /** `s.startswith("-")`. */
  predicate StartsWithDash(s: string)
  {
    |s| > 0 && s[0] == '-'
  }

  /** The argument at `i` is a language flag, it is not the last argument,
      and the argument after it does not start with "-". */
  predicate Accepted(argv: seq<string>, i: int)
  {
    0 <= i && i + 1 < |argv| && argv[i] in LANG_FLAGS && !StartsWithDash(argv[i + 1])
  }

  /** The value of the first accepted language flag at or after `i`. */
  function FlagValueFrom(argv: seq<string>, i: nat): (r: Option<string>)
    ensures r.None? <==> forall j :: i <= j ==> !Accepted(argv, j)
    ensures r.Some? ==>
      exists j :: i <= j && Accepted(argv, j) && r.value == argv[j + 1] && (forall k :: i <= k < j ==> !Accepted(argv, k))
    decreases |argv| - i
  {
    if i + 1 >= |argv| then None
    else if Accepted(argv, i) then Some(argv[i + 1])
    else FlagValueFrom(argv, i + 1)
  }

  /** The language named on the command line, if any. */
  function FlagValue(argv: seq<string>): Option<string>
  {
    FlagValueFrom(argv, 0)
  }

  /** How `~/.aqc_config` looks to the process: absent, readable text, or
      present but unreadable (a directory, no permission, bad encoding). */
  datatype ConfigFile = NoConfig | ConfigText(text: string) | ConfigUnreadable

  /** Reading an unreadable config file raises out of the module import. */
  datatype LangError = ConfigReadFailed

  /** The language from the config file when nothing else gave one. */
  function ConfigLang(config: ConfigFile): Result<string, LangError>
  {
    match config
    case NoConfig => Ok(DEFAULT_LANG)
    case ConfigText(text) => Ok(Strip(UniversalNewlines(text)))
    case ConfigUnreadable => Err(ConfigReadFailed)
  }

  /** The language `_parse_lang_from_argv` settles on: an accepted flag, else
      `AQC_LANG` when it is set (even to ""), else the stripped config file,
      else "en". */
  function LangChoice(argv: seq<string>, env: Option<string>, config: ConfigFile): Result<string, LangError>
  {
    match FlagValue(argv)
    case Some(lang) => Ok(lang)
    case None =>
      match env
      case Some(lang) => Ok(lang)
      case None => ConfigLang(config)
  }

  /** `_parse_lang_from_argv()`: the scan of `argv[:-1]` that stops at the
      first accepted flag. */
  method ParseLangFromArgv(argv: seq<string>, env: Option<string>, config: ConfigFile)
    returns (r: Result<string, LangError>)
    ensures r == LangChoice(argv, env, config)
  {
    var lang := env;
    var i := 0;
    while i + 1 < |argv|
      invariant 0 <= i <= |argv|
      invariant lang == env
      invariant FlagValueFrom(argv, i) == FlagValue(argv)
    {
      if argv[i] in LANG_FLAGS {
        var potentialLang := argv[i + 1];
        if !StartsWithDash(potentialLang) {
          lang := Some(potentialLang);
          break;
        }
      }
      i := i + 1;
    }
    if lang.None? {
      match config
      case NoConfig =>
        r := Ok(DEFAULT_LANG);
      case ConfigText(text) =>
        r := Ok(Strip(UniversalNewlines(text)));
      case ConfigUnreadable =>
        r := Err(ConfigReadFailed);
    } else {
      r := Ok(lang.value);
    }
  }

  /** An accepted flag wins over any `AQC_LANG` value and any config file. */
  lemma FlagOverridesEnv(argv: seq<string>, env: Option<string>, config: ConfigFile, j: int)
    requires Accepted(argv, j)
    requires forall k :: 0 <= k < j ==> !Accepted(argv, k)
    ensures LangChoice(argv, env, config) == Ok(argv[j + 1])
  {
    var v := FlagValue(argv);
    var i :| 0 <= i && Accepted(argv, i) && v.value == argv[i + 1] && forall k :: 0 <= k < i ==> !Accepted(argv, k);
    assert !(i < j) && !(j < i);
  }

  /** An argument starting with "-" at the end of argv changes nothing: it
      cannot be a flag's value, and as the last argument it is not scanned. */
  lemma TrailingDashArgIgnored(argv: seq<string>, x: string)
    requires StartsWithDash(x)
    ensures FlagValue(argv + [x]) == FlagValue(argv)
  {
    var longer := argv + [x];
    forall j ensures Accepted(longer, j) <==> Accepted(argv, j) {
      if 0 <= j && j + 1 < |argv| {
        assert longer[j] == argv[j] && longer[j + 1] == argv[j + 1];
      }
    }
    FlagValueFromAgree(longer, argv, 0);
  }

  /** Two argument lists that accept at the same positions, with the same
      values, give the same flag value. */
  lemma {:induction false} FlagValueFromAgree(a: seq<string>, b: seq<string>, i: nat)
    requires forall j :: Accepted(a, j) <==> Accepted(b, j)
    requires forall j :: Accepted(a, j) && Accepted(b, j) ==> a[j + 1] == b[j + 1]
    ensures FlagValueFrom(a, i) == FlagValueFrom(b, i)
    decreases (if |a| > |b| then |a| else |b|) - i
  {
    if Accepted(a, i) {
      assert Accepted(b, i);
    } else if i + 1 < |a| || i + 1 < |b| {
      assert !Accepted(b, i);
      FlagValueFromAgree(a, b, i + 1);
    }
  }

  /** A language flag in the last position is never used. */
  lemma LastFlagUnused(argv: seq<string>)
    requires argv != [] && argv[|argv| - 1] in LANG_FLAGS
    ensures FlagValue(argv) == FlagValue(argv[..|argv| - 1])
  {
    var n := |argv| - 1;
    assert argv[..n] + [argv[n]] == argv;
    assert StartsWithDash(argv[n]);
    TrailingDashArgIgnored(argv[..n], argv[n]);
  }

  /** The config file is consulted only when neither argv nor the
      environment gave a language: otherwise it may be anything. */
  lemma ConfigOnlyAsLastResort(argv: seq<string>, env: Option<string>, c1: ConfigFile, c2: ConfigFile)
    requires FlagValue(argv).Some? || env.Some?
    ensures LangChoice(argv, env, c1) == LangChoice(argv, env, c2)
    ensures LangChoice(argv, env, c1).Ok?
  {
  }

  /** `AQC_LANG=""` is a value: it is used as is and the config file is not
      read. */
  lemma EmptyEnvCounts(argv: seq<string>, config: ConfigFile)
    requires forall j :: !Accepted(argv, j)
    ensures LangChoice(argv, Some(""), config) == Ok("")
  {
  }

  /** Without a flag, an environment value or a config file the language
      is "en"; with a readable config file it is the file's stripped text. */
  lemma DefaultLanguage(argv: seq<string>, text: string)
    requires forall j :: !Accepted(argv, j)
    ensures LangChoice(argv, None, NoConfig) == Ok(DEFAULT_LANG)
    ensures LangChoice(argv, None, ConfigText(text)) == Ok(Strip(UniversalNewlines(text)))
    ensures LangChoice(argv, None, ConfigUnreadable).Err?
  {
  }

  /** The value read from a config file has no surrounding whitespace, and
      is empty only for a blank file. */
  lemma ConfigLangStripped(text: string)
    ensures var lang := ConfigLang(ConfigText(text)).value;
      (lang == [] <==> AllSpace(UniversalNewlines(text))) &&
      (lang != [] ==> !IsSpace(lang[0]) && !IsSpace(lang[|lang| - 1]))
  {
    StripSpec(UniversalNewlines(text));
  }

  /** Module start-up: `INITIAL_LANG = _parse_lang_from_argv()` and then
      `init_translation(INITIAL_LANG)` on the shared translator. An
      unreadable config file makes the import fail. */
  method StartUp(host: Host, argv: seq<string>, env: Option<string>, config: ConfigFile)
    returns (t: Translator, initialLang: Result<string, LangError>)
    ensures fresh(t)
    ensures initialLang == LangChoice(argv, env, config)
    ensures initialLang.Ok? ==> t.GetCurrentLanguage() == initialLang.value
    ensures initialLang.Ok? ==> t.translator == LoadTranslationFile(host, initialLang.value)
  {
    t := new Translator();
    initialLang := ParseLangFromArgv(argv, env, config);
    if initialLang.Ok? {
      t.InitTranslation(host, initialLang.value);
    }
  }
}
