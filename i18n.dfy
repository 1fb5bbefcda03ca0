/**
 * The shared language helpers (js/i18n.js): the normalisation of any value onto the two
 * supported languages, the stored-language helpers over a storage modelled as a value,
 * the initial-language detection and the choice of a translation table.
 */
module I18n {
  import opened JsText

  /** `Object.keys(translations)`. */
  const SupportedLangs: seq<string> := ["es", "en"]

  /** A translation table: message key to text. */
  type Table = map<string, string>

  /** The two tables, reduced to the keys the mission screens use for their controls. */
  const Translations: map<string, Table> := map[
    "es" := map["random" := "Elegir Random", "rounds" := "Rondas", "generate" := "Generar", "back" := "Volver"],
    "en" := map["random" := "Pick Random", "rounds" := "Rounds", "generate" := "Generate", "back" := "Back"]
  ]

  /** The first two characters of `s` (`slice(0, 2)`), lower-cased. */
  function LangCode(s: string): (code: string)
    ensures |code| == Min(2, |s|)
    ensures forall i :: 0 <= i < |code| ==> code[i] == LowerChar(s[i])
  {
    ToLower(s[..Min(2, |s|)])
  }

  /** `normaliseLang`: a non-empty string whose two-letter code is supported, or else `'es'`. */
  function NormaliseLang(value: JsValue): (lang: string)
    ensures lang in SupportedLangs
  {
    if !Truthy(value) || !value.Str? then "es"
    else
      var code := LangCode(value.s);
      if code in SupportedLangs then code else "es"
  }

  /**
   * The result is English exactly when the value is a string whose first two characters
   * are `e` and `n` in either case; everything else, the non-strings and the empty string
   * included, is Spanish.
   */
  lemma NormaliseLangSpec(value: JsValue)
    ensures NormaliseLang(value) == "en" <==>
      value.Str? && |value.s| >= 2 && LowerChar(value.s[0]) == 'e' && LowerChar(value.s[1]) == 'n'
    ensures NormaliseLang(value) == "es" <==> NormaliseLang(value) != "en"
    ensures !value.Str? || value.s == "" ==> NormaliseLang(value) == "es"
  {
    if value.Str? && value.s != "" {
      var code := LangCode(value.s);
      if |value.s| >= 2 && LowerChar(value.s[0]) == 'e' && LowerChar(value.s[1]) == 'n' {
        assert code == "en";
      }
    }
  }

  /** Only the first two characters count, whatever follows them. */
  lemma NormaliseLangPrefix(s: string, t: string)
    requires |s| >= 2 && |t| >= 2 && s[..2] == t[..2]
    ensures NormaliseLang(Str(s)) == NormaliseLang(Str(t))
  {
    NormaliseLangSpec(Str(s));
    NormaliseLangSpec(Str(t));
    assert s[0] == s[..2][0] == t[..2][0] == t[0];
    assert s[1] == s[..2][1] == t[..2][1] == t[1];
  }

  /** Normalising a normalised language changes nothing. */
  lemma NormaliseLangIdempotent(value: JsValue)
    ensures NormaliseLang(Str(NormaliseLang(value))) == NormaliseLang(value)
  {
    var lang := NormaliseLang(value);
    NormaliseLangSpec(Str(lang));
    if lang == "en" {
      assert LowerChar(lang[0]) == 'e' && LowerChar(lang[1]) == 'n';
    } else {
      assert lang == "es";
      assert LowerChar(lang[1]) == 's';
    }
  }

  /** `normaliseLang('EN-us')` is English; a lone `'e'` is too short and falls back to Spanish. */
  lemma NormaliseLangExamples()
    ensures NormaliseLang(Str("EN-us")) == "en"
    ensures NormaliseLang(Str("e")) == "es"
    ensures NormaliseLang(Number(1)) == "es"
  {
    NormaliseLangSpec(Str("EN-us"));
    NormaliseLangSpec(Str("e"));
  }

  // ---------------------------------------------------------------------------
  // Stored language

  /**
   * `localStorage` as the language helpers see it: blocked (every access throws), or
   * available with the item under `lobelia_lang` present or absent (`null`).
   */
  datatype Storage = Blocked | Available(item: Option<string>)

  /** `getStoredLang`: nothing when storage is blocked or the item is absent or empty. */
  function GetStoredLang(storage: Storage): (lang: Option<string>)
    ensures lang.Some? ==> lang.value in SupportedLangs
    ensures lang.None? <==> storage.Blocked? || storage.item.None? || storage.item.value == ""
    ensures lang.Some? ==> lang.value == NormaliseLang(Str(storage.item.value))
  {
    match storage
    case Blocked => None
    case Available(item) =>
      if item.Some? && item.value != "" then Some(NormaliseLang(Str(item.value))) else None
  }

  /** `setStoredLang`: stores the normalised language; blocked storage stays as it is. */
  function SetStoredLang(storage: Storage, lang: JsValue): (stored: Storage)
    ensures stored.Blocked? <==> storage.Blocked?
    ensures stored.Available? ==> stored.item == Some(NormaliseLang(lang))
  {
    match storage
    case Blocked => Blocked
    case Available(_) => Available(Some(NormaliseLang(lang)))
  }

  /** What is stored reads back as the normalised language, unless storage is blocked. */
  lemma StoredLangRoundTrip(storage: Storage, lang: JsValue)
    ensures GetStoredLang(SetStoredLang(storage, lang))
      == if storage.Blocked? then None else Some(NormaliseLang(lang))
    ensures SetStoredLang(SetStoredLang(storage, lang), lang) == SetStoredLang(storage, lang)
  {
    if storage.Available? {
      NormaliseLangIdempotent(lang);
    }
  }

  // ---------------------------------------------------------------------------
  // Initial language and tables

  /** `global.navigator`: absent, or with its `language` and legacy `userLanguage` fields. */
  datatype Navigator = NoNavigator | Navigator(language: JsValue, userLanguage: JsValue)

  /** `global.navigator && (global.navigator.language || global.navigator.userLanguage)`. */
  function NavigatorLang(nav: Navigator): (v: JsValue)
    ensures nav.NoNavigator? ==> !Truthy(v)
    ensures nav.Navigator? && Truthy(nav.language) ==> v == nav.language
    ensures nav.Navigator? && !Truthy(nav.language) ==> v == nav.userLanguage
  {
    match nav
    case NoNavigator => Undefined
    case Navigator(language, userLanguage) => if Truthy(language) then language else userLanguage
  }

  /** `detectInitialLang`: the stored language, else the navigator's, else `'es'`, normalised. */
  function DetectInitialLang(storage: Storage, nav: Navigator): (lang: string)
    ensures lang in SupportedLangs
  {
    var stored := GetStoredLang(storage);
    var candidate :=
      if stored.Some? then Str(stored.value)
      else if Truthy(NavigatorLang(nav)) then NavigatorLang(nav)
      else Str("es");
    NormaliseLang(candidate)
  }

  /**
   * A stored language wins; without one the navigator decides, and without a usable
   * navigator language the page starts in Spanish.
   */
  lemma DetectInitialLangSpec(storage: Storage, nav: Navigator)
    ensures GetStoredLang(storage).Some? ==> DetectInitialLang(storage, nav) == GetStoredLang(storage).value
    ensures GetStoredLang(storage).None? && nav.Navigator? && Truthy(nav.language) ==>
      DetectInitialLang(storage, nav) == NormaliseLang(nav.language)
    ensures GetStoredLang(storage).None? && Truthy(NavigatorLang(nav)) ==>
      DetectInitialLang(storage, nav) == NormaliseLang(NavigatorLang(nav))
    ensures GetStoredLang(storage).None? && !Truthy(NavigatorLang(nav)) ==>
      DetectInitialLang(storage, nav) == "es"
    ensures DetectInitialLang(SetStoredLang(storage, Str("en")), nav) == if storage.Blocked? then DetectInitialLang(storage, nav) else "en"
  {
    var stored := GetStoredLang(storage);
    if stored.Some? {
      NormaliseLangIdempotent(Str(storage.item.value));
    }
    StoredLangRoundTrip(storage, Str("en"));
    NormaliseLangSpec(Str("en"));
    NormaliseLangIdempotent(Str("en"));
    NormaliseLangSpec(Str("es"));
  }

  /** `getStrings`: the table of the normalised language, which always exists. */
  function GetStrings(lang: JsValue): (table: Table)
    ensures table == Translations["es"] || table == Translations["en"]
  {
    Translations[NormaliseLang(lang)]
  }

  /** Every key of one table is in the other, so a lookup never depends on the language. */
  lemma StringsCoverSameKeys(a: JsValue, b: JsValue)
    ensures GetStrings(a).Keys == GetStrings(b).Keys
  {
  }
}
