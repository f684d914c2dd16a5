/**
 * Translations (`js/i18n.js`): looking a key up in the current language with
 * a fallback to English and then to the key itself, switching language, and
 * picking the language at start-up.
 */
module I18n {
  import opened Wrappers

  const English: map<string, string> := map[
    "good_morning" := "Good morning",
    "good_afternoon" := "Good afternoon",
    "good_evening" := "Good evening",
    "good_night" := "Good night",
    "enter_name" := "Enter your name",
    "search_placeholder" := "Search the web...",
    "settings" := "Settings",
    "general" := "General",
    "appearance" := "Appearance",
    "background" := "Background",
    "clock" := "Clock",
    "weather" := "Weather",
    "search" := "Search",
    "quick_links" := "Quick Links",
    "data" := "Data",
    "language" := "Language",
    "your_name" := "Your Name",
    "theme" := "Theme",
    "auto" := "Auto",
    "light" := "Light",
    "dark" := "Dark",
    "font" := "Font",
    "system_default" := "System Default",
    "emoji_favicon" := "Use Emoji as Favicon",
    "emoji" := "Emoji",
    "background_type" := "Background Type",
    "dynamic" := "Dynamic (Unsplash)",
    "custom_image" := "Custom Image",
    "solid_color" := "Solid Color",
    "unsplash_collection" := "Unsplash Collection ID",
    "custom_image_url" := "Custom Image URL",
    "background_color" := "Background Color",
    "clock_type" := "Clock Type",
    "digital" := "Digital",
    "analog" := "Analog",
    "none" := "None",
    "show_seconds" := "Show Seconds",
    "hour_format" := "24-hour Format",
    "enable_weather" := "Enable Weather",
    "weather_api_key" := "OpenWeather API Key",
    "get_api_key" := "Get free API key",
    "location" := "Location",
    "auto_detect" := "Auto-detect",
    "units" := "Units",
    "celsius" := "Celsius",
    "fahrenheit" := "Fahrenheit",
    "search_engine" := "Search Engine",
    "custom" := "Custom",
    "custom_search_url" := "Custom Search URL",
    "query_placeholder" := "Use %s as query placeholder",
    "custom_styles" := "Custom Styles",
    "custom_css" := "Custom CSS",
    "css_placeholder" := "/* Your custom CSS here */",
    "export_settings" := "Export Settings",
    "import_settings" := "Import Settings",
    "reset_default" := "Reset to Default",
    "add_link" := "Add Quick Link",
    "edit_link" := "Edit Quick Link",
    "link_name" := "Name",
    "link_url" := "URL",
    "link_icon" := "Icon (emoji or URL)",
    "cancel" := "Cancel",
    "save" := "Save",
    "delete_confirm" := "Delete this link?",
    "monday" := "Monday",
    "tuesday" := "Tuesday",
    "wednesday" := "Wednesday",
    "thursday" := "Thursday",
    "friday" := "Friday",
    "saturday" := "Saturday",
    "sunday" := "Sunday"
  ]

  const French: map<string, string> := map[
    "good_morning" := "Bonjour",
    "good_afternoon" := "Bon apr\U{00E8}s-midi",
    "good_evening" := "Bonsoir",
    "good_night" := "Bonne nuit",
    "enter_name" := "Entrez votre nom",
    "search_placeholder" := "Rechercher sur le web...",
    "settings" := "Param\U{00E8}tres"
  ]

  const Spanish: map<string, string> := map[
    "good_morning" := "Buenos d\U{00ED}as",
    "good_afternoon" := "Buenas tardes",
    "good_evening" := "Buenas tardes",
    "good_night" := "Buenas noches",
    "enter_name" := "Ingresa tu nombre",
    "search_placeholder" := "Buscar en la web...",
    "settings" := "Configuraci\U{00F3}n"
  ]

  /** The table of a language, for the three languages that have one (`translations[lang]`). */
  function TableOf(lang: string): Option<map<string, string>> {
    if lang == "en" then Some(English)
    else if lang == "fr" then Some(French)
    else if lang == "es" then Some(Spanish)
    else None
  }

  /** The entry for `key` in one table, when it is there and not empty (`table?.[key]` being truthy). */
  function Lookup(table: Option<map<string, string>>, key: string): Option<string> {
    if table.Some? && key in table.value && table.value[key] != "" then Some(table.value[key]) else None
  }

  /**
   * `t(key)` with `lang` as the current language: the current language's
   * entry, else the English one, else the key.
   */
  function T(lang: string, key: string): (r: string)
    ensures Lookup(TableOf(lang), key).Some? ==> r == Lookup(TableOf(lang), key).value
    ensures Lookup(TableOf(lang), key).None? && Lookup(Some(English), key).Some? ==> r == English[key]
    ensures Lookup(TableOf(lang), key).None? && Lookup(Some(English), key).None? ==> r == key
    ensures key != [] ==> r != []
  {
    match Lookup(TableOf(lang), key)
    case Some(s) => s
    case None =>
      match Lookup(Some(English), key)
      case Some(s) => s
      case None => key
  }

  /** A language without a table reads every key as English does. */
  lemma UnknownLanguageIsEnglish(lang: string, key: string)
    requires TableOf(lang).None?
    ensures T(lang, key) == T("en", key)
  {
    assert TableOf("en") == Some(English);
  }

  /** A key no table has reads as itself, in every language. */
  lemma MissingKeyIsItself(lang: string, key: string)
    requires key !in English && key !in French && key !in Spanish
    ensures T(lang, key) == key
  {
  }

  /** A key a language's table lacks reads as in English. */
  lemma MissingEntryIsEnglish(lang: string, key: string)
    requires TableOf(lang).Some? && key !in TableOf(lang).value
    ensures T(lang, key) == T("en", key)
  {
    assert TableOf("en") == Some(English);
  }

  /** The French entry for the settings button is French. */
  lemma FrenchSettings()
    ensures T("fr", "settings") == "Param\U{00E8}tres"
  {
    assert French["settings"] == "Param\U{00E8}tres";
  }

  /** `setLanguage(lang)`: only a language with a table is taken, and then stored. */
  function SetLanguage(current: string, lang: string): (r: (string, Option<string>))
    ensures TableOf(lang).Some? ==> r == (lang, Some(lang))
    ensures TableOf(lang).None? ==> r == (current, None)
  {
    if TableOf(lang).Some? then (lang, Some(lang)) else (current, None)
  }

  /** Switching twice to the same language is the same as switching once. */
  lemma SetLanguageIdempotent(current: string, lang: string)
    ensures SetLanguage(SetLanguage(current, lang).0, lang).0 == SetLanguage(current, lang).0
  {
  }

  /** `init`: the stored language, or `en` when none (or an empty one) is stored; it is not checked. */
  function Init(stored: Option<string>): (r: string)
    ensures r != []
    ensures stored.Some? && stored.value != [] ==> r == stored.value
    ensures TableOf(r).None? ==> stored.Some? && stored.value == r
  {
    TextOr(stored, "en")
  }

  /** Whatever was stored, `t` gives an answer: its own table's, English, or the key. */
  lemma TAfterInit(stored: Option<string>, key: string)
    ensures var lang := Init(stored);
            TableOf(lang).None? ==> T(lang, key) == T("en", key)
  {
    var lang := Init(stored);
    if TableOf(lang).None? {
      UnknownLanguageIsEnglish(lang, key);
    }
  }
}
