/**
 * The script that sets a theme class before the page is drawn
 * (`js/theme-init.js`), so the page does not flash the wrong theme.  Local
 * storage is a map from keys to the text stored under them.
 */
module ThemeInit {
  import opened Wrappers
  import Storage
  import Settings

  /** `localStorage.getItem(key) || 'auto'`. */
  function SavedTheme(local: map<string, string>, key: string): (r: string)
    ensures r != []
    ensures key in local && local[key] != [] ==> r == local[key]
  {
    TextOr(if key in local then Some(local[key]) else None, "auto")
  }

  /** The class chosen for a saved value: `auto` asks the preference, `dark` is dark, anything else light. */
  function ThemeClass(saved: string, prefersDark: bool): (r: string)
    ensures r == "theme-dark" || r == "theme-light"
    ensures r == "theme-dark" <==> saved == "dark" || (saved == "auto" && prefersDark)
  {
    if saved == "auto" then (if prefersDark then "theme-dark" else "theme-light")
    else if saved == "dark" then "theme-dark"
    else "theme-light"
  }

  /** For every saved value, the early class is the one `applyTheme` later settles on. */
  lemma ThemeClassAgreesWithApplyTheme(saved: string, prefersDark: bool)
    ensures ThemeClass(saved, prefersDark) == Settings.ClassName(Settings.ThemeDecision(saved, prefersDark))
  {
  }

  /** With nothing saved the page follows the preference. */
  lemma NothingSavedIsAuto(local: map<string, string>, prefersDark: bool)
    requires "theme" !in local
    ensures ThemeClass(SavedTheme(local, "theme"), prefersDark) == (if prefersDark then "theme-dark" else "theme-light")
  {
  }

  /** The script as written: it reads the `theme` key of local storage. */
  function InitialClassAsWritten(local: map<string, string>, prefersDark: bool): string {
    ThemeClass(SavedTheme(local, "theme"), prefersDark)
  }

  /** The settings store writes only its own key, so nothing it saves reaches the script as written. */
  lemma AsWrittenIgnoresSettings(local: map<string, string>, text: string, prefersDark: bool)
    ensures InitialClassAsWritten(local[Storage.SettingsKey := text], prefersDark) == InitialClassAsWritten(local, prefersDark)
  {
    assert Storage.SettingsKey != "theme";
  }

  /**
   * A saved theme of `dark` with a light preference: the script as written
   * starts the page light, while the theme the page then applies is dark.
   */
  lemma DarkSettingStartsLight(blob: Storage.Blob)
    ensures var saved := Storage.SetKey(blob, "theme", Storage.JStr("dark"));
            && InitialClassAsWritten(map[Storage.SettingsKey := "{\"theme\":\"dark\"}"], false) == "theme-light"
            && InitialClass(saved, false) == "theme-dark"
  {
    var saved := Storage.SetKey(blob, "theme", Storage.JStr("dark"));
    Storage.SetThenGet(blob, "theme", Storage.JStr("dark"), "language");
    assert Storage.SettingsKey != "theme";
  }

  /** The theme setting as `applyTheme` reads it; a value that is not text is neither `auto` nor `dark`. */
  function StoredTheme(blob: Storage.Blob): string {
    var v := Storage.Get(blob, "theme");
    if v.Some? && v.value.JStr? then v.value.s else ""
  }

  /** The corrected script: it reads the theme from the settings the store keeps. */
  function InitialClass(blob: Storage.Blob, prefersDark: bool): string {
    ThemeClass(StoredTheme(blob), prefersDark)
  }

  /**
   * Whatever theme was last saved through the store, the corrected script
   * picks the class `applyTheme` gives for it, so nothing flashes.
   */
  lemma InitialClassFollowsSettings(blob: Storage.Blob, theme: string, prefersDark: bool)
    ensures InitialClass(Storage.SetKey(blob, "theme", Storage.JStr(theme)), prefersDark)
            == Settings.ClassName(Settings.ThemeDecision(theme, prefersDark))
  {
    Storage.SetThenGet(blob, "theme", Storage.JStr(theme), "language");
  }

  /** With nothing stored, the corrected script reads the default `auto` and follows the preference. */
  lemma InitialClassDefault(prefersDark: bool)
    ensures InitialClass(Storage.Absent, prefersDark) == (if prefersDark then "theme-dark" else "theme-light")
  {
    assert Storage.Defaults["theme"] == Storage.JStr("auto");
  }
}
