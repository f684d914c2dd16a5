/**
 * The settings store (`js/storage.js`): one JSON blob in local storage,
 * read as the defaults overlaid key by key with whatever object it holds.
 *
 * JSON text is abstracted to its parse result: the blob is absent,
 * unparsable, or a parsed value.  Writing `JSON.stringify(settings)` stores
 * a blob that parses back to `settings`.
 */
module Storage {
  import opened Wrappers

  /** A JSON value. */
  datatype Json =
    | JNull
    | JBool(b: bool)
    | JNum(n: int)
    | JStr(s: string)
    | JArr(items: seq<Json>)
    | JObj(fields: map<string, Json>)

  /** JavaScript truthiness of a JSON value. */
  predicate Truthy(j: Json) {
    match j
    case JNull => false
    case JBool(b) => b
    case JNum(n) => n != 0
    case JStr(s) => s != []
    case JArr(_) => true
    case JObj(_) => true
  }

  /** The one local-storage key the settings are written under. */
  const SettingsKey := "sowestart-settings"

  /** What local storage holds under the settings key. */
  datatype Blob = Absent | Unparsable | Parsed(value: Json)

  /** The built-in settings. */
  const Defaults: map<string, Json> := map[
    "language" := JStr("en"),
    "userName" := JStr("Friend"),
    "theme" := JStr("auto"),
    "font" := JStr("system"),
    "faviconEmoji" := JStr("\U{1F305}"),
    "useFaviconEmoji" := JBool(true),
    "backgroundType" := JStr("dynamic"),
    "unsplashCollection" := JStr(""),
    "customBackgroundUrl" := JStr(""),
    "backgroundColor" := JStr("#1a1a1a"),
    "currentBackground" := JNull,
    "clockType" := JStr("digital"),
    "showSeconds" := JBool(false),
    "use24Hour" := JBool(false),
    "weatherEnabled" := JBool(false),
    "weatherApiKey" := JStr(""),
    "weatherLocation" := JStr(""),
    "weatherUnits" := JStr("metric"),
    "weatherData" := JNull,
    "weatherLastUpdate" := JNull,
    "searchEngine" := JStr("google"),
    "customSearchUrl" := JStr(""),
    "quickLinks" := JArr([]),
    "customCSS" := JStr("")
  ]

  /** The keys an object spread copies from a parsed value. */
  function Entries(j: Json): map<string, Json> {
    if j.JObj? then j.fields else map[]
  }

  /** `getAll`: the defaults, overlaid with the stored object; an absent or unparsable blob gives the defaults. */
  function GetAll(blob: Blob): (r: map<string, Json>)
    ensures r.Keys == Defaults.Keys + (if blob.Parsed? then Entries(blob.value).Keys else {})
    ensures forall k :: k in r ==> r[k] == (if blob.Parsed? && k in Entries(blob.value) then Entries(blob.value)[k] else Defaults[k])
  {
    if blob.Parsed? then Defaults + Entries(blob.value) else Defaults
  }

  /** Every default key is always present, whatever the blob. */
  lemma GetAllHasDefaults(blob: Blob, k: string)
    requires k in Defaults
    ensures k in GetAll(blob)
    ensures !(blob.Parsed? && k in Entries(blob.value)) ==> GetAll(blob)[k] == Defaults[k]
  {
  }

  /**
   * `get(key)`: the setting when it is defined.  JSON has no `undefined`, so
   * a key present in the settings is defined; the fallback to the default is
   * never needed, because the settings already include every default.
   */
  function Get(blob: Blob, key: string): (r: Option<Json>)
    ensures r.Some? <==> key in Defaults || (blob.Parsed? && key in Entries(blob.value))
  {
    var settings := GetAll(blob);
    if key in settings then Some(settings[key]) else None
  }

  /** A stored value wins; otherwise the default is read. */
  lemma GetOverlay(blob: Blob, key: string)
    ensures blob.Parsed? && key in Entries(blob.value) ==> Get(blob, key) == Some(Entries(blob.value)[key])
    ensures !(blob.Parsed? && key in Entries(blob.value)) && key in Defaults ==> Get(blob, key) == Some(Defaults[key])
  {
  }

  /** `set(key, value)`: the settings with one key changed, written back whole. */
  function SetKey(blob: Blob, key: string, value: Json): (r: Blob)
    ensures r.Parsed? && r.value.JObj?
  {
    Parsed(JObj(GetAll(blob)[key := value]))
  }

  /** `set(object)`: every key of the object merged into the settings, written back whole. */
  function SetMany(blob: Blob, obj: map<string, Json>): (r: Blob)
    ensures r.Parsed? && r.value.JObj?
  {
    Parsed(JObj(GetAll(blob) + obj))
  }

  /** After `set(key, value)`, `get(key)` is the value and every other key reads as before. */
  lemma SetThenGet(blob: Blob, key: string, value: Json, other: string)
    requires other != key
    ensures Get(SetKey(blob, key, value), key) == Some(value)
    ensures Get(SetKey(blob, key, value), other) == Get(blob, other)
  {
  }

  /** `set(object)` changes exactly the object's keys. */
  lemma SetManyThenGet(blob: Blob, obj: map<string, Json>, key: string)
    ensures key in obj ==> Get(SetMany(blob, obj), key) == Some(obj[key])
    ensures key !in obj ==> Get(SetMany(blob, obj), key) == Get(blob, key)
  {
  }

  /** After any `set`, the blob itself holds every default key. */
  lemma SetKeepsDefaults(blob: Blob, key: string, value: Json, obj: map<string, Json>)
    ensures Defaults.Keys <= SetKey(blob, key, value).value.fields.Keys
    ensures Defaults.Keys <= SetMany(blob, obj).value.fields.Keys
  {
  }

  /** `reset`: the blob is removed and the defaults are returned. */
  function Reset(): (r: (Blob, map<string, Json>))
    ensures GetAll(r.0) == r.1 == Defaults
  {
    (Absent, Defaults)
  }

  /** Setting a key to its current value leaves every setting as it reads now. */
  lemma SetCurrentValue(blob: Blob, key: string)
    requires key in GetAll(blob)
    ensures GetAll(SetKey(blob, key, GetAll(blob)[key])) == GetAll(blob)
  {
    var settings := GetAll(blob);
    assert settings[key := settings[key]] == settings;
    assert GetAll(SetKey(blob, key, settings[key])) == Defaults + settings;
  }

  /** The outcome of importing a settings file. */
  datatype Imported = Accepted(settings: Json) | Rejected

  /**
   * `import`: a file that parses as JSON replaces the blob (whatever value it
   * holds) and is returned; one that does not is rejected and the blob stays.
   */
  function Import(blob: Blob, file: Option<Json>): (r: (Blob, Imported))
    ensures file.None? ==> r == (blob, Rejected)
    ensures file.Some? ==> r == (Parsed(file.value), Accepted(file.value))
  {
    match file
    case None => (blob, Rejected)
    case Some(j) => (Parsed(j), Accepted(j))
  }

  /** An imported object reads back key by key over the defaults. */
  lemma ImportThenGet(blob: Blob, obj: map<string, Json>, key: string)
    ensures var after := Import(blob, Some(JObj(obj))).0;
            && (key in obj ==> Get(after, key) == Some(obj[key]))
            && (key !in obj && key in Defaults ==> Get(after, key) == Some(Defaults[key]))
  {
  }
}
