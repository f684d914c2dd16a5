/**
 * The decisions of the settings panel (`js/settings.js`): accent colours,
 * calendar subscriptions, the focus-timer duration inputs, the theme class
 * and which background option is shown.  Prompts and confirmations are
 * answers passed in; the document is reduced to the class lists it changes.
 */
module Settings {
  import opened Wrappers
  import Strings
  import Numerals
  import Storage
  import FocusTimer
  import Calendar

  // ---------------------------------------------------------------------------
  // hexToRgb
  // ---------------------------------------------------------------------------

  datatype Rgb = Rgb(r: nat, g: nat, b: nat)

  /** `hex` is an optional `#` followed by exactly six hexadecimal digits of either case. */
  predicate IsHexColor(hex: string) {
    || (|hex| == 6 && Numerals.AllDigitsIn(hex, 16))
    || (|hex| == 7 && hex[0] == '#' && Numerals.AllDigitsIn(hex[1..], 16))
  }

  /** The part of `hex` after an optional leading `#`. */
  function HexDigits(hex: string): string {
    if |hex| == 7 && hex[0] == '#' then hex[1..] else hex
  }

  /**
   * `hexToRgb(hex)`: the three digit pairs read in base 16, or `null`
   * (`None`) when `hex` is not a colour of that shape.
   */
  function HexToRgb(hex: string): (r: Option<Rgb>)
    ensures r.Some? <==> IsHexColor(hex)
    ensures r.Some? ==> r.value.r < 256 && r.value.g < 256 && r.value.b < 256
    ensures r.Some? ==>
              var d := HexDigits(hex);
              && r.value.r == Numerals.DigitValue(d[0], 16) * 16 + Numerals.DigitValue(d[1], 16)
              && r.value.g == Numerals.DigitValue(d[2], 16) * 16 + Numerals.DigitValue(d[3], 16)
              && r.value.b == Numerals.DigitValue(d[4], 16) * 16 + Numerals.DigitValue(d[5], 16)
  {
    var d := HexDigits(hex);
    if |d| == 6 && Numerals.AllDigitsIn(d, 16) then
      HexPairValue(d[0..2]);
      HexPairValue(d[2..4]);
      HexPairValue(d[4..6]);
      Some(Rgb(Numerals.ParseHex(d[0..2]), Numerals.ParseHex(d[2..4]), Numerals.ParseHex(d[4..6])))
    else None
  }

  /** Two hexadecimal digits are worth the first times sixteen plus the second. */
  lemma HexPairValue(s: string)
    requires |s| == 2 && Numerals.AllDigitsIn(s, 16)
    ensures Numerals.ParseHex(s) == Numerals.DigitValue(s[0], 16) * 16 + Numerals.DigitValue(s[1], 16)
    ensures Numerals.ParseHex(s) < 256
  {
    var first := s[..1];
    assert s[..|s| - 1] == first && first[..|first| - 1] == [] && first[0] == s[0];
    assert Numerals.RadixValue(first, 16) == Numerals.DigitValue(s[0], 16);
  }

  /** The lower-case hexadecimal digit for `d`. */
  function HexDigit(d: nat): (c: char)
    requires d < 16
    ensures Numerals.DigitValue(c, 16) == d
  {
    if d < 10 then ('0' as int + d) as char else ('a' as int + d - 10) as char
  }

  /** Two lower-case hexadecimal digits for a component. */
  function Hex2(n: nat): string
    requires n < 256
  {
    [HexDigit(n / 16), HexDigit(n % 16)]
  }

  predicate ValidRgb(c: Rgb) {
    c.r < 256 && c.g < 256 && c.b < 256
  }

  /** The `#rrggbb` spelling of a colour, as the colour picker writes it. */
  function ToHex(c: Rgb): (s: string)
    requires ValidRgb(c)
    ensures |s| == 7 && s[0] == '#'
  {
    "#" + Hex2(c.r) + Hex2(c.g) + Hex2(c.b)
  }

  /** Every colour written as `#rrggbb`, with or without the `#`, reads back as itself. */
  lemma HexRoundTrip(c: Rgb)
    requires ValidRgb(c)
    ensures HexToRgb(ToHex(c)) == Some(c)
    ensures HexToRgb(ToHex(c)[1..]) == Some(c)
  {
    var s := ToHex(c);
    var d := s[1..];
    assert d[0..2] == Hex2(c.r) && d[2..4] == Hex2(c.g) && d[4..6] == Hex2(c.b);
    Hex2Value(c.r);
    Hex2Value(c.g);
    Hex2Value(c.b);
    assert Numerals.AllDigitsIn(d, 16);
    assert HexDigits(s) == d;
    assert HexDigits(d) == d;
  }

  lemma Hex2Value(n: nat)
    requires n < 256
    ensures Numerals.AllDigitsIn(Hex2(n), 16) && Numerals.ParseHex(Hex2(n)) == n
  {
    HexPairValue(Hex2(n));
  }

  /** Upper- and lower-case digits are worth the same. */
  lemma LowerDigit(c: char)
    ensures Numerals.DigitValue(Strings.LowerChar(c), 16) == Numerals.DigitValue(c, 16)
  {
  }

  /** The match ignores case: lower-casing the text gives the same colour. */
  lemma HexToRgbIgnoresCase(hex: string)
    ensures HexToRgb(Strings.ToLower(hex)) == HexToRgb(hex)
  {
    var d := HexDigits(hex);
    var e := HexDigits(Strings.ToLower(hex));
    LowerHexDigits(hex);
    forall i | 0 <= i < |d|
      ensures Numerals.DigitValue(e[i], 16) == Numerals.DigitValue(d[i], 16)
    {
      LowerDigit(d[i]);
    }
    assert IsHexColor(hex) <==> IsHexColor(Strings.ToLower(hex)) by {
      assert IsHexColor(hex) <==> |d| == 6 && Numerals.AllDigitsIn(d, 16);
      assert IsHexColor(Strings.ToLower(hex)) <==> |e| == 6 && Numerals.AllDigitsIn(e, 16);
    }
  }

  /** Lower-casing keeps the `#` and lower-cases each digit. */
  lemma LowerHexDigits(hex: string)
    ensures var d := HexDigits(hex);
            var e := HexDigits(Strings.ToLower(hex));
            |e| == |d| && forall i :: 0 <= i < |d| ==> e[i] == Strings.LowerChar(d[i])
  {
  }

  // ---------------------------------------------------------------------------
  // Calendar subscriptions
  // ---------------------------------------------------------------------------

  /** What `addCalendarFeed` ends with. */
  datatype FeedOutcome =
    | Cancelled
    | InvalidUrl
    | NotConfirmed
    | Duplicate
    | Added(feeds: seq<Calendar.Feed>)

  /** A prompt answer that is missing or blank. */
  predicate Blank(answer: Option<string>) {
    answer.None? || Strings.AllSpace(answer.value)
  }

  /** The accepted schemes, checked case-sensitively. */
  predicate HasFeedScheme(u: string) {
    Strings.StartsWith(u, "http://") || Strings.StartsWith(u, "https://") || Strings.StartsWith(u, "webcal://")
  }

  /** The URL mentions `.ics`, `calendar`, `ical` or `webcal`. */
  predicate LooksLikeFeed(u: string) {
    Strings.Contains(u, ".ics") || Strings.Contains(u, "calendar") || Strings.Contains(u, "ical") || Strings.Contains(u, "webcal")
  }

  /** The replacement of `/^webcal:\/\//i` by `https://`: the prefix is matched ignoring case. */
  function Normalize(u: string): string {
    if |u| >= 9 && Strings.ToLower(u[..9]) == "webcal://" then "https://" + u[9..] else u
  }

  predicate HasUrl(feeds: seq<Calendar.Feed>, url: string) {
    exists i :: 0 <= i < |feeds| && feeds[i].url == url
  }

  /**
   * `addCalendarFeed`, given the two prompt answers and the answer the
   * confirmation would get (asked only for a URL that does not look like a
   * feed).
   */
  function AddCalendarFeed(feeds: seq<Calendar.Feed>, name: Option<string>, url: Option<string>, proceed: bool): (r: FeedOutcome)
    ensures r == Cancelled <==> Blank(name) || Blank(url)
    ensures r == InvalidUrl <==> !Blank(name) && !Blank(url) && !HasFeedScheme(Strings.Trim(url.value))
    ensures r == NotConfirmed <==>
              && !Blank(name) && !Blank(url) && HasFeedScheme(Strings.Trim(url.value))
              && !LooksLikeFeed(Strings.Trim(url.value)) && !proceed
    ensures r == Duplicate <==>
              && !Blank(name) && !Blank(url) && HasFeedScheme(Strings.Trim(url.value))
              && (LooksLikeFeed(Strings.Trim(url.value)) || proceed)
              && HasUrl(feeds, Normalize(Strings.Trim(url.value)))
    ensures r.Added? ==>
              && !Blank(name) && !Blank(url)
              && var u := Normalize(Strings.Trim(url.value));
              && !HasUrl(feeds, u)
              && r.feeds == feeds + [Calendar.Feed(Strings.Trim(name.value), u)]
  {
    if Blank(name) || Blank(url) then Cancelled
    else
      var u := Strings.Trim(url.value);
      if !HasFeedScheme(u) then InvalidUrl
      else if !LooksLikeFeed(u) && !proceed then NotConfirmed
      else
        var normalized := Normalize(u);
        if HasUrl(feeds, normalized) then Duplicate
        else Added(feeds + [Calendar.Feed(Strings.Trim(name.value), normalized)])
  }

  /**
   * Once the scheme is checked, the case-insensitive replacement acts
   * exactly on a lower-case `webcal://`, and every stored feed is fetched
   * over `http://` or `https://`.
   */
  lemma NormalizeAfterValidation(u: string)
    requires HasFeedScheme(u)
    ensures Strings.StartsWith(u, "webcal://") ==> Normalize(u) == "https://" + u[9..]
    ensures !Strings.StartsWith(u, "webcal://") ==> Normalize(u) == u
    ensures Strings.StartsWith(Normalize(u), "http://") || Strings.StartsWith(Normalize(u), "https://")
  {
    if Strings.StartsWith(u, "webcal://") {
      assert u[..9] == "webcal://";
      assert Strings.ToLower("webcal://") == "webcal://";
      assert ("https://" + u[9..])[..8] == "https://";
    } else if |u| >= 9 {
      assert u[0] == 'h';
      assert Strings.ToLower(u[..9])[0] == 'h';
    }
  }

  /** A `webcal` link and its `https` spelling are the same subscription. */
  lemma WebcalIsHttps(feeds: seq<Calendar.Feed>, name: string, url: string)
    requires !Strings.AllSpace(name)
    requires Strings.StartsWith(Strings.Trim(url), "webcal://")
    requires HasUrl(feeds, "https://" + Strings.Trim(url)[9..])
    ensures AddCalendarFeed(feeds, Some(name), Some(url), true) == Duplicate
  {
    var u := Strings.Trim(url);
    NormalizeAfterValidation(u);
    Strings.TrimEmptyIffAllSpace(url);
  }

  /** `removeCalendarFeed(index)`: once confirmed, `feeds.splice(index, 1)`. */
  function RemoveCalendarFeed(feeds: seq<Calendar.Feed>, index: int, confirmed: bool): (r: seq<Calendar.Feed>)
    ensures !confirmed ==> r == feeds
    ensures confirmed && 0 <= index < |feeds| ==> r == feeds[..index] + feeds[index + 1..]
    ensures confirmed && index >= |feeds| ==> r == feeds
    ensures confirmed && -|feeds| <= index < 0 ==> r == feeds[..|feeds| + index] + feeds[|feeds| + index + 1..]
  {
    if !confirmed then feeds
    else
      var start := if index < 0 then (if |feeds| + index < 0 then 0 else |feeds| + index) else index;
      if start < |feeds| then feeds[..start] + feeds[start + 1..] else feeds
  }

  /** Removing a feed takes out that one feed and keeps every other. */
  lemma RemoveCalendarFeedMultiset(feeds: seq<Calendar.Feed>, index: nat)
    requires index < |feeds|
    ensures multiset(RemoveCalendarFeed(feeds, index, true)) + multiset{feeds[index]} == multiset(feeds)
  {
    assert feeds == feeds[..index] + [feeds[index]] + feeds[index + 1..];
  }

  /** Removing the feed just added gives back the subscriptions as they were. */
  lemma AddThenRemove(feeds: seq<Calendar.Feed>, name: Option<string>, url: Option<string>, proceed: bool)
    requires AddCalendarFeed(feeds, name, url, proceed).Added?
    ensures RemoveCalendarFeed(AddCalendarFeed(feeds, name, url, proceed).feeds, |feeds|, true) == feeds
  {
    var added := AddCalendarFeed(feeds, name, url, proceed).feeds;
    assert added[..|feeds|] == feeds;
  }

  // ---------------------------------------------------------------------------
  // Focus-timer duration inputs
  // ---------------------------------------------------------------------------

  /** `parseInt(text) || fallback`: `NaN` and `0` give the fallback, any other number is kept. */
  function DurationFallback(text: string, fallback: int): (r: int)
    ensures Numerals.ParseInt(text).Some? && Numerals.ParseInt(text).value != 0 ==> r == Numerals.ParseInt(text).value
    ensures Numerals.ParseInt(text).None? || Numerals.ParseInt(text) == Some(0) ==> r == fallback
  {
    match Numerals.ParseInt(text)
    case Some(n) => if n != 0 then n else fallback
    case None => fallback
  }

  /** A positive number typed as its decimal numeral is taken as is. */
  lemma DurationRoundTrip(n: nat, fallback: int)
    requires n > 0
    ensures DurationFallback(Numerals.NatToString(n), fallback) == n
  {
    Numerals.ParseIntNatToString(n);
  }

  /** The store key of the custom durations, and each input's field and fallback. */
  const DurationsKey := "focusTimerCustomDurations"

  function DurationField(m: FocusTimer.Mode): string {
    match m
    case Focus => "focus"
    case ShortBreak => "shortBreak"
    case LongBreak => "longBreak"
  }

  function DurationDefault(m: FocusTimer.Mode): (r: int)
    ensures r == FocusTimer.DurationMinutes(m)
  {
    match m
    case Focus => 25
    case ShortBreak => 5
    case LongBreak => 15
  }

  /** `(stored || {})[field] = v` on a JSON value. */
  function WithField(stored: Option<Storage.Json>, field: string, v: Storage.Json): Storage.Json {
    if stored.Some? && stored.value.JObj? then Storage.JObj(stored.value.fields[field := v])
    else if stored.Some? && Storage.Truthy(stored.value) then stored.value
    else Storage.JObj(map[field := v])
  }

  /**
   * The change handler of a duration input: the stored durations object (a
   * fresh one when nothing truthy is stored) gets the field set, and is
   * written back.  A truthy value that is not an object keeps no property
   * (a primitive ignores it, an array loses it in `JSON.stringify`), so it is
   * written back unchanged.
   */
  function SetDuration(blob: Storage.Blob, m: FocusTimer.Mode, text: string): (r: Storage.Blob)
    ensures r.Parsed?
  {
    var v := Storage.JNum(DurationFallback(text, DurationDefault(m)));
    Storage.SetKey(blob, DurationsKey, WithField(Storage.Get(blob, DurationsKey), DurationField(m), v))
  }

  /**
   * After a duration input changes, the stored durations hold the new value
   * under that input's field and every other field as before; no other
   * setting changes.
   */
  lemma SetDurationThenGet(blob: Storage.Blob, m: FocusTimer.Mode, text: string, other: string)
    requires other != DurationsKey
    requires match Storage.Get(blob, DurationsKey)
             case Some(j) => j.JObj? || !Storage.Truthy(j)
             case None => true
    ensures var after := SetDuration(blob, m, text);
            && Storage.Get(after, DurationsKey).Some?
            && Storage.Get(after, DurationsKey).value.JObj?
            && var fields := Storage.Get(after, DurationsKey).value.fields;
            && DurationField(m) in fields
            && fields[DurationField(m)] == Storage.JNum(DurationFallback(text, DurationDefault(m)))
            && (forall f :: f != DurationField(m) && f in fields ==>
                  Storage.Get(blob, DurationsKey).value.JObj? && f in Storage.Get(blob, DurationsKey).value.fields &&
                  fields[f] == Storage.Get(blob, DurationsKey).value.fields[f])
            && Storage.Get(after, other) == Storage.Get(blob, other)
  {
    var v := Storage.JNum(DurationFallback(text, DurationDefault(m)));
    Storage.SetThenGet(blob, DurationsKey, WithField(Storage.Get(blob, DurationsKey), DurationField(m), v), other);
  }

  // ---------------------------------------------------------------------------
  // applyTheme
  // ---------------------------------------------------------------------------

  datatype Theme = Light | Dark

  function ClassName(t: Theme): string {
    match t
    case Light => "theme-light"
    case Dark => "theme-dark"
  }

  function Opposite(t: Theme): Theme {
    match t
    case Light => Dark
    case Dark => Light
  }

  /** The theme `applyTheme(theme)` settles on: `auto` follows the preference, `dark` is dark, anything else light. */
  function ThemeDecision(theme: string, prefersDark: bool): (r: Theme)
    ensures r == Dark <==> theme == "dark" || (theme == "auto" && prefersDark)
  {
    if theme == "auto" then (if prefersDark then Dark else Light)
    else if theme == "dark" then Dark
    else Light
  }

  /** The class lists of `<html>` and `<body>`. */
  datatype Document = Document(html: set<string>, body: set<string>)

  /** One element: the opposite class removed, the chosen one added. */
  function SwapClass(classes: set<string>, t: Theme): set<string> {
    classes - {ClassName(Opposite(t))} + {ClassName(t)}
  }

  /**
   * `applyTheme(theme)`: both elements end with the chosen theme class and
   * without the other one; their other classes are untouched.
   */
  function ApplyTheme(doc: Document, theme: string, prefersDark: bool): (r: Document)
    ensures var t := ThemeDecision(theme, prefersDark);
            && ClassName(t) in r.html && ClassName(t) in r.body
            && ClassName(Opposite(t)) !in r.html && ClassName(Opposite(t)) !in r.body
    ensures forall c :: c != "theme-light" && c != "theme-dark" ==> (c in r.html <==> c in doc.html)
    ensures forall c :: c != "theme-light" && c != "theme-dark" ==> (c in r.body <==> c in doc.body)
  {
    var t := ThemeDecision(theme, prefersDark);
    Document(SwapClass(doc.html, t), SwapClass(doc.body, t))
  }

  /** The theme an element shows: dark exactly when it carries the dark class and not the light one. */
  function Shown(classes: set<string>): Option<Theme> {
    if "theme-dark" in classes && "theme-light" !in classes then Some(Dark)
    else if "theme-light" in classes && "theme-dark" !in classes then Some(Light)
    else None
  }

  /** Whatever the page showed before, afterwards both elements show the decided theme. */
  lemma ApplyThemeAgrees(doc: Document, theme: string, prefersDark: bool)
    ensures var r := ApplyTheme(doc, theme, prefersDark);
            Shown(r.html) == Shown(r.body) == Some(ThemeDecision(theme, prefersDark))
  {
  }

  /** Applying a theme a second time changes nothing. */
  lemma ApplyThemeIdempotent(doc: Document, theme: string, prefersDark: bool)
    ensures ApplyTheme(ApplyTheme(doc, theme, prefersDark), theme, prefersDark) == ApplyTheme(doc, theme, prefersDark)
  {
    var t := ThemeDecision(theme, prefersDark);
    var once := ApplyTheme(doc, theme, prefersDark);
    assert SwapClass(once.html, t) == once.html;
    assert SwapClass(once.body, t) == once.body;
  }

  // ---------------------------------------------------------------------------
  // toggleBackgroundOptions
  // ---------------------------------------------------------------------------

  /** The background option rows of the panel. */
  datatype BackgroundItem = Picsum | Pexels | SourceSplash | ArtInstitute | CustomImage | SolidColor

  /** The background type each row belongs to. */
  function ItemType(i: BackgroundItem): string {
    match i
    case Picsum => "picsum"
    case Pexels => "pexels"
    case SourceSplash => "sourcesplash"
    case ArtInstitute => "artinstitute"
    case CustomImage => "custom"
    case SolidColor => "color"
  }

  /** `toggleBackgroundOptions(type)`: every row is hidden, then the row of `type`, if any, is shown. */
  function ToggleBackgroundOptions(backgroundType: string): (shown: set<BackgroundItem>)
    ensures forall i :: i in shown <==> ItemType(i) == backgroundType
  {
    if backgroundType == "picsum" then {Picsum}
    else if backgroundType == "pexels" then {Pexels}
    else if backgroundType == "sourcesplash" then {SourceSplash}
    else if backgroundType == "artinstitute" then {ArtInstitute}
    else if backgroundType == "custom" then {CustomImage}
    else if backgroundType == "color" then {SolidColor}
    else {}
  }

  /** At most one row is ever shown, and exactly one for each of the six types. */
  lemma BackgroundOptionsSingle(backgroundType: string)
    ensures |ToggleBackgroundOptions(backgroundType)| <= 1
    ensures ToggleBackgroundOptions(backgroundType) != {} <==>
              backgroundType in {"picsum", "pexels", "sourcesplash", "artinstitute", "custom", "color"}
  {
  }

  /** Choosing a row's type shows that row alone. */
  lemma BackgroundOptionsRoundTrip(i: BackgroundItem)
    ensures ToggleBackgroundOptions(ItemType(i)) == {i}
  {
  }
}
