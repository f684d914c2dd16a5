/**
 * The pure helpers of `js/utils.js`: clock formatting in 12- or 24-hour
 * style, the time-of-day bucket of an hour, and the greeting for a bucket in
 * one of six languages.  The hour, minute and second are what `Date` reports
 * for the local time, so they are passed in.
 */
module Utils {
  import opened Wrappers
  import Numerals

  // ---------------------------------------------------------------------------
  // formatTime
  // ---------------------------------------------------------------------------

  /** The hour as shown: unchanged in 24-hour style, `h % 12 || 12` otherwise. */
  function DisplayHour(h: nat, format24h: bool): (r: nat)
    requires h < 24
    ensures format24h ==> r == h
    ensures !format24h ==> 1 <= r <= 12 && r % 12 == h % 12
  {
    if format24h then h else if h % 12 == 0 then 12 else h % 12
  }

  /** The suffix: none in 24-hour style, else `" PM"` from noon on and `" AM"` before. */
  function Period(h: nat, format24h: bool): (r: string)
    ensures format24h ==> r == []
    ensures !format24h ==> (r == " PM" <==> h >= 12) && (r == " AM" <==> h < 12)
  {
    if format24h then "" else if h >= 12 then " PM" else " AM"
  }

  /** `formatTime(date, format24h, showSeconds)` for the local hour, minute and second. */
  function FormatTime(h: nat, m: nat, s: nat, format24h: bool, showSeconds: bool): string
    requires h < 24 && m < 60 && s < 60
  {
    var hh := Numerals.Pad2(DisplayHour(h, format24h));
    var mm := Numerals.Pad2(m);
    var ss := Numerals.Pad2(s);
    (if showSeconds then hh + ":" + mm + ":" + ss else hh + ":" + mm) + Period(h, format24h)
  }

  /**
   * The formatted time reads back field by field: two digits of hour, a
   * colon, two digits of minute, optionally a colon and two digits of second,
   * then the period.
   */
  lemma FormatTimeFields(h: nat, m: nat, s: nat, format24h: bool, showSeconds: bool)
    requires h < 24 && m < 60 && s < 60
    ensures var r := FormatTime(h, m, s, format24h, showSeconds);
            var body := if showSeconds then 8 else 5;
            && |r| == body + |Period(h, format24h)|
            && Numerals.ParseInt(r[..2]) == Some(DisplayHour(h, format24h) as int)
            && r[2] == ':'
            && Numerals.ParseInt(r[3..5]) == Some(m as int)
            && (showSeconds ==> r[5] == ':' && Numerals.ParseInt(r[6..8]) == Some(s as int))
            && r[body..] == Period(h, format24h)
  {
    var hh := Numerals.Pad2(DisplayHour(h, format24h));
    var mm := Numerals.Pad2(m);
    var ss := Numerals.Pad2(s);
    Numerals.Pad2RoundTrip(DisplayHour(h, format24h));
    Numerals.Pad2RoundTrip(m);
    Numerals.Pad2RoundTrip(s);
    var period := Period(h, format24h);
    if showSeconds {
      Fields3(hh, mm, ss, period);
    } else {
      Fields2(hh, mm, period);
    }
  }

  lemma Fields2(hh: string, mm: string, period: string)
    requires |hh| == 2 && |mm| == 2
    ensures var r := hh + ":" + mm + period;
            && |r| == 5 + |period| && r[..2] == hh && r[2] == ':' && r[3..5] == mm && r[5..] == period
  {
    var r := hh + ":" + mm + period;
    assert r[..2] == hh;
    assert r[3..5] == mm;
    assert r[5..] == period;
  }

  lemma Fields3(hh: string, mm: string, ss: string, period: string)
    requires |hh| == 2 && |mm| == 2 && |ss| == 2
    ensures var r := hh + ":" + mm + ":" + ss + period;
            && |r| == 8 + |period| && r[..2] == hh && r[2] == ':' && r[3..5] == mm
            && r[5] == ':' && r[6..8] == ss && r[8..] == period
  {
    var r := hh + ":" + mm + ":" + ss + period;
    assert r[..2] == hh;
    assert r[3..5] == mm;
    assert r[6..8] == ss;
    assert r[8..] == period;
  }

  /**
   * In 12-hour style nothing is lost: the shown hour and the period give
   * back the hour of the day.
   */
  lemma TwelveHourRecovers(h: nat)
    requires h < 24
    ensures h == DisplayHour(h, false) % 12 + (if Period(h, false) == " PM" then 12 else 0)
  {
  }

  /** Distinct times of day are formatted differently, in either style. */
  lemma FormatTimeInjective(h1: nat, m1: nat, h2: nat, m2: nat, format24h: bool)
    requires h1 < 24 && m1 < 60 && h2 < 24 && m2 < 60
    requires FormatTime(h1, m1, 0, format24h, false) == FormatTime(h2, m2, 0, format24h, false)
    ensures h1 == h2 && m1 == m2
  {
    FormatTimeFields(h1, m1, 0, format24h, false);
    FormatTimeFields(h2, m2, 0, format24h, false);
    var r := FormatTime(h1, m1, 0, format24h, false);
    if !format24h {
      assert r[5..] == Period(h1, false) == Period(h2, false);
      TwelveHourRecovers(h1);
      TwelveHourRecovers(h2);
    }
  }

  // ---------------------------------------------------------------------------
  // Time of day and greeting
  // ---------------------------------------------------------------------------

  datatype TimeOfDay = Morning | Afternoon | Evening | Night

  /** `getTimeOfDay` for a given hour: morning from 5, afternoon from 12, evening from 17, night from 21. */
  function GetTimeOfDay(hour: int): (r: TimeOfDay)
    ensures r == Morning <==> 5 <= hour < 12
    ensures r == Afternoon <==> 12 <= hour < 17
    ensures r == Evening <==> 17 <= hour < 21
    ensures r == Night <==> hour < 5 || hour >= 21
  {
    if 5 <= hour < 12 then Morning
    else if 12 <= hour < 17 then Afternoon
    else if 17 <= hour < 21 then Evening
    else Night
  }

  /** The order of the buckets through the waking part of the day. */
  function Rank(t: TimeOfDay): nat {
    match t
    case Morning => 0
    case Afternoon => 1
    case Evening => 2
    case Night => 3
  }

  /** From 5 in the morning on, later hours never fall into an earlier bucket. */
  lemma TimeOfDayMonotone(h1: int, h2: int)
    requires 5 <= h1 <= h2 < 24
    ensures Rank(GetTimeOfDay(h1)) <= Rank(GetTimeOfDay(h2))
  {
  }

  /** The greetings of one language, one per bucket. */
  datatype Greetings = Greetings(morning: string, afternoon: string, evening: string, night: string)

  function Entry(g: Greetings, t: TimeOfDay): string {
    match t
    case Morning => g.morning
    case Afternoon => g.afternoon
    case Evening => g.evening
    case Night => g.night
  }

  const English := Greetings("Good morning", "Good afternoon", "Good evening", "Good night")

  /** The greeting table of `getGreeting`. */
  function GreetingTable(lang: string): Option<Greetings> {
    if lang == "en" then Some(English)
    else if lang == "fr" then Some(Greetings("Bonjour", "Bon apr\U{00E8}s-midi", "Bonsoir", "Bonne nuit"))
    else if lang == "es" then Some(Greetings("Buenos d\U{00ED}as", "Buenas tardes", "Buenas tardes", "Buenas noches"))
    else if lang == "de" then Some(Greetings("Guten Morgen", "Guten Tag", "Guten Abend", "Gute Nacht"))
    else if lang == "it" then Some(Greetings("Buongiorno", "Buon pomeriggio", "Buonasera", "Buonanotte"))
    else if lang == "pt" then Some(Greetings("Bom dia", "Boa tarde", "Boa tarde", "Boa noite"))
    else None
  }

  /** `getGreeting(timeOfDay, lang)`: the language's entry when there is a non-empty one, else the English one. */
  function GetGreeting(t: TimeOfDay, lang: string): (r: string)
    ensures r != []
  {
    match GreetingTable(lang)
    case Some(g) => if Entry(g, t) != [] then Entry(g, t) else Entry(English, t)
    case None => Entry(English, t)
  }

  /** A language of the table gets its own greeting, any other language the English one. */
  lemma GreetingChoice(t: TimeOfDay, lang: string)
    ensures GreetingTable(lang).Some? ==> GetGreeting(t, lang) == Entry(GreetingTable(lang).value, t)
    ensures GreetingTable(lang).None? ==> GetGreeting(t, lang) == Entry(English, t)
  {
  }

  /** Exactly six languages have greetings. */
  lemma GreetingLanguages(lang: string)
    ensures GreetingTable(lang).Some? <==> lang in {"en", "fr", "es", "de", "it", "pt"}
  {
  }
}
