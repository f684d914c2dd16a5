/**
 * The search box (`js/search.js`): turning a query into the URL of the chosen
 * search engine.  `encodeURIComponent` is a parameter, and navigating to the
 * URL is the `Some` result.
 */
module Search {
  import opened Wrappers
  import Strings

  /** The placeholder a template carries for the query. */
  const Placeholder := "%s"

  /**
   * The built-in engines' templates, each written as the text before the
   * placeholder followed by the placeholder; anything else is `None`.
   */
  function EngineTemplate(engine: string): Option<string> {
    match EngineStem(engine)
    case Some(stem) => Some(stem + Placeholder)
    case None => None
  }

  function EngineStem(engine: string): Option<string> {
    if engine == "google" then Some(GoogleStem)
    else if engine == "duckduckgo" then Some("https://duckduckgo.com/?q=")
    else if engine == "bing" then Some("https://www.bing.com/search?q=")
    else if engine == "yahoo" then Some("https://search.yahoo.com/search?p=")
    else if engine == "ecosia" then Some("https://www.ecosia.org/search?q=")
    else if engine == "brave" then Some("https://search.brave.com/search?q=")
    else if engine == "startpage" then Some("https://www.startpage.com/do/search?q=")
    else None
  }

  const GoogleStem := "https://www.google.com/search?q="
  const GoogleTemplate := GoogleStem + Placeholder

  /**
   * `performSearch(query)`: no query, or the custom engine without a custom
   * URL, goes nowhere; an unknown engine falls back to Google; the first
   * `%s` of the template is replaced by the encoded query.
   */
  function PerformSearch(query: string, engine: string, customUrl: string, encode: string -> string): (r: Option<string>)
    ensures query == [] ==> r.None?
    ensures engine == "custom" && customUrl == [] ==> r.None?
    ensures query != [] && engine == "custom" && customUrl != [] ==> r == Some(Strings.ReplaceFirst(customUrl, Placeholder, encode(query)))
  {
    if query == [] then None
    else if engine == "custom" then
      if customUrl == [] then None else Some(Strings.ReplaceFirst(customUrl, Placeholder, encode(query)))
    else
      Some(Strings.ReplaceFirst(EngineTemplate(engine).GetOr(GoogleTemplate), Placeholder, encode(query)))
  }

  /** `s` has no `%` character. */
  predicate NoPercent(s: string) {
    forall i :: 0 <= i < |s| ==> s[i] != '%'
  }

  /** Every built-in template holds one `%s`, at the very end: its stem has no `%`. */
  lemma StemsFreeOfPercent(engine: string)
    requires EngineStem(engine).Some?
    ensures NoPercent(EngineStem(engine).value)
  {
    if engine == "google" {
      GoogleStemFree();
    } else if engine == "duckduckgo" {
      DuckDuckGoStemFree();
    } else if engine == "bing" {
      BingStemFree();
    } else if engine == "yahoo" {
      YahooStemFree();
    } else if engine == "ecosia" {
      EcosiaStemFree();
    } else if engine == "brave" {
      BraveStemFree();
    } else if engine == "startpage" {
      StartpageStemFree();
    }
  }

  lemma GoogleStemFree()
    ensures NoPercent(GoogleStem)
  {
    assert forall i :: 0 <= i < |GoogleStem| ==> GoogleStem[i] != '%';
  }

  lemma DuckDuckGoStemFree()
    ensures NoPercent("https://duckduckgo.com/?q=")
  {
    assert forall i :: 0 <= i < |"https://duckduckgo.com/?q="| ==> "https://duckduckgo.com/?q="[i] != '%';
  }

  lemma BingStemFree()
    ensures NoPercent("https://www.bing.com/search?q=")
  {
    assert forall i :: 0 <= i < |"https://www.bing.com/search?q="| ==> "https://www.bing.com/search?q="[i] != '%';
  }

  lemma YahooStemFree()
    ensures NoPercent("https://search.yahoo.com/search?p=")
  {
    assert forall i :: 0 <= i < |"https://search.yahoo.com/search?p="| ==> "https://search.yahoo.com/search?p="[i] != '%';
  }

  lemma EcosiaStemFree()
    ensures NoPercent("https://www.ecosia.org/search?q=")
  {
    assert forall i :: 0 <= i < |"https://www.ecosia.org/search?q="| ==> "https://www.ecosia.org/search?q="[i] != '%';
  }

  lemma BraveStemFree()
    ensures NoPercent("https://search.brave.com/search?q=")
  {
    assert forall i :: 0 <= i < |"https://search.brave.com/search?q="| ==> "https://search.brave.com/search?q="[i] != '%';
  }

  lemma StartpageStemFree()
    ensures NoPercent("https://www.startpage.com/do/search?q=")
  {
    assert forall i :: 0 <= i < |"https://www.startpage.com/do/search?q="| ==> "https://www.startpage.com/do/search?q="[i] != '%';
  }

  /** With no `%` before it, the first `%s` is the one replaced. */
  lemma ReplaceAfterStem(stem: string, rep: string)
    requires NoPercent(stem)
    ensures Strings.ReplaceFirst(stem + Placeholder, Placeholder, rep) == stem + rep
  {
    var s := stem + Placeholder + [];
    assert s == stem + Placeholder;
    forall k: nat | k < |stem| ensures !Strings.OccursAt(s, Placeholder, k) {
      assert s[k] == stem[k];
    }
    Strings.ReplaceFirstAt(stem, Placeholder, [], rep);
  }

  /**
   * A query sent to a built-in engine (or to Google, for an unknown engine)
   * lands exactly at the end of the template's stem.
   */
  lemma BuiltInSearch(query: string, engine: string, customUrl: string, encode: string -> string)
    requires query != [] && engine != "custom"
    ensures PerformSearch(query, engine, customUrl, encode) == Some(EngineStem(engine).GetOr(GoogleStem) + encode(query))
  {
    var e := if EngineStem(engine).Some? then engine else "google";
    var stem := EngineStem(e).value;
    StemsFreeOfPercent(e);
    ReplaceAfterStem(stem, encode(query));
  }

  /** An unknown engine searches with Google. */
  lemma UnknownEngineIsGoogle(query: string, engine: string, customUrl: string, encode: string -> string)
    requires EngineTemplate(engine).None? && engine != "custom"
    ensures PerformSearch(query, engine, customUrl, encode) == PerformSearch(query, "google", customUrl, encode)
  {
  }
}
