/**
 * The quote widget (`js/quotes.js`): the request URL for a category, the
 * once-a-day cache of the shown quote, the fallback quotes, and the text put
 * on the clipboard.  The fetch, today's date string and the random pick of a
 * fallback quote are passed in.
 */
module Quotes {
  import opened Wrappers

  datatype Quote = Quote(text: string, author: string, tags: seq<string>)

  const ApiEndpoint := "https://api.quotable.io"

  /** The tag each category asks the API for; `all` and unknown categories ask for none. */
  function Tag(category: string): string {
    if category == "motivational" then "inspirational"
    else if category == "wisdom" then "wisdom"
    else if category == "success" then "success"
    else if category == "life" then "life"
    else if category == "happiness" then "happiness"
    else if category == "friendship" then "friendship"
    else if category == "love" then "love"
    else ""
  }

  /** The stored category, with `all` when none (or an empty one) is stored. */
  function Category(stored: Option<string>): (r: string)
    ensures r != []
    ensures stored.Some? && stored.value != [] ==> r == stored.value
    ensures Tag(r) != [] ==> stored == Some(r)
  {
    TextOr(stored, "all")
  }

  /** The request for a random quote of at most 150 characters, with the category's tag when it has one. */
  function RequestUrl(category: string): (url: string)
    ensures Tag(category) == [] ==> url == ApiEndpoint + "/random?maxLength=150"
    ensures Tag(category) != [] ==> url == ApiEndpoint + "/random?tags=" + Tag(category) + "&maxLength=150"
  {
    var tag := Tag(category);
    var url := ApiEndpoint + "/random" + (if tag != [] then "?tags=" + tag else "");
    url + (if tag != [] then "&maxLength=150" else "?maxLength=150")
  }

  /** Only the seven tagged categories ask for a tag. */
  lemma TaggedCategories(category: string)
    ensures Tag(category) != [] <==>
              category in {"motivational", "wisdom", "success", "life", "happiness", "friendship", "love"}
  {
  }

  /** The tag can be read back from the URL: it sits between the fixed prefix and suffix. */
  lemma RequestUrlTag(category: string)
    requires Tag(category) != []
    ensures var url := RequestUrl(category);
            var pre := ApiEndpoint + "/random?tags=";
            && |url| == |pre| + |Tag(category)| + |"&maxLength=150"|
            && url[|pre|..|pre| + |Tag(category)|] == Tag(category)
  {
    var pre := ApiEndpoint + "/random?tags=";
    var url := RequestUrl(category);
    assert url == pre + Tag(category) + "&maxLength=150";
    Slice3(pre, Tag(category), "&maxLength=150");
  }

  lemma Slice3(a: string, b: string, c: string)
    ensures |a + b + c| == |a| + |b| + |c|
    ensures (a + b + c)[|a|..|a| + |b|] == b
  {
  }

  /** Categories asking for different tags make different requests. */
  lemma RequestUrlInjective(c1: string, c2: string)
    requires Tag(c1) != Tag(c2)
    ensures RequestUrl(c1) != RequestUrl(c2)
  {
    if Tag(c1) != [] && Tag(c2) != [] {
      RequestUrlTag(c1);
      RequestUrlTag(c2);
    } else if Tag(c1) == [] {
      UntaggedShorter(c2);
    } else {
      UntaggedShorter(c1);
    }
  }

  /** An untagged request is shorter than any tagged one. */
  lemma UntaggedShorter(category: string)
    requires Tag(category) != []
    ensures |RequestUrl(category)| > |ApiEndpoint + "/random?maxLength=150"|
  {
    RequestUrlTag(category);
  }

  /** What the widget keeps: the shown quote, and the cached quote with the day it was fetched. */
  datatype State = State(current: Option<Quote>, cached: Option<Quote>, quoteDate: Option<string>)

  /** The answer to the request: the quote's fields, or any failure (network error, non-OK status). */
  datatype Fetched = Fetched(content: string, author: string, tags: Option<seq<string>>) | Failed

  /** The quotes shown when the request fails. */
  const Fallbacks: seq<Quote> := [
    Quote("The only way to do great work is to love what you do.", "Steve Jobs", []),
    Quote("Success is not final, failure is not fatal: it is the courage to continue that counts.", "Winston Churchill", []),
    Quote("Believe you can and you're halfway there.", "Theodore Roosevelt", []),
    Quote("The future belongs to those who believe in the beauty of their dreams.", "Eleanor Roosevelt", []),
    Quote("It is during our darkest moments that we must focus to see the light.", "Aristotle", [])
  ]

  /** The cached quote is today's and the caller did not ask for a new one. */
  predicate UsesCache(st: State, forceNew: bool, today: string) {
    !forceNew && st.cached.Some? && st.quoteDate == Some(today)
  }

  /**
   * `loadQuote(forceNew)`: the state afterwards and the URL requested, if
   * any.  `pick` is the random index of the fallback quote.
   */
  function LoadQuote(st: State, forceNew: bool, today: string, category: Option<string>, fetched: Fetched, pick: nat): (r: (State, Option<string>))
    requires pick < |Fallbacks|
    ensures UsesCache(st, forceNew, today) ==> r == (st.(current := st.cached), None)
    ensures !UsesCache(st, forceNew, today) ==> r.1 == Some(RequestUrl(Category(category)))
    ensures !UsesCache(st, forceNew, today) && fetched.Fetched? ==>
              var q := Quote(fetched.content, fetched.author, fetched.tags.GetOr([]));
              r.0 == State(Some(q), Some(q), Some(today))
    ensures !UsesCache(st, forceNew, today) && fetched.Failed? ==>
              r.0 == st.(current := Some(Fallbacks[pick]))
  {
    if UsesCache(st, forceNew, today) then (st.(current := st.cached), None)
    else
      var url := RequestUrl(Category(category));
      match fetched
      case Fetched(content, author, tags) =>
        var q := Quote(content, author, tags.GetOr([]));
        (State(Some(q), Some(q), Some(today)), Some(url))
      case Failed => (st.(current := Some(Fallbacks[pick])), Some(url))
  }

  /** Whatever happens, a quote is shown afterwards. */
  lemma LoadQuoteShows(st: State, forceNew: bool, today: string, category: Option<string>, fetched: Fetched, pick: nat)
    requires pick < |Fallbacks|
    ensures LoadQuote(st, forceNew, today, category, fetched, pick).0.current.Some?
  {
  }

  /** A failed request leaves the cache and its day alone. */
  lemma FailureKeepsCache(st: State, forceNew: bool, today: string, category: Option<string>, pick: nat)
    requires pick < |Fallbacks|
    ensures var after := LoadQuote(st, forceNew, today, category, Failed, pick).0;
            after.cached == st.cached && after.quoteDate == st.quoteDate
  {
  }

  /**
   * After a successful load, loading again the same day without forcing
   * makes no request and shows the same quote, whatever the network does.
   */
  lemma SameDayReusesQuote(st: State, forceNew: bool, today: string, category: Option<string>, fetched: Fetched,
                           pick: nat, again: Fetched, pick2: nat, category2: Option<string>)
    requires pick < |Fallbacks| && pick2 < |Fallbacks|
    requires fetched.Fetched?
    ensures var first := LoadQuote(st, forceNew, today, category, fetched, pick).0;
            var second := LoadQuote(first, false, today, category2, again, pick2);
            second.1.None? && second.0.current == first.current
  {
  }

  /** The next day the cache is stale and a new request goes out. */
  lemma NextDayRefreshes(st: State, today: string, tomorrow: string, category: Option<string>, fetched: Fetched, pick: nat)
    requires pick < |Fallbacks|
    requires st.quoteDate == Some(today) && tomorrow != today
    ensures LoadQuote(st, false, tomorrow, category, fetched, pick).1.Some?
  {
  }

  /** `copyQuote`: nothing without a shown quote; otherwise the text in double quotes, a dash, and the author. */
  function CopyQuote(current: Option<Quote>): (r: Option<string>)
    ensures current.None? <==> r.None?
    ensures r.Some? ==>
              var q := current.value;
              && |r.value| == |q.text| + |q.author| + 5
              && r.value[0] == '"' && r.value[1..|q.text| + 1] == q.text
              && r.value[|q.text| + 1..|q.text| + 5] == "\" \U{2014} "
              && r.value[|q.text| + 5..] == q.author
  {
    match current
    case None => None
    case Some(q) =>
      var s := "\"" + q.text + "\" \U{2014} " + q.author;
      CopyParts(q.text, q.author);
      Some(s)
  }

  lemma CopyParts(text: string, author: string)
    ensures var s := "\"" + text + "\" \U{2014} " + author;
            && |s| == |text| + |author| + 5
            && s[0] == '"' && s[1..|text| + 1] == text
            && s[|text| + 1..|text| + 5] == "\" \U{2014} "
            && s[|text| + 5..] == author
  {
    var s := "\"" + text + "\" \U{2014} " + author;
    assert s[1..|text| + 1] == text;
    assert s[|text| + 1..|text| + 5] == "\" \U{2014} ";
    assert s[|text| + 5..] == author;
  }

  /** After any load there is something to copy, and after a successful one it is the fetched quote. */
  lemma CopyAfterLoad(st: State, forceNew: bool, today: string, category: Option<string>, fetched: Fetched, pick: nat)
    requires pick < |Fallbacks|
    requires !UsesCache(st, forceNew, today) && fetched.Fetched?
    ensures var copied := CopyQuote(LoadQuote(st, forceNew, today, category, fetched, pick).0.current);
            && copied.Some?
            && copied.value[1..|fetched.content| + 1] == fetched.content
            && copied.value[|fetched.content| + 5..] == fetched.author
  {
  }
}
