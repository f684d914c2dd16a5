/**
 * The RSS widget (`js/rss.js`): feeds are fetched, each feed document is
 * read into at most ten articles, the articles of all feeds are tagged with
 * their feed's name and merged newest-first, the merged list is cached under
 * a key made of the sorted feed URLs for fifteen minutes, and at most twenty
 * articles are displayed.
 *
 * The XML layer is abstract: a document is the list of its `item` elements
 * and the list of its `entry` elements, in document order, and an element is
 * the text of the child elements the reader looks for.  Clock readings, date
 * parsing and HTML stripping are parameters.
 */
module Rss {
  import opened Wrappers
  import Strings
  import Numerals
  import Sorting
  import Lists

  /** Articles examined per feed document. */
  const MaxArticles := 10

  /** Milliseconds a cache entry stays fresh: fifteen minutes. */
  const CacheExpiry := 15 * 60 * 1000

  /** Articles displayed after a refresh. */
  const DisplayLimit := 20

  datatype RssFeed = RssFeed(url: string, name: string)

  /** The `<link>` child: its text, and its `href` attribute when present. */
  datatype LinkElement = LinkElement(text: string, href: Option<string>)

  /**
   * One `item` or `entry` element: the text content of the first child of
   * each name the reader asks for, or `None` when there is no such child.
   */
  datatype Element = Element(
    title: Option<string>,
    link: Option<LinkElement>,
    description: Option<string>,
    summary: Option<string>,
    pubDate: Option<string>,
    published: Option<string>,
    updated: Option<string>)

  /** A parsed feed document: its `item` elements and its `entry` elements. */
  datatype Document = Document(items: seq<Element>, entries: seq<Element>)

  /** An article as read from a feed; `link` is `None` for an empty link text without `href`. */
  datatype Article = Article(title: string, link: Option<string>, description: string, pubDate: string)

  /** An article with the name of the feed it came from. */
  datatype FeedArticle = FeedArticle(article: Article, feedName: string)

  datatype CacheEntry = CacheEntry(articles: seq<FeedArticle>, timestamp: int)

  /** The widget's state: the feeds, the articles on display and the cache. */
  datatype RssState = RssState(feeds: seq<RssFeed>, articles: seq<FeedArticle>, cache: map<string, CacheEntry>)

  // ---------------------------------------------------------------------------
  // Reading a feed document
  // ---------------------------------------------------------------------------

  /** RSS `item` elements when there are any, Atom `entry` elements otherwise. */
  function Candidates(doc: Document): (elems: seq<Element>)
    ensures doc.items != [] ==> elems == doc.items
    ensures doc.items == [] ==> elems == doc.entries
  {
    if |doc.items| == 0 then doc.entries else doc.items
  }

  /** An element becomes an article only with both a `<title>` and a `<link>` child. */
  predicate Readable(e: Element) {
    e.title.Some? && e.link.Some?
  }

  /**
   * The article read from a readable element.  The link is the element's
   * text, or its `href` when the text is empty (`None` when there is neither);
   * the description is the stripped `<description>`, else the stripped
   * `<summary>`, else empty; the date is the first of `<pubDate>`,
   * `<published>` and `<updated>`, else the current time.
   */
  function ReadArticle(e: Element, strip: string -> string, nowIso: string): (a: Article)
    requires Readable(e)
    ensures a.title == e.title.value
    ensures e.link.value.text != [] ==> a.link == Some(e.link.value.text)
    ensures e.link.value.text == [] ==> a.link == e.link.value.href
    ensures e.description.Some? ==> a.description == strip(e.description.value)
    ensures e.description.None? && e.summary.Some? ==> a.description == strip(e.summary.value)
    ensures e.description.None? && e.summary.None? ==> a.description == []
    ensures e.pubDate.Some? ==> a.pubDate == e.pubDate.value
    ensures e.pubDate.None? && e.published.Some? ==> a.pubDate == e.published.value
    ensures e.pubDate.None? && e.published.None? && e.updated.Some? ==> a.pubDate == e.updated.value
    ensures e.pubDate.None? && e.published.None? && e.updated.None? ==> a.pubDate == nowIso
  {
    var link := if e.link.value.text != [] then Some(e.link.value.text) else e.link.value.href;
    var desc := if e.description.Some? then e.description else e.summary;
    var date := if e.pubDate.Some? then e.pubDate else if e.published.Some? then e.published else e.updated;
    Article(e.title.value, link, if desc.Some? then strip(desc.value) else [], date.GetOr(nowIso))
  }

  /** The readable elements among `elems`, read in order. */
  function ReadAll(elems: seq<Element>, strip: string -> string, nowIso: string): (articles: seq<Article>)
    ensures |articles| <= |elems|
  {
    if elems == [] then []
    else if Readable(elems[0]) then [ReadArticle(elems[0], strip, nowIso)] + ReadAll(elems[1..], strip, nowIso)
    else ReadAll(elems[1..], strip, nowIso)
  }

  /** The elements `parseFeed` looks at: the first `MaxArticles` candidates. */
  function Examined(d: Document): (elems: seq<Element>)
    ensures |elems| <= MaxArticles && |elems| <= |Candidates(d)|
    ensures elems == Candidates(d)[..|elems|]
    ensures |elems| == MaxArticles || elems == Candidates(d)
  {
    var c := Candidates(d);
    if |c| <= MaxArticles then c else c[..MaxArticles]
  }

  /**
   * `parseFeed`: only the first `MaxArticles` candidates are examined, and
   * elements without a title or a link are dropped.  A document that cannot
   * be read at all (`None`) gives no articles.
   */
  function ParseFeed(doc: Option<Document>, strip: string -> string, nowIso: string): (articles: seq<Article>)
    ensures |articles| <= MaxArticles
    ensures doc.None? ==> articles == []
  {
    match doc
    case None => []
    case Some(d) => ReadAll(Examined(d), strip, nowIso)
  }

  /** Reading distributes over concatenation, so articles keep their document order. */
  lemma {:induction false} ReadAllAppend(a: seq<Element>, b: seq<Element>, strip: string -> string, nowIso: string)
    ensures ReadAll(a + b, strip, nowIso) == ReadAll(a, strip, nowIso) + ReadAll(b, strip, nowIso)
  {
    if a != [] {
      assert (a + b)[0] == a[0] && (a + b)[1..] == a[1..] + b;
      ReadAllAppend(a[1..], b, strip, nowIso);
    } else {
      assert a + b == b;
    }
  }

  /** An article comes out of `ReadAll` exactly when some readable element reads as it. */
  lemma {:induction false} ReadAllMember(elems: seq<Element>, a: Article, strip: string -> string, nowIso: string)
    ensures a in ReadAll(elems, strip, nowIso)
        <==> exists i :: 0 <= i < |elems| && Readable(elems[i]) && ReadArticle(elems[i], strip, nowIso) == a
  {
    if elems != [] {
      ReadAllMember(elems[1..], a, strip, nowIso);
      if exists i :: 0 <= i < |elems| && Readable(elems[i]) && ReadArticle(elems[i], strip, nowIso) == a {
        var i :| 0 <= i < |elems| && Readable(elems[i]) && ReadArticle(elems[i], strip, nowIso) == a;
        if i > 0 {
          assert elems[1..][i - 1] == elems[i];
        }
      }
      if exists i :: 0 <= i < |elems| - 1 && Readable(elems[1..][i]) && ReadArticle(elems[1..][i], strip, nowIso) == a {
        var i :| 0 <= i < |elems| - 1 && Readable(elems[1..][i]) && ReadArticle(elems[1..][i], strip, nowIso) == a;
        assert elems[1..][i] == elems[i + 1];
      }
    }
  }

  /**
   * What `parseFeed` returns is exactly the readable elements among the
   * first `MaxArticles` candidates, each read as an article.
   */
  lemma ParseFeedMember(d: Document, a: Article, strip: string -> string, nowIso: string)
    ensures a in ParseFeed(Some(d), strip, nowIso)
        <==> exists i :: 0 <= i < |Candidates(d)| && i < MaxArticles
                      && Readable(Candidates(d)[i]) && ReadArticle(Candidates(d)[i], strip, nowIso) == a
  {
    var e := Examined(d);
    ReadAllMember(e, a, strip, nowIso);
    if exists i :: 0 <= i < |Candidates(d)| && i < MaxArticles
                   && Readable(Candidates(d)[i]) && ReadArticle(Candidates(d)[i], strip, nowIso) == a {
      var i :| 0 <= i < |Candidates(d)| && i < MaxArticles
               && Readable(Candidates(d)[i]) && ReadArticle(Candidates(d)[i], strip, nowIso) == a;
      assert e[i] == Candidates(d)[i];
    }
  }

  /** Atom entries are ignored as soon as the document has one RSS item. */
  lemma ParseFeedPrefersItems(items: seq<Element>, entries: seq<Element>, others: seq<Element>, strip: string -> string, nowIso: string)
    requires items != []
    ensures ParseFeed(Some(Document(items, entries)), strip, nowIso)
         == ParseFeed(Some(Document(items, others)), strip, nowIso)
  {
  }

  /** A document without items is read from its entries. */
  lemma ParseFeedAtom(entries: seq<Element>, strip: string -> string, nowIso: string)
    ensures ParseFeed(Some(Document([], entries)), strip, nowIso)
         == ReadAll(if |entries| <= MaxArticles then entries else entries[..MaxArticles], strip, nowIso)
  {
  }

  // ---------------------------------------------------------------------------
  // The cache
  // ---------------------------------------------------------------------------

  /** The feed URLs in list order. */
  function Urls(feeds: seq<RssFeed>): (urls: seq<string>)
    ensures |urls| == |feeds|
    ensures forall i :: 0 <= i < |feeds| ==> urls[i] == feeds[i].url
  {
    seq(|feeds|, i requires 0 <= i < |feeds| => feeds[i].url)
  }

  /** `getCacheKey`: the feed URLs sorted and joined with `|`. */
  function CacheKey(feeds: seq<RssFeed>): string {
    Strings.Join(Sorting.SortStrings(Urls(feeds)), "|")
  }

  /** The key does not depend on the order of the feeds, only on which URLs there are. */
  lemma CacheKeyPermutation(a: seq<RssFeed>, b: seq<RssFeed>)
    requires multiset(Urls(a)) == multiset(Urls(b))
    ensures CacheKey(a) == CacheKey(b)
  {
    Sorting.SortStringsPermutation(Urls(a), Urls(b));
  }

  /** No URL of the list contains the separator `|`. */
  predicate NoBarInUrls(feeds: seq<RssFeed>) {
    forall i :: 0 <= i < |feeds| ==> '|' !in feeds[i].url
  }

  /**
   * For non-empty feed lists whose URLs contain no `|`, two lists share a key
   * exactly when they have the same URLs, counted with multiplicity.
   */
  lemma CacheKeyDistinguishes(a: seq<RssFeed>, b: seq<RssFeed>)
    requires a != [] && b != [] && NoBarInUrls(a) && NoBarInUrls(b)
    ensures CacheKey(a) == CacheKey(b) <==> multiset(Urls(a)) == multiset(Urls(b))
  {
    if CacheKey(a) == CacheKey(b) {
      var sa, sb := Sorting.SortStrings(Urls(a)), Sorting.SortStrings(Urls(b));
      SortedFreeOfBar(a);
      SortedFreeOfBar(b);
      Strings.SplitJoin(sa, '|');
      Strings.SplitJoin(sb, '|');
      assert sa == sb;
    } else {
      if multiset(Urls(a)) == multiset(Urls(b)) {
        CacheKeyPermutation(a, b);
      }
    }
  }

  lemma SortedFreeOfBar(feeds: seq<RssFeed>)
    requires feeds != [] && NoBarInUrls(feeds)
    ensures |Sorting.SortStrings(Urls(feeds))| >= 1
    ensures forall i :: 0 <= i < |Sorting.SortStrings(Urls(feeds))| ==> '|' !in Sorting.SortStrings(Urls(feeds))[i]
  {
    var u := Urls(feeds);
    var s := Sorting.SortStrings(u);
    assert |s| == |multiset(s)| == |multiset(u)| == |u|;
    forall i | 0 <= i < |s| ensures '|' !in s[i] {
      assert s[i] in multiset(u);
      var j :| 0 <= j < |u| && u[j] == s[i];
    }
  }

  /** A URL containing `|` makes one feed share its key with two others. */
  lemma CacheKeyCollision()
    ensures CacheKey([RssFeed("a|b", "x")]) == CacheKey([RssFeed("a", "x"), RssFeed("b", "y")])
  {
    KeyOfOne();
    KeyOfTwo();
  }

  lemma KeyOfOne()
    ensures CacheKey([RssFeed("a|b", "x")]) == "a|b"
  {
    assert Urls([RssFeed("a|b", "x")]) == ["a|b"];
    assert Sorting.SortStrings(["a|b"]) == ["a|b"];
  }

  lemma KeyOfTwo()
    ensures CacheKey([RssFeed("a", "x"), RssFeed("b", "y")]) == "a|b"
  {
    assert Urls([RssFeed("a", "x"), RssFeed("b", "y")]) == ["a", "b"];
    assert Sorting.LexLe("a", "b");
    SortTwo("a", "b");
    JoinPair("a", "b", "|");
    assert "a" + "|" + "b" == "a|b";
  }

  lemma JoinPair(x: string, y: string, sep: string)
    ensures Strings.Join([x, y], sep) == x + sep + y
  {
    assert [x, y][1..] == [y];
  }

  lemma SortTwo(x: string, y: string)
    requires Sorting.LexLe(x, y)
    ensures Sorting.SortStrings([x, y]) == [x, y]
  {
    assert [x, y][1..] == [y];
    assert Sorting.SortStrings([y]) == [y];
  }

  /** `getCachedArticles`: the entry for `key`, unless it is `CacheExpiry` or more old. */
  function GetCachedArticles(cache: map<string, CacheEntry>, key: string, now: int): (r: Option<seq<FeedArticle>>)
    ensures r.Some? ==> key in cache && r.value == cache[key].articles
  {
    if key in cache && now - cache[key].timestamp < CacheExpiry then Some(cache[key].articles) else None
  }

  /** `setCachedArticles`: the whole entry for `key` is replaced; the other entries stay. */
  function SetCachedArticles(cache: map<string, CacheEntry>, key: string, articles: seq<FeedArticle>, now: int): (c: map<string, CacheEntry>)
    ensures c.Keys == cache.Keys + {key}
    ensures forall k :: k in cache && k != key ==> c[k] == cache[k]
  {
    cache[key := CacheEntry(articles, now)]
  }

  /** Reading back what was just stored gives it until it is fifteen minutes old. */
  lemma CacheRoundTrip(cache: map<string, CacheEntry>, key: string, articles: seq<FeedArticle>, stored: int, now: int)
    ensures GetCachedArticles(SetCachedArticles(cache, key, articles, stored), key, now)
         == if now - stored < CacheExpiry then Some(articles) else None
  {
  }

  /** Storing under one key leaves the lookups of every other key as they were. */
  lemma CacheOtherKey(cache: map<string, CacheEntry>, key: string, other: string, articles: seq<FeedArticle>, stored: int, now: int)
    requires other != key
    ensures GetCachedArticles(SetCachedArticles(cache, key, articles, stored), other, now)
         == GetCachedArticles(cache, other, now)
  {
  }

  /** Once expired, an entry stays expired as time goes on. */
  lemma CacheStaysExpired(cache: map<string, CacheEntry>, key: string, now: int, later: int)
    requires now <= later && GetCachedArticles(cache, key, now).None?
    ensures GetCachedArticles(cache, key, later).None?
  {
  }

  // ---------------------------------------------------------------------------
  // Refreshing
  // ---------------------------------------------------------------------------

  /**
   * What a feed request delivered: nothing usable (a network error or a
   * response that is not `ok`), or a body that the XML parser either read
   * as a document or rejected (`None`).
   */
  datatype Response = Failed | Received(doc: Option<Document>)

  /** `fetchFeed`: every failure is swallowed and looks like an empty feed. */
  function FetchFeed(resp: Response, strip: string -> string, nowIso: string): (articles: seq<Article>)
    ensures |articles| <= MaxArticles
    ensures resp.Failed? ==> articles == []
  {
    match resp
    case Failed => []
    case Received(doc) => ParseFeed(doc, strip, nowIso)
  }

  /** The articles of one feed, each tagged with the feed's name. */
  function Tag(articles: seq<Article>, feedName: string): (tagged: seq<FeedArticle>)
    ensures |tagged| == |articles|
    ensures forall i :: 0 <= i < |articles| ==> tagged[i] == FeedArticle(articles[i], feedName)
  {
    seq(|articles|, i requires 0 <= i < |articles| => FeedArticle(articles[i], feedName))
  }

  /** Per feed, the fetched articles tagged with the name of the feed at the same index. */
  function Tagged(feeds: seq<RssFeed>, responses: seq<Response>, strip: string -> string, nowIso: string): (r: seq<seq<FeedArticle>>)
    requires |responses| == |feeds|
    ensures |r| == |feeds|
  {
    seq(|feeds|, i requires 0 <= i < |feeds| => Tag(FetchFeed(responses[i], strip, nowIso), feeds[i].name))
  }

  /** The sort key of the newest-first order: the negated publication instant. */
  function NewestFirst(instant: string -> int): FeedArticle -> int {
    (fa: FeedArticle) => -instant(fa.article.pubDate)
  }

  /** All feeds' articles, concatenated in feed order and stably sorted newest first. */
  function Merged(feeds: seq<RssFeed>, responses: seq<Response>, instant: string -> int, strip: string -> string, nowIso: string): (merged: seq<FeedArticle>)
    requires |responses| == |feeds|
    ensures multiset(merged) == multiset(Lists.Flatten(Tagged(feeds, responses, strip, nowIso)))
  {
    Sorting.SortBy(Lists.Flatten(Tagged(feeds, responses, strip, nowIso)), NewestFirst(instant))
  }

  /**
   * `refreshFeeds`: with no feeds nothing happens.  Otherwise the merged
   * list replaces the cache entry for the current key when it is not empty,
   * and its first `DisplayLimit` articles are displayed.
   */
  function RefreshFeeds(st: RssState, responses: seq<Response>, instant: string -> int, strip: string -> string, nowIso: string, now: int): (r: RssState)
    requires |responses| == |st.feeds|
    ensures r.feeds == st.feeds
    ensures st.feeds == [] ==> r == st
    ensures st.feeds != [] ==> |r.articles| <= DisplayLimit
  {
    if st.feeds == [] then st
    else
      var merged := Merged(st.feeds, responses, instant, strip, nowIso);
      var cache := if |merged| > 0 then SetCachedArticles(st.cache, CacheKey(st.feeds), merged, now) else st.cache;
      RssState(st.feeds, Lists.Take(merged, DisplayLimit), cache)
  }

  /** The displayed articles are a prefix of the merged list, which the cache holds whole. */
  lemma RefreshCaches(st: RssState, responses: seq<Response>, instant: string -> int, strip: string -> string, nowIso: string, now: int)
    requires |responses| == |st.feeds| && st.feeds != []
    ensures var merged := Merged(st.feeds, responses, instant, strip, nowIso);
            var r := RefreshFeeds(st, responses, instant, strip, nowIso, now);
            && r.articles == merged[..|r.articles|]
            && (|merged| <= DisplayLimit ==> r.articles == merged)
            && (merged == [] ==> r.cache == st.cache)
            && (merged != [] ==> r.cache == st.cache[CacheKey(st.feeds) := CacheEntry(merged, now)])
  {
  }

  /** The displayed articles are in newest-first order of their publication instants. */
  lemma RefreshNewestFirst(st: RssState, responses: seq<Response>, instant: string -> int, strip: string -> string, nowIso: string, now: int)
    requires |responses| == |st.feeds| && st.feeds != []
    ensures var shown := RefreshFeeds(st, responses, instant, strip, nowIso, now).articles;
            forall i, j :: 0 <= i < j < |shown| ==> instant(shown[i].article.pubDate) >= instant(shown[j].article.pubDate)
  {
    var merged := Merged(st.feeds, responses, instant, strip, nowIso);
    Sorting.SortBySorted(Lists.Flatten(Tagged(st.feeds, responses, strip, nowIso)), NewestFirst(instant));
    var shown := RefreshFeeds(st, responses, instant, strip, nowIso, now).articles;
    forall i, j | 0 <= i < j < |shown|
      ensures instant(shown[i].article.pubDate) >= instant(shown[j].article.pubDate)
    {
      assert shown[i] == merged[i] && shown[j] == merged[j];
      assert NewestFirst(instant)(merged[i]) <= NewestFirst(instant)(merged[j]);
    }
  }

  /**
   * Every merged article was fetched for one of the feeds and carries that
   * feed's name.
   */
  lemma MergedProvenance(feeds: seq<RssFeed>, responses: seq<Response>, instant: string -> int, strip: string -> string, nowIso: string, fa: FeedArticle)
    returns (i: nat)
    requires |responses| == |feeds|
    requires fa in Merged(feeds, responses, instant, strip, nowIso)
    ensures i < |feeds| && fa.feedName == feeds[i].name
    ensures fa.article in FetchFeed(responses[i], strip, nowIso)
  {
    var lists := Tagged(feeds, responses, strip, nowIso);
    assert fa in multiset(Merged(feeds, responses, instant, strip, nowIso));
    i := Lists.FlattenMember(lists, fa);
    var arts := FetchFeed(responses[i], strip, nowIso);
    var k :| 0 <= k < |lists[i]| && lists[i][k] == fa;
    assert fa == FeedArticle(arts[k], feeds[i].name);
  }

  /** No fetched article is lost in the merge: each feed's articles are all in it. */
  lemma MergedKeepsEachFeed(feeds: seq<RssFeed>, responses: seq<Response>, instant: string -> int, strip: string -> string, nowIso: string, i: nat)
    requires |responses| == |feeds| && i < |feeds|
    ensures multiset(Tag(FetchFeed(responses[i], strip, nowIso), feeds[i].name))
         <= multiset(Merged(feeds, responses, instant, strip, nowIso))
  {
    Lists.FlattenKeeps(Tagged(feeds, responses, strip, nowIso), i);
  }

  /** Articles with the same publication instant keep the feed order of the concatenation. */
  lemma MergedStable(feeds: seq<RssFeed>, responses: seq<Response>, instant: string -> int, strip: string -> string, nowIso: string, k: int)
    requires |responses| == |feeds|
    ensures Sorting.KeyFilter(Merged(feeds, responses, instant, strip, nowIso), NewestFirst(instant), k)
         == Sorting.KeyFilter(Lists.Flatten(Tagged(feeds, responses, strip, nowIso)), NewestFirst(instant), k)
  {
    Sorting.SortByStable(Lists.Flatten(Tagged(feeds, responses, strip, nowIso)), NewestFirst(instant), k);
  }

  /**
   * `refreshFeedsWithCache`: a fresh cache entry for the current feeds is
   * displayed as it is; otherwise the feeds are refreshed.
   */
  function RefreshFeedsWithCache(st: RssState, responses: seq<Response>, instant: string -> int, strip: string -> string, nowIso: string, now: int): (r: RssState)
    requires |responses| == |st.feeds|
    ensures r.feeds == st.feeds
    ensures GetCachedArticles(st.cache, CacheKey(st.feeds), now).Some? ==> r.cache == st.cache
  {
    match GetCachedArticles(st.cache, CacheKey(st.feeds), now)
    case Some(cached) => st.(articles := cached)
    case None => RefreshFeeds(st, responses, instant, strip, nowIso, now)
  }

  /**
   * A refresh followed within fifteen minutes by a cached load shows the
   * whole merged list, which can be longer than `DisplayLimit`.
   */
  lemma RefreshThenCached(st: RssState, responses: seq<Response>, later: seq<Response>, instant: string -> int, strip: string -> string, nowIso: string, now: int, now2: int)
    requires |responses| == |st.feeds| && |later| == |st.feeds| && st.feeds != []
    requires Merged(st.feeds, responses, instant, strip, nowIso) != []
    requires now2 - now < CacheExpiry
    ensures RefreshFeedsWithCache(RefreshFeeds(st, responses, instant, strip, nowIso, now), later, instant, strip, nowIso, now2).articles
         == Merged(st.feeds, responses, instant, strip, nowIso)
  {
  }

  // ---------------------------------------------------------------------------
  // Feeds
  // ---------------------------------------------------------------------------

  /** `getDefaultFeeds`. */
  function DefaultFeeds(): seq<RssFeed> {
    [RssFeed("https://news.ycombinator.com/rss", "Hacker News"),
     RssFeed("https://www.theverge.com/rss/index.xml", "The Verge")]
  }

  /** `loadFeeds`: the stored list (`None` when nothing is stored), else the defaults. */
  function LoadFeeds(stored: Option<seq<RssFeed>>): (feeds: seq<RssFeed>)
    ensures stored.Some? ==> feeds == stored.value
    ensures stored.None? ==> feeds == DefaultFeeds() && |feeds| == 2
  {
    stored.GetOr(DefaultFeeds())
  }

  /**
   * `addFeed`: with a non-empty URL and name the feed is appended and the
   * feeds are refreshed; otherwise nothing changes.  The new list is what
   * gets persisted under `rssFeeds`.
   */
  function AddFeed(st: RssState, url: string, name: string, responses: seq<Response>, instant: string -> int, strip: string -> string, nowIso: string, now: int): (r: RssState)
    requires |responses| == |st.feeds| + 1
    ensures url == [] || name == [] ==> r == st
    ensures url != [] && name != [] ==> r.feeds == st.feeds + [RssFeed(url, name)] && |r.articles| <= DisplayLimit
  {
    if url == [] || name == [] then st
    else RefreshFeeds(st.(feeds := st.feeds + [RssFeed(url, name)]), responses, instant, strip, nowIso, now)
  }

  // ---------------------------------------------------------------------------
  // Display helpers
  // ---------------------------------------------------------------------------

  /** `truncate(text, n)`: the text itself when short enough, else its first `n` characters and `...`. */
  function Truncate(text: string, n: nat): (r: string)
    ensures |r| <= n + 3
    ensures |text| <= n ==> r == text
    ensures |text| > n ==> |r| == n + 3 && r[..n] == text[..n] && r[n..] == "..."
  {
    if |text| <= n then text else text[..n] + "..."
  }

  /** How old an article is, in the units `formatDate` shows. */
  datatype Age = JustNow | MinutesAgo(minutes: int) | HoursAgo(hours: int) | DaysAgo(days: int) | OnDate

  const MinuteMs := 60000
  const HourMs := 3600000
  const DayMs := 86400000

  /**
   * `formatDate` for an article published `diffMs` milliseconds ago (negative
   * for a date in the future).  `Math.floor` of a quotient of integers is
   * Dafny's `/` for a positive divisor.
   */
  function FormatAge(diffMs: int): (a: Age)
    ensures a.JustNow? <==> diffMs < MinuteMs
    ensures a.MinutesAgo? ==> 1 <= a.minutes < 60 && a.minutes * MinuteMs <= diffMs < (a.minutes + 1) * MinuteMs
    ensures a.HoursAgo? ==> 1 <= a.hours < 24 && a.hours * HourMs <= diffMs < (a.hours + 1) * HourMs
    ensures a.DaysAgo? ==> 1 <= a.days < 7 && a.days * DayMs <= diffMs < (a.days + 1) * DayMs
    ensures a.OnDate? <==> diffMs >= 7 * DayMs
  {
    var mins := diffMs / MinuteMs;
    var hours := diffMs / HourMs;
    var days := diffMs / DayMs;
    if mins < 1 then JustNow
    else if mins < 60 then MinutesAgo(mins)
    else if hours < 24 then HoursAgo(hours)
    else if days < 7 then DaysAgo(days)
    else OnDate
  }

  /** Which bucket an age falls in: minutes, hours and days are successive. */
  function Bucket(a: Age): nat {
    match a
    case JustNow => 0
    case MinutesAgo(_) => 1
    case HoursAgo(_) => 2
    case DaysAgo(_) => 3
    case OnDate => 4
  }

  /** An older article never gets a finer bucket than a newer one. */
  lemma FormatAgeMonotonic(d1: int, d2: int)
    requires d1 <= d2
    ensures Bucket(FormatAge(d1)) <= Bucket(FormatAge(d2))
  {
  }

  /** The text shown for an age; `localeDate` is the browser's rendering of the date. */
  function AgeLabel(a: Age, localeDate: string): string {
    match a
    case JustNow => "Just now"
    case MinutesAgo(n) => Numerals.NatToString(if n < 0 then 0 else n) + "m ago"
    case HoursAgo(n) => Numerals.NatToString(if n < 0 then 0 else n) + "h ago"
    case DaysAgo(n) => Numerals.NatToString(if n < 0 then 0 else n) + "d ago"
    case OnDate => localeDate
  }

  /** `parseInt` of a relative label gives back the count it shows. */
  lemma AgeLabelCount(diffMs: int, localeDate: string)
    requires MinuteMs <= diffMs < 7 * DayMs
    ensures var a := FormatAge(diffMs);
            (Numerals.ParseInt(AgeLabel(a, localeDate))
             == Some(if a.MinutesAgo? then a.minutes else if a.HoursAgo? then a.hours else a.days))
  {
    var a := FormatAge(diffMs);
    match a
    case MinutesAgo(n) => Numerals.ParseIntNatPrefix(n, "m ago");
    case HoursAgo(n) => Numerals.ParseIntNatPrefix(n, "h ago");
    case DaysAgo(n) => Numerals.ParseIntNatPrefix(n, "d ago");
  }
}
