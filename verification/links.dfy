/**
 * Quick links (`js/links.js`): saving and deleting a link, adding a popular
 * site, flattening a browser bookmark tree, picking bookmarks out of an
 * exported bookmarks page, and merging imported bookmarks into the list.
 *
 * The stored list is passed in and the list to store (if any) comes back.
 * The `URL` constructor's verdict and the anchors the HTML parser finds are
 * parameters.
 */
module Links {
  import opened Wrappers
  import Strings

  datatype Link = Link(name: string, url: string, icon: Option<string>)

  /** Whether some link already has this URL (`links.some(link => link.url === url)`). */
  predicate HasUrl(links: seq<Link>, url: string) {
    exists i :: 0 <= i < |links| && links[i].url == url
  }

  function Urls(links: seq<Link>): (r: seq<string>)
    ensures |r| == |links| && forall i :: 0 <= i < |links| ==> r[i] == links[i].url
  {
    seq(|links|, i requires 0 <= i < |links| => links[i].url)
  }

  /** No two links share a URL. */
  ghost predicate DistinctUrls(links: seq<Link>) {
    forall i, j :: 0 <= i < j < |links| ==> links[i].url != links[j].url
  }

  // ---------------------------------------------------------------------------
  // saveLink and deleteLink
  // ---------------------------------------------------------------------------

  /**
   * `saveLink`: the name and URL are trimmed; a URL the `URL` constructor
   * rejects (`validUrl` false) leaves the list alone; otherwise the link
   * replaces the one being edited, or is appended.
   */
  function SaveLink(links: seq<Link>, name: string, url: string, editing: Option<nat>, validUrl: string -> bool): (r: Option<seq<Link>>)
    requires editing.Some? ==> editing.value < |links|
    ensures !validUrl(Strings.Trim(url)) <==> r.None?
    ensures r.Some? && editing.None? ==> r.value == links + [Link(Strings.Trim(name), Strings.Trim(url), None)]
    ensures r.Some? && editing.Some? ==> (&& |r.value| == |links|
                                         && r.value[editing.value] == Link(Strings.Trim(name), Strings.Trim(url), None)
                                         && forall i :: 0 <= i < |links| && i != editing.value ==> r.value[i] == links[i])
  {
    var link := Link(Strings.Trim(name), Strings.Trim(url), None);
    if !validUrl(link.url) then None
    else
      match editing
      case Some(i) => Some(ReplaceAt(links, i, link))
      case None => Some(links + [link])
  }

  /** `links[i] = link`. */
  function ReplaceAt(links: seq<Link>, i: nat, link: Link): (r: seq<Link>)
    requires i < |links|
    ensures |r| == |links| && r[i] == link
    ensures forall j :: 0 <= j < |links| && j != i ==> r[j] == links[j]
  {
    links[i := link]
  }

  /**
   * `deleteLink` once the user confirms: `splice(index, 1)` removes the link
   * at the index, and does nothing when the index is past the end.
   */
  function DeleteLink(links: seq<Link>, index: nat, confirmed: bool): (r: seq<Link>)
    ensures !confirmed || index >= |links| ==> r == links
    ensures confirmed && index < |links| ==> (&& |r| == |links| - 1
                                               && (forall i :: 0 <= i < index ==> r[i] == links[i])
                                               && (forall i :: index <= i < |r| ==> r[i] == links[i + 1]))
  {
    if confirmed && index < |links| then links[..index] + links[index + 1..] else links
  }

  /** Deleting a link removes exactly one occurrence of it from the list. */
  lemma DeleteLinkMultiset(links: seq<Link>, index: nat)
    requires index < |links|
    ensures multiset(DeleteLink(links, index, true)) + multiset{links[index]} == multiset(links)
  {
    assert links == links[..index] + [links[index]] + links[index + 1..];
  }

  /** Saving a new link and then deleting the last entry gives back the original list. */
  lemma SaveThenDelete(links: seq<Link>, name: string, url: string, validUrl: string -> bool)
    requires validUrl(Strings.Trim(url))
    ensures DeleteLink(SaveLink(links, name, url, None, validUrl).value, |links|, true) == links
  {
    var saved := SaveLink(links, name, url, None, validUrl).value;
    assert saved[..|links|] == links;
  }

  // ---------------------------------------------------------------------------
  // Popular sites
  // ---------------------------------------------------------------------------

  datatype Site = Site(name: string, url: string, icon: string)

  /** The twelve sites offered for one-click adding. */
  const PopularSites := [
    Site("Google", "https://google.com", "\U{1F50D}"),
    Site("YouTube", "https://youtube.com", "\U{1F4FA}"),
    Site("Gmail", "https://gmail.com", "\U{2709}\U{FE0F}"),
    Site("GitHub", "https://github.com", "\U{1F419}"),
    Site("Twitter", "https://twitter.com", "\U{1F426}"),
    Site("Facebook", "https://facebook.com", "\U{1F464}"),
    Site("LinkedIn", "https://linkedin.com", "\U{1F4BC}"),
    Site("Reddit", "https://reddit.com", "\U{1F916}"),
    Site("Amazon", "https://amazon.com", "\U{1F6D2}"),
    Site("Netflix", "https://netflix.com", "\U{1F3AC}"),
    Site("Spotify", "https://spotify.com", "\U{1F3B5}"),
    Site("Instagram", "https://instagram.com", "\U{1F4F7}")
  ]

  /** `addPopularSite`: nothing to store when the URL is already there; else the site, icon included, is appended. */
  function AddPopularSite(links: seq<Link>, site: Site): (r: Option<seq<Link>>)
    ensures r.None? <==> HasUrl(links, site.url)
    ensures r.Some? ==> r.value == links + [Link(site.name, site.url, Some(site.icon))]
  {
    if HasUrl(links, site.url) then None else Some(links + [Link(site.name, site.url, Some(site.icon))])
  }

  /** Adding a site twice stores it once: the second attempt finds the URL. */
  lemma AddPopularSiteTwice(links: seq<Link>, site: Site)
    ensures var once := AddPopularSite(links, site);
            once.Some? ==> AddPopularSite(once.value, site).None?
  {
    var once := AddPopularSite(links, site);
    if once.Some? {
      assert once.value[|links|].url == site.url;
    }
  }

  /** Adding a site keeps a list free of duplicate URLs free of them. */
  lemma AddPopularSiteDistinct(links: seq<Link>, site: Site)
    requires DistinctUrls(links)
    ensures var r := AddPopularSite(links, site);
            r.Some? ==> DistinctUrls(r.value)
  {
  }

  /** No two popular sites share a URL, so adding them all adds twelve links. */
  lemma PopularSitesDistinct()
    ensures forall i, j :: 0 <= i < j < |PopularSites| ==> PopularSites[i].url != PopularSites[j].url
  {
  }

  // ---------------------------------------------------------------------------
  // Bookmark trees
  // ---------------------------------------------------------------------------

  /**
   * A node of the browser's bookmark tree: a bookmark has a non-empty URL, a
   * folder has children.  A missing URL or title is the empty string.
   */
  datatype BookmarkNode = BookmarkNode(title: string, url: string, children: seq<BookmarkNode>)

  /** `flattenBookmarks`: every node with a URL, each before its descendants, in tree order. */
  function FlattenBookmarks(nodes: seq<BookmarkNode>): seq<BookmarkNode>
    decreases nodes
  {
    if nodes == [] then []
    else
      (if nodes[0].url != "" then [nodes[0]] else [])
      + FlattenBookmarks(nodes[0].children)
      + FlattenBookmarks(nodes[1..])
  }

  /** `x` is one of the nodes or a descendant of one. */
  ghost predicate InForest(x: BookmarkNode, nodes: seq<BookmarkNode>)
    decreases nodes
  {
    exists i :: 0 <= i < |nodes| && (x == nodes[i] || InForest(x, nodes[i].children))
  }

  /** The flattened list holds exactly the nodes of the forest that have a URL. */
  lemma {:induction false} FlattenBookmarksMember(nodes: seq<BookmarkNode>, x: BookmarkNode)
    ensures x in FlattenBookmarks(nodes) <==> x.url != "" && InForest(x, nodes)
    decreases nodes
  {
    if nodes != [] {
      var n := nodes[0];
      FlattenBookmarksMember(n.children, x);
      FlattenBookmarksMember(nodes[1..], x);
      if InForest(x, nodes) {
        var i :| 0 <= i < |nodes| && (x == nodes[i] || InForest(x, nodes[i].children));
        if i > 0 {
          assert nodes[1..][i - 1] == nodes[i];
        }
      }
      if InForest(x, nodes[1..]) {
        var i :| 0 <= i < |nodes| - 1 && (x == nodes[1..][i] || InForest(x, nodes[1..][i].children));
        assert nodes[1..][i] == nodes[i + 1];
      }
    }
  }

  /** A bookmark comes first in its own subtree, ahead of all its descendants. */
  lemma NodeBeforeDescendants(n: BookmarkNode, rest: seq<BookmarkNode>)
    requires n.url != ""
    ensures var flat := FlattenBookmarks([n] + rest);
            && flat[0] == n
            && flat[1..] == FlattenBookmarks(n.children) + FlattenBookmarks(rest)
  {
    assert ([n] + rest)[1..] == rest;
  }

  /** Flattening a forest flattens its trees one after another. */
  lemma {:induction false} FlattenBookmarksAppend(a: seq<BookmarkNode>, b: seq<BookmarkNode>)
    ensures FlattenBookmarks(a + b) == FlattenBookmarks(a) + FlattenBookmarks(b)
    decreases a
  {
    if a != [] {
      assert (a + b)[0] == a[0] && (a + b)[1..] == a[1..] + b;
      FlattenBookmarksAppend(a[1..], b);
    } else {
      assert a + b == b;
    }
  }

  // ---------------------------------------------------------------------------
  // Importing
  // ---------------------------------------------------------------------------

  /**
   * The import loop: each incoming link is appended unless a link with its
   * URL is already in the list, counting the ones added earlier in the same
   * run.  Returns the new list and how many were added.
   */
  function MergeLinks(links: seq<Link>, incoming: seq<Link>): (r: (seq<Link>, nat))
    ensures |links| <= |r.0| && r.0[..|links|] == links
    ensures r.1 == |r.0| - |links|
    decreases incoming
  {
    if incoming == [] then (links, 0)
    else if HasUrl(links, incoming[0].url) then MergeLinks(links, incoming[1..])
    else
      var (l, n) := MergeLinks(links + [incoming[0]], incoming[1..]);
      assert l[..|links|] == (links + [incoming[0]])[..|links|];
      (l, n + 1)
  }

  /**
   * What the import leaves: every incoming URL is in the list, every new
   * entry is an incoming link, and a list without duplicate URLs stays so.
   */
  lemma {:induction false} MergeLinksMeaning(links: seq<Link>, incoming: seq<Link>)
    ensures var r := MergeLinks(links, incoming).0;
            && (forall i :: 0 <= i < |incoming| ==> HasUrl(r, incoming[i].url))
            && (forall i :: |links| <= i < |r| ==> r[i] in incoming && !HasUrl(links, r[i].url))
            && (DistinctUrls(links) ==> DistinctUrls(r))
    decreases incoming
  {
    if incoming != [] {
      var b := incoming[0];
      var tail := incoming[1..];
      var r := MergeLinks(links, incoming).0;
      if HasUrl(links, b.url) {
        MergeLinksMeaning(links, tail);
        var k :| 0 <= k < |links| && links[k].url == b.url;
        assert r[k] == r[..|links|][k];
        forall i | 0 <= i < |incoming| ensures HasUrl(r, incoming[i].url) {
          if i > 0 { assert incoming[i] == tail[i - 1]; }
        }
      } else {
        var grown := links + [b];
        MergeLinksMeaning(grown, tail);
        assert r == MergeLinks(grown, tail).0;
        assert r[|links|] == r[..|grown|][|links|] == b;
        forall i | 0 <= i < |incoming| ensures HasUrl(r, incoming[i].url) {
          if i > 0 { assert incoming[i] == tail[i - 1]; }
        }
        forall i | |links| <= i < |r| ensures r[i] in incoming && !HasUrl(links, r[i].url) {
          if i > |links| {
            assert r[i] in tail && !HasUrl(grown, r[i].url);
            assert forall j :: 0 <= j < |links| ==> links[j] == grown[j];
          }
        }
        if DistinctUrls(links) {
          assert DistinctUrls(grown);
        }
      }
    }
  }

  /**
   * The incoming links an import adds, stated on its own: in incoming order,
   * each link whose URL is neither in the list nor on an earlier incoming link.
   */
  function FirstNew(links: seq<Link>, incoming: seq<Link>): (r: seq<Link>)
    ensures |r| <= |incoming|
    decreases |incoming|
  {
    if incoming == [] then []
    else
      var earlier := incoming[..|incoming| - 1];
      var last := incoming[|incoming| - 1];
      FirstNew(links, earlier) + (if HasUrl(links, last.url) || HasUrl(earlier, last.url) then [] else [last])
  }

  lemma HasUrlAppend(a: seq<Link>, b: seq<Link>, url: string)
    ensures HasUrl(a + b, url) <==> HasUrl(a, url) || HasUrl(b, url)
  {
    if HasUrl(a + b, url) {
      var i :| 0 <= i < |a + b| && (a + b)[i].url == url;
      if i >= |a| { assert b[i - |a|].url == url; }
    }
    if HasUrl(a, url) {
      var j :| 0 <= j < |a| && a[j].url == url;
      assert (a + b)[j] == a[j];
    }
    if HasUrl(b, url) {
      var j :| 0 <= j < |b| && b[j].url == url;
      assert (a + b)[|a| + j] == b[j];
    }
  }

  /** Between them, the list and the links added hold exactly the URLs of the list and of the incoming links. */
  lemma {:induction false} FirstNewUrls(links: seq<Link>, incoming: seq<Link>, url: string)
    ensures HasUrl(links, url) || HasUrl(FirstNew(links, incoming), url)
        <==> HasUrl(links, url) || HasUrl(incoming, url)
    decreases |incoming|
  {
    if incoming != [] {
      var earlier := incoming[..|incoming| - 1];
      var last := incoming[|incoming| - 1];
      FirstNewUrls(links, earlier, url);
      FirstNewUrls(links, earlier, last.url);
      assert incoming == earlier + [last];
      HasUrlAppend(earlier, [last], url);
      var kept := if HasUrl(links, last.url) || HasUrl(earlier, last.url) then [] else [last];
      HasUrlAppend(FirstNew(links, earlier), kept, url);
      if HasUrl([last], url) {
        assert last.url == url;
      }
    }
  }

  /** Merging two batches is merging the first, then the second. */
  lemma {:induction false} MergeLinksAppend(links: seq<Link>, a: seq<Link>, b: seq<Link>)
    ensures MergeLinks(links, a + b).0 == MergeLinks(MergeLinks(links, a).0, b).0
    decreases a
  {
    if a != [] {
      assert (a + b)[0] == a[0] && (a + b)[1..] == a[1..] + b;
      if HasUrl(links, a[0].url) {
        MergeLinksAppend(links, a[1..], b);
      } else {
        MergeLinksAppend(links + [a[0]], a[1..], b);
      }
    } else {
      assert a + b == b;
    }
  }

  /**
   * The import appends exactly `FirstNew`: the first link with each new URL
   * wins, later ones with the same URL are skipped, and incoming order is kept.
   */
  lemma {:induction false} MergeLinksFirstNew(links: seq<Link>, incoming: seq<Link>)
    ensures MergeLinks(links, incoming).0 == links + FirstNew(links, incoming)
    decreases |incoming|
  {
    if incoming == [] {
      assert links + [] == links;
    } else {
      var earlier := incoming[..|incoming| - 1];
      var last := incoming[|incoming| - 1];
      var m := MergeLinks(links, earlier).0;
      MergeLinksFirstNew(links, earlier);
      assert incoming == earlier + [last];
      MergeLinksAppend(links, earlier, [last]);
      assert MergeLinks(m, [last]).0 == if HasUrl(m, last.url) then m else m + [last];
      HasUrlAppend(links, FirstNew(links, earlier), last.url);
      FirstNewUrls(links, earlier, last.url);
      if !(HasUrl(links, last.url) || HasUrl(earlier, last.url)) {
        ConcatAssoc(links, FirstNew(links, earlier), [last]);
      } else {
        assert FirstNew(links, incoming) == FirstNew(links, earlier) + [];
      }
    }
  }

  lemma ConcatAssoc<X>(a: seq<X>, b: seq<X>, c: seq<X>)
    ensures (a + b) + c == a + (b + c)
  {
  }

  /** A URL already in the list is never imported again. */
  lemma MergeLinksSkipsKnown(links: seq<Link>, incoming: seq<Link>)
    requires forall i :: 0 <= i < |incoming| ==> HasUrl(links, incoming[i].url)
    ensures MergeLinks(links, incoming) == (links, 0)
  {
    MergeLinksMeaning(links, incoming);
  }

  /** What an import did: the list to store (none when nothing was added) and the count added. */
  datatype Imported = Imported(stored: Option<seq<Link>>, added: nat)

  /** The import decision shared by both import paths: store only when something was added. */
  function Finish(links: seq<Link>, incoming: seq<Link>): (r: Imported)
    ensures r.stored.Some? <==> r.added > 0
    ensures r.stored.Some? ==> r.stored.value == MergeLinks(links, incoming).0
    ensures r.added == |MergeLinks(links, incoming).0| - |links|
  {
    var (merged, added) := MergeLinks(links, incoming);
    if added > 0 then Imported(Some(merged), added) else Imported(None, added)
  }

  /** The bookmarks a tree offers: those with a URL and a title, as links without an icon. */
  function ChromeCandidates(flat: seq<BookmarkNode>): (r: seq<Link>)
    ensures |r| <= |flat|
  {
    if flat == [] then []
    else
      (if flat[0].url != "" && flat[0].title != "" then [Link(flat[0].title, flat[0].url, None)] else [])
      + ChromeCandidates(flat[1..])
  }

  lemma {:induction false} ChromeCandidatesMember(flat: seq<BookmarkNode>, l: Link)
    ensures l in ChromeCandidates(flat)
        <==> l.icon.None? && l.url != "" && l.name != "" && BookmarkNode(l.name, l.url, []) in NoChildren(flat)
  {
    if flat != [] {
      ChromeCandidatesMember(flat[1..], l);
      assert NoChildren(flat) == [NoChildren(flat)[0]] + NoChildren(flat[1..]);
    }
  }

  /** The nodes with their children dropped, to compare titles and URLs only. */
  function NoChildren(flat: seq<BookmarkNode>): (r: seq<BookmarkNode>)
    ensures |r| == |flat| && forall i :: 0 <= i < |flat| ==> r[i] == flat[i].(children := [])
  {
    seq(|flat|, i requires 0 <= i < |flat| => flat[i].(children := []))
  }

  /**
   * Importing from the browser's bookmark tree: no bookmark at all ends the
   * import (`None`); otherwise the titled bookmarks are merged in.
   */
  function ImportChromeBookmarks(links: seq<Link>, tree: seq<BookmarkNode>): (r: Option<Imported>)
    ensures FlattenBookmarks(tree) == [] <==> r.None?
    ensures r.Some? ==> r.value == Finish(links, ChromeCandidates(FlattenBookmarks(tree)))
  {
    var flat := FlattenBookmarks(tree);
    if flat == [] then None else Some(Finish(links, ChromeCandidates(flat)))
  }

  /** An anchor with an `href` attribute, as the HTML parser finds it. */
  datatype Anchor = Anchor(href: string, text: string)

  /**
   * `parseBookmarksHTML` after parsing: anchors whose href starts with
   * `http` and whose trimmed text is non-empty, in document order.
   */
  function ParseBookmarks(anchors: seq<Anchor>): (r: seq<Link>)
    ensures |r| <= |anchors|
    ensures forall i :: 0 <= i < |r| ==> r[i].icon.None? && Strings.StartsWith(r[i].url, "http") && r[i].name != []
  {
    if anchors == [] then [] else AnchorLink(anchors[0]) + ParseBookmarks(anchors[1..])
  }

  /** The link one anchor contributes, if any. */
  function AnchorLink(a: Anchor): (r: seq<Link>)
    ensures |r| <= 1
    ensures r != [] ==> r[0].icon.None? && Strings.StartsWith(r[0].url, "http") && r[0].name != []
  {
    var name := Strings.Trim(a.text);
    if a.href != "" && name != "" && Strings.StartsWith(a.href, "http") then [Link(name, a.href, None)] else []
  }

  /** An anchor whose href starts with `http` and whose text is not blank yields its link. */
  lemma {:induction false} ParseBookmarksMember(anchors: seq<Anchor>, a: Anchor)
    requires a in anchors
    ensures Link(Strings.Trim(a.text), a.href, None) in ParseBookmarks(anchors)
        <== Strings.StartsWith(a.href, "http") && !Strings.AllSpace(a.text)
  {
    Strings.TrimEmptyIffAllSpace(a.text);
    if anchors[0] != a {
      ParseBookmarksMember(anchors[1..], a);
    }
  }

  /** Conversely, every parsed link is the link of an anchor whose href starts with `http` and whose text is not blank. */
  lemma {:induction false} ParseBookmarksSource(anchors: seq<Anchor>, l: Link)
    requires l in ParseBookmarks(anchors)
    ensures exists a :: && a in anchors && l == Link(Strings.Trim(a.text), a.href, None)
                         && Strings.StartsWith(a.href, "http") && !Strings.AllSpace(a.text)
  {
    var a := anchors[0];
    if l in AnchorLink(a) {
      Strings.TrimEmptyIffAllSpace(a.text);
      assert a in anchors;
    } else {
      ParseBookmarksSource(anchors[1..], l);
      var b :| && b in anchors[1..] && l == Link(Strings.Trim(b.text), b.href, None)
                && Strings.StartsWith(b.href, "http") && !Strings.AllSpace(b.text);
      assert b in anchors;
    }
  }

  /** The links kept preserve document order: the links of a concatenation are the two parts' links. */
  lemma {:induction false} ParseBookmarksAppend(a: seq<Anchor>, b: seq<Anchor>)
    ensures ParseBookmarks(a + b) == ParseBookmarks(a) + ParseBookmarks(b)
  {
    if a != [] {
      assert (a + b)[0] == a[0] && (a + b)[1..] == a[1..] + b;
      ParseBookmarksAppend(a[1..], b);
    } else {
      assert a + b == b;
    }
  }

  /** Importing an exported bookmarks file: a file with no bookmarks ends the import (`None`). */
  function ImportBookmarksFile(links: seq<Link>, anchors: seq<Anchor>): (r: Option<Imported>)
    ensures ParseBookmarks(anchors) == [] <==> r.None?
    ensures r.Some? ==> r.value == Finish(links, ParseBookmarks(anchors))
  {
    var bookmarks := ParseBookmarks(anchors);
    if bookmarks == [] then None else Some(Finish(links, bookmarks))
  }

  /** Both imports leave the existing links first and in order, and only add links with new URLs. */
  lemma ImportKeepsExisting(links: seq<Link>, incoming: seq<Link>)
    ensures var r := Finish(links, incoming);
            r.stored.Some? ==> (&& r.stored.value[..|links|] == links
                                && |r.stored.value| == |links| + r.added
                                && forall i :: |links| <= i < |r.stored.value| ==> !HasUrl(links, r.stored.value[i].url))
  {
    MergeLinksMeaning(links, incoming);
  }
}
