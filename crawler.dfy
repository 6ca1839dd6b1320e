/**
 * `Crawler` of the refactored crawler: it owns a `SqliteIndex` and crawls
 * through an outside `Web`.  Each method is proved to have the effect the
 * matching function of `CrawlSpec` describes.
 */
module Crawling {
  import opened Wrappers
  import opened Tokenizer
  import opened Document
  import opened Links
  import opened StoreSpec
  import opened IndexStore
  import opened CrawlSpec

  class Crawler {
    const index: SqliteIndex
    const web: Web

    constructor (index: SqliteIndex, web: Web)
      ensures this.index == index && this.web == web
    {
      this.index := index;
      this.web := web;
    }

    /** `do_index(url, soup)`: the page's words go to `add_index`. */
    method DoIndex(url: string, soup: Node)
      modifies index
      ensures index.State() == CrawlSpec.DoIndex(old(index.State()), url, soup)
    {
      var words := GetWords(soup);
      index.AddIndex(url, words);
    }

    /** `do_link_ref(this_url, link_url, link_text)`: the anchor text's words go to `add_link_ref`. */
    method DoLinkRef(thisUrl: string, linkUrl: string, linkText: string)
      modifies index
      ensures index.State() == CrawlSpec.DoLinkRef(old(index.State()), thisUrl, linkUrl, linkText)
    {
      var linkWords := WordsFromText(linkText, IgnoreWords);
      index.AddLinkRef(thisUrl, linkUrl, linkWords);
    }

    /**
     * `crawl(urls, depth)`: one pass over `urls` that collects the next
     * frontier, then, while passes remain, a crawl of that frontier.
     */
    method Crawl(urls: seq<string>, depth: int)
      requires depth >= 1
      modifies index
      ensures index.State() == CrawlSpec.Crawl(web, old(index.State()), urls, depth).db
      decreases depth
    {
      var next := VisitAll(urls);
      var remaining := depth - 1;
      if remaining == 0 {
        return;
      }
      Crawl(next, remaining);
    }

    /** The `for url in not_indexed_url` loop of one pass, which collects `next_urls`. */
    method VisitAll(urls: seq<string>) returns (next: seq<string>)
      modifies index
      ensures index.State() == Round(web, old(index.State()), urls).db
      ensures next == Round(web, old(index.State()), urls).next
    {
      ghost var p0 := Pass(index.State(), [], []);
      next := [];
      var i := 0;
      while i < |urls|
        invariant 0 <= i <= |urls|
        invariant index.State() == Visits(web, p0, urls[..i]).db
        invariant next == Visits(web, p0, urls[..i]).next
      {
        ghost var p := Visits(web, p0, urls[..i]);
        VisitsStep(web, p0, urls, i);
        next := VisitUrl(urls[i], next, p.indexed);
        i := i + 1;
      }
      assert urls[..i] == urls;
    }

    /**
     * One URL of the pass: skipped when `is_indexed` holds or the fetch
     * fails; otherwise indexed, then its links.  `trace` is the list of
     * pages indexed so far, which the visit extends.
     */
    method VisitUrl(url: string, next: seq<string>, ghost trace: seq<string>) returns (next': seq<string>)
      modifies index
      ensures index.State() == Visit(web, Pass(old(index.State()), next, trace), url).db
      ensures next' == Visit(web, Pass(old(index.State()), next, trace), url).next
    {
      next' := next;
      var indexed := index.IsIndexed(url);
      if indexed {
        return;
      }
      var page := web.fetch(url);
      if page.None? {
        return;
      }
      var soup := page.value;
      ghost var q := Pass(CrawlSpec.DoIndex(index.State(), url, soup), next, trace + [url]);
      DoIndex(url, soup);
      var links := GetValidLinks(web.urls, url, soup);
      next' := LinkRefs(url, links, next, q);
    }

    /** The loop over `get_valid_links(url, soup)`: a link ref for each, and its URL into the frontier. */
    method LinkRefs(url: string, links: seq<(string, string)>, next: seq<string>, ghost q: Pass)
      returns (next': seq<string>)
      requires index.State() == q.db && next == q.next
      modifies index
      ensures index.State() == LinkAll(q, url, links).db
      ensures next' == LinkAll(q, url, links).next
    {
      next' := next;
      var j := 0;
      while j < |links|
        invariant 0 <= j <= |links|
        invariant index.State() == LinkAll(q, url, links[..j]).db
        invariant next' == LinkAll(q, url, links[..j]).next
      {
        var (linkText, linkUrl) := links[j];
        LinkAllStep(q, url, links, j);
        DoLinkRef(url, linkUrl, linkText);
        if linkUrl !in next' {
          next' := next' + [linkUrl];
        }
        j := j + 1;
      }
      assert links[..j] == links;
    }
  }

  /** One more URL: the visits of `urls[..i + 1]` are those of `urls[..i]`, then a visit of `urls[i]`. */
  lemma VisitsStep(web: Web, p: Pass, urls: seq<string>, i: nat)
    requires i < |urls|
    ensures Visits(web, p, urls[..i + 1]) == Visit(web, Visits(web, p, urls[..i]), urls[i])
  {
    assert urls[..i + 1][..i] == urls[..i];
  }

  /** One more link: a link ref for it, and its URL into the frontier. */
  lemma LinkAllStep(p: Pass, url: string, links: seq<(string, string)>, j: nat)
    requires j < |links|
    ensures var r := LinkAll(p, url, links[..j]);
      LinkAll(p, url, links[..j + 1])
        == r.(db := DoLinkRef(r.db, url, links[j].1, links[j].0), next := AddUrl(r.next, links[j].1))
  {
    assert links[..j + 1][..j] == links[..j];
  }
}
