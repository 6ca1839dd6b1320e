/**
 * What `Crawler.crawl` of the refactored crawler does, as functions over the
 * store's value: one pass visits the URLs of the frontier in order, indexes
 * each page that is not indexed yet and whose fetch succeeds, records a link
 * for each of its valid links and collects those links into the next
 * frontier; then the next pass starts from that frontier, `depth` passes in
 * all.  Fetching and parsing a page is an outside oracle.
 */
module CrawlSpec {
  import opened Wrappers
  import opened Sequences
  import opened Tokenizer
  import opened Document
  import opened Links
  import opened StoreSpec

  /**
   * The outside world: `get_content(url)` as the parsed page, or None when
   * the request or `raise_for_status` raised; and URL resolution.
   */
  datatype Web = Web(fetch: string -> Option<Node>, urls: Urls)

  /** `Crawler.get_words(soup)`: the words of the page's text, without stop words. */
  function GetWords(soup: Node): (r: seq<string>)
    ensures forall i :: 0 <= i < |r| ==> IsToken(r[i]) && r[i] !in IgnoreWords
  {
    WordsFromText(TextOnly(soup), IgnoreWords)
  }

  /** A word is a word of the page exactly when it is a token of its text and not a stop word. */
  lemma GetWordsMembers(soup: Node, w: string)
    ensures w in GetWords(soup) <==> w in SeparateWords(TextOnly(soup)) && w !in IgnoreWords
  {
    WordsFromTextMembers(TextOnly(soup), IgnoreWords, w);
  }

  /** `do_index(url, soup)`: `add_index` with the page's words. */
  function DoIndex(db: Db, url: string, soup: Node): Db {
    AddIndex(db, url, GetWords(soup))
  }

  /** `do_link_ref(this_url, link_url, link_text)`: `add_link_ref` with the words of the anchor text. */
  function DoLinkRef(db: Db, thisUrl: string, linkUrl: string, linkText: string): Db {
    AddLinkRef(db, thisUrl, linkUrl, WordsFromText(linkText, IgnoreWords))
  }

  /**
   * The state of a pass: the store, the next frontier collected so far (a
   * set, kept in the order its members were first added), and the pages
   * `do_index` has run on, in order.
   */
  datatype Pass = Pass(db: Db, next: seq<string>, indexed: seq<string>)

  /** `next_urls.add(u)`. */
  function AddUrl(next: seq<string>, u: string): (r: seq<string>)
    ensures forall v :: v in r <==> v in next || v == u
    ensures NoDup(next) ==> NoDup(r)
  {
    if u in next then next
    else
      assert NoDup(next) ==> NoDup(next + [u]) by {
        if NoDup(next) {
          NoDupAppend(next, u);
        }
      }
      next + [u]
  }

  /** The URLs of a list of `(text, url)` pairs. */
  function Targets(links: seq<(string, string)>): (r: seq<string>)
    ensures |r| == |links| && forall i :: 0 <= i < |links| ==> r[i] == links[i].1
  {
    seq(|links|, i requires 0 <= i < |links| => links[i].1)
  }

  /** The valid links of page `url`, when its fetch succeeds. */
  function PageTargets(web: Web, url: string): (r: seq<string>)
    ensures forall i :: 0 <= i < |r| ==> IsValidLink(r[i])
  {
    match web.fetch(url)
    case None => []
    case Some(soup) => Targets(GetValidLinks(web.urls, url, soup))
  }

  /** The loop over `get_valid_links(url, soup)`: a link ref for each, and each URL into the frontier. */
  function LinkAll(p: Pass, url: string, links: seq<(string, string)>): (r: Pass)
    ensures r.indexed == p.indexed
    decreases |links|
  {
    if links == [] then p
    else
      var n := |links| - 1;
      var q := LinkAll(p, url, links[..n]);
      q.(db := DoLinkRef(q.db, url, links[n].1, links[n].0), next := AddUrl(q.next, links[n].1))
  }

  /**
   * One URL of the frontier: skipped when it is indexed at that moment (the
   * frontier is filtered lazily, as it is iterated) or when its fetch fails;
   * otherwise indexed, then its links.
   */
  function Visit(web: Web, p: Pass, url: string): Pass {
    if IsIndexed(p.db, url) then p
    else
      match web.fetch(url)
      case None => p
      case Some(soup) =>
        var q := p.(db := DoIndex(p.db, url, soup), indexed := p.indexed + [url]);
        LinkAll(q, url, GetValidLinks(web.urls, url, soup))
  }

  /** The visits of `urls`, in order. */
  function Visits(web: Web, p: Pass, urls: seq<string>): Pass
    decreases |urls|
  {
    if urls == [] then p
    else
      var n := |urls| - 1;
      Visit(web, Visits(web, p, urls[..n]), urls[n])
  }

  /** One pass of `crawl`, over the frontier `urls`, from an empty next frontier. */
  function Round(web: Web, db: Db, urls: seq<string>): Pass {
    Visits(web, Pass(db, [], []), urls)
  }

  /**
   * `crawl(urls, depth)` for `depth >= 1`: exactly `depth` passes, each over
   * the frontier the previous one built.  The result holds the final store,
   * every page indexed along the way, and the frontier the last pass built.
   */
  function Crawl(web: Web, db: Db, urls: seq<string>, depth: int): Pass
    requires depth >= 1
    decreases depth
  {
    var p := Round(web, db, urls);
    if depth - 1 == 0 then p
    else
      var q := Crawl(web, p.db, p.next, depth - 1);
      q.(indexed := p.indexed + q.indexed)
  }
}
