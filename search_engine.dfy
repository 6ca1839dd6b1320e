/**
 * The old `Crawler` of `search_engine.py` as an object over the same store
 * object as the refactored crawler: every method is proved to have exactly
 * the effect of the matching function of `LegacySpec`.
 */
module SearchEngine {
  import opened Wrappers
  import opened Tokenizer
  import opened Document
  import opened Links
  import opened StoreSpec
  import opened IndexStore
  import opened CrawlSpec
  import opened LegacySpec

  class Crawler {
    /** The database connection's five tables. */
    const store: SqliteIndex
    /** Fetching and parsing pages, and URL resolution. */
    const web: Web

    constructor (store: SqliteIndex, web: Web)
      ensures this.store == store && this.web == web
    {
      this.store := store;
      this.web := web;
    }

    /** The old `get_entry_id(table, field, value, create_new)`: the same lookup-or-insert. */
    method GetEntryId(t: Table, value: string, create: bool) returns (r: Result<nat, StoreError>)
      modifies store
      ensures create ==> r.Ok?
      ensures r.Ok? ==> StoreSpec.GetEntryId(old(store.State()), t, value, create) == Ok((store.State(), r.value))
      ensures r.Err? ==> StoreSpec.GetEntryId(old(store.State()), t, value, create) == Err(r.error)
                         && store.State() == old(store.State())
    {
      r := store.GetEntryId(t, value, create);
    }

    /** The old `is_indexed(url)`, `None` included. */
    method IsIndexed(url: string) returns (r: PyIndexed)
      ensures r == OldIsIndexed(store.State(), url)
    {
      var found := SelectRowid(store.urlList, url);
      match found
      case None =>
        r := PyFalse;
      case Some(urlId) =>
        var posted := SelectPosting(store.wordLocation, urlId);
        r := if posted then PyTrue else PyNone;
    }

    /**
     * The old `add_to_index(url, soup)`: nothing when `is_indexed` is
     * truthy; otherwise the URL's id, then the postings of the tokens.
     */
    method AddToIndex(url: string, soup: Node)
      modifies store
      ensures store.State() == LegacySpec.AddToIndex(old(store.State()), url, soup)
    {
      var indexed := IsIndexed(url);
      if indexed == PyTrue {
        return;
      }
      var text := OldTextOnly(soup);
      var words := SeparateWords(text);
      var urlId := store.EnsureId(UrlList, url);
      PostTokens(urlId, words);
    }

    /**
     * The loop of the old `add_to_index` over `enumerate(words)`: a stop word
     * is skipped; any other word gets its id and a posting at its position.
     */
    method PostTokens(urlId: nat, words: seq<string>)
      modifies store
      ensures store.State() == OldPostWords(old(store.State()), urlId, words)
    {
      ghost var db := store.State();
      var i := 0;
      while i < |words|
        invariant 0 <= i <= |words|
        invariant store.State() == OldPostWords(db, urlId, words[..i])
      {
        PostTokensStep(db, urlId, words, i);
        if words[i] !in IgnoreWords {
          var wordId := store.EnsureId(WordList, words[i]);
          store.wordLocation := store.wordLocation + [Posting(urlId, wordId, i)];
        }
        i := i + 1;
      }
      assert words[..i] == words;
    }

    /**
     * The old `add_link_ref(url_from, url_to, link_text)`: the tokens of the
     * text, the ids of both URLs, and unless they agree one `link` row and
     * one `link_words` row per token that is not a stop word.  It has the
     * effect of the refactored `do_link_ref`.
     */
    method AddLinkRef(from: string, to: string, linkText: string)
      modifies store
      ensures store.State() == DoLinkRef(old(store.State()), from, to, linkText)
      ensures DbValid(old(store.State())) ==> DbValid(store.State())
    {
      var words := SeparateWords(linkText);
      LinkRefTokens(from, to, words);
    }

    /** `add_link_ref` once the link text is split into tokens. */
    method LinkRefTokens(from: string, to: string, words: seq<string>)
      modifies store
      ensures store.State() == StoreSpec.AddLinkRef(old(store.State()), from, to, Without(words, AsSet(IgnoreWords)))
      ensures DbValid(old(store.State())) ==> DbValid(store.State())
    {
      ghost var db0 := store.State();
      ghost var kept := Without(words, AsSet(IgnoreWords));
      assert DbValid(db0) ==> DbValid(StoreSpec.AddLinkRef(db0, from, to, kept)) by {
        if DbValid(db0) {
          AddLinkRefValid(db0, from, to, kept);
        }
      }
      var fromId := store.EnsureId(UrlList, from);
      var toId := store.EnsureId(UrlList, to);
      AddLinkRefSteps(db0, from, to, kept);
      if fromId == toId {
        return;
      }
      ghost var d2 := store.State();
      store.link := store.link + [LinkRow(fromId, toId)];
      assert store.State() == d2.(link := d2.link + [LinkRow(fromId, toId)]);
      LinkTokens(|store.link|, words);
    }

    /** The loop of the old `add_link_ref` over the tokens: a stop word is skipped, any other gets a `link_words` row. */
    method LinkTokens(linkId: nat, words: seq<string>)
      modifies store
      ensures store.State() == StoreSpec.LinkWords(old(store.State()), linkId, Without(words, AsSet(IgnoreWords)))
    {
      ghost var db := store.State();
      ghost var ignore := AsSet(IgnoreWords);
      var i := 0;
      while i < |words|
        invariant 0 <= i <= |words|
        invariant store.State() == StoreSpec.LinkWords(db, linkId, Without(words[..i], ignore))
      {
        if words[i] in IgnoreWords {
          LinkTokensSkip(db, linkId, words, i);
        } else {
          ghost var d := store.State();
          LinkTokensAdd(db, linkId, words, i);
          var wordId := store.EnsureId(WordList, words[i]);
          assert store.State() == d.(wordList := EnsureIn(d.wordList, words[i]).0);
          assert wordId == EnsureIn(d.wordList, words[i]).1;
          store.linkWords := store.linkWords + [LinkWordRow(wordId, linkId)];
        }
        i := i + 1;
      }
      assert words[..i] == words;
    }

    /**
     * The old `crawl(pages, depth)`: `range(depth)` passes, each over the
     * pages the previous pass collected.
     */
    method Crawl(pages: seq<string>, depth: int)
      modifies store
      ensures store.State() == OldCrawl(web, old(store.State()), pages, Iterations(depth)).db
      ensures DbValid(old(store.State())) ==> DbValid(store.State())
    {
      ghost var db0 := store.State();
      if DbValid(db0) {
        OldCrawlOk(web, db0, pages, Iterations(depth));
      }
      var current := pages;
      var i := 0;
      while i < depth
        invariant 0 <= i <= Iterations(depth)
        invariant store.State() == OldCrawl(web, db0, pages, i).db
        invariant current == OldCrawl(web, db0, pages, i).pages
      {
        current := CrawlPass(current);
        i := i + 1;
      }
    }

    /** One pass: every page in turn, collecting `new_pages`. */
    method CrawlPass(pages: seq<string>) returns (newPages: seq<string>)
      modifies store
      ensures store.State() == OldRound(web, old(store.State()), pages).db
      ensures newPages == OldRound(web, old(store.State()), pages).pages
    {
      ghost var s0 := Sweep(store.State(), []);
      newPages := [];
      var j := 0;
      while j < |pages|
        invariant 0 <= j <= |pages|
        invariant store.State() == OldVisits(web, s0, pages[..j]).db
        invariant newPages == OldVisits(web, s0, pages[..j]).pages
      {
        assert pages[..j + 1][..j] == pages[..j];
        newPages := CrawlPage(pages[j], newPages);
        j := j + 1;
      }
      assert pages[..j] == pages;
    }

    /** One page: skipped when its fetch fails; otherwise `add_to_index`, then each of its links. */
    method CrawlPage(page: string, newPages: seq<string>) returns (newPages': seq<string>)
      modifies store
      ensures store.State() == OldVisit(web, Sweep(old(store.State()), newPages), page).db
      ensures newPages' == OldVisit(web, Sweep(old(store.State()), newPages), page).pages
    {
      newPages' := newPages;
      var fetched := web.fetch(page);
      if fetched.None? {
        return;
      }
      var soup := fetched.value;
      AddToIndex(page, soup);
      var links := HrefLinks(web.urls, page, Anchors(soup));
      newPages' := CrawlLinks(page, links, newPages);
    }

    /** The loop over the links of a page. */
    method CrawlLinks(page: string, links: seq<(Node, string)>, newPages: seq<string>) returns (newPages': seq<string>)
      modifies store
      ensures store.State() == OldLinks(Sweep(old(store.State()), newPages), page, links).db
      ensures newPages' == OldLinks(Sweep(old(store.State()), newPages), page, links).pages
    {
      ghost var s := Sweep(store.State(), newPages);
      newPages' := newPages;
      var k := 0;
      while k < |links|
        invariant 0 <= k <= |links|
        invariant store.State() == OldLinks(s, page, links[..k]).db
        invariant newPages' == OldLinks(s, page, links[..k]).pages
      {
        assert links[..k + 1][..k] == links[..k];
        newPages' := CrawlLink(page, links[k].0, links[k].1, newPages');
        k := k + 1;
      }
      assert links[..k] == links;
    }

    /**
     * One link of a page: a URL with a single quote is skipped; otherwise it
     * joins `new_pages` when its scheme is http or https and `is_indexed` is
     * falsy, and gets a link ref whatever its scheme.
     */
    method CrawlLink(page: string, link: Node, url: string, newPages: seq<string>) returns (newPages': seq<string>)
      modifies store
      ensures store.State() == OldLink(Sweep(old(store.State()), newPages), page, link, url).db
      ensures newPages' == OldLink(Sweep(old(store.State()), newPages), page, link, url).pages
    {
      newPages' := newPages;
      if '\'' in url {
        return;
      }
      var indexed := IsIndexed(url);
      if Scheme(url) in ["http", "https"] && indexed != PyTrue && url !in newPages' {
        newPages' := newPages' + [url];
      }
      AddLinkRef(page, url, OldTextOnly(link));
    }
  }

  /**
   * `add_link_ref` as the two `get_entry_id` calls on `url_list` that the
   * method makes, then the self-loop test.
   */
  lemma AddLinkRefSteps(db: Db, from: string, to: string, words: seq<string>)
    ensures var (d1, fromId) := StoreSpec.EnsureId(db, UrlList, from);
      var (d2, toId) := StoreSpec.EnsureId(d1, UrlList, to);
      && (fromId == toId ==> StoreSpec.AddLinkRef(db, from, to, words) == d2)
      && (fromId != toId ==>
            StoreSpec.AddLinkRef(db, from, to, words)
              == StoreSpec.LinkWords(d2.(link := d2.link + [LinkRow(fromId, toId)]), |d2.link| + 1, words))
  {
  }

  /** One more token for the old index loop: a stop word changes nothing, any other word adds a posting at position `i`. */
  lemma PostTokensStep(db: Db, urlId: nat, words: seq<string>, i: nat)
    requires i < |words|
    ensures var d := OldPostWords(db, urlId, words[..i]);
      var e := EnsureIn(d.wordList, words[i]);
      && (words[i] in IgnoreWords ==> OldPostWords(db, urlId, words[..i + 1]) == d)
      && (words[i] !in IgnoreWords ==>
            OldPostWords(db, urlId, words[..i + 1]) == d.(wordList := e.0, wordLocation := d.wordLocation + [Posting(urlId, e.1, i)]))
  {
    assert words[..i + 1][..i] == words[..i];
  }

  /** One more token for the old link loop that is a stop word: nothing changes. */
  lemma LinkTokensSkip(db: Db, linkId: nat, words: seq<string>, i: nat)
    requires i < |words| && words[i] in IgnoreWords
    ensures var ignore := AsSet(IgnoreWords);
      StoreSpec.LinkWords(db, linkId, Without(words[..i + 1], ignore)) == StoreSpec.LinkWords(db, linkId, Without(words[..i], ignore))
  {
    var ignore := AsSet(IgnoreWords);
    WithoutSnoc(words[..i], words[i], ignore);
    assert words[..i + 1] == words[..i] + [words[i]];
    assert words[i] in ignore;
    assert Without(words[..i + 1], ignore) == Without(words[..i], ignore) + [] == Without(words[..i], ignore);
  }

  /** One more token for the old link loop that is not a stop word: its row, then its link-word row. */
  lemma LinkTokensAdd(db: Db, linkId: nat, words: seq<string>, i: nat)
    requires i < |words| && words[i] !in IgnoreWords
    ensures var ignore := AsSet(IgnoreWords);
      var d := StoreSpec.LinkWords(db, linkId, Without(words[..i], ignore));
      var e := EnsureIn(d.wordList, words[i]);
      StoreSpec.LinkWords(db, linkId, Without(words[..i + 1], ignore))
        == d.(wordList := e.0, linkWords := d.linkWords + [LinkWordRow(e.1, linkId)])
  {
    var ignore := AsSet(IgnoreWords);
    var kept := Without(words[..i], ignore);
    WithoutSnoc(words[..i], words[i], ignore);
    assert words[..i + 1] == words[..i] + [words[i]];
    assert Without(words[..i + 1], ignore) == kept + [words[i]];
    LinkWordsSnoc(db, linkId, kept, words[i]);
  }

  /** `LinkWordsStep` for a word appended to `kept`. */
  lemma LinkWordsSnoc(db: Db, linkId: nat, kept: seq<string>, w: string)
    ensures var d := StoreSpec.LinkWords(db, linkId, kept);
      var e := EnsureIn(d.wordList, w);
      StoreSpec.LinkWords(db, linkId, kept + [w]) == d.(wordList := e.0, linkWords := d.linkWords + [LinkWordRow(e.1, linkId)])
  {
    LinkWordsStep(db, linkId, kept + [w], |kept|);
    assert (kept + [w])[..|kept|] == kept;
    assert (kept + [w])[..|kept| + 1] == kept + [w];
  }
}
