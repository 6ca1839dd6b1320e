/**
 * What a crawl guarantees: the store stays valid, only the pages of the
 * frontier get indexed, a page indexed once is skipped afterwards, the next
 * frontier holds exactly the valid links of the pages indexed in the pass,
 * and `depth` passes reach no further than `depth - 1` links from a seed.
 */
module CrawlProperties {
  import opened Wrappers
  import opened Sequences
  import opened Tokenizer
  import opened Document
  import opened Links
  import opened StoreSpec
  import opened CrawlSpec

  /** Link refs keep the store valid and change no page's indexed status. */
  lemma {:induction false} LinkAllStore(p: Pass, url: string, links: seq<(string, string)>)
    requires DbValid(p.db)
    ensures DbValid(LinkAll(p, url, links).db)
    ensures forall u :: IsIndexed(LinkAll(p, url, links).db, u) == IsIndexed(p.db, u)
    decreases |links|
  {
    if links != [] {
      var n := |links| - 1;
      LinkAllStore(p, url, links[..n]);
      var q := LinkAll(p, url, links[..n]);
      var words := WordsFromText(links[n].0, IgnoreWords);
      AddLinkRefValid(q.db, url, links[n].1, words);
      forall u ensures IsIndexed(LinkAll(p, url, links).db, u) == IsIndexed(q.db, u) {
        AddLinkRefKeepsIndexed(q.db, url, links[n].1, words, u);
      }
    }
  }

  /** The frontier gains exactly the URLs of the links, and stays free of duplicates. */
  lemma {:induction false} LinkAllNext(p: Pass, url: string, links: seq<(string, string)>)
    ensures forall u :: u in LinkAll(p, url, links).next <==> u in p.next || u in Targets(links)
    ensures NoDup(p.next) ==> NoDup(LinkAll(p, url, links).next)
    decreases |links|
  {
    if links != [] {
      var n := |links| - 1;
      LinkAllNext(p, url, links[..n]);
      assert Targets(links) == Targets(links[..n]) + [links[n].1];
    }
  }

  /** The links of page `url` to other URLs, in order: those `add_link_ref` records a `link` row for. */
  function OtherLinks(url: string, links: seq<(string, string)>): (r: seq<(string, string)>)
    ensures |r| <= |links|
    decreases |links|
  {
    if links == [] then []
    else
      var n := |links| - 1;
      OtherLinks(url, links[..n]) + (if links[n].1 == url then [] else [links[n]])
  }

  /**
   * The words of the anchor texts of links `o`, in order, each paired with
   * the rowid of its link's `link` row when the first link gets `base + 1`.
   */
  function AnchorWords(o: seq<(string, string)>, base: nat): seq<(string, nat)>
    decreases |o|
  {
    if o == [] then []
    else
      var n := |o| - 1;
      var words := WordsFromText(o[n].0, IgnoreWords);
      AnchorWords(o[..n], base) + seq(|words|, i requires 0 <= i < |words| => (words[i], base + n + 1))
  }

  /** Row `id` of table `rows` holds `v`. */
  predicate Names(rows: seq<string>, id: nat, v: string) {
    1 <= id <= |rows| && rows[id - 1] == v
  }

  /** `rows` are `link` rows from (a row of `urls` holding) `from` to the URL of each of `o`, in order. */
  predicate LinksNamed(urls: seq<string>, rows: seq<LinkRow>, from: string, o: seq<(string, string)>) {
    |rows| == |o| &&
    forall k {:trigger rows[k]} :: 0 <= k < |o| ==> Names(urls, rows[k].fromId, from) && Names(urls, rows[k].toId, o[k].1)
  }

  /** `rows` are `link_words` rows, one per pair, from (a row of `words` holding) the word to the link rowid. */
  predicate LinkWordsNamed(words: seq<string>, rows: seq<LinkWordRow>, pairs: seq<(string, nat)>) {
    |rows| == |pairs| &&
    forall k {:trigger rows[k]} :: 0 <= k < |pairs| ==> Names(words, rows[k].wordId, pairs[k].0) && rows[k].linkId == pairs[k].1
  }

  /** In a table free of duplicates, the row holding a value is the one a lookup finds. */
  lemma NamesLookup(rows: seq<string>, id: nat, v: string)
    requires NoDup(rows)
    ensures Names(rows, id, v) <==> Lookup(rows, v) == Some(id)
  {
    if Names(rows, id, v) {
      forall j | 0 <= j < id - 1 ensures rows[j] != v {
        if rows[j] == v {
          NoDupIndex(rows, j, id - 1);
        }
      }
      LookupFirst(rows, v, id);
    }
  }

  lemma LookupNames(rows: seq<string>, v: string)
    requires Lookup(rows, v).Some?
    ensures Names(rows, Lookup(rows, v).value, v)
  {
  }

  lemma LinksNamedGrow(urls: seq<string>, more: seq<string>, rows: seq<LinkRow>, from: string, o: seq<(string, string)>)
    requires urls <= more && LinksNamed(urls, rows, from, o)
    ensures LinksNamed(more, rows, from, o)
  {
    forall k | 0 <= k < |o| ensures Names(more, rows[k].fromId, from) && Names(more, rows[k].toId, o[k].1) {
      assert more[rows[k].fromId - 1] == urls[rows[k].fromId - 1];
      assert more[rows[k].toId - 1] == urls[rows[k].toId - 1];
    }
  }

  lemma LinksNamedAppend(urls: seq<string>, rows: seq<LinkRow>, from: string, o: seq<(string, string)>, row: LinkRow, l: (string, string))
    requires LinksNamed(urls, rows, from, o) && Names(urls, row.fromId, from) && Names(urls, row.toId, l.1)
    ensures LinksNamed(urls, rows + [row], from, o + [l])
  {
    var rows', o' := rows + [row], o + [l];
    forall k | 0 <= k < |o'| ensures Names(urls, rows'[k].fromId, from) && Names(urls, rows'[k].toId, o'[k].1) {
      if k < |o| {
        assert rows'[k] == rows[k] && o'[k] == o[k];
      }
    }
  }

  lemma LinkWordsNamedGrow(words: seq<string>, more: seq<string>, rows: seq<LinkWordRow>, pairs: seq<(string, nat)>)
    requires words <= more && LinkWordsNamed(words, rows, pairs)
    ensures LinkWordsNamed(more, rows, pairs)
  {
    forall k | 0 <= k < |pairs| ensures Names(more, rows[k].wordId, pairs[k].0) {
      assert more[rows[k].wordId - 1] == words[rows[k].wordId - 1];
    }
  }

  lemma LinkWordsNamedAppend(words: seq<string>, rows: seq<LinkWordRow>, pairs: seq<(string, nat)>, ids: seq<nat>, ws: seq<string>, linkId: nat)
    requires LinkWordsNamed(words, rows, pairs) && IdsOf(words, ids, ws)
    ensures LinkWordsNamed(words, rows + LinkWordRows(ids, linkId), pairs + seq(|ws|, i requires 0 <= i < |ws| => (ws[i], linkId)))
  {
    var added := LinkWordRows(ids, linkId);
    var rows', pairs' := rows + added, pairs + seq(|ws|, i requires 0 <= i < |ws| => (ws[i], linkId));
    forall k | 0 <= k < |pairs'| ensures Names(words, rows'[k].wordId, pairs'[k].0) && rows'[k].linkId == pairs'[k].1 {
      if k < |pairs| {
        assert rows'[k] == rows[k] && pairs'[k] == pairs[k];
      } else {
        var i := k - |pairs|;
        assert rows'[k] == added[i] == LinkWordRow(ids[i], linkId);
        assert pairs'[k] == (ws[i], linkId);
      }
    }
  }

  /**
   * From `before` to `r`, the tables `url_list` and `word_list` only grow, the
   * older `link` and `link_words` rows stay in place, and the new ones are
   * the rows of the links `o` from `url`: one `link` row per link, then one
   * `link_words` row per word of its anchor text carrying its rowid.
   */
  predicate RowsAdded(before: Db, r: Db, url: string, o: seq<(string, string)>) {
    && before.urlList <= r.urlList && before.wordList <= r.wordList
    && before.link <= r.link && before.linkWords <= r.linkWords
    && LinksNamed(r.urlList, r.link[|before.link|..], url, o)
    && LinkWordsNamed(r.wordList, r.linkWords[|before.linkWords|..], AnchorWords(o, |before.link|))
  }

  /** A link from `url` to itself keeps the rows added so far as they are. */
  lemma SelfLinkRows(before: Db, q: Db, url: string, o: seq<(string, string)>, l: (string, string))
    requires RowsAdded(before, q, url, o) && l.1 == url
    ensures RowsAdded(before, DoLinkRef(q, url, l.1, l.0), url, o)
  {
    var words := WordsFromText(l.0, IgnoreWords);
    var r := AddLinkRef(q, url, url, words);
    AddLinkRefSelf(q, url, words);
    assert q.urlList <= r.urlList;
    LinksNamedGrow(q.urlList, r.urlList, q.link[|before.link|..], url, o);
  }

  /** A link from `url` to another URL adds its `link` row and its anchor words' `link_words` rows. */
  lemma OtherLinkRows(before: Db, q: Db, url: string, o: seq<(string, string)>, l: (string, string))
    requires RowsAdded(before, q, url, o) && l.1 != url
    ensures RowsAdded(before, DoLinkRef(q, url, l.1, l.0), url, o + [l])
  {
    var words := WordsFromText(l.0, IgnoreWords);
    var r := AddLinkRef(q, url, l.1, words);
    assert r == DoLinkRef(q, url, l.1, l.0);
    AddLinkRefRows(q, url, l.1, words);
    AddLinkRefUrls(q, url, l.1, words);
    var row := LinkRow(Lookup(r.urlList, url).value, Lookup(r.urlList, l.1).value);
    var ids :| IdsOf(r.wordList, ids, words) && r.linkWords == q.linkWords + LinkWordRows(ids, |q.link| + 1);
    LookupNames(r.urlList, url);
    LookupNames(r.urlList, l.1);
    RowsAddedStep(before, q, r, url, o, l, row, ids);
  }

  /** The step of `OtherLinkRows`, on the rows alone. */
  lemma RowsAddedStep(before: Db, q: Db, r: Db, url: string, o: seq<(string, string)>, l: (string, string), row: LinkRow, ids: seq<nat>)
    requires RowsAdded(before, q, url, o)
    requires q.urlList <= r.urlList && q.wordList <= r.wordList
    requires r.link == q.link + [row] && Names(r.urlList, row.fromId, url) && Names(r.urlList, row.toId, l.1)
    requires IdsOf(r.wordList, ids, WordsFromText(l.0, IgnoreWords))
    requires r.linkWords == q.linkWords + LinkWordRows(ids, |q.link| + 1)
    ensures RowsAdded(before, r, url, o + [l])
  {
    var words := WordsFromText(l.0, IgnoreWords);
    var base := |before.link|;
    var oldLinks, oldWords := q.link[base..], q.linkWords[|before.linkWords|..];
    LinksNamedGrow(q.urlList, r.urlList, oldLinks, url, o);
    LinksNamedAppend(r.urlList, oldLinks, url, o, row, l);
    SliceAppend(q.link, [row], base);
    LinkWordsNamedGrow(q.wordList, r.wordList, oldWords, AnchorWords(o, base));
    var linkId := |q.link| + 1;
    LinkWordsNamedAppend(r.wordList, oldWords, AnchorWords(o, base), ids, words, linkId);
    SliceAppend(q.linkWords, LinkWordRows(ids, linkId), |before.linkWords|);
    AnchorWordsAppend(o, l, base, linkId);
  }

  lemma AnchorWordsAppend(o: seq<(string, string)>, l: (string, string), base: nat, linkId: nat)
    requires linkId == base + |o| + 1
    ensures var words := WordsFromText(l.0, IgnoreWords);
      AnchorWords(o + [l], base) == AnchorWords(o, base) + seq(|words|, i requires 0 <= i < |words| => (words[i], linkId))
  {
    assert (o + [l])[..|o|] == o;
  }

  /**
   * The rows a page's links add: `link` gains, in order, one row per link to
   * another URL, from the page's URL row to the link's URL row, and
   * `link_words` gains one row per word of each such link's anchor text,
   * carrying that link's rowid; a link to the page itself adds neither.
   * The older rows and the rows of `url_list` and `word_list` stay in place.
   */
  lemma {:induction false} LinkAllRows(p: Pass, url: string, links: seq<(string, string)>)
    ensures RowsAdded(p.db, LinkAll(p, url, links).db, url, OtherLinks(url, links))
    decreases |links|
  {
    if links == [] {
      assert p.db.link[|p.db.link|..] == [] && p.db.linkWords[|p.db.linkWords|..] == [];
    } else {
      var n := |links| - 1;
      LinkAllRows(p, url, links[..n]);
      var q := LinkAll(p, url, links[..n]).db;
      var o' := OtherLinks(url, links[..n]);
      assert LinkAll(p, url, links).db == DoLinkRef(q, url, links[n].1, links[n].0);
      if links[n].1 == url {
        SelfLinkRows(p.db, q, url, o', links[n]);
        assert o' + [] == o';
        assert OtherLinks(url, links) == o';
      } else {
        OtherLinkRows(p.db, q, url, o', links[n]);
      }
    }
  }

  /**
   * The rows added from `before` to `r` carry the ids that lookups in `r`
   * find: the k-th new `link` row goes from the id of `url` to the id of the
   * URL of the k-th of `o`, and each new `link_words` row from the id of its
   * word to its link's rowid.
   */
  predicate IdsAdded(before: Db, r: Db, url: string, o: seq<(string, string)>) {
    && before.link <= r.link && before.linkWords <= r.linkWords
    && var added, words := r.link[|before.link|..], r.linkWords[|before.linkWords|..];
       var pairs := AnchorWords(o, |before.link|);
       && |added| == |o| && |words| == |pairs|
       && (forall k :: 0 <= k < |o| ==>
             Lookup(r.urlList, url) == Some(added[k].fromId) && Lookup(r.urlList, o[k].1) == Some(added[k].toId))
       && (forall k :: 0 <= k < |pairs| ==>
             Lookup(r.wordList, pairs[k].0) == Some(words[k].wordId) && words[k].linkId == pairs[k].1)
  }

  /** In tables free of duplicates, the row holding a value is the id a lookup finds. */
  lemma RowsAddedIds(before: Db, r: Db, url: string, o: seq<(string, string)>)
    requires RowsAdded(before, r, url, o) && NoDup(r.urlList) && NoDup(r.wordList)
    ensures IdsAdded(before, r, url, o)
  {
    var added, words := r.link[|before.link|..], r.linkWords[|before.linkWords|..];
    var pairs := AnchorWords(o, |before.link|);
    forall k | 0 <= k < |o|
      ensures Lookup(r.urlList, url) == Some(added[k].fromId) && Lookup(r.urlList, o[k].1) == Some(added[k].toId)
    {
      NamesLookup(r.urlList, added[k].fromId, url);
      NamesLookup(r.urlList, added[k].toId, o[k].1);
    }
    forall k | 0 <= k < |pairs| ensures Lookup(r.wordList, pairs[k].0) == Some(words[k].wordId) {
      NamesLookup(r.wordList, words[k].wordId, pairs[k].0);
    }
  }

  /**
   * In a valid store, a page's links add one `link` row per link to another
   * URL, from the id of the page's URL to the id of the link's URL, and one
   * `link_words` row per anchor word with that word's id and that link's rowid.
   */
  lemma LinkAllIds(p: Pass, url: string, links: seq<(string, string)>)
    requires DbValid(p.db)
    ensures IdsAdded(p.db, LinkAll(p, url, links).db, url, OtherLinks(url, links))
  {
    LinkAllRows(p, url, links);
    LinkAllStore(p, url, links);
    RowsAddedIds(p.db, LinkAll(p, url, links).db, url, OtherLinks(url, links));
  }

  /** Whether `Visit` indexes `url`: it is not indexed yet and its fetch succeeds. */
  predicate Processes(web: Web, db: Db, url: string) {
    !IsIndexed(db, url) && web.fetch(url).Some?
  }

  /**
   * A visit that does nothing: a URL already indexed, or one whose fetch
   * fails (`get_content` raising, which `crawl` catches and skips), leaves
   * the store, the frontier and the indexed pages as they were; a URL that
   * is processed is appended to the indexed pages.
   */
  lemma VisitSkipped(web: Web, p: Pass, url: string)
    ensures !Processes(web, p.db, url) ==> Visit(web, p, url) == p
    ensures Processes(web, p.db, url) ==> Visit(web, p, url).indexed == p.indexed + [url]
  {
  }

  /** The page at `url` can be fetched and has at least one word. */
  predicate HasWords(web: Web, url: string) {
    match web.fetch(url)
    case None => false
    case Some(soup) => GetWords(soup) != []
  }

  /**
   * A visit keeps the store valid and changes the indexed status of its own
   * URL only: that page becomes indexed exactly when it is processed and has
   * at least one word.
   */
  lemma VisitStore(web: Web, p: Pass, url: string)
    requires DbValid(p.db)
    ensures DbValid(Visit(web, p, url).db)
    ensures forall u :: u != url ==> IsIndexed(Visit(web, p, url).db, u) == IsIndexed(p.db, u)
    ensures IsIndexed(Visit(web, p, url).db, url) <==>
      IsIndexed(p.db, url) || (Processes(web, p.db, url) && HasWords(web, url))
  {
    if Processes(web, p.db, url) {
      var soup := web.fetch(url).value;
      var q := p.(db := DoIndex(p.db, url, soup), indexed := p.indexed + [url]);
      IndexUnindexed(p.db, url, GetWords(soup));
      LinkAllStore(q, url, GetValidLinks(web.urls, url, soup));
    }
  }

  /** Indexing a page that is not indexed yet: the store stays valid, and only that page's status can change. */
  lemma IndexUnindexed(db: Db, url: string, words: seq<string>)
    requires DbValid(db) && !IsIndexed(db, url)
    ensures DbValid(AddIndex(db, url, words))
    ensures forall u :: u != url ==> IsIndexed(AddIndex(db, url, words), u) == IsIndexed(db, u)
    ensures IsIndexed(AddIndex(db, url, words), url) <==> words != []
  {
    AddIndexValid(db, url, words);
    forall u | u != url ensures IsIndexed(AddIndex(db, url, words), u) == IsIndexed(db, u) {
      AddIndexOthers(db, url, words, u);
    }
    if words == [] {
      AddIndexNoWords(db, url);
    } else {
      AddIndexMakesIndexed(db, url, words);
    }
  }

  /** A visit records its URL as indexed exactly when it processes it, and adds that page's links to the frontier. */
  lemma VisitTrace(web: Web, p: Pass, url: string)
    ensures Visit(web, p, url).indexed == p.indexed + (if Processes(web, p.db, url) then [url] else [])
    ensures forall u :: u in Visit(web, p, url).next <==>
      u in p.next || (Processes(web, p.db, url) && u in PageTargets(web, url))
    ensures NoDup(p.next) ==> NoDup(Visit(web, p, url).next)
  {
    if Processes(web, p.db, url) {
      var soup := web.fetch(url).value;
      var q := p.(db := DoIndex(p.db, url, soup), indexed := p.indexed + [url]);
      LinkAllNext(q, url, GetValidLinks(web.urls, url, soup));
    }
  }

  /**
   * What holds of a pass over `urls` started on store `db0`, at every step:
   * the store is valid; only URLs of `urls` that could be fetched were
   * indexed; the frontier, without duplicates, holds exactly the valid links
   * of those pages; a URL is indexed exactly when it was before or its page
   * was indexed and has words; and such a page was indexed only once.
   */
  ghost predicate PassInv(web: Web, db0: Db, urls: seq<string>, p: Pass) {
    && DbValid(p.db)
    && NoDup(p.next)
    && (forall s :: s in p.indexed ==> s in urls && web.fetch(s).Some?)
    && (forall u :: u in p.next <==> exists s :: s in p.indexed && u in PageTargets(web, s))
    && (forall u :: IsIndexed(p.db, u) <==> IsIndexed(db0, u) || (u in p.indexed && HasWords(web, u)))
    && (forall i, j :: 0 <= i < j < |p.indexed| && p.indexed[i] == p.indexed[j] ==> !HasWords(web, p.indexed[i]))
  }

  lemma VisitInv(web: Web, db0: Db, urls: seq<string>, p: Pass, url: string)
    requires PassInv(web, db0, urls, p) && url in urls
    ensures PassInv(web, db0, urls, Visit(web, p, url))
  {
    VisitStore(web, p, url);
    VisitTrace(web, p, url);
    InvStep(web, db0, urls, p, Visit(web, p, url), url);
  }

  /** `PassInv` is kept by any step with the effect `VisitStore` and `VisitTrace` describe. */
  lemma InvStep(web: Web, db0: Db, urls: seq<string>, p: Pass, r: Pass, url: string)
    requires PassInv(web, db0, urls, p) && url in urls
    requires DbValid(r.db) && NoDup(r.next)
    requires forall u :: u != url ==> IsIndexed(r.db, u) == IsIndexed(p.db, u)
    requires IsIndexed(r.db, url) <==> IsIndexed(p.db, url) || (Processes(web, p.db, url) && HasWords(web, url))
    requires r.indexed == p.indexed + (if Processes(web, p.db, url) then [url] else [])
    requires forall u :: u in r.next <==> u in p.next || (Processes(web, p.db, url) && u in PageTargets(web, url))
    ensures PassInv(web, db0, urls, r)
  {
    if Processes(web, p.db, url) {
      assert forall s :: s in r.indexed <==> s in p.indexed || s == url;
      forall i, j | 0 <= i < j < |r.indexed| && r.indexed[i] == r.indexed[j]
        ensures !HasWords(web, r.indexed[i])
      {
        if j == |p.indexed| {
          assert r.indexed[i] == url && url in p.indexed;
        } else {
          assert r.indexed[i] == p.indexed[i] && r.indexed[j] == p.indexed[j];
        }
      }
    }
  }

  lemma {:induction false} VisitsInv(web: Web, db0: Db, urls: seq<string>, p: Pass, vs: seq<string>)
    requires PassInv(web, db0, urls, p) && forall v :: v in vs ==> v in urls
    ensures PassInv(web, db0, urls, Visits(web, p, vs))
    decreases |vs|
  {
    if vs != [] {
      var n := |vs| - 1;
      assert forall v :: v in vs[..n] ==> v in vs;
      VisitsInv(web, db0, urls, p, vs[..n]);
      VisitInv(web, db0, urls, Visits(web, p, vs[..n]), vs[n]);
    }
  }

  /** Every URL visited whose fetch succeeds was indexed before the pass or is indexed in it. */
  lemma {:induction false} VisitsCover(web: Web, db0: Db, urls: seq<string>, p: Pass, vs: seq<string>)
    requires PassInv(web, db0, urls, p) && forall v :: v in vs ==> v in urls
    ensures p.indexed <= Visits(web, p, vs).indexed
    ensures forall s :: s in vs && web.fetch(s).Some? ==> IsIndexed(db0, s) || s in Visits(web, p, vs).indexed
    decreases |vs|
  {
    if vs != [] {
      var n := |vs| - 1;
      var q := Visits(web, p, vs[..n]);
      var r := Visit(web, q, vs[n]);
      assert p.indexed <= q.indexed
          && forall s :: s in vs[..n] && web.fetch(s).Some? ==> IsIndexed(db0, s) || s in q.indexed by {
        assert forall v :: v in vs[..n] ==> v in vs;
        VisitsCover(web, db0, urls, p, vs[..n]);
      }
      assert q.indexed <= r.indexed && (web.fetch(vs[n]).Some? ==> IsIndexed(db0, vs[n]) || vs[n] in r.indexed) by {
        assert forall v :: v in vs[..n] ==> v in vs;
        VisitsInv(web, db0, urls, p, vs[..n]);
        VisitTrace(web, q, vs[n]);
        CoverStep(web, db0, urls, q, r, vs[n]);
      }
      forall s | s in vs && web.fetch(s).Some? ensures IsIndexed(db0, s) || s in r.indexed {
        var k :| 0 <= k < |vs| && vs[k] == s;
        if k < n {
          assert s in vs[..n];
        }
      }
    }
  }

  lemma CoverStep(web: Web, db0: Db, urls: seq<string>, q: Pass, r: Pass, url: string)
    requires PassInv(web, db0, urls, q)
    requires r.indexed == q.indexed + (if Processes(web, q.db, url) then [url] else [])
    ensures q.indexed <= r.indexed
    ensures web.fetch(url).Some? ==> IsIndexed(db0, url) || url in r.indexed
  {
  }

  /**
   * One pass over `urls` from a valid store: its invariant holds at the end,
   * every URL in the next frontier is a valid link, and every URL of `urls`
   * whose fetch succeeds was indexed before or is indexed in the pass.
   */
  lemma RoundInv(web: Web, db: Db, urls: seq<string>)
    requires DbValid(db)
    ensures PassInv(web, db, urls, Round(web, db, urls))
    ensures forall u :: u in Round(web, db, urls).next ==> IsValidLink(u)
    ensures forall s :: s in urls && web.fetch(s).Some? ==> IsIndexed(db, s) || s in Round(web, db, urls).indexed
  {
    var p0 := Pass(db, [], []);
    InitInv(web, db, urls);
    VisitsInv(web, db, urls, p0, urls);
    VisitsCover(web, db, urls, p0, urls);
    var r := Visits(web, p0, urls);
    assert Round(web, db, urls) == r;
    forall u | u in r.next ensures IsValidLink(u) {
      var s :| s in r.indexed && u in PageTargets(web, s);
      TargetValid(web, s, u);
    }
  }

  /** A pass starts with the invariant: nothing indexed or collected yet. */
  lemma InitInv(web: Web, db: Db, urls: seq<string>)
    requires DbValid(db)
    ensures PassInv(web, db, urls, Pass(db, [], []))
  {
  }

  lemma TargetValid(web: Web, s: string, u: string)
    requires u in PageTargets(web, s)
    ensures IsValidLink(u)
  {
    var i :| 0 <= i < |PageTargets(web, s)| && PageTargets(web, s)[i] == u;
  }

  /** The visits of two URLs are the visit of the first, then of the second. */
  lemma VisitsTwo(web: Web, p: Pass, a: string, b: string)
    ensures Visits(web, p, [a]) == Visit(web, p, a)
    ensures Visits(web, p, [a, b]) == Visit(web, Visit(web, p, a), b)
  {
    assert [a, b][..1] == [a];
    assert [a][..0] == [];
  }

  /**
   * A seed listed twice is indexed once when its page has words: the
   * frontier is filtered as it is iterated, so the second copy finds the URL
   * indexed.
   */
  lemma RepeatedSeedOnce(web: Web, db: Db, url: string)
    requires DbValid(db) && !IsIndexed(db, url) && HasWords(web, url)
    ensures Round(web, db, [url, url]).indexed == [url]
    ensures Round(web, db, [url, url]).db == Round(web, db, [url]).db
  {
    var p := Pass(db, [], []);
    VisitsTwo(web, p, url, url);
    VisitStore(web, p, url);
    VisitTrace(web, p, url);
  }

  /**
   * A page without words is indexed again each time it is met: `add_index`
   * stores its URL but no posting, so `is_indexed` stays false for it.
   */
  lemma EmptyPageIndexedAgain(web: Web, db: Db, url: string)
    requires DbValid(db) && !IsIndexed(db, url) && web.fetch(url).Some? && !HasWords(web, url)
    ensures Round(web, db, [url, url]).indexed == [url, url]
  {
    VisitsTwo(web, Pass(db, [], []), url, url);
    VisitEmptyPageTwice(web, Pass(db, [], []), url);
  }

  lemma VisitEmptyPageTwice(web: Web, p: Pass, url: string)
    requires DbValid(p.db) && !IsIndexed(p.db, url) && web.fetch(url).Some? && !HasWords(web, url)
    ensures Visit(web, Visit(web, p, url), url).indexed == p.indexed + [url, url]
  {
    VisitEmptyPage(web, p, url);
    VisitEmptyPage(web, Visit(web, p, url), url);
  }

  /** Visiting a page without words indexes it and leaves it unindexed in the store. */
  lemma VisitEmptyPage(web: Web, p: Pass, url: string)
    requires DbValid(p.db) && !IsIndexed(p.db, url) && web.fetch(url).Some? && !HasWords(web, url)
    ensures var q := Visit(web, p, url);
      q.indexed == p.indexed + [url] && DbValid(q.db) && !IsIndexed(q.db, url)
  {
    VisitStore(web, p, url);
    VisitTrace(web, p, url);
  }

  /**
   * Page `s` is a seed, or is reached from a seed by following at most `k`
   * links, where `links(t)` are the links found on page `t`.
   */
  ghost predicate Within(links: string -> seq<string>, seeds: seq<string>, s: string, k: nat)
    decreases k
  {
    if k == 0 then s in seeds
    else Within(links, seeds, s, k - 1) || exists t :: Within(links, seeds, t, k - 1) && s in links(t)
  }

  lemma {:induction false} WithinMono(links: string -> seq<string>, seeds: seq<string>, s: string, k: nat, m: nat)
    requires Within(links, seeds, s, k) && k <= m
    ensures Within(links, seeds, s, m)
    decreases m - k
  {
    if k < m {
      WithinMono(links, seeds, s, k + 1, m);
    }
  }

  /** A page within `k` links of a frontier built from the links of `seeds` is within `k + 1` links of `seeds`. */
  lemma {:induction false} WithinShift(links: string -> seq<string>, seeds: seq<string>, next: seq<string>, s: string, k: nat)
    requires forall u :: u in next ==> exists t :: t in seeds && u in links(t)
    requires Within(links, next, s, k)
    ensures Within(links, seeds, s, k + 1)
    decreases k
  {
    if k == 0 {
      var t :| t in seeds && s in links(t);
      assert Within(links, seeds, t, 0);
    } else if Within(links, next, s, k - 1) {
      WithinShift(links, seeds, next, s, k - 1);
    } else {
      var t :| Within(links, next, t, k - 1) && s in links(t);
      WithinShift(links, seeds, next, t, k - 1);
    }
  }

  /** The links `crawl` follows from page `t`: its valid links, when its fetch succeeds. */
  function Follow(web: Web): string -> seq<string> {
    t => PageTargets(web, t)
  }

  /**
   * A crawl of `depth` passes from a valid store keeps it valid, and a URL
   * is indexed at the end exactly when it was at the start or its page,
   * with words, was indexed on the way.
   */
  lemma {:induction false} CrawlStore(web: Web, db: Db, urls: seq<string>, depth: int)
    requires DbValid(db) && depth >= 1
    ensures DbValid(Crawl(web, db, urls, depth).db)
    ensures forall u :: IsIndexed(Crawl(web, db, urls, depth).db, u) <==>
      IsIndexed(db, u) || (u in Crawl(web, db, urls, depth).indexed && HasWords(web, u))
    decreases depth
  {
    RoundInv(web, db, urls);
    if depth > 1 {
      var p := Round(web, db, urls);
      CrawlStore(web, p.db, p.next, depth - 1);
    }
  }

  /**
   * Every page a crawl of `depth` passes indexes was fetched and lies within
   * `depth - 1` links of a seed: with depth 1 only seeds are indexed.
   */
  lemma {:induction false} CrawlReach(web: Web, db: Db, urls: seq<string>, depth: int)
    requires DbValid(db) && depth >= 1
    ensures forall s :: s in Crawl(web, db, urls, depth).indexed ==>
      web.fetch(s).Some? && Within(Follow(web), urls, s, depth - 1)
    decreases depth
  {
    var p := Round(web, db, urls);
    RoundReach(web, db, urls);
    if depth == 1 {
      assert forall s :: s in p.indexed ==> Within(Follow(web), urls, s, 0);
    } else {
      CrawlReach(web, p.db, p.next, depth - 1);
      var q := Crawl(web, p.db, p.next, depth - 1);
      assert Crawl(web, db, urls, depth).indexed == p.indexed + q.indexed;
      var k: nat := depth - 2;
      assert k + 1 == depth - 1;
      ReachPass(web, urls, p, q.indexed, k);
    }
  }

  /** A pass keeps the store valid, indexes only fetched seeds, and collects exactly their targets. */
  ghost predicate Reached(web: Web, urls: seq<string>, p: Pass) {
    && DbValid(p.db)
    && (forall s :: s in p.indexed ==> s in urls && web.fetch(s).Some?)
    && (forall u :: u in p.next <==> exists s :: s in p.indexed && u in PageTargets(web, s))
  }

  /** What a pass tells about reach: it keeps the store valid, indexes fetched seeds, and collects their targets. */
  lemma RoundReach(web: Web, db: Db, urls: seq<string>)
    requires DbValid(db)
    ensures Reached(web, urls, Round(web, db, urls))
  {
    RoundInv(web, db, urls);
  }

  /**
   * The pages of one pass over `urls` and the fetched pages within `k` links
   * of its frontier are all fetched and within `k + 1` links of `urls`.
   */
  lemma ReachPass(web: Web, urls: seq<string>, p: Pass, later: seq<string>, k: nat)
    requires Reached(web, urls, p)
    requires forall s :: s in later ==> web.fetch(s).Some? && Within(Follow(web), p.next, s, k)
    ensures forall s :: s in p.indexed + later ==> web.fetch(s).Some? && Within(Follow(web), urls, s, k + 1)
  {
    FrontierFollows(web, urls, p);
    ReachStep(Follow(web), urls, p.next, p.indexed, later, k);
  }

  /** The pages of one pass over `urls`, then those of the passes after it, all lie within `k + 1` links of `urls`. */
  lemma ReachStep(links: string -> seq<string>, urls: seq<string>, next: seq<string>,
                  first: seq<string>, later: seq<string>, k: nat)
    requires forall s :: s in first ==> s in urls
    requires forall u :: u in next ==> exists t :: t in urls && u in links(t)
    requires forall s :: s in later ==> Within(links, next, s, k)
    ensures forall s :: s in first + later ==> Within(links, urls, s, k + 1)
  {
    forall s | s in first + later ensures Within(links, urls, s, k + 1) {
      if s in first {
        WithinMono(links, urls, s, 0, k + 1);
      } else {
        WithinShift(links, urls, next, s, k);
      }
    }
  }

  lemma FrontierFollows(web: Web, urls: seq<string>, p: Pass)
    requires forall s :: s in p.indexed ==> s in urls
    requires forall u :: u in p.next <==> exists s :: s in p.indexed && u in PageTargets(web, s)
    ensures forall u :: u in p.next ==> exists t :: t in urls && u in Follow(web)(t)
  {
    forall u | u in p.next ensures exists t :: t in urls && u in Follow(web)(t) {
      var s :| s in p.indexed && u in PageTargets(web, s);
      assert u in Follow(web)(s);
    }
  }

  /** Every seed whose fetch succeeds was indexed before the crawl or is indexed by it. */
  lemma CrawlCovers(web: Web, db: Db, urls: seq<string>, depth: int)
    requires DbValid(db) && depth >= 1
    ensures forall s :: s in urls && web.fetch(s).Some? ==> IsIndexed(db, s) || s in Crawl(web, db, urls, depth).indexed
  {
    RoundInv(web, db, urls);
  }

  /** With depth 1 only seeds get indexed. */
  lemma DepthOneIndexesOnlySeeds(web: Web, db: Db, urls: seq<string>)
    requires DbValid(db)
    ensures forall u :: IsIndexed(Crawl(web, db, urls, 1).db, u) ==> IsIndexed(db, u) || u in urls
  {
    CrawlStore(web, db, urls, 1);
    CrawlReach(web, db, urls, 1);
  }

  /**
   * With depth 2 the second pass visits the first pass's frontier: each of
   * its pages whose fetch succeeds is indexed by the end of the first pass
   * or in the second.
   */
  lemma DepthTwoFollowsLinks(web: Web, db: Db, urls: seq<string>)
    requires DbValid(db)
    ensures var p := Round(web, db, urls);
      forall t :: t in p.next && web.fetch(t).Some? ==> IsIndexed(p.db, t) || t in Crawl(web, db, urls, 2).indexed
  {
    var p := Round(web, db, urls);
    RoundInv(web, db, urls);
    CrawlCovers(web, p.db, p.next, 1);
  }
}
