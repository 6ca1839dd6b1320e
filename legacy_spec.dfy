/**
 * What the methods of the old `Crawler` of `search_engine.py` do, as
 * functions over the store's value.  The old crawler shares the store layout,
 * `get_entry_id` and the link-ref rule with the refactored one; it differs
 * in three places: `is_indexed` can return `None`, `add_to_index` numbers a
 * word by its position among all tokens, stop words included, and `crawl`
 * runs a fixed number of passes that revisit indexed pages and filter links
 * by their own rule.
 */
module LegacySpec {
  import opened Wrappers
  import opened Sequences
  import opened Tokenizer
  import opened Document
  import opened Links
  import opened StoreSpec
  import opened CrawlSpec

  /** The values the old `is_indexed` returns: `False`, `True`, or `None` when it falls off its end. */
  datatype PyIndexed = PyFalse | PyTrue | PyNone

  /** Python truthiness of that value: `None` is falsy. */
  predicate Truthy(v: PyIndexed) {
    v == PyTrue
  }

  /**
   * The old `is_indexed(url)`: `False` for a URL without a row, `True` when
   * its row has a posting, and `None` when it has a row but no posting.
   */
  function OldIsIndexed(db: Db, url: string): (r: PyIndexed)
    ensures r == PyFalse <==> url !in db.urlList
    ensures r == PyNone <==> url in db.urlList && !IsIndexed(db, url)
    ensures Truthy(r) <==> IsIndexed(db, url)
  {
    match Lookup(db.urlList, url)
    case None => PyFalse
    case Some(id) => if HasPosting(db.wordLocation, id) then PyTrue else PyNone
  }

  /** The positions of the tokens the old `add_to_index` posts: those not in `IGNORE_WORDS`, in order. */
  function Kept(words: seq<string>): (r: seq<nat>)
    ensures forall k :: 0 <= k < |r| ==> r[k] < |words|
    decreases |words|
  {
    if words == [] then []
    else
      var n := |words| - 1;
      var r := Kept(words[..n]);
      if words[n] in IgnoreWords then r else r + [n]
  }

  /**
   * `Kept` lists, in increasing order, exactly the positions of the tokens
   * that are not stop words.
   */
  lemma {:induction false} KeptPositions(words: seq<string>)
    ensures forall k :: 0 <= k < |Kept(words)| ==> words[Kept(words)[k]] !in IgnoreWords
    ensures forall k, l :: 0 <= k < l < |Kept(words)| ==> Kept(words)[k] < Kept(words)[l]
    ensures forall i :: 0 <= i < |words| && words[i] !in IgnoreWords ==> i in Kept(words)
    decreases |words|
  {
    if words != [] {
      var n := |words| - 1;
      KeptPositions(words[..n]);
      var r := Kept(words[..n]);
      assert forall k :: 0 <= k < |r| ==> words[..n][r[k]] == words[r[k]];
      forall i | 0 <= i < n ensures words[..n][i] == words[i] {
      }
    }
  }

  /**
   * The loop of the old `add_to_index` over `enumerate(words)`: a stop word
   * is skipped but keeps its position; any other word gets its id and the
   * posting `(urlId, id, position)`.
   */
  function OldPostWords(db: Db, urlId: nat, words: seq<string>): Db
    decreases |words|
  {
    if words == [] then db
    else
      var n := |words| - 1;
      var d := OldPostWords(db, urlId, words[..n]);
      if words[n] in IgnoreWords then d
      else
        var (rows, id) := EnsureIn(d.wordList, words[n]);
        d.(wordList := rows, wordLocation := d.wordLocation + [Posting(urlId, id, n)])
  }

  /**
   * The old `add_to_index(url, soup)` on the page's tokens: nothing when
   * `is_indexed` is truthy; otherwise the id of `url`, then the postings.
   */
  function IndexTokens(db: Db, url: string, words: seq<string>): Db {
    if Truthy(OldIsIndexed(db, url)) then db
    else
      var (rows, urlId) := EnsureIn(db.urlList, url);
      OldPostWords(db.(urlList := rows), urlId, words)
  }

  /** The old `add_to_index(url, soup)`: the tokens of the old `get_text_only`, stop words still in. */
  function AddToIndex(db: Db, url: string, soup: Node): Db {
    IndexTokens(db, url, SeparateWords(OldTextOnly(soup)))
  }

  /** The postings `(urlId, ids[k], locations[k])`. */
  function Located(urlId: nat, ids: seq<nat>, locations: seq<nat>): (ps: seq<Posting>)
    requires |ids| == |locations|
    ensures |ps| == |ids|
  {
    seq(|ids|, k requires 0 <= k < |ids| => Posting(urlId, ids[k], locations[k]))
  }

  /** `Without` of a sequence that grew by one word. */
  lemma WithoutSnoc(ws: seq<string>, w: string, ignore: set<string>)
    ensures Without(ws + [w], ignore) == Without(ws, ignore) + (if w in ignore then [] else [w])
  {
    WithoutConcat(ws, [w], ignore);
    assert [w][1..] == [];
  }

  /** Nothing is left of words that are all ignored. */
  lemma {:induction false} WithoutIgnored(ws: seq<string>, ignore: set<string>)
    requires forall i :: 0 <= i < |ws| ==> ws[i] in ignore
    ensures Without(ws, ignore) == []
    decreases |ws|
  {
    if ws != [] {
      assert ws[0] in ignore;
      WithoutIgnored(ws[1..], ignore);
    }
  }

  /** One more token for the old loop: a stop word changes nothing, any other word is posted at position `|words|`. */
  lemma OldPostWordsSnoc(db: Db, urlId: nat, words: seq<string>, w: string)
    ensures var d := OldPostWords(db, urlId, words);
      var e := EnsureIn(d.wordList, w);
      OldPostWords(db, urlId, words + [w])
        == if w in IgnoreWords then d else d.(wordList := e.0, wordLocation := d.wordLocation + [Posting(urlId, e.1, |words|)])
  {
    assert (words + [w])[..|words|] == words;
  }

  /** The words `words_from_text` keeps are the tokens at the positions `Kept` lists. */
  lemma {:induction false} KeptWords(words: seq<string>)
    ensures |Kept(words)| == |Without(words, AsSet(IgnoreWords))|
    ensures forall k :: 0 <= k < |Kept(words)| ==> Without(words, AsSet(IgnoreWords))[k] == words[Kept(words)[k]]
    decreases |words|
  {
    if words != [] {
      var n := |words| - 1;
      SplitLast(words);
      KeptWords(words[..n]);
      WithoutSnoc(words[..n], words[n], AsSet(IgnoreWords));
      var pos0 := Kept(words[..n]);
      forall k | 0 <= k < |pos0| ensures words[..n][pos0[k]] == words[pos0[k]] {
      }
    }
  }

  /** The store after posting words `ws` at locations `pos`, with the ids `get_entry_id` gives them. */
  function Posted(db: Db, urlId: nat, ws: seq<string>, pos: seq<nat>): Db
    requires |ws| == |pos|
  {
    var (rows, ids) := EnsureAll(db.wordList, ws);
    db.(wordList := rows, wordLocation := db.wordLocation + Located(urlId, ids, pos))
  }

  lemma PostedSnoc(db: Db, urlId: nat, ws: seq<string>, pos: seq<nat>, w: string, n: nat)
    requires |ws| == |pos|
    ensures var d := Posted(db, urlId, ws, pos);
      var e := EnsureIn(d.wordList, w);
      Posted(db, urlId, ws + [w], pos + [n]) == d.(wordList := e.0, wordLocation := d.wordLocation + [Posting(urlId, e.1, n)])
  {
    assert (ws + [w])[..|ws|] == ws;
    var (rows1, ids1) := EnsureAll(db.wordList, ws);
    var id := EnsureIn(rows1, w).1;
    assert Located(urlId, ids1 + [id], pos + [n]) == Located(urlId, ids1, pos) + [Posting(urlId, id, n)];
  }

  /**
   * The old loop posts exactly the words that `words_from_text` keeps, with
   * the ids the refactored loop would give them; the location of each
   * posting is the position of its word among all the tokens.
   */
  lemma {:induction false} OldPostWordsShape(db: Db, urlId: nat, words: seq<string>)
    ensures |Kept(words)| == |Without(words, AsSet(IgnoreWords))|
    ensures OldPostWords(db, urlId, words) == Posted(db, urlId, Without(words, AsSet(IgnoreWords)), Kept(words))
    decreases |words|
  {
    if words == [] {
      assert EnsureAll(db.wordList, []).1 == [];
      assert Located(urlId, [], []) == [];
    } else {
      OldPostWordsShape(db, urlId, words[..|words| - 1]);
      ShapeLast(db, urlId, words);
    }
  }

  /** What `OldPostWordsShape` states, for one token sequence. */
  predicate Shaped(db: Db, urlId: nat, words: seq<string>) {
    && |Kept(words)| == |Without(words, AsSet(IgnoreWords))|
    && OldPostWords(db, urlId, words) == Posted(db, urlId, Without(words, AsSet(IgnoreWords)), Kept(words))
  }

  /** `ShapeStep` for the last token of `words`. */
  lemma ShapeLast(db: Db, urlId: nat, words: seq<string>)
    requires words != []
    requires Shaped(db, urlId, words[..|words| - 1])
    ensures Shaped(db, urlId, words)
  {
    var n := |words| - 1;
    var pre, w := words[..n], words[n];
    SplitLast(words);
    ShapeStep(db, urlId, pre, w);
    assert Shaped(db, urlId, pre + [w]);
  }

  lemma KeptSnoc(words: seq<string>, w: string)
    ensures Kept(words + [w]) == Kept(words) + (if w in IgnoreWords then [] else [|words|])
  {
    assert (words + [w])[..|words|] == words;
  }

  lemma ShapeStep(db: Db, urlId: nat, words: seq<string>, w: string)
    requires |Kept(words)| == |Without(words, AsSet(IgnoreWords))|
    requires OldPostWords(db, urlId, words) == Posted(db, urlId, Without(words, AsSet(IgnoreWords)), Kept(words))
    ensures |Kept(words + [w])| == |Without(words + [w], AsSet(IgnoreWords))|
    ensures OldPostWords(db, urlId, words + [w])
         == Posted(db, urlId, Without(words + [w], AsSet(IgnoreWords)), Kept(words + [w]))
  {
    var ws, pos := Without(words, AsSet(IgnoreWords)), Kept(words);
    WithoutSnoc(words, w, AsSet(IgnoreWords));
    KeptSnoc(words, w);
    OldPostWordsSnoc(db, urlId, words, w);
    if w !in IgnoreWords {
      PostedSnoc(db, urlId, ws, pos, w, |words|);
    } else {
      assert w in AsSet(IgnoreWords);
      assert Without(words + [w], AsSet(IgnoreWords)) == ws + [] == ws;
      assert Kept(words + [w]) == pos + [] == pos;
    }
  }

  /**
   * Both versions of the store leave the same tables, apart from the
   * `location` column; the old store's row ids identify the same rows.
   */
  predicate SameButLocations(o: Db, n: Db) {
    && o.urlList == n.urlList
    && o.wordList == n.wordList
    && o.link == n.link
    && o.linkWords == n.linkWords
    && |o.wordLocation| == |n.wordLocation|
    && forall k :: 0 <= k < |o.wordLocation| ==>
         o.wordLocation[k].urlId == n.wordLocation[k].urlId && o.wordLocation[k].wordId == n.wordLocation[k].wordId
  }

  /** Two such stores agree on which URLs are indexed and on validity. */
  lemma SameButLocationsAgree(o: Db, n: Db, url: string)
    requires SameButLocations(o, n)
    ensures IsIndexed(o, url) == IsIndexed(n, url)
    ensures DbValid(o) == DbValid(n)
  {
    match Lookup(o.urlList, url)
    case None =>
    case Some(id) =>
      if HasPosting(o.wordLocation, id) {
        var k :| 0 <= k < |o.wordLocation| && o.wordLocation[k].urlId == id;
        assert n.wordLocation[k].urlId == id;
      }
      if HasPosting(n.wordLocation, id) {
        var k :| 0 <= k < |n.wordLocation| && n.wordLocation[k].urlId == id;
        assert o.wordLocation[k].urlId == id;
      }
  }

  /**
   * The old `add_to_index` on tokens `words` writes what the refactored
   * `add_index` writes for the same tokens without stop words, apart from
   * the location of each posting.
   */
  lemma IndexTokensAgrees(db: Db, url: string, words: seq<string>)
    ensures SameButLocations(IndexTokens(db, url, words), AddIndex(db, url, Without(words, AsSet(IgnoreWords))))
  {
    if !IsIndexed(db, url) {
      var (rows, urlId) := EnsureIn(db.urlList, url);
      var db1 := db.(urlList := rows);
      OldPostWordsShape(db1, urlId, words);
      var ws := Without(words, AsSet(IgnoreWords));
      var ids := EnsureAll(db1.wordList, ws).1;
      var o := IndexTokens(db, url, words);
      var n := AddIndex(db, url, ws);
      var ps := Located(urlId, ids, Kept(words));
      var qs := Postings(urlId, ids);
      assert o.wordLocation == db.wordLocation + ps;
      assert n.wordLocation == db.wordLocation + qs;
      forall k | 0 <= k < |o.wordLocation|
        ensures o.wordLocation[k].urlId == n.wordLocation[k].urlId && o.wordLocation[k].wordId == n.wordLocation[k].wordId
      {
        if k >= |db.wordLocation| {
          assert o.wordLocation[k] == ps[k - |db.wordLocation|];
          assert n.wordLocation[k] == qs[k - |db.wordLocation|];
        }
      }
    }
  }

  /**
   * For a URL that is not indexed, the old `add_to_index` appends one
   * posting per word that is not a stop word, whose location is the word's
   * position among all the tokens: "this is a test" posts `this` at 0 and
   * `test` at 3.
   */
  lemma IndexTokensLocations(db: Db, url: string, words: seq<string>)
    requires !IsIndexed(db, url)
    ensures var r := IndexTokens(db, url, words);
      PostedAt(r.wordLocation, db.wordLocation, r.wordList, words, Kept(words))
  {
    var e := EnsureIn(db.urlList, url);
    var db1 := db.(urlList := e.0);
    assert IndexTokens(db, url, words) == OldPostWords(db1, e.1, words);
    assert db1.wordLocation == db.wordLocation;
    PostWordsLocations(db1, e.1, words);
  }

  /**
   * `after` is `before` followed by one posting per position of `pos`: the
   * `k`-th is located at `pos[k]`, and its word id names `words[pos[k]]` in
   * the word rows `rows`.
   */
  predicate PostedAt(after: seq<Posting>, before: seq<Posting>, rows: seq<string>, words: seq<string>, pos: seq<nat>) {
    && |after| == |before| + |pos|
    && after[..|before|] == before
    && forall k :: 0 <= k < |pos| ==>
         var p := after[|before| + k];
         p.location == pos[k] && p.location < |words| && 1 <= p.wordId <= |rows| && rows[p.wordId - 1] == words[p.location]
  }

  /** `IndexTokensLocations` for the old loop on its own, from store `db` and page id `urlId`. */
  lemma PostWordsLocations(db: Db, urlId: nat, words: seq<string>)
    ensures var r := OldPostWords(db, urlId, words);
      PostedAt(r.wordLocation, db.wordLocation, r.wordList, words, Kept(words))
  {
    OldPostWordsShape(db, urlId, words);
    KeptWords(words);
    PostedLocations(db, urlId, Without(words, AsSet(IgnoreWords)), words, Kept(words));
  }

  /** `Posted` appends one posting per word of `ws`, located at `pos`, whose id names that word. */
  lemma PostedLocations(db: Db, urlId: nat, ws: seq<string>, words: seq<string>, pos: seq<nat>)
    requires |ws| == |pos|
    requires forall k :: 0 <= k < |pos| ==> pos[k] < |words| && ws[k] == words[pos[k]]
    ensures var r := Posted(db, urlId, ws, pos);
      PostedAt(r.wordLocation, db.wordLocation, r.wordList, words, pos)
  {
    var e := EnsureAll(db.wordList, ws);
    var rows, ids := e.0, e.1;
    var r := Posted(db, urlId, ws, pos);
    assert r.wordList == rows && r.wordLocation == db.wordLocation + Located(urlId, ids, pos);
    PostingsAt(r.wordLocation, db.wordLocation, urlId, rows, ids, ws, words, pos);
  }

  /**
   * The postings `all`, which are `Located(urlId, ids, pos)` after `before`,
   * where `ids` are the rows of `ws` and `ws` are the tokens of `words` at `pos`.
   */
  lemma PostingsAt(all: seq<Posting>, before: seq<Posting>, urlId: nat, rows: seq<string>, ids: seq<nat>,
                   ws: seq<string>, words: seq<string>, pos: seq<nat>)
    requires |ids| == |ws| == |pos| && all == before + Located(urlId, ids, pos)
    requires IdsOf(rows, ids, ws)
    requires forall k :: 0 <= k < |pos| ==> pos[k] < |words| && ws[k] == words[pos[k]]
    ensures PostedAt(all, before, rows, words, pos)
  {
    assert all[..|before|] == before;
    forall k | 0 <= k < |pos|
      ensures var p := all[|before| + k];
        p.location == pos[k] && p.location < |words| && 1 <= p.wordId <= |rows| && rows[p.wordId - 1] == words[p.location]
    {
      assert all[|before| + k] == Located(urlId, ids, pos)[k];
    }
  }

  /** The old `add_to_index` keeps the store valid. */
  lemma IndexTokensValid(db: Db, url: string, words: seq<string>)
    requires DbValid(db)
    ensures DbValid(IndexTokens(db, url, words))
  {
    var ws := Without(words, AsSet(IgnoreWords));
    IndexTokensAgrees(db, url, words);
    AddIndexValid(db, url, ws);
    SameButLocationsAgree(IndexTokens(db, url, words), AddIndex(db, url, ws), url);
  }

  /** The old `add_to_index` changes nothing for a URL that is indexed. */
  lemma IndexTokensIndexed(db: Db, url: string, words: seq<string>)
    requires IsIndexed(db, url)
    ensures IndexTokens(db, url, words) == db
  {
  }

  /**
   * Once a page with a word that is not a stop word is indexed, its URL is
   * indexed, so a second `add_to_index` of it, with any words, changes nothing.
   */
  lemma IndexTokensTwice(db: Db, url: string, words: seq<string>, again: seq<string>)
    requires exists i :: 0 <= i < |words| && words[i] !in IgnoreWords
    ensures IsIndexed(IndexTokens(db, url, words), url)
    ensures IndexTokens(IndexTokens(db, url, words), url, again) == IndexTokens(db, url, words)
  {
    var ws := Without(words, AsSet(IgnoreWords));
    var i :| 0 <= i < |words| && words[i] !in IgnoreWords;
    WithoutMembers(words, AsSet(IgnoreWords));
    assert words[i] in ws;
    IndexTokensAgrees(db, url, words);
    AddIndexMakesIndexed(db, url, ws);
    SameButLocationsAgree(IndexTokens(db, url, words), AddIndex(db, url, ws), url);
  }

  /**
   * A page whose tokens are all stop words gets a `url_list` row but no
   * posting: `is_indexed` answers `None` for it afterwards.
   */
  lemma IndexTokensOnlyStopWords(db: Db, url: string, words: seq<string>)
    requires DbValid(db) && !IsIndexed(db, url)
    requires forall i :: 0 <= i < |words| ==> words[i] in IgnoreWords
    ensures OldIsIndexed(IndexTokens(db, url, words), url) == PyNone
  {
    var ws := Without(words, AsSet(IgnoreWords));
    WithoutIgnored(words, AsSet(IgnoreWords));
    IndexTokensAgrees(db, url, words);
    AddIndexNoWords(db, url);
    SameButLocationsAgree(IndexTokens(db, url, words), AddIndex(db, url, ws), url);
    AddIndexRows(db, url, ws);
  }

  // The old crawl.

  /** The anchors of a page that carry an `href`, each with the URL it resolves to, in document order. */
  function HrefLinks(urls: Urls, page: string, anchors: seq<Node>): (r: seq<(Node, string)>)
    ensures forall i :: 0 <= i < |r| ==>
      r[i].0 in anchors && r[i].0.Tag? && "href" in r[i].0.attrs && r[i].1 == Resolve(urls, page, r[i].0.attrs["href"])
    decreases |anchors|
  {
    if anchors == [] then []
    else
      var a := anchors[0];
      var rest := HrefLinks(urls, page, anchors[1..]);
      assert forall i :: 0 <= i < |rest| ==> rest[i].0 in anchors;
      if a.Tag? && "href" in a.attrs then [(a, Resolve(urls, page, a.attrs["href"]))] + rest else rest
  }

  /** A pair is produced exactly for an anchor with an `href`, together with the URL that `href` resolves to. */
  lemma {:induction false} HrefLinksMembers(urls: Urls, page: string, anchors: seq<Node>, link: (Node, string))
    ensures link in HrefLinks(urls, page, anchors) <==>
      link.0 in anchors && link.0.Tag? && "href" in link.0.attrs && link.1 == Resolve(urls, page, link.0.attrs["href"])
    decreases |anchors|
  {
    if anchors != [] {
      HrefLinksMembers(urls, page, anchors[1..], link);
      assert link.0 in anchors <==> link.0 == anchors[0] || link.0 in anchors[1..];
    }
  }

  /** The links of two runs of anchors are the links of the first run, then those of the second. */
  lemma {:induction false} HrefLinksConcat(urls: Urls, page: string, a: seq<Node>, b: seq<Node>)
    ensures HrefLinks(urls, page, a + b) == HrefLinks(urls, page, a) + HrefLinks(urls, page, b)
    decreases |a|
  {
    if a == [] {
      assert a + b == b;
      EmptyConcat(HrefLinks(urls, page, b));
    } else {
      ConsConcat(a, b);
      HrefLinksConcat(urls, page, a[1..], b);
      HrefLinksFirst(urls, page, a);
      HrefLinksFirst(urls, page, a + b);
      ConcatAssoc(HrefLink(urls, page, a[0]), HrefLinks(urls, page, a[1..]), HrefLinks(urls, page, b));
    }
  }

  /** The pair the old loop makes of one anchor: none without an `href`. */
  function HrefLink(urls: Urls, page: string, a: Node): seq<(Node, string)> {
    if a.Tag? && "href" in a.attrs then [(a, Resolve(urls, page, a.attrs["href"]))] else []
  }

  lemma HrefLinksFirst(urls: Urls, page: string, anchors: seq<Node>)
    requires anchors != []
    ensures HrefLinks(urls, page, anchors) == HrefLink(urls, page, anchors[0]) + HrefLinks(urls, page, anchors[1..])
  {
    EmptyConcat(HrefLinks(urls, page, anchors[1..]));
  }

  /** The state of a pass of the old crawl: the store and the `new_pages` set built so far. */
  datatype Sweep = Sweep(db: Db, pages: seq<string>)

  /** The URL schemes the old crawl follows. */
  predicate Followed(url: string) {
    Scheme(url) in ["http", "https"]
  }

  /**
   * One link of a page: skipped when its URL holds a single quote;
   * otherwise it joins `new_pages` when its scheme is http or https and
   * `is_indexed` is falsy, and then gets a link ref whatever its scheme.
   */
  function OldLink(s: Sweep, page: string, link: Node, url: string): Sweep {
    if '\'' in url then s
    else
      var pages := if Followed(url) && !Truthy(OldIsIndexed(s.db, url)) then AddUrl(s.pages, url) else s.pages;
      Sweep(DoLinkRef(s.db, page, url, OldTextOnly(link)), pages)
  }

  /** The loop over the page's links. */
  function OldLinks(s: Sweep, page: string, links: seq<(Node, string)>): Sweep
    decreases |links|
  {
    if links == [] then s
    else
      var n := |links| - 1;
      OldLink(OldLinks(s, page, links[..n]), page, links[n].0, links[n].1)
  }

  /**
   * One page of a pass: skipped when its fetch fails; otherwise
   * `add_to_index` (which does nothing for an indexed page), then its links,
   * indexed page or not.
   */
  function OldVisit(web: Web, s: Sweep, page: string): Sweep {
    match web.fetch(page)
    case None => s
    case Some(soup) =>
      OldLinks(s.(db := AddToIndex(s.db, page, soup)), page, HrefLinks(web.urls, page, Anchors(soup)))
  }

  /** A page whose request fails (`requests.get` or `raise_for_status` raising) is skipped: the store and `new_pages` stay as they were. */
  lemma OldVisitFailed(web: Web, s: Sweep, page: string)
    ensures web.fetch(page).None? ==> OldVisit(web, s, page) == s
  {
  }

  function OldVisits(web: Web, s: Sweep, pages: seq<string>): Sweep
    decreases |pages|
  {
    if pages == [] then s
    else
      var n := |pages| - 1;
      OldVisit(web, OldVisits(web, s, pages[..n]), pages[n])
  }

  /** One pass of the old crawl over `pages`, from an empty `new_pages`. */
  function OldRound(web: Web, db: Db, pages: seq<string>): Sweep {
    OldVisits(web, Sweep(db, []), pages)
  }

  /**
   * `for i in range(depth)` with `passes` as the number of iterations: each
   * pass runs over the pages the previous one collected.  The result holds
   * the store and the pages the last pass collected.
   */
  function OldCrawl(web: Web, db: Db, pages: seq<string>, passes: nat): Sweep
    decreases passes
  {
    if passes == 0 then Sweep(db, pages)
    else
      var s := OldCrawl(web, db, pages, passes - 1);
      OldRound(web, s.db, s.pages)
  }

  /** The number of iterations of `range(depth)`. */
  function Iterations(depth: int): nat {
    if depth <= 0 then 0 else depth
  }

  /**
   * One link, in full: a quoted URL changes nothing; any other URL gets a
   * `url_list` row like the page does, whatever its scheme, and enters
   * `new_pages` exactly when it is a valid link that is not indexed.
   */
  lemma OldLinkEffect(s: Sweep, page: string, link: Node, url: string)
    ensures '\'' in url ==> OldLink(s, page, link, url) == s
    ensures '\'' !in url ==> page in OldLink(s, page, link, url).db.urlList && url in OldLink(s, page, link, url).db.urlList
    ensures forall u :: u in OldLink(s, page, link, url).pages <==>
      u in s.pages || (u == url && IsValidLink(url) && !IsIndexed(s.db, url))
    ensures NoDup(s.pages) ==> NoDup(OldLink(s, page, link, url).pages)
  {
    if '\'' !in url {
      AddLinkRefUrls(s.db, page, url, WordsFromText(OldTextOnly(link), IgnoreWords));
    }
  }

  /**
   * The rows one link writes: none for a quoted URL; otherwise those of
   * `add_link_ref(page, url, words)` over the anchor's text, that is URL rows
   * only for a link from the page to itself, and else exactly one `link`
   * row from the id of the page to the id of the URL and one `link_words`
   * row per word, each carrying that row's rowid.
   */
  lemma OldLinkRows(s: Sweep, page: string, link: Node, url: string)
    ensures '\'' in url ==> OldLink(s, page, link, url).db == s.db
    ensures '\'' !in url ==>
      LinkRefAdded(s.db, OldLink(s, page, link, url).db, page, url, WordsFromText(OldTextOnly(link), IgnoreWords))
  {
    var words := WordsFromText(OldTextOnly(link), IgnoreWords);
    if '\'' !in url {
      assert OldLink(s, page, link, url).db == AddLinkRef(s.db, page, url, words);
      AddLinkRefEffect(s.db, page, url, words);
    }
  }

  /** The pages a pass collects are valid links, none twice, and the store stays valid. */
  predicate SweepOk(s: Sweep) {
    DbValid(s.db) && NoDup(s.pages) && forall i :: 0 <= i < |s.pages| ==> IsValidLink(s.pages[i])
  }

  lemma OldLinkOk(s: Sweep, page: string, link: Node, url: string)
    requires SweepOk(s)
    ensures SweepOk(OldLink(s, page, link, url))
  {
    OldLinkEffect(s, page, link, url);
    if '\'' !in url {
      AddLinkRefValid(s.db, page, url, WordsFromText(OldTextOnly(link), IgnoreWords));
    }
    ValidPagesKept(s.pages, OldLink(s, page, link, url).pages);
  }

  /** A list whose entries are valid links or entries of a list of valid links holds only valid links. */
  lemma ValidPagesKept(before: seq<string>, after: seq<string>)
    requires forall i :: 0 <= i < |before| ==> IsValidLink(before[i])
    requires forall u :: u in after ==> u in before || IsValidLink(u)
    ensures forall i :: 0 <= i < |after| ==> IsValidLink(after[i])
  {
    forall i | 0 <= i < |after| ensures IsValidLink(after[i]) {
      assert after[i] in after;
      if after[i] in before {
        var j :| 0 <= j < |before| && before[j] == after[i];
      }
    }
  }

  lemma {:induction false} OldLinksOk(s: Sweep, page: string, links: seq<(Node, string)>)
    requires SweepOk(s)
    ensures SweepOk(OldLinks(s, page, links))
    decreases |links|
  {
    if links != [] {
      var n := |links| - 1;
      OldLinksOk(s, page, links[..n]);
      OldLinkOk(OldLinks(s, page, links[..n]), page, links[n].0, links[n].1);
    }
  }

  lemma OldVisitOk(web: Web, s: Sweep, page: string)
    requires SweepOk(s)
    ensures SweepOk(OldVisit(web, s, page))
  {
    match web.fetch(page)
    case None =>
    case Some(soup) =>
      IndexTokensValid(s.db, page, SeparateWords(OldTextOnly(soup)));
      OldLinksOk(s.(db := AddToIndex(s.db, page, soup)), page, HrefLinks(web.urls, page, Anchors(soup)));
  }

  lemma {:induction false} OldVisitsOk(web: Web, s: Sweep, pages: seq<string>)
    requires SweepOk(s)
    ensures SweepOk(OldVisits(web, s, pages))
    decreases |pages|
  {
    if pages != [] {
      var n := |pages| - 1;
      OldVisitsOk(web, s, pages[..n]);
      OldVisitOk(web, OldVisits(web, s, pages[..n]), pages[n]);
    }
  }

  /**
   * Every page a pass collects is a valid link (no single quote, scheme
   * http or https), collected once; and the store stays valid.
   */
  lemma OldRoundOk(web: Web, db: Db, pages: seq<string>)
    requires DbValid(db)
    ensures SweepOk(OldRound(web, db, pages))
  {
    OldVisitsOk(web, Sweep(db, []), pages);
  }

  /**
   * Over the whole old crawl the store stays valid, and after at least one
   * pass the pages left to crawl are valid links, none twice.
   */
  lemma {:induction false} OldCrawlOk(web: Web, db: Db, pages: seq<string>, passes: nat)
    requires DbValid(db)
    ensures DbValid(OldCrawl(web, db, pages, passes).db)
    ensures passes >= 1 ==> SweepOk(OldCrawl(web, db, pages, passes))
    decreases passes
  {
    if passes >= 1 {
      OldCrawlOk(web, db, pages, passes - 1);
      var s := OldCrawl(web, db, pages, passes - 1);
      OldRoundOk(web, s.db, s.pages);
    }
  }

  /**
   * Unlike the refactored crawl, the old one handles the links of a page it
   * has already indexed once more: only its `add_to_index` does nothing.
   */
  lemma IndexedPageRevisited(web: Web, s: Sweep, page: string, soup: Node)
    requires IsIndexed(s.db, page) && web.fetch(page) == Some(soup)
    ensures OldVisit(web, s, page) == OldLinks(s, page, HrefLinks(web.urls, page, Anchors(soup)))
    ensures Visit(web, Pass(s.db, s.pages, []), page) == Pass(s.db, s.pages, [])
  {
    IndexTokensIndexed(s.db, page, SeparateWords(OldTextOnly(soup)));
  }
}
