/**
 * `SqliteIndex`: the store as an object whose five tables are updated in
 * place.  Every method is proved to have exactly the effect the matching
 * function of `StoreSpec` describes, so the lemmas proved there hold of the
 * object's state too.
 */
module IndexStore {
  import opened Wrappers
  import opened Sequences
  import opened StoreSpec

  /** `SELECT rowid FROM <table> WHERE <column> = v`: the rowid of the first row holding `v`. */
  method SelectRowid(rows: seq<string>, v: string) returns (r: Option<nat>)
    ensures r == Lookup(rows, v)
  {
    var i := 0;
    while i < |rows| && rows[i] != v
      invariant 0 <= i <= |rows|
      invariant v !in rows[..i]
    {
      i := i + 1;
    }
    if i < |rows| {
      LookupFirst(rows, v, i + 1);
      r := Some(i + 1);
    } else {
      assert rows[..i] == rows;
      r := None;
    }
  }

  /** `SELECT * FROM word_location WHERE url_id = ?` returns a row. */
  method SelectPosting(postings: seq<Posting>, urlId: nat) returns (found: bool)
    ensures found == HasPosting(postings, urlId)
  {
    var k := 0;
    while k < |postings| && postings[k].urlId != urlId
      invariant 0 <= k <= |postings|
      invariant forall j :: 0 <= j < k ==> postings[j].urlId != urlId
    {
      k := k + 1;
    }
    found := k < |postings|;
  }

  class SqliteIndex {
    var urlList: seq<string>
    var wordList: seq<string>
    var wordLocation: seq<Posting>
    var link: seq<LinkRow>
    var linkWords: seq<LinkWordRow>

    /** The five tables as one value. */
    function State(): Db
      reads this
    {
      Db(urlList, wordList, wordLocation, link, linkWords)
    }

    /** A fresh database after `init_database`: five empty tables. */
    constructor ()
      ensures State() == Empty
    {
      urlList, wordList, wordLocation, link, linkWords := [], [], [], [], [];
    }

    /**
     * `get_entry_id(table, column, value, create_if_not_exist)`: the id, with
     * the row appended first when it is missing and creation is allowed; the
     * `ValueError` when it is missing and creation is not allowed.
     */
    method GetEntryId(t: Table, value: string, create: bool) returns (r: Result<nat, StoreError>)
      modifies this
      ensures create ==> r.Ok?
      ensures r.Ok? ==> StoreSpec.GetEntryId(old(State()), t, value, create) == Ok((State(), r.value))
      ensures r.Err? ==> StoreSpec.GetEntryId(old(State()), t, value, create) == Err(r.error)
                         && State() == old(State())
    {
      var rows := if t == UrlList then urlList else wordList;
      var found := SelectRowid(rows, value);
      match found
      case Some(id) =>
        r := Ok(id);
      case None =>
        if create {
          if t == UrlList {
            urlList := urlList + [value];
          } else {
            wordList := wordList + [value];
          }
          r := Ok(|rows| + 1);
        } else {
          r := Err(NotFound(t, value));
        }
    }

    /** `is_indexed(url)`: the URL has a row, and that row has a posting. */
    method IsIndexed(url: string) returns (b: bool)
      ensures b == StoreSpec.IsIndexed(State(), url)
    {
      var found := SelectRowid(urlList, url);
      match found
      case None =>
        b := false;
      case Some(urlId) =>
        b := SelectPosting(wordLocation, urlId);
    }

    /** The id of a value, added when missing. */
    method EnsureId(t: Table, value: string) returns (id: nat)
      modifies this
      ensures State() == StoreSpec.EnsureId(old(State()), t, value).0
      ensures id == StoreSpec.EnsureId(old(State()), t, value).1
    {
      var r := GetEntryId(t, value, true);
      id := r.value;
    }

    /** The loop of `add_index` over `enumerate(words)`: each word's id, then its posting. */
    method PostWords(urlId: nat, words: seq<string>)
      modifies this
      ensures State() == StoreSpec.PostWords(old(State()), urlId, words)
    {
      ghost var db := State();
      var i := 0;
      while i < |words|
        invariant 0 <= i <= |words|
        invariant State() == StoreSpec.PostWords(db, urlId, words[..i])
      {
        var wordId := EnsureId(WordList, words[i]);
        PostWordsStep(db, urlId, words, i);
        wordLocation := wordLocation + [Posting(urlId, wordId, i)];
        i := i + 1;
      }
      assert words[..i] == words;
    }

    /**
     * `add_index(url, words)`: nothing for an indexed URL; otherwise the URL's
     * id, then for each word in turn its id and the posting `(url id, word id,
     * position)`.
     */
    method AddIndex(url: string, words: seq<string>)
      modifies this
      ensures State() == StoreSpec.AddIndex(old(State()), url, words)
      ensures DbValid(old(State())) ==> DbValid(State())
    {
      if DbValid(State()) {
        AddIndexValid(State(), url, words);
      }
      var indexed := IsIndexed(url);
      if indexed {
        return;
      }
      var urlId := EnsureId(UrlList, url);
      PostWords(urlId, words);
    }

    /** The loop of `add_link_ref` over `link_words`: each word's id, then its `link_words` row. */
    method LinkWords(linkId: nat, words: seq<string>)
      modifies this
      ensures State() == StoreSpec.LinkWords(old(State()), linkId, words)
    {
      ghost var db := State();
      var i := 0;
      while i < |words|
        invariant 0 <= i <= |words|
        invariant State() == StoreSpec.LinkWords(db, linkId, words[..i])
      {
        var wordId := EnsureId(WordList, words[i]);
        LinkWordsStep(db, linkId, words, i);
        linkWords := linkWords + [LinkWordRow(wordId, linkId)];
        i := i + 1;
      }
      assert words[..i] == words;
    }

    /**
     * `add_link_ref(url_from, url_to, link_words)`: the ids of both URLs,
     * added when missing; then, unless the ids agree, one `link` row and per
     * word its id and one `link_words` row carrying the new link id.
     */
    method AddLinkRef(from: string, to: string, words: seq<string>)
      modifies this
      ensures State() == StoreSpec.AddLinkRef(old(State()), from, to, words)
      ensures DbValid(old(State())) ==> DbValid(State())
    {
      if DbValid(State()) {
        AddLinkRefValid(State(), from, to, words);
      }
      var fromId := EnsureId(UrlList, from);
      var toId := EnsureId(UrlList, to);
      if fromId == toId {
        return;
      }
      link := link + [LinkRow(fromId, toId)];
      LinkWords(|link|, words);
    }
  }

  /** One more word for `add_index`: its id, then one posting at the next position. */
  lemma PostWordsStep(db: Db, urlId: nat, words: seq<string>, i: nat)
    requires i < |words|
    ensures var p := PostWords(db, urlId, words[..i]);
      var e := EnsureIn(p.wordList, words[i]);
      PostWords(db, urlId, words[..i + 1])
        == p.(wordList := e.0, wordLocation := p.wordLocation + [Posting(urlId, e.1, i)])
  {
    assert words[..i + 1][..i] == words[..i];
    var ids := EnsureAll(db.wordList, words[..i]).1;
    var id := EnsureIn(EnsureAll(db.wordList, words[..i]).0, words[i]).1;
    assert Postings(urlId, ids + [id]) == Postings(urlId, ids) + [Posting(urlId, id, i)];
  }

  /** One more word for `add_link_ref`: its id, then one `link_words` row. */
  lemma LinkWordsStep(db: Db, linkId: nat, words: seq<string>, i: nat)
    requires i < |words|
    ensures var p := LinkWords(db, linkId, words[..i]);
      var e := EnsureIn(p.wordList, words[i]);
      LinkWords(db, linkId, words[..i + 1])
        == p.(wordList := e.0, linkWords := p.linkWords + [LinkWordRow(e.1, linkId)])
  {
    assert words[..i + 1][..i] == words[..i];
    var ids := EnsureAll(db.wordList, words[..i]).1;
    var id := EnsureIn(EnsureAll(db.wordList, words[..i]).0, words[i]).1;
    assert LinkWordRows(ids + [id], linkId) == LinkWordRows(ids, linkId) + [LinkWordRow(id, linkId)];
  }
}
