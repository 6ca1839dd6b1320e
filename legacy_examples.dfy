/** The old `add_to_index` and `is_indexed` on small stores. */
module LegacyExamples {
  import opened Wrappers
  import opened Tokenizer
  import opened StoreSpec
  import opened LegacySpec

  /** A fresh store indexes a URL under id 1. */
  lemma FreshUrl(url: string, words: seq<string>)
    ensures IndexTokens(Empty, url, words) == OldPostWords(Empty.(urlList := [url]), 1, words)
  {
    assert EnsureIn(Empty.urlList, url) == ([url], 1);
  }

  /** One more token that is not a stop word: its row, then its posting at the token's position. */
  lemma PostOne(db: Db, urlId: nat, words: seq<string>, w: string)
    requires w !in IgnoreWords
    ensures var d := OldPostWords(db, urlId, words);
      var e := EnsureIn(d.wordList, w);
      var r := OldPostWords(db, urlId, words + [w]);
      && r.urlList == d.urlList
      && r.wordList == e.0
      && r.wordLocation == d.wordLocation + [Posting(urlId, e.1, |words|)]
  {
    assert (words + [w])[..|words|] == words;
  }

  /** One more stop word: nothing changes. */
  lemma SkipOne(db: Db, urlId: nat, words: seq<string>, w: string)
    requires w in IgnoreWords
    ensures OldPostWords(db, urlId, words + [w]) == OldPostWords(db, urlId, words)
  {
    assert (words + [w])[..|words|] == words;
  }

  lemma FirstToken(db: Db)
    requires db.wordList == [] && db.wordLocation == []
    ensures var r := OldPostWords(db, 1, ["this"]);
      r.urlList == db.urlList && r.wordList == ["this"] && r.wordLocation == [Posting(1, 1, 0)]
  {
    assert "this" !in IgnoreWords;
    assert [] + ["this"] == ["this"];
    PostOne(db, 1, [], "this");
    assert EnsureIn([], "this").1 == 1;
  }

  lemma StopTokens(db: Db)
    ensures OldPostWords(db, 1, ["this", "is", "a"]) == OldPostWords(db, 1, ["this"])
  {
    assert "is" in IgnoreWords && "a" in IgnoreWords;
    SkipOne(db, 1, ["this"], "is");
    assert ["this"] + ["is"] == ["this", "is"];
    SkipOne(db, 1, ["this", "is"], "a");
    assert ["this", "is"] + ["a"] == ["this", "is", "a"];
  }

  lemma LastToken(db: Db, d: Db)
    requires d == OldPostWords(db, 1, ["this", "is", "a"])
    requires d.wordList == ["this"] && d.wordLocation == [Posting(1, 1, 0)]
    ensures var r := OldPostWords(db, 1, ["this", "is", "a", "test"]);
      r.urlList == d.urlList && r.wordList == ["this", "test"] && r.wordLocation == [Posting(1, 1, 0), Posting(1, 2, 3)]
  {
    assert "test" !in IgnoreWords;
    assert ["this", "is", "a"] + ["test"] == ["this", "is", "a", "test"];
    PostOne(db, 1, ["this", "is", "a"], "test");
    assert "test" !in ["this"];
    assert EnsureIn(["this"], "test").1 == 2;
  }

  /**
   * "this is a test" on a fresh store: `this` is posted at 0 and `test` at
   * 3; the stop words `is` and `a` get no row but keep their positions.
   */
  lemma StopWordsKeepTheirPositions(url: string)
    ensures var r := IndexTokens(Empty, url, ["this", "is", "a", "test"]);
      && r.urlList == [url]
      && r.wordList == ["this", "test"]
      && r.wordLocation == [Posting(1, 1, 0), Posting(1, 2, 3)]
  {
    var db := Empty.(urlList := [url]);
    FreshUrl(url, ["this", "is", "a", "test"]);
    FirstToken(db);
    StopTokens(db);
    LastToken(db, OldPostWords(db, 1, ["this", "is", "a"]));
  }

  /** A URL with a row but no posting: the old `is_indexed` falls off its end and returns `None`. */
  lemma RowWithoutPostingIsNone(url: string)
    ensures OldIsIndexed(Empty.(urlList := [url]), url) == PyNone
    ensures OldIsIndexed(Empty, url) == PyFalse
  {
    assert Lookup([url], url) == Some(1);
  }
}
