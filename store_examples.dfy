/** The rows the store's unit tests expect, derived from the model. */
module StoreExamples {
  import opened Wrappers
  import opened Sequences
  import opened StoreSpec

  /** Distinct words stored into an empty table are appended in order. */
  lemma {:induction false} FreshRows(words: seq<string>)
    requires NoDup(words)
    ensures EnsureAll([], words).0 == words
    decreases |words|
  {
    if words != [] {
      var n := |words| - 1;
      var init := words[..n];
      assert NoDup(init) by {
        forall i, j | 0 <= i < j < n ensures init[i] != init[j] {
          assert init[i] == words[i] && init[j] == words[j];
        }
      }
      FreshRows(init);
      assert words[n] !in init by {
        forall i | 0 <= i < n ensures init[i] != words[n] {
          assert init[i] == words[i];
        }
      }
      assert init + [words[n]] == words;
    }
  }

  /** ... and the i-th of them gets id i + 1. */
  lemma FreshIds(words: seq<string>)
    requires NoDup(words)
    ensures |EnsureAll([], words).1| == |words|
    ensures forall i :: 0 <= i < |words| ==> EnsureAll([], words).1[i] == i + 1
  {
    FreshRows(words);
    var ids := EnsureAll([], words).1;
    forall i | 0 <= i < |words| ensures ids[i] == i + 1 {
      assert IdsOf(words, ids, words);
      NoDupIndex(words, ids[i] - 1, i);
    }
  }

  /** The first word stored gets id 1; asking without creation for a missing word is an error. */
  lemma FirstWordGetsIdOne()
    ensures GetEntryId(Empty, WordList, "python", true) == Ok((Empty.(wordList := ["python"]), 1))
    ensures GetEntryId(Empty, WordList, "python", false) == Err(NotFound(WordList, "python"))
  {
  }

  /** Indexing a new URL with four distinct words gives postings (1,1,0) .. (1,4,3). */
  lemma IndexNewUrl(url: string, words: seq<string>)
    requires words == ["foo", "bar", "python", "nah"]
    ensures AddIndex(Empty, url, words)
         == Db([url], words, [Posting(1, 1, 0), Posting(1, 2, 1), Posting(1, 3, 2), Posting(1, 4, 3)], [], [])
  {
    assert NoDup(words);
    IndexFourNewWords(url, words);
  }

  /** `IndexNewUrl` for any four distinct words. */
  lemma IndexFourNewWords(url: string, words: seq<string>)
    requires |words| == 4 && NoDup(words)
    ensures AddIndex(Empty, url, words)
         == Db([url], words, [Posting(1, 1, 0), Posting(1, 2, 1), Posting(1, 3, 2), Posting(1, 4, 3)], [], [])
  {
    assert !IsIndexed(Empty, url);
    assert EnsureIn([], url).0 == [url] && EnsureIn([], url).1 == 1;
    FourNewWords(words);
    FirstFourPostings();
  }

  /** A second `add_index` of the same URL stores neither its words nor its postings. */
  lemma IndexDuplicateUrl(url: string, first: seq<string>, second: seq<string>)
    requires first == ["foo", "bar", "python", "nah"] && second == ["shouldnotexists", "thisoneeither"]
    ensures AddIndex(AddIndex(Empty, url, first), url, second)
         == Db([url], first, [Posting(1, 1, 0), Posting(1, 2, 1), Posting(1, 3, 2), Posting(1, 4, 3)], [], [])
  {
    IndexNewUrl(url, first);
    AddIndexTwice(Empty, url, first, second);
  }

  /** Two distinct URLs stored into an empty table get ids 1 and 2. */
  lemma TwoNewUrls(from: string, to: string)
    requires from != to
    ensures EnsureBoth([], from, to).0 == [from, to]
    ensures EnsureBoth([], from, to).1 == 1 && EnsureBoth([], from, to).2 == 2
  {
    assert EnsureIn([], from).0 == [from] && EnsureIn([], from).1 == 1;
    assert to !in [from];
    assert EnsureIn([from], to).0 == [from, to] && EnsureIn([from], to).1 == 2;
  }

  /** Four distinct words, stored into an empty table, get ids 1 to 4. */
  lemma FourNewWords(words: seq<string>)
    requires |words| == 4 && NoDup(words)
    ensures EnsureAll([], words).0 == words && EnsureAll([], words).1 == [1, 2, 3, 4]
  {
    FreshRows(words);
    FreshIds(words);
  }

  /**
   * A link between two new URLs with four distinct words: the URLs get ids
   * 1 and 2, the link row is (1, 2), and each word gets a row for link 1.
   */
  lemma LinkTwoNewUrls(from: string, to: string, words: seq<string>)
    requires from != to && words == ["the", "link", "to", "other"]
    ensures AddLinkRef(Empty, from, to, words)
         == Db([from, to], words, [], [LinkRow(1, 2)],
               [LinkWordRow(1, 1), LinkWordRow(2, 1), LinkWordRow(3, 1), LinkWordRow(4, 1)])
  {
    assert NoDup(words);
    LinkFourNewWords(from, to, words);
  }

  /** `LinkTwoNewUrls` for any four distinct words. */
  lemma LinkFourNewWords(from: string, to: string, words: seq<string>)
    requires from != to && |words| == 4 && NoDup(words)
    ensures AddLinkRef(Empty, from, to, words)
         == Db([from, to], words, [], [LinkRow(1, 2)],
               [LinkWordRow(1, 1), LinkWordRow(2, 1), LinkWordRow(3, 1), LinkWordRow(4, 1)])
  {
    LinkFromEmpty(from, to, words);
    FreshLinkWords(Db([from, to], [], [], [LinkRow(1, 2)], []), words);
  }

  /** Four distinct words for link 1, into empty word and link-word tables. */
  lemma FreshLinkWords(db: Db, words: seq<string>)
    requires db.wordList == [] && db.linkWords == [] && |words| == 4 && NoDup(words)
    ensures LinkWords(db, 1, words)
         == db.(wordList := words, linkWords := [LinkWordRow(1, 1), LinkWordRow(2, 1), LinkWordRow(3, 1), LinkWordRow(4, 1)])
  {
    FourNewWords(words);
    var rows := LinkWordRows([1, 2, 3, 4], 1);
    assert db.linkWords + rows == rows;
    FirstFourLinkWordRows();
  }

  /** A link between two new URLs: ids 1 and 2, link row (1, 2), then the words of link 1. */
  lemma LinkFromEmpty(from: string, to: string, words: seq<string>)
    requires from != to
    ensures AddLinkRef(Empty, from, to, words) == LinkWords(Db([from, to], [], [], [LinkRow(1, 2)], []), 1, words)
  {
    TwoNewUrls(from, to);
    assert Empty.link + [LinkRow(1, 2)] == [LinkRow(1, 2)];
  }

  /** The link-word rows of ids 1 to 4 for link 1. */
  lemma FirstFourLinkWordRows()
    ensures LinkWordRows([1, 2, 3, 4], 1) == [LinkWordRow(1, 1), LinkWordRow(2, 1), LinkWordRow(3, 1), LinkWordRow(4, 1)]
  {
    var r := LinkWordRows([1, 2, 3, 4], 1);
    assert r[0] == LinkWordRow(1, 1) && r[1] == LinkWordRow(2, 1) && r[2] == LinkWordRow(3, 1) && r[3] == LinkWordRow(4, 1);
  }

  /** The postings of ids 1 to 4 at positions 0 to 3 for URL 1. */
  lemma FirstFourPostings()
    ensures Postings(1, [1, 2, 3, 4]) == [Posting(1, 1, 0), Posting(1, 2, 1), Posting(1, 3, 2), Posting(1, 4, 3)]
  {
    var r := Postings(1, [1, 2, 3, 4]);
    assert r[0] == Posting(1, 1, 0) && r[1] == Posting(1, 2, 1) && r[2] == Posting(1, 3, 2) && r[3] == Posting(1, 4, 3);
  }
}
