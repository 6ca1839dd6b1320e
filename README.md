# Chapter 4 crawler and indexer, modelled in Dafny

The system crawls the web from seed URLs and builds a full-text and link
index in five sqlite tables:
- `url_list(url)`;
- `word_list(word)`;
- `word_location(url_id, word_id, location)`;
- `link(from_id, to_id)`;
- `link_words(link_id, word_id)`.

Each page is fetched and parsed. Its visible text is split into lower-cased
words. Stop words are dropped and one posting is stored per word. Each valid
link of the page gets a `link` row and the words of its anchor text. Then
the crawl goes on with those links, for a bounded number of passes.

The repository holds two versions.
- `chapter4/crawler.py` is the refactored one. It has a `SqliteIndex` store
  object and a `Crawler` that owns it.
- `chapter4/search_engine.py` holds the older `Crawler`, which talks to the
  database itself. It also holds `Searcher.gen_query`, which builds the SQL
  text for a multi-word query.

The model has these modules:
- **Tokenizer**: `re.split(r'\W+')`, lower-casing, `words_from_text` and the
  old `separate_words`.
- **Document**: the parsed page as a tree of text nodes and tags, the
  parser's `.string`, `str.strip`, both versions of `get_text_only`, and
  `soup('a')`.
- **Links**: the scheme rule of `urlsplit`, `is_valid_link` and
  `get_valid_links`.
- **StoreSpec**: the five tables as one value `Db`, with `get_entry_id`,
  `is_indexed`, `add_index` and `add_link_ref` as functions over it.
- **IndexStore**: the class `SqliteIndex`. Its five table fields are updated
  in place. Each method is proved to have the effect of the matching
  StoreSpec function.
- **CrawlSpec** and **CrawlProperties**: the refactored crawl as functions
  over a pass, and what a crawl does to the store and which pages it
  reaches.
- **Crawling**: the refactored `Crawler` class, proved against CrawlSpec.
- **LegacySpec** and **SearchEngine**: the old crawler as functions, compared
  with the refactored one, and the old `Crawler` class proved against them.
- **Query**: `gen_query` as a method with its loop, proved against a
  specification of the text it builds.
- **TokenizerExamples**, **StoreExamples**, **LinkExamples**,
  **PageExamples** and **LegacyExamples**: the inputs of the repository's
  unit tests. PageExamples builds the trees `html.parser` makes of the
  test pages, layout whitespace included.

Row ids are sqlite's rowids for tables that are only appended to: the `k`-th
row has id `k`. A page fetch is an outside oracle, `Web.fetch`: it yields the
parsed page, or nothing when the request or `raise_for_status` fails.
`urljoin` and `urldefrag` are function parameters (`Urls`).

Three behaviours of the code are easy to miss:
- **When indexed URLs are filtered.** The refactored crawl filters indexed
  URLs with a generator. The `is_indexed` test runs when the loop reaches each URL,
  not once per pass. So a URL indexed earlier in the same pass is skipped
  (`CrawlProperties.RepeatedSeedOnce`).
- **Seeds are not de-duplicated.** Seeds are a list. A seed listed twice is
  processed twice when its page has no words, because `is_indexed` stays
  false for a page without postings (`CrawlProperties.EmptyPageIndexedAgain`).
- **The old crawler skips nothing.** It does not skip indexed pages: it
  fetches them again and records their links again
  (`LegacySpec.IndexedPageRevisited`).

## Model

| member | source | states |
|---|---|---|
| Tokenizer.LowerChar | chapter4/crawler.py:17 | `str.lower` on one character: each capital A-Z becomes the letter at the same place of the alphabet `a`-`z`, no result is a capital, every other character is kept, and word characters stay word characters |
| Tokenizer.SplitFragments | chapter4/crawler.py:16-17 | dropping the empty pieces of `re.split(r'\W+', text)` leaves exactly the maximal runs of word characters, in order |
| Tokenizer.Fragments | chapter4/crawler.py:16 | each piece `re.split` keeps is a non-empty run of word characters |
| Tokenizer.SeparateWords | chapter4/search_engine.py:70-72 | `separate_words` is the lower-cased maximal word-character runs of the text; each one is a non-empty, lower-case run of word characters |
| Tokenizer.SeparateWordsAtSeparators | chapter4/search_engine.py:70-72 | any non-empty run of non-word characters separates words: the words of `a + sep + b` are those of `a` followed by those of `b` |
| Tokenizer.WithoutMembers | chapter4/crawler.py:18 | the stop-word filter keeps exactly the words not in the ignore set |
| Tokenizer.WithoutConcat | chapter4/crawler.py:18 | the filter keeps order: filtering a concatenation is concatenating the filtered parts |
| Tokenizer.WordsFromText | chapter4/crawler.py:14-19 | every word `words_from_text` returns is a lower-case token and not an ignored word |
| Tokenizer.WordsFromTextMembers | chapter4/crawler.py:14-19 | a word is returned exactly when it is a token of the text and not in the ignore list |
| Tokenizer.WordsFromTextAtSeparators | chapter4/crawler.py:14-19 | the words of `a + sep + b` are the words of `a` followed by the words of `b` |
| TokenizerExamples.DefaultStopWordsDropped | chapter4/tests/test_crawler.py:44-50 | "This is a all lower words sentence." gives this, all, lower, words, sentence |
| TokenizerExamples.SeparatedByNonWordCharacters | chapter4/tests/test_crawler.py:52-58 | "This is fully-functional machine^name$money" splits at `-`, `^` and `$` and drops `is` |
| TokenizerExamples.CustomIgnoreWordsReplaceDefault | chapter4/tests/test_crawler.py:60-66 | a custom ignore list replaces the default one: only `handsome` is dropped from "john is a handsome guy" |
| Document.Strip | chapter4/crawler.py:25 | `str.strip` gives a string with no whitespace at either end |
| Document.StripCutsSpace | chapter4/crawler.py:25 | what `strip` keeps is a contiguous part of the string, and only whitespace is cut before and after it |
| Document.SpaceBordersDropped | chapter4/crawler.py:25 | cutting whitespace off both ends of a text keeps its words |
| Document.StripSurrounded | chapter4/crawler.py:25 | `strip` removes exactly the whitespace around a text that has none at its ends |
| Document.StripStripped | chapter4/crawler.py:32 | stripping a stripped string changes nothing |
| Document.StripFragments | chapter4/crawler.py:25 | stripping never changes the words of a text |
| Document.TextOnly | chapter4/crawler.py:22-32 | the refactored `get_text_only` always returns a stripped string |
| Document.TextOnlyFragments | chapter4/crawler.py:22-32 | the words of the refactored `get_text_only` are the words of the tree's text nodes, in document order |
| Document.OldTextOnlyFragments | chapter4/search_engine.py:59-68 | the words of the old `get_text_only` are the same words of the text nodes, in document order |
| Document.SameWordsBothVersions | chapter4/search_engine.py:59-72 | splitting either version's text into words gives the same sequence |
| Document.EmptyChildIgnored | chapter4/crawler.py:22-32 | a child whose text is empty changes nothing in its tag's text, whatever the other children, none or one included |
| Document.OneChildText | chapter4/crawler.py:27-32 | the loop over a single child gives that child's text |
| Document.OneChild | chapter4/crawler.py:22-25 | a tag with one child has the child's text, whether or not `.string` takes the shortcut |
| Document.TagText | chapter4/crawler.py:22-32 | a tag's text is its children's joined lines, stripped, for any number of children |
| Document.ChildTextConcat | chapter4/crawler.py:28-30 | the children's text of two runs of children is the first run's text followed by the second's |
| Document.Anchors | chapter4/crawler.py:152 | `soup('a')` yields only `a` tags |
| Document.ChildAnchorsConcat | chapter4/crawler.py:152 | anchors come in document order: those under two runs of children are those of the first run, then the second's |
| Document.SpacedChildText | chapter4/crawler.py:27-30 | whitespace text nodes between the children add no line |
| Document.SpacedChildAnchors | chapter4/crawler.py:152 | text nodes between the children hold no anchor |
| LinkExamples.StringValueStripped | chapter4/tests/test_crawler.py:84-89 | `<p>` holding "\t   Hello World!\n" gives "Hello World!" |
| Links.SchemeOf | chapter4/crawler.py:36 | a URL that starts with a well-formed scheme name and `:` has that name, lower-cased, as its scheme |
| Links.SchemeSplits | chapter4/crawler.py:36 | a URL with a non-empty scheme starts with that scheme name and `:` |
| Links.ValidLinkIff | chapter4/crawler.py:35-36 | a link is valid exactly when it has no single quote and starts, in any letter case, with `http:` or `https:` |
| Links.ValidLinks | chapter4/crawler.py:151-157 | every returned link is valid, and there are no more links than anchors |
| Links.ValidLinksMembers | chapter4/crawler.py:151-157 | a pair is returned exactly when an anchor with an `href` resolves to a valid URL; the pair holds that anchor's text and that URL |
| Links.ValidLinksConcat | chapter4/crawler.py:153-157 | links keep document order: the links of two runs of anchors are those of the first run followed by those of the second |
| LinkExamples.QuoteIsInvalid | chapter4/tests/test_crawler.py:107-108 | an `https` URL that ends in a single quote is not valid |
| LinkExamples.WebSchemesAreValid | chapter4/tests/test_crawler.py:110-114 | `http://` or `https://` followed by any host without a quote is valid |
| LinkExamples.FtpIsInvalid | chapter4/tests/test_crawler.py:116-117 | an `ftp://` URL is not valid |
| PageExamples.TwoLineTag | chapter4/crawler.py:22-32 | a tag holding two elements with text, between whitespace, gives their texts on two lines |
| PageExamples.ThreeLineTag | chapter4/crawler.py:22-32 | the same with three elements |
| PageExamples.WrapperText | chapter4/crawler.py:22-32 | a tag around one element, between whitespace, has that element's text |
| PageExamples.InnerDivText | chapter4/tests/test_crawler.py:8-19 | the inner `<div>` of the nested page gives "World!\nFooBar", whatever its layout whitespace |
| PageExamples.OuterDivText | chapter4/tests/test_crawler.py:8-19 | the outer `<div>` gives "Hello", "Some Link" and then the inner `<div>`'s text, one per line |
| PageExamples.RecursivePageText | chapter4/tests/test_crawler.py:91-96 | the nested page gives "Hello\nSome Link\nWorld!\nFooBar" for any layout whitespace |
| PageExamples.ParsedRecursivePageText | chapter4/tests/test_crawler.py:91-96 | the same for the whitespace the parser keeps in the test's markup |
| PageExamples.AnchorRun | chapter4/crawler.py:152 | `soup('a')` over an element without anchors, a run of anchors without nested anchors, and one more element, is the run followed by that element's anchors |
| PageExamples.BareAnchors | chapter4/crawler.py:152 | anchors that hold no anchor are their own `soup('a')`, in order |
| PageExamples.TextThenAnchors | chapter4/crawler.py:152 | a tag holding a text node and then one element that is not an anchor holds exactly that element's anchors |
| PageExamples.OuterDivAnchors | chapter4/tests/test_crawler.py:21-33 | layout whitespace and a last child without anchors add no anchor to a `<div>` |
| PageExamples.OuterElementsAnchors | chapter4/tests/test_crawler.py:21-33 | the elements of the link page's outer `<div>` hold its four anchors, the one in the inner `<div>` last |
| PageExamples.LinkPageOfAnchors | chapter4/tests/test_crawler.py:21-33 | any page of the link page's shape has its four anchors as `soup('a')`, in document order |
| PageExamples.LinkPageAnchors | chapter4/tests/test_crawler.py:21-33 | `soup('a')` on the link page finds its four anchors in document order, the deep one last |
| PageExamples.PageAnchorLinks | chapter4/crawler.py:151-157 | on its own, the `ftp` anchor gives no link and each other anchor gives its caption and URL |
| PageExamples.LinkPageValidLinks | chapter4/tests/test_crawler.py:165-172 | `get_valid_links` on the link page gives the first, second and deep links, in that order, and drops the `ftp` link |
| StoreSpec.Lookup | chapter4/crawler.py:66-67 | `SELECT rowid`: the id of the first row holding the value, and None exactly when no row holds it |
| StoreSpec.EnsureIn | chapter4/crawler.py:64-74 | an existing value keeps its table and id; a new value is appended with id `len + 1`; the id names the first row holding the value |
| StoreSpec.GetEntryId | chapter4/crawler.py:64-76 | it succeeds exactly when the value is present or creation is allowed; a present value gives its id and no change; a new value gets a new last row; otherwise it fails with `ValueError` for that table and value |
| StoreSpec.GetEntryIdValid | chapter4/crawler.py:64-76 | looking up or adding a value keeps the tables consistent |
| StoreSpec.GetEntryIdStable | chapter4/crawler.py:64-76 | asking again for a value just looked up or added gives the same id and no change, whether or not creation is allowed |
| StoreSpec.EnsureInMembers | chapter4/crawler.py:64-74 | lookup-or-insert adds exactly the value to the table's members and keeps it free of duplicates |
| StoreSpec.EnsureAll | chapter4/crawler.py:104-105 | looking up or adding each word in turn: the table only grows, and `ids[i]` names a row holding word `i` |
| StoreSpec.EnsureAllRows | chapter4/crawler.py:104-105 | the word table gains exactly the missing words and stays free of duplicates |
| StoreSpec.EmptyValid | chapter4/crawler.py:50-62 | fresh tables are consistent, and no URL is indexed in them |
| StoreSpec.IsIndexedIff | chapter4/crawler.py:78-93 | a URL is indexed exactly when it has a `url_list` row and some posting carries that row's id |
| StoreSpec.AddIndex | chapter4/crawler.py:95-109 | `add_index` never touches the two link tables |
| StoreSpec.AddIndexIndexed | chapter4/crawler.py:96-97 | `add_index` on an indexed URL changes nothing |
| StoreSpec.AddIndexRows | chapter4/crawler.py:100-107 | for a URL that is not indexed: the URL gets a row once; the word table gains exactly the new words; one posting per word, in order, at location `idx`, with the word's id |
| StoreSpec.AddIndexMakesIndexed | chapter4/crawler.py:95-109 | after `add_index` with at least one word, the URL is indexed |
| StoreSpec.AddIndexNoWords | chapter4/crawler.py:95-109 | after `add_index` with no words, the URL is still not indexed |
| StoreSpec.AddIndexTwice | chapter4/crawler.py:95-109 | a second `add_index` of a URL indexed with words changes nothing |
| StoreSpec.AddIndexValid | chapter4/crawler.py:95-109 | `add_index` keeps the tables consistent |
| StoreSpec.AddIndexOthers | chapter4/crawler.py:95-109 | `add_index` of one URL does not change whether any other URL is indexed |
| StoreSpec.LinkWords | chapter4/crawler.py:122-125 | adding link words leaves `url_list`, `word_location` and `link` as they were |
| StoreSpec.LinkWordsRows | chapter4/crawler.py:122-125 | the word table gains exactly the new words; one `link_words` row per word, in order, with the word's id and the link's id |
| StoreSpec.EnsureBothIds | chapter4/crawler.py:112-115 | after both lookups each URL's id is its first row, and the two ids are equal exactly when the URLs are equal |
| StoreSpec.EnsureBothMembers | chapter4/crawler.py:112-113 | the URL table's members become the old ones plus both URLs, still free of duplicates |
| StoreSpec.AddLinkRef | chapter4/crawler.py:111-127 | `add_link_ref` never touches `word_location` |
| StoreSpec.AddLinkRefUrls | chapter4/crawler.py:112-113 | the URL table gains exactly the two URLs that were missing and stays free of duplicates |
| StoreSpec.AddIndexIdempotent | chapter4/crawler.py:95-109 | a second `add_index` of the same URL with the same words changes nothing, for every word list including the empty one |
| StoreSpec.AddLinkRefSelf | chapter4/crawler.py:115-116 | a link from a page to itself only adds the page's row, if it was missing |
| StoreSpec.AddLinkRefRows | chapter4/crawler.py:118-125 | for two different URLs: one `link` row with both ids, then one `link_words` row per word, carrying the new link's id |
| StoreSpec.AddLinkRefEffect | chapter4/crawler.py:111-127 | both cases at once: `word_location` never changes; a self-link adds no `link`, `link_words` or `word_list` row; otherwise exactly one `link` row from the id of `from` to the id of `to`, then one `link_words` row per word with its id and the new rowid |
| StoreSpec.AddLinkRefValid | chapter4/crawler.py:111-127 | `add_link_ref` keeps the tables consistent |
| StoreSpec.AddLinkRefKeepsIndexed | chapter4/crawler.py:111-127 | `add_link_ref` does not change whether any URL is indexed |
| StoreExamples.FirstWordGetsIdOne | chapter4/tests/test_crawler.py:290-306 | the first word of an empty table gets id 1; without creation it fails with `ValueError` |
| StoreExamples.IndexNewUrl | chapter4/tests/test_crawler.py:308-326 | indexing four new words gives one URL, the four words, and postings (1,1,0) to (1,4,3) |
| StoreExamples.IndexDuplicateUrl | chapter4/tests/test_crawler.py:328-343 | a second `add_index` of the same URL adds nothing |
| StoreExamples.LinkTwoNewUrls | chapter4/tests/test_crawler.py:345-372 | a link between two new URLs gives ids 1 and 2, the `link` row (1, 2), and the four words with link id 1 |
| IndexStore.SelectRowid | chapter4/crawler.py:66-67 | the row scan returns the id `Lookup` specifies |
| IndexStore.SelectPosting | chapter4/crawler.py:89-90 | the posting scan finds a posting exactly when one carries the URL id |
| IndexStore.SqliteIndex.constructor | chapter4/crawler.py:41-62 | a new index holds five empty tables |
| IndexStore.SqliteIndex.GetEntryId | chapter4/crawler.py:64-76 | the method's result and new tables are those of `StoreSpec.GetEntryId`; on failure nothing changes |
| IndexStore.SqliteIndex.IsIndexed | chapter4/crawler.py:78-93 | the result is `StoreSpec.IsIndexed` of the current tables |
| IndexStore.SqliteIndex.EnsureId | chapter4/crawler.py:64-74 | the result and new tables are those of lookup-or-insert |
| IndexStore.SqliteIndex.PostWords | chapter4/crawler.py:104-107 | the posting loop leaves the tables `StoreSpec.PostWords` describes |
| IndexStore.SqliteIndex.AddIndex | chapter4/crawler.py:95-109 | the new tables are `StoreSpec.AddIndex` of the old ones, and consistency is kept |
| IndexStore.SqliteIndex.LinkWords | chapter4/crawler.py:121-125 | the link-word loop leaves the tables `StoreSpec.LinkWords` describes |
| IndexStore.SqliteIndex.AddLinkRef | chapter4/crawler.py:111-127 | the new tables are `StoreSpec.AddLinkRef` of the old ones, and consistency is kept |
| CrawlSpec.GetWords | chapter4/crawler.py:148-149 | every word of a page is a lower-case token that is not a stop word |
| CrawlSpec.GetWordsMembers | chapter4/crawler.py:148-149 | a word is a word of the page exactly when it is a token of its text and not a stop word |
| CrawlSpec.AddUrl | chapter4/crawler.py:193 | `next_urls.add(u)`: the members are the old ones plus `u`, and there are still no duplicates |
| CrawlSpec.PageTargets | chapter4/crawler.py:191-193 | the URLs collected from a page are all valid links |
| CrawlProperties.LinkAllStore | chapter4/crawler.py:191-192 | recording a page's links keeps the tables consistent and changes no URL's indexed status |
| CrawlProperties.LinkAllRows | chapter4/crawler.py:191-192 | a page's links append, in order, one `link` row per link to another URL, from the page's URL row to the link's URL row, and after each one `link_words` row per word of its anchor text carrying that link's rowid; self-links add none; older rows stay in place |
| CrawlProperties.RowsAddedIds | chapter4/crawler.py:112-113 | in tables without duplicates, the URL and word rows those new rows point at are the ids `get_entry_id` finds |
| CrawlProperties.LinkAllIds | chapter4/crawler.py:191-192 | in a valid store, the k-th new `link` row is (id of the page, id of the k-th other link's URL) and each new `link_words` row is (id of its anchor word, rowid of its link) |
| CrawlProperties.LinkAllNext | chapter4/crawler.py:191-193 | after a page's links, the next frontier holds exactly the old frontier and the page's link URLs, with no duplicates |
| CrawlProperties.IndexUnindexed | chapter4/crawler.py:95-109 | indexing a URL that is not indexed keeps the tables consistent, leaves every other URL's status alone, and makes the URL indexed exactly when it has words |
| CrawlProperties.VisitSkipped | chapter4/crawler.py:180-189 | a URL already indexed, or whose fetch fails, leaves the tables, the next frontier and the indexed pages as they were; a processed URL is appended to the indexed pages |
| CrawlProperties.VisitStore | chapter4/crawler.py:180-193 | after one URL of a pass, only that URL's status may change; it is indexed when it was before, or when its page was fetched, processed and has words |
| CrawlProperties.VisitTrace | chapter4/crawler.py:180-193 | a URL is processed exactly when it is not indexed and its fetch succeeds; then its valid links join the next frontier |
| CrawlProperties.VisitInv | chapter4/crawler.py:180-193 | one URL of a pass keeps the pass invariant: consistent tables; the frontier is exactly the links of processed pages; indexed status follows processed pages with words; a page is processed twice only if it has no words |
| CrawlProperties.VisitsInv | chapter4/crawler.py:182-193 | the loop over the frontier keeps the pass invariant |
| CrawlProperties.VisitsCover | chapter4/crawler.py:180-189 | every pulled URL whose fetch succeeds was indexed before or is processed by the pass |
| CrawlProperties.RoundInv | chapter4/crawler.py:179-193 | a whole pass from a consistent store meets the pass invariant, collects only valid links, and processes every fetchable seed not yet indexed |
| CrawlProperties.RepeatedSeedOnce | chapter4/tests/test_crawler.py:227-237 | a seed listed twice whose page has words is processed once, because the filter is checked as the loop reaches each URL |
| CrawlProperties.EmptyPageIndexedAgain | chapter4/crawler.py:180 | a seed listed twice whose page has no words is processed twice: `is_indexed` stays false without postings |
| CrawlProperties.CrawlStore | chapter4/crawler.py:178-199 | a crawl keeps the tables consistent; a URL ends indexed exactly when it was indexed before, or was processed and has words |
| CrawlProperties.CrawlReach | chapter4/crawler.py:178-199 | every page a crawl of `depth` passes processes was fetched and lies within `depth - 1` links of a seed |
| CrawlProperties.ReachPass | chapter4/crawler.py:178-199 | the pages of one pass and the fetched pages near its frontier are fetched and within one more link of its seeds |
| CrawlProperties.CrawlCovers | chapter4/crawler.py:178-189 | every fetchable seed ends indexed before or processed |
| CrawlProperties.DepthOneIndexesOnlySeeds | chapter4/tests/test_crawler.py:199-209 | with depth 1 only seeds become indexed |
| CrawlProperties.DepthTwoFollowsLinks | chapter4/tests/test_crawler.py:211-225 | with depth 2 every fetchable link the first pass collected, if not indexed by then, is processed |
| Crawling.Crawler.constructor | chapter4/crawler.py:132-133 | the crawler keeps the index it is given |
| Crawling.Crawler.DoIndex | chapter4/crawler.py:159-172 | `do_index` stores what `add_index` with the page's words stores |
| Crawling.Crawler.DoLinkRef | chapter4/crawler.py:174-176 | `do_link_ref` stores what `add_link_ref` with the anchor text's words stores |
| Crawling.Crawler.Crawl | chapter4/crawler.py:178-199 | for `depth >= 1`, the tables after `crawl` are those of `CrawlSpec.Crawl`, whose properties CrawlProperties proves |
| Crawling.Crawler.VisitAll | chapter4/crawler.py:179-193 | the `for url in not_indexed_url` loop of one pass leaves the tables and `next_urls` of `CrawlSpec.Round` |
| Crawling.Crawler.VisitUrl | chapter4/crawler.py:180-193 | one URL of the loop leaves the tables and next frontier of `CrawlSpec.Visit` |
| Crawling.Crawler.LinkRefs | chapter4/crawler.py:191-193 | the loop over one page's links leaves the tables and frontier of `CrawlSpec.LinkAll` |
| LegacySpec.OldIsIndexed | chapter4/search_engine.py:74-87 | the old `is_indexed` returns False exactly for a URL without a row, None exactly for a URL with a row but no posting, and True exactly for an indexed URL |
| LegacySpec.Kept | chapter4/search_engine.py:51-53 | the positions the old loop posts all lie within the tokens |
| LegacySpec.KeptPositions | chapter4/search_engine.py:51-56 | those positions are exactly the positions of the non-stop words, in increasing order |
| LegacySpec.KeptWords | chapter4/search_engine.py:51-54 | the tokens at those positions are exactly the words `words_from_text` keeps, in order |
| LegacySpec.OldPostWordsShape | chapter4/search_engine.py:51-57 | the old loop's tables are those of posting the non-stop words, in order, each at its position among all tokens |
| LegacySpec.IndexTokensAgrees | chapter4/search_engine.py:36-57 | the old `add_to_index` leaves the same tables as the refactored `add_index` on the filtered words, apart from the location column |
| LegacySpec.IndexTokensLocations | chapter4/search_engine.py:51-56 | for a URL that is not indexed, one posting per non-stop word is appended; its location is that word's token position, and its word id names that word |
| LegacySpec.SameButLocationsAgree | chapter4/search_engine.py:74-87 | tables that differ only in locations agree on every URL's indexed status and on consistency |
| LegacySpec.IndexTokensValid | chapter4/search_engine.py:36-57 | the old `add_to_index` keeps the tables consistent |
| LegacySpec.IndexTokensIndexed | chapter4/search_engine.py:37-38 | the old `add_to_index` changes nothing for an indexed URL |
| LegacySpec.IndexTokensTwice | chapter4/search_engine.py:36-57 | a page with a non-stop word ends indexed, and indexing it again changes nothing |
| LegacySpec.IndexTokensOnlyStopWords | chapter4/search_engine.py:36-57 | a page made only of stop words gets a row but no posting, so the old `is_indexed` then returns None |
| LegacySpec.HrefLinks | chapter4/search_engine.py:125-127 | each pair is an anchor of the page with an `href`, and the URL that `href` resolves to |
| LegacySpec.HrefLinksMembers | chapter4/search_engine.py:125-127 | a pair is produced exactly for an anchor with an `href`, with the URL that `href` resolves to |
| LegacySpec.HrefLinksConcat | chapter4/search_engine.py:125-127 | pairs keep document order: those of two runs of anchors are the first run's, then the second's |
| LegacySpec.OldLinkEffect | chapter4/search_engine.py:128-136 | a URL with a quote changes nothing. Any other URL gives both URLs a row, whatever its scheme. It joins `new_pages` exactly when its scheme is http or https and it is not indexed |
| LegacySpec.OldLinkRows | chapter4/search_engine.py:128-136 | a quoted URL writes no row; any other URL writes the rows of `add_link_ref(page, url, ...)` over the anchor's text: for `url == page` no `link` or `link_words` row, otherwise exactly one `link` row (id of the page, id of the URL) and one `link_words` row per word of the anchor text with the new rowid |
| LegacySpec.OldLinkOk | chapter4/search_engine.py:128-136 | one link keeps the tables consistent and `new_pages` duplicate-free and made of valid links |
| LegacySpec.ValidPagesKept | chapter4/search_engine.py:133-134 | a page list that only gains valid links stays made of valid links |
| LegacySpec.OldLinksOk | chapter4/search_engine.py:125-136 | so does the loop over a page's links |
| LegacySpec.OldVisitOk | chapter4/search_engine.py:113-138 | so does one page of a pass |
| LegacySpec.OldVisitFailed | chapter4/search_engine.py:113-120 | a page whose request or `raise_for_status` fails is skipped: the tables and `new_pages` stay as they were |
| LegacySpec.OldVisitsOk | chapter4/search_engine.py:113-138 | so does the loop over the pages of a pass |
| LegacySpec.OldRoundOk | chapter4/search_engine.py:112-140 | so does a whole pass, from any consistent tables |
| LegacySpec.OldCrawlOk | chapter4/search_engine.py:110-140 | the old crawl keeps the tables consistent, and after at least one pass the collected pages are duplicate-free valid links |
| LegacySpec.IndexedPageRevisited | chapter4/search_engine.py:113-136 | the old crawl records the links of a page that is already indexed again, where the refactored crawl skips such a page |
| LegacyExamples.StopWordsKeepTheirPositions | chapter4/search_engine.py:51-56 | "this is a test" on fresh tables posts `this` at 0 and `test` at 3; the stop words get no row |
| LegacyExamples.RowWithoutPostingIsNone | chapter4/search_engine.py:74-87 | a URL with a row but no posting gives None; a URL without a row gives False |
| SearchEngine.Crawler.constructor | chapter4/search_engine.py:16-17 | the crawler keeps the tables and the web it is given |
| SearchEngine.Crawler.GetEntryId | chapter4/search_engine.py:22-34 | the result and new tables are those of `StoreSpec.GetEntryId`; on failure nothing changes |
| SearchEngine.Crawler.IsIndexed | chapter4/search_engine.py:74-87 | the result is the old three-valued `is_indexed` of the current tables |
| SearchEngine.Crawler.AddToIndex | chapter4/search_engine.py:36-57 | the new tables are those of `LegacySpec.AddToIndex` |
| SearchEngine.Crawler.PostTokens | chapter4/search_engine.py:50-57 | the loop that skips stop words and posts the other tokens at their positions leaves the tables of `LegacySpec.OldPostWords` |
| SearchEngine.Crawler.AddLinkRef | chapter4/search_engine.py:89-108 | the old `add_link_ref` stores what the refactored `do_link_ref` stores, and keeps consistency |
| SearchEngine.Crawler.LinkRefTokens | chapter4/search_engine.py:91-108 | on the tokens of the anchor text it stores what `StoreSpec.AddLinkRef` stores for the non-stop words |
| SearchEngine.Crawler.LinkTokens | chapter4/search_engine.py:101-106 | the link-word loop that skips stop words leaves the tables of `StoreSpec.LinkWords` on the non-stop words |
| SearchEngine.Crawler.Crawl | chapter4/search_engine.py:110-140 | the tables after the old `crawl` are those of `LegacySpec.OldCrawl` over `range(depth)` passes, and consistency is kept |
| SearchEngine.Crawler.CrawlPass | chapter4/search_engine.py:112-140 | one iteration of the outer loop leaves the tables and `new_pages` of `LegacySpec.OldRound` |
| SearchEngine.Crawler.CrawlPage | chapter4/search_engine.py:113-138 | one page leaves the tables and `new_pages` of `LegacySpec.OldVisit` |
| SearchEngine.Crawler.CrawlLinks | chapter4/search_engine.py:125-136 | the loop over one page's links leaves the tables and `new_pages` of `LegacySpec.OldLinks` |
| SearchEngine.Crawler.CrawlLink | chapter4/search_engine.py:128-136 | one link leaves the tables and `new_pages` of `LegacySpec.OldLink` |
| Query.Decimal | chapter4/search_engine.py:178-183 | `str(n)` is non-empty and all digits, with no leading zero except for 0 |
| Query.DecimalValueOfDecimal | chapter4/search_engine.py:178-183 | reading back the digits of `n` gives `n` |
| Query.DecimalInjective | chapter4/search_engine.py:181-183 | two ids with the same text are the same id |
| Query.TableOfInjective | chapter4/search_engine.py:178 | two aliases with the same `wordlocation as w<k>` text are the same alias |
| Query.ColumnOfInjective | chapter4/search_engine.py:179 | two aliases with the same `w<k>.location` column are the same alias |
| Query.AliasesDistinct | chapter4/search_engine.py:177-179 | each word id gets an alias of its own: the FROM list names no alias twice, and the SELECT list reads each alias's location once |
| Query.GenQuery | chapter4/search_engine.py:172-189 | the loop over `enumerate(word_ids)` and the three joins give `QueryText(word_ids)` |
| Query.ListsGrow | chapter4/search_engine.py:177-183 | one more word id adds one table, one column and one clause for the new alias |
| Query.JoinSnoc | chapter4/search_engine.py:185-187 | joining one more part appends the separator and the part |
| Query.QueryTextGrows | chapter4/search_engine.py:172-189 | one more word id appends `, w<n>.location`, `, wordlocation as w<n>` and ` AND <clause>` to the three parts of the query |
| Query.OneWord | chapter4/search_engine.py:172-189 | a single id gives `SELECT w0.urlid, w0.location FROM wordlocation as w0 WHERE w0.wordid = 5` |
| Query.TwoWords | chapter4/search_engine.py:172-189 | for two ids, the second alias is joined to the first on the page id |
| Query.NoWords | chapter4/search_engine.py:172-189 | no ids give `SELECT w0.urlid FROM  WHERE `, which is not valid SQL |

## Left out

- HTTP and parsing are not modelled. `get_content` and `requests.get` followed by `BeautifulSoup` are the oracle `Web.fetch`. It gives the same result for a URL each time it is asked. The request timeout (`timeout`, `request_timeout`) is not modelled.
- `urljoin` and `urldefrag` are not defined. They are the parameters `Urls.join` and `Urls.defrag`. PageExamples.LinkPageValidLinks therefore requires that they keep the page's absolute URLs, which have no fragment, as they are. `urlparse` is modelled only for the scheme, and only for a URL that needs no cleaning: Links.Scheme is the scheme rule of Python 3.9 and later applied to the string as given. `urlsplit` first strips leading C0 control characters and spaces and removes every tab, CR and LF, and before Python 3.9 it refused a scheme whose rest is all digits (a port). None of this is modelled, so in the model `IsValidLink(" http://x")` and `IsValidLink("ht\ttp://x")` are false, where Python gives True.
- `\W`, `str.lower` and `str.strip` are modelled on ASCII only. Unicode word characters, case mappings and whitespace are not covered.
- sqlite itself is not modelled: durability, `commit`, the DDL and the `CREATE INDEX` statements, `close` and `__del__`. The row id of a table's `k`-th row is `k`, which holds for tables that are only appended to.
- `SqliteIndex(db_name, init_database=False)` over an existing database is not modelled. A model store always starts empty.
- Logging is not modelled.
- Errors of the store other than the `ValueError` of `get_entry_id` are not modelled. The in-memory tables cannot fail, so the re-raise paths of `do_index` and the exceptions `get_valid_links` could raise are left out.
- The frontier sets (`next_urls`, `new_pages`) are sequences without duplicates, in order of first discovery. Python's set iteration order is not modelled. The legacy crawl's `pages` argument is a sequence of URLs.
- Crawling.Crawler.Crawl, SearchEngine.Crawler.Crawl, Document.TextOnly and Document.OldTextOnly: Python's recursion limit (about 1000 frames) is not modelled. The refactored `crawl` calls itself once per pass, so a large `depth` raises `RecursionError` where the model completes every pass. Both versions of `get_text_only` recurse once per nesting level. On a deeply nested page the refactored `do_index` raises, and `crawl` catches it and skips that URL with no link refs. The old `add_to_index` raises outside its `try`, which ends the whole old crawl. In the model both text functions are total, so such a page is indexed.
- Crawling.Crawler.Crawl: requires `depth >= 1`. For `depth <= 0` the source decrements `depth` past 0 and recurses until Python's recursion limit is hit. That path is not modelled.
- `Searcher.get_word_id`, `get_match_rows` and `get_match_rows_old` are not modelled, nor the `Searcher` connection: they run SQL on a database. `Query.GenQuery` is a method of the module, with word ids as natural numbers.
- chapter2 and chapter3 are not part of this model.
