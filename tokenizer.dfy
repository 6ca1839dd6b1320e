/**
 * The tokenizer of the indexer: `separate_words` (old crawler) and
 * `words_from_text` (refactored crawler).  Text is split with the regular
 * expression `\W+`, empty pieces are dropped, every token is lower-cased and,
 * in `words_from_text`, stop words are taken out.
 */
module Tokenizer {

  /** The stop-word list `IGNORE_WORDS` shared by both crawler versions. */
  const IgnoreWords: seq<string> := ["the", "of", "to", "and", "a", "in", "is", "it"]

  /** A character of the regular-expression class `\w`, restricted to ASCII. */
  predicate IsWordChar(c: char) {
    ('a' <= c <= 'z') || ('A' <= c <= 'Z') || ('0' <= c <= '9') || c == '_'
  }

  predicate AllWordChars(s: string) {
    forall i :: 0 <= i < |s| ==> IsWordChar(s[i])
  }

  predicate NoWordChars(s: string) {
    forall i :: 0 <= i < |s| ==> !IsWordChar(s[i])
  }

  /** `str.lower` on one ASCII character. */
  function LowerChar(c: char): (r: char)
    ensures 'A' <= c <= 'Z' ==> 'a' <= r <= 'z' && r as int - 'a' as int == c as int - 'A' as int
    ensures IsWordChar(r) == IsWordChar(c)
    ensures !('A' <= r <= 'Z')
    ensures 'A' <= c <= 'Z' || r == c
  {
    if 'A' <= c <= 'Z' then (c as int + 32) as char else c
  }

  /** `str.lower`. */
  function Lower(s: string): string {
    seq(|s|, i requires 0 <= i < |s| => LowerChar(s[i]))
  }

  /** What every token produced by the tokenizer looks like. */
  predicate IsToken(w: string) {
    w != [] && AllWordChars(w) && forall i :: 0 <= i < |w| ==> !('A' <= w[i] <= 'Z')
  }

  /** The number of leading word characters of `s`. */
  function WordRun(s: string): (k: nat)
    ensures k <= |s|
    ensures AllWordChars(s[..k])
    ensures k < |s| ==> !IsWordChar(s[k])
  {
    if s == [] || !IsWordChar(s[0]) then 0
    else
      var k := 1 + WordRun(s[1..]);
      assert s[..k] == [s[0]] + s[1..][..k - 1];
      k
  }

  /** The number of leading non-word characters of `s` (one run of `\W+`). */
  function SeparatorRun(s: string): (k: nat)
    ensures k <= |s|
    ensures NoWordChars(s[..k])
    ensures k < |s| ==> IsWordChar(s[k])
  {
    if s == [] || IsWordChar(s[0]) then 0
    else
      var k := 1 + SeparatorRun(s[1..]);
      assert s[..k] == [s[0]] + s[1..][..k - 1];
      k
  }

  /**
   * `re.split(r'\W+', s)`: the pieces between maximal runs of non-word
   * characters, with the empty piece before a leading run and after a
   * trailing run.
   */
  function Split(s: string): (r: seq<string>)
    ensures |r| >= 1
    decreases |s|
  {
    if s == [] then [""]
    else if IsWordChar(s[0]) then
      var rest := Split(s[1..]);
      [[s[0]] + rest[0]] + rest[1..]
    else
      [""] + Split(s[SeparatorRun(s)..])
  }

  /** The pieces that are not empty, in order (`if s != ''`). */
  function NonEmpty(pieces: seq<string>): (r: seq<string>)
    ensures forall i :: 0 <= i < |r| ==> r[i] != [] && r[i] in pieces
  {
    if pieces == [] then []
    else (if pieces[0] == "" then [] else [pieces[0]]) + NonEmpty(pieces[1..])
  }

  /** Every piece lower-cased. */
  function LowerAll(pieces: seq<string>): seq<string> {
    seq(|pieces|, i requires 0 <= i < |pieces| => Lower(pieces[i]))
  }

  /**
   * The maximal runs of word characters of `s`, in text order: an
   * independent, scanning definition of the non-empty pieces of `Split`.
   */
  function Fragments(s: string): (r: seq<string>)
    ensures forall i :: 0 <= i < |r| ==> r[i] != [] && AllWordChars(r[i])
    decreases |s|
  {
    if s == [] then []
    else if !IsWordChar(s[0]) then Fragments(s[1..])
    else
      var k := WordRun(s);
      [s[..k]] + Fragments(s[k..])
  }

  /** The tokens of `text` where `text` contains no word character at all. */
  lemma {:induction false} FragmentsOfSeparators(s: string)
    requires NoWordChars(s)
    ensures Fragments(s) == []
    decreases |s|
  {
    if s != [] {
      assert !IsWordChar(s[0]);
      FragmentsOfSeparators(s[1..]);
    }
  }

  /** A text that is one run of word characters is one fragment. */
  lemma FragmentsOfWord(s: string)
    requires s != [] && AllWordChars(s)
    ensures Fragments(s) == [s]
  {
    var k := WordRun(s);
    assert k == |s|;
    assert s[..k] == s;
    assert s[k..] == [];
  }

  /** Fragments may start only after the leading run of separators. */
  lemma {:induction false} FragmentsSkipSeparators(s: string, k: nat)
    requires k <= |s| && NoWordChars(s[..k])
    ensures Fragments(s) == Fragments(s[k..])
    decreases k
  {
    if k > 0 {
      assert !IsWordChar(s[..k][0]);
      assert s[1..][..k - 1] == s[..k][1..];
      FragmentsSkipSeparators(s[1..], k - 1);
      assert s[1..][k - 1..] == s[k..];
    }
  }

  /**
   * The first piece of `Split(s)` is the leading word run and the non-empty
   * pieces after it are the fragments of the remainder.
   */
  lemma {:induction false} SplitShape(s: string)
    ensures Split(s)[0] == s[..WordRun(s)]
    ensures NonEmpty(Split(s)[1..]) == Fragments(s[WordRun(s)..])
    decreases |s|, 0
  {
    if s == [] {
    } else if IsWordChar(s[0]) {
      SplitShape(s[1..]);
      assert s[..WordRun(s)] == [s[0]] + s[1..][..WordRun(s[1..])];
      assert s[WordRun(s)..] == s[1..][WordRun(s[1..])..];
    } else {
      var t := s[SeparatorRun(s)..];
      SplitFragments(t);
      FragmentsSkipSeparators(s, SeparatorRun(s));
      assert Split(s)[1..] == Split(t);
    }
  }

  /** The non-empty pieces of `re.split(r'\W+', s)` are exactly the word runs of `s`. */
  lemma {:induction false} SplitFragments(s: string)
    ensures NonEmpty(Split(s)) == Fragments(s)
    decreases |s|, 1
  {
    SplitShape(s);
    var r := Split(s);
    var k := WordRun(s);
    assert r == [r[0]] + r[1..];
    NonEmptyConcat([r[0]], r[1..]);
    if s != [] && !IsWordChar(s[0]) {
      assert k == 0;
      FragmentsSkipSeparators(s, 1);
    }
  }

  lemma {:induction false} NonEmptyConcat(a: seq<string>, b: seq<string>)
    ensures NonEmpty(a + b) == NonEmpty(a) + NonEmpty(b)
    decreases |a|
  {
    if a != [] {
      assert (a + b)[0] == a[0];
      assert (a + b)[1..] == a[1..] + b;
      NonEmptyConcat(a[1..], b);
    } else {
      assert a + b == b;
    }
  }

  /**
   * A separator character splits the tokens: the fragments of `a + [c] + b`
   * are those of `a` followed by those of `b`.
   */
  lemma {:induction false} FragmentsAtSeparator(a: string, c: char, b: string)
    requires !IsWordChar(c)
    ensures Fragments(a + [c] + b) == Fragments(a) + Fragments(b)
    decreases |a|
  {
    var s := a + [c] + b;
    if a == [] {
      assert s[1..] == b;
    } else if !IsWordChar(a[0]) {
      assert s[1..] == a[1..] + [c] + b;
      FragmentsAtSeparator(a[1..], c, b);
    } else {
      var k := WordRun(a);
      WordRunExtends(a, c, b);
      assert s[..k] == a[..k];
      assert s[k..] == a[k..] + [c] + b;
      FragmentsAtSeparator(a[k..], c, b);
    }
  }

  lemma {:induction false} WordRunExtends(a: string, c: char, b: string)
    requires !IsWordChar(c)
    ensures WordRun(a + [c] + b) == WordRun(a)
    decreases |a|
  {
    var s := a + [c] + b;
    if a != [] && IsWordChar(a[0]) {
      assert s[1..] == a[1..] + [c] + b;
      WordRunExtends(a[1..], c, b);
    }
  }

  /** A non-empty run of separators splits the tokens, whatever its length. */
  lemma {:induction false} FragmentsAtSeparators(a: string, sep: string, b: string)
    requires sep != [] && NoWordChars(sep)
    ensures Fragments(a + sep + b) == Fragments(a) + Fragments(b)
    decreases |sep|
  {
    assert a + sep + b == a + [sep[0]] + (sep[1..] + b);
    FragmentsAtSeparator(a, sep[0], sep[1..] + b);
    if sep[1..] != [] {
      assert [] + sep[1..] + b == sep[1..] + b;
      FragmentsAtSeparators([], sep[1..], b);
      assert Fragments([]) == [];
    } else {
      assert sep[1..] + b == b;
    }
  }

  /** Separators before and after a text contribute no tokens. */
  lemma FragmentsIgnoreBorders(pre: string, s: string, post: string)
    requires NoWordChars(pre) && NoWordChars(post)
    ensures Fragments(pre + s + post) == Fragments(s)
  {
    assert pre + s + post == pre + (s + post);
    if pre != [] {
      assert [] + pre + (s + post) == pre + (s + post);
      FragmentsAtSeparators([], pre, s + post);
    } else {
      assert pre + (s + post) == s + post;
    }
    assert Fragments(pre + s + post) == Fragments(s + post);
    if post != [] {
      assert s + post + [] == s + post;
      FragmentsAtSeparators(s, post, []);
    } else {
      assert s + post == s;
    }
  }

  /** `separate_words`: `[s.lower() for s in re.split(r'\W+', text) if s != '']`. */
  function SeparateWords(text: string): (r: seq<string>)
    ensures r == LowerAll(Fragments(text))
    ensures forall i :: 0 <= i < |r| ==> IsToken(r[i])
  {
    SplitFragments(text);
    LowerAll(NonEmpty(Split(text)))
  }

  lemma LowerAllConcat(a: seq<string>, b: seq<string>)
    ensures LowerAll(a + b) == LowerAll(a) + LowerAll(b)
  {
  }

  /** The words of two texts joined by a separator are the words of each text, in order. */
  lemma SeparateWordsAtSeparators(a: string, sep: string, b: string)
    requires sep != [] && NoWordChars(sep)
    ensures SeparateWords(a + sep + b) == SeparateWords(a) + SeparateWords(b)
  {
    FragmentsAtSeparators(a, sep, b);
    LowerAllConcat(Fragments(a), Fragments(b));
  }

  /** The elements of `ws` that are not in `ignore`, in order. */
  function Without(ws: seq<string>, ignore: set<string>): (r: seq<string>)
    ensures |r| <= |ws|
  {
    if ws == [] then []
    else (if ws[0] in ignore then [] else [ws[0]]) + Without(ws[1..], ignore)
  }

  /** A word survives `Without` exactly when it occurs and is not ignored. */
  lemma {:induction false} WithoutMembers(ws: seq<string>, ignore: set<string>)
    ensures forall w :: w in Without(ws, ignore) <==> w in ws && w !in ignore
    decreases |ws|
  {
    if ws != [] {
      WithoutMembers(ws[1..], ignore);
      assert ws == [ws[0]] + ws[1..];
    }
  }

  lemma {:induction false} WithoutConcat(a: seq<string>, b: seq<string>, ignore: set<string>)
    ensures Without(a + b, ignore) == Without(a, ignore) + Without(b, ignore)
    decreases |a|
  {
    if a != [] {
      assert (a + b)[0] == a[0];
      assert (a + b)[1..] == a[1..] + b;
      WithoutConcat(a[1..], b, ignore);
    } else {
      assert a + b == b;
    }
  }

  /** Python's `set(ignore_words)`. */
  function AsSet(ws: seq<string>): set<string> {
    set w | w in ws
  }

  /**
   * `words_from_text(text, ignore_words)`: the tokens of `text` in order, none
   * of them in `ignore_words`; a caller's list replaces the default one.
   */
  function WordsFromText(text: string, ignoreWords: seq<string>): (r: seq<string>)
    ensures forall i :: 0 <= i < |r| ==> IsToken(r[i]) && r[i] !in ignoreWords
  {
    var words := SeparateWords(text);
    var r := Without(words, AsSet(ignoreWords));
    WithoutMembers(words, AsSet(ignoreWords));
    assert forall i :: 0 <= i < |r| ==> r[i] in words;
    r
  }

  /** A word is kept by `words_from_text` exactly when it is a token of the text and not ignored. */
  lemma WordsFromTextMembers(text: string, ignoreWords: seq<string>, w: string)
    ensures w in WordsFromText(text, ignoreWords) <==> w in SeparateWords(text) && w !in ignoreWords
  {
    WithoutMembers(SeparateWords(text), AsSet(ignoreWords));
  }

  /** The tokens of `a + sep + b` are those of `a` followed by those of `b`. */
  lemma WordsFromTextAtSeparators(a: string, sep: string, b: string, ignoreWords: seq<string>)
    requires sep != [] && NoWordChars(sep)
    ensures WordsFromText(a + sep + b, ignoreWords)
         == WordsFromText(a, ignoreWords) + WordsFromText(b, ignoreWords)
  {
    SeparateWordsAtSeparators(a, sep, b);
    WithoutConcat(SeparateWords(a), SeparateWords(b), AsSet(ignoreWords));
  }
}
