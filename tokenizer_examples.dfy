/**
 * The tokenizer on the sentences of the unit tests of `words_from_text`.
 * A test sentence is written `Joined(ws, seps)`: the words `ws` with the
 * separator characters `seps` between them, so that the proofs unfold the
 * recursive definitions only as far as their own steps say.
 */
module TokenizerExamples {
  import opened Tokenizer

  /** `ws[0] + [seps[0]] + ws[1] + ... + ws[|ws| - 1]`. */
  function Joined(ws: seq<string>, seps: string): string
    requires |seps| + 1 == |ws|
  {
    if |ws| == 1 then ws[0] else ws[0] + [seps[0]] + Joined(ws[1..], seps[1..])
  }

  predicate AllWords(ws: seq<string>) {
    forall i :: 0 <= i < |ws| ==> ws[i] != [] && AllWordChars(ws[i])
  }

  /** Words joined by separators are split back into exactly those words. */
  lemma {:induction false} FragmentsOfJoined(ws: seq<string>, seps: string)
    requires |seps| + 1 == |ws| && AllWords(ws) && NoWordChars(seps)
    ensures Fragments(Joined(ws, seps)) == ws
    decreases |ws|
  {
    if |ws| == 1 {
      FragmentsOfWord(ws[0]);
    } else {
      FragmentsOfJoined(ws[1..], seps[1..]);
      FragmentsAtSeparator(ws[0], seps[0], Joined(ws[1..], seps[1..]));
      FragmentsOfWord(ws[0]);
    }
  }

  lemma DefaultStopWord(w: string)
    requires w in {"is", "a"}
    ensures w in AsSet(IgnoreWords)
  {
  }

  lemma NotDefaultStopWord(w: string)
    requires w in {"this", "fully", "functional", "machine", "name", "money", "all", "lower", "words", "sentence"}
    ensures w !in AsSet(IgnoreWords)
  {
  }

  lemma WithoutStep(w: string, rest: seq<string>, ignore: set<string>)
    ensures Without([w] + rest, ignore) == (if w in ignore then [] else [w]) + Without(rest, ignore)
  {
    assert ([w] + rest)[1..] == rest;
  }

  /** The example sentences in lower case: only the capital T changes. */
  lemma LowerFirstCapital(ws: seq<string>, lowered: seq<string>)
    requires |ws| == |lowered| && |ws| > 0 && |ws[0]| > 0
    requires ws[0][0] == 'T' && lowered[0] == ['t'] + ws[0][1..]
    requires forall i :: 0 <= i < |ws| ==> forall j :: 0 <= j < |ws[i]| && (i, j) != (0, 0) ==> 'a' <= ws[i][j] <= 'z'
    requires forall i :: 1 <= i < |ws| ==> lowered[i] == ws[i]
    ensures LowerAll(ws) == lowered
  {
    forall i | 0 <= i < |ws| ensures Lower(ws[i]) == lowered[i] {
      assert |Lower(ws[i])| == |lowered[i]|;
      forall j | 0 <= j < |ws[i]| ensures Lower(ws[i])[j] == lowered[i][j] {
        if i == 0 && j > 0 {
          assert lowered[0][j] == ws[0][j];
        }
      }
    }
  }

  /** Nothing is dropped from a list that holds no ignored word. */
  lemma {:induction false} WithoutKeeps(ws: seq<string>, ignore: set<string>)
    requires forall i :: 0 <= i < |ws| ==> ws[i] !in ignore
    ensures Without(ws, ignore) == ws
    decreases |ws|
  {
    if ws != [] {
      WithoutKeeps(ws[1..], ignore);
    }
  }

  /** `Without` on a list whose second element alone is ignored. */
  lemma WithoutDropsSecond(ws: seq<string>, ignore: set<string>)
    requires |ws| >= 2 && ws[0] !in ignore && ws[1] in ignore
    requires forall i | 2 <= i < |ws| :: ws[i] !in ignore
    ensures Without(ws, ignore) == [ws[0]] + ws[2..]
  {
    WithoutKeeps(ws[2..], ignore);
    assert ws[1..][1..] == ws[2..];
  }

  /** The lower-cased words of the two example sentences. */
  lemma LowerExampleSentences()
    ensures LowerAll(["This", "is", "fully", "functional", "machine", "name", "money"])
         == ["this", "is", "fully", "functional", "machine", "name", "money"]
    ensures LowerAll(["This", "is", "a", "all", "lower", "words", "sentence"])
         == ["this", "is", "a", "all", "lower", "words", "sentence"]
  {
    LowerFirstCapital(["This", "is", "fully", "functional", "machine", "name", "money"],
                      ["this", "is", "fully", "functional", "machine", "name", "money"]);
    LowerFirstCapital(["This", "is", "a", "all", "lower", "words", "sentence"],
                      ["this", "is", "a", "all", "lower", "words", "sentence"]);
  }

  lemma StopWordsOfMixedSeparators(lowered: seq<string>)
    requires lowered == ["this", "is", "fully", "functional", "machine", "name", "money"]
    ensures Without(lowered, AsSet(IgnoreWords)) == ["this", "fully", "functional", "machine", "name", "money"]
  {
    var ig := AsSet(IgnoreWords);
    assert "is" in ig;
    forall i | 0 <= i < 7 && i != 1 ensures lowered[i] !in ig {
      NotDefaultStopWord(lowered[i]);
    }
    WithoutDropsSecond(lowered, ig);
  }

  /**
   * "This is fully-functional machine^name$money" with the default stop words:
   * hyphen, caret and dollar separate words as blanks do, and "is" is dropped.
   */
  lemma SeparatedByNonWordCharacters(ws: seq<string>, seps: string)
    requires ws == ["This", "is", "fully", "functional", "machine", "name", "money"]
    requires seps == "  - ^$"
    ensures WordsFromText(Joined(ws, seps), IgnoreWords)
         == ["this", "fully", "functional", "machine", "name", "money"]
  {
    FragmentsOfJoined(ws, seps);
    var lowered := ["this", "is", "fully", "functional", "machine", "name", "money"];
    LowerExampleSentences();
    assert SeparateWords(Joined(ws, seps)) == lowered;
    StopWordsOfMixedSeparators(lowered);
  }

  lemma CustomIgnoreList(ws: seq<string>)
    requires ws == ["john", "is", "a", "handsome", "guy"]
    ensures Without(ws, AsSet(["handsome"])) == ["john", "is", "a", "guy"]
  {
    var ig := AsSet(["handsome"]);
    assert ws[4..] == ["guy"];
    WithoutKeeps(ws[4..], ig);
    assert ws[3..][1..] == ws[4..];
    WithoutKeeps(ws[..3], ig);
    assert ws == ws[..3] + ws[3..];
    WithoutConcat(ws[..3], ws[3..], ig);
  }

  /**
   * "john is a handsome guy" with the caller's list ["handsome"]: the list
   * replaces the default one, so "is" and "a" survive.
   */
  lemma CustomIgnoreWordsReplaceDefault(ws: seq<string>, seps: string)
    requires ws == ["john", "is", "a", "handsome", "guy"]
    requires seps == "    "
    ensures WordsFromText(Joined(ws, seps), ["handsome"]) == ["john", "is", "a", "guy"]
  {
    FragmentsOfJoined(ws, seps);
    assert forall i | 0 <= i < 5 :: Lower(ws[i]) == ws[i];
    assert LowerAll(ws) == ws;
    CustomIgnoreList(ws);
  }

  lemma StopWordsOfLowerWords(lowered: seq<string>)
    requires lowered == ["this", "is", "a", "all", "lower", "words", "sentence"]
    ensures Without(lowered, AsSet(IgnoreWords)) == ["this", "all", "lower", "words", "sentence"]
  {
    var ig := AsSet(IgnoreWords);
    DefaultStopWord(lowered[1]);
    DefaultStopWord(lowered[2]);
    forall i | 0 <= i < 7 && i != 1 && i != 2 ensures lowered[i] !in ig {
      NotDefaultStopWord(lowered[i]);
    }
    WithoutKeeps(lowered[3..], ig);
    assert lowered[2..][1..] == lowered[3..];
    assert Without(lowered[2..], ig) == lowered[3..];
    assert lowered[1..][1..] == lowered[2..];
    assert Without(lowered[1..], ig) == lowered[3..];
    assert [lowered[0]] + lowered[3..] == ["this", "all", "lower", "words", "sentence"];
  }

  /**
   * "This is a all lower words sentence." with the default stop words: the
   * final full stop ends the last word, and "is" and "a" are dropped.
   */
  lemma DefaultStopWordsDropped(ws: seq<string>, seps: string)
    requires ws == ["This", "is", "a", "all", "lower", "words", "sentence"]
    requires seps == "      "
    ensures WordsFromText(Joined(ws, seps) + ".", IgnoreWords)
         == ["this", "all", "lower", "words", "sentence"]
  {
    var t := Joined(ws, seps);
    FragmentsOfJoined(ws, seps);
    assert t + "." == t + ['.'] + [];
    FragmentsAtSeparator(t, '.', []);
    var lowered := ["this", "is", "a", "all", "lower", "words", "sentence"];
    LowerExampleSentences();
    assert SeparateWords(t + ".") == lowered;
    StopWordsOfLowerWords(lowered);
  }
}
