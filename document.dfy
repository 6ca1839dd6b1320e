/**
 * The parsed document as the indexer sees it, and `get_text_only` in both
 * crawler versions.  A document is a tree of text nodes and tags; the HTML
 * parser that builds it is not part of this model.
 */
module Document {
  import opened Wrappers
  import opened Tokenizer

  /** A text node, or a tag with its attributes and its children in document order. */
  datatype Node =
    | Text(text: string)
    | Tag(name: string, attrs: map<string, string>, children: seq<Node>)

  /**
   * The parser's `.string`: a text node's own text; for a tag with exactly
   * one child, that child's `.string`; for any other tag, None.
   */
  function StringOf(n: Node): Option<string> {
    match n
    case Text(s) => Some(s)
    case Tag(_, _, cs) => if |cs| == 1 then StringOf(cs[0]) else None
  }

  /** The whitespace that `str.strip` removes, restricted to ASCII. */
  predicate IsSpace(c: char) {
    c == ' ' || ('\t' <= c <= '\r') || ((28 as char) <= c <= (31 as char))
  }

  predicate AllSpace(s: string) {
    forall i :: 0 <= i < |s| ==> IsSpace(s[i])
  }

  /** A string with no whitespace at either end. */
  predicate IsStripped(s: string) {
    s == [] || (!IsSpace(s[0]) && !IsSpace(s[|s| - 1]))
  }

  lemma SpaceIsSeparator(s: string)
    requires AllSpace(s)
    ensures NoWordChars(s)
  {
  }

  function LeadingSpaces(s: string): (k: nat)
    ensures k <= |s|
    ensures forall i :: 0 <= i < k ==> IsSpace(s[i])
    ensures k < |s| ==> !IsSpace(s[k])
  {
    if s == [] || !IsSpace(s[0]) then 0
    else 1 + LeadingSpaces(s[1..])
  }

  function TrailingSpaces(s: string): (k: nat)
    ensures k <= |s|
    ensures forall i :: |s| - k <= i < |s| ==> IsSpace(s[i])
    ensures k < |s| ==> !IsSpace(s[|s| - 1 - k])
  {
    if s == [] || !IsSpace(s[|s| - 1]) then 0
    else
      var init := s[..|s| - 1];
      assert forall i :: 0 <= i < |init| ==> init[i] == s[i];
      1 + TrailingSpaces(init)
  }

  /** `str.strip()`: `s` without its leading and trailing whitespace. */
  function Strip(s: string): (r: string)
    ensures IsStripped(r)
  {
    var lo := LeadingSpaces(s);
    if lo == |s| then []
    else
      var hi := |s| - TrailingSpaces(s);
      assert lo < hi;
      s[lo..hi]
  }

  /** What `strip` keeps is a contiguous part of `s`, and only whitespace is cut. */
  lemma StripCutsSpace(s: string)
    ensures exists lo, hi :: 0 <= lo <= hi <= |s| && Strip(s) == s[lo..hi] && AllSpace(s[..lo]) && AllSpace(s[hi..])
  {
    var lo := LeadingSpaces(s);
    if lo == |s| {
      assert s[..lo] == s && s[lo..lo] == [] && s[lo..] == [];
      assert Strip(s) == s[lo..lo];
    } else {
      var hi := |s| - TrailingSpaces(s);
      assert AllSpace(s[..lo]) by {
        forall i | 0 <= i < lo ensures IsSpace(s[..lo][i]) {
          assert s[..lo][i] == s[i];
        }
      }
      assert AllSpace(s[hi..]) by {
        forall i | 0 <= i < |s| - hi ensures IsSpace(s[hi..][i]) {
          assert s[hi..][i] == s[hi + i];
        }
      }
      assert Strip(s) == s[lo..hi];
    }
  }

  /** Stripping never changes the words of a text. */
  lemma StripFragments(s: string)
    ensures Fragments(Strip(s)) == Fragments(s)
  {
    StripCutsSpace(s);
    var lo, hi :| 0 <= lo <= hi <= |s| && Strip(s) == s[lo..hi] && AllSpace(s[..lo]) && AllSpace(s[hi..]);
    SpaceBordersDropped(s, lo, hi);
  }

  /** Cutting whitespace off both ends of a text keeps its words. */
  lemma SpaceBordersDropped(s: string, lo: nat, hi: nat)
    requires lo <= hi <= |s| && AllSpace(s[..lo]) && AllSpace(s[hi..])
    ensures Fragments(s[lo..hi]) == Fragments(s)
  {
    assert s == s[..lo] + s[lo..hi] + s[hi..];
    SpaceIsSeparator(s[..lo]);
    SpaceIsSeparator(s[hi..]);
    FragmentsIgnoreBorders(s[..lo], s[lo..hi], s[hi..]);
  }

  lemma {:induction false} LeadingSpacesOf(pre: string, s: string)
    requires AllSpace(pre) && s != [] && !IsSpace(s[0])
    ensures LeadingSpaces(pre + s) == |pre|
    decreases |pre|
  {
    if pre != [] {
      assert (pre + s)[1..] == pre[1..] + s;
      LeadingSpacesOf(pre[1..], s);
    }
  }

  lemma {:induction false} TrailingSpacesOf(s: string, post: string)
    requires AllSpace(post) && s != [] && !IsSpace(s[|s| - 1])
    ensures TrailingSpaces(s + post) == |post|
    decreases |post|
  {
    if post != [] {
      var init := post[..|post| - 1];
      assert (s + post)[..|s + post| - 1] == s + init;
      TrailingSpacesOf(s, init);
    }
  }

  /** `strip` cuts exactly the whitespace around a text that has none at its ends. */
  lemma StripSurrounded(pre: string, s: string, post: string)
    requires AllSpace(pre) && AllSpace(post) && IsStripped(s)
    ensures Strip(pre + s + post) == s
  {
    var t := pre + s + post;
    if s == [] {
      assert AllSpace(t) by {
        forall i | 0 <= i < |t| ensures IsSpace(t[i]) {
          if i >= |pre| {
            assert t[i] == post[i - |pre|];
          }
        }
      }
      AllSpaceStripped(t);
    } else {
      assert pre + s + post == pre + (s + post);
      LeadingSpacesOf(pre, s + post);
      TrailingSpacesOf(pre + s, post);
      assert t[|pre|..|t| - |post|] == s;
    }
  }

  lemma {:induction false} AllSpaceStripped(s: string)
    requires AllSpace(s)
    ensures LeadingSpaces(s) == |s| && Strip(s) == []
    decreases |s|
  {
    if s != [] {
      AllSpaceStripped(s[1..]);
    }
  }

  /** A stripped string is left as it is: `strip` is idempotent. */
  lemma StripStripped(s: string)
    requires IsStripped(s)
    ensures Strip(s) == s
  {
    if s != [] {
      assert LeadingSpaces(s) == 0;
      assert TrailingSpaces(s) == 0;
      assert s[0..|s|] == s;
    }
  }

  /**
   * `get_text_only` of the refactored crawler: a node with a `.string`
   * gives it stripped; otherwise the non-empty texts of the children, each
   * followed by a newline, stripped as a whole.
   */
  function TextOnly(n: Node): (r: string)
    ensures IsStripped(r)
    decreases n, 1
  {
    match StringOf(n)
    case Some(s) => Strip(s)
    case None => Strip(ChildText(n.children))
  }

  /** The loop `res_text += sub_text + '\n' if sub_text else ''` over the children. */
  function ChildText(cs: seq<Node>): string
    decreases cs, 0
  {
    if cs == [] then ""
    else
      var sub := TextOnly(cs[0]);
      (if sub != "" then sub + "\n" else "") + ChildText(cs[1..])
  }

  /**
   * `get_text_only` of the old crawler: the same recursion, but every
   * child's text is followed by a newline, empty or not, and the result of a
   * node without a `.string` is not stripped.
   */
  function OldTextOnly(n: Node): string
    decreases n, 1
  {
    match StringOf(n)
    case Some(s) => Strip(s)
    case None => OldChildText(n.children)
  }

  function OldChildText(cs: seq<Node>): string
    decreases cs, 0
  {
    if cs == [] then "" else OldTextOnly(cs[0]) + "\n" + OldChildText(cs[1..])
  }

  /** The text nodes of a document, in document order. */
  function Leaves(n: Node): seq<string>
    decreases n, 1
  {
    match n
    case Text(s) => [s]
    case Tag(_, _, cs) => ChildLeaves(cs)
  }

  function ChildLeaves(cs: seq<Node>): seq<string>
    decreases cs, 0
  {
    if cs == [] then [] else Leaves(cs[0]) + ChildLeaves(cs[1..])
  }

  /** The words of every text, one text after the other. */
  function FragmentsOfAll(texts: seq<string>): seq<string> {
    if texts == [] then [] else Fragments(texts[0]) + FragmentsOfAll(texts[1..])
  }

  lemma {:induction false} FragmentsOfAllConcat(a: seq<string>, b: seq<string>)
    ensures FragmentsOfAll(a + b) == FragmentsOfAll(a) + FragmentsOfAll(b)
    decreases |a|
  {
    if a == [] {
      assert a + b == b;
    } else {
      assert (a + b)[0] == a[0];
      assert (a + b)[1..] == a[1..] + b;
      FragmentsOfAllConcat(a[1..], b);
    }
  }

  /** A node that has a `.string` is a chain of single children ending in that text. */
  lemma {:induction false} StringOfLeaves(n: Node, s: string)
    requires StringOf(n) == Some(s)
    ensures Leaves(n) == [s]
    decreases n
  {
    match n
    case Text(_) =>
    case Tag(_, _, cs) =>
      StringOfLeaves(cs[0], s);
      assert cs[1..] == [];
      assert Leaves(n) == Leaves(cs[0]) + ChildLeaves(cs[1..]);
  }

  /**
   * The words of `get_text_only(n)` are the words of the document's text
   * nodes, in document order: the newlines and the stripping that the
   * flattening adds never merge, split, lose or invent a word.
   */
  lemma {:induction false} TextOnlyFragments(n: Node)
    ensures Fragments(TextOnly(n)) == FragmentsOfAll(Leaves(n))
    decreases n, 1
  {
    match StringOf(n)
    case Some(s) =>
      StripFragments(s);
      StringOfLeaves(n, s);
      assert FragmentsOfAll([s]) == Fragments(s) + FragmentsOfAll([]);
    case None =>
      StripFragments(ChildText(n.children));
      ChildTextFragments(n.children);
  }

  lemma {:induction false} ChildTextFragments(cs: seq<Node>)
    ensures Fragments(ChildText(cs)) == FragmentsOfAll(ChildLeaves(cs))
    decreases cs, 0
  {
    if cs != [] {
      var sub := TextOnly(cs[0]);
      TextOnlyFragments(cs[0]);
      ChildTextFragments(cs[1..]);
      FragmentsOfAllConcat(Leaves(cs[0]), ChildLeaves(cs[1..]));
      if sub != "" {
        assert sub + "\n" + ChildText(cs[1..]) == sub + ['\n'] + ChildText(cs[1..]);
        FragmentsAtSeparator(sub, '\n', ChildText(cs[1..]));
      } else {
        assert "" + ChildText(cs[1..]) == ChildText(cs[1..]);
        assert Fragments(sub) == [];
      }
    }
  }

  /** The same holds of the old crawler's `get_text_only`. */
  lemma {:induction false} OldTextOnlyFragments(n: Node)
    ensures Fragments(OldTextOnly(n)) == FragmentsOfAll(Leaves(n))
    decreases n, 1
  {
    match StringOf(n)
    case Some(s) =>
      StripFragments(s);
      StringOfLeaves(n, s);
      assert FragmentsOfAll([s]) == Fragments(s) + FragmentsOfAll([]);
    case None =>
      OldChildTextFragments(n.children);
  }

  lemma {:induction false} OldChildTextFragments(cs: seq<Node>)
    ensures Fragments(OldChildText(cs)) == FragmentsOfAll(ChildLeaves(cs))
    decreases cs, 0
  {
    if cs != [] {
      var sub := OldTextOnly(cs[0]);
      OldTextOnlyFragments(cs[0]);
      OldChildTextFragments(cs[1..]);
      FragmentsOfAllConcat(Leaves(cs[0]), ChildLeaves(cs[1..]));
      FragmentsAtSeparator(sub, '\n', OldChildText(cs[1..]));
    }
  }

  /** Both versions of `get_text_only` yield the same words. */
  lemma SameWordsBothVersions(n: Node)
    ensures SeparateWords(OldTextOnly(n)) == SeparateWords(TextOnly(n))
  {
    TextOnlyFragments(n);
    OldTextOnlyFragments(n);
  }

  /** A child's text followed by its newline, stripped, is the child's text again. */
  lemma OneChildText(x: Node)
    ensures Strip(ChildText([x])) == TextOnly(x)
  {
    var t := TextOnly(x);
    assert [x][1..] == [];
    if t != "" {
      assert ChildText([x]) == "" + t + "\n";
      StripSurrounded("", t, "\n");
    }
  }

  /** A tag with a single child has that child's text. */
  lemma OneChild(name: string, attrs: map<string, string>, x: Node)
    ensures TextOnly(Tag(name, attrs, [x])) == TextOnly(x)
  {
    OneChildText(x);
    match StringOf(x)
    case Some(s) =>
    case None =>
  }

  /**
   * Whatever the number of children, a tag's text is its children's
   * texts, each followed by a newline, stripped as a whole.  For a single
   * child the `.string` shortcut gives the same result.
   */
  lemma TagText(name: string, attrs: map<string, string>, cs: seq<Node>)
    ensures TextOnly(Tag(name, attrs, cs)) == Strip(ChildText(cs))
  {
    if |cs| == 1 {
      assert cs == [cs[0]];
      OneChild(name, attrs, cs[0]);
      OneChildText(cs[0]);
    }
  }

  /** A child whose text is empty contributes nothing: removing it leaves `get_text_only` as it was. */
  lemma EmptyChildIgnored(name: string, attrs: map<string, string>, before: seq<Node>, c: Node, after: seq<Node>)
    requires TextOnly(c) == ""
    ensures TextOnly(Tag(name, attrs, before + [c] + after)) == TextOnly(Tag(name, attrs, before + after))
  {
    EmptyChildText(before, c, after);
    TagText(name, attrs, before + [c] + after);
    TagText(name, attrs, before + after);
  }

  lemma EmptyChildText(before: seq<Node>, c: Node, after: seq<Node>)
    requires TextOnly(c) == ""
    ensures ChildText(before + [c] + after) == ChildText(before + after)
  {
    assert ChildText([c]) == "" by {
      assert [c][1..] == [];
    }
    calc {
      ChildText(before + [c] + after);
    == { assert before + [c] + after == before + ([c] + after); }
      ChildText(before + ([c] + after));
    == { ChildTextConcat(before, [c] + after); }
      ChildText(before) + ChildText([c] + after);
    == { ChildTextConcat([c], after); assert "" + ChildText(after) == ChildText(after); }
      ChildText(before) + ChildText(after);
    == { ChildTextConcat(before, after); }
      ChildText(before + after);
    }
  }

  lemma {:induction false} ChildTextConcat(a: seq<Node>, b: seq<Node>)
    ensures ChildText(a + b) == ChildText(a) + ChildText(b)
    decreases |a|
  {
    if a == [] {
      assert a + b == b;
    } else {
      assert (a + b)[0] == a[0];
      assert (a + b)[1..] == a[1..] + b;
      ChildTextConcat(a[1..], b);
    }
  }

  /**
   * `soup('a')`: every descendant tag named `a`, in document order (an
   * anchor inside an anchor is found too).
   */
  function Anchors(n: Node): (r: seq<Node>)
    ensures forall i :: 0 <= i < |r| ==> r[i].Tag? && r[i].name == "a"
    decreases n, 1
  {
    match n
    case Text(_) => []
    case Tag(_, _, cs) => ChildAnchors(cs)
  }

  function ChildAnchors(cs: seq<Node>): (r: seq<Node>)
    ensures forall i :: 0 <= i < |r| ==> r[i].Tag? && r[i].name == "a"
    decreases cs, 0
  {
    if cs == [] then []
    else
      var c := cs[0];
      (if c.Tag? && c.name == "a" then [c] else []) + Anchors(c) + ChildAnchors(cs[1..])
  }

  /** The anchors under two runs of children are those under the first run, then those under the second. */
  lemma {:induction false} ChildAnchorsConcat(a: seq<Node>, b: seq<Node>)
    ensures ChildAnchors(a + b) == ChildAnchors(a) + ChildAnchors(b)
    decreases |a|
  {
    if a == [] {
      assert a + b == b;
    } else {
      assert (a + b)[0] == a[0];
      assert (a + b)[1..] == a[1..] + b;
      ChildAnchorsConcat(a[1..], b);
    }
  }

  /**
   * The children the HTML parser keeps for markup laid out on several
   * lines: the elements `xs`, with the whitespace text `ws[k]` before
   * element `k` and `ws[|xs|]` after the last one.
   */
  function Spaced(ws: seq<string>, xs: seq<Node>): seq<Node>
    requires |ws| == |xs| + 1
    decreases |xs|
  {
    if xs == [] then [Text(ws[0])]
    else [Text(ws[0])] + ([xs[0]] + Spaced(ws[1..], xs[1..]))
  }

  /** Layout whitespace between the elements adds no text. */
  lemma {:induction false} SpacedChildText(ws: seq<string>, xs: seq<Node>)
    requires |ws| == |xs| + 1 && forall k :: 0 <= k < |ws| ==> AllSpace(ws[k])
    ensures ChildText(Spaced(ws, xs)) == ChildText(xs)
    decreases |xs|
  {
    AllSpaceStripped(ws[0]);
    assert [Text(ws[0])][1..] == [];
    assert ChildText([Text(ws[0])]) == "";
    if xs == [] {
    } else {
      var rest := Spaced(ws[1..], xs[1..]);
      ChildTextConcat([Text(ws[0])], [xs[0]] + rest);
      ChildTextConcat([xs[0]], rest);
      SpacedChildText(ws[1..], xs[1..]);
      assert xs == [xs[0]] + xs[1..];
      ChildTextConcat([xs[0]], xs[1..]);
    }
  }

  /** Layout whitespace between the elements holds no anchor. */
  lemma {:induction false} SpacedChildAnchors(ws: seq<string>, xs: seq<Node>)
    requires |ws| == |xs| + 1
    ensures ChildAnchors(Spaced(ws, xs)) == ChildAnchors(xs)
    decreases |xs|
  {
    var sp := Spaced(ws, xs);
    if xs == [] {
      assert sp[1..] == [];
    } else {
      var rest := Spaced(ws[1..], xs[1..]);
      assert sp[0] == Text(ws[0]) && sp[1..] == [xs[0]] + rest;
      assert ([xs[0]] + rest)[0] == xs[0] && ([xs[0]] + rest)[1..] == rest;
      SpacedChildAnchors(ws[1..], xs[1..]);
    }
  }
}
