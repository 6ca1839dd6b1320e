/**
 * `get_text_only` and `get_valid_links` on the two pages of the crawler's
 * test cases, over the trees the HTML parser builds for them: every run of
 * layout whitespace between two tags is a text node of its own.
 */
module PageExamples {
  import opened Wrappers
  import opened Document
  import opened Links
  import opened LinkExamples

  /** A tag whose only child is the text `s`. */
  function Leaf(name: string, attrs: map<string, string>, s: string): Node {
    Tag(name, attrs, [Text(s)])
  }

  lemma LeafText(name: string, attrs: map<string, string>, s: string)
    requires IsStripped(s)
    ensures TextOnly(Leaf(name, attrs, s)) == s
  {
    assert StringOf(Leaf(name, attrs, s)) == Some(s);
    StripStripped(s);
  }

  /** A tag whose children are laid out with whitespace has the text of its elements alone. */
  lemma SpacedTag(name: string, attrs: map<string, string>, ws: seq<string>, xs: seq<Node>)
    requires |ws| == |xs| + 1 && Layout(ws)
    ensures TextOnly(Tag(name, attrs, Spaced(ws, xs))) == Strip(ChildText(xs))
  {
    TagText(name, attrs, Spaced(ws, xs));
    SpacedChildText(ws, xs);
  }

  /** Two non-empty texts on two lines, with no whitespace at the ends, need no stripping. */
  lemma LinesStripped(a: string, b: string)
    requires IsStripped(a) && IsStripped(b) && a != "" && b != ""
    ensures IsStripped(a + "\n" + b)
  {
    var t := a + "\n" + b;
    assert t[0] == a[0] && t[|t| - 1] == b[|b| - 1];
  }

  lemma OneLine(x: Node)
    requires TextOnly(x) != ""
    ensures ChildText([x]) == TextOnly(x) + "\n"
  {
    assert [x][1..] == [];
  }

  /** A child with text adds that text and a newline in front of the texts of the children after it. */
  lemma LineThen(x: Node, rest: seq<Node>)
    requires TextOnly(x) != ""
    ensures ChildText([x] + rest) == TextOnly(x) + "\n" + ChildText(rest)
  {
    ChildTextConcat([x], rest);
    OneLine(x);
  }

  /** Stripping the newline after the last line gives the lines. */
  lemma StripLastNewline(t: string)
    requires IsStripped(t)
    ensures Strip(t + "\n") == t
  {
    assert "" + t + "\n" == t + "\n";
    assert AllSpace("") && AllSpace("\n");
    StripSurrounded("", t, "\n");
  }

  /** Lines with no whitespace at their ends, each ended by a newline, strip to the lines alone. */
  lemma StripLines(a: string, b: string, c: string)
    requires IsStripped(a) && IsStripped(b) && IsStripped(c) && a != "" && b != "" && c != ""
    ensures Strip(a + "\n" + (b + "\n")) == a + "\n" + b
    ensures Strip(a + "\n" + (b + "\n" + (c + "\n"))) == a + "\n" + b + "\n" + c
  {
    var ab := a + "\n" + b;
    assert a + "\n" + (b + "\n") == ab + "\n";
    assert a + "\n" + (b + "\n" + (c + "\n")) == (ab + "\n" + c) + "\n";
    LinesStripped(a, b);
    LinesStripped(ab, c);
    StripLastNewline(ab);
    StripLastNewline(ab + "\n" + c);
  }

  lemma TwoLines(x: Node, y: Node)
    requires TextOnly(x) != "" && TextOnly(y) != ""
    ensures Strip(ChildText([x, y])) == TextOnly(x) + "\n" + TextOnly(y)
  {
    assert [x, y] == [x] + [y];
    LineThen(x, [y]);
    OneLine(y);
    StripLines(TextOnly(x), TextOnly(y), TextOnly(y));
  }

  lemma ThreeLines(x: Node, y: Node, z: Node)
    requires TextOnly(x) != "" && TextOnly(y) != "" && TextOnly(z) != ""
    ensures Strip(ChildText([x, y, z])) == TextOnly(x) + "\n" + TextOnly(y) + "\n" + TextOnly(z)
  {
    assert [x, y, z] == [x] + [y, z];
    assert [y, z] == [y] + [z];
    LineThen(x, [y, z]);
    LineThen(y, [z]);
    OneLine(z);
    StripLines(TextOnly(x), TextOnly(y), TextOnly(z));
  }

  /** Text nodes made of whitespace only: what the parser keeps between two tags on separate lines. */
  predicate Layout(ws: seq<string>) {
    forall k :: 0 <= k < |ws| ==> AllSpace(ws[k])
  }

  /** A tag holding two elements with text, laid out with whitespace, has their texts on two lines. */
  lemma TwoLineTag(name: string, ws: seq<string>, x: Node, y: Node)
    requires |ws| == 3 && Layout(ws) && TextOnly(x) != "" && TextOnly(y) != ""
    ensures TextOnly(Tag(name, map[], Spaced(ws, [x, y]))) == TextOnly(x) + "\n" + TextOnly(y)
  {
    SpacedTag(name, map[], ws, [x, y]);
    TwoLines(x, y);
  }

  /** The same with three elements. */
  lemma ThreeLineTag(name: string, ws: seq<string>, x: Node, y: Node, z: Node)
    requires |ws| == 4 && Layout(ws) && TextOnly(x) != "" && TextOnly(y) != "" && TextOnly(z) != ""
    ensures TextOnly(Tag(name, map[], Spaced(ws, [x, y, z]))) == TextOnly(x) + "\n" + TextOnly(y) + "\n" + TextOnly(z)
  {
    SpacedTag(name, map[], ws, [x, y, z]);
    ThreeLines(x, y, z);
  }

  /** The innermost `<div>`, holding the paragraphs "World!" and "FooBar". */
  function InnerDiv(ws: seq<string>): Node
    requires |ws| == 3
  {
    Tag("div", map[], Spaced(ws, [Leaf("p", map[], "World!"), Leaf("p", map[], "FooBar")]))
  }

  /** The outer `<div>`: the paragraph "Hello", the anchor "Some Link", then the inner `<div>`. */
  function OuterDiv(ws: seq<string>, inner: Node): Node
    requires |ws| == 4
  {
    Tag("div", map[], Spaced(ws, [Leaf("p", map[], "Hello"), Leaf("a", map["href" := "abc.com"], "Some Link"), inner]))
  }

  /** A tag around a single element. */
  function Wrapper(name: string, ws: seq<string>, x: Node): Node
    requires |ws| == 2
  {
    Tag(name, map[], Spaced(ws, [x]))
  }

  /**
   * The parsed nested page, with its eleven runs of layout whitespace: three
   * in the inner `<div>`, four in the outer one, two in `<body>`, and the
   * newlines before and after `<body>` in the document itself.
   */
  function RecursivePage(ws: seq<string>): Node
    requires |ws| == 11
  {
    Wrapper("[document]", ws[9..11], Wrapper("body", ws[7..9], OuterDiv(ws[3..7], InnerDiv(ws[..3]))))
  }

  /** The whitespace the parser keeps in the nested page, in document order of the innermost first. */
  const ParsedLayout: seq<string> :=
    ["\n      ", "\n      ", "\n    ", "\n    ", "\n    ", "\n    ", "\n  ", "\n  ", "\n", "\n", "\n"]

  lemma ParsedLayoutIsLayout()
    ensures |ParsedLayout| == 11 && Layout(ParsedLayout)
  {
    forall k | 0 <= k < |ParsedLayout| ensures AllSpace(ParsedLayout[k]) {
      assert ParsedLayout[k] in {"\n      ", "\n    ", "\n  ", "\n"};
      assert AllSpace("\n      ") && AllSpace("\n    ") && AllSpace("\n  ") && AllSpace("\n");
    }
  }

  lemma InnerDivText(ws: seq<string>)
    requires |ws| == 3 && Layout(ws)
    ensures TextOnly(InnerDiv(ws)) == "World!\nFooBar"
  {
    assert IsStripped("World!") && IsStripped("FooBar");
    LeafText("p", map[], "World!");
    LeafText("p", map[], "FooBar");
    TwoLineTag("div", ws, Leaf("p", map[], "World!"), Leaf("p", map[], "FooBar"));
  }

  lemma OuterDivText(ws: seq<string>, inner: Node)
    requires |ws| == 4 && Layout(ws) && TextOnly(inner) != ""
    ensures TextOnly(OuterDiv(ws, inner)) == "Hello" + "\n" + "Some Link" + "\n" + TextOnly(inner)
  {
    assert IsStripped("Hello") && IsStripped("Some Link");
    LeafText("p", map[], "Hello");
    LeafText("a", map["href" := "abc.com"], "Some Link");
    ThreeLineTag("div", ws, Leaf("p", map[], "Hello"), Leaf("a", map["href" := "abc.com"], "Some Link"), inner);
  }

  lemma JoinedLines()
    ensures "Hello" + "\n" + "Some Link" + "\n" + "World!\nFooBar" == "Hello\nSome Link\nWorld!\nFooBar"
  {
  }

  /** A tag around one element, laid out with whitespace, has that element's text. */
  lemma WrapperText(name: string, ws: seq<string>, x: Node)
    requires |ws| == 2 && Layout(ws)
    ensures TextOnly(Wrapper(name, ws, x)) == TextOnly(x)
  {
    SpacedTag(name, map[], ws, [x]);
    OneChildText(x);
  }

  /**
   * The nested page gives "Hello\nSome Link\nWorld!\nFooBar": one line per
   * text element, whatever the nesting, and the layout whitespace adds no
   * empty line, whatever whitespace it is.
   */
  lemma RecursivePageText(ws: seq<string>)
    requires |ws| == 11 && Layout(ws)
    ensures TextOnly(RecursivePage(ws)) == "Hello\nSome Link\nWorld!\nFooBar"
  {
    var inner := InnerDiv(ws[..3]);
    InnerDivText(ws[..3]);
    var outer := OuterDiv(ws[3..7], inner);
    OuterDivText(ws[3..7], inner);
    var body := Wrapper("body", ws[7..9], outer);
    WrapperText("body", ws[7..9], outer);
    WrapperText("[document]", ws[9..11], body);
    JoinedLines();
  }

  /** The same for the whitespace the parser actually keeps. */
  lemma ParsedRecursivePageText()
    ensures TextOnly(RecursivePage(ParsedLayout)) == "Hello\nSome Link\nWorld!\nFooBar"
  {
    ParsedLayoutIsLayout();
    RecursivePageText(ParsedLayout);
  }

  /** An anchor whose only child is the text `caption`. */
  function Anchor(href: string, caption: string): Node {
    Leaf("a", map["href" := href], caption)
  }

  /**
   * The four anchors of the link page, in document order, on the hosts
   * `hosts` (`wut.com`, `not-valid.com`, `only-http.com` and `deep.com` in
   * the test's markup): the first link, the `ftp` link, the second link and
   * the deep link.
   */
  function PageAnchors(hosts: seq<string>): seq<Node>
    requires |hosts| == 4
  {
    [Anchor("https://" + hosts[0], "The First Link"), Anchor("ftp://" + hosts[1], "This is FTP link"),
     Anchor("http://" + hosts[2], "The Second Link"), Anchor("https://" + hosts[3], "The Deep Link")]
  }

  /** The `<div>` holding the deep link. */
  function DeepDiv(ws: seq<string>, deep: Node): Node
    requires |ws| == 2
  {
    Tag("div", map[], Spaced(ws, [deep]))
  }

  /** The `<div>` and `<body>` opened and never closed at the end of the page. */
  function Unclosed(w: string, v: string): Node {
    Tag("div", map[], [Text(w), Tag("body", map[], [Text(v)])])
  }

  /**
   * The parsed link page. The outer `<div>` and `<body>` are never closed, so
   * the parser nests the trailing `<div>` in the outer `<div>`, and no
   * whitespace follows the outer `<div>` or `<body>`.
   */
  function LinkPage(ws: seq<string>, hosts: seq<string>): Node
    requires |ws| == 12 && |hosts| == 4
  {
    LinkPageOf(ws, Leaf("p", map[], "Hello"), PageAnchors(hosts))
  }

  /** The shape of the link page, with its paragraph `p` and its four anchors `an` left open. */
  function LinkPageOf(ws: seq<string>, p: Node, an: seq<Node>): Node
    requires |ws| == 12 && |an| == 4
  {
    var xs := [p, an[0], an[1], an[2], DeepDiv(ws[..2], an[3])];
    var outer := Tag("div", map[], Spaced(ws[2..8], xs) + [Unclosed(ws[8], ws[9])]);
    Tag("[document]", map[], [Text(ws[10]), Tag("body", map[], [Text(ws[11]), outer])])
  }

  /** A tag that holds only text holds no anchor. */
  lemma LeafAnchors(name: string, attrs: map<string, string>, s: string)
    ensures Anchors(Leaf(name, attrs, s)) == []
  {
    assert [Text(s)][1..] == [];
    assert Anchors(Text(s)) == [] && ChildAnchors([]) == [];
  }

  /** One child: itself when it is an anchor, then the anchors under it. */
  lemma OneChildAnchors(c: Node)
    ensures ChildAnchors([c]) == (if c.Tag? && c.name == "a" then [c] else []) + Anchors(c)
  {
    assert [c][1..] == [];
  }

  /** A text node before the others holds no anchor. */
  lemma TextFirstAnchors(w: string, cs: seq<Node>)
    ensures ChildAnchors([Text(w)] + cs) == ChildAnchors(cs)
  {
    ChildAnchorsConcat([Text(w)], cs);
    OneChildAnchors(Text(w));
  }

  lemma DeepDivAnchors(ws: seq<string>, d: Node)
    requires |ws| == 2 && d.Tag? && d.name == "a" && Anchors(d) == []
    ensures Anchors(DeepDiv(ws, d)) == [d]
  {
    SpacedChildAnchors(ws, [d]);
    OneChildAnchors(d);
    assert [d] + [] == [d];
  }

  lemma UnclosedAnchors(w: string, v: string)
    ensures Anchors(Unclosed(w, v)) == []
  {
    var b := Tag("body", map[], [Text(v)]);
    LeafAnchors("body", map[], v);
    OneChildAnchors(b);
    TextFirstAnchors(w, [b]);
  }

  /**
   * The elements of the outer `<div>`: a run of bare anchors between an
   * element that is no anchor and holds none, and one that holds more.
   */
  lemma AnchorRun(p: Node, run: seq<Node>, d: Node)
    requires Anchors(p) == [] && !(p.Tag? && p.name == "a")
    requires forall i :: 0 <= i < |run| ==> run[i].Tag? && run[i].name == "a" && Anchors(run[i]) == []
    requires !(d.Tag? && d.name == "a")
    ensures ChildAnchors([p] + run + [d]) == run + Anchors(d)
  {
    assert ChildAnchors([p]) == [] by {
      OneChildAnchors(p);
    }
    assert ChildAnchors([d]) == Anchors(d) by {
      OneChildAnchors(d);
    }
    calc {
      ChildAnchors([p] + run + [d]);
    == { ChildAnchorsConcat([p] + run, [d]); }
      ChildAnchors([p] + run) + ChildAnchors([d]);
    == { ChildAnchorsConcat([p], run); }
      ChildAnchors([p]) + ChildAnchors(run) + Anchors(d);
    == { BareAnchors(run); assert [] + run == run; }
      run + Anchors(d);
    }
  }

  /** Five elements whose middle three are the first three of `an`. */
  lemma RunBetween(xs: seq<Node>, an: seq<Node>)
    requires |xs| == 5 && |an| == 4 && xs[1] == an[0] && xs[2] == an[1] && xs[3] == an[2]
    ensures xs == [xs[0]] + an[..3] + [xs[4]] && an[..3] + [an[3]] == an
  {
  }

  /** Anchors with no anchor inside them are their own `soup('a')`. */
  lemma {:induction false} BareAnchors(cs: seq<Node>)
    requires forall i :: 0 <= i < |cs| ==> cs[i].Tag? && cs[i].name == "a" && Anchors(cs[i]) == []
    ensures ChildAnchors(cs) == cs
    decreases |cs|
  {
    if cs != [] {
      BareAnchors(cs[1..]);
      assert [cs[0]] + cs[1..] == cs;
    }
  }

  /** `soup('a')` on the link page finds its four anchors, the one in the inner `<div>` last. */
  lemma LinkPageAnchors(ws: seq<string>, hosts: seq<string>)
    requires |ws| == 12 && |hosts| == 4
    ensures Anchors(LinkPage(ws, hosts)) == PageAnchors(hosts)
  {
    var an := PageAnchors(hosts);
    LeafAnchors("p", map[], "Hello");
    LeafAnchors("a", an[0].attrs, "The First Link");
    LeafAnchors("a", an[1].attrs, "This is FTP link");
    LeafAnchors("a", an[2].attrs, "The Second Link");
    LeafAnchors("a", an[3].attrs, "The Deep Link");
    LinkPageOfAnchors(ws, Leaf("p", map[], "Hello"), an);
  }

  /** The anchors of any page of that shape are its four anchors, in document order. */
  lemma LinkPageOfAnchors(ws: seq<string>, p: Node, an: seq<Node>)
    requires |ws| == 12 && |an| == 4
    requires Anchors(p) == [] && !(p.Tag? && p.name == "a")
    requires forall i :: 0 <= i < 4 ==> an[i].Tag? && an[i].name == "a" && Anchors(an[i]) == []
    ensures Anchors(LinkPageOf(ws, p, an)) == an
  {
    var xs := [p, an[0], an[1], an[2], DeepDiv(ws[..2], an[3])];
    var tail := Unclosed(ws[8], ws[9]);
    var outer := Tag("div", map[], Spaced(ws[2..8], xs) + [tail]);
    var body := Tag("body", map[], [Text(ws[11]), outer]);
    OuterElementsAnchors(ws[..2], p, an);
    assert ChildAnchors([tail]) == [] by {
      UnclosedAnchors(ws[8], ws[9]);
      OneChildAnchors(tail);
    }
    OuterDivAnchors(ws[2..8], xs, tail);
    TextThenAnchors("body", ws[11], outer);
    TextThenAnchors("[document]", ws[10], body);
  }

  /** The elements of the outer `<div>` hold the four anchors, the deep one last. */
  lemma OuterElementsAnchors(ws: seq<string>, p: Node, an: seq<Node>)
    requires |ws| == 2 && |an| == 4
    requires Anchors(p) == [] && !(p.Tag? && p.name == "a")
    requires forall i :: 0 <= i < 4 ==> an[i].Tag? && an[i].name == "a" && Anchors(an[i]) == []
    ensures ChildAnchors([p, an[0], an[1], an[2], DeepDiv(ws, an[3])]) == an
  {
    var xs := [p, an[0], an[1], an[2], DeepDiv(ws, an[3])];
    DeepDivAnchors(ws, an[3]);
    AnchorRun(p, an[..3], xs[4]);
    RunBetween(xs, an);
  }

  /** Layout whitespace, and a last child with no anchor, add no anchor to a `<div>`. */
  lemma OuterDivAnchors(ws: seq<string>, xs: seq<Node>, tail: Node)
    requires |ws| == |xs| + 1 && ChildAnchors([tail]) == []
    ensures Anchors(Tag("div", map[], Spaced(ws, xs) + [tail])) == ChildAnchors(xs)
  {
    SpacedChildAnchors(ws, xs);
    ChildAnchorsConcat(Spaced(ws, xs), [tail]);
    assert ChildAnchors(xs) + [] == ChildAnchors(xs);
  }

  /** A tag holding a text node, then one element that is no anchor, holds that element's anchors. */
  lemma TextThenAnchors(name: string, w: string, n: Node)
    requires !(n.Tag? && n.name == "a")
    ensures Anchors(Tag(name, map[], [Text(w), n])) == Anchors(n)
  {
    TextFirstAnchors(w, [n]);
    assert [Text(w)] + [n] == [Text(w), n];
    OneChildAnchors(n);
    assert [] + Anchors(n) == Anchors(n);
  }

  /** An anchor that the URL functions leave as it is: followed exactly when its URL is valid. */
  lemma AnchorLink(urls: Urls, base: string, href: string, caption: string)
    requires Resolve(urls, base, href) == href && IsStripped(caption)
    ensures ValidLinks(urls, base, [Anchor(href, caption)]) == if IsValidLink(href) then [(caption, href)] else []
  {
    LeafText("a", map["href" := href], caption);
    assert [Anchor(href, caption)][1..] == [];
  }

  /** The links of four anchors are the links of each, in order. */
  lemma FourLinks(urls: Urls, base: string, an: seq<Node>)
    requires |an| == 4
    ensures ValidLinks(urls, base, an) ==
      ValidLinks(urls, base, [an[0]]) + ValidLinks(urls, base, [an[1]]) + ValidLinks(urls, base, [an[2]]) + ValidLinks(urls, base, [an[3]])
  {
    assert an == [an[0]] + [an[1]] + [an[2]] + [an[3]];
    ValidLinksConcat(urls, base, [an[0]] + [an[1]] + [an[2]], [an[3]]);
    ValidLinksConcat(urls, base, [an[0]] + [an[1]], [an[2]]);
    ValidLinksConcat(urls, base, [an[0]], [an[1]]);
  }

  /** Each anchor of the link page on its own: the `ftp` one gives no link, the others their caption and URL. */
  lemma PageAnchorLinks(urls: Urls, hosts: seq<string>)
    requires |hosts| == 4 && '\'' !in hosts[0] && '\'' !in hosts[2] && '\'' !in hosts[3]
    requires forall k :: 0 <= k < 4 ==>
      Resolve(urls, "https://this.com", PageAnchors(hosts)[k].attrs["href"]) == PageAnchors(hosts)[k].attrs["href"]
    ensures ValidLinks(urls, "https://this.com", [PageAnchors(hosts)[0]]) == [("The First Link", "https://" + hosts[0])]
    ensures ValidLinks(urls, "https://this.com", [PageAnchors(hosts)[1]]) == []
    ensures ValidLinks(urls, "https://this.com", [PageAnchors(hosts)[2]]) == [("The Second Link", "http://" + hosts[2])]
    ensures ValidLinks(urls, "https://this.com", [PageAnchors(hosts)[3]]) == [("The Deep Link", "https://" + hosts[3])]
  {
    var base, an := "https://this.com", PageAnchors(hosts);
    assert ValidLinks(urls, base, [an[0]]) == [("The First Link", "https://" + hosts[0])] by {
      assert IsStripped("The First Link") && Resolve(urls, base, an[0].attrs["href"]) == "https://" + hosts[0];
      WebSchemesAreValid(hosts[0]);
      AnchorLink(urls, base, "https://" + hosts[0], "The First Link");
    }
    assert ValidLinks(urls, base, [an[1]]) == [] by {
      assert IsStripped("This is FTP link") && Resolve(urls, base, an[1].attrs["href"]) == "ftp://" + hosts[1];
      FtpIsInvalid(hosts[1]);
      AnchorLink(urls, base, "ftp://" + hosts[1], "This is FTP link");
    }
    assert ValidLinks(urls, base, [an[2]]) == [("The Second Link", "http://" + hosts[2])] by {
      assert IsStripped("The Second Link") && Resolve(urls, base, an[2].attrs["href"]) == "http://" + hosts[2];
      WebSchemesAreValid(hosts[2]);
      AnchorLink(urls, base, "http://" + hosts[2], "The Second Link");
    }
    assert ValidLinks(urls, base, [an[3]]) == [("The Deep Link", "https://" + hosts[3])] by {
      assert IsStripped("The Deep Link") && Resolve(urls, base, an[3].attrs["href"]) == "https://" + hosts[3];
      WebSchemesAreValid(hosts[3]);
      AnchorLink(urls, base, "https://" + hosts[3], "The Deep Link");
    }
  }

  /**
   * On the link page, with base `https://this.com`, `get_valid_links` gives
   * the first, second and deep links, in that order: the `ftp` link is
   * dropped. `urljoin` keeps an absolute URL and `urldefrag` a URL without
   * fragment; that is what the requirement on `urls` says.
   */
  lemma LinkPageValidLinks(urls: Urls, ws: seq<string>, hosts: seq<string>)
    requires |ws| == 12
    requires |hosts| == 4 && '\'' !in hosts[0] && '\'' !in hosts[2] && '\'' !in hosts[3]
    requires forall k :: 0 <= k < 4 ==>
      Resolve(urls, "https://this.com", PageAnchors(hosts)[k].attrs["href"]) == PageAnchors(hosts)[k].attrs["href"]
    ensures GetValidLinks(urls, "https://this.com", LinkPage(ws, hosts)) ==
      [("The First Link", "https://" + hosts[0]), ("The Second Link", "http://" + hosts[2]), ("The Deep Link", "https://" + hosts[3])]
  {
    LinkPageAnchors(ws, hosts);
    FourLinks(urls, "https://this.com", PageAnchors(hosts));
    PageAnchorLinks(urls, hosts);
  }
}
