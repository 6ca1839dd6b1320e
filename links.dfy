/**
 * Link filtering: `is_valid_link` and `Crawler.get_valid_links` of the
 * refactored crawler.  The scheme of a URL follows the rule of
 * `urllib.parse.urlsplit`; `urljoin` and `urldefrag` are parameters.
 */
module Links {
  import opened Wrappers
  import opened Tokenizer
  import opened Document
  import opened Sequences

  predicate IsAsciiLetter(c: char) {
    ('a' <= c <= 'z') || ('A' <= c <= 'Z')
  }

  /** The characters `urlsplit` allows in a scheme. */
  predicate IsSchemeChar(c: char) {
    IsAsciiLetter(c) || ('0' <= c <= '9') || c == '+' || c == '-' || c == '.'
  }

  /** A scheme `urlsplit` accepts: an ASCII letter, then scheme characters. */
  predicate IsSchemeName(p: string) {
    p != [] && IsAsciiLetter(p[0]) && forall k :: 0 <= k < |p| ==> IsSchemeChar(p[k])
  }

  /**
   * `urlparse(url).scheme`: the text before the first `:`, lower-cased, when
   * it is a well-formed scheme name; the empty string otherwise.
   */
  function Scheme(url: string): string {
    match IndexOf(url, ':')
    case None => ""
    case Some(i) => if IsSchemeName(url[..i]) then Lower(url[..i]) else ""
  }

  /** A URL that starts with a scheme name and a colon has that scheme, lower-cased. */
  lemma SchemeOf(p: string, rest: string)
    requires IsSchemeName(p)
    ensures Scheme(p + ":" + rest) == Lower(p)
  {
    var url := p + ":" + rest;
    assert url[|p|] == ':';
    assert url[..|p|] == p;
    assert ':' !in p by {
      forall k | 0 <= k < |p| ensures p[k] != ':' {
        assert IsSchemeChar(p[k]);
      }
    }
  }

  /** A URL with a non-empty scheme does start with that scheme name and a colon. */
  lemma SchemeSplits(url: string)
    requires Scheme(url) != ""
    ensures exists p, rest :: url == p + ":" + rest && IsSchemeName(p) && Scheme(url) == Lower(p)
  {
    var i := IndexOf(url, ':').value;
    var p, rest := url[..i], url[i + 1..];
    assert url == p + ":" + rest;
  }

  /** `is_valid_link`: no single quote, and the scheme is `http` or `https`. */
  predicate IsValidLink(url: string) {
    '\'' !in url && Scheme(url) in ["http", "https"]
  }

  /** The characters that lower-case to a letter of `w` are letters. */
  lemma LowerToLetters(p: string, w: string)
    requires Lower(p) == w && forall k :: 0 <= k < |w| ==> 'a' <= w[k] <= 'z'
    ensures IsSchemeName(p) || p == []
  {
    forall k | 0 <= k < |p| ensures IsAsciiLetter(p[k]) {
      assert Lower(p)[k] == LowerChar(p[k]);
    }
  }

  /**
   * A link is valid exactly when it has no single quote and starts, in any
   * letter case, with `http:` or `https:`.
   */
  lemma ValidLinkIff(url: string)
    ensures IsValidLink(url) <==>
      '\'' !in url && exists p, rest :: url == p + ":" + rest && Lower(p) in ["http", "https"]
  {
    if IsValidLink(url) {
      SchemeSplits(url);
    }
    if '\'' !in url && exists p, rest :: url == p + ":" + rest && Lower(p) in ["http", "https"] {
      var p, rest :| url == p + ":" + rest && Lower(p) in ["http", "https"];
      LowerToLetters(p, Lower(p));
      assert |p| == |Lower(p)|;
      SchemeOf(p, rest);
    }
  }

  /** `urljoin` and `urldefrag(...)[0]`, which the model does not define. */
  datatype Urls = Urls(join: (string, string) -> string, defrag: string -> string)

  /** The absolute URL, without fragment, that an `href` found on page `base` points to. */
  function Resolve(urls: Urls, base: string, href: string): string {
    urls.defrag(urls.join(base, href))
  }

  /**
   * The `(anchor text, url)` pairs of the anchors that carry an `href` and
   * whose resolved URL is valid, in the order of the anchors.
   */
  function ValidLinks(urls: Urls, base: string, anchors: seq<Node>): (r: seq<(string, string)>)
    ensures forall i :: 0 <= i < |r| ==> IsValidLink(r[i].1)
    ensures |r| <= |anchors|
  {
    if anchors == [] then []
    else
      var a := anchors[0];
      var rest := ValidLinks(urls, base, anchors[1..]);
      if a.Tag? && "href" in a.attrs && IsValidLink(Resolve(urls, base, a.attrs["href"])) then
        [(TextOnly(a), Resolve(urls, base, a.attrs["href"]))] + rest
      else rest
  }

  /** `Crawler.get_valid_links(url, soup)`. */
  function GetValidLinks(urls: Urls, base: string, soup: Node): seq<(string, string)> {
    ValidLinks(urls, base, Anchors(soup))
  }

  /** A pair is produced exactly for an anchor with an `href` whose resolved URL is valid. */
  lemma {:induction false} ValidLinksMembers(urls: Urls, base: string, anchors: seq<Node>, link: (string, string))
    ensures link in ValidLinks(urls, base, anchors) <==>
      exists a :: a in anchors && a.Tag? && "href" in a.attrs && IsValidLink(Resolve(urls, base, a.attrs["href"]))
                  && link == (TextOnly(a), Resolve(urls, base, a.attrs["href"]))
    decreases |anchors|
  {
    if anchors != [] {
      ValidLinksMembers(urls, base, anchors[1..], link);
      assert forall a :: a in anchors <==> a == anchors[0] || a in anchors[1..];
    }
  }

  /** The links of two runs of anchors are the links of the first run, then those of the second. */
  lemma {:induction false} ValidLinksConcat(urls: Urls, base: string, a: seq<Node>, b: seq<Node>)
    ensures ValidLinks(urls, base, a + b) == ValidLinks(urls, base, a) + ValidLinks(urls, base, b)
    decreases |a|
  {
    if a == [] {
      assert a + b == b;
    } else {
      assert (a + b)[0] == a[0];
      assert (a + b)[1..] == a[1..] + b;
      ValidLinksConcat(urls, base, a[1..], b);
    }
  }
}
