/** `is_valid_link` and `get_text_only` on the shapes of the crawler's own test cases. */
module LinkExamples {
  import opened Wrappers
  import opened Tokenizer
  import opened Document
  import opened Links

  lemma LowerSchemes()
    ensures Lower("http") == "http" && Lower("https") == "https" && Lower("ftp") == "ftp"
  {
  }

  /** A URL with a single quote is refused, even with an `https` scheme. */
  lemma QuoteIsInvalid(host: string)
    ensures !IsValidLink("https://" + host + "'")
  {
    var url := "https://" + host + "'";
    assert url[|url| - 1] == '\'';
  }

  /** An `http` or `https` URL without a single quote is followed. */
  lemma WebSchemesAreValid(host: string)
    requires '\'' !in host
    ensures IsValidLink("http://" + host) && IsValidLink("https://" + host)
  {
    LowerSchemes();
    SchemeOf("http", "//" + host);
    assert "http" + ":" + ("//" + host) == "http://" + host;
    SchemeOf("https", "//" + host);
    assert "https" + ":" + ("//" + host) == "https://" + host;
  }

  /** `ftp` is a well-formed scheme, but not one the crawler follows. */
  lemma FtpIsInvalid(host: string)
    ensures !IsValidLink("ftp://" + host)
  {
    LowerSchemes();
    SchemeOf("ftp", "//" + host);
    assert "ftp" + ":" + ("//" + host) == "ftp://" + host;
  }

  /** A tag whose one child is text gives that text, its surrounding whitespace stripped. */
  lemma StringValueStripped()
    ensures TextOnly(Tag("p", map[], [Text("\t   " + "Hello World!" + "\n")])) == "Hello World!"
  {
    var n := Tag("p", map[], [Text("\t   " + "Hello World!" + "\n")]);
    assert StringOf(n) == Some("\t   " + "Hello World!" + "\n");
    assert AllSpace("\t   ") && AllSpace("\n") && IsStripped("Hello World!");
    StripSurrounded("\t   ", "Hello World!", "\n");
  }
}
