/** The exporter's small URL rules: trailing-slash stripping of the base
    URL, the markdown URL of a page, and the scheme prefixing of a URL
    typed by the user. */
module Urls {
  import opened Text

  /** Python's `s.rstrip('/')`: drops every trailing slash. */
  function StripTrailingSlashes(s: string): (r: string)
    ensures StartsWith(s, r)
    ensures |r| == 0 || r[|r| - 1] != '/'
    ensures forall i | |r| <= i < |s| :: s[i] == '/'
    decreases |s|
  {
    if |s| > 0 && s[|s| - 1] == '/' then StripTrailingSlashes(s[..|s| - 1]) else s
  }

  /** The stripped URL is the only prefix of `s` that does not end with a
      slash and leaves nothing but slashes behind, so stripping twice
      changes nothing. */
  lemma StripTrailingSlashesUnique(s: string, r': string)
    requires StartsWith(s, r')
    requires |r'| == 0 || r'[|r'| - 1] != '/'
    requires forall i | |r'| <= i < |s| :: s[i] == '/'
    ensures r' == StripTrailingSlashes(s)
    ensures StripTrailingSlashes(StripTrailingSlashes(s)) == StripTrailingSlashes(s)
  {
    var r := StripTrailingSlashes(s);
    assert r == s[..|r|] && r' == s[..|r'|];
    assert |r| > 0 ==> r[|r| - 1] == s[|r| - 1];
    assert |r'| > 0 ==> r'[|r'| - 1] == s[|r'| - 1];
  }

  /** The URL of a page's markdown source: `.md` after a trailing slash,
      `/.md` otherwise. */
  function MarkdownUrl(url: string): (md: string)
    ensures StartsWith(md, url)
    ensures EndsWith(md, "/.md")
    ensures |md| == |url| + (if EndsWith(url, "/") then 3 else 4)
  {
    if EndsWith(url, "/") then url + ".md" else url + "/.md"
  }

  /** A URL with one trailing slash and the same URL without it share
      their markdown URL. */
  lemma {:induction false} MarkdownUrlTrailingSlash(url: string)
    requires !EndsWith(url, "/")
    ensures MarkdownUrl(url + "/") == MarkdownUrl(url)
  {
    assert EndsWith(url + "/", "/") by {
      assert (url + "/")[|url|..] == "/";
    }
    assert (url + "/") + ".md" == url + "/.md";
  }

  predicate HasHttpScheme(url: string) {
    StartsWith(url, "http://") || StartsWith(url, "https://")
  }

  /** The scan step's rule: a URL without an `http://` or `https://`
      scheme gets `https://` in front; one with a scheme is kept. */
  function EnsureScheme(url: string): (r: string)
    ensures HasHttpScheme(r)
    ensures EndsWith(r, url)
    ensures HasHttpScheme(url) ==> r == url
    ensures !HasHttpScheme(url) ==> StartsWith(r, "https://") && |r| == |url| + 8
  {
    if HasHttpScheme(url) then url else "https://" + url
  }

  lemma EnsureSchemeIdempotent(url: string)
    ensures EnsureScheme(EnsureScheme(url)) == EnsureScheme(url)
  {
  }
}
