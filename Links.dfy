/** `resolve_link` (test_copy.py:35-44): turns a row's `href` into the link that is saved. */
module Links {

  import opened Wrappers
  import opened Text

  /** The path segment under which the site's pages live. */
  const SiteSegment: string := "/kvma/"

  /** `page.url.split('/kvma/')[0]`: the site root the relative links are joined to. */
  function SiteBase(url: string): string
  {
    SplitHead(url, SiteSegment)
  }

  /** `resolve_link(page, href)` for a page at `url`. */
  function ResolveLink(url: string, href: Option<string>): string
  {
    if href.None? || href.value == "" then ""
    else
      var h := Strip(href.value);
      if StartsWith(h, "http") then h
      else if StartsWith(h, "/") then SiteBase(url) + h
      else SiteBase(url) + SiteSegment + h
  }

  /**
   * The link is empty exactly when `href` is missing or empty, and otherwise
   * it ends with the stripped `href`.
   */
  lemma ResolveLinkEnds(url: string, href: Option<string>)
    ensures ResolveLink(url, href) == "" <==> href.None? || href.value == ""
    ensures href.Some? && href.value != "" ==>
      var r := ResolveLink(url, href);
      |Strip(href.value)| <= |r| && r[|r| - |Strip(href.value)|..] == Strip(href.value)
  {
  }

  /** An absolute `href` is kept as it is, once stripped. */
  lemma AbsoluteLinkKept(url: string, href: string)
    requires StartsWith(Strip(href), "http")
    ensures ResolveLink(url, Some(href)) == Strip(href)
  {
  }

  /**
   * A relative `href` is joined onto the site base: directly when it starts
   * with `/`, and through `/kvma/` otherwise. The base is the part of the page
   * URL before the first `/kvma/`, or the whole URL when there is none.
   */
  lemma RelativeLinkJoined(url: string, href: string)
    requires href != "" && !StartsWith(Strip(href), "http")
    ensures StartsWith(Strip(href), "/") ==> ResolveLink(url, Some(href)) == SiteBase(url) + Strip(href)
    ensures !StartsWith(Strip(href), "/") ==> ResolveLink(url, Some(href)) == SiteBase(url) + SiteSegment + Strip(href)
    ensures StartsWith(url, SiteBase(url))
    ensures Contains(url, SiteSegment) ==> OccursAt(url, SiteSegment, |SiteBase(url)|)
    ensures forall k :: 0 <= k < |SiteBase(url)| ==> !OccursAt(url, SiteSegment, k)
    ensures !Contains(url, SiteSegment) ==> SiteBase(url) == url
  {
    SplitHeadParts(url, SiteSegment);
  }

  /**
   * `"view.php?id=5"` and `"/kvma/view.php?id=5"` resolve to the same link:
   * a path without a leading slash is taken to be under `/kvma/`.
   */
  lemma RelativeUnderSite(url: string, path: string)
    requires path != [] && !IsSpace(path[0]) && !IsSpace(path[|path| - 1])
    requires path[0] != '/' && !StartsWith(path, "http")
    ensures ResolveLink(url, Some(path)) == ResolveLink(url, Some(SiteSegment + path))
    ensures ResolveLink(url, Some(path)) == SiteBase(url) + SiteSegment + path
  {
    var q := SiteSegment + path;
    assert ResolveLink(url, Some(path)) == SiteBase(url) + SiteSegment + path by {
      StrippedHrefResolves(url, path);
      assert !StartsWith(path, "/");
    }
    assert ResolveLink(url, Some(q)) == SiteBase(url) + q by {
      assert q[0] == '/' && q[|q| - 1] == path[|path| - 1];
      StrippedHrefResolves(url, q);
      assert q[..1] == "/" && q[..4] != "http";
    }
    assert SiteBase(url) + SiteSegment + path == SiteBase(url) + q;
  }

  /** An `href` with no white space at either end is used as it is. */
  lemma StrippedHrefResolves(url: string, h: string)
    requires h != [] && !IsSpace(h[0]) && !IsSpace(h[|h| - 1])
    ensures ResolveLink(url, Some(h)) ==
      if StartsWith(h, "http") then h
      else if StartsWith(h, "/") then SiteBase(url) + h
      else SiteBase(url) + SiteSegment + h
  {
    StripUnchanged(h);
  }

  /**
   * On a page at `<root>/kvma/<rest>`, where no `/kvma/` starts inside `root`
   * (`root` holds none and does not end in `/kvma`), the site base is `root`.
   */
  lemma SiteRootFound(root: string, rest: string)
    requires forall k :: 0 <= k < |root| ==> !OccursAt(root + SiteSegment + rest, SiteSegment, k)
    ensures SiteBase(root + SiteSegment + rest) == root
  {
    var url := root + SiteSegment + rest;
    SplitHeadParts(url, SiteSegment);
    ContainsIff(url, SiteSegment);
    assert OccursAt(url, SiteSegment, |root|) by {
      assert url[|root|..|root| + |SiteSegment|] == SiteSegment;
    }
  }

  /** An `href` of white space only is not empty, so it does not give `""`: it resolves to the site's `/kvma/` folder. */
  lemma BlankHrefNotEmpty(url: string, h: string)
    requires h != "" && AllSpace(h)
    ensures ResolveLink(url, Some(h)) == SiteBase(url) + SiteSegment
  {
    TrimStartKeepsSuffix(h);
  }

}
