/**
 * The theme finder `find_all_themes.py`: which links of the themes page
 * are taken as theme links, and how a theme's name and URL are read off a
 * link. The page is given as the list of its `a` elements that carry an
 * `href`.
 */
module Themes {
  import opened Wrappers
  import opened Text
  import opened Seqs
  import opened Overview

  /** An `a` element with an `href`, and whether each of the two specific selectors picks it. */
  datatype Link = Link(href: string, dataTest: bool, classMatch: bool)

  datatype ThemeRecord = ThemeRecord(themeName: string, themeUrl: string)

  // ------------------------------------------------------------ selector fallback

  datatype Selector = ByDataTest | ByClass | Generic

  /** A link anywhere under `/themes/` with at least four `/` in its `href`. */
  predicate IsGenericThemeLink(href: string) {
    Contains(href, "/themes/") && multiset(href)['/'] >= 4
  }

  predicate Picks(selector: Selector, link: Link) {
    match selector
    case ByDataTest => link.dataTest
    case ByClass => link.classMatch
    case Generic => IsGenericThemeLink(link.href)
  }

  /** The hrefs of the links a selector picks, in page order. */
  function Select(selector: Selector, links: seq<Link>): (hrefs: seq<string>)
    ensures |hrefs| <= |links|
  {
    if links == [] then []
    else
      var n := |links| - 1;
      Select(selector, links[..n]) + (if Picks(selector, links[n]) then [links[n].href] else [])
  }

  function Hrefs(links: seq<Link>): (hrefs: seq<string>)
    ensures |hrefs| == |links|
    ensures forall i :: 0 <= i < |links| ==> hrefs[i] == links[i].href
  {
    if links == [] then [] else Hrefs(links[..|links| - 1]) + [links[|links| - 1].href]
  }

  /** The three selectors in turn: each is tried only when the ones before it found nothing. */
  function ThemeElements(links: seq<Link>): seq<string> {
    var byTest := Select(ByDataTest, links);
    if |byTest| != 0 then byTest
    else
      var byClass := Select(ByClass, links);
      if |byClass| != 0 then byClass
      else Select(Generic, links)
  }

  /** A selector keeps the links it picks in page order. */
  lemma {:induction false} SelectIsSubsequence(selector: Selector, links: seq<Link>)
    ensures IsSubsequence(Select(selector, links), Hrefs(links))
  {
    if links == [] {
      EmptySubsequence(Hrefs(links));
    } else {
      var n := |links| - 1;
      var before := Select(selector, links[..n]);
      SelectIsSubsequence(selector, links[..n]);
      assert Hrefs(links) == Hrefs(links[..n]) + [links[n].href];
      SubsequenceSnoc(before, Hrefs(links[..n]), links[n].href);
      if Picks(selector, links[n]) {
        assert Select(selector, links) == before + [links[n].href];
      } else {
        assert Select(selector, links) == before;
      }
    }
  }

  /** A selector keeps every link it picks. */
  lemma {:induction false} SelectKeepsPicked(selector: Selector, links: seq<Link>, i: nat)
    requires i < |links| && Picks(selector, links[i])
    ensures links[i].href in Select(selector, links)
  {
    var n := |links| - 1;
    if i < n {
      assert links[..n][i] == links[i];
      SelectKeepsPicked(selector, links[..n], i);
    }
  }

  /** A selector finds nothing exactly when it picks no link. */
  lemma {:induction false} SelectEmpty(selector: Selector, links: seq<Link>)
    ensures Select(selector, links) == [] <==> forall i :: 0 <= i < |links| ==> !Picks(selector, links[i])
  {
    if exists i :: 0 <= i < |links| && Picks(selector, links[i]) {
      var i :| 0 <= i < |links| && Picks(selector, links[i]);
      SelectKeepsPicked(selector, links, i);
    } else if links != [] {
      var n := |links| - 1;
      assert forall i :: 0 <= i < n ==> links[..n][i] == links[i];
      SelectEmpty(selector, links[..n]);
    }
  }

  /**
   * The theme elements come from the data-test selector when it picks any
   * link, else from the class selector when it picks any, else from the
   * generic one; they keep page order, and under the generic selector
   * every one lies under `/themes/` with at least four `/`.
   */
  lemma ThemeElementsSpec(links: seq<Link>)
    ensures var elements := ThemeElements(links);
      && IsSubsequence(elements, Hrefs(links))
      && ((exists i :: 0 <= i < |links| && links[i].dataTest) ==> elements == Select(ByDataTest, links))
      && ((forall i :: 0 <= i < |links| ==> !links[i].dataTest) && (exists i :: 0 <= i < |links| && links[i].classMatch) ==>
            elements == Select(ByClass, links))
      && ((forall i :: 0 <= i < |links| ==> !links[i].dataTest && !links[i].classMatch) ==>
            elements == Select(Generic, links) && forall h :: h in elements ==> IsGenericThemeLink(h))
  {
    SelectIsSubsequence(ByDataTest, links);
    SelectIsSubsequence(ByClass, links);
    SelectIsSubsequence(Generic, links);
    SelectEmpty(ByDataTest, links);
    SelectEmpty(ByClass, links);
    GenericPicksAll(links);
  }

  lemma {:induction false} GenericPicksAll(links: seq<Link>)
    ensures forall h :: h in Select(Generic, links) ==> IsGenericThemeLink(h)
  {
    if links != [] {
      GenericPicksAll(links[..|links| - 1]);
    }
  }

  // ------------------------------------------------------------ one theme link

  /** The theme name: the last `/`-segment of the `href` once trailing `/` are stripped. */
  function ThemeName(href: string): (name: string)
    ensures '/' !in name
  {
    LastPart(RStrip(href, '/'), '/')
  }

  predicate IsValidThemeName(name: string) {
    && name != "" && name != "themes" && name != "en-us"
    && '?' !in name && '#' !in name && '=' !in name
  }

  /** The theme URL: an absolute `href` as it is, a relative one on the LEGO site. */
  function LinkUrl(href: string): (url: string)
    ensures StartsWith(url, "http") || url == LegoOrigin + href
    ensures StartsWith(href, "http") ==> url == href
    ensures !StartsWith(href, "http") ==> url == LegoOrigin + href
  {
    if StartsWith(href, "http") then href else LegoOrigin + href
  }

  /** The record the loop appends for one theme element, or None when it skips it. */
  function ThemeOf(href: string): (r: Option<ThemeRecord>)
    ensures r.Some? <==> href != "" && IsValidThemeName(ThemeName(href))
    ensures r.Some? ==> r.value == ThemeRecord(ThemeName(href), LinkUrl(href))
  {
    if href == "" then None
    else
      var name := ThemeName(href);
      if name == "" || name == "themes" || name == "en-us" then None
      else if '?' in name || '#' in name || '=' in name then None
      else Some(ThemeRecord(name, LinkUrl(href)))
  }

  /**
   * The name is the tail of the `href` (without its trailing `/`): it holds
   * no `/`, and a `/` comes right before it when the `href` has a segment
   * before it.
   */
  lemma ThemeNameIsLastSegment(href: string)
    ensures var stripped := RStrip(href, '/');
      var name := ThemeName(href);
      && |name| <= |stripped| && stripped[|stripped| - |name|..] == name
      && ('/' in stripped ==> |name| < |stripped| && stripped[|stripped| - |name| - 1] == '/')
      && ('/' !in stripped ==> name == stripped)
  {
    LastPartIsTail(RStrip(href, '/'), '/');
  }

  /** A trailing `/` does not change the theme name. */
  lemma TrailingSlashSameName(href: string)
    ensures ThemeName(href + "/") == ThemeName(href)
  {
    var s := href + "/";
    assert s[..|s| - 1] == href;
  }

  /** `/en-us/themes/<slug>` gives the slug as the name when the slug holds no `/`. */
  lemma SlugIsName(prefix: string, slug: string)
    requires slug != [] && '/' !in slug
    ensures ThemeName(prefix + "/" + slug) == slug
  {
    var s := prefix + "/" + slug;
    assert s[|s| - 1] == slug[|slug| - 1];
    assert RStrip(s, '/') == s;
    LastPartAfter(prefix, '/', slug);
  }

  // ------------------------------------------------------------ the extraction loop

  /** The themes extracted from the theme elements, in their order. */
  function Collect(hrefs: seq<string>): (themes: seq<ThemeRecord>)
    ensures |themes| <= |hrefs|
  {
    if hrefs == [] then []
    else
      var n := |hrefs| - 1;
      var r := ThemeOf(hrefs[n]);
      Collect(hrefs[..n]) + (if r.Some? then [r.value] else [])
  }

  /** Extraction works element by element: the themes of two runs of elements are the two lists joined. */
  lemma {:induction false} CollectAppend(a: seq<string>, b: seq<string>)
    ensures Collect(a + b) == Collect(a) + Collect(b)
    decreases |b|
  {
    if b != [] {
      var n := |b| - 1;
      assert (a + b)[..|a + b| - 1] == a + b[..n];
      CollectAppend(a, b[..n]);
    } else {
      assert a + b == a;
    }
  }

  /** Every extracted theme has a valid name and the URL its link gives. */
  lemma {:induction false} CollectValid(hrefs: seq<string>)
    ensures forall t :: t in Collect(hrefs) ==>
      IsValidThemeName(t.themeName) && '/' !in t.themeName
      && (StartsWith(t.themeUrl, "http") || StartsWith(t.themeUrl, LegoOrigin))
  {
    if hrefs != [] {
      var n := |hrefs| - 1;
      CollectValid(hrefs[..n]);
      var h := hrefs[n];
      if ThemeOf(h).Some? && !StartsWith(h, "http") {
        assert (LegoOrigin + h)[..|LegoOrigin|] == LegoOrigin;
      }
    }
  }

  /** Every element with a valid name is extracted. */
  lemma {:induction false} CollectComplete(hrefs: seq<string>, i: nat)
    requires i < |hrefs| && hrefs[i] != "" && IsValidThemeName(ThemeName(hrefs[i]))
    ensures ThemeRecord(ThemeName(hrefs[i]), LinkUrl(hrefs[i])) in Collect(hrefs)
  {
    var n := |hrefs| - 1;
    var init := hrefs[..n];
    var last := ThemeOf(hrefs[n]);
    assert Collect(hrefs) == Collect(init) + (if last.Some? then [last.value] else []);
    if i < n {
      assert init[i] == hrefs[i];
      CollectComplete(init, i);
    }
  }

  /** The selector fallback of `find_all_themes`. */
  method SelectThemeElements(links: seq<Link>) returns (themeElements: seq<string>)
    ensures themeElements == ThemeElements(links)
  {
    themeElements := Select(ByDataTest, links);
    if |themeElements| == 0 {
      themeElements := Select(ByClass, links);
    }
    if |themeElements| == 0 {
      themeElements := Select(Generic, links);
    }
  }

  /** The extraction loop of `find_all_themes` over the selected theme elements. */
  method ExtractThemes(themeElements: seq<string>) returns (returnData: seq<ThemeRecord>)
    ensures returnData == Collect(themeElements)
  {
    returnData := [];
    var i := 0;
    while i < |themeElements|
      invariant 0 <= i <= |themeElements|
      invariant returnData == Collect(themeElements[..i])
    {
      assert themeElements[..i + 1][..i] == themeElements[..i];
      var href := themeElements[i];
      if href != "" {
        var themeName := LastPart(RStrip(href, '/'), '/');
        if themeName != "" && themeName != "themes" && themeName != "en-us" {
          if '?' !in themeName && '#' !in themeName && '=' !in themeName {
            var url := if StartsWith(href, "http") then href else LegoOrigin + href;
            returnData := returnData + [ThemeRecord(themeName, url)];
          }
        }
      }
      i := i + 1;
    }
    assert themeElements[..i] == themeElements;
  }

  /** `find_all_themes` from the page's links: select, then extract. */
  method FindAllThemes(links: seq<Link>) returns (returnData: seq<ThemeRecord>)
    ensures returnData == Collect(ThemeElements(links))
  {
    var themeElements := SelectThemeElements(links);
    returnData := ExtractThemes(themeElements);
  }
}
