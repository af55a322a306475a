/** The MissAV weekly-views parser: item cards with a poster link, a thumbnail and a title link. */
module Missav {
  import opened Wrappers
  import opened Strings
  import opened Urls
  import opened Contracts
  import opened Regex
  import opened ParserUtils
  import opened Listing
  import Dedupe

  /** `MISSAV_ITEM_REGEX`: group 1 the poster href, group 2 the thumbnail `src`, group 3 the title
      href, group 4 the title link's inner HTML. */
  datatype Expressions = Expressions(item: Matcher)

  /** The href an item links to: the trimmed title href, or the trimmed poster href when the
      former is blank. */
  function CanonicalHref(titleHref: string, posterHref: string): (r: string)
    ensures NoSpaceAtEnds(r)
    ensures r == "" <==> AllSpace(titleHref) && AllSpace(posterHref)
    ensures !AllSpace(titleHref) ==> r == Trim(titleHref)
  {
    TrimEmptyIffBlank(titleHref);
    TrimEmptyIffBlank(posterHref);
    if Trim(titleHref) != "" then Trim(titleHref) else Trim(posterHref)
  }

  /** An item the parser keeps: both hrefs and the title HTML are present, the canonical href
      contains `/v/`, and the cleaned title is not empty. */
  predicate ItemAccepted(m: Match) {
    && m.Group(1) != "" && m.Group(3) != "" && m.Group(4) != ""
    && Contains(CanonicalHref(m.Group(3), m.Group(1)), "/v/")
    && CleanText(m.Group(4)) != ""
  }

  /** One pass of the item loop. */
  function Item(api: UrlApi, pageUrl: string, m: Match): (r: Option<ParsedItem>)
    ensures r.Some? <==> ItemAccepted(m)
    ensures r.Some? ==>
              && r.value.title == CleanText(m.Group(4)) && r.value.title != "" && Normalized(r.value.title)
              && r.value.url == ToAbsoluteUrl(api, CanonicalHref(m.Group(3), m.Group(1)), pageUrl)
              && (r.value.previewImageUrl.Some? <==> m.Group(2) != "")
              && (m.Group(2) != "" ==> r.value.previewImageUrl == Some(ToAbsoluteUrl(api, Trim(m.Group(2)), pageUrl)))
              && r.value.summary.None? && r.value.rawHtmlSnippet.None? && r.value.price.None?
  {
    var posterHref := m.Group(1);
    var previewImageUrl := m.Group(2);
    var titleHref := m.Group(3);
    var rawTitle := m.Group(4);
    if posterHref == "" || titleHref == "" || rawTitle == "" then None
    else
      var canonicalHref := CanonicalHref(titleHref, posterHref);
      if !Contains(canonicalHref, "/v/") then None
      else
        var title := CleanText(rawTitle);
        if title == "" then None
        else
          Some(ParsedItem(title, ToAbsoluteUrl(api, canonicalHref, pageUrl), None, None, None,
                          if previewImageUrl != "" then Some(ToAbsoluteUrl(api, Trim(previewImageUrl), pageUrl)) else None))
  }

  function Items(api: UrlApi, pageUrl: string): Match -> Option<ParsedItem> {
    m => Item(api, pageUrl, m)
  }

  /** `missavWeeklyViewsParser`. */
  function Parse(api: UrlApi, ex: Expressions, html: string, pageUrl: string): (r: seq<ParsedItem>)
    ensures var ms := ex.item(html);
            && (forall x :: x in r ==> exists i :: 0 <= i < |ms| && Item(api, pageUrl, ms[i]) == Some(x))
            && (forall i :: 0 <= i < |ms| && ItemAccepted(ms[i]) ==>
                  UrlTitleKey(Item(api, pageUrl, ms[i]).value) in Dedupe.Keys(r, UrlTitleKey))
            && Dedupe.DistinctKeys(r, UrlTitleKey)
            && (r == [] <==> forall i :: 0 <= i < |ms| ==> !ItemAccepted(ms[i]))
            && Dedupe.FirstOccurrences(r, FilterMap(ms, Items(api, pageUrl)), UrlTitleKey)
  {
    Collect(ex.item(html), Items(api, pageUrl))
  }
}
