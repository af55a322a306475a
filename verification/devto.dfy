/** The dev.to latest-articles parser: article links first, heading links only as a fallback. */
module Devto {
  import opened Wrappers
  import opened Strings
  import opened Urls
  import opened Contracts
  import opened Regex
  import opened ParserUtils
  import opened Listing
  import Dedupe

  /** `DEVTO_ARTICLE_LINK_REGEX` and `DEVTO_HEADING_LINK_REGEX`: group 1 the href, group 2 the
      link's inner HTML. */
  datatype Expressions = Expressions(articleLink: Matcher, headingLink: Matcher)

  /** Some match of the sequence is accepted by the loop body. */
  predicate AnyAccepted(ms: seq<Match>) {
    exists i :: 0 <= i < |ms| && LinkAccepted(ms[i])
  }

  /** The matches whose accepted items are kept: the article links when any of them is accepted,
      otherwise the heading links. */
  function Source(ex: Expressions, html: string): (ms: seq<Match>)
    ensures AnyAccepted(ex.articleLink(html)) ==> ms == ex.articleLink(html)
    ensures !AnyAccepted(ex.articleLink(html)) ==> ms == ex.headingLink(html)
  {
    if AnyAccepted(ex.articleLink(html)) then ex.articleLink(html) else ex.headingLink(html)
  }

  /** `devtoLatestParser`: the primary loop, the heading loop when the primary one collected
      nothing, then first-wins de-duplication. */
  function Parse(api: UrlApi, ex: Expressions, html: string, pageUrl: string): (r: seq<ParsedItem>)
    ensures Dedupe.DistinctKeys(r, UrlTitleKey)
    ensures Dedupe.FirstOccurrences(r, FilterMap(Source(ex, html), LinkItems(api, pageUrl)), UrlTitleKey)
  {
    FilterMapEmpty(ex.articleLink(html), LinkItems(api, pageUrl));
    var primary := FilterMap(ex.articleLink(html), LinkItems(api, pageUrl));
    var parsed := if primary != [] then primary
                  else FilterMap(ex.headingLink(html), LinkItems(api, pageUrl));
    DedupeByUrlAndTitle(parsed)
  }

  /** The heading fallback is used exactly when no article link is accepted, and then every item
      comes from a heading link; otherwise every item comes from an article link. The two loops
      never mix. */
  lemma ParseFallback(api: UrlApi, ex: Expressions, html: string, pageUrl: string)
    ensures var ms := Source(ex, html);
            var r := Parse(api, ex, html, pageUrl);
            && (forall x :: x in r ==> exists i :: 0 <= i < |ms| && LinkShaped(api, pageUrl, ms[i], x))
            && (forall i :: 0 <= i < |ms| && LinkAccepted(ms[i]) ==>
                  UrlTitleKey(LinkItem(api, pageUrl, ms[i]).value) in Dedupe.Keys(r, UrlTitleKey))
            && Dedupe.DistinctKeys(r, UrlTitleKey)
            && (r == [] <==> !AnyAccepted(ex.articleLink(html)) && !AnyAccepted(ex.headingLink(html)))
  {
    ParseIsCollect(api, ex, html, pageUrl);
    CollectLinks(api, pageUrl, Source(ex, html));
  }

  /** Choosing the loop first and collecting once is the same as the parser's two loops. */
  lemma ParseIsCollect(api: UrlApi, ex: Expressions, html: string, pageUrl: string)
    ensures Parse(api, ex, html, pageUrl) == Collect(Source(ex, html), LinkItems(api, pageUrl))
  {
    var f := LinkItems(api, pageUrl);
    FilterMapEmpty(ex.articleLink(html), f);
  }
}
