/** The Hacker News front-page parser. */
module HackerNews {
  import opened Wrappers
  import opened Strings
  import opened Urls
  import opened Contracts
  import opened Regex
  import opened ParserUtils
  import opened Listing
  import Dedupe

  /** `HN_ITEM_REGEX`: one match per story row, group 1 the link's href, group 2 its inner HTML. */
  datatype Expressions = Expressions(item: Matcher)

  /** `hackerNewsParser`. */
  function Parse(api: UrlApi, ex: Expressions, html: string, pageUrl: string): (r: seq<ParsedItem>)
    ensures var ms := ex.item(html);
            && (forall x :: x in r ==> exists i :: 0 <= i < |ms| && LinkShaped(api, pageUrl, ms[i], x))
            && (forall i :: 0 <= i < |ms| && LinkAccepted(ms[i]) ==>
                  UrlTitleKey(LinkItem(api, pageUrl, ms[i]).value) in Dedupe.Keys(r, UrlTitleKey))
            && Dedupe.DistinctKeys(r, UrlTitleKey)
            && (r == [] <==> forall i :: 0 <= i < |ms| ==> !LinkAccepted(ms[i]))
            && Dedupe.FirstOccurrences(r, FilterMap(ms, LinkItems(api, pageUrl)), UrlTitleKey)
  {
    CollectLinks(api, pageUrl, ex.item(html));
    Collect(ex.item(html), LinkItems(api, pageUrl))
  }
}
