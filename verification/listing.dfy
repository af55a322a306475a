/** What the site parsers share: each turns the matches of its expressions into candidate items,
    keeps the accepted ones in match order, and de-duplicates them first-wins
    (`dedupeByUrlAndTitle`). */
module Listing {
  import opened Wrappers
  import opened Strings
  import opened Urls
  import opened Contracts
  import opened Regex
  import opened ParserUtils
  import Dedupe

  /** A parser as the registry sees it: page HTML and page URL to parsed items. */
  type SiteParser = (string, string) -> seq<ParsedItem>

  /** The accepted candidates, in order, de-duplicated first-wins. */
  function Collect<M>(ms: seq<M>, accept: M -> Option<ParsedItem>): (r: seq<ParsedItem>)
    ensures Dedupe.DistinctKeys(r, UrlTitleKey)
    ensures forall x :: x in r ==> exists i :: 0 <= i < |ms| && accept(ms[i]) == Some(x)
    ensures forall i :: 0 <= i < |ms| && accept(ms[i]).Some? ==>
              UrlTitleKey(accept(ms[i]).value) in Dedupe.Keys(r, UrlTitleKey)
    ensures r == [] <==> forall i :: 0 <= i < |ms| ==> accept(ms[i]).None?
    ensures Dedupe.FirstOccurrences(r, FilterMap(ms, accept), UrlTitleKey)
  {
    FilterMapEmpty(ms, accept);
    DedupeByUrlAndTitle(FilterMap(ms, accept))
  }

  /** A link match of the Hacker News and dev.to expressions is used when its href (group 1) is
      non-empty and its inner HTML (group 2) has some text left once tags and entities are gone. */
  predicate LinkAccepted(m: Match) {
    m.Group(1) != "" && !AllSpace(DecodeHtmlEntities(StripTags(m.Group(2))))
  }

  /** The item a link match yields: the cleaned inner HTML as title and as snippet, and the href
      resolved against the page. */
  predicate LinkShaped(api: UrlApi, pageUrl: string, m: Match, x: ParsedItem) {
    && x.title == CleanText(m.Group(2))
    && x.title != "" && Normalized(x.title)
    && x.rawHtmlSnippet == Some(x.title)
    && x.url == ToAbsoluteUrl(api, m.Group(1), pageUrl)
    && x.summary.None? && x.price.None? && x.previewImageUrl.None?
  }

  /** One pass of the Hacker News or dev.to loop body over a link match. */
  function LinkItem(api: UrlApi, pageUrl: string, m: Match): (r: Option<ParsedItem>)
    ensures r.Some? <==> LinkAccepted(m)
    ensures r.Some? ==> LinkShaped(api, pageUrl, m, r.value)
  {
    CleanTextEmpty(m.Group(2));
    var rawUrl := m.Group(1);
    var rawTitle := m.Group(2);
    if rawUrl == "" || rawTitle == "" then None
    else
      var title := CleanText(rawTitle);
      if title == "" then None
      else Some(ParsedItem(title, ToAbsoluteUrl(api, rawUrl, pageUrl), None, None, Some(CleanText(rawTitle)), None))
  }

  /** The loop body as a function value, the same one wherever it is used. */
  function LinkItems(api: UrlApi, pageUrl: string): Match -> Option<ParsedItem> {
    m => LinkItem(api, pageUrl, m)
  }

  /** Every collected link item is shaped by some link match. */
  lemma CollectedLinksShaped(api: UrlApi, pageUrl: string, ms: seq<Match>)
    ensures forall x :: x in Collect(ms, LinkItems(api, pageUrl)) ==>
              exists i :: 0 <= i < |ms| && LinkShaped(api, pageUrl, ms[i], x)
  {
    var r := Collect(ms, LinkItems(api, pageUrl));
    forall x | x in r ensures exists i :: 0 <= i < |ms| && LinkShaped(api, pageUrl, ms[i], x) {
      var i :| 0 <= i < |ms| && LinkItems(api, pageUrl)(ms[i]) == Some(x);
      assert LinkShaped(api, pageUrl, ms[i], x);
    }
  }

  /** Collecting link matches: every item is shaped by some link match, every accepted match's key
      is kept, keys are distinct, nothing is collected exactly when no match is accepted, and the
      items are the first of each key among the accepted links, in match order. */
  lemma CollectLinks(api: UrlApi, pageUrl: string, ms: seq<Match>)
    ensures var r := Collect(ms, LinkItems(api, pageUrl));
            && (forall x :: x in r ==> exists i :: 0 <= i < |ms| && LinkShaped(api, pageUrl, ms[i], x))
            && (forall i :: 0 <= i < |ms| && LinkAccepted(ms[i]) ==>
                  UrlTitleKey(LinkItem(api, pageUrl, ms[i]).value) in Dedupe.Keys(r, UrlTitleKey))
            && Dedupe.DistinctKeys(r, UrlTitleKey)
            && (r == [] <==> forall i :: 0 <= i < |ms| ==> !LinkAccepted(ms[i]))
            && Dedupe.FirstOccurrences(r, FilterMap(ms, LinkItems(api, pageUrl)), UrlTitleKey)
  {
    CollectedLinksShaped(api, pageUrl, ms);
  }
}
