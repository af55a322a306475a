/** The KissJAV weekly most-popular parser: video cards with an attribute-or-markup title and the
    first usable thumbnail. */
module Kissjav {
  import opened Wrappers
  import opened Strings
  import opened Urls
  import opened Contracts
  import opened Regex
  import opened ParserUtils
  import opened Attributes
  import opened Listing
  import Dedupe

  /** `KISSJAV_CARD_REGEX` (group 1 the anchor's attributes, group 2 its inner HTML), the
      `div.title` expression of `extractCardTitle`, and the image expression of
      `extractPreviewImage` (group 1 the `data-original` or `src` value). */
  datatype Expressions = Expressions(card: Matcher, titleDiv: Matcher, image: Matcher)

  /** `extractAttribute`: the leftmost `attribute=["']value["']` with a non-empty value. */
  function ExtractAttribute(source: string, attribute: string): Option<string> {
    ExecAttribute(source, attribute, EitherQuote)
  }

  /** `extractCardTitle`: the cleaned `title` attribute when there is one, otherwise the cleaned
      text of the first `div.title` inside the anchor (empty when there is none). */
  function CardTitle(ex: Expressions, attributes: string, inner: string): (r: string)
    ensures Normalized(r)
    ensures ExtractAttribute(attributes, "title").Some? ==>
              r == CleanText(ExtractAttribute(attributes, "title").value)
    ensures ExtractAttribute(attributes, "title").None? && Exec(ex.titleDiv, inner).Some? ==>
              r == CleanText(Exec(ex.titleDiv, inner).value.Group(1))
    ensures ExtractAttribute(attributes, "title").None? && Exec(ex.titleDiv, inner).None? ==> r == ""
  {
    match ExtractAttribute(attributes, "title")
    case Some(t) => CleanText(t)
    case None =>
      match Exec(ex.titleDiv, inner)
      case Some(m) => CleanText(m.Group(1))
      case None => CleanText("")
  }

  /** An image capture the preview may use: non-blank once trimmed and not a `data:` URL. */
  predicate Usable(m: Match) {
    Trim(m.Group(1)) != "" && !StartsWith(Trim(m.Group(1)), "data:")
  }

  /** The index of the first usable image at or after `i`, or `|images|` when there is none. */
  function FirstUsable(images: seq<Match>, i: nat): (j: nat)
    requires i <= |images|
    ensures i <= j <= |images|
    ensures j < |images| ==> Usable(images[j])
    ensures forall k :: i <= k < j ==> !Usable(images[k])
    decreases |images| - i
  {
    if i == |images| || Usable(images[i]) then i else FirstUsable(images, i + 1)
  }

  /** `extractPreviewImage`: the first usable image capture, trimmed and made absolute. */
  function PreviewImage(api: UrlApi, pageUrl: string, images: seq<Match>): (r: Option<string>)
    ensures r.None? <==> forall i :: 0 <= i < |images| ==> !Usable(images[i])
    ensures r.Some? ==> exists i :: 0 <= i < |images| && Usable(images[i])
                          && r.value == ToAbsoluteUrl(api, Trim(images[i].Group(1)), pageUrl)
                          && forall k :: 0 <= k < i ==> !Usable(images[k])
  {
    var j := FirstUsable(images, 0);
    if j < |images| then Some(ToAbsoluteUrl(api, Trim(images[j].Group(1)), pageUrl)) else None
  }

  /** A card the parser keeps: its `href` exists and contains `/video/`, and its title is not
      empty. */
  predicate CardAccepted(ex: Expressions, m: Match) {
    var href := ExtractAttribute(m.Group(1), "href");
    href.Some? && Contains(href.value, "/video/") && CardTitle(ex, m.Group(1), m.Group(2)) != ""
  }

  /** One pass of the card loop. */
  function CardItem(api: UrlApi, ex: Expressions, pageUrl: string, m: Match): (r: Option<ParsedItem>)
    ensures r.Some? <==> CardAccepted(ex, m)
    ensures r.Some? ==>
              && r.value.title == CardTitle(ex, m.Group(1), m.Group(2))
              && r.value.url == ToAbsoluteUrl(api, ExtractAttribute(m.Group(1), "href").value, pageUrl)
              && r.value.previewImageUrl == PreviewImage(api, pageUrl, ex.image(m.Group(2)))
              && r.value.summary.None? && r.value.rawHtmlSnippet.None? && r.value.price.None?
  {
    var attributes := m.Group(1);
    var inner := m.Group(2);
    match ExtractAttribute(attributes, "href")
    case None => None
    case Some(rawUrl) =>
      if rawUrl == "" || !Contains(rawUrl, "/video/") then None
      else
        var title := CardTitle(ex, attributes, inner);
        if title == "" then None
        else Some(ParsedItem(title, ToAbsoluteUrl(api, rawUrl, pageUrl), None, None, None,
                             PreviewImage(api, pageUrl, ex.image(inner))))
  }

  function CardItems(api: UrlApi, ex: Expressions, pageUrl: string): Match -> Option<ParsedItem> {
    m => CardItem(api, ex, pageUrl, m)
  }

  /** `kissjavMostPopularWeekParser`. */
  function Parse(api: UrlApi, ex: Expressions, html: string, pageUrl: string): (r: seq<ParsedItem>)
    ensures var ms := ex.card(html);
            && (forall x :: x in r ==> exists i :: 0 <= i < |ms| && CardItem(api, ex, pageUrl, ms[i]) == Some(x))
            && (forall i :: 0 <= i < |ms| && CardAccepted(ex, ms[i]) ==>
                  UrlTitleKey(CardItem(api, ex, pageUrl, ms[i]).value) in Dedupe.Keys(r, UrlTitleKey))
            && Dedupe.DistinctKeys(r, UrlTitleKey)
            && (r == [] <==> forall i :: 0 <= i < |ms| ==> !CardAccepted(ex, ms[i]))
            && Dedupe.FirstOccurrences(r, FilterMap(ms, CardItems(api, ex, pageUrl)), UrlTitleKey)
  {
    Collect(ex.card(html), CardItems(api, ex, pageUrl))
  }

  /** What a kept card looks like: a non-empty, normalised title, an href containing `/video/`
      behind its URL, and a preview that is either absent or made from a non-blank capture that
      is not a `data:` URL. */
  ghost predicate CardShaped(api: UrlApi, pageUrl: string, x: ParsedItem) {
    && x.title != "" && Normalized(x.title)
    && (exists h :: Contains(h, "/video/") && x.url == ToAbsoluteUrl(api, h, pageUrl))
    && (x.previewImageUrl.Some? ==>
          exists c :: c != "" && !StartsWith(c, "data:") && x.previewImageUrl.value == ToAbsoluteUrl(api, c, pageUrl))
  }

  lemma CardItemShaped(api: UrlApi, ex: Expressions, pageUrl: string, m: Match)
    requires CardItem(api, ex, pageUrl, m).Some?
    ensures CardShaped(api, pageUrl, CardItem(api, ex, pageUrl, m).value)
  {
    var x := CardItem(api, ex, pageUrl, m).value;
    var h := ExtractAttribute(m.Group(1), "href").value;
    assert Contains(h, "/video/") && x.url == ToAbsoluteUrl(api, h, pageUrl);
    if x.previewImageUrl.Some? {
      var images := ex.image(m.Group(2));
      var j :| 0 <= j < |images| && Usable(images[j])
               && x.previewImageUrl.value == ToAbsoluteUrl(api, Trim(images[j].Group(1)), pageUrl);
      var c := Trim(images[j].Group(1));
      assert c != "" && !StartsWith(c, "data:");
    }
  }

  /** Every card the parser returns has that shape. */
  lemma ParsedCards(api: UrlApi, ex: Expressions, html: string, pageUrl: string)
    ensures forall x :: x in Parse(api, ex, html, pageUrl) ==> CardShaped(api, pageUrl, x)
  {
    var ms := ex.card(html);
    forall x | x in Parse(api, ex, html, pageUrl) ensures CardShaped(api, pageUrl, x) {
      var i :| 0 <= i < |ms| && CardItem(api, ex, pageUrl, ms[i]) == Some(x);
      CardItemShaped(api, ex, pageUrl, ms[i]);
    }
  }
}
