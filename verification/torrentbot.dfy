/** The TorrentBot top-20 parser: table rows with a title link and plain rank and date cells. */
module Torrentbot {
  import opened Wrappers
  import opened Strings
  import opened Urls
  import opened Contracts
  import opened Regex
  import opened ParserUtils
  import opened Listing
  import Dedupe

  /** `ROW_REGEX` (group 1 the row's HTML), `TITLE_LINK_REGEX` (group 1 the href, group 2 the link's
      inner HTML) and `PLAIN_LI_REGEX` (group 1 a plain cell's text). */
  datatype Expressions = Expressions(row: Matcher, titleLink: Matcher, plainCell: Matcher)

  /** The summary line: `rank위` when there is a rank, the separator only between a rank and a
      date, then the date. */
  function Summary(rank: string, date: string): (r: string)
  {
    (if rank != "" then rank + "위" else "") + (if rank != "" && date != "" then " · " else "") + date
  }

  /** The summary can be read back: it is empty only without rank and date, and otherwise splits
      into the rank with its suffix, the separator, and the date. */
  lemma SummaryParts(rank: string, date: string)
    ensures Summary(rank, date) == "" <==> rank == "" && date == ""
    ensures rank == "" ==> Summary(rank, date) == date
    ensures rank != "" ==> StartsWith(Summary(rank, date), rank + "위")
    ensures rank != "" && date == "" ==> Summary(rank, date) == rank + "위"
    ensures rank != "" && date != "" ==>
              Summary(rank, date)[|rank| + 1..|rank| + 4] == " · " && Summary(rank, date)[|rank| + 4..] == date
  {
    var s := Summary(rank, date);
    if rank != "" {
      assert s[..|rank| + 1] == rank + "위";
      if date != "" {
        assert s == rank + "위" + " · " + date;
        assert s[|rank| + 1..|rank| + 4] == " · ";
        assert s[|rank| + 4..] == date;
      }
    }
  }

  /** The cleaned plain cells of a row, in order. */
  function PlainValues(cells: seq<Match>): (r: seq<string>)
    ensures |r| == |cells|
    ensures forall i :: 0 <= i < |cells| ==> r[i] == CleanText(cells[i].Group(1))
  {
    seq(|cells|, i requires 0 <= i < |cells| => CleanText(cells[i].Group(1)))
  }

  /** A row the parser keeps: it has a title link whose trimmed href is not blank, and the link's
      cleaned text is not empty. */
  predicate RowAccepted(ex: Expressions, m: Match) {
    var t := Exec(ex.titleLink, m.Group(1));
    t.Some? && Trim(t.value.Group(1)) != "" && CleanText(t.value.Group(2)) != ""
  }

  /** One pass of the row loop. */
  function Row(api: UrlApi, ex: Expressions, pageUrl: string, m: Match): (r: Option<ParsedItem>)
    ensures r.Some? <==> RowAccepted(ex, m)
    ensures r.Some? ==>
              var rowHtml := m.Group(1);
              var link := ex.titleLink(rowHtml)[0];
              var values := PlainValues(ex.plainCell(rowHtml));
              && r.value.title == CleanText(link.Group(2)) && Normalized(r.value.title)
              && r.value.url == ToAbsoluteUrl(api, Trim(link.Group(1)), pageUrl)
              && r.value.summary == Some(Summary(if |values| > 0 then values[0] else "",
                                                 if |values| > 1 then values[1] else ""))
              && r.value.previewImageUrl.None? && r.value.price.None? && r.value.rawHtmlSnippet.None?
  {
    var rowHtml := m.Group(1);
    match Exec(ex.titleLink, rowHtml)
    case None => None
    case Some(link) =>
      var rawUrl := Trim(link.Group(1));
      var rawTitle := link.Group(2);
      if rawUrl == "" then None
      else
        var plainValues := PlainValues(ex.plainCell(rowHtml));
        var rank := if |plainValues| > 0 then plainValues[0] else "";
        var date := if |plainValues| > 1 then plainValues[1] else "";
        var title := CleanText(rawTitle);
        if title == "" then None
        else Some(ParsedItem(title, ToAbsoluteUrl(api, rawUrl, pageUrl), Some(Summary(rank, date)), None, None, None))
  }

  function Rows(api: UrlApi, ex: Expressions, pageUrl: string): Match -> Option<ParsedItem> {
    m => Row(api, ex, pageUrl, m)
  }

  /** `torrentbotTopicTop20Parser`. */
  function Parse(api: UrlApi, ex: Expressions, html: string, pageUrl: string): (r: seq<ParsedItem>)
    ensures var ms := ex.row(html);
            && (forall x :: x in r ==> exists i :: 0 <= i < |ms| && Row(api, ex, pageUrl, ms[i]) == Some(x))
            && (forall i :: 0 <= i < |ms| && RowAccepted(ex, ms[i]) ==>
                  UrlTitleKey(Row(api, ex, pageUrl, ms[i]).value) in Dedupe.Keys(r, UrlTitleKey))
            && Dedupe.DistinctKeys(r, UrlTitleKey)
            && (r == [] <==> forall i :: 0 <= i < |ms| ==> !RowAccepted(ex, ms[i]))
            && (forall x :: x in r ==> x.previewImageUrl.None? && x.summary.Some?)
            && Dedupe.FirstOccurrences(r, FilterMap(ms, Rows(api, ex, pageUrl)), UrlTitleKey)
  {
    Collect(ex.row(html), Rows(api, ex, pageUrl))
  }
}
