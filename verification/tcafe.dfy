/** The Tcafe hot-best parser: labelled sections (daily or weekly best), each a list of rows. */
module Tcafe {
  import opened Wrappers
  import opened Strings
  import opened Urls
  import opened Contracts
  import opened Regex
  import opened ParserUtils
  import opened Listing
  import Dedupe

  /** `HOT_SECTION_REGEX` (group 1 the section title HTML, group 2 the list HTML), `HOT_ROW_REGEX`
      (group 1 the href, group 2 the anchor's inner HTML) and `COMMENT_COUNT_REGEX` (group 1 the
      comment count digits). */
  datatype Expressions = Expressions(section: Matcher, row: Matcher, commentCount: Matcher)

  const Daily := "일간 베스트"
  const Weekly := "주간 베스트"

  /** `toSectionLabel`: the daily label when the cleaned title mentions today's best, otherwise the
      weekly label when it mentions the weekly best, otherwise none (the section is skipped). */
  function SectionLabel(rawTitleHtml: string): (r: Option<string>)
    ensures r == Some(Daily) <==> Contains(CleanText(rawTitleHtml), "오늘의 베스트")
    ensures r == Some(Weekly) <==>
              !Contains(CleanText(rawTitleHtml), "오늘의 베스트") && Contains(CleanText(rawTitleHtml), Weekly)
    ensures r.None? <==>
              !Contains(CleanText(rawTitleHtml), "오늘의 베스트") && !Contains(CleanText(rawTitleHtml), Weekly)
  {
    var title := CleanText(rawTitleHtml);
    if Contains(title, "오늘의 베스트") then Some(Daily)
    else if Contains(title, Weekly) then Some(Weekly)
    else None
  }

  /** `replace(/^\+\d+\s*\/, '')`: a leading `+`, the digits after it and the whitespace after
      those are removed; a string that does not start with `+` and a digit is left alone. */
  function StripCount(s: string): (r: string)
    ensures |r| <= |s| && r == s[|s| - |r|..]
    ensures !(|s| >= 2 && s[0] == '+' && IsDigit(s[1])) ==> r == s
    ensures |s| >= 2 && s[0] == '+' && IsDigit(s[1]) ==>
              |r| <= |s| - 2 && (|r| > 0 ==> !IsSpace(r[0]))
  {
    if |s| >= 2 && s[0] == '+' && IsDigit(s[1]) then s[SkipSpaces(s, SkipDigits(s, 1))..] else s
  }

  /** Only the first count is removed: `+`, digits and whitespace in front of any rest that does
      not continue the digits or the whitespace come off, and the rest stays as it is, even when
      it starts with another count. */
  lemma StripCountOnce(digits: string, spaces: string, rest: string)
    requires |digits| > 0 && forall k :: 0 <= k < |digits| ==> IsDigit(digits[k])
    requires AllSpace(spaces)
    requires |rest| > 0 ==> !IsSpace(rest[0]) && (spaces != "" || !IsDigit(rest[0]))
    ensures StripCount("+" + digits + spaces + rest) == rest
  {
    var s := "+" + digits + spaces + rest;
    var e := 1 + |digits|;
    assert forall k :: 1 <= k < e ==> s[k] == digits[k - 1];
    assert forall k :: e <= k < e + |spaces| ==> s[k] == spaces[k - e];
    assert forall k :: e + |spaces| <= k < |s| ==> s[k] == rest[k - e - |spaces|];
    if |spaces| > 0 {
      assert !IsDigit(s[e]) by {
        assert IsSpace(spaces[0]);
      }
    }
    assert SkipDigits(s, 1) == e by {
      SkipDigitsAt(s, 1, e);
    }
    SkipSpacesAt(s, e, e + |spaces|);
    assert s[e + |spaces|..] == rest;
  }

  /** `normalizeTitle`: the cleaned anchor text without its leading count, trimmed. */
  function NormalizeTitle(rawAnchorHtml: string): (r: string)
    ensures NoSpaceAtEnds(r)
  {
    Trim(StripCount(CleanText(rawAnchorHtml)))
  }

  /** The summary: the label, followed by the comment count when there is one. */
  function RowSummary(sectionLabel: string, commentCount: Option<string>): (r: string)
    ensures StartsWith(r, sectionLabel)
    ensures commentCount.Some? && commentCount.value != "" ==> r[|sectionLabel|..] == " · 댓글 +" + commentCount.value
    ensures !(commentCount.Some? && commentCount.value != "") ==> r == sectionLabel
  {
    if commentCount.Some? && commentCount.value != "" then
      var r := sectionLabel + " · 댓글 +" + commentCount.value;
      assert r[..|sectionLabel|] == sectionLabel;
      r
    else sectionLabel
  }

  /** Group 1 of the first `COMMENT_COUNT_REGEX` match in the anchor's inner HTML, if any. */
  function CommentCount(ex: Expressions, rowAnchorHtml: string): (r: Option<string>)
    ensures r.None? <==> |ex.commentCount(rowAnchorHtml)| == 0
    ensures r.Some? ==> r.value == ex.commentCount(rowAnchorHtml)[0].Group(1)
  {
    match Exec(ex.commentCount, rowAnchorHtml)
    case Some(c) => Some(c.Group(1))
    case None => None
  }

  /** A row the parser keeps: a non-blank href and a non-empty normalised title. */
  predicate RowAccepted(m: Match) {
    Trim(m.Group(1)) != "" && NormalizeTitle(m.Group(2)) != ""
  }

  /** One pass of the inner row loop, within a section with the given label. */
  function Row(api: UrlApi, ex: Expressions, sectionLabel: string, pageUrl: string, m: Match): (r: Option<ParsedItem>)
    ensures r.Some? <==> RowAccepted(m)
    ensures r.Some? ==>
              && r.value.title == NormalizeTitle(m.Group(2)) && r.value.title != ""
              && r.value.url == ToAbsoluteUrl(api, DecodeHtmlEntities(Trim(m.Group(1))), pageUrl)
              && r.value.summary.Some? && StartsWith(r.value.summary.value, sectionLabel)
              && r.value.summary == Some(RowSummary(sectionLabel, CommentCount(ex, m.Group(2))))
              && r.value.previewImageUrl.None? && r.value.price.None? && r.value.rawHtmlSnippet.None?
  {
    var rawUrl := Trim(m.Group(1));
    var rowAnchorHtml := m.Group(2);
    var title := NormalizeTitle(rowAnchorHtml);
    if rawUrl == "" || title == "" then None
    else
      var canonicalUrl := DecodeHtmlEntities(rawUrl);
      Some(ParsedItem(title, ToAbsoluteUrl(api, canonicalUrl, pageUrl), Some(RowSummary(sectionLabel, CommentCount(ex, rowAnchorHtml))), None, None, None))
  }

  function Rows(api: UrlApi, ex: Expressions, sectionLabel: string, pageUrl: string): Match -> Option<ParsedItem> {
    m => Row(api, ex, sectionLabel, pageUrl, m)
  }

  /** The items of one section: none when it has no label, otherwise its accepted rows. */
  function SectionItems(api: UrlApi, ex: Expressions, pageUrl: string, sm: Match): (r: seq<ParsedItem>)
    ensures SectionLabel(sm.Group(1)).None? ==> r == []
    ensures forall x :: x in r ==>
              exists m :: m in ex.row(sm.Group(2)) && Row(api, ex, SectionLabel(sm.Group(1)).value, pageUrl, m) == Some(x)
  {
    match SectionLabel(sm.Group(1))
    case None => []
    case Some(sectionLabel) =>
      var rows := ex.row(sm.Group(2));
      var r := FilterMap(rows, Rows(api, ex, sectionLabel, pageUrl));
      r
  }

  /** Every accepted row of a labelled section is among its items. */
  lemma SectionItemsComplete(api: UrlApi, ex: Expressions, pageUrl: string, sm: Match, j: nat)
    requires SectionLabel(sm.Group(1)).Some?
    requires j < |ex.row(sm.Group(2))| && RowAccepted(ex.row(sm.Group(2))[j])
    ensures Row(api, ex, SectionLabel(sm.Group(1)).value, pageUrl, ex.row(sm.Group(2))[j]).value
            in SectionItems(api, ex, pageUrl, sm)
  {
    var sectionLabel := SectionLabel(sm.Group(1)).value;
    var rows := ex.row(sm.Group(2));
    assert SectionItems(api, ex, pageUrl, sm) == FilterMap(rows, Rows(api, ex, sectionLabel, pageUrl));
    assert Rows(api, ex, sectionLabel, pageUrl)(rows[j]).Some?;
  }

  function Sections(api: UrlApi, ex: Expressions, pageUrl: string): Match -> seq<ParsedItem> {
    sm => SectionItems(api, ex, pageUrl, sm)
  }

  /** The items of all sections, section after section. */
  function AllSections(api: UrlApi, ex: Expressions, pageUrl: string, sections: seq<Match>): (r: seq<ParsedItem>)
    ensures forall x :: x in r ==> exists i :: 0 <= i < |sections| && x in SectionItems(api, ex, pageUrl, sections[i])
    ensures forall i, x :: 0 <= i < |sections| && x in SectionItems(api, ex, pageUrl, sections[i]) ==> x in r
    ensures (forall i :: 0 <= i < |sections| ==> SectionLabel(sections[i].Group(1)).None?) ==> r == []
  {
    FlatMap(sections, Sections(api, ex, pageUrl))
  }

  /** The sections are visited in document order: one more section appends its items. */
  lemma AllSectionsSnoc(api: UrlApi, ex: Expressions, pageUrl: string, sections: seq<Match>, sm: Match)
    ensures AllSections(api, ex, pageUrl, sections + [sm])
            == AllSections(api, ex, pageUrl, sections) + SectionItems(api, ex, pageUrl, sm)
  {
    FlatMapSnoc(sections, sm, Sections(api, ex, pageUrl));
  }

  /** `tcafeD2001HotBestParser`: the sections' rows in document order, de-duplicated first-wins
      across sections. */
  function Parse(api: UrlApi, ex: Expressions, html: string, pageUrl: string): (r: seq<ParsedItem>)
    ensures Dedupe.DistinctKeys(r, UrlTitleKey)
    ensures forall x :: x in r ==> x in AllSections(api, ex, pageUrl, ex.section(html))
    ensures (forall i :: 0 <= i < |ex.section(html)| ==> SectionLabel(ex.section(html)[i].Group(1)).None?) ==> r == []
    ensures forall x :: x in AllSections(api, ex, pageUrl, ex.section(html)) ==> UrlTitleKey(x) in Dedupe.Keys(r, UrlTitleKey)
    ensures Dedupe.FirstOccurrences(r, AllSections(api, ex, pageUrl, ex.section(html)), UrlTitleKey)
  {
    var all := AllSections(api, ex, pageUrl, ex.section(html));
    DedupeKeepsMemberKeys(all);
    DedupeByUrlAndTitle(all)
  }

  /** Every accepted row of a labelled section is represented in the result by its key. */
  lemma ParseComplete(api: UrlApi, ex: Expressions, html: string, pageUrl: string, i: nat, j: nat)
    requires i < |ex.section(html)| && SectionLabel(ex.section(html)[i].Group(1)).Some?
    requires var rows := ex.row(ex.section(html)[i].Group(2));
             j < |rows| && RowAccepted(rows[j])
    ensures var sm := ex.section(html)[i];
            var row := Row(api, ex, SectionLabel(sm.Group(1)).value, pageUrl, ex.row(sm.Group(2))[j]);
            UrlTitleKey(row.value) in Dedupe.Keys(Parse(api, ex, html, pageUrl), UrlTitleKey)
  {
    var sm := ex.section(html)[i];
    var row := Row(api, ex, SectionLabel(sm.Group(1)).value, pageUrl, ex.row(sm.Group(2))[j]);
    SectionItemsComplete(api, ex, pageUrl, sm, j);
  }

  /** A kept row of a labelled section: a non-empty title without surrounding whitespace, and a
      summary that starts with the daily or the weekly label. */
  predicate RowShaped(x: ParsedItem) {
    && x.title != "" && NoSpaceAtEnds(x.title)
    && x.summary.Some?
    && (StartsWith(x.summary.value, Daily) || StartsWith(x.summary.value, Weekly))
  }

  lemma SectionItemsShaped(api: UrlApi, ex: Expressions, pageUrl: string, sm: Match)
    ensures forall x :: x in SectionItems(api, ex, pageUrl, sm) ==> RowShaped(x)
  {
    forall x | x in SectionItems(api, ex, pageUrl, sm) ensures RowShaped(x) {
      var sectionLabel := SectionLabel(sm.Group(1)).value;
      var m :| m in ex.row(sm.Group(2)) && Row(api, ex, sectionLabel, pageUrl, m) == Some(x);
      assert sectionLabel == Daily || sectionLabel == Weekly;
    }
  }

  /** Every item the parser returns has that shape. */
  lemma ParsedRows(api: UrlApi, ex: Expressions, html: string, pageUrl: string)
    ensures forall x :: x in Parse(api, ex, html, pageUrl) ==> RowShaped(x)
  {
    var sections := ex.section(html);
    forall x | x in Parse(api, ex, html, pageUrl) ensures RowShaped(x) {
      var i :| 0 <= i < |sections| && x in SectionItems(api, ex, pageUrl, sections[i]);
      SectionItemsShaped(api, ex, pageUrl, sections[i]);
    }
  }
}
