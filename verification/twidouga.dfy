/** The TwiDouga ranking parser: video links, each titled from the rank marker, tweet link and
    preview found in the text just before it. */
module Twidouga {
  import opened Wrappers
  import opened Strings
  import opened Urls
  import opened Contracts
  import opened Regex
  import opened ParserUtils
  import opened Listing
  import Dedupe

  /** `VIDEO_URL_ANCHOR_REGEX` (group 1 the video URL), `RANK_MARKER_REGEX` (group 1 the rank
      digits), `X_LINK_REGEX` (group 1 the tweet URL) and `PREVIEW_IMAGE_REGEX` (group 1 the image
      URL). */
  datatype Expressions = Expressions(videoAnchor: Matcher, rankMarker: Matcher, xLink: Matcher, previewImage: Matcher)

  /** How far back from a video link its context reaches. */
  const ContextWindow: nat := 5000

  /** `html.replace(/\r\n/g, '\n')`. */
  function NormalizeNewlines(html: string): string {
    ReplaceAll(html, "\r\n", "\n")
  }

  /** Text without a carriage return is left as it is. */
  lemma NormalizeNewlinesNoCr(html: string)
    requires '\r' !in html
    ensures NormalizeNewlines(html) == html
  {
    NotContainsWithoutHead(html, "\r\n");
    ReplaceAllAbsent(html, "\r\n", "\n");
  }

  /** The replacement is a single left-to-right pass: a carriage return that precedes a CRLF pair
      survives, and meets the newline that replaced the pair. */
  lemma NormalizeNewlinesSinglePass()
    ensures NormalizeNewlines("\r\r\n") == "\r\n"
  {
    var s := "\r\r\n";
    assert !StartsWith(s, "\r\n");
    assert s[1..] == "\r\n" && StartsWith(s[1..], "\r\n");
    assert s[1..][2..] == "";
  }

  /** `normalizedHtml.slice(max(0, index - 5000), index + match[0].length)`. */
  function Context(text: string, m: Match): (r: string)
    ensures Within(m, text) ==>
              var start := if m.index < ContextWindow then 0 else m.index - ContextWindow;
              r == text[start..m.index + |m.text|]
  {
    var start := if m.index < ContextWindow then 0 else m.index - ContextWindow;
    JsSlice(text, start, m.index + |m.text|)
  }

  /** A match inside the text has a context that ends with the matched text, and reaches back at
      most 5000 characters before it. */
  lemma ContextEndsAtMatch(text: string, m: Match)
    requires Within(m, text)
    ensures |Context(text, m)| <= ContextWindow + |m.text|
    ensures |Context(text, m)| >= |m.text|
    ensures Context(text, m)[|Context(text, m)| - |m.text|..] == m.text
  {
    var start := if m.index < ContextWindow then 0 else m.index - ContextWindow;
    var c := Context(text, m);
    assert c[|c| - |m.text|..] == text[m.index..m.index + |m.text|];
  }

  /** `findLastMatch`: the loop keeps overwriting its answer with each match's group 1. */
  method FindLastMatch(matches: seq<Match>) returns (matched: Option<string>)
    ensures matched.None? <==> |matches| == 0
    ensures matched.Some? ==> matched.value == matches[|matches| - 1].Group(1)
    ensures matched == LastGroup(matches, 1)
  {
    matched := None;
    for i := 0 to |matches|
      invariant matched.None? <==> i == 0
      invariant i > 0 ==> matched == Some(matches[i - 1].Group(1))
    {
      matched := Some(matches[i].Group(1));
    }
  }

  /** `buildTitle`: the rank, the separator, then the tweet URL when it is non-empty and the
      video URL otherwise. */
  function BuildTitle(rank: string, tweetUrl: Option<string>, videoUrl: string): (r: string)
    ensures StartsWith(r, rank + "위 - ")
    ensures tweetUrl.Some? && tweetUrl.value != "" ==> r[|rank| + 4..] == tweetUrl.value
    ensures !(tweetUrl.Some? && tweetUrl.value != "") ==> r[|rank| + 4..] == videoUrl
  {
    var tail := if tweetUrl.Some? && tweetUrl.value != "" then tweetUrl.value else videoUrl;
    var r := rank + "위 - " + tail;
    assert r[..|rank| + 4] == rank + "위 - ";
    r
  }

  /** The rank shown for the `n`-th video link: the last rank marker in its context, or `n`. */
  function Rank(ex: Expressions, context: string, n: nat): (r: string)
    ensures |ex.rankMarker(context)| > 0 ==> r == ex.rankMarker(context)[|ex.rankMarker(context)| - 1].Group(1)
    ensures |ex.rankMarker(context)| == 0 ==> r == NatToString(n) && DecimalValue(r) == n
  {
    NatToStringRoundTrip(n);
    LastGroup(ex.rankMarker(context), 1).GetOr(NatToString(n))
  }

  /** The loop body for the `n`-th video link (counting from 1, skipped links included). */
  function Entry(api: UrlApi, ex: Expressions, text: string, pageUrl: string, n: nat, m: Match): (r: Option<ParsedItem>)
    ensures r.Some? <==> Trim(m.Group(1)) != ""
    ensures r.Some? ==>
              var context := Context(text, m);
              var tweet := LastGroup(ex.xLink(context), 1);
              var preview := LastGroup(ex.previewImage(context), 1);
              && r.value.url == ToAbsoluteUrl(api, Trim(m.Group(1)), pageUrl)
              && r.value.summary == (if tweet.Some? then Some(Trim(tweet.value)) else None)
              && StartsWith(r.value.title, Rank(ex, context, n) + "위 - ")
              && r.value.title[|Rank(ex, context, n)| + 4..]
                 == (if tweet.Some? && Trim(tweet.value) != "" then Trim(tweet.value) else Trim(m.Group(1)))
              && (r.value.previewImageUrl.Some? <==> preview.Some? && Trim(preview.value) != "")
              && (r.value.previewImageUrl.Some? ==>
                    r.value.previewImageUrl.value == ToAbsoluteUrl(api, Trim(preview.value), pageUrl))
              && r.value.price.None? && r.value.rawHtmlSnippet.None?
  {
    var videoUrl := Trim(m.Group(1));
    if videoUrl == "" then None
    else
      var context := Context(text, m);
      var rank := Rank(ex, context, n);
      var tweetUrl := match LastGroup(ex.xLink(context), 1)
        case Some(t) => Some(Trim(t))
        case None => None;
      var preview := match LastGroup(ex.previewImage(context), 1)
        case Some(p) => Trim(p)
        case None => "";
      Some(ParsedItem(BuildTitle(rank, tweetUrl, videoUrl), ToAbsoluteUrl(api, videoUrl, pageUrl),
                      tweetUrl, None, None,
                      if preview != "" then Some(ToAbsoluteUrl(api, preview, pageUrl)) else None))
  }

  /** Each video link paired with its 1-based position among all video links. */
  function Numbered<M>(ms: seq<M>): (r: seq<(nat, M)>)
    ensures |r| == |ms|
    ensures forall i :: 0 <= i < |ms| ==> r[i] == (i + 1, ms[i])
  {
    seq(|ms|, i requires 0 <= i < |ms| => (i + 1, ms[i]))
  }

  function Entries(api: UrlApi, ex: Expressions, text: string, pageUrl: string): ((nat, Match)) -> Option<ParsedItem> {
    (e: (nat, Match)) => Entry(api, ex, text, pageUrl, e.0, e.1)
  }

  /** Every item collected from numbered matches is accepted at some match, with its 1-based
      position. */
  lemma CollectedFromPositions<M>(ms: seq<M>, accept: ((nat, M)) -> Option<ParsedItem>)
    ensures forall x :: x in Collect(Numbered(ms), accept) ==>
              exists i :: 0 <= i < |ms| && accept((i + 1, ms[i])) == Some(x)
  {
    var numbered := Numbered(ms);
    forall x | x in Collect(numbered, accept) ensures exists i :: 0 <= i < |ms| && accept((i + 1, ms[i])) == Some(x) {
      var i :| 0 <= i < |numbered| && accept(numbered[i]) == Some(x);
      assert numbered[i] == (i + 1, ms[i]);
    }
  }

  /** Every collected entry is the entry of some link, at its 1-based position. */
  lemma CollectedEntriesFromLinks(api: UrlApi, ex: Expressions, text: string, pageUrl: string, ms: seq<Match>)
    ensures forall x :: x in Collect(Numbered(ms), Entries(api, ex, text, pageUrl)) ==>
              exists i :: 0 <= i < |ms| && Entry(api, ex, text, pageUrl, i + 1, ms[i]) == Some(x)
  {
    CollectedFromPositions(ms, Entries(api, ex, text, pageUrl));
  }

  /** Every used link is represented, and nothing is collected exactly when no link is used. */
  lemma CollectedEntriesComplete(api: UrlApi, ex: Expressions, text: string, pageUrl: string, ms: seq<Match>)
    ensures var r := Collect(Numbered(ms), Entries(api, ex, text, pageUrl));
            && (forall i :: 0 <= i < |ms| && Trim(ms[i].Group(1)) != "" ==>
                  UrlTitleKey(Entry(api, ex, text, pageUrl, i + 1, ms[i]).value) in Dedupe.Keys(r, UrlTitleKey))
            && (r == [] <==> forall i :: 0 <= i < |ms| ==> Trim(ms[i].Group(1)) == "")
  {
    var numbered := Numbered(ms);
    assert forall i :: 0 <= i < |ms| ==> Entries(api, ex, text, pageUrl)(numbered[i]) == Entry(api, ex, text, pageUrl, i + 1, ms[i]);
  }

  /** `twidougaRankingT1Parser`: every index and context refers to the newline-normalised text. */
  function Parse(api: UrlApi, ex: Expressions, html: string, pageUrl: string): (r: seq<ParsedItem>)
    ensures var text := NormalizeNewlines(html);
            var ms := ex.videoAnchor(text);
            && (forall x :: x in r ==> exists i :: 0 <= i < |ms| && Entry(api, ex, text, pageUrl, i + 1, ms[i]) == Some(x))
            && (forall i :: 0 <= i < |ms| && Trim(ms[i].Group(1)) != "" ==>
                  UrlTitleKey(Entry(api, ex, text, pageUrl, i + 1, ms[i]).value) in Dedupe.Keys(r, UrlTitleKey))
            && Dedupe.DistinctKeys(r, UrlTitleKey)
            && (r == [] <==> forall i :: 0 <= i < |ms| ==> Trim(ms[i].Group(1)) == "")
            && Dedupe.FirstOccurrences(r, FilterMap(Numbered(ms), Entries(api, ex, text, pageUrl)), UrlTitleKey)
  {
    var text := NormalizeNewlines(html);
    var ms := ex.videoAnchor(text);
    CollectedEntriesFromLinks(api, ex, text, pageUrl, ms);
    CollectedEntriesComplete(api, ex, text, pageUrl, ms);
    Collect(Numbered(ms), Entries(api, ex, text, pageUrl))
  }
}
