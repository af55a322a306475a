/** The Kone hot-listing parser: article cards from the page markup, or, when there are none, the
    articles of the packed page payload; article URLs are rewritten to `/s/<sub>/<id>` and keep
    only the listing mode. */
module Kone {
  import opened Wrappers
  import opened Strings
  import opened Urls
  import opened Contracts
  import opened Regex
  import opened ParserUtils
  import opened Attributes
  import opened Listing
  import Dedupe

  /** `PACKED_ARTICLE_REGEX` (group 1 the id, group 2 the escaped title, group 3 the preview),
      `ARTICLE_ANCHOR_TAG_REGEX` (the whole opening tag), `PREVIEW_IMAGE_REGEX` (group 1 the
      `src`, group 2 the `alt`) and `CONTEXT_PREVIEW_IMAGE_REGEX` (group 1 the `src`). */
  datatype Expressions = Expressions(packedArticle: Matcher, anchorTag: Matcher, previewImage: Matcher, contextPreview: Matcher)

  /** `JSON.parse` of a JSON text that should be a string literal: its value, or none when it
      throws. */
  type JsonString = string -> Option<string>

  /** How far forward from an anchor its preview may be. */
  const RowContextWindow: nat := 4000

  /** The sub used when the page URL names none. */
  const DefaultSub := "pornvideo"

  /** The characters that end a path segment in the expressions `[^/?#]+`. */
  const SegmentStops := "/?#"

  /** A non-empty path segment, as `[^/?#]+` captures it. */
  predicate Segment(x: string) {
    x != "" && forall k :: 0 <= k < |x| ==> x[k] !in SegmentStops
  }

  // ---------------------------------------------------------------- decodePackedString

  /** `input.replace(/"/g, '\\"')`. */
  function EscapeQuotes(input: string): string {
    ReplaceAll(input, "\"", "\\\"")
  }

  /** Every double quote of the text is preceded by a backslash. */
  predicate QuotesEscaped(t: string) {
    forall k :: 0 <= k < |t| && t[k] == '"' ==> k > 0 && t[k - 1] == '\\'
  }

  /** After escaping, no double quote is left bare. */
  lemma {:induction false} EscapeQuotesEscaped(input: string)
    ensures QuotesEscaped(EscapeQuotes(input))
    decreases |input|
  {
    if |input| > 0 {
      EscapeQuotesEscaped(input[1..]);
      var t := EscapeQuotes(input[1..]);
      var r := EscapeQuotes(input);
      if input[0] == '"' {
        assert StartsWith(input, "\"");
        assert r == "\\\"" + t;
        forall k | 0 <= k < |r| && r[k] == '"' ensures k > 0 && r[k - 1] == '\\' {
          if k >= 2 {
            assert t[k - 2] == '"';
          }
        }
      } else {
        assert !StartsWith(input, "\"");
        assert r == [input[0]] + t;
        forall k | 0 <= k < |r| && r[k] == '"' ensures k > 0 && r[k - 1] == '\\' {
          if k >= 1 {
            assert t[k - 1] == '"';
          }
        }
      }
    }
  }

  /** The JSON text `decodePackedString` hands to `JSON.parse`. */
  function JsonLiteral(input: string): (r: string)
    ensures |r| >= 2 && r[0] == '"' && r[|r| - 1] == '"'
    ensures QuotesEscaped(r[1..|r| - 1])
  {
    EscapeQuotesEscaped(input);
    var r := "\"" + EscapeQuotes(input) + "\"";
    assert r[1..|r| - 1] == EscapeQuotes(input);
    r
  }

  /** `decodePackedString`: the decoded literal, or the input itself when decoding fails. */
  function DecodePackedString(json: JsonString, input: string): (r: string)
    ensures json(JsonLiteral(input)).None? ==> r == input
    ensures json(JsonLiteral(input)).Some? ==> r == json(JsonLiteral(input)).value
  {
    json(JsonLiteral(input)).GetOr(input)
  }

  // ---------------------------------------------------------------- page URL

  /** `^\/s\/([^/?#]+)` on a pathname: the sub it names, or the default. */
  function SubOfPath(pathname: string): (r: string)
    ensures Segment(r)
    ensures r == DefaultSub || StartsWith(pathname, "/s/" + r)
  {
    if StartsWith(pathname, "/s/") then
      var e := FindAny(pathname, SegmentStops, 3);
      if e > 3 then
        assert pathname[..3 + (e - 3)] == pathname[..3] + pathname[3..e];
        pathname[3..e]
      else DefaultSub
    else DefaultSub
  }

  /** Reading the sub back: a path `/s/<sub>` followed by nothing or by a segment end names
      `<sub>`. */
  lemma SubOfPathRoundTrip(sub: string, rest: string)
    requires Segment(sub)
    requires rest == "" || rest[0] in SegmentStops
    ensures SubOfPath("/s/" + sub + rest) == sub
  {
    var p := "/s/" + sub + rest;
    assert p[..3] == "/s/";
    assert forall k :: 3 <= k < 3 + |sub| ==> p[k] == sub[k - 3];
    FindAnyAt(p, SegmentStops, 3, 3 + |sub|);
    assert p[3..3 + |sub|] == sub;
  }

  /** `getSubHandle`. */
  function SubHandle(api: UrlApi, pageUrl: string): (r: string)
    ensures Segment(r)
    ensures api.parse(pageUrl, None).None? ==> r == DefaultSub
  {
    match api.parse(pageUrl, None)
    case None => DefaultSub
    case Some(u) => SubOfPath(u.pathname)
  }

  /** `getMode`: the page URL's `mode` parameter, none when it is absent or the URL is malformed. */
  function GetMode(api: UrlApi, pageUrl: string): (r: Option<string>)
    ensures api.parse(pageUrl, None).None? ==> r.None?
    ensures api.parse(pageUrl, None).Some? ==> r == QueryGet(api.parse(pageUrl, None).value.query, "mode")
  {
    match api.parse(pageUrl, None)
    case None => None
    case Some(u) => QueryGet(u.query, "mode")
  }

  /** `url.searchParams.set('mode', mode)` when the mode is non-empty. */
  function WithMode(u: Url, mode: Option<string>): (r: Url)
    ensures r.origin == u.origin && r.pathname == u.pathname && r.hash == u.hash
    ensures mode.Some? && mode.value != "" ==>
              QueryGet(r.query, "mode") == mode && Count(r.query, "mode") == 1
              && forall name :: name != "mode" ==> QueryGet(r.query, name) == QueryGet(u.query, name)
    ensures !(mode.Some? && mode.value != "") ==> r == u
  {
    if mode.Some? && mode.value != "" then
      var q := QuerySet(u.query, "mode", mode.value);
      QuerySetGet(u.query, "mode", mode.value, "mode");
      forall name | name != "mode" ensures QueryGet(q, name) == QueryGet(u.query, name) {
        QuerySetGet(u.query, "mode", mode.value, name);
      }
      u.(query := q)
    else u
  }

  // ---------------------------------------------------------------- article URLs

  /** The path-absolute reference `/s/<sub>/<id>`. */
  function ArticleRef(sub: string, id: string): string {
    "/s/" + sub + "/" + id
  }

  /** `buildArticleUrl`: the reference resolved against the page with the page's mode, or a fixed
      `https://kone.gg` URL when resolving throws. */
  function BuildArticleUrl(api: UrlApi, pageUrl: string, sub: string, id: string): (r: string)
    ensures api.parse(ArticleRef(sub, id), Some(pageUrl)).None? ==> r == "https://kone.gg" + ArticleRef(sub, id)
    ensures api.parse(ArticleRef(sub, id), Some(pageUrl)).Some? ==>
              r == api.serialize(WithMode(api.parse(ArticleRef(sub, id), Some(pageUrl)).value, GetMode(api, pageUrl)))
  {
    match api.parse(ArticleRef(sub, id), Some(pageUrl))
    case None => "https://kone.gg/s/" + sub + "/" + id
    case Some(u) => api.serialize(WithMode(u, GetMode(api, pageUrl)))
  }

  /** `^\/s\/([^/?#]+)\/([^/?#]+)` on a pathname: its sub and article id. */
  function ArticlePath(pathname: string): (r: Option<(string, string)>)
    ensures r.Some? ==> Segment(r.value.0) && Segment(r.value.1)
                        && StartsWith(pathname, ArticleRef(r.value.0, r.value.1))
  {
    if !StartsWith(pathname, "/s/") then None
    else
      var e1 := FindAny(pathname, SegmentStops, 3);
      if e1 == 3 || e1 == |pathname| || pathname[e1] != '/' then None
      else
        var e2 := FindAny(pathname, SegmentStops, e1 + 1);
        if e2 == e1 + 1 then None
        else
          var sub := pathname[3..e1];
          var id := pathname[e1 + 1..e2];
          assert pathname[..e2] == ArticleRef(sub, id);
          Some((sub, id))
  }

  /** Reading an article path back gives its sub and id, whatever follows the id's end. */
  lemma ArticlePathRoundTrip(sub: string, id: string, rest: string)
    requires Segment(sub) && Segment(id)
    requires rest == "" || rest[0] in SegmentStops
    ensures ArticlePath(ArticleRef(sub, id) + rest) == Some((sub, id))
  {
    var p := ArticleRef(sub, id) + rest;
    var e1 := 3 + |sub|;
    assert p[..3] == "/s/";
    assert forall k :: 3 <= k < e1 ==> p[k] == sub[k - 3];
    FindAnyAt(p, SegmentStops, 3, e1);
    assert p[e1] == '/';
    assert forall k :: e1 + 1 <= k < e1 + 1 + |id| ==> p[k] == id[k - e1 - 1];
    FindAnyAt(p, SegmentStops, e1 + 1, e1 + 1 + |id|);
    assert p[3..e1] == sub;
    assert p[e1 + 1..e1 + 1 + |id|] == id;
  }

  /** The URL record an article href is rewritten to, when its path names an article and the
      short reference resolves: the href's own `mode`, else the page's, on the bare article URL. */
  function ArticleTarget(api: UrlApi, url: Url, pageUrl: string): Option<Url> {
    match ArticlePath(url.pathname)
    case None => None
    case Some((sub, id)) =>
      match api.parse(ArticleRef(sub, id), Some(pageUrl))
      case None => None
      case Some(normalized) =>
        var mode := match QueryGet(url.query, "mode")
          case Some(v) => Some(v)
          case None => GetMode(api, pageUrl);
        Some(WithMode(normalized, mode))
  }

  /** `normalizeArticleUrl`. */
  function NormalizeArticleUrl(api: UrlApi, rawHref: string, pageUrl: string): (r: string)
    ensures api.parse(rawHref, Some(pageUrl)).None? ==> r == ToAbsoluteUrl(api, rawHref, pageUrl)
  {
    match api.parse(rawHref, Some(pageUrl))
    case None => ToAbsoluteUrl(api, rawHref, pageUrl)
    case Some(url) =>
      if ArticlePath(url.pathname).None? then api.serialize(url)
      else
        match ArticleTarget(api, url, pageUrl)
        case None => ToAbsoluteUrl(api, rawHref, pageUrl)
        case Some(target) => api.serialize(target)
  }

  /** What URL resolution promises for a path-absolute reference without `?` or `#`: the
      resolved URL has no query. */
  ghost predicate QuerylessResolution(api: UrlApi) {
    forall ref, base :: '?' !in ref && '#' !in ref && api.parse(ref, Some(base)).Some? ==>
      api.parse(ref, Some(base)).value.query == []
  }

  lemma ArticleRefPlain(sub: string, id: string)
    requires Segment(sub) && Segment(id)
    ensures '?' !in ArticleRef(sub, id) && '#' !in ArticleRef(sub, id)
  {
    var p := ArticleRef(sub, id);
    forall k | 0 <= k < |p| ensures p[k] != '?' && p[k] != '#' {
      if 3 <= k < 3 + |sub| {
        assert p[k] == sub[k - 3];
      } else if 4 + |sub| <= k {
        assert p[k] == id[k - 4 - |sub|];
      }
    }
  }

  /** The rewritten article URL keeps no query parameter but `mode`: it carries the href's own
      `mode` (even an empty one), else the page's, once, and only when that mode is non-empty. */
  lemma ArticleTargetQuery(api: UrlApi, url: Url, pageUrl: string)
    requires QuerylessResolution(api)
    requires ArticleTarget(api, url, pageUrl).Some?
    ensures var t := ArticleTarget(api, url, pageUrl).value;
            var mode := if QueryGet(url.query, "mode").Some? then QueryGet(url.query, "mode") else GetMode(api, pageUrl);
            && (forall name :: name != "mode" ==> QueryGet(t.query, name).None?)
            && (mode.Some? && mode.value != "" ==> QueryGet(t.query, "mode") == mode)
            && (!(mode.Some? && mode.value != "") ==> t.query == [])
  {
    var p := ArticlePath(url.pathname).value;
    ArticleRefPlain(p.0, p.1);
  }

  // ---------------------------------------------------------------- card anchors

  /** `getAttribute`: the leftmost `name="value"`, the value possibly empty. */
  function GetAttribute(tagHtml: string, name: string): Option<string> {
    ExecAttribute(tagHtml, name, DoubleQuote)
  }

  /** The length of the `https?:\/\/` match (case-insensitive) at the start of `href`, or 0 when
      there is none. */
  function SchemeLength(href: string): (n: nat)
    ensures n == 0 || n == 7 || n == 8
    ensures n <= |href|
  {
    if |href| >= 7 && Lower(href[..4]) == "http" then
      if LowerChar(href[4]) == 's' then
        if |href| >= 8 && href[5..8] == "://" then 8 else 0
      else if href[4..7] == "://" then 7 else 0
    else 0
  }

  /** The length of the `^https?:\/\/[^/]+` match (case-insensitive) at the start of `href`, or 0
      when there is none. */
  function OriginLength(href: string): (n: nat)
    ensures n <= |href|
    ensures n > 0 ==> n == |href| || href[n] == '/'
  {
    var p := SchemeLength(href);
    if p == 0 then 0
    else
      var e := FindChar(href, '/', p);
      if e > p then e else 0
  }

  /** `href.replace(/^https?:\/\/[^/]+/i, '')`: the scheme and host are cut off. */
  function StripOrigin(href: string): (r: string)
    ensures |r| <= |href| && r == href[|href| - |r|..]
    ensures r != href ==> r == "" || r[0] == '/'
  {
    href[OriginLength(href)..]
  }

  /** Cutting the origin off an absolute URL leaves its path and what follows. */
  lemma StripOriginOf(scheme: string, host: string, rest: string)
    requires scheme == "http" || scheme == "https"
    requires host != "" && '/' !in host
    requires rest == "" || rest[0] == '/'
    ensures StripOrigin(scheme + "://" + host + rest) == rest
  {
    var h := scheme + "://" + host + rest;
    OriginOf(scheme, host, rest);
    assert h[|scheme| + 3 + |host|..] == rest;
  }

  /** The origin of an absolute URL spans its scheme, `://` and its host. */
  lemma OriginOf(scheme: string, host: string, rest: string)
    requires scheme == "http" || scheme == "https"
    requires host != "" && '/' !in host
    requires rest == "" || rest[0] == '/'
    ensures OriginLength(scheme + "://" + host + rest) == |scheme| + 3 + |host|
  {
    var lead := scheme + "://";
    var h := lead + (host + rest);
    assert scheme + "://" + host + rest == h;
    SchemeOf(lead, host + rest);
    var e := |lead| + |host|;
    forall k | |lead| <= k < e ensures h[k] != '/' {
      assert h[k] == host[k - |lead|];
    }
    FindCharAt(h, '/', |lead|, e);
  }

  /** `http://` and `https://` are recognised whatever follows. */
  lemma SchemeOf(lead: string, tail: string)
    requires lead == "http://" || lead == "https://"
    ensures SchemeLength(lead + tail) == |lead|
  {
    var h := lead + tail;
    assert h[..|lead|] == lead;
    assert h[..4] == lead[..4] == "http";
    LowerHttp();
    if lead == "https://" {
      assert h[4] == 's' && h[5..8] == lead[5..8];
    } else {
      assert h[4] == ':' && h[4..7] == lead[4..7];
    }
  }

  lemma LowerHttp()
    ensures Lower("http") == "http"
  {
    var l := Lower("http");
    assert l[0] == 'h' && l[1] == 't' && l[2] == 't' && l[3] == 'p';
  }

  /** `/^\/?s\/[^/?#]+\/[^/?#]+/i.test(rest)`. */
  predicate ArticleLike(rest: string) {
    var p := if |rest| > 0 && rest[0] == '/' then 1 else 0;
    && p + 2 <= |rest| && LowerChar(rest[p]) == 's' && rest[p + 1] == '/'
    && var e := FindAny(rest, SegmentStops, p + 2);
       e > p + 2 && e + 1 < |rest| && rest[e] == '/' && rest[e + 1] !in SegmentStops
  }

  /** Every article reference passes the test, whatever follows it. */
  lemma ArticleRefIsArticleLike(sub: string, id: string, rest: string)
    requires Segment(sub) && Segment(id)
    ensures ArticleLike(ArticleRef(sub, id) + rest)
  {
    var p := ArticleRef(sub, id) + rest;
    var e1 := 3 + |sub|;
    assert p[0] == '/' && p[1] == 's' && p[2] == '/';
    assert forall k :: 3 <= k < e1 ==> p[k] == sub[k - 3];
    FindAnyAt(p, SegmentStops, 3, e1);
    assert p[e1] == '/' && p[e1 + 1] == id[0];
  }

  /** The text of the first `CONTEXT_PREVIEW_IMAGE_REGEX` search: the 4000 characters starting at
      the anchor. */
  function RowContext(html: string, index: nat): (r: string)
    ensures index <= |html| ==>
              r == html[index..if index + RowContextWindow <= |html| then index + RowContextWindow else |html|]
  {
    JsSlice(html, index, index + RowContextWindow)
  }

  /** The preview found after the anchor: the first context image, trimmed and made absolute, or
      "" when there is none. */
  function RowPreview(api: UrlApi, ex: Expressions, html: string, pageUrl: string, index: nat): (r: string)
    ensures var first := Exec(ex.contextPreview, RowContext(html, index));
            r != "" ==> first.Some? && Trim(first.value.Group(1)) != ""
                        && r == ToAbsoluteUrl(api, Trim(first.value.Group(1)), pageUrl)
    ensures var first := Exec(ex.contextPreview, RowContext(html, index));
            first.Some? && Trim(first.value.Group(1)) != "" ==>
              r == ToAbsoluteUrl(api, Trim(first.value.Group(1)), pageUrl)
  {
    match Exec(ex.contextPreview, RowContext(html, index))
    case None => ""
    case Some(image) =>
      var rowPreview := Trim(image.Group(1));
      if rowPreview != "" then ToAbsoluteUrl(api, rowPreview, pageUrl) else ""
  }

  // ---------------------------------------------------------------- preview-by-title map

  /** The key an `alt` text is filed under: decoded, cleaned and lower-cased. */
  function AltKey(m: Match): string {
    Lower(CleanText(DecodeHtmlEntities(m.Group(2))))
  }

  /** An image the map may use: a non-blank `src`, a non-empty `alt`, and a non-empty key. */
  predicate AltAccepted(m: Match) {
    Trim(m.Group(1)) != "" && m.Group(2) != "" && AltKey(m) != ""
  }

  function AltPreview(api: UrlApi, pageUrl: string, m: Match): string {
    ToAbsoluteUrl(api, Trim(m.Group(1)), pageUrl)
  }

  /** What one image offers the map: its key and preview when it is accepted. */
  function AltEntry(api: UrlApi, pageUrl: string, m: Match): (r: Option<(string, string)>)
    ensures r.Some? <==> AltAccepted(m)
    ensures r.Some? ==> r.value == (AltKey(m), AltPreview(api, pageUrl, m))
  {
    if AltAccepted(m) then Some((AltKey(m), AltPreview(api, pageUrl, m))) else None
  }

  /** Files each present entry under its key unless the key is already taken, in order. */
  function FirstWins(entries: seq<Option<(string, string)>>): map<string, string> {
    if |entries| == 0 then map[]
    else
      var previews := FirstWins(entries[..|entries| - 1]);
      var e := entries[|entries| - 1];
      if e.Some? && e.value.0 !in previews then previews[e.value.0 := e.value.1] else previews
  }

  /** The entry at `i` is the first present one with its key. */
  predicate FirstEntry(entries: seq<Option<(string, string)>>, i: nat)
    requires i < |entries|
  {
    entries[i].Some?
    && forall j :: 0 <= j < i ==> !(entries[j].Some? && entries[j].value.0 == entries[i].value.0)
  }

  /** Every present entry's key is in the map. */
  lemma {:induction false} FirstWinsComplete(entries: seq<Option<(string, string)>>)
    ensures forall i :: 0 <= i < |entries| && entries[i].Some? ==> entries[i].value.0 in FirstWins(entries)
    decreases |entries|
  {
    if |entries| > 0 {
      var n := |entries| - 1;
      FirstWinsComplete(entries[..n]);
      assert forall i :: 0 <= i < n ==> entries[..n][i] == entries[i];
    }
  }

  /** Each key of the map comes from the first entry carrying it, with that entry's value. */
  lemma {:induction false} FirstWinsFirst(entries: seq<Option<(string, string)>>, k: string)
    requires k in FirstWins(entries)
    ensures exists i :: 0 <= i < |entries| && FirstEntry(entries, i) && entries[i].value == (k, FirstWins(entries)[k])
    decreases |entries|
  {
    var n := |entries| - 1;
    var init := entries[..n];
    var previews := FirstWins(init);
    if k in previews {
      FirstWinsFirst(init, k);
      var i :| 0 <= i < n && FirstEntry(init, i) && init[i].value == (k, previews[k]);
      assert forall j :: 0 <= j <= i ==> init[j] == entries[j];
      assert FirstEntry(entries, i);
    } else {
      FirstWinsComplete(init);
      forall j | 0 <= j < n ensures !(entries[j].Some? && entries[j].value.0 == k) {
        assert init[j] == entries[j];
      }
      assert FirstEntry(entries, n);
    }
  }

  /** `previewByTitle`: the loop keeps, for each key, the first accepted image carrying it. */
  function PreviewByTitle(api: UrlApi, pageUrl: string, images: seq<Match>): map<string, string> {
    FirstWins(seq(|images|, i requires 0 <= i < |images| => AltEntry(api, pageUrl, images[i])))
  }

  /** The image at `i` is the first accepted one with its key. */
  predicate FirstWithKey(images: seq<Match>, i: nat)
    requires i < |images|
  {
    AltAccepted(images[i])
    && forall j :: 0 <= j < i ==> !(AltAccepted(images[j]) && AltKey(images[j]) == AltKey(images[i]))
  }

  /** Every accepted image's key is in the map. */
  lemma PreviewByTitleComplete(api: UrlApi, pageUrl: string, images: seq<Match>)
    ensures forall i :: 0 <= i < |images| && AltAccepted(images[i]) ==> AltKey(images[i]) in PreviewByTitle(api, pageUrl, images)
  {
    var entries := seq(|images|, i requires 0 <= i < |images| => AltEntry(api, pageUrl, images[i]));
    FirstWinsComplete(entries);
    assert forall i :: 0 <= i < |images| ==> entries[i] == AltEntry(api, pageUrl, images[i]);
  }

  /** Each key of the map comes from the first accepted image carrying it, with that image's
      preview. */
  lemma PreviewByTitleFirst(api: UrlApi, pageUrl: string, images: seq<Match>, k: string)
    requires k in PreviewByTitle(api, pageUrl, images)
    ensures exists i :: 0 <= i < |images| && FirstWithKey(images, i) && AltKey(images[i]) == k
                        && PreviewByTitle(api, pageUrl, images)[k] == AltPreview(api, pageUrl, images[i])
  {
    var entries := seq(|images|, i requires 0 <= i < |images| => AltEntry(api, pageUrl, images[i]));
    FirstWinsFirst(entries, k);
    var i :| 0 <= i < |entries| && FirstEntry(entries, i) && entries[i].value == (k, FirstWins(entries)[k]);
    assert entries[i] == AltEntry(api, pageUrl, images[i]);
    forall j | 0 <= j < i ensures !(AltAccepted(images[j]) && AltKey(images[j]) == AltKey(images[i])) {
      assert entries[j] == AltEntry(api, pageUrl, images[j]);
    }
    assert FirstWithKey(images, i);
  }

  /** The preview of a card: the one after its anchor, else the map's entry for its lower-cased
      title, else "" (and the card is dropped). */
  function CardPreview(api: UrlApi, ex: Expressions, html: string, pageUrl: string, previews: map<string, string>, title: string, index: nat): (r: string)
    ensures RowPreview(api, ex, html, pageUrl, index) != "" ==> r == RowPreview(api, ex, html, pageUrl, index)
    ensures RowPreview(api, ex, html, pageUrl, index) == "" && Lower(title) in previews ==> r == previews[Lower(title)]
    ensures RowPreview(api, ex, html, pageUrl, index) == "" && Lower(title) !in previews ==> r == ""
  {
    var rowPreview := RowPreview(api, ex, html, pageUrl, index);
    if rowPreview != "" then rowPreview
    else if Lower(title) in previews then previews[Lower(title)]
    else ""
  }

  /** An anchor the card loop keeps: it has a non-empty title and href, the href (entities decoded,
      origin stripped) is an article path, the title cleans to something, and a preview is found. */
  predicate CardAccepted(api: UrlApi, ex: Expressions, html: string, pageUrl: string, previews: map<string, string>, m: Match) {
    && GetAttribute(m.text, "title").Some? && GetAttribute(m.text, "title").value != ""
    && GetAttribute(m.text, "href").Some? && GetAttribute(m.text, "href").value != ""
    && ArticleLike(StripOrigin(DecodeHtmlEntities(GetAttribute(m.text, "href").value)))
    && CleanText(DecodeHtmlEntities(GetAttribute(m.text, "title").value)) != ""
    && CardPreview(api, ex, html, pageUrl, previews, CleanText(DecodeHtmlEntities(GetAttribute(m.text, "title").value)), m.index) != ""
  }

  /** One pass of the anchor loop of `parseFromDomCards`. */
  function CardItem(api: UrlApi, ex: Expressions, html: string, pageUrl: string, previews: map<string, string>, m: Match): (r: Option<ParsedItem>)
    ensures r.Some? <==> CardAccepted(api, ex, html, pageUrl, previews, m)
    ensures r.Some? ==>
              && GetAttribute(m.text, "title").Some? && GetAttribute(m.text, "href").Some?
              && ArticleLike(StripOrigin(DecodeHtmlEntities(GetAttribute(m.text, "href").value)))
              && r.value.title == CleanText(DecodeHtmlEntities(GetAttribute(m.text, "title").value))
              && r.value.title != "" && Normalized(r.value.title)
              && r.value.url == NormalizeArticleUrl(api, DecodeHtmlEntities(GetAttribute(m.text, "href").value), pageUrl)
              && r.value.previewImageUrl == Some(CardPreview(api, ex, html, pageUrl, previews, r.value.title, m.index))
              && r.value.previewImageUrl.value != ""
  {
    var anchorTagHtml := m.text;
    match GetAttribute(anchorTagHtml, "title")
    case None => None
    case Some(rawTitle) =>
      match GetAttribute(anchorTagHtml, "href")
      case None => None
      case Some(rawHref) =>
        if rawTitle == "" || rawHref == "" then None
        else
          var href := DecodeHtmlEntities(rawHref);
          if !ArticleLike(StripOrigin(href)) then None
          else
            var title := CleanText(DecodeHtmlEntities(rawTitle));
            if title == "" then None
            else
              var preview := CardPreview(api, ex, html, pageUrl, previews, title, m.index);
              if preview == "" then None
              else Some(ParsedItem(title, NormalizeArticleUrl(api, href, pageUrl), None, None, None, Some(preview)))
  }

  function CardItems(api: UrlApi, ex: Expressions, html: string, pageUrl: string, previews: map<string, string>): Match -> Option<ParsedItem> {
    m => CardItem(api, ex, html, pageUrl, previews, m)
  }

  /** `parseFromDomCards`. */
  function ParseFromDomCards(api: UrlApi, ex: Expressions, html: string, pageUrl: string): (r: seq<ParsedItem>)
    ensures var previews := PreviewByTitle(api, pageUrl, ex.previewImage(html));
            var ms := ex.anchorTag(html);
            && (forall x :: x in r ==> exists i :: 0 <= i < |ms| && CardItem(api, ex, html, pageUrl, previews, ms[i]) == Some(x))
            && (forall i :: 0 <= i < |ms| && CardAccepted(api, ex, html, pageUrl, previews, ms[i]) ==>
                  UrlTitleKey(CardItem(api, ex, html, pageUrl, previews, ms[i]).value) in Dedupe.Keys(r, UrlTitleKey))
            && Dedupe.DistinctKeys(r, UrlTitleKey)
            && (r == [] <==> forall i :: 0 <= i < |ms| ==> !CardAccepted(api, ex, html, pageUrl, previews, ms[i]))
            && Dedupe.FirstOccurrences(r, FilterMap(ms, CardItems(api, ex, html, pageUrl, previews)), UrlTitleKey)
  {
    var previews := PreviewByTitle(api, pageUrl, ex.previewImage(html));
    Collect(ex.anchorTag(html), CardItems(api, ex, html, pageUrl, previews))
  }

  // ---------------------------------------------------------------- packed payload

  /** A packed article the parser keeps: id, title and preview are present and the decoded title
      cleans to something. */
  predicate PackedAccepted(json: JsonString, m: Match) {
    Trim(m.Group(1)) != "" && m.Group(2) != "" && Trim(m.Group(3)) != ""
    && CleanText(DecodePackedString(json, m.Group(2))) != ""
  }

  /** One pass of the loop of `parseFromPackedPayload`. */
  function PackedItem(api: UrlApi, json: JsonString, pageUrl: string, sub: string, m: Match): (r: Option<ParsedItem>)
    ensures r.Some? <==> PackedAccepted(json, m)
    ensures r.Some? ==>
              && r.value.title == CleanText(DecodePackedString(json, m.Group(2))) && Normalized(r.value.title)
              && r.value.url == BuildArticleUrl(api, pageUrl, sub, Trim(m.Group(1)))
              && r.value.previewImageUrl == Some(ToAbsoluteUrl(api, Trim(m.Group(3)), pageUrl))
  {
    var articleId := Trim(m.Group(1));
    var rawTitle := m.Group(2);
    var rawPreviewUrl := Trim(m.Group(3));
    if articleId == "" || rawTitle == "" || rawPreviewUrl == "" then None
    else
      var title := CleanText(DecodePackedString(json, rawTitle));
      if title == "" then None
      else Some(ParsedItem(title, BuildArticleUrl(api, pageUrl, sub, articleId), None, None, None,
                           Some(ToAbsoluteUrl(api, rawPreviewUrl, pageUrl))))
  }

  function PackedItems(api: UrlApi, json: JsonString, pageUrl: string, sub: string): Match -> Option<ParsedItem> {
    m => PackedItem(api, json, pageUrl, sub, m)
  }

  /** `parseFromPackedPayload`: every article is placed under the page's sub. */
  function ParseFromPackedPayload(api: UrlApi, json: JsonString, ex: Expressions, html: string, pageUrl: string): (r: seq<ParsedItem>)
    ensures var ms := ex.packedArticle(html);
            var sub := SubHandle(api, pageUrl);
            && (forall x :: x in r ==> exists i :: 0 <= i < |ms| && PackedItem(api, json, pageUrl, sub, ms[i]) == Some(x))
            && (forall i :: 0 <= i < |ms| && PackedAccepted(json, ms[i]) ==>
                  UrlTitleKey(PackedItem(api, json, pageUrl, sub, ms[i]).value) in Dedupe.Keys(r, UrlTitleKey))
            && Dedupe.DistinctKeys(r, UrlTitleKey)
            && (r == [] <==> forall i :: 0 <= i < |ms| ==> !PackedAccepted(json, ms[i]))
            && Dedupe.FirstOccurrences(r, FilterMap(ms, PackedItems(api, json, pageUrl, sub)), UrlTitleKey)
  {
    Collect(ex.packedArticle(html), PackedItems(api, json, pageUrl, SubHandle(api, pageUrl)))
  }

  // ---------------------------------------------------------------- the parser

  /** Every card item has a title and a preview. */
  lemma CardItemsHavePreviews(api: UrlApi, ex: Expressions, html: string, pageUrl: string)
    ensures forall x :: x in ParseFromDomCards(api, ex, html, pageUrl) ==> x.title != "" && x.previewImageUrl.Some?
  {
    var previews := PreviewByTitle(api, pageUrl, ex.previewImage(html));
    var ms := ex.anchorTag(html);
    forall x | x in ParseFromDomCards(api, ex, html, pageUrl) ensures x.title != "" && x.previewImageUrl.Some? {
      var i :| 0 <= i < |ms| && CardItem(api, ex, html, pageUrl, previews, ms[i]) == Some(x);
    }
  }

  /** Every packed item has a title and a preview. */
  lemma PackedItemsHavePreviews(api: UrlApi, json: JsonString, ex: Expressions, html: string, pageUrl: string)
    ensures forall x :: x in ParseFromPackedPayload(api, json, ex, html, pageUrl) ==> x.title != "" && x.previewImageUrl.Some?
  {
    var ms := ex.packedArticle(html);
    var sub := SubHandle(api, pageUrl);
    forall x | x in ParseFromPackedPayload(api, json, ex, html, pageUrl) ensures x.title != "" && x.previewImageUrl.Some? {
      var i :| 0 <= i < |ms| && PackedItem(api, json, pageUrl, sub, ms[i]) == Some(x);
    }
  }

  /** `konePornvideoHotParser`: the card items when there are any, otherwise the packed ones. */
  function Parse(api: UrlApi, json: JsonString, ex: Expressions, html: string, pageUrl: string): (r: seq<ParsedItem>)
    ensures ParseFromDomCards(api, ex, html, pageUrl) != [] ==> r == ParseFromDomCards(api, ex, html, pageUrl)
    ensures ParseFromDomCards(api, ex, html, pageUrl) == [] ==> r == ParseFromPackedPayload(api, json, ex, html, pageUrl)
    ensures forall x :: x in r ==> x.title != "" && x.previewImageUrl.Some?
  {
    CardItemsHavePreviews(api, ex, html, pageUrl);
    PackedItemsHavePreviews(api, json, ex, html, pageUrl);
    var domItems := ParseFromDomCards(api, ex, html, pageUrl);
    if |domItems| > 0 then domItems
    else
      var packedItems := ParseFromPackedPayload(api, json, ex, html, pageUrl);
      if |packedItems| > 0 then packedItems else []
  }
}
