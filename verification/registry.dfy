/** Dispatch from a site's `parserId` to its parser, and the crawl step that turns a dispatch
    failure into a `PARSE_FAILED` crawl failure. */
module Registry {
  import opened Wrappers
  import opened Strings
  import opened Urls
  import opened Contracts
  import opened Listing
  import Targets
  import HackerNews
  import Devto
  import Kissjav
  import Missav
  import Twidouga
  import Torrentbot
  import Tcafe
  import Kone

  /** Everything the parsers take besides the page: URL handling, `JSON.parse`, and each parser's
      expressions. */
  datatype Env = Env(
    api: UrlApi,
    json: Kone.JsonString,
    hackerNews: HackerNews.Expressions,
    devto: Devto.Expressions,
    kissjav: Kissjav.Expressions,
    missav: Missav.Expressions,
    twidouga: Twidouga.Expressions,
    torrentbot: Torrentbot.Expressions,
    tcafe: Tcafe.Expressions,
    kone: Kone.Expressions)

  /** `parserRegistry`: parser id to parser. */
  type ParserRegistry = map<string, SiteParser>

  function HackerNewsParser(env: Env): SiteParser {
    (html, pageUrl) => HackerNews.Parse(env.api, env.hackerNews, html, pageUrl)
  }

  function DevtoParser(env: Env): SiteParser {
    (html, pageUrl) => Devto.Parse(env.api, env.devto, html, pageUrl)
  }

  function KissjavParser(env: Env): SiteParser {
    (html, pageUrl) => Kissjav.Parse(env.api, env.kissjav, html, pageUrl)
  }

  function MissavParser(env: Env): SiteParser {
    (html, pageUrl) => Missav.Parse(env.api, env.missav, html, pageUrl)
  }

  function TwidougaParser(env: Env): SiteParser {
    (html, pageUrl) => Twidouga.Parse(env.api, env.twidouga, html, pageUrl)
  }

  function TorrentbotParser(env: Env): SiteParser {
    (html, pageUrl) => Torrentbot.Parse(env.api, env.torrentbot, html, pageUrl)
  }

  function TcafeParser(env: Env): SiteParser {
    (html, pageUrl) => Tcafe.Parse(env.api, env.tcafe, html, pageUrl)
  }

  function KoneParser(env: Env): SiteParser {
    (html, pageUrl) => Kone.Parse(env.api, env.json, env.kone, html, pageUrl)
  }

  const UnknownParserId := "Unknown parserId: "

  /** `parseByParserId`: the registered parser's items, or the error it throws for an unknown id;
      the id can be read back from the error. */
  function ParseByParserId(registry: ParserRegistry, parserId: string, html: string, pageUrl: string): (r: Result<seq<ParsedItem>, string>)
    ensures r.Success? <==> parserId in registry
    ensures r.Success? ==> r.value == registry[parserId](html, pageUrl)
    ensures r.Failure? ==> StartsWith(r.error, UnknownParserId) && r.error[|UnknownParserId|..] == parserId
  {
    if parserId in registry then Success(registry[parserId](html, pageUrl))
    else
      var message := UnknownParserId + parserId;
      assert message[..|UnknownParserId|] == UnknownParserId;
      Failure(message)
  }

  /** A thrown `CrawlFailure`: its code, message and optional detail. */
  datatype CrawlFailure = CrawlFailure(code: CrawlErrorCode, message: string, detail: Option<string>)

  const ParseFailedMessage := "HTML 파싱 중 오류가 발생했습니다."

  /** The parse step of `crawlActiveTab`: an error thrown by dispatch becomes a `PARSE_FAILED`
      failure whose detail is the error's message. */
  function ParseStep(registry: ParserRegistry, site: TargetSite, html: string, tabUrl: string): (r: Result<seq<ParsedItem>, CrawlFailure>)
    ensures r.Success? <==> site.parserId in registry
    ensures r.Success? ==> r.value == registry[site.parserId](html, tabUrl)
    ensures r.Failure? ==> r.error.code == ParseFailed && r.error.message == ParseFailedMessage
                           && r.error.detail == Some(UnknownParserId + site.parserId)
  {
    match ParseByParserId(registry, site.parserId, html, tabUrl)
    case Success(items) => Success(items)
    case Failure(message) => Failure(CrawlFailure(ParseFailed, ParseFailedMessage, Some(message)))
  }

  // ---------------------------------------------------------------- the registry as written

  /** The registry as the repository declares it: only the Hacker News and dev.to parsers. */
  function AsWrittenRegistry(env: Env): (r: ParserRegistry)
    ensures r.Keys == {"hacker-news", "devto-latest"}
  {
    map["hacker-news" := HackerNewsParser(env), "devto-latest" := DevtoParser(env)]
  }

  /** No configured site's `parserId` is registered. */
  lemma ConfiguredIdsUnregistered(env: Env)
    ensures forall i :: 0 <= i < |Targets.TargetSites| ==> Targets.TargetSites[i].parserId !in AsWrittenRegistry(env)
  {
    Targets.SiteIdsInOrder();
    Targets.IdsTellApart();
    forall i | 0 <= i < |Targets.TargetSites| ensures Targets.TargetSites[i].parserId !in AsWrittenRegistry(env) {
      assert |Targets.SiteIds[i]| >= 18;
    }
  }

  /** Every crawl of a configured site fails at the parse step with `PARSE_FAILED`, whatever the
      page holds. */
  lemma AsWrittenEveryCrawlFails(env: Env, html: string, tabUrl: string)
    ensures forall i :: 0 <= i < |Targets.TargetSites| ==>
              ParseStep(AsWrittenRegistry(env), Targets.TargetSites[i], html, tabUrl)
              == Failure(CrawlFailure(ParseFailed, ParseFailedMessage, Some(UnknownParserId + Targets.TargetSites[i].parserId)))
  {
    ConfiguredIdsUnregistered(env);
  }

  // ---------------------------------------------------------------- the registry as intended

  /** The six site parsers, each under its site's id. */
  function SiteRegistry(env: Env): (r: ParserRegistry)
    ensures r.Keys == {Targets.KissjavId, Targets.MissavId, Targets.TwidougaId, Targets.TorrentbotId, Targets.TcafeId, Targets.KoneId}
    ensures r[Targets.KissjavId] == KissjavParser(env) && r[Targets.MissavId] == MissavParser(env)
    ensures r[Targets.TwidougaId] == TwidougaParser(env) && r[Targets.TorrentbotId] == TorrentbotParser(env)
    ensures r[Targets.TcafeId] == TcafeParser(env) && r[Targets.KoneId] == KoneParser(env)
  {
    Targets.IdsTellApart();
    map[
      Targets.KissjavId := KissjavParser(env),
      Targets.MissavId := MissavParser(env),
      Targets.TwidougaId := TwidougaParser(env),
      Targets.TorrentbotId := TorrentbotParser(env),
      Targets.TcafeId := TcafeParser(env),
      Targets.KoneId := KoneParser(env)]
  }

  /** The registry with every parser under the id its site names: the two original entries, and
      the six site parsers. */
  function FullRegistry(env: Env): (r: ParserRegistry)
    ensures forall id :: id in AsWrittenRegistry(env) ==> id in r && r[id] == AsWrittenRegistry(env)[id]
    ensures forall id :: id in SiteRegistry(env) ==> id in r && r[id] == SiteRegistry(env)[id]
  {
    Targets.IdsTellApart();
    AsWrittenRegistry(env) + SiteRegistry(env)
  }

  /** The Kissjav site reaches the Kissjav parser. */
  lemma FullRegistryDispatchesKissjav(env: Env, html: string, pageUrl: string)
    ensures ParseByParserId(FullRegistry(env), Targets.KissjavId, html, pageUrl)
            == Success(Kissjav.Parse(env.api, env.kissjav, html, pageUrl))
  {
    assert Targets.KissjavId in SiteRegistry(env);
  }

  /** The Missav site reaches the Missav parser. */
  lemma FullRegistryDispatchesMissav(env: Env, html: string, pageUrl: string)
    ensures ParseByParserId(FullRegistry(env), Targets.MissavId, html, pageUrl)
            == Success(Missav.Parse(env.api, env.missav, html, pageUrl))
  {
    assert Targets.MissavId in SiteRegistry(env);
  }

  /** The Twidouga site reaches the Twidouga parser. */
  lemma FullRegistryDispatchesTwidouga(env: Env, html: string, pageUrl: string)
    ensures ParseByParserId(FullRegistry(env), Targets.TwidougaId, html, pageUrl)
            == Success(Twidouga.Parse(env.api, env.twidouga, html, pageUrl))
  {
    assert Targets.TwidougaId in SiteRegistry(env);
  }

  /** The Torrentbot site reaches the Torrentbot parser. */
  lemma FullRegistryDispatchesTorrentbot(env: Env, html: string, pageUrl: string)
    ensures ParseByParserId(FullRegistry(env), Targets.TorrentbotId, html, pageUrl)
            == Success(Torrentbot.Parse(env.api, env.torrentbot, html, pageUrl))
  {
    assert Targets.TorrentbotId in SiteRegistry(env);
  }

  /** The Tcafe site reaches the Tcafe parser. */
  lemma FullRegistryDispatchesTcafe(env: Env, html: string, pageUrl: string)
    ensures ParseByParserId(FullRegistry(env), Targets.TcafeId, html, pageUrl)
            == Success(Tcafe.Parse(env.api, env.tcafe, html, pageUrl))
  {
    assert Targets.TcafeId in SiteRegistry(env);
  }

  /** The Kone site reaches the Kone parser. */
  lemma FullRegistryDispatchesKone(env: Env, html: string, pageUrl: string)
    ensures ParseByParserId(FullRegistry(env), Targets.KoneId, html, pageUrl)
            == Success(Kone.Parse(env.api, env.json, env.kone, html, pageUrl))
  {
    assert Targets.KoneId in SiteRegistry(env);
  }

  /** With the full registry, no crawl of a configured site fails at the parse step. */
  lemma FullRegistryEveryCrawlParses(env: Env, html: string, tabUrl: string)
    ensures forall i :: 0 <= i < |Targets.TargetSites| ==>
              ParseStep(FullRegistry(env), Targets.TargetSites[i], html, tabUrl).Success?
  {
    forall i | 0 <= i < |Targets.TargetSites|
      ensures ParseStep(FullRegistry(env), Targets.TargetSites[i], html, tabUrl).Success?
    {
      assert Targets.TargetSites[i] in Targets.TargetSites;
    }
  }
}
