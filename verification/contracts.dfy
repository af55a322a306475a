/** The records exchanged between the parsers, the repository and the site table. */
module Contracts {
  import opened Wrappers

  /** Why a crawl failed. */
  datatype CrawlErrorCode =
    | TabNotFound
    | TabUrlMismatch
    | ContentScriptUnavailable
    | ParseFailed
    | NoItems
    | InvalidRequest
    | Unknown

  /** A crawlable site: its default page, the URL globs it answers to, and the parser to use. */
  datatype TargetSite = TargetSite(
    id: string,
    name: string,
    url: string,
    matchPatterns: seq<string>,
    parserId: string)

  /** What a parser extracts from one listing entry. The parsers also fill in a preview image,
      which the repository never stores. */
  datatype ParsedItem = ParsedItem(
    title: string,
    url: string,
    summary: Option<string>,
    price: Option<real>,
    rawHtmlSnippet: Option<string>,
    previewImageUrl: Option<string>)

  /** A stored listing entry; `crawledAt` is a millisecond timestamp. */
  datatype CrawledItem = CrawledItem(
    id: string,
    siteId: string,
    title: string,
    url: string,
    summary: Option<string>,
    price: Option<real>,
    rawHtmlSnippet: Option<string>,
    crawledAt: int)

  datatype RunStatus = RunSuccess | RunPartial | RunFailed

  /** One crawl attempt, keyed by `runId`. */
  datatype CrawlRun = CrawlRun(
    runId: string,
    siteId: string,
    startedAt: int,
    finishedAt: int,
    status: RunStatus,
    itemCount: int,
    errorCode: Option<CrawlErrorCode>)
}
