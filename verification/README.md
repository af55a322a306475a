# maltlock listing pipeline — a Dafny model

maltlock is a browser extension that scrapes ranking and listing pages from a fixed set of sites. Its
logic runs as a pipeline. The HTML text of a page goes to a per-site parser, which extracts
candidate items from the matches of its regular expressions. The parser keeps the items its skip
rules accept and de-duplicates them first-wins on `lower(url) | lower(trim(title))`. The repository then
normalises every item, derives its id (`siteId:` followed by a djb2-xor hash) and writes it into a
keyed store. The store can list records per site, newest first. A registry picks the parser for a
site by its `parserId`, and the site table decides which URLs belong to which site through anchored
glob patterns.

The model covers these pieces:

- **Text utilities** (`ParserUtils`, `Strings`): tag stripping, entity decoding, whitespace
  normalisation, `cleanText`, `clipText` and the first-wins `dedupeByUrlAndTitle`, written over
  `seq<char>`. The dedupe scheme itself is in `Dedupe`.
- **Hash** (`Hash`): `hashString` on a `bv32` state, reading UTF-16 code units.
- **Repository** (`Repository`): a pure transformer of two maps, items keyed by `id` and runs keyed
  by `runId`. A listing is a method that picks the newest records of one site.
- **Site table and glob matcher** (`Targets`, `Glob`): the six configured sites, the pattern
  compiler, the pattern cache and `siteMatchesUrl`.
- **Parsers**: `HackerNews`, `Devto`, `Kissjav`, `Missav`, `Twidouga`, `Torrentbot`, `Tcafe` and
  `Kone`. Each has an `Expressions` record holding its regular expressions as abstract match
  functions. `Listing` holds the loop scheme they share.
- **Dispatch** (`Registry`): `parseByParserId`, and the step of the crawl that turns a dispatch
  failure into a `PARSE_FAILED` crawl failure.

Everything the program takes from the platform is a parameter of the model:

- **URLs.** WHATWG URL parsing and serialisation are the two functions of a `Urls.UrlApi`. A parsed
  URL is a record: origin, pathname, ordered query pairs and hash.
- **Regular expressions.** Each global regular expression is a `Regex.Matcher`, a function from
  text to its matches in `matchAll` order. A match carries its index, its text and its groups.
  `exec` is the first match.
- **JSON.** `JSON.parse` of a string literal is a `Kone.JsonString`.

The small attribute expressions are written out as concrete scans instead: `getAttribute`,
`extractAttribute`, the `^\+\d+\s*` count prefix, the kone path tests and `<[^>]+>`.

## Model

| member | source | states |
|---|---|---|
| ParserUtils.StripTags | src/parsers/utils.ts:1-3 | Tag replacement never lengthens the text. |
| ParserUtils.StripTagsNoLt | src/parsers/utils.ts:1-3 | Text without `<` passes through unchanged. |
| ParserUtils.StripTagsTag | src/parsers/utils.ts:1-3 | A leading `<…>` tag (non-empty, no `>` inside) becomes exactly one space, and the rest is stripped in turn. |
| ParserUtils.StripTagsKeepsOut | src/parsers/utils.ts:1-3 | Stripping introduces no character except the space. |
| ParserUtils.StripTagsLeavesNoTag | src/parsers/utils.ts:1-3 | No `<[^>]+>` tag survives stripping. |
| ParserUtils.StripTagsTagFree | src/parsers/utils.ts:1-3 | Tag-free text is a fixed point. |
| ParserUtils.StripTagsIdempotent | src/parsers/utils.ts:1-3 | Stripping twice is stripping once. |
| ParserUtils.CollapseSingleSpaced | src/parsers/utils.ts:5-7 | After `\s+` → `' '`, no two whitespace characters are adjacent, and every remaining whitespace character is a plain space. |
| ParserUtils.CollapseNoop | src/parsers/utils.ts:5-7 | Text that is already single-spaced is unchanged by the collapse. |
| ParserUtils.NormalizeWhitespace | src/parsers/utils.ts:5-7 | The result has no whitespace at either end and no whitespace runs. |
| ParserUtils.NormalizeNoop | src/parsers/utils.ts:5-7 | Normalised text is a fixed point. |
| ParserUtils.NormalizeIdempotent | src/parsers/utils.ts:5-7 | Normalising twice is normalising once. |
| ParserUtils.NormalizeVisible | src/parsers/utils.ts:5-7 | Normalising keeps the non-whitespace characters, in order. |
| ParserUtils.VisibleEmptyIff | src/parsers/utils.ts:5-7 | A text has no non-whitespace characters exactly when it is blank, so it normalises to "" exactly when it is blank. |
| ParserUtils.DecodeHtmlEntities | src/parsers/utils.ts:9-16 | Decoding never lengthens the text. |
| ParserUtils.DecodeNoAmpersand | src/parsers/utils.ts:9-16 | Text without `&` is unchanged. |
| ParserUtils.DecodeTwice | src/parsers/utils.ts:9-16 | The replacements run in sequence with `&amp;` first, so `&amp;lt;` decodes all the way to `<`. |
| ParserUtils.DecodeUnmatched | src/parsers/utils.ts:9-16 | Text in which no `&` is followed by the first letter of a known entity is unchanged. |
| ParserUtils.DecodeKeepsOtherEntities | src/parsers/utils.ts:9-16 | Unknown entities such as `&nbsp;` pass through. |
| ParserUtils.CleanText | src/parsers/utils.ts:18-20 | The result is whitespace-normalised and keeps exactly the visible characters of the tag-stripped, entity-decoded input. |
| ParserUtils.CleanTextEmpty | src/parsers/utils.ts:18-20 | The result is "" exactly when the stripped and decoded input is blank. |
| ParserUtils.CleanPlainText | src/parsers/utils.ts:18-20 | On text without `<` and `&`, cleaning is plain whitespace normalisation. |
| ParserUtils.ClipText | src/parsers/utils.ts:30-36 | Input that fits is returned as is. Longer input with a limit of at least 3 gives exactly `limit` characters, the first `limit - 3` of the input plus `...`. A smaller limit cuts at `length + limit - 3`, as a negative slice end does. |
| ParserUtils.DedupeKeepsMemberKeys | src/parsers/utils.ts:44-53 | Every input item is represented in the de-duplicated list by its key. |
| ParserUtils.DedupeByUrlAndTitle | src/parsers/utils.ts:38-56 | The output holds exactly the first item of each key `lower(url) \| lower(trim(title))`, in input order. So no two output items share a key, and every input key is represented. |
| Dedupe.DedupeSpec | src/parsers/utils.ts:38-56 | The output is exactly the first occurrence of each key, in input order, so it is an order-preserving subsequence of the input. |
| Wrappers.FilterMapSnoc | src/parsers/hacker-news.parser.ts:14-33 | A loop that pushes each accepted item keeps match order: one more match appends its item, if any. |
| Wrappers.FlatMapSnoc | src/parsers/tcafe-d2001-hot-best.parser.ts:37-66 | Nested loops pushing into one array concatenate the inner results in outer order. |
| Dedupe.FirstIndicesSpec | src/parsers/utils.ts:44-53 | The kept positions increase strictly and are exactly the positions where a key occurs for the first time. |
| Dedupe.DedupeDistinct | src/parsers/utils.ts:44-53 | Output keys are pairwise distinct, and each output item is the first input item with its key. |
| Dedupe.DedupeMembers | src/parsers/utils.ts:44-53 | Every output item is an input item, and every input key appears in the output. |
| Dedupe.DedupeDistinctNoop | src/parsers/utils.ts:38-56 | A list whose keys are already distinct comes back unchanged. |
| Dedupe.DedupeIdempotent | src/parsers/utils.ts:38-56 | De-duplicating twice is de-duplicating once. |
| Dedupe.DedupeLoop | src/parsers/utils.ts:41-55 | The loop with a `seen` set computes the first-wins de-duplication. |
| Urls.ToAbsoluteUrl | src/parsers/utils.ts:22-28 | The serialisation of the URL resolved against the page, or the raw input when resolution fails. |
| Hash.HashString | src/utils/hash.ts:8 | The hash is always exactly eight lower-case hexadecimal digits. |
| Hash.HashValue | src/utils/hash.ts:2-8 | Read as hexadecimal, the digits are the final 32-bit state of the fold from 5381 with `h := h*33 mod 2^32 xor unit`. |
| Hash.PaddedHexValue | src/utils/hash.ts:8 | Zero-padding the hexadecimal form of a 32-bit value to 8 digits keeps its value. |
| Hash.HexRoundTrip | src/utils/hash.ts:8 | `toString(16)` of a natural number reads back as that number. |
| Hash.HashFold | src/utils/hash.ts:4-6 | Hashing is a left fold: one more BMP character is one more round applied to the previous state. |
| Hash.HashEmpty | src/utils/hash.ts:2-8 | The empty string hashes to `00001505`. |
| Hash.HashLoop | src/utils/hash.ts:1-9 | The source's loop over `charCodeAt` computes the hash. |
| Repository.NormalizeUrl | src/db/repository.ts:8-14 | A URL that parses is serialised; one that does not parse is trimmed. |
| Repository.ClipSnippet | src/db/repository.ts:16-32 | The result is absent exactly for a missing or blank snippet. Otherwise it is the trimmed snippet, non-empty and at most 280 characters; past 280 it is the first 277 characters plus `...`. |
| Repository.TrimmedOrAbsent | src/db/repository.ts:56 | The summary is trimmed, and absent exactly when it is missing or blank. |
| Repository.CreateItemId | src/db/repository.ts:34-37 | An id is the site id, a colon, then eight lower-case hex digits. |
| Repository.SiteOfCreatedId | src/db/repository.ts:34-37 | The site id can be read back from every id. |
| Repository.IdsSeparateSites | src/db/repository.ts:36 | Ids made for different sites never coincide. |
| Repository.IdIgnoresTitleCaseAndPadding | src/db/repository.ts:35 | Titles that differ only in letter case or in surrounding whitespace get the same id. |
| Repository.NormalizeParsedItem | src/db/repository.ts:39-61 | The item is dropped exactly when its title is blank or its normalised url is empty. A kept item carries the given site and timestamp. |
| Repository.NormalizedItemShape | src/db/repository.ts:39-61 | A kept item has the trimmed title, the normalised url, the trimmed-or-absent summary, the clipped snippet and the same price. Its id names its site and hashes the url normalised a second time. |
| Repository.Upsert | src/db/repository.ts:63-78 | The runs are untouched. The returned list holds exactly the normalised survivors, all of the given site and timestamp. When nothing survives, the store is unchanged. |
| Repository.UpsertAppend | src/db/repository.ts:68-77 | The returned list follows input order and keeps duplicates: one more surviving item is appended whatever ids are already there. |
| Repository.UpsertFrame | src/db/repository.ts:76 | The written store gains exactly the returned ids, and every other key keeps its record. |
| Repository.BulkPutKeys | src/db/repository.ts:76 | `bulkPut` adds exactly the batch's ids to the key set. |
| Repository.BulkPutLast | src/db/repository.ts:76 | A record that no later record in the batch overrides is what the store holds for its id. |
| Repository.BulkPutOthers | src/db/repository.ts:76 | A key that no batch record carries keeps its record. |
| Repository.UpsertLastWins | src/db/repository.ts:76-77 | After an upsert, each written id holds the last returned item carrying it. |
| Repository.UpsertIds | src/db/repository.ts:52 | Every returned item has an id of the upserting site. |
| Repository.UpsertSeparatesSites | src/db/repository.ts:63-78 | An upsert keeps the store consistent (records under their own ids, ids naming their sites) and never touches another site's item. |
| Repository.BulkPutConsistent | src/db/repository.ts:76 | Putting records whose ids name their sites keeps the items consistent. |
| Repository.BulkPutKeepsOtherSite | src/db/repository.ts:76 | A batch whose ids all name one site leaves the items of every other site alone. |
| Repository.SaveCrawlRun | src/db/repository.ts:92-94 | The run is inserted or replaced under its `runId`; the other runs and all items are unchanged. |
| Repository.ClearAllData | src/db/repository.ts:108-113 | Both stores end up empty. |
| Repository.WritesKeepConsistency | src/db/repository.ts:92-113 | Saving a run and clearing both keep the store consistent. |
| Repository.NewestExists | src/db/repository.ts:84-89 | A non-empty pool has a record whose stamp is not below any other's. |
| Repository.SelectNewest | src/db/repository.ts:84-89 | Taking the newest remaining record extends a newest-first selection. |
| Repository.NewestFirst | src/db/repository.ts:84-89 | The result has `min(size, limit)` distinct records of the pool, ordered by non-increasing stamp, and nothing left out is newer than a listed record. |
| Repository.ListItemsBySite | src/db/repository.ts:80-90 | Only the site's items are listed: at most `limit` of them (200 when the argument is omitted), newest `crawledAt` first, none newer left out. |
| Repository.ListCrawlRunsBySite | src/db/repository.ts:96-106 | Only the site's runs are listed: at most `limit` of them (20 when the argument is omitted), newest `startedAt` first, none newer left out. |
| Repository.ClearedListings | src/db/repository.ts:80-113 | After clearing, both listings are empty. |
| Glob.EscapeForRegex | src/config/targets.ts:56-58 | Escaping never shortens the pattern. |
| Glob.EscapeHead | src/config/targets.ts:56-61 | An escaped pattern never starts with a bare `*`, so only escaped stars turn into `.*`. |
| Glob.Compile | src/config/targets.ts:60-63 | One token per pattern character: a run wildcard exactly at each `*`, and the character itself everywhere else. |
| Glob.PatternBodyRendersTokens | src/config/targets.ts:56-63 | The escaped and star-replaced regular-expression source is exactly the rendering of the compiled tokens. |
| Glob.PatternBodyStar | src/config/targets.ts:61 | A leading `*` becomes `.*`. |
| Glob.PatternBodySpecial | src/config/targets.ts:57 | A leading regular-expression metacharacter is escaped with one backslash. |
| Glob.PatternBodyPlain | src/config/targets.ts:57 | A leading ordinary character is copied. |
| Glob.CompileAppend | src/config/targets.ts:60-63 | Compiling a concatenation concatenates the compilations. |
| Glob.GlobLiteral | src/config/targets.ts:56-63 | A pattern without `*` matches exactly the string equal to it. |
| Glob.GlobTrailingRun | src/config/targets.ts:61-62 | A lone `*` matches exactly the strings without a line terminator. |
| Glob.GlobLiteralPrefix | src/config/targets.ts:60-63 | A literal prefix matches exactly when the url starts with it and the rest matches the remaining tokens. |
| Glob.GlobPrefixPattern | src/config/targets.ts:60-63 | `prefix*` matches exactly the urls that start with the prefix and have no line terminator after it. |
| Targets.AllPatterns | src/config/targets.ts:48-50 | The flattened pattern list holds every site's patterns and nothing else. |
| Targets.HostMatchPatternsSpec | src/config/targets.ts:48-50 | `hostMatchPatterns` holds every site pattern exactly once and nothing else. |
| Targets.HostMatchPatternsInOrder | src/config/targets.ts:48-50 | The `Set` keeps first occurrences in insertion order, so the result is the six site patterns in table order. |
| Targets.AllPatternsOfTable | src/config/targets.ts:3-50 | Flattening the table gives one pattern per site, in table order. |
| Targets.SitePatternsDistinct | src/config/targets.ts:3-46 | The six configured patterns are pairwise different. |
| Targets.FindSite | src/config/targets.ts:52-54 | Finding a site gives a table entry with that id, and nothing exactly when no site has it. |
| Targets.FindFirstOfDistinct | src/config/targets.ts:52-54 | With distinct ids, the search finds each entry by its own id. |
| Targets.SiteIdsInOrder | src/config/targets.ts:3-46 | The table has six sites in a fixed order, with these ids and parser ids. |
| Targets.TableFacts | src/config/targets.ts:3-54 | Site ids are pairwise distinct, each parser id equals its site id, and `getTargetSiteById` finds every site. |
| Targets.DefaultUrlsMatch | src/config/targets.ts:3-46 | Each site's default url matches its own first pattern. |
| Targets.PrefixSiteMatches | src/config/targets.ts:86-102 | A site whose url extends its `prefix*` pattern with plain ASCII text matches that pattern. |
| Targets.GetPatternRegex | src/config/targets.ts:65-76 | After a lookup the cache holds the returned compilation and keeps every earlier entry. |
| Targets.CacheTransparent | src/config/targets.ts:65-76 | With a cache of genuine compilations, a lookup returns exactly the fresh compilation and the cache stays genuine. |
| Targets.AnyPatternMatches | src/config/targets.ts:99-101 | True exactly when some pattern's compilation matches the url; the cache stays genuine. |
| Targets.SiteMatchesUrlSpec | src/config/targets.ts:86-102 | With an absent or blank configured url, a site matches exactly when one of its patterns does. Otherwise it also matches every url of the configured url's origin, so a configured url can only turn a mismatch into a match. |
| Listing.Collect | src/parsers/hacker-news.parser.ts:12-35 | The collected items have distinct keys, come from accepted matches, and represent every accepted match's key. They are the first accepted item of each key, in match order. Nothing is collected exactly when no match is accepted. |
| Listing.LinkItem | src/parsers/hacker-news.parser.ts:15-32 | A link match is used exactly when its href is non-empty and its inner HTML has visible text. It then yields the cleaned title, the same text as snippet, and the href resolved against the page. |
| Listing.CollectedLinksShaped | src/parsers/hacker-news.parser.ts:14-35 | Every collected item is shaped by some link match. |
| Listing.CollectLinks | src/parsers/hacker-news.parser.ts:14-35 | Over link matches, every item is shaped by some match and every accepted match is represented. Keys are distinct, the items are the first accepted link of each key in match order, and the result is empty exactly when no match is accepted. |
| HackerNews.Parse | src/parsers/hacker-news.parser.ts:11-36 | The link properties of `Listing.CollectLinks` over the item expression's matches, including first-wins in match order. |
| Devto.Source | src/parsers/devto-latest.parser.ts:17-59 | The heading links are used exactly when no article link is accepted. Otherwise only the article links are used, never a mix. |
| Devto.Parse | src/parsers/devto-latest.parser.ts:14-62 | Keys are distinct. The items are the first accepted link of each key, in match order, over the article links when any is accepted and over the heading links otherwise. |
| Devto.ParseFallback | src/parsers/devto-latest.parser.ts:38-61 | Every item is shaped by a match of the chosen source. The result is empty exactly when neither loop accepts a match. |
| Devto.ParseIsCollect | src/parsers/devto-latest.parser.ts:14-62 | The parser is the shared collection scheme over the chosen source. |
| Attributes.ExecAttribute | src/parsers/kissjav-most-popular-week.parser.ts:7-11 | The value of the leftmost `name="…"` / `name='…'` match, and nothing exactly when there is no match. |
| Kissjav.CardTitle | src/parsers/kissjav-most-popular-week.parser.ts:13-22 | A non-empty `title` attribute wins, cleaned. Without one, the cleaned inner `div.title` is used, or "" when there is none. The result is always normalised. |
| Kissjav.FirstUsable | src/parsers/kissjav-most-popular-week.parser.ts:29-37 | The position of the first image whose trimmed source is non-empty and not `data:`. Every earlier image is unusable. |
| Kissjav.PreviewImage | src/parsers/kissjav-most-popular-week.parser.ts:24-40 | Absent exactly when no image is usable. Otherwise it is the first usable image, trimmed and resolved; a `data:` source is never chosen. |
| Kissjav.CardItem | src/parsers/kissjav-most-popular-week.parser.ts:48-68 | A card is used exactly when it has an href containing `/video/` and a non-empty title. It then yields that title, the resolved href and the preview image. |
| Kissjav.Parse | src/parsers/kissjav-most-popular-week.parser.ts:42-72 | The items come from accepted cards, every accepted card's key is represented, and keys are distinct. Its items are the first accepted item of each key, in match order. The result is empty exactly when no card is accepted. |
| Kissjav.ParsedCards | src/parsers/kissjav-most-popular-week.parser.ts:48-71 | Every item has a non-empty normalised title and a url resolved from some href containing `/video/`. A preview, when present, is resolved from a non-empty source that is not a `data:` URL. |
| Missav.CanonicalHref | src/parsers/missav-weekly-views.parser.ts:24 | The trimmed title href unless it is blank, then the trimmed poster href. The result is "" exactly when both are blank. |
| Missav.Item | src/parsers/missav-weekly-views.parser.ts:14-42 | An item is used exactly when the accept rules hold: the poster href, title href and raw title are non-empty (the image capture may be empty), the canonical href contains `/v/`, and the cleaned title is non-empty. It gets the cleaned title, the resolved canonical href, and a resolved preview exactly when the image capture is non-empty. |
| Missav.Parse | src/parsers/missav-weekly-views.parser.ts:11-46 | The items come from accepted matches, every accepted match's key is represented, and keys are distinct. Its items are the first accepted item of each key, in match order. The result is empty exactly when nothing is accepted. |
| Twidouga.NormalizeNewlinesNoCr | src/parsers/twidouga-ranking-t1.parser.ts:32 | Text without a carriage return is left as it is. |
| Twidouga.NormalizeNewlinesSinglePass | src/parsers/twidouga-ranking-t1.parser.ts:32 | The CRLF replacement is one left-to-right pass: `\r\r\n` becomes `\r\n`. |
| Twidouga.Context | src/parsers/twidouga-ranking-t1.parser.ts:48-49 | For a match inside the text, the context is the text from `max(0, index - 5000)` to the end of the match. |
| Twidouga.ContextEndsAtMatch | src/parsers/twidouga-ranking-t1.parser.ts:48-49 | The context ends with the matched text and reaches back at most 5000 characters. |
| Twidouga.FindLastMatch | src/parsers/twidouga-ranking-t1.parser.ts:13-21 | Absent exactly when there is no match; otherwise the group 1 of the last match. |
| Twidouga.BuildTitle | src/parsers/twidouga-ranking-t1.parser.ts:23-29 | `rank위 - ` followed by the tweet url when it is non-empty, else by the video url. |
| Twidouga.Rank | src/parsers/twidouga-ranking-t1.parser.ts:51 | The last rank marker in the context, else the decimal rendering of the link's 1-based position. |
| Twidouga.Entry | src/parsers/twidouga-ranking-t1.parser.ts:36-62 | A video link is used exactly when its trimmed url is non-empty. The summary is the trimmed last tweet link, and the title is rank, separator, then the tweet url or the video url. The preview is resolved exactly when the last preview image in the backward window is non-blank. |
| Twidouga.Numbered | src/parsers/twidouga-ranking-t1.parser.ts:35-41 | Every video link is numbered by its position among all links, skipped ones included. |
| Twidouga.CollectedEntriesFromLinks | src/parsers/twidouga-ranking-t1.parser.ts:31-66 | Every collected entry is the entry of some video link, at that link's 1-based position. |
| Twidouga.CollectedEntriesComplete | src/parsers/twidouga-ranking-t1.parser.ts:31-66 | Every used link's key is represented, and nothing is collected exactly when no link is used. |
| Twidouga.Parse | src/parsers/twidouga-ranking-t1.parser.ts:31-66 | Matching runs on the CRLF-normalised text. Items come from used links with their positions, every used link is represented, and keys are distinct. The items are the first used link of each key, in link order. The result is empty exactly when no link is used. |
| Torrentbot.SummaryParts | src/parsers/torrentbot-topic-top20.parser.ts:45 | `rank위` when the rank is present, ` · ` only when both rank and date are present, then the date. The summary is "" exactly when both are empty. |
| Torrentbot.PlainValues | src/parsers/torrentbot-topic-top20.parser.ts:30-32 | One cleaned value per plain `<li>`, in order. |
| Torrentbot.Row | src/parsers/torrentbot-topic-top20.parser.ts:15-46 | A row is used exactly when it has a title link with a non-blank url and a non-empty cleaned title. It gets that title, the resolved url, a summary built from the first two plain values (each "" when missing), and no preview. |
| Torrentbot.Parse | src/parsers/torrentbot-topic-top20.parser.ts:9-50 | The items come from accepted rows, every accepted row is represented, and keys are distinct. Its items are the first accepted item of each key, in match order. The result is empty exactly when no row is accepted, and no item has a preview. |
| Tcafe.SectionLabel | src/parsers/tcafe-d2001-hot-best.parser.ts:15-27 | `일간 베스트` exactly when the cleaned heading contains `오늘의 베스트`. Otherwise `주간 베스트` exactly when it contains that label, otherwise none. |
| Tcafe.StripCount | src/parsers/tcafe-d2001-hot-best.parser.ts:31 | The result is always a suffix of the input. Input that does not start with `+` and a digit is unchanged; otherwise at least two characters go and the rest starts with a non-space. |
| Tcafe.StripCountOnce | src/parsers/tcafe-d2001-hot-best.parser.ts:31 | `+digits spaces rest` loses exactly the count and the spaces. |
| Tcafe.NormalizeTitle | src/parsers/tcafe-d2001-hot-best.parser.ts:29-32 | The title has no whitespace at either end. |
| Tcafe.RowSummary | src/parsers/tcafe-d2001-hot-best.parser.ts:55-58 | The label, followed by ` · 댓글 +count` exactly when a non-empty count is present. |
| Tcafe.CommentCount | src/parsers/tcafe-d2001-hot-best.parser.ts:55 | Group 1 of the first comment-count match, absent exactly when there is no match. |
| Tcafe.Row | src/parsers/tcafe-d2001-hot-best.parser.ts:45-64 | A row is used exactly when its trimmed url and normalised title are non-empty. It gets that title and the entity-decoded url resolved against the page. Its summary is the label, followed by ` · 댓글 +` and group 1 of the first comment-count match when that is non-empty. |
| Tcafe.SectionItems | src/parsers/tcafe-d2001-hot-best.parser.ts:37-66 | A section without a known label yields nothing; every item comes from a row of the section. |
| Tcafe.SectionItemsComplete | src/parsers/tcafe-d2001-hot-best.parser.ts:45-65 | Every accepted row of a labelled section is among that section's items. |
| Tcafe.AllSections | src/parsers/tcafe-d2001-hot-best.parser.ts:37-66 | An item is produced exactly when it is an item of some section, and nothing comes out when no section is labelled. |
| Tcafe.AllSectionsSnoc | src/parsers/tcafe-d2001-hot-best.parser.ts:37-66 | Sections are visited in document order: one more section appends its items at the end. |
| Tcafe.Parse | src/parsers/tcafe-d2001-hot-best.parser.ts:34-69 | Keys are distinct across sections, every item is a section item, and the key of every section item is kept. The items are the first of each key in section, then row, order. The result is empty when no section is labelled. |
| Tcafe.ParseComplete | src/parsers/tcafe-d2001-hot-best.parser.ts:37-68 | Every accepted row of every labelled section is represented in the result by its key. |
| Tcafe.ParsedRows | src/parsers/tcafe-d2001-hot-best.parser.ts:45-64 | Every item has a non-empty title without whitespace at its ends, and a summary that starts with the daily or the weekly label. |
| Kone.EscapeQuotesEscaped | src/parsers/kone-pornvideo-hot.parser.ts:20 | After escaping, every `"` is preceded by a backslash. |
| Kone.JsonLiteral | src/parsers/kone-pornvideo-hot.parser.ts:20 | The literal handed to `JSON.parse` is quoted, and its interior has every quote escaped. |
| Kone.DecodePackedString | src/parsers/kone-pornvideo-hot.parser.ts:18-24 | The parsed string when `JSON.parse` succeeds, and the input unchanged when it fails. |
| Kone.SubOfPath | src/parsers/kone-pornvideo-hot.parser.ts:29-30 | The sub is a path segment: the one after a leading `/s/`, or `pornvideo`. |
| Kone.SubOfPathRoundTrip | src/parsers/kone-pornvideo-hot.parser.ts:29-30 | `/s/<sub>` followed by a segment stop reads back `<sub>`. |
| Kone.SubHandle | src/parsers/kone-pornvideo-hot.parser.ts:26-34 | A path segment, and `pornvideo` when the page url does not parse. |
| Kone.GetMode | src/parsers/kone-pornvideo-hot.parser.ts:36-42 | The page's first `mode` parameter, and none when the url does not parse. |
| Kone.WithMode | src/parsers/kone-pornvideo-hot.parser.ts:48-50 | A non-empty mode is set once, and every other parameter, the origin, path and hash are kept. Without one the url is unchanged. |
| Kone.BuildArticleUrl | src/parsers/kone-pornvideo-hot.parser.ts:44-55 | `/s/<sub>/<id>` resolved against the page with the page's mode, or `https://kone.gg/s/<sub>/<id>` when resolution fails. |
| Kone.ArticlePath | src/parsers/kone-pornvideo-hot.parser.ts:60 | A recognised path starts with `/s/<sub>/<id>`, both segments non-empty and free of `/?#`. |
| Kone.ArticlePathRoundTrip | src/parsers/kone-pornvideo-hot.parser.ts:60 | `/s/<sub>/<id>` followed by a segment stop is recognised with those two segments. |
| Kone.NormalizeArticleUrl | src/parsers/kone-pornvideo-hot.parser.ts:57-76 | When the href does not resolve, the result is `toAbsoluteUrl` of it. |
| Kone.ArticleRefPlain | src/parsers/kone-pornvideo-hot.parser.ts:66 | An article reference has no query and no fragment. |
| Kone.ArticleTargetQuery | src/parsers/kone-pornvideo-hot.parser.ts:57-76 | The normalised article url keeps only `mode`, taken from the href or else the page; every other parameter is dropped. Without a non-empty mode the query is empty. |
| Kone.SchemeLength | src/parsers/kone-pornvideo-hot.parser.ts:143 | The matched scheme prefix has length 0, 7 (`http://`) or 8 (`https://`). |
| Kone.OriginLength | src/parsers/kone-pornvideo-hot.parser.ts:143 | A stripped origin ends at the end of the href or just before a `/`. |
| Kone.StripOrigin | src/parsers/kone-pornvideo-hot.parser.ts:143 | The result is a suffix of the href; when something was stripped, it is empty or starts with `/`. |
| Kone.StripOriginOf | src/parsers/kone-pornvideo-hot.parser.ts:143 | `http(s)://host` followed by a path loses exactly the scheme and host. |
| Kone.ArticleRefIsArticleLike | src/parsers/kone-pornvideo-hot.parser.ts:143 | Every `/s/<sub>/<id>` reference passes the article-path test. |
| Kone.RowContext | src/parsers/kone-pornvideo-hot.parser.ts:154 | The 4000 characters starting at the anchor, cut at the end of the page. |
| Kone.RowPreview | src/parsers/kone-pornvideo-hot.parser.ts:152-159 | The first context image after the anchor decides: a non-blank source gives that source trimmed and resolved, and otherwise the result is "". |
| Kone.AltEntry | src/parsers/kone-pornvideo-hot.parser.ts:115-128 | An alt image enters the map exactly when source and alt are present and the lower-cased cleaned alt is non-empty. It enters under that key with the resolved source. |
| Kone.FirstWinsComplete | src/parsers/kone-pornvideo-hot.parser.ts:124-128 | Every key offered to the map ends up in it. |
| Kone.FirstWinsFirst | src/parsers/kone-pornvideo-hot.parser.ts:124-128 | Each key maps to the value of its first offer. |
| Kone.PreviewByTitleComplete | src/parsers/kone-pornvideo-hot.parser.ts:113-129 | Every accepted alt image's key is in the preview map. |
| Kone.PreviewByTitleFirst | src/parsers/kone-pornvideo-hot.parser.ts:113-129 | Each key maps to the preview of the first accepted image with that key. |
| Kone.CardPreview | src/parsers/kone-pornvideo-hot.parser.ts:152-167 | The row preview when there is one, else the map entry for the lower-cased title, else "". |
| Kone.CardItem | src/parsers/kone-pornvideo-hot.parser.ts:133-173 | An anchor is used exactly when it has a title and an href, the decoded href without its origin is an article path, the cleaned title is non-empty and a preview is found. It gets the normalised article url and that preview. |
| Kone.ParseFromDomCards | src/parsers/kone-pornvideo-hot.parser.ts:112-177 | The items come from accepted anchors, every accepted anchor is represented, and keys are distinct. The items are the first accepted anchor of each key, in match order. The result is empty exactly when no anchor is accepted. |
| Kone.PackedItem | src/parsers/kone-pornvideo-hot.parser.ts:87-106 | A packed article is used exactly when id, title and preview are non-blank and the decoded title cleans to something. It gets the article url under the page's sub and the resolved preview. |
| Kone.ParseFromPackedPayload | src/parsers/kone-pornvideo-hot.parser.ts:83-110 | The items come from accepted articles, every accepted article is represented, and keys are distinct. The items are the first accepted article of each key, in match order. The result is empty exactly when no article is accepted. |
| Kone.CardItemsHavePreviews | src/parsers/kone-pornvideo-hot.parser.ts:161-167 | Every card item has a title and a preview. |
| Kone.PackedItemsHavePreviews | src/parsers/kone-pornvideo-hot.parser.ts:92-106 | Every packed item has a title and a preview. |
| Kone.Parse | src/parsers/kone-pornvideo-hot.parser.ts:179-193 | The card items when there are any, otherwise the packed items; every item has a title and a preview. |
| Registry.ParseByParserId | src/parsers/index.ts:10-22 | Success exactly for a registered id, with that parser's output on `(html, pageUrl)`. Otherwise a failure whose message is `Unknown parserId: ` followed by the id. |
| Registry.ParseStep | src/extension/service-worker.ts:189-198 | A dispatch failure becomes a `PARSE_FAILED` crawl failure with the fixed message and the error text as detail. Success passes the parser's items through. |
| Registry.AsWrittenRegistry | src/parsers/index.ts:5-8 | The registry's ids are exactly `hacker-news` and `devto-latest`. |
| Registry.ConfiguredIdsUnregistered | src/parsers/index.ts:5-8 | None of the six configured parser ids is registered. |
| Registry.AsWrittenEveryCrawlFails | src/extension/service-worker.ts:189-198 | With the registry as written, the parse step of every configured site fails with `PARSE_FAILED` and `Unknown parserId: <id>`. |
| Registry.SiteRegistry | src/config/targets.ts:3-46 | Each of the six configured ids maps to the parser of that site, and no other id is present. |
| Registry.FullRegistry | src/parsers/index.ts:5-8 | The corrected registry keeps both original entries and adds every site parser under its site's id. |
| Registry.FullRegistryDispatchesKissjav | src/parsers/kissjav-most-popular-week.parser.ts:42-72 | The corrected registry runs the KissJAV parser for its id. |
| Registry.FullRegistryDispatchesMissav | src/parsers/missav-weekly-views.parser.ts:11-46 | The corrected registry runs the MissAV parser for its id. |
| Registry.FullRegistryDispatchesTwidouga | src/parsers/twidouga-ranking-t1.parser.ts:31-66 | The corrected registry runs the TwiDouga parser for its id. |
| Registry.FullRegistryDispatchesTorrentbot | src/parsers/torrentbot-topic-top20.parser.ts:9-50 | The corrected registry runs the TorrentBot parser for its id. |
| Registry.FullRegistryDispatchesTcafe | src/parsers/tcafe-d2001-hot-best.parser.ts:34-69 | The corrected registry runs the Tcafe parser for its id. |
| Registry.FullRegistryDispatchesKone | src/parsers/kone-pornvideo-hot.parser.ts:179-193 | The corrected registry runs the Kone parser for its id. |
| Registry.FullRegistryEveryCrawlParses | src/extension/service-worker.ts:189-198 | With the corrected registry, the parse step of every configured site succeeds. |

## Left out

- URL parsing and serialisation (`new URL`, `toString`, `searchParams`, `origin`) are parameters. Only their results are related to one another, so every claim about a resolved URL is relative to the supplied `UrlApi`. The query-parameter operations are modelled on an ordered list of pairs.
- The regular-expression engine is a parameter. Each global expression is a match function, and the properties hold for every such function. A match's `index` is always present; the `match.index === undefined` branches in the TwiDouga and Kone parsers cannot happen with `matchAll` and are not modelled.
- `JSON.parse` is a parameter (`Kone.JsonString`).
- `toLowerCase` is ASCII-only. Non-ASCII case mappings and length-changing mappings are not modelled.
- A Dafny `char` is one UTF-16 code unit for lengths, slices and windows. Only the hash expands characters above U+FFFF into surrogate pairs, so text with such characters has different lengths in the model and in the program.
- Hash.HashFold: stated only for characters below U+10000, which add one code unit.
- Numbers: `price` is a `real` copied unchanged; `limit` is an optional `nat`, absent when the caller omits it. A negative or fractional limit is not modelled.
- Repository.ListItemsBySite, Repository.ListCrawlRunsBySite: the order among records with equal timestamps is left open, where IndexedDB breaks ties by primary key.
- Kone.NormalizeArticleUrl: its contract states only the failure branch. The successful branch is stated by `Kone.ArticleTargetQuery`, under the assumption that resolving a query-less, fragment-less path yields an empty query.
- Kone.CardItem: a row preview that resolves to "" falls back to the alt map, as the program's truthiness test does.
- Tcafe.NormalizeTitle: states only the trimmed ends; the count removal is stated by `Tcafe.StripCount` and `Tcafe.StripCountOnce`.
- The registry is modelled as a map of the registered ids. Ids that a plain JavaScript object would also find through its prototype, such as `constructor`, are not modelled.
- The remaining crawl flow of the service worker (tab lookup, URL check, content-script messaging, run bookkeeping) and the side panel UI are outside the model. They are Chrome APIs and React rendering.
- `crypto.randomUUID` and `Date.now` are not modelled: run ids and timestamps are inputs.
- The store is two maps. Dexie's asynchronous API and `clearAllData`'s transaction are one atomic step each.
- The repository's test file expects `insertedCount`/`updatedCount`, a `deleteCrawledItem` export, de-duplication of the returned list, and a stored `previewImageUrl`. None of these exists in the repository code, so the model follows the code:
  - `Repository.Upsert` returns the plain list, duplicates included;
  - `previewImageUrl` is dropped;
  - there is no delete operation.
- The `ParsedItem` interface has no `previewImageUrl` field, although the parsers set one; the model's `ParsedItem` carries it.

## Findings

| source | as written | input that shows it | evidently intended | confidence | as-written member | corrected member |
|---|---|---|---|---|---|---|
| src/parsers/index.ts:5-8 | The parser registry holds only `hacker-news` and `devto-latest`. Every site in the table (src/config/targets.ts:3-46) uses a different `parserId`. | A crawl of any configured site, e.g. `kissjav-most-popular-week`. `parseByParserId` throws `Unknown parserId: kissjav-most-popular-week`, and the crawl ends in `PARSE_FAILED`. | The registry maps each configured `parserId` to its parser, which is imported nowhere else. | not executed | Registry.AsWrittenEveryCrawlFails | Registry.FullRegistryEveryCrawlParses |
