/** The IndexedDB repository as a pure state transformer. The two object stores are maps from
    primary key to record: items keyed by `id`, crawl runs keyed by `runId`. A write is a new store
    value; a listing is a range scan on `[siteId+crawledAt]` (resp. `[siteId+startedAt]`) read in
    reverse, i.e. the records of one site, newest first. */
module Repository {
  import opened Wrappers
  import opened Strings
  import opened Urls
  import opened Contracts
  import Hash

  const MaxSnippetLength: nat := 280

  datatype Store = Store(items: map<string, CrawledItem>, runs: map<string, CrawlRun>)

  // ---------------------------------------------------------------- normalisation

  /** `normalizeUrl`: the serialisation of the parsed URL, or the trimmed input when it does not
      parse as an absolute URL. */
  function NormalizeUrl(api: UrlApi, input: string): (r: string)
    ensures api.parse(input, None).Some? ==> r == api.serialize(api.parse(input, None).value)
    ensures api.parse(input, None).None? ==> r == Trim(input)
  {
    match api.parse(input, None)
    case Some(u) => api.serialize(u)
    case None => Trim(input)
  }

  /** `clipSnippet`: absent for a missing or blank snippet; otherwise the trimmed snippet, cut to
      277 characters plus an ellipsis when it is longer than 280. */
  function ClipSnippet(input: Option<string>): (r: Option<string>)
    ensures r.None? <==> input.None? || AllSpace(input.value)
    ensures r.Some? ==> 0 < |r.value| <= MaxSnippetLength
    ensures r.Some? && |Trim(input.value)| <= MaxSnippetLength ==> r.value == Trim(input.value)
    ensures r.Some? && |Trim(input.value)| > MaxSnippetLength ==>
              r.value == Trim(input.value)[..MaxSnippetLength - 3] + "..."
  {
    match input
    case None => None
    case Some(s) =>
      TrimEmptyIffBlank(s);
      if s == "" then None
      else
        var normalized := Trim(s);
        if normalized == "" then None
        else if |normalized| <= MaxSnippetLength then Some(normalized)
        else Some(normalized[..MaxSnippetLength - 3] + "...")
  }

  /** `summary?.trim() || undefined`. */
  function TrimmedOrAbsent(s: Option<string>): (r: Option<string>)
    ensures r.None? <==> s.None? || AllSpace(s.value)
    ensures r.Some? ==> r.value == Trim(s.value) && r.value != ""
  {
    match s
    case None => None
    case Some(v) =>
      TrimEmptyIffBlank(v);
      if Trim(v) == "" then None else Some(Trim(v))
  }

  // ---------------------------------------------------------------- item ids

  /** The text that is hashed: lower-cased normalised url and lower-cased trimmed title. */
  function IdKey(api: UrlApi, url: string, title: string): string {
    Lower(NormalizeUrl(api, url)) + "|" + Lower(Trim(title))
  }

  /** `createItemId`: the site id, a colon, and the hash of the key. */
  function CreateItemId(api: UrlApi, siteId: string, url: string, title: string): (id: string)
    ensures |id| == |siteId| + 9
    ensures id[..|siteId|] == siteId && id[|siteId|] == ':'
    ensures forall i :: |siteId| < i < |id| ==> Hash.IsLowerHex(id[i])
  {
    siteId + ":" + Hash.HashString(IdKey(api, url, title))
  }

  /** The site an id was created for: the text before the final colon and eight hex digits. */
  function SiteOfId(id: string): Option<string> {
    if |id| >= 9 && id[|id| - 9] == ':' && (forall i :: |id| - 8 <= i < |id| ==> Hash.IsLowerHex(id[i]))
    then Some(id[..|id| - 9])
    else None
  }

  /** The site id can be read back from every created id, so ids of different sites never
      coincide. */
  lemma SiteOfCreatedId(api: UrlApi, siteId: string, url: string, title: string)
    ensures SiteOfId(CreateItemId(api, siteId, url, title)) == Some(siteId)
  {
  }

  lemma IdsSeparateSites(api: UrlApi, site1: string, url1: string, title1: string,
                         site2: string, url2: string, title2: string)
    requires site1 != site2
    ensures CreateItemId(api, site1, url1, title1) != CreateItemId(api, site2, url2, title2)
  {
    SiteOfCreatedId(api, site1, url1, title1);
    SiteOfCreatedId(api, site2, url2, title2);
  }

  /** Titles that differ only in ASCII letter case or in surrounding whitespace give the same id. */
  lemma IdIgnoresTitleCaseAndPadding(api: UrlApi, siteId: string, url: string, t1: string, t2: string,
                                     pre: string, post: string)
    requires Lower(t1) == Lower(t2)
    requires AllSpace(pre) && AllSpace(post)
    ensures CreateItemId(api, siteId, url, t1) == CreateItemId(api, siteId, url, t2)
    ensures CreateItemId(api, siteId, url, pre + t1 + post) == CreateItemId(api, siteId, url, t1)
  {
    LowerTrim(t1);
    LowerTrim(t2);
    TrimPadding(pre, t1, post);
  }

  // ---------------------------------------------------------------- normalizeParsedItem

  /** `normalizeParsedItem`: nothing for a blank title or an empty normalised url; otherwise the
      stored form of the item. */
  function NormalizeParsedItem(api: UrlApi, siteId: string, item: ParsedItem, crawledAt: int): (r: Option<CrawledItem>)
    ensures r.None? <==> AllSpace(item.title) || NormalizeUrl(api, item.url) == ""
    ensures r.Some? ==> r.value.siteId == siteId && r.value.crawledAt == crawledAt
  {
    var title := Trim(item.title);
    var url := NormalizeUrl(api, item.url);
    TrimEmptyIffBlank(item.title);
    if title == "" || url == "" then None
    else Some(CrawledItem(
      id := CreateItemId(api, siteId, url, title),
      siteId := siteId,
      title := title,
      url := url,
      summary := TrimmedOrAbsent(item.summary),
      price := item.price,
      rawHtmlSnippet := ClipSnippet(item.rawHtmlSnippet),
      crawledAt := crawledAt))
  }

  /** What a stored item looks like: a non-blank trimmed title, the id of its own site, a present
      summary or snippet is non-empty, and the price is the parsed one. The id hashes the url
      normalised a second time, and the preview image is dropped. */
  lemma NormalizedItemShape(api: UrlApi, siteId: string, item: ParsedItem, crawledAt: int)
    requires NormalizeParsedItem(api, siteId, item, crawledAt).Some?
    ensures var c := NormalizeParsedItem(api, siteId, item, crawledAt).value;
      && c.title != "" && c.title == Trim(item.title) && Trim(c.title) == c.title
      && c.url == NormalizeUrl(api, item.url)
      && SiteOfId(c.id) == Some(siteId)
      && c.id == siteId + ":" + Hash.HashString(
           Lower(NormalizeUrl(api, NormalizeUrl(api, item.url))) + "|" + Lower(Trim(item.title)))
      && c.summary == TrimmedOrAbsent(item.summary)
      && (c.summary.Some? ==> c.summary.value != "" && NoSpaceAtEnds(c.summary.value))
      && c.rawHtmlSnippet == ClipSnippet(item.rawHtmlSnippet)
      && (c.rawHtmlSnippet.Some? ==> |c.rawHtmlSnippet.value| <= MaxSnippetLength)
      && c.price == item.price
  {
    var c := NormalizeParsedItem(api, siteId, item, crawledAt).value;
    TrimIdempotent(item.title);
    SiteOfCreatedId(api, siteId, c.url, c.title);
  }

  // ---------------------------------------------------------------- writes

  /** `bulkPut`: the records are put one after another, so for a repeated id the last one stays. */
  function BulkPut(m: map<string, CrawledItem>, batch: seq<CrawledItem>): (r: map<string, CrawledItem>)
    decreases |batch|
  {
    if |batch| == 0 then m
    else
      var last := batch[|batch| - 1];
      BulkPut(m, batch[..|batch| - 1])[last.id := last]
  }

  /** The ids a batch carries. */
  function Ids(batch: seq<CrawledItem>): set<string> {
    set i | 0 <= i < |batch| :: batch[i].id
  }

  /** `bulkPut` adds exactly the batch's ids to the keys. */
  lemma {:induction false} BulkPutKeys(m: map<string, CrawledItem>, batch: seq<CrawledItem>)
    ensures BulkPut(m, batch).Keys == m.Keys + Ids(batch)
    decreases |batch|
  {
    if |batch| > 0 {
      var n := |batch| - 1;
      BulkPutKeys(m, batch[..n]);
      assert Ids(batch) == Ids(batch[..n]) + {batch[n].id} by {
        assert forall i :: 0 <= i < n ==> batch[..n][i] == batch[i];
      }
    }
  }

  /** A batch record that no later record overrides is what the store keeps for its id. */
  lemma {:induction false} BulkPutLast(m: map<string, CrawledItem>, batch: seq<CrawledItem>, i: nat)
    requires i < |batch|
    requires forall j :: i < j < |batch| ==> batch[j].id != batch[i].id
    ensures batch[i].id in BulkPut(m, batch) && BulkPut(m, batch)[batch[i].id] == batch[i]
    decreases |batch|
  {
    var n := |batch| - 1;
    if i < n {
      assert batch[..n][i] == batch[i];
      BulkPutLast(m, batch[..n], i);
    }
  }

  /** A key no batch record carries keeps its record. */
  lemma {:induction false} BulkPutOthers(m: map<string, CrawledItem>, batch: seq<CrawledItem>, k: string)
    requires k in m && k !in Ids(batch)
    ensures k in BulkPut(m, batch) && BulkPut(m, batch)[k] == m[k]
    decreases |batch|
  {
    if |batch| > 0 {
      var n := |batch| - 1;
      assert k != batch[n].id;
      assert Ids(batch[..n]) <= Ids(batch) by {
        assert forall i :: 0 <= i < n ==> batch[..n][i] == batch[i];
      }
      BulkPutOthers(m, batch[..n], k);
    }
  }

  /** `upsertCrawledItems`: normalise, drop the items that do not survive, write the survivors and
      return them in input order (duplicates included). Nothing is written when none survives. */
  function Upsert(store: Store, api: UrlApi, siteId: string, items: seq<ParsedItem>, crawledAt: int): (r: (Store, seq<CrawledItem>))
    ensures r.0.runs == store.runs
    ensures |r.1| == 0 ==> r.0 == store
    ensures forall i :: 0 <= i < |items| && NormalizeParsedItem(api, siteId, items[i], crawledAt).Some? ==>
              NormalizeParsedItem(api, siteId, items[i], crawledAt).value in r.1
    ensures forall c :: c in r.1 ==>
              exists i :: 0 <= i < |items| && NormalizeParsedItem(api, siteId, items[i], crawledAt) == Some(c)
    ensures forall c :: c in r.1 ==> c.siteId == siteId && c.crawledAt == crawledAt
  {
    var normalized := FilterMap(items, Normalizer(api, siteId, crawledAt));
    if |normalized| == 0 then (store, [])
    else (store.(items := BulkPut(store.items, normalized)), normalized)
  }

  /** `normalizeParsedItem` as the function value the upsert maps over the batch. */
  function Normalizer(api: UrlApi, siteId: string, crawledAt: int): ParsedItem -> Option<CrawledItem> {
    (item: ParsedItem) => NormalizeParsedItem(api, siteId, item, crawledAt)
  }

  /** The returned list follows the input order and keeps duplicates: one more parsed item adds its
      normalised form at the end whenever it survives, whatever ids are already in the list. */
  lemma UpsertAppend(store: Store, api: UrlApi, siteId: string, items: seq<ParsedItem>, x: ParsedItem, crawledAt: int)
    ensures Upsert(store, api, siteId, items + [x], crawledAt).1
            == Upsert(store, api, siteId, items, crawledAt).1
               + (if NormalizeParsedItem(api, siteId, x, crawledAt).Some?
                  then [NormalizeParsedItem(api, siteId, x, crawledAt).value] else [])
  {
    FilterMapSnoc(items, x, Normalizer(api, siteId, crawledAt));
  }

  /** An upsert adds exactly the returned ids to the items store and leaves every other key's
      record as it was. */
  lemma UpsertFrame(store: Store, api: UrlApi, siteId: string, items: seq<ParsedItem>, crawledAt: int)
    ensures var (s, out) := Upsert(store, api, siteId, items, crawledAt);
            && s.items.Keys == store.items.Keys + Ids(out)
            && forall k :: k in store.items && k !in Ids(out) ==> s.items[k] == store.items[k]
  {
    var out := Upsert(store, api, siteId, items, crawledAt).1;
    BulkPutKeys(store.items, out);
    forall k | k in store.items && k !in Ids(out) ensures BulkPut(store.items, out)[k] == store.items[k] {
      BulkPutOthers(store.items, out, k);
    }
  }

  /** Every key of the items store is the id of its record, and that id names the record's site. */
  predicate Consistent(store: Store) {
    && ItemsConsistent(store.items)
    && (forall k :: k in store.runs ==> store.runs[k].runId == k)
  }

  /** Every item is stored under its own id, and that id names the item's site. */
  predicate ItemsConsistent(m: map<string, CrawledItem>) {
    forall k :: k in m ==> m[k].id == k && SiteOfId(k) == Some(m[k].siteId)
  }

  /** Putting records whose ids name their sites keeps the items consistent. */
  lemma {:induction false} BulkPutConsistent(m: map<string, CrawledItem>, batch: seq<CrawledItem>)
    requires ItemsConsistent(m)
    requires forall i :: 0 <= i < |batch| ==> SiteOfId(batch[i].id) == Some(batch[i].siteId)
    ensures ItemsConsistent(BulkPut(m, batch))
    decreases |batch|
  {
    if |batch| > 0 {
      var n := |batch| - 1;
      assert forall i :: 0 <= i < n ==> batch[..n][i] == batch[i];
      BulkPutConsistent(m, batch[..n]);
    }
  }

  /** An item of another site survives a batch whose ids all name `siteId`. */
  lemma BulkPutKeepsOtherSite(m: map<string, CrawledItem>, batch: seq<CrawledItem>, siteId: string, k: string)
    requires ItemsConsistent(m)
    requires forall c :: c in batch ==> SiteOfId(c.id) == Some(siteId)
    requires k in m && m[k].siteId != siteId
    ensures k in BulkPut(m, batch) && BulkPut(m, batch)[k] == m[k]
  {
    assert k !in Ids(batch) by {
      forall i | 0 <= i < |batch| ensures batch[i].id != k {
        assert batch[i] in batch;
      }
    }
    BulkPutOthers(m, batch, k);
  }

  /** Each returned item was given an id of the upserting site. */
  lemma UpsertIds(store: Store, api: UrlApi, siteId: string, items: seq<ParsedItem>, crawledAt: int)
    ensures forall c :: c in Upsert(store, api, siteId, items, crawledAt).1 ==> SiteOfId(c.id) == Some(siteId)
  {
    var out := Upsert(store, api, siteId, items, crawledAt).1;
    forall c | c in out ensures SiteOfId(c.id) == Some(siteId) {
      var i :| 0 <= i < |items| && NormalizeParsedItem(api, siteId, items[i], crawledAt) == Some(c);
      SiteOfCreatedId(api, siteId, c.url, c.title);
    }
  }

  /** After an upsert, each written id holds the last returned item with that id. */
  lemma UpsertLastWins(store: Store, api: UrlApi, siteId: string, items: seq<ParsedItem>, crawledAt: int, i: nat)
    requires var out := Upsert(store, api, siteId, items, crawledAt).1;
      i < |out| && forall j :: i < j < |out| ==> out[j].id != out[i].id
    ensures var (s, out) := Upsert(store, api, siteId, items, crawledAt);
      out[i].id in s.items && s.items[out[i].id] == out[i]
  {
    var out := Upsert(store, api, siteId, items, crawledAt).1;
    BulkPutLast(store.items, out, i);
  }

  /** An upsert for one site never touches an item of another site, and keeps the store
      consistent. */
  lemma UpsertSeparatesSites(store: Store, api: UrlApi, siteId: string, items: seq<ParsedItem>, crawledAt: int)
    requires Consistent(store)
    ensures var s := Upsert(store, api, siteId, items, crawledAt).0;
      && Consistent(s)
      && forall k :: k in store.items && store.items[k].siteId != siteId ==> k in s.items && s.items[k] == store.items[k]
  {
    var (s, out) := Upsert(store, api, siteId, items, crawledAt);
    UpsertIds(store, api, siteId, items, crawledAt);
    if |out| > 0 {
      forall k | k in store.items && store.items[k].siteId != siteId
        ensures k in s.items && s.items[k] == store.items[k]
      {
        BulkPutKeepsOtherSite(store.items, out, siteId, k);
      }
      forall i | 0 <= i < |out| ensures SiteOfId(out[i].id) == Some(out[i].siteId) {
        assert out[i] in out;
      }
      BulkPutConsistent(store.items, out);
    }
  }

  /** `saveCrawlRun`: insert or replace the run under its `runId`; nothing else changes. */
  function SaveCrawlRun(store: Store, run: CrawlRun): (r: Store)
    ensures r.items == store.items
    ensures r.runs.Keys == store.runs.Keys + {run.runId}
    ensures r.runs[run.runId] == run
    ensures forall k :: k in store.runs && k != run.runId ==> r.runs[k] == store.runs[k]
  {
    store.(runs := store.runs[run.runId := run])
  }

  /** `clearAllData`: both stores emptied in one transaction. */
  function ClearAllData(store: Store): (r: Store)
    ensures |r.items| == 0 && |r.runs| == 0
  {
    Store(map[], map[])
  }

  lemma WritesKeepConsistency(store: Store, run: CrawlRun)
    requires Consistent(store)
    ensures Consistent(SaveCrawlRun(store, run))
    ensures Consistent(ClearAllData(store))
  {
  }

  // ---------------------------------------------------------------- listings

  /** `r` lists the newest records of `pool`, newest first, as many as `limit` allows: no record
      twice, ordered by non-increasing stamp, and nothing left out is newer than what is listed.
      The order among equal stamps is not fixed. */
  predicate IsNewestFirst<T>(r: seq<T>, pool: set<T>, stamp: T -> int, limit: nat) {
    && |r| == (if |pool| < limit then |pool| else limit)
    && (forall i :: 0 <= i < |r| ==> r[i] in pool)
    && (forall i, j :: 0 <= i < j < |r| ==> r[i] != r[j])
    && (forall i, j :: 0 <= i < j < |r| ==> stamp(r[i]) >= stamp(r[j]))
    && (forall x, i :: x in pool && x !in r && 0 <= i < |r| ==> stamp(x) <= stamp(r[i]))
  }

  /** A non-empty finite set has an element with the largest stamp. */
  lemma {:induction false} NewestExists<T>(s: set<T>, stamp: T -> int) returns (x: T)
    requires s != {}
    ensures x in s && forall y :: y in s ==> stamp(y) <= stamp(x)
    decreases |s|
  {
    var a :| a in s;
    if s == {a} {
      x := a;
    } else {
      var b := NewestExists(s - {a}, stamp);
      x := if stamp(a) >= stamp(b) then a else b;
    }
  }

  /** Midway through the selection: `r` holds distinct records of `pool`, newest first, `rest`
      holds the others, and nothing in `rest` is newer than anything in `r`. */
  predicate Selected<T>(pool: set<T>, stamp: T -> int, r: seq<T>, rest: set<T>) {
    && rest <= pool
    && (forall i :: 0 <= i < |r| ==> r[i] in pool && r[i] !in rest)
    && (forall x :: x in pool ==> x in rest || x in r)
    && |r| + |rest| == |pool|
    && (forall i, j :: 0 <= i < j < |r| ==> r[i] != r[j])
    && (forall i, j :: 0 <= i < j < |r| ==> stamp(r[i]) >= stamp(r[j]))
    && (forall x, i :: x in rest && 0 <= i < |r| ==> stamp(x) <= stamp(r[i]))
  }

  /** Moving a newest remaining record to the end of `r` keeps the selection sound. */
  lemma SelectNewest<T>(pool: set<T>, stamp: T -> int, r: seq<T>, rest: set<T>, x: T)
    requires Selected(pool, stamp, r, rest)
    requires x in rest && forall y :: y in rest ==> stamp(y) <= stamp(x)
    ensures Selected(pool, stamp, r + [x], rest - {x})
  {
    var r' := r + [x];
    assert forall i :: 0 <= i < |r| ==> r'[i] == r[i];
    assert r'[|r|] == x;
  }

  /** Selection of the newest remaining record, `limit` times. */
  method NewestFirst<T(==)>(pool: set<T>, stamp: T -> int, limit: nat) returns (r: seq<T>)
    ensures IsNewestFirst(r, pool, stamp, limit)
  {
    r := [];
    var rest := pool;
    while |r| < limit && rest != {}
      invariant Selected(pool, stamp, r, rest)
      invariant |r| <= limit
      decreases |rest|
    {
      ghost var g := NewestExists(rest, stamp);
      var x :| x in rest && forall y :: y in rest ==> stamp(y) <= stamp(x);
      SelectNewest(pool, stamp, r, rest, x);
      r := r + [x];
      rest := rest - {x};
    }
  }

  /** The records of one site. */
  function ItemsOf(store: Store, siteId: string): set<CrawledItem> {
    set k | k in store.items && store.items[k].siteId == siteId :: store.items[k]
  }

  function RunsOf(store: Store, siteId: string): set<CrawlRun> {
    set k | k in store.runs && store.runs[k].siteId == siteId :: store.runs[k]
  }

  /** The limits an omitted `limit` argument defaults to. */
  const DefaultItemLimit: nat := 200
  const DefaultRunLimit: nat := 20

  /** `listItemsBySite`: at most `limit` items of the site (200 when it is omitted), newest
      `crawledAt` first. */
  method ListItemsBySite(store: Store, siteId: string, limit: Option<nat>) returns (r: seq<CrawledItem>)
    ensures limit.Some? ==> IsNewestFirst(r, ItemsOf(store, siteId), (c: CrawledItem) => c.crawledAt, limit.value)
    ensures limit.None? ==> IsNewestFirst(r, ItemsOf(store, siteId), (c: CrawledItem) => c.crawledAt, DefaultItemLimit)
    ensures forall i :: 0 <= i < |r| ==> r[i].siteId == siteId
  {
    var n := if limit.Some? then limit.value else DefaultItemLimit;
    r := NewestFirst(ItemsOf(store, siteId), (c: CrawledItem) => c.crawledAt, n);
  }

  /** `listCrawlRunsBySite`: at most `limit` runs of the site (20 when it is omitted), newest
      `startedAt` first. */
  method ListCrawlRunsBySite(store: Store, siteId: string, limit: Option<nat>) returns (r: seq<CrawlRun>)
    ensures limit.Some? ==> IsNewestFirst(r, RunsOf(store, siteId), (c: CrawlRun) => c.startedAt, limit.value)
    ensures limit.None? ==> IsNewestFirst(r, RunsOf(store, siteId), (c: CrawlRun) => c.startedAt, DefaultRunLimit)
    ensures forall i :: 0 <= i < |r| ==> r[i].siteId == siteId
  {
    var n := if limit.Some? then limit.value else DefaultRunLimit;
    r := NewestFirst(RunsOf(store, siteId), (c: CrawlRun) => c.startedAt, n);
  }

  /** After `clearAllData` every listing is empty. */
  lemma ClearedListings(store: Store, siteId: string, items: seq<CrawledItem>, runs: seq<CrawlRun>, limit: nat)
    requires IsNewestFirst(items, ItemsOf(ClearAllData(store), siteId), (c: CrawledItem) => c.crawledAt, limit)
    requires IsNewestFirst(runs, RunsOf(ClearAllData(store), siteId), (c: CrawlRun) => c.startedAt, limit)
    ensures items == [] && runs == []
  {
    assert ItemsOf(ClearAllData(store), siteId) == {};
    assert RunsOf(ClearAllData(store), siteId) == {};
  }
}
