/** The site table, lookup by id, and the test whether a tab's URL belongs to a site. */
module Targets {
  import opened Wrappers
  import opened Strings
  import opened Urls
  import opened Contracts
  import opened Glob
  import Dedupe

  // Each site's origin, from which both its default page and its one match pattern are built.
  const KissjavRoot := "https://kissjav.com/"
  const MissavRoot := "https://missav123.to/"
  const TwidougaRoot := "https://www.twidouga.net/"
  const TorrentbotRoot := "https://torrentbot230.site/"
  const KoneRoot := "https://kone.gg/"
  const TcafeRoot := "https://tcafe21.com/"

  const KissjavPath := "most-popular/?sort_by=video_viewed_week"
  const MissavPath := "ko/all?sort=weekly_views"
  const TwidougaPath := "ko/ranking_t1.php"
  const TorrentbotPath := "topic/index?top=20"
  const KonePath := "s/pornvideo?mode=hot"
  const TcafePath := "bbs/board.php?bo_table=D2001"

  // Each site's id, which is also the id of the parser it is crawled with.
  const KissjavId := "kissjav-most-popular-week"
  const MissavId := "missav-weekly-views"
  const TwidougaId := "twidouga-ranking-t1"
  const TorrentbotId := "torrentbot-topic-top20"
  const KoneId := "kone-pornvideo-hot"
  const TcafeId := "tcafe-d2001-hot-best"

  const KissjavSite := TargetSite(KissjavId, "KissJAV", KissjavRoot + KissjavPath, [KissjavRoot + "*"], KissjavId)
  const MissavSite := TargetSite(MissavId, "MissAV", MissavRoot + MissavPath, [MissavRoot + "*"], MissavId)
  const TwidougaSite := TargetSite(TwidougaId, "TwiDouga", TwidougaRoot + TwidougaPath, [TwidougaRoot + "*"], TwidougaId)
  const TorrentbotSite := TargetSite(TorrentbotId, "TorrentBot", TorrentbotRoot + TorrentbotPath, [TorrentbotRoot + "*"], TorrentbotId)
  const KoneSite := TargetSite(KoneId, "Kone", KoneRoot + KonePath, [KoneRoot + "*"], KoneId)
  const TcafeSite := TargetSite(TcafeId, "Tcafe", TcafeRoot + TcafePath, [TcafeRoot + "*"], TcafeId)

  /** `TARGET_SITES`, in table order. */
  const TargetSites: seq<TargetSite> :=
    [KissjavSite, MissavSite, TwidougaSite, TorrentbotSite, KoneSite, TcafeSite]

  /** Each site's patterns, one site after another (`flatMap`). */
  function AllPatterns(sites: seq<TargetSite>): (r: seq<string>)
    ensures forall i, p :: 0 <= i < |sites| && p in sites[i].matchPatterns ==> p in r
    ensures forall p :: p in r ==> exists i :: 0 <= i < |sites| && p in sites[i].matchPatterns
  {
    if |sites| == 0 then []
    else
      assert forall i :: 1 <= i < |sites| ==> sites[i] == sites[1..][i - 1];
      sites[0].matchPatterns + AllPatterns(sites[1..])
  }

  function Identity(p: string): string { p }

  /** `hostMatchPatterns`: the patterns of all sites through a `Set`, in first-occurrence order. */
  function HostMatchPatterns(): seq<string> {
    Dedupe.DedupeBy(AllPatterns(TargetSites), Identity)
  }

  /** Every site pattern appears in `hostMatchPatterns` exactly once, and nothing else does. */
  lemma HostMatchPatternsSpec()
    ensures forall i, p :: 0 <= i < |TargetSites| && p in TargetSites[i].matchPatterns ==> p in HostMatchPatterns()
    ensures forall p :: p in HostMatchPatterns() ==>
              exists i :: 0 <= i < |TargetSites| && p in TargetSites[i].matchPatterns
    ensures forall a, b :: 0 <= a < b < |HostMatchPatterns()| ==> HostMatchPatterns()[a] != HostMatchPatterns()[b]
  {
    var all := AllPatterns(TargetSites);
    Dedupe.DedupeMembers(all, Identity);
    Dedupe.DedupeDistinct(all, Identity);
    forall p | p in all ensures p in HostMatchPatterns() {
      var i :| 0 <= i < |all| && all[i] == p;
      assert Identity(all[i]) in Dedupe.Keys(HostMatchPatterns(), Identity);
    }
  }

  /** One pattern per site, in table order. */
  const SitePatterns := [KissjavRoot + "*", MissavRoot + "*", TwidougaRoot + "*", TorrentbotRoot + "*", KoneRoot + "*", TcafeRoot + "*"]

  /** Flattening the table's patterns gives each site's pattern in turn. */
  lemma AllPatternsOfTable()
    ensures AllPatterns(TargetSites) == SitePatterns
  {
    var t := TargetSites;
    assert t[5..][1..] == [];
    assert AllPatterns(t[5..]) == SitePatterns[5..];
    assert t[4..][1..] == t[5..];
    assert AllPatterns(t[4..]) == SitePatterns[4..];
    assert t[3..][1..] == t[4..];
    assert AllPatterns(t[3..]) == SitePatterns[3..];
    assert t[2..][1..] == t[3..];
    assert AllPatterns(t[2..]) == SitePatterns[2..];
    assert t[1..][1..] == t[2..];
    assert AllPatterns(t[1..]) == SitePatterns[1..];
  }

  /** The six patterns are pairwise different: only the first and the last have equal lengths,
      and those differ in their ninth character. */
  lemma SitePatternsDistinct()
    ensures Dedupe.DistinctKeys(SitePatterns, Identity)
  {
    var ps := SitePatterns;
    assert |ps[0]| == 21 && |ps[1]| == 22 && |ps[2]| == 26 && |ps[3]| == 28 && |ps[4]| == 17 && |ps[5]| == 21;
    assert ps[0][8] == 'k' && ps[5][8] == 't';
  }

  /** The `Set` keeps first occurrences in insertion order; since every site contributes one
      pattern of its own, the patterns come out one per site, in table order. */
  lemma HostMatchPatternsInOrder()
    ensures Dedupe.FirstOccurrences(HostMatchPatterns(), AllPatterns(TargetSites), Identity)
    ensures HostMatchPatterns() == SitePatterns
  {
    Dedupe.DedupeSpec(AllPatterns(TargetSites), Identity);
    AllPatternsOfTable();
    SitePatternsDistinct();
    Dedupe.DedupeDistinctNoop(SitePatterns, Identity);
  }

  /** `getTargetSiteById`: the first site with that id (`Array.prototype.find`). */
  function FindSite(sites: seq<TargetSite>, siteId: string): (r: Option<TargetSite>)
    ensures r.None? <==> forall i :: 0 <= i < |sites| ==> sites[i].id != siteId
    ensures r.Some? ==> r.value in sites && r.value.id == siteId
  {
    if |sites| == 0 then None
    else if sites[0].id == siteId then Some(sites[0])
    else
      assert forall i :: 1 <= i < |sites| ==> sites[i] == sites[1..][i - 1];
      FindSite(sites[1..], siteId)
  }

  function GetTargetSiteById(siteId: string): Option<TargetSite> {
    FindSite(TargetSites, siteId)
  }

  /** Enough of each site id to tell them apart: their lengths, and the first characters of the
      two of equal length. */
  lemma IdsTellApart()
    ensures |KissjavId| == 25 && |MissavId| == 19 && |TwidougaId| == 19
    ensures |TorrentbotId| == 22 && |KoneId| == 18 && |TcafeId| == 20
    ensures MissavId[0] == 'm' && TwidougaId[0] == 't'
  {
  }

  /** The ids of the table, in table order. */
  const SiteIds := [KissjavId, MissavId, TwidougaId, TorrentbotId, KoneId, TcafeId]

  lemma SiteIdsInOrder()
    ensures |TargetSites| == |SiteIds|
    ensures forall i :: 0 <= i < |TargetSites| ==> TargetSites[i].id == SiteIds[i] && TargetSites[i].parserId == SiteIds[i]
  {
  }

  /** The table's ids are pairwise distinct and every site is parsed by the parser of its own id,
      so a lookup finds the one site with that id. */
  lemma TableFacts()
    ensures forall i, j :: 0 <= i < j < |TargetSites| ==> TargetSites[i].id != TargetSites[j].id
    ensures forall i :: 0 <= i < |TargetSites| ==> TargetSites[i].parserId == TargetSites[i].id
    ensures forall i :: 0 <= i < |TargetSites| ==> GetTargetSiteById(TargetSites[i].id) == Some(TargetSites[i])
  {
    SiteIdsInOrder();
    IdsTellApart();
    assert forall i, j :: 0 <= i < j < |SiteIds| ==> SiteIds[i] != SiteIds[j] by {
      forall i, j | 0 <= i < j < |SiteIds| ensures SiteIds[i] != SiteIds[j] {
        if |SiteIds[i]| == |SiteIds[j]| {
          assert i == 1 && j == 2;
          assert SiteIds[i][0] != SiteIds[j][0];
        }
      }
    }
    forall i | 0 <= i < |TargetSites| ensures GetTargetSiteById(TargetSites[i].id) == Some(TargetSites[i]) {
      FindFirstOfDistinct(TargetSites, i);
    }
  }

  lemma {:induction false} FindFirstOfDistinct(sites: seq<TargetSite>, i: nat)
    requires i < |sites|
    requires forall a, b :: 0 <= a < b < |sites| ==> sites[a].id != sites[b].id
    ensures FindSite(sites, sites[i].id) == Some(sites[i])
    decreases i
  {
    if i > 0 {
      assert sites[1..][i - 1] == sites[i];
      FindFirstOfDistinct(sites[1..], i - 1);
    }
  }

  // ---------------------------------------------------------------- compiled-pattern cache

  /** `patternRegexCache`: pattern source to compiled expression. */
  type Cache = map<string, seq<Token>>

  /** Every cached entry is the compilation of its key. */
  predicate CacheValid(cache: Cache) {
    forall p :: p in cache ==> cache[p] == Compile(p)
  }

  /** `getPatternRegex`: the cached expression, or a fresh compilation that is then cached. */
  function GetPatternRegex(cache: Cache, pattern: string): (r: (seq<Token>, Cache))
    ensures pattern in r.1 && r.1[pattern] == r.0
    ensures forall p :: p in cache ==> p in r.1 && r.1[p] == cache[p]
  {
    if pattern in cache then (cache[pattern], cache)
    else
      var compiled := Compile(pattern);
      (compiled, cache[pattern := compiled])
  }

  /** The cache is transparent: a valid cache yields what compiling afresh yields, and stays
      valid. */
  lemma CacheTransparent(cache: Cache, pattern: string)
    requires CacheValid(cache)
    ensures GetPatternRegex(cache, pattern).0 == Compile(pattern)
    ensures CacheValid(GetPatternRegex(cache, pattern).1)
  {
  }

  /** Some pattern's anchored expression matches `url` (`matchPatterns.some(...)`), threading the
      cache and stopping at the first hit. */
  function AnyPatternMatches(cache: Cache, patterns: seq<string>, url: string): (r: (bool, Cache))
    requires CacheValid(cache)
    decreases |patterns|
    ensures CacheValid(r.1)
    ensures r.0 <==> exists i :: 0 <= i < |patterns| && GlobMatch(Compile(patterns[i]), url)
  {
    if |patterns| == 0 then (false, cache)
    else
      CacheTransparent(cache, patterns[0]);
      var (re, cache1) := GetPatternRegex(cache, patterns[0]);
      if GlobMatch(re, url) then (true, cache1)
      else
        assert forall i :: 1 <= i < |patterns| ==> patterns[i] == patterns[1..][i - 1];
        AnyPatternMatches(cache1, patterns[1..], url)
  }

  /** `sameOrigin`: both parse as absolute URLs and have the same origin. */
  function SameOrigin(api: UrlApi, first: string, second: string): bool {
    match (api.parse(first, None), api.parse(second, None))
    case (Some(a), Some(b)) => a.origin == b.origin
    case _ => false
  }

  /** `siteMatchesUrl`: a non-blank configured URL of the same origin wins; otherwise some match
      pattern must match. */
  function SiteMatchesUrl(api: UrlApi, cache: Cache, site: TargetSite, url: string, configuredUrl: Option<string>): (r: (bool, Cache))
    requires CacheValid(cache)
    ensures CacheValid(r.1)
  {
    if configuredUrl.Some? && configuredUrl.value != "" && Trim(configuredUrl.value) != ""
       && SameOrigin(api, configuredUrl.value, url)
    then (true, cache)
    else AnyPatternMatches(cache, site.matchPatterns, url)
  }

  /** Without a usable configured URL the answer is exactly "some pattern matches"; a configured
      URL can only turn a miss into a hit, namely when it has the same origin. */
  lemma SiteMatchesUrlSpec(api: UrlApi, cache: Cache, site: TargetSite, url: string, configuredUrl: Option<string>)
    requires CacheValid(cache)
    ensures configuredUrl.None? || AllSpace(configuredUrl.value) ==>
              (SiteMatchesUrl(api, cache, site, url, configuredUrl).0 <==>
               exists i :: 0 <= i < |site.matchPatterns| && GlobMatch(Compile(site.matchPatterns[i]), url))
    ensures SiteMatchesUrl(api, cache, site, url, None).0 ==> SiteMatchesUrl(api, cache, site, url, configuredUrl).0
    ensures SiteMatchesUrl(api, cache, site, url, configuredUrl).0 <==>
              SiteMatchesUrl(api, cache, site, url, None).0
              || (configuredUrl.Some? && !AllSpace(configuredUrl.value) && SameOrigin(api, configuredUrl.value, url))
  {
    if configuredUrl.Some? {
      TrimEmptyIffBlank(configuredUrl.value);
    }
  }

  /** Printable ASCII only, so in particular no line terminator. */
  predicate PlainAscii(s: string) {
    forall k | 0 <= k < |s| :: ' ' <= s[k] <= '~'
  }

  /** A pattern made of a prefix followed by `*` accepts that prefix followed by a rest without
      line terminators. */
  lemma PrefixMatches(prefix: string, rest: string)
    requires '*' !in prefix
    requires PlainAscii(rest)
    ensures GlobMatch(Compile(prefix + "*"), prefix + rest)
  {
    var u := prefix + rest;
    assert u[..|prefix|] == prefix;
    forall i | |prefix| <= i < |u| ensures !IsLineTerminator(u[i]) {
      assert u[i] == rest[i - |prefix|];
    }
    GlobPrefixPattern(prefix, u);
  }

  /** A site whose first pattern is a prefix followed by `*` accepts a page made of that prefix
      and a rest without line terminators. */
  lemma PrefixSiteMatches(site: TargetSite, prefix: string, rest: string)
    requires |site.matchPatterns| > 0 && site.matchPatterns[0] == prefix + "*" && '*' !in prefix
    requires site.url == prefix + rest
    requires PlainAscii(rest)
    ensures GlobMatch(Compile(site.matchPatterns[0]), site.url)
  {
    PrefixMatches(prefix, rest);
  }

  lemma KissjavPathPlain() ensures PlainAscii(KissjavPath) { assert PlainAscii(KissjavPath); }
  lemma MissavPathPlain() ensures PlainAscii(MissavPath) { assert PlainAscii(MissavPath); }
  lemma TwidougaPathPlain() ensures PlainAscii(TwidougaPath) { assert PlainAscii(TwidougaPath); }
  lemma TorrentbotPathPlain() ensures PlainAscii(TorrentbotPath) { assert PlainAscii(TorrentbotPath); }
  lemma KonePathPlain() ensures PlainAscii(KonePath) { assert PlainAscii(KonePath); }
  lemma TcafePathPlain() ensures PlainAscii(TcafePath) { assert PlainAscii(TcafePath); }

  /** Each site's default page matches its own pattern. */
  lemma DefaultUrlsMatch()
    ensures forall i :: 0 <= i < |TargetSites| ==>
              GlobMatch(Compile(TargetSites[i].matchPatterns[0]), TargetSites[i].url)
  {
    FirstDefaultUrlsMatch();
    LastDefaultUrlsMatch();
  }

  lemma FirstDefaultUrlsMatch()
    ensures GlobMatch(Compile(KissjavSite.matchPatterns[0]), KissjavSite.url)
    ensures GlobMatch(Compile(MissavSite.matchPatterns[0]), MissavSite.url)
    ensures GlobMatch(Compile(TwidougaSite.matchPatterns[0]), TwidougaSite.url)
  {
    KissjavPathPlain();
    MissavPathPlain();
    TwidougaPathPlain();
    PrefixSiteMatches(KissjavSite, KissjavRoot, KissjavPath);
    PrefixSiteMatches(MissavSite, MissavRoot, MissavPath);
    PrefixSiteMatches(TwidougaSite, TwidougaRoot, TwidougaPath);
  }

  lemma LastDefaultUrlsMatch()
    ensures GlobMatch(Compile(TorrentbotSite.matchPatterns[0]), TorrentbotSite.url)
    ensures GlobMatch(Compile(KoneSite.matchPatterns[0]), KoneSite.url)
    ensures GlobMatch(Compile(TcafeSite.matchPatterns[0]), TcafeSite.url)
  {
    TorrentbotPathPlain();
    KonePathPlain();
    TcafePathPlain();
    PrefixSiteMatches(TorrentbotSite, TorrentbotRoot, TorrentbotPath);
    PrefixSiteMatches(KoneSite, KoneRoot, KonePath);
    PrefixSiteMatches(TcafeSite, TcafeRoot, TcafePath);
  }
}
