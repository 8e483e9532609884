/** The crawl engine (src/core/crawler.ts): `crawlSite`, a breadth-first crawl
    level by level, and the summary `crawlWebsite` builds from its pages.

    The page visitor is a parameter: a function from a URL string and a depth
    to either a `VisitResult` or the message of the error it threw. The
    `p-limit` pool and the `wait` delay only change the order in which the
    visits of one level complete; the model visits a level's URLs in list
    order. Where the source re-parses a URL it has just serialised to read its
    origin (`new URL(url).origin`), the model reads the origin of the record. */
module Crawler {
  import opened Wrappers
  import opened Url
  import opened OrderedSets

  /** What `crawlWebsite`'s visitor returns as a page's `data`. */
  datatype PageData = PageData(title: string, filePath: string, markdown: string)

  /** `VisitResult`: optional data and optional discovered hrefs. */
  datatype VisitResult = VisitResult(data: Option<PageData>, discoveredLinks: Option<seq<string>>)

  /** `CrawlPage`, with the `data` field `crawlSite` attaches. */
  datatype CrawlPage = CrawlPage(
    url: string,
    depth: nat,
    title: Option<string>,
    filePath: Option<string>,
    markdown: Option<string>,
    linksDiscovered: nat,
    success: bool,
    error: Option<string>,
    data: Option<PageData>)

  /** The options `crawlSite` reads (concurrency and delay only pace the visits). */
  datatype CrawlOptions = CrawlOptions(depth: int, seedUrls: Option<seq<string>>, shouldVisitUrl: Option<string -> bool>)

  /** One crawl's fixed parameters: the URL codec, the origin of the normalised
      start URL, the admission predicate, the visitor (`Err(message)` when it
      throws) and the depth bound. */
  datatype Engine = Engine(
    c: UrlCodec,
    baseOrigin: Origin,
    shouldVisitUrl: Option<string -> bool>,
    visit: (string, nat) -> Result<VisitResult, string>,
    maxDepth: int)

  /** The `visited` set and the `nextLevelCandidates` list. */
  datatype Frontier = Frontier(visited: set<string>, next: seq<string>)

  /** What `crawlSite` resolves to. */
  datatype CrawlResult = CrawlResult(pages: seq<CrawlPage>, visitedUrls: set<string>)

  // ---------------------------------------------------------------------------
  // Admission and visiting

  /** The admission test: the start URL's origin, and the predicate if any. */
  predicate Admits(e: Engine, n: Url) {
    OriginOf(e.c, n) == e.baseOrigin && (e.shouldVisitUrl.None? || e.shouldVisitUrl.value(e.c.serialize(n)))
  }

  /** `result.discoveredLinks ?? []` for a visit that returned; nothing for one that threw. */
  function Hrefs(e: Engine, url: string, depth: nat): (hrefs: seq<string>)
    ensures hrefs != [] ==> e.visit(url, depth).Ok?
  {
    match e.visit(url, depth)
    case Ok(r) => r.discoveredLinks.GetOr([])
    case Err(_) => []
  }

  /** The page a visit of `url` at `depth` records. */
  function PageOf(e: Engine, url: string, depth: nat): (p: CrawlPage)
    ensures p.url == url && p.depth == depth
    ensures p.success <==> e.visit(url, depth).Ok?
    ensures !p.success ==> p.linksDiscovered == 0 && p.error == Some(e.visit(url, depth).error) && p.data.None?
    ensures p.success ==> p.linksDiscovered == |Hrefs(e, url, depth)| && p.error.None? && p.data == e.visit(url, depth).value.data
    ensures p.title.None? && p.filePath.None? && p.markdown.None?
  {
    match e.visit(url, depth)
    case Ok(r) => CrawlPage(url, depth, None, None, None, |r.discoveredLinks.GetOr([])|, true, None, r.data)
    case Err(message) => CrawlPage(url, depth, None, None, None, 0, false, Some(message), None)
  }

  /** `resolveAndNormalizeUrl(url, href, {stripQuery: true})` with the page URL
      as base; None also when the page URL does not parse. */
  function LinkTarget(e: Engine, url: string, href: string): (target: Option<Url>)
    ensures target.Some? ==> target.value.query.None? && target.value.fragment.None?
  {
    match e.c.parse(url)
    case None => None
    case Some(base) => ResolveAndNormalizeUrl(e.c, base, href, true)
  }

  /** `href` on page `url` leads to the admissible URL serialised as `x`. */
  predicate AdmittedLink(e: Engine, url: string, href: string, x: string) {
    var target := LinkTarget(e, url, href);
    target.Some? && Admits(e, target.value) && e.c.serialize(target.value) == x
  }

  /** One discovered href: admitted unless it does not resolve, fails the
      admission test or is already visited. */
  function AdmitHref(e: Engine, url: string, f: Frontier, href: string): Frontier {
    match LinkTarget(e, url, href)
    case None => f
    case Some(n) =>
      if Admits(e, n) && e.c.serialize(n) !in f.visited
      then Frontier(f.visited + {e.c.serialize(n)}, f.next + [e.c.serialize(n)])
      else f
  }

  /** All hrefs of one page, in order. */
  function AdmitLinks(e: Engine, url: string, f: Frontier, hrefs: seq<string>): Frontier
    decreases |hrefs|
  {
    if hrefs == [] then f
    else AdmitHref(e, url, AdmitLinks(e, url, f, hrefs[..|hrefs| - 1]), hrefs[|hrefs| - 1])
  }

  /** The hrefs of every page of a level, page by page. */
  function AdmitLevel(e: Engine, f: Frontier, level: seq<string>, depth: nat): Frontier
    decreases |level|
  {
    if level == [] then f
    else
      var url := level[|level| - 1];
      AdmitLinks(e, url, AdmitLevel(e, f, level[..|level| - 1], depth), Hrefs(e, url, depth))
  }

  /** The pages a level records, one per URL, in order. */
  function LevelPages(e: Engine, level: seq<string>, depth: nat): (pages: seq<CrawlPage>)
    ensures |pages| == |level|
    ensures forall i :: 0 <= i < |level| ==> pages[i] == PageOf(e, level[i], depth)
  {
    seq(|level|, i requires 0 <= i < |level| => PageOf(e, level[i], depth))
  }

  lemma LevelPagesSnoc(e: Engine, level: seq<string>, url: string, depth: nat)
    ensures LevelPages(e, level + [url], depth) == LevelPages(e, level, depth) + [PageOf(e, url, depth)]
  {
  }

  /** The crawl from `level` at `depth` on: stop past the depth bound or at an
      empty level, otherwise visit the level and go on with its admitted links. */
  function Crawl(e: Engine, level: seq<string>, visited: set<string>, pages: seq<CrawlPage>, depth: nat): CrawlResult
    decreases e.maxDepth - depth
  {
    if depth > e.maxDepth || level == [] then CrawlResult(pages, visited)
    else
      var f := AdmitLevel(e, Frontier(visited, []), level, depth);
      Crawl(e, f.next, f.visited, pages + LevelPages(e, level, depth), depth + 1)
  }

  // ---------------------------------------------------------------------------
  // The first level

  /** `seedUrls.map(url => normalizeUrl(url, {stripQuery: true}))`: the first
      seed that does not parse makes it throw. */
  function NormalizeAll(c: UrlCodec, urls: seq<string>): (r: Result<seq<Url>, UrlError>)
    ensures r.Ok? <==> forall i :: 0 <= i < |urls| ==> c.parse(urls[i]).Some?
    ensures r.Ok? ==> |r.value| == |urls|
    ensures r.Ok? ==> forall i :: 0 <= i < |urls| ==> r.value[i] == Normalize(c.parse(urls[i]).value, true)
    ensures r.Err? ==> exists i :: 0 <= i < |urls| && c.parse(urls[i]).None? && r.error == InvalidUrl(urls[i])
                                  && forall j :: 0 <= j < i ==> c.parse(urls[j]).Some?
    decreases |urls|
  {
    if urls == [] then Ok([])
    else
      match c.parse(urls[0])
      case None => Err(InvalidUrl(urls[0]))
      case Some(u) =>
        match NormalizeAll(c, urls[1..])
        case Err(err) => Err(err)
        case Ok(rest) => Ok([Normalize(u, true)] + rest)
  }

  /** `initialQueue`: the normalised seeds when there are any, else the start. */
  function InitialQueue(c: UrlCodec, start: Url, seedUrls: Option<seq<string>>): Result<seq<Url>, UrlError> {
    if seedUrls.Some? && |seedUrls.value| > 0 then NormalizeAll(c, seedUrls.value) else Ok([start])
  }

  /** The serialisations of the URLs. */
  function Keys(c: UrlCodec, urls: seq<Url>): (keys: seq<string>)
    ensures |keys| == |urls|
    ensures forall i :: 0 <= i < |urls| ==> keys[i] == c.serialize(urls[i])
  {
    seq(|urls|, i requires 0 <= i < |urls| => c.serialize(urls[i]))
  }

  /** `[...new Set(initialQueue)]`: the first URL with each serialisation. */
  function UniqueByKey(c: UrlCodec, urls: seq<Url>): (r: seq<Url>)
    ensures |r| <= |urls|
    decreases |urls|
  {
    if urls == [] then []
    else
      var before := UniqueByKey(c, urls[..|urls| - 1]);
      var u := urls[|urls| - 1];
      if c.serialize(u) in Keys(c, before) then before else before + [u]
  }

  /** `uniqueInitialQueue.filter(...)`: the admissible seeds, as strings. */
  function SeedLevel(e: Engine, urls: seq<Url>): (level: seq<string>)
    ensures |level| <= |urls|
    decreases |urls|
  {
    if urls == [] then []
    else (if Admits(e, urls[0]) then [e.c.serialize(urls[0])] else []) + SeedLevel(e, urls[1..])
  }

  /** The engine of a crawl from the (parsed) start URL. */
  function EngineFor(c: UrlCodec, start: Url, options: CrawlOptions, visit: (string, nat) -> Result<VisitResult, string>): Engine {
    Engine(c, OriginOf(c, Normalize(start, true)), options.shouldVisitUrl, visit, options.depth)
  }

  /** `crawlSite(startUrl, options, visit)`: it rejects when the start URL or a
      seed does not parse. */
  function CrawlSiteSpec(c: UrlCodec, startUrl: string, options: CrawlOptions,
                         visit: (string, nat) -> Result<VisitResult, string>): Result<CrawlResult, UrlError>
  {
    match c.parse(startUrl)
    case None => Err(InvalidUrl(startUrl))
    case Some(u) =>
      var e := EngineFor(c, u, options, visit);
      match InitialQueue(c, Normalize(u, true), options.seedUrls)
      case Err(err) => Err(err)
      case Ok(queue) =>
        var unique := UniqueByKey(c, queue);
        Ok(Crawl(e, SeedLevel(e, unique), set x | x in Keys(c, unique), [], 0))
  }

  // ---------------------------------------------------------------------------
  // The imperative engine

  /** The loop over one page's discovered hrefs. */
  method AdmitDiscoveredLinks(e: Engine, url: string, hrefs: seq<string>, visited0: set<string>, next0: seq<string>)
    returns (visited: set<string>, next: seq<string>)
    ensures Frontier(visited, next) == AdmitLinks(e, url, Frontier(visited0, next0), hrefs)
  {
    visited, next := visited0, next0;
    for k := 0 to |hrefs|
      invariant Frontier(visited, next) == AdmitLinks(e, url, Frontier(visited0, next0), hrefs[..k])
    {
      assert hrefs[..k + 1][..k] == hrefs[..k];
      assert hrefs[..k + 1][k] == hrefs[k];
      var normalized := LinkTarget(e, url, hrefs[k]);
      if normalized.None? {
        continue;
      }
      var n := normalized.value;
      if OriginOf(e.c, n) != e.baseOrigin {
        continue;
      }
      if e.shouldVisitUrl.Some? && !e.shouldVisitUrl.value(e.c.serialize(n)) {
        continue;
      }
      if e.c.serialize(n) in visited {
        continue;
      }
      visited := visited + {e.c.serialize(n)};
      next := next + [e.c.serialize(n)];
    }
    assert hrefs[..|hrefs|] == hrefs;
  }

  /** One level: visit each URL, record its page, admit its links. */
  method VisitLevel(e: Engine, level: seq<string>, depth: nat, visited0: set<string>, pages0: seq<CrawlPage>)
    returns (visited: set<string>, next: seq<string>, pages: seq<CrawlPage>)
    ensures Frontier(visited, next) == AdmitLevel(e, Frontier(visited0, []), level, depth)
    ensures pages == pages0 + LevelPages(e, level, depth)
  {
    visited, next, pages := visited0, [], pages0;
    for i := 0 to |level|
      invariant Frontier(visited, next) == AdmitLevel(e, Frontier(visited0, []), level[..i], depth)
      invariant pages == pages0 + LevelPages(e, level[..i], depth)
    {
      var url := level[i];
      assert level[..i + 1][..i] == level[..i];
      assert level[..i + 1] == level[..i] + [url];
      LevelPagesSnoc(e, level[..i], url, depth);
      match e.visit(url, depth)
      case Ok(result) =>
        var links := result.discoveredLinks.GetOr([]);
        pages := pages + [CrawlPage(url, depth, None, None, None, |links|, true, None, result.data)];
        visited, next := AdmitDiscoveredLinks(e, url, links, visited, next);
      case Err(message) =>
        pages := pages + [CrawlPage(url, depth, None, None, None, 0, false, Some(message), None)];
    }
    assert level[..|level|] == level;
  }

  /** `crawlSite`. */
  method CrawlSite(c: UrlCodec, startUrl: string, options: CrawlOptions,
                   visit: (string, nat) -> Result<VisitResult, string>)
    returns (r: Result<CrawlResult, UrlError>)
    ensures r == CrawlSiteSpec(c, startUrl, options, visit)
  {
    var parsed := c.parse(startUrl);
    if parsed.None? {
      return Err(InvalidUrl(startUrl));
    }
    var normalizedStart := Normalize(parsed.value, true);
    var e := EngineFor(c, parsed.value, options, visit);
    var initialQueue := InitialQueue(c, normalizedStart, options.seedUrls);
    if initialQueue.Err? {
      return Err(initialQueue.error);
    }
    var uniqueInitialQueue := UniqueByKey(c, initialQueue.value);
    var visited := set x | x in Keys(c, uniqueInitialQueue);
    var pages: seq<CrawlPage> := [];
    var currentLevel := SeedLevel(e, uniqueInitialQueue);
    ghost var crawl := Crawl(e, currentLevel, visited, pages, 0);
    var depth := 0;
    while depth <= options.depth && |currentLevel| > 0
      invariant Crawl(e, currentLevel, visited, pages, depth) == crawl
      decreases options.depth - depth
    {
      var nextVisited, nextLevel, nextPages := VisitLevel(e, currentLevel, depth, visited, pages);
      visited, currentLevel, pages := nextVisited, nextLevel, nextPages;
      depth := depth + 1;
    }
    return Ok(CrawlResult(pages, visited));
  }

  // ---------------------------------------------------------------------------
  // The frontier of one level

  /** `f` grew from the visited set `visited0` with an empty candidate list:
      the candidates are new, distinct, and exactly what was added. */
  ghost predicate FrontierFrom(visited0: set<string>, f: Frontier) {
    && Distinct(f.next)
    && (forall x :: x in f.next ==> x !in visited0)
    && f.visited == visited0 + (set x | x in f.next)
  }

  lemma AdmitHrefKeeps(e: Engine, url: string, visited0: set<string>, f: Frontier, href: string)
    requires FrontierFrom(visited0, f)
    ensures FrontierFrom(visited0, AdmitHref(e, url, f, href))
  {
    var g := AdmitHref(e, url, f, href);
    if g != f {
      var x := g.next[|g.next| - 1];
      assert g.next == f.next + [x];
      assert x !in f.next;
      assert (set y | y in g.next) == (set y | y in f.next) + {x};
    }
  }

  lemma {:induction false} AdmitLinksKeeps(e: Engine, url: string, visited0: set<string>, f: Frontier, hrefs: seq<string>)
    requires FrontierFrom(visited0, f)
    ensures FrontierFrom(visited0, AdmitLinks(e, url, f, hrefs))
    decreases |hrefs|
  {
    if hrefs != [] {
      AdmitLinksKeeps(e, url, visited0, f, hrefs[..|hrefs| - 1]);
      AdmitHrefKeeps(e, url, visited0, AdmitLinks(e, url, f, hrefs[..|hrefs| - 1]), hrefs[|hrefs| - 1]);
    }
  }

  /** A level's candidates are distinct, were not visited before the level,
      and are exactly what the level added to the visited set. */
  lemma {:induction false} AdmitLevelKeeps(e: Engine, visited0: set<string>, f: Frontier, level: seq<string>, depth: nat)
    requires FrontierFrom(visited0, f)
    ensures FrontierFrom(visited0, AdmitLevel(e, f, level, depth))
    decreases |level|
  {
    if level != [] {
      var url := level[|level| - 1];
      AdmitLevelKeeps(e, visited0, f, level[..|level| - 1], depth);
      AdmitLinksKeeps(e, url, visited0, AdmitLevel(e, f, level[..|level| - 1], depth), Hrefs(e, url, depth));
    }
  }

  /** Every candidate a page adds comes from one of its hrefs. */
  lemma {:induction false} AdmitLinksSource(e: Engine, url: string, f: Frontier, hrefs: seq<string>, x: string)
    returns (k: nat)
    requires x in AdmitLinks(e, url, f, hrefs).next && x !in f.next
    ensures k < |hrefs| && AdmittedLink(e, url, hrefs[k], x)
    decreases |hrefs|
  {
    var init := hrefs[..|hrefs| - 1];
    var g := AdmitLinks(e, url, f, init);
    if x in g.next {
      k := AdmitLinksSource(e, url, f, init, x);
      assert init[k] == hrefs[k];
    } else {
      k := |hrefs| - 1;
      var n := LinkTarget(e, url, hrefs[k]).value;
      assert AdmitHref(e, url, g, hrefs[k]).next == g.next + [e.c.serialize(n)];
    }
  }

  /** `x` is admitted from one of the hrefs the visit of `url` returned. */
  predicate IsLinkOf(e: Engine, url: string, depth: nat, x: string) {
    exists k :: 0 <= k < |Hrefs(e, url, depth)| && AdmittedLink(e, url, Hrefs(e, url, depth)[k], x)
  }

  /** Some URL of `level` links to `x`. */
  predicate LinkedFromLevel(e: Engine, level: seq<string>, depth: nat, x: string) {
    exists i :: 0 <= i < |level| && IsLinkOf(e, level[i], depth, x)
  }

  lemma {:induction false} AdmitLevelSource(e: Engine, f: Frontier, level: seq<string>, depth: nat, x: string)
    requires x in AdmitLevel(e, f, level, depth).next && x !in f.next
    ensures LinkedFromLevel(e, level, depth, x)
    decreases |level|
  {
    var init := level[..|level| - 1];
    var url := level[|level| - 1];
    var g := AdmitLevel(e, f, init, depth);
    if x in g.next {
      AdmitLevelSource(e, f, init, depth, x);
      var i :| 0 <= i < |init| && IsLinkOf(e, init[i], depth, x);
      assert init[i] == level[i];
    } else {
      var k := AdmitLinksSource(e, url, g, Hrefs(e, url, depth), x);
      assert IsLinkOf(e, level[|level| - 1], depth, x);
    }
  }

  // ---------------------------------------------------------------------------
  // What the crawl keeps true

  /** `x` is the serialisation of a normalised, admissible URL. */
  ghost predicate IsAdmissibleKey(e: Engine, x: string) {
    exists n: Url :: e.c.serialize(n) == x && Admits(e, n) && n.query.None? && n.fragment.None?
  }

  lemma LinkIsAdmissible(e: Engine, url: string, depth: nat, x: string)
    requires IsLinkOf(e, url, depth, x)
    ensures IsAdmissibleKey(e, x)
    ensures e.visit(url, depth).Ok?
  {
    var k :| 0 <= k < |Hrefs(e, url, depth)| && AdmittedLink(e, url, Hrefs(e, url, depth)[k], x);
    var n := LinkTarget(e, url, Hrefs(e, url, depth)[k]).value;
    assert e.c.serialize(n) == x && Admits(e, n);
  }

  predicate DistinctUrls(pages: seq<CrawlPage>) {
    forall i, j :: 0 <= i < j < |pages| ==> pages[i].url != pages[j].url
  }

  /** A successful page one level above `depth` links to `x`. */
  predicate ParentIn(e: Engine, pages: seq<CrawlPage>, depth: nat, x: string) {
    exists j :: 0 <= j < |pages| && pages[j].success && pages[j].depth + 1 == depth && IsLinkOf(e, pages[j].url, pages[j].depth, x)
  }

  lemma ParentInPrefix(e: Engine, pages: seq<CrawlPage>, more: seq<CrawlPage>, depth: nat, x: string)
    requires ParentIn(e, pages, depth, x)
    ensures ParentIn(e, pages + more, depth, x)
  {
    var j :| 0 <= j < |pages| && pages[j].success && pages[j].depth + 1 == depth && IsLinkOf(e, pages[j].url, pages[j].depth, x);
    assert (pages + more)[j] == pages[j];
  }

  /** Page URLs are distinct and visited. */
  ghost predicate UrlsInv(visited: set<string>, pages: seq<CrawlPage>) {
    DistinctUrls(pages) && forall i :: 0 <= i < |pages| ==> pages[i].url in visited
  }

  /** Every page records its own visit. */
  ghost predicate RecordsInv(e: Engine, pages: seq<CrawlPage>) {
    forall i :: 0 <= i < |pages| ==> pages[i] == PageOf(e, pages[i].url, pages[i].depth)
  }

  /** Depths are within the bound and never decrease along the pages. */
  ghost predicate DepthsInv(e: Engine, pages: seq<CrawlPage>) {
    && (forall i :: 0 <= i < |pages| ==> pages[i].depth <= e.maxDepth)
    && (forall i, j :: 0 <= i < j < |pages| ==> pages[i].depth <= pages[j].depth)
  }

  ghost predicate AdmissibleInv(e: Engine, pages: seq<CrawlPage>) {
    forall i :: 0 <= i < |pages| ==> IsAdmissibleKey(e, pages[i].url)
  }

  /** Every page below the first level was linked from an earlier successful
      page one level up. */
  ghost predicate ParentsInv(e: Engine, pages: seq<CrawlPage>) {
    forall i :: 0 <= i < |pages| && pages[i].depth > 0 ==> ParentIn(e, pages[..i], pages[i].depth, pages[i].url)
  }

  ghost predicate PagesInv(e: Engine, visited: set<string>, pages: seq<CrawlPage>) {
    UrlsInv(visited, pages) && RecordsInv(e, pages) && DepthsInv(e, pages) && AdmissibleInv(e, pages) && ParentsInv(e, pages)
  }

  /** The level to visit at `depth`: distinct, visited, not yet a page,
      admissible, and (below the first level) linked from the level above. */
  ghost predicate LevelInv(e: Engine, visited: set<string>, pages: seq<CrawlPage>, level: seq<string>, depth: nat) {
    && Distinct(level)
    && (forall x :: x in level ==> x in visited)
    && (forall i :: 0 <= i < |pages| ==> pages[i].url !in level && pages[i].depth < depth)
    && (forall x :: x in level ==> IsAdmissibleKey(e, x))
    && (depth > 0 ==> forall x :: x in level ==> ParentIn(e, pages, depth, x))
  }

  lemma StepUrls(e: Engine, visited: set<string>, pages: seq<CrawlPage>, level: seq<string>, depth: nat, f: Frontier)
    requires UrlsInv(visited, pages) && LevelInv(e, visited, pages, level, depth)
    requires FrontierFrom(visited, f)
    ensures UrlsInv(f.visited, pages + LevelPages(e, level, depth))
  {
    var after := pages + LevelPages(e, level, depth);
    forall i, j | 0 <= i < j < |after|
      ensures after[i].url != after[j].url
    {
      if j < |pages| {
        assert after[i] == pages[i] && after[j] == pages[j];
      } else if i < |pages| {
        assert after[i] == pages[i] && after[j].url == level[j - |pages|];
      } else {
        assert after[i].url == level[i - |pages|] && after[j].url == level[j - |pages|];
      }
    }
    forall i | 0 <= i < |after|
      ensures after[i].url in f.visited
    {
      if i < |pages| {
        assert after[i] == pages[i];
      } else {
        assert after[i].url == level[i - |pages|];
      }
    }
  }

  lemma StepRecords(e: Engine, pages: seq<CrawlPage>, level: seq<string>, depth: nat)
    requires RecordsInv(e, pages)
    ensures RecordsInv(e, pages + LevelPages(e, level, depth))
  {
    var after := pages + LevelPages(e, level, depth);
    forall i | 0 <= i < |after|
      ensures after[i] == PageOf(e, after[i].url, after[i].depth)
    {
      if i < |pages| {
        assert after[i] == pages[i];
      }
    }
  }

  lemma StepDepths(e: Engine, visited: set<string>, pages: seq<CrawlPage>, level: seq<string>, depth: nat)
    requires DepthsInv(e, pages) && LevelInv(e, visited, pages, level, depth) && depth <= e.maxDepth
    ensures DepthsInv(e, pages + LevelPages(e, level, depth))
  {
    var after := pages + LevelPages(e, level, depth);
    forall i | 0 <= i < |after|
      ensures after[i].depth <= e.maxDepth && (i < |pages| ==> after[i].depth < depth) && (i >= |pages| ==> after[i].depth == depth)
    {
      if i < |pages| {
        assert after[i] == pages[i];
      }
    }
  }

  lemma StepAdmissible(e: Engine, visited: set<string>, pages: seq<CrawlPage>, level: seq<string>, depth: nat)
    requires AdmissibleInv(e, pages) && LevelInv(e, visited, pages, level, depth)
    ensures AdmissibleInv(e, pages + LevelPages(e, level, depth))
  {
    var after := pages + LevelPages(e, level, depth);
    forall i | 0 <= i < |after|
      ensures IsAdmissibleKey(e, after[i].url)
    {
      if i < |pages| {
        assert after[i] == pages[i];
      } else {
        assert after[i].url == level[i - |pages|];
      }
    }
  }

  lemma StepParents(e: Engine, pages: seq<CrawlPage>, level: seq<string>, depth: nat)
    requires ParentsInv(e, pages)
    requires depth > 0 ==> forall x :: x in level ==> ParentIn(e, pages, depth, x)
    ensures ParentsInv(e, pages + LevelPages(e, level, depth))
  {
    var after := pages + LevelPages(e, level, depth);
    forall i | 0 <= i < |after| && after[i].depth > 0
      ensures ParentIn(e, after[..i], after[i].depth, after[i].url)
    {
      if i < |pages| {
        OldPageHasParent(e, pages, LevelPages(e, level, depth), i);
      } else {
        assert after[i].depth == depth && level[i - |pages|] in level;
        LevelPageHasParent(e, pages, level, depth, i);
      }
    }
  }

  /** A page already recorded keeps its parent when pages are appended. */
  lemma OldPageHasParent(e: Engine, pages: seq<CrawlPage>, more: seq<CrawlPage>, i: nat)
    requires ParentsInv(e, pages) && i < |pages| && pages[i].depth > 0
    ensures ParentIn(e, (pages + more)[..i], (pages + more)[i].depth, (pages + more)[i].url)
  {
    assert (pages + more)[..i] == pages[..i] && (pages + more)[i] == pages[i];
  }

  /** The page a level adds at position `i` keeps its URL's parent. */
  lemma LevelPageHasParent(e: Engine, pages: seq<CrawlPage>, level: seq<string>, depth: nat, i: nat)
    requires |pages| <= i < |pages| + |level| && depth > 0 && ParentIn(e, pages, depth, level[i - |pages|])
    ensures var after := pages + LevelPages(e, level, depth);
            ParentIn(e, after[..i], after[i].depth, after[i].url)
  {
    var added := LevelPages(e, level, depth);
    var after := pages + added;
    var k := i - |pages|;
    assert after[i].url == level[k] && after[i].depth == depth;
    ParentInPrefix(e, pages, added[..k], depth, level[k]);
    assert after[..i] == pages + added[..k];
  }

  lemma StepLevelLinked(e: Engine, visited: set<string>, pages: seq<CrawlPage>, level: seq<string>, depth: nat)
    ensures var f := AdmitLevel(e, Frontier(visited, []), level, depth);
            forall x :: x in f.next ==> IsAdmissibleKey(e, x) && ParentIn(e, pages + LevelPages(e, level, depth), depth + 1, x)
  {
    var f := AdmitLevel(e, Frontier(visited, []), level, depth);
    var after := pages + LevelPages(e, level, depth);
    forall x | x in f.next
      ensures IsAdmissibleKey(e, x) && ParentIn(e, after, depth + 1, x)
    {
      AdmitLevelSource(e, Frontier(visited, []), level, depth, x);
      var i :| 0 <= i < |level| && IsLinkOf(e, level[i], depth, x);
      LinkIsAdmissible(e, level[i], depth, x);
      assert after[|pages| + i] == PageOf(e, level[i], depth);
    }
  }

  lemma StepLevelFresh(e: Engine, visited: set<string>, pages: seq<CrawlPage>, level: seq<string>, depth: nat, f: Frontier)
    requires LevelInv(e, visited, pages, level, depth) && UrlsInv(visited, pages)
    requires FrontierFrom(visited, f)
    ensures var after := pages + LevelPages(e, level, depth);
            forall i :: 0 <= i < |after| ==> after[i].url !in f.next && after[i].depth < depth + 1
  {
    var after := pages + LevelPages(e, level, depth);
    forall i | 0 <= i < |after|
      ensures after[i].url !in f.next && after[i].depth < depth + 1
    {
      if i < |pages| {
        assert after[i] == pages[i];
      } else {
        assert after[i].url == level[i - |pages|];
      }
    }
  }

  lemma StepLevel(e: Engine, visited: set<string>, pages: seq<CrawlPage>, level: seq<string>, depth: nat)
    requires LevelInv(e, visited, pages, level, depth) && UrlsInv(visited, pages)
    ensures var f := AdmitLevel(e, Frontier(visited, []), level, depth);
            LevelInv(e, f.visited, pages + LevelPages(e, level, depth), f.next, depth + 1)
  {
    var f := AdmitLevel(e, Frontier(visited, []), level, depth);
    assert FrontierFrom(visited, Frontier(visited, [])) by {
      assert (set y: string | y in []) == {};
    }
    AdmitLevelKeeps(e, visited, Frontier(visited, []), level, depth);
    StepLevelLinked(e, visited, pages, level, depth);
    StepLevelFresh(e, visited, pages, level, depth, f);
  }

  /** Visiting a level keeps every invariant. */
  lemma CrawlStep(e: Engine, visited: set<string>, pages: seq<CrawlPage>, level: seq<string>, depth: nat)
    requires PagesInv(e, visited, pages) && LevelInv(e, visited, pages, level, depth) && depth <= e.maxDepth
    ensures var f := AdmitLevel(e, Frontier(visited, []), level, depth);
            var after := pages + LevelPages(e, level, depth);
            PagesInv(e, f.visited, after) && LevelInv(e, f.visited, after, f.next, depth + 1)
  {
    var f := AdmitLevel(e, Frontier(visited, []), level, depth);
    assert FrontierFrom(visited, Frontier(visited, [])) by {
      assert (set y: string | y in []) == {};
    }
    AdmitLevelKeeps(e, visited, Frontier(visited, []), level, depth);
    StepUrls(e, visited, pages, level, depth, f);
    StepRecords(e, pages, level, depth);
    StepDepths(e, visited, pages, level, depth);
    StepAdmissible(e, visited, pages, level, depth);
    StepParents(e, pages, level, depth);
    StepLevel(e, visited, pages, level, depth);
  }

  /** The crawl keeps the page invariants to the end. */
  lemma {:induction false} CrawlKeepsInv(e: Engine, level: seq<string>, visited: set<string>, pages: seq<CrawlPage>, depth: nat)
    requires PagesInv(e, visited, pages) && LevelInv(e, visited, pages, level, depth)
    ensures var r := Crawl(e, level, visited, pages, depth); PagesInv(e, r.visitedUrls, r.pages)
    decreases e.maxDepth - depth
  {
    if depth <= e.maxDepth && level != [] {
      var f := AdmitLevel(e, Frontier(visited, []), level, depth);
      CrawlStep(e, visited, pages, level, depth);
      CrawlKeepsInv(e, f.next, f.visited, pages + LevelPages(e, level, depth), depth + 1);
    }
  }

  /** The crawl only appends pages, all at `depth` or deeper, and only adds to
      the visited set. */
  lemma {:induction false} CrawlExtends(e: Engine, level: seq<string>, visited: set<string>, pages: seq<CrawlPage>, depth: nat)
    ensures var r := Crawl(e, level, visited, pages, depth);
            && visited <= r.visitedUrls
            && |pages| <= |r.pages| && r.pages[..|pages|] == pages
            && forall i :: |pages| <= i < |r.pages| ==> r.pages[i].depth >= depth
    decreases e.maxDepth - depth
  {
    if depth <= e.maxDepth && level != [] {
      var f := AdmitLevel(e, Frontier(visited, []), level, depth);
      var after := pages + LevelPages(e, level, depth);
      assert FrontierFrom(visited, Frontier(visited, [])) by {
        assert (set y: string | y in []) == {};
      }
      AdmitLevelKeeps(e, visited, Frontier(visited, []), level, depth);
      CrawlExtends(e, f.next, f.visited, after, depth + 1);
      var r := Crawl(e, level, visited, pages, depth);
      assert r.pages[..|after|] == after;
      assert r.pages[..|pages|] == after[..|pages|];
      forall i | |pages| <= i < |r.pages|
        ensures r.pages[i].depth >= depth
      {
        if i < |after| {
          assert r.pages[i] == after[i];
        }
      }
    }
  }

  // ---------------------------------------------------------------------------
  // The first level and the whole crawl

  lemma KeysSnoc(c: UrlCodec, urls: seq<Url>, u: Url)
    ensures Keys(c, urls + [u]) == Keys(c, urls) + [c.serialize(u)]
  {
  }

  /** Deduplicating by serialisation keeps exactly the serialisations that
      `[...new Set(keys)]` keeps, in the same order. */
  lemma {:induction false} UniqueKeysAreSetSpread(c: UrlCodec, urls: seq<Url>)
    ensures Keys(c, UniqueByKey(c, urls)) == AddAll([], Keys(c, urls))
    decreases |urls|
  {
    if urls != [] {
      var init := urls[..|urls| - 1];
      var u := urls[|urls| - 1];
      UniqueKeysAreSetSpread(c, init);
      assert urls == init + [u];
      KeysSnoc(c, init, u);
      KeysSnoc(c, UniqueByKey(c, init), u);
      AddAllSnoc([], Keys(c, init), c.serialize(u));
    }
  }

  lemma {:induction false} UniqueByKeyMembers(c: UrlCodec, urls: seq<Url>)
    ensures forall n :: n in UniqueByKey(c, urls) ==> n in urls
    decreases |urls|
  {
    if urls != [] {
      UniqueByKeyMembers(c, urls[..|urls| - 1]);
      assert forall n :: n in urls[..|urls| - 1] ==> n in urls;
    }
  }

  /** Each first-level URL is the serialisation of an admissible seed. */
  lemma {:induction false} SeedLevelSource(e: Engine, urls: seq<Url>, x: string) returns (i: nat)
    requires x in SeedLevel(e, urls)
    ensures i < |urls| && Admits(e, urls[i]) && e.c.serialize(urls[i]) == x
    decreases |urls|
  {
    if Admits(e, urls[0]) && x == e.c.serialize(urls[0]) {
      i := 0;
    } else {
      var j := SeedLevelSource(e, urls[1..], x);
      i := j + 1;
    }
  }

  /** Every admissible seed is on the first level. */
  lemma {:induction false} SeedLevelComplete(e: Engine, urls: seq<Url>, i: nat)
    requires i < |urls| && Admits(e, urls[i])
    ensures e.c.serialize(urls[i]) in SeedLevel(e, urls)
    decreases |urls|
  {
    if i > 0 {
      SeedLevelComplete(e, urls[1..], i - 1);
    }
  }

  lemma {:induction false} SeedLevelDistinct(e: Engine, urls: seq<Url>)
    requires Distinct(Keys(e.c, urls))
    ensures Distinct(SeedLevel(e, urls))
    decreases |urls|
  {
    if urls != [] {
      var rest := SeedLevel(e, urls[1..]);
      assert Keys(e.c, urls[1..]) == Keys(e.c, urls)[1..];
      SeedLevelDistinct(e, urls[1..]);
      if Admits(e, urls[0]) {
        forall k | 0 <= k < |rest|
          ensures rest[k] != e.c.serialize(urls[0])
        {
          var j := SeedLevelSource(e, urls[1..], rest[k]);
          assert Keys(e.c, urls)[j + 1] == rest[k];
        }
        assert forall k :: 0 < k < |rest| + 1 ==> ([e.c.serialize(urls[0])] + rest)[k] == rest[k - 1];
      }
    }
  }

  /** The first level is the deduplicated, normalised seeds (or the start URL
      when there are none) that pass the origin and predicate test. */
  lemma FirstLevelIsAdmittedSeeds(c: UrlCodec, u: Url, options: CrawlOptions,
                                  visit: (string, nat) -> Result<VisitResult, string>, x: string)
    requires InitialQueue(c, Normalize(u, true), options.seedUrls).Ok?
    ensures var e := EngineFor(c, u, options, visit);
            var queue := InitialQueue(c, Normalize(u, true), options.seedUrls).value;
            var unique := UniqueByKey(c, queue);
            && Keys(c, unique) == AddAll([], Keys(c, queue))
            && (x in SeedLevel(e, unique) <==> exists i :: 0 <= i < |unique| && Admits(e, unique[i]) && c.serialize(unique[i]) == x)
            && Distinct(SeedLevel(e, unique))
  {
    var e := EngineFor(c, u, options, visit);
    var queue := InitialQueue(c, Normalize(u, true), options.seedUrls).value;
    var unique := UniqueByKey(c, queue);
    UniqueKeysAreSetSpread(c, queue);
    SeedLevelDistinct(e, unique);
    if x in SeedLevel(e, unique) {
      var i := SeedLevelSource(e, unique, x);
    }
    if exists i :: 0 <= i < |unique| && Admits(e, unique[i]) && c.serialize(unique[i]) == x {
      var i :| 0 <= i < |unique| && Admits(e, unique[i]) && c.serialize(unique[i]) == x;
      SeedLevelComplete(e, unique, i);
    }
  }

  /** Every URL of the initial queue is normalised with the query stripped. */
  lemma InitialQueueNormalized(c: UrlCodec, start: Url, seedUrls: Option<seq<string>>)
    requires start.query.None? && start.fragment.None?
    requires InitialQueue(c, start, seedUrls).Ok?
    ensures forall n :: n in InitialQueue(c, start, seedUrls).value ==> n.query.None? && n.fragment.None?
  {
  }

  /** The crawl starts in a state that satisfies the invariants. */
  lemma CrawlStart(c: UrlCodec, u: Url, options: CrawlOptions, visit: (string, nat) -> Result<VisitResult, string>)
    requires InitialQueue(c, Normalize(u, true), options.seedUrls).Ok?
    ensures var e := EngineFor(c, u, options, visit);
            var unique := UniqueByKey(c, InitialQueue(c, Normalize(u, true), options.seedUrls).value);
            var visited := set x | x in Keys(c, unique);
            PagesInv(e, visited, []) && LevelInv(e, visited, [], SeedLevel(e, unique), 0)
  {
    var e := EngineFor(c, u, options, visit);
    var queue := InitialQueue(c, Normalize(u, true), options.seedUrls).value;
    var unique := UniqueByKey(c, queue);
    var visited := set x | x in Keys(c, unique);
    var level := SeedLevel(e, unique);
    UniqueKeysAreSetSpread(c, queue);
    SeedLevelDistinct(e, unique);
    InitialQueueNormalized(c, Normalize(u, true), options.seedUrls);
    UniqueByKeyMembers(c, queue);
    forall x | x in level
      ensures x in visited && IsAdmissibleKey(e, x)
    {
      var i := SeedLevelSource(e, unique, x);
      assert unique[i] in queue;
      assert Keys(c, unique)[i] == x;
    }
  }

  /** What `crawlSite` guarantees of the pages it returns:
      - no URL appears twice, and every page URL is in the visited set;
      - every page records its own visit: success exactly when the visit
        returned, `linksDiscovered` the number of raw hrefs it returned
        (0 when it threw), the error message when it threw;
      - every depth is at most `options.depth`, and depths never decrease;
      - every page URL is a normalised URL without query or fragment, of the
        start URL's origin, that satisfies `shouldVisitUrl` when given;
      - every page below depth 0 was linked from an earlier successful page
        one level up;
      - the visited set holds every deduplicated seed. */
  lemma CrawlSiteGuarantees(c: UrlCodec, startUrl: string, options: CrawlOptions,
                            visit: (string, nat) -> Result<VisitResult, string>)
    requires CrawlSiteSpec(c, startUrl, options, visit).Ok?
    ensures var e := EngineFor(c, c.parse(startUrl).value, options, visit);
            var r := CrawlSiteSpec(c, startUrl, options, visit).value;
            && UrlsInv(r.visitedUrls, r.pages)
            && RecordsInv(e, r.pages)
            && DepthsInv(e, r.pages)
            && AdmissibleInv(e, r.pages)
            && ParentsInv(e, r.pages)
            && forall x :: x in Keys(c, UniqueByKey(c, InitialQueue(c, Normalize(c.parse(startUrl).value, true), options.seedUrls).value)) ==> x in r.visitedUrls
  {
    var u := c.parse(startUrl).value;
    var e := EngineFor(c, u, options, visit);
    var unique := UniqueByKey(c, InitialQueue(c, Normalize(u, true), options.seedUrls).value);
    var visited := set x | x in Keys(c, unique);
    CrawlStart(c, u, options, visit);
    CrawlKeepsInv(e, SeedLevel(e, unique), visited, [], 0);
    CrawlExtends(e, SeedLevel(e, unique), visited, [], 0);
  }

  /** A crawl that starts with no pages records the first level's pages
      first, in order, and only those at the starting depth. */
  lemma FirstLevelFirst(e: Engine, level: seq<string>, visited: set<string>, depth: nat)
    requires depth <= e.maxDepth
    ensures var pages := Crawl(e, level, visited, [], depth).pages;
            && |level| <= |pages|
            && forall i :: 0 <= i < |pages| ==> (pages[i].depth == depth <==> i < |level|) && (i < |level| ==> pages[i] == PageOf(e, level[i], depth))
  {
    if level != [] {
      var f := AdmitLevel(e, Frontier(visited, []), level, depth);
      var first := [] + LevelPages(e, level, depth);
      CrawlExtends(e, f.next, f.visited, first, depth + 1);
      var pages := Crawl(e, f.next, f.visited, first, depth + 1).pages;
      assert pages == Crawl(e, level, visited, [], depth).pages;
      forall i | 0 <= i < |level|
        ensures pages[i] == PageOf(e, level[i], depth)
      {
        assert pages[i] == pages[..|first|][i];
      }
    }
  }

  /** The depth-0 pages are exactly the first level, in order, and come first. */
  lemma FirstPagesAreFirstLevel(c: UrlCodec, startUrl: string, options: CrawlOptions,
                                visit: (string, nat) -> Result<VisitResult, string>)
    requires CrawlSiteSpec(c, startUrl, options, visit).Ok? && options.depth >= 0
    ensures var u := c.parse(startUrl).value;
            var e := EngineFor(c, u, options, visit);
            var level := SeedLevel(e, UniqueByKey(c, InitialQueue(c, Normalize(u, true), options.seedUrls).value));
            var pages := CrawlSiteSpec(c, startUrl, options, visit).value.pages;
            && |level| <= |pages|
            && forall i :: 0 <= i < |pages| ==> (pages[i].depth == 0 <==> i < |level|) && (i < |level| ==> pages[i].url == level[i])
  {
    var u := c.parse(startUrl).value;
    var e := EngineFor(c, u, options, visit);
    var unique := UniqueByKey(c, InitialQueue(c, Normalize(u, true), options.seedUrls).value);
    var visited := set x | x in Keys(c, unique);
    assert CrawlSiteSpec(c, startUrl, options, visit).value == Crawl(e, SeedLevel(e, unique), visited, [], 0);
    FirstLevelFirst(e, SeedLevel(e, unique), visited, 0);
  }

  // ---------------------------------------------------------------------------
  // Completeness: every admissible link below the depth bound is crawled

  /** `x` is the serialisation of a URL the admission test accepts. */
  ghost predicate IsLinkKey(e: Engine, x: string) {
    exists n: Url :: e.c.serialize(n) == x && Admits(e, n)
  }

  predicate IsPageUrl(pages: seq<CrawlPage>, x: string) {
    exists i :: 0 <= i < |pages| && pages[i].url == x
  }

  /** A visited key the admission test accepts is a page already, or on the
      level about to be visited. */
  ghost predicate VisitedInv(e: Engine, visited: set<string>, pages: seq<CrawlPage>, level: seq<string>) {
    forall x :: x in visited && IsLinkKey(e, x) ==> IsPageUrl(pages, x) || x in level
  }

  /** Every admissible link of a recorded page is visited, and is a page
      already or (for a page of the level just visited) on the next level. */
  ghost predicate LinksInv(e: Engine, visited: set<string>, pages: seq<CrawlPage>, level: seq<string>, depth: nat) {
    forall i, h, x :: 0 <= i < |pages| && h in Hrefs(e, pages[i].url, pages[i].depth) && AdmittedLink(e, pages[i].url, h, x) ==>
      x in visited && (IsPageUrl(pages, x) || (x in level && pages[i].depth + 1 == depth))
  }

  lemma {:induction false} AdmitLinksGrows(e: Engine, url: string, f: Frontier, hrefs: seq<string>)
    ensures f.visited <= AdmitLinks(e, url, f, hrefs).visited
    decreases |hrefs|
  {
    if hrefs != [] {
      AdmitLinksGrows(e, url, f, hrefs[..|hrefs| - 1]);
    }
  }

  /** Every admissible link of a page ends up in the visited set. */
  lemma {:induction false} AdmitLinksCovers(e: Engine, url: string, f: Frontier, hrefs: seq<string>, h: string, x: string)
    requires h in hrefs && AdmittedLink(e, url, h, x)
    ensures x in AdmitLinks(e, url, f, hrefs).visited
    decreases |hrefs|
  {
    var init := hrefs[..|hrefs| - 1];
    var g := AdmitLinks(e, url, f, init);
    if h in init {
      AdmitLinksCovers(e, url, f, init, h, x);
    } else {
      assert h == hrefs[|hrefs| - 1];
    }
  }

  lemma {:induction false} AdmitLevelGrows(e: Engine, f: Frontier, level: seq<string>, depth: nat)
    ensures f.visited <= AdmitLevel(e, f, level, depth).visited
    decreases |level|
  {
    if level != [] {
      var url := level[|level| - 1];
      AdmitLevelGrows(e, f, level[..|level| - 1], depth);
      AdmitLinksGrows(e, url, AdmitLevel(e, f, level[..|level| - 1], depth), Hrefs(e, url, depth));
    }
  }

  /** Every admissible link of every page of a level ends up in the visited set. */
  lemma {:induction false} AdmitLevelCovers(e: Engine, f: Frontier, level: seq<string>, depth: nat, i: nat, h: string, x: string)
    requires i < |level| && h in Hrefs(e, level[i], depth) && AdmittedLink(e, level[i], h, x)
    ensures x in AdmitLevel(e, f, level, depth).visited
    decreases |level|
  {
    var init := level[..|level| - 1];
    var url := level[|level| - 1];
    var g := AdmitLevel(e, f, init, depth);
    if i < |init| {
      AdmitLevelCovers(e, f, init, depth, i, h, x);
      AdmitLinksGrows(e, url, g, Hrefs(e, url, depth));
    } else {
      AdmitLinksCovers(e, url, g, Hrefs(e, url, depth), h, x);
    }
  }

  lemma AdmittedIsLinkKey(e: Engine, url: string, h: string, x: string)
    requires AdmittedLink(e, url, h, x)
    ensures IsLinkKey(e, x)
  {
    var n := LinkTarget(e, url, h).value;
    assert e.c.serialize(n) == x && Admits(e, n);
  }

  /** A page URL, or a URL of the level, is a page once the level is visited. */
  lemma PageAfterLevel(e: Engine, pages: seq<CrawlPage>, level: seq<string>, depth: nat, x: string)
    requires IsPageUrl(pages, x) || x in level
    ensures IsPageUrl(pages + LevelPages(e, level, depth), x)
  {
    var after := pages + LevelPages(e, level, depth);
    if IsPageUrl(pages, x) {
      var i :| 0 <= i < |pages| && pages[i].url == x;
      assert after[i] == pages[i];
    } else {
      var j :| 0 <= j < |level| && level[j] == x;
      assert after[|pages| + j].url == x;
    }
  }

  /** The visited-key invariant survives a level. */
  lemma StepVisited(e: Engine, visited: set<string>, pages: seq<CrawlPage>, level: seq<string>, depth: nat, f: Frontier)
    requires VisitedInv(e, visited, pages, level) && FrontierFrom(visited, f)
    ensures VisitedInv(e, f.visited, pages + LevelPages(e, level, depth), f.next)
  {
    forall x | x in f.visited && IsLinkKey(e, x)
      ensures IsPageUrl(pages + LevelPages(e, level, depth), x) || x in f.next
    {
      if x !in f.next {
        PageAfterLevel(e, pages, level, depth, x);
      }
    }
  }

  /** The link invariant survives a level. */
  lemma StepLinks(e: Engine, visited: set<string>, pages: seq<CrawlPage>, level: seq<string>, depth: nat)
    requires VisitedInv(e, visited, pages, level) && LinksInv(e, visited, pages, level, depth)
    ensures var f := AdmitLevel(e, Frontier(visited, []), level, depth);
            LinksInv(e, f.visited, pages + LevelPages(e, level, depth), f.next, depth + 1)
  {
    var f := AdmitLevel(e, Frontier(visited, []), level, depth);
    var after := pages + LevelPages(e, level, depth);
    assert FrontierFrom(visited, Frontier(visited, [])) by {
      assert (set y: string | y in []) == {};
    }
    AdmitLevelKeeps(e, visited, Frontier(visited, []), level, depth);
    forall i, h, x | 0 <= i < |after| && h in Hrefs(e, after[i].url, after[i].depth) && AdmittedLink(e, after[i].url, h, x)
      ensures x in f.visited && (IsPageUrl(after, x) || (x in f.next && after[i].depth + 1 == depth + 1))
    {
      if i < |pages| {
        assert after[i] == pages[i];
        PageAfterLevel(e, pages, level, depth, x);
      } else {
        var j := i - |pages|;
        assert after[i].url == level[j] && after[i].depth == depth;
        AdmitLevelCovers(e, Frontier(visited, []), level, depth, j, h, x);
        if x !in f.next {
          AdmittedIsLinkKey(e, after[i].url, h, x);
          PageAfterLevel(e, pages, level, depth, x);
        }
      }
    }
  }

  /** Every admissible link of a page above the depth bound is visited and
      recorded as a page. */
  ghost predicate LinksCrawled(e: Engine, r: CrawlResult) {
    forall i, h, x :: 0 <= i < |r.pages| && r.pages[i].depth < e.maxDepth &&
                      h in Hrefs(e, r.pages[i].url, r.pages[i].depth) && AdmittedLink(e, r.pages[i].url, h, x) ==>
                        x in r.visitedUrls && IsPageUrl(r.pages, x)
  }

  /** The crawl ends with every admissible link of a page above the depth
      bound visited and recorded as a page. */
  lemma {:induction false} CrawlCompletes(e: Engine, level: seq<string>, visited: set<string>, pages: seq<CrawlPage>, depth: nat)
    requires VisitedInv(e, visited, pages, level) && LinksInv(e, visited, pages, level, depth)
    ensures LinksCrawled(e, Crawl(e, level, visited, pages, depth))
    decreases e.maxDepth - depth
  {
    if depth <= e.maxDepth && level != [] {
      var f := AdmitLevel(e, Frontier(visited, []), level, depth);
      var after := pages + LevelPages(e, level, depth);
      assert FrontierFrom(visited, Frontier(visited, [])) by {
        assert (set y: string | y in []) == {};
      }
      AdmitLevelKeeps(e, visited, Frontier(visited, []), level, depth);
      StepVisited(e, visited, pages, level, depth, f);
      StepLinks(e, visited, pages, level, depth);
      CrawlCompletes(e, f.next, f.visited, after, depth + 1);
      assert Crawl(e, level, visited, pages, depth) == Crawl(e, f.next, f.visited, after, depth + 1);
    }
  }

  /** The crawl starts with the first level holding every admissible seed. */
  lemma CompleteStart(c: UrlCodec, u: Url, options: CrawlOptions, visit: (string, nat) -> Result<VisitResult, string>)
    requires SerializeInjective(c)
    requires InitialQueue(c, Normalize(u, true), options.seedUrls).Ok?
    ensures var e := EngineFor(c, u, options, visit);
            var unique := UniqueByKey(c, InitialQueue(c, Normalize(u, true), options.seedUrls).value);
            var visited := set x | x in Keys(c, unique);
            VisitedInv(e, visited, [], SeedLevel(e, unique)) && LinksInv(e, visited, [], SeedLevel(e, unique), 0)
  {
    var e := EngineFor(c, u, options, visit);
    var unique := UniqueByKey(c, InitialQueue(c, Normalize(u, true), options.seedUrls).value);
    var visited := set x | x in Keys(c, unique);
    forall x | x in visited && IsLinkKey(e, x)
      ensures x in SeedLevel(e, unique)
    {
      var k :| 0 <= k < |Keys(c, unique)| && Keys(c, unique)[k] == x;
      var n :| e.c.serialize(n) == x && Admits(e, n);
      assert c.serialize(unique[k]) == c.serialize(n);
      SeedLevelComplete(e, unique, k);
    }
  }

  /** The other half of the breadth-first search: every admissible link (one
      that resolves, keeps the start URL's origin and passes `shouldVisitUrl`)
      of a page above `options.depth` is visited and recorded as a page. The
      model's assumption that a serialised URL parses back to its record is
      what makes the admission test of a seed and of a link with the same
      string agree. */
  lemma CrawlSiteComplete(c: UrlCodec, startUrl: string, options: CrawlOptions,
                          visit: (string, nat) -> Result<VisitResult, string>)
    requires SerializeInjective(c)
    requires CrawlSiteSpec(c, startUrl, options, visit).Ok?
    ensures LinksCrawled(EngineFor(c, c.parse(startUrl).value, options, visit), CrawlSiteSpec(c, startUrl, options, visit).value)
  {
    var u := c.parse(startUrl).value;
    var e := EngineFor(c, u, options, visit);
    var unique := UniqueByKey(c, InitialQueue(c, Normalize(u, true), options.seedUrls).value);
    var visited := set x | x in Keys(c, unique);
    CompleteStart(c, u, options, visit);
    CrawlCompletes(e, SeedLevel(e, unique), visited, [], 0);
    assert CrawlSiteSpec(c, startUrl, options, visit).value == Crawl(e, SeedLevel(e, unique), visited, [], 0);
  }

  // ---------------------------------------------------------------------------
  // crawlWebsite's summary

  /** A page with its data copied into `title`, `filePath` and `markdown` when
      it succeeded and has data. */
  function WithData(p: CrawlPage): (q: CrawlPage)
    ensures q.(title := p.title, filePath := p.filePath, markdown := p.markdown) == p
    ensures p.success && p.data.Some? ==>
              q.title == Some(p.data.value.title) && q.filePath == Some(p.data.value.filePath) && q.markdown == Some(p.data.value.markdown)
    ensures !(p.success && p.data.Some?) ==> q == p
  {
    if !p.success || p.data.None? then p
    else p.(title := Some(p.data.value.title), filePath := Some(p.data.value.filePath), markdown := Some(p.data.value.markdown))
  }

  /** The number of successful pages. */
  function CountSucceeded(pages: seq<CrawlPage>): (n: nat)
    ensures n <= |pages|
  {
    if pages == [] then 0 else (if pages[0].success then 1 else 0) + CountSucceeded(pages[1..])
  }

  /** The number of failed pages. */
  function CountFailed(pages: seq<CrawlPage>): (n: nat)
    ensures n <= |pages|
  {
    if pages == [] then 0 else (if pages[0].success then 0 else 1) + CountFailed(pages[1..])
  }

  /** Every page either succeeded or failed. */
  lemma {:induction false} CountsPartition(pages: seq<CrawlPage>)
    ensures CountSucceeded(pages) + CountFailed(pages) == |pages|
  {
    if pages != [] {
      CountsPartition(pages[1..]);
    }
  }

  /** The counts depend only on the success flags. */
  lemma {:induction false} CountsBySuccess(a: seq<CrawlPage>, b: seq<CrawlPage>)
    requires |a| == |b| && forall i :: 0 <= i < |a| ==> a[i].success == b[i].success
    ensures CountSucceeded(a) == CountSucceeded(b) && CountFailed(a) == CountFailed(b)
  {
    if a != [] {
      CountsBySuccess(a[1..], b[1..]);
    }
  }

  /** `CrawlSummary`. */
  datatype CrawlSummary = CrawlSummary(startUrl: string, pagesVisited: nat, pagesSucceeded: nat, pagesFailed: nat, pages: seq<CrawlPage>)

  /** The summary `crawlWebsite` builds from the crawled pages. */
  function Summarize(startUrl: string, crawled: seq<CrawlPage>): (s: CrawlSummary)
    ensures s.startUrl == startUrl && |s.pages| == |crawled|
    ensures forall i :: 0 <= i < |crawled| ==> s.pages[i] == WithData(crawled[i])
    ensures s.pagesVisited == |crawled|
    ensures s.pagesSucceeded == CountSucceeded(crawled) && s.pagesFailed == CountFailed(crawled)
    ensures s.pagesSucceeded + s.pagesFailed == s.pagesVisited
  {
    var pages := seq(|crawled|, i requires 0 <= i < |crawled| => WithData(crawled[i]));
    CountsBySuccess(pages, crawled);
    CountsPartition(pages);
    CrawlSummary(startUrl, |pages|, CountSucceeded(pages), |pages| - CountSucceeded(pages), pages)
  }

  /** `crawlWebsite(startUrl, options)`, with the visitor it builds from the
      fetcher, the extractors and the writer taken as the parameter `visit`:
      it crawls from the normalised start URL and summarises the pages. */
  method CrawlWebsite(c: UrlCodec, startUrl: string, options: CrawlOptions,
                      visit: (string, nat) -> Result<VisitResult, string>)
    returns (r: Result<CrawlSummary, UrlError>)
    ensures c.parse(startUrl).None? ==> r == Err(InvalidUrl(startUrl))
    ensures c.parse(startUrl).Some? ==>
              var normalizedStart := c.serialize(Normalize(c.parse(startUrl).value, true));
              match CrawlSiteSpec(c, normalizedStart, options, visit)
              case Err(err) => r == Err(err)
              case Ok(crawl) => r == Ok(Summarize(normalizedStart, crawl.pages))
  {
    var parsed := c.parse(startUrl);
    if parsed.None? {
      return Err(InvalidUrl(startUrl));
    }
    var normalizedStart := c.serialize(Normalize(parsed.value, true));
    var crawl := CrawlSite(c, normalizedStart, options, visit);
    if crawl.Err? {
      return Err(crawl.error);
    }
    return Ok(Summarize(normalizedStart, crawl.value.pages));
  }
}
