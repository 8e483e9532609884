# cyte core, modelled in Dafny

cyte is a command-line crawler. It fetches a documentation site, keeps each page's readable content as markdown and lists the links it finds. This project models the logic at its core:

- **URL canonicalisation** (`url.dfy`). Coercing user input into a URL, normalising a URL, resolving an href against a page, deciding whether two URLs share an origin, and deriving a page's slug and output path.
- **robots.txt** (`robots.dfy`). Which rules apply to the crawler's user agent, and whether a path is allowed under them.
- **Sitemap discovery** (`sitemap.dfy`). Sitemap endpoints are read from `/robots.txt`. `<loc>` entries are extracted and their entities decoded. A worklist then visits at most 20 sitemap documents.
- **Link extraction and filtering** (`links.dfy`). Links are deduplicated, titled and classified as internal or external.
- **The crawl engine** (`crawler.dfy`). This is a breadth-first crawl, level by level, bounded by depth and by the start URL's origin. It also covers the summary `crawlWebsite` builds from the crawl.
- **The extraction arbiter** (`extractor.dfy`). It picks the Readability markdown or the fallback markdown using the content signal length and a table-of-contents heuristic, then assembles the title and markdown.
- **The `.gitignore` update** (`gitignore.dfy`).

Supporting modules:

- `wrappers.dfy` defines `Option` and `Result`.
- `text.dfy` holds the JavaScript string operations the code uses (`trim`, `toLowerCase` restricted to ASCII letters, `split`, `startsWith`, `includes`, and `length` in UTF-16 code units). Whitespace is the JavaScript WhiteSpace and LineTerminator set.
- `orderedsets.dfy` models a JavaScript `Set` as a duplicate-free sequence in insertion order.

Outside the model, and taken as parameters:

- The WHATWG URL parser, resolver and serialiser are an uninterpreted `UrlCodec`. Parsing and resolving may fail.
- Network responses are inputs. Sitemap fetches are a map from URL to body, and the robots.txt response is a value.
- The page visitor is a function from a URL and a depth to a result or an error message.
- Readability's output and the HTML-to-markdown conversion are strings given to the arbiter.

Modelling assumptions:

- When the code serialises a URL and immediately parses the string again, the model keeps the parsed record. Examples are `normalizeUrl(resolved)`, `new URL(normalized).origin` and `slugFromUrl(normalized)`. In other words, the model assumes parsing a serialised URL gives back the same URL.
- The steps that store something in place are imperative methods proved against specification functions:
  - the crawl loop and its link loop
  - the sitemap worklist and the `<loc>` regex loop
  - the robots rule loop and the winner loop
  - the link extraction loop

## Model

| member | source | states |
|---|---|---|
| OrderedSets.AddAll | src/core/crawler.ts:37 | Adding a sequence to an insertion-ordered set keeps the old elements as a prefix and keeps it duplicate-free. Its members are exactly the old members plus the added ones. |
| OrderedSets.AddAllPresent | src/core/crawler.ts:37 | Adding only elements that are already present changes nothing. |
| Text.Trim | src/core/url.ts:8 | The trimmed string neither starts nor ends with whitespace. It is empty exactly when the input is blank, and it is no longer than the input. |
| Text.TrimLowerCommute | src/core/url.ts:24 | `trim().toLowerCase()` equals `toLowerCase().trim()`, because ASCII lower-casing maps whitespace to whitespace. |
| Text.SplitLines | src/core/robots.ts:51 | `split(/\r?\n/)` gives at least one piece, and no piece contains a line feed. |
| Text.SplitJoin | src/core/url.ts:94-99 | Splitting the join of separator-free parts on the separator gives the parts back. |
| Url.CoerceCandidate | src/core/url.ts:13-14 | The candidate always has a scheme prefix. It is the trimmed input unchanged exactly when that input already has one. Otherwise it is the input behind `https://`. |
| Url.CoerceUrl | src/core/url.ts:7-21 | Blank input gives the empty-URL error. Input whose candidate does not parse gives `Invalid URL` carrying the raw input. Otherwise the result is the parsed candidate. |
| Url.BareHostGetsHttps | src/core/url.ts:13-14 | An input without a colon is prefixed with `https://`. The general if-and-only-if on `scheme://` is Url.CoerceCandidate. |
| Url.SkippableIgnoresCase | src/core/url.ts:23-26 | Whether an href is skipped does not depend on its letter case. |
| Url.SkippedProtocolPrefix | src/core/url.ts:23-26 | An href that starts with a visible character and whose lower-cased form starts with `mailto:`, `javascript:` or `tel:` is skipped. |
| Url.Normalize | src/core/url.ts:28-49 | Normalising keeps the scheme and host and drops the fragment. It drops the query when asked. It removes the port exactly when that port is the scheme's default, so a default port always comes out empty. On a hierarchical path it removes one trailing slash only from a path longer than one character. An opaque path (`mailto:`, `data:`) keeps its slash, and loses its trailing spaces when the URL is left with neither query nor fragment. |
| Url.NormalizeIdempotentIff | src/core/url.ts:44-46 | Normalising twice equals normalising once if and only if the path is opaque or does not end in a repeated slash. |
| Url.NormalizeCanonicalIff | src/core/url.ts:28-49 | A normalised URL is canonical (no fragment, no default port, no removable slash on a hierarchical path, no trailing space on an opaque path) if and only if a hierarchical input path does not end in `//`, or an opaque path keeps its query or does not end in a space. |
| Url.NormalizeKeepsCanonical | src/core/url.ts:28-49 | A canonical URL is unchanged by normalisation, apart from the query when stripping. |
| Url.NormalizeThenStrip | src/core/url.ts:33-35 | Normalising with the query kept and then stripping it equals normalising with it stripped, for an opaque path or one that does not end in `//`. |
| Url.StripTrailingSpacesSpec | src/core/url.ts:32-35 | Clearing the fragment and query of an opaque-path URL removes exactly the trailing run of spaces: the result is a prefix with no space at its end, and only spaces were removed. |
| Url.StripTrailingSpacesIdempotent | src/core/url.ts:32-35 | Removing trailing spaces a second time changes nothing. |
| Url.ResolveAndNormalizeUrl | src/core/url.ts:51-66 | The result is null exactly when the href is skippable or does not resolve against the base. Otherwise it is the normalised resolution, which has no fragment and, when asked, no query. |
| Url.InternalIsEquivalence | src/core/url.ts:68-70 | "Internal to" is reflexive, symmetric and transitive. |
| Url.InternalMeansSameSchemeHostPort | src/core/url.ts:68-70 | A URL is internal to an http or https URL exactly when scheme, host and port agree. For a `blob:` URL, the URL its path parses to must agree instead. |
| Url.BlobSharesInnerOrigin | src/core/url.ts:68-70 | A `blob:` URL whose path is an http or https URL has that URL's origin, so it is internal to that URL's site. |
| Url.SegmentSlug | src/core/url.ts:79 | The slug of a segment has no `-` or `_`. Its characters come from the segment or are spaces, and it is no longer than the segment. |
| Url.SeparatorRunBecomesSpace | src/core/url.ts:79 | A maximal run of `-` and `_` between two other characters becomes exactly one space; the text on each side is collapsed on its own. |
| Url.CollapseConcat | src/core/url.ts:79 | Collapsing text that ends in a non-separator and then more text is collapsing each part separately. |
| Url.CollapseWithoutSeparators | src/core/url.ts:79 | Text without `-` or `_` is left unchanged by the run replacement. |
| Url.PlainSegmentIsOwnSlug | src/core/url.ts:79 | A segment without `-`, `_` or surrounding whitespace is its own slug. |
| Url.SlugFromUrl | src/core/url.ts:72-81 | The slug is the host when the path has no segment, or when the last segment's slug is empty. Otherwise it is that slug, with no separator and no slash. |
| Url.SanitizePathSegment | src/core/url.ts:83-85 | Sanitising keeps the length, turns every unsafe character into `-` and keeps every safe character in place. |
| Url.SanitizedHasNoSlash | src/core/url.ts:83-85 | A sanitised segment contains no `/`. |
| Url.DomainFolderForUrl | src/core/url.ts:87-89 | The folder is the host, with every unsafe character replaced. |
| Url.StripExtension | src/core/url.ts:97 | The result is a prefix of the segment. It differs from the segment exactly when the segment ends in a dot-extension, which is then what is removed. |
| Url.StripExtensionOfFile | src/core/url.ts:97 | `name.ext` loses exactly `.ext` when `ext` has no dot or slash. |
| Url.OutputComponents | src/core/url.ts:91-99 | The path components are the domain folder, one per non-empty path segment, then `index.md`. None contains a slash. |
| Url.OutputPathForUrl | src/core/url.ts:91-100 | The output path starts with the domain folder and a slash, and ends with `/index.md`. |
| Url.OutputPathCollisionIff | src/core/url.ts:91-100 | Two URLs share an output path exactly when their components are equal. |
| Url.OutputPathIgnoresSchemePortQuery | src/core/url.ts:91-100 | URLs with the same host and path share an output path, whatever their scheme, port, query or fragment. |
| Url.TrailingSlashSharesOutputPath | src/core/url.ts:94-96 | `/a` and `/a/` share an output path. |
| Url.ExtensionSharesOutputPath | src/core/url.ts:97 | `/a` and `/a.html` share an output path. |
| Robots.RobotsLines | src/core/robots.ts:51 | Each line of the file holds no line break and has no whitespace at either end. |
| Robots.AgentGroup | src/core/robots.ts:65-73 | `*` opens the wildcard group. An agent naming the lower-cased crawler agent opens the specific group. Anything else opens none. |
| Robots.Classify | src/core/robots.ts:59-84 | Empty and `#` lines and lines with any other key are skipped. A `user-agent` line always switches to the group its lower-cased value names. An `allow` or `disallow` line with a non-empty value is always a rule, and only such a line is: the value is the path and `allow` decides the flag. |
| Robots.ClassifyLines | src/core/robots.ts:58-63 | The loop classifies every line, in order. |
| Robots.GroupRules | src/core/robots.ts:53-91 | The loop over the classified lines returns exactly the rules of the specific group and of the wildcard group, reading each `User-agent` line as a group switch. |
| Robots.ParseRobotsRules | src/core/robots.ts:50-94 | The loop over the lines returns the rules of the selected group. |
| Robots.SkippedLineIrrelevant | src/core/robots.ts:59-63 | Removing a skipped line does not change the rules. |
| Robots.RulesBeforeAnyAgentIgnored | src/core/robots.ts:56-79 | Rule lines before any `User-agent` line contribute nothing. |
| Robots.NoAgentNoRules | src/core/robots.ts:56-93 | A file with no `User-agent` line has no rules. |
| Robots.CollectConcat | src/core/robots.ts:56-91 | Collecting over two stretches of lines reads the second with the group the first leaves open. |
| Robots.CollectIsRulesOf | src/core/robots.ts:56-91 | The rules collected for a group are exactly the rules of the rule lines at which that group is open, in file order. |
| Robots.LastAgentOpens | src/core/robots.ts:65-75 | The group open at a line is the one named by the last `User-agent` line before it. |
| Robots.RuleOfOpenGroupCollected | src/core/robots.ts:77-90 | A rule line after a `User-agent` line that opened a group, with no other `User-agent` line between, is collected for that group in its place. |
| Robots.SelectedRulesComplete | src/core/robots.ts:77-93 | A rule line of the crawler's own group is always returned. A rule line of the wildcard group is returned when the crawler's group has no rules. |
| Robots.SelectedRulesComeFromLines | src/core/robots.ts:81-93 | Every selected rule has a non-empty path and comes from a rule line of the file. |
| Robots.StripTrailingStars | src/core/robots.ts:114 | The pattern loses exactly its trailing run of `*`. |
| Robots.StarsMatchEverything | src/core/robots.ts:112-116 | A pattern made only of `*` matches every path. |
| Robots.PlainPatternIsPrefix | src/core/robots.ts:112-116 | A pattern without a trailing `*` matches exactly the paths it prefixes, and `/` matches everything. |
| Robots.BestRule | src/core/robots.ts:98-106 | The winner is a rule of the list, and it matches the path. |
| Robots.BestRuleIsWinner | src/core/robots.ts:98-106 | There is no winner exactly when no rule matches. Otherwise the winner is the longest matching rule, the earliest among equals. |
| Robots.WinnerUnique | src/core/robots.ts:98-106 | At most one index is the winner. |
| Robots.IsPathAllowed | src/core/robots.ts:96-110 | The loop's verdict equals the specification: allowed when there are no rules or no match, otherwise the winner's flag. |
| Robots.AllowedUnlessDisallowWins | src/core/robots.ts:108-109 | A path is refused exactly when a `Disallow` rule wins. |
| Robots.UniformRulesDecide | src/core/robots.ts:96-110 | When every matching rule allows, the path is allowed. When some rule matches and all matching rules disallow, it is refused. |
| Robots.LoadRobotsMatcher | src/core/robots.ts:13-48 | A transport failure propagates. An error status or an HTML body gives the allow-all matcher. An ok response that is not HTML gives exactly the matcher of the rules selected from the body for the agent. |
| Robots.FallbackAllowsEverything | src/core/robots.ts:26-39 | An error status, an HTML body or an empty rule selection gives a matcher that allows every URL. |
| Sitemap.DecodeWithoutAmpersand | src/core/sitemap.ts:102-109 | Text without `&` is unchanged by entity decoding. |
| Sitemap.DecodeShrinks | src/core/sitemap.ts:102-109 | Decoding never lengthens the text. |
| Sitemap.DecodeAmpersandFirst | src/core/sitemap.ts:103-105 | Because `&amp;` is decoded first, `&amp;lt;` becomes `<`. |
| Sitemap.LooksLikeSitemapIgnoresCase | src/core/sitemap.ts:111-113 | The sitemap-name test ignores letter case. |
| Sitemap.NextOpenTagFirst | src/core/sitemap.ts:93 | The open-tag search finds the first `<loc>`, case-insensitively, or reports that there is none. |
| Sitemap.NextCloseTagFirst | src/core/sitemap.ts:93 | The close-tag search finds the first `</loc>` at or after a position, or reports that there is none. |
| Sitemap.LocBodiesAreElements | src/core/sitemap.ts:93-95 | Each body the lazy regex matches lies between an open tag and the first close tag after it. |
| Sitemap.LocValues | src/core/sitemap.ts:96-97 | Empty values are dropped: every kept value is non-empty and there are no more values than bodies. |
| Sitemap.LocValuesConcat | src/core/sitemap.ts:96-97 | The values of two runs of bodies are the values of each, in order. |
| Sitemap.LocValuesKeep | src/core/sitemap.ts:96-97 | Every body with a non-empty value keeps its value, in its place between the values of the bodies before and after it. |
| Sitemap.LocValuesSource | src/core/sitemap.ts:96-97 | Every kept value is the trimmed, entity-decoded text of one matched body. |
| Sitemap.RegexExec | src/core/sitemap.ts:95 | One `exec` of the global regex returns the next body and moves `lastIndex` strictly forward, or reports that no match is left. |
| Sitemap.ExecLocRegex | src/core/sitemap.ts:93-98 | The `exec` loop, which pushes each non-empty decoded value, returns the non-empty values of all matched bodies in document order. |
| Sitemap.ExtractLocEntries | src/core/sitemap.ts:91-100 | The method equals the `<loc>` entry specification. |
| Sitemap.NoLocNoEntries | src/core/sitemap.ts:91-100 | A document without `<loc>` has no entries. |
| Sitemap.LocRoundTrip | src/core/sitemap.ts:91-100 | `<loc>u</loc>` yields exactly `[u]` for a trimmed, entity-free, tag-free `u`. |
| Sitemap.SitemapLocation | src/core/sitemap.ts:60-61 | A `Sitemap:` line yields a non-empty location without whitespace. |
| Sitemap.SitemapLineRoundTrip | src/core/sitemap.ts:60-61 | `Sitemap: loc` yields `loc`. |
| Sitemap.SitemapReferences | src/core/sitemap.ts:59-69 | Every reference comes from one robots.txt line that resolves against the origin. |
| Sitemap.Endpoints | src/core/sitemap.ts:51-71 | The endpoints start with `/sitemap.xml` and are distinct. They are exactly that URL plus the resolved `Sitemap:` references, which are only read from a non-empty robots.txt. |
| Sitemap.SitemapEndpoints | src/core/sitemap.ts:50-72 | An error occurs exactly when `/sitemap.xml` or `/robots.txt` fails to resolve against the origin. Otherwise the endpoints start with `/sitemap.xml` and are distinct. |
| Sitemap.DiscoverSitemapEndpoints | src/core/sitemap.ts:50-72 | The method equals the endpoint specification. |
| Sitemap.PageUrl | src/core/sitemap.ts:36-43 | A loc is kept exactly when it parses and its normalised form has the seed's origin, a `blob:` loc taking the origin of the web URL it wraps. It is kept normalised, without query or fragment. |
| Sitemap.SitemapLinksMembers | src/core/sitemap.ts:28-34 | A loc is queued as a sitemap exactly when the document is an index or the loc looks like a sitemap. |
| Sitemap.PageUrlsMembers | src/core/sitemap.ts:28-44 | A page URL comes from a loc of a non-index document that does not look like a sitemap and passes the origin filter. |
| Sitemap.IndexListsNoPages | src/core/sitemap.ts:27-34 | A sitemap index contributes no page URLs. |
| Sitemap.ScanLocs | src/core/sitemap.ts:28-44 | The loop over locs appends the unvisited sitemap links to the queue and adds the page URLs to the discovered set. |
| Sitemap.AllPagesMembers | src/core/sitemap.ts:14-47 | The discovered URLs are exactly the pages of the fetched documents. |
| Sitemap.AllPagesAreOfOrigin | src/core/sitemap.ts:37-40 | Every discovered URL is a normalised URL of the seed's origin. |
| Sitemap.DiscoveryStart | src/core/sitemap.ts:8-10 | A seed that does not parse is an error. Otherwise discovery starts from the seed's origin and distinct, non-empty endpoints. |
| Sitemap.ExploreSitemaps | src/core/sitemap.ts:12-47 | At most 20 distinct, non-empty sitemap URLs are fetched, each named by an endpoint or an earlier document. The result is the distinct pages of those documents. Unless the bound was reached, every endpoint and every child sitemap was fetched. |
| Sitemap.DiscoverUrlsFromSitemap | src/core/sitemap.ts:7-48 | Seed or endpoint errors propagate with nothing fetched. Otherwise the worklist guarantee holds. |
| Sitemap.ClosedWhenEmpty | src/core/sitemap.ts:16 | When the queue runs out, every named sitemap has been fetched. |
| Sitemap.ExploredPages | src/core/sitemap.ts:14-47 | The discovered URLs are distinct, all of the seed's origin, and exactly the pages of the fetched documents. |
| Links.ChooseLinkTitle | src/core/links.ts:12-17 | The title is the anchor text, then the aria label, then the title attribute, then the URL's slug. It is empty only when all three are empty and the URL has no host. |
| Links.AnchorTarget | src/core/links.ts:25-30 | An anchor has a target only when its href is non-empty, not skippable and resolvable. The target has no query and no fragment. |
| Links.LinkOf | src/core/links.ts:36-46 | The link's URL is the serialised target. Its type is internal exactly when the target shares the page's origin, a `blob:` target taking the origin of the web URL it wraps. |
| Links.ExtractLinksFromHtml | src/core/links.ts:19-50 | The loop with its `seen` set returns the link specification. |
| Links.LinksDistinctUrls | src/core/links.ts:31-34 | No two extracted links share a URL. |
| Links.LinksOfPrefix | src/core/links.ts:24-47 | The links of an anchor prefix are a prefix of the links, so document order is kept. |
| Links.LinksComplete | src/core/links.ts:24-47 | Every anchor with a target contributes its URL. |
| Links.LinkSource | src/core/links.ts:31-46 | Each link is built from the first anchor with that URL. |
| Links.LinkTypeIsOrigin | src/core/links.ts:40 | Each link's URL is a normalised URL, and its type is internal exactly when that URL shares the page's origin. |
| Links.FilterMembers | src/core/links.ts:52-66 | A link is kept exactly when it is in the input and passes the type and match tests. |
| Links.FilterIsSubsequence | src/core/links.ts:55 | Filtering keeps a subsequence of the input, so the order is kept. |
| Links.FilterIdempotent | src/core/links.ts:52-66 | Filtering twice equals filtering once. |
| Links.FilterByType | src/core/links.ts:56-57 | `internal` keeps only internal links and `external` only external ones. Both together keep nothing. |
| Links.FilterByMatch | src/core/links.ts:53-63 | With a non-empty match, a link of the right type is kept exactly when `title url`, lower-cased, contains the lower-cased match. Without one, the link is kept. |
| Crawler.PageOf | src/core/crawler.ts:57-85 | A returning visit records success, the number of discovered hrefs and its data. A throwing visit records failure, zero links and the message. |
| Crawler.NormalizeAll | src/core/crawler.ts:35 | All seeds parse exactly when the result is the list of their normalised forms. Otherwise the result is the error of the first seed that does not parse. |
| Crawler.InitialQueueNormalized | src/core/crawler.ts:33-36 | Every URL of the initial queue has no query and no fragment. |
| Crawler.UniqueKeysAreSetSpread | src/core/crawler.ts:37 | The deduplicated queue's strings are `[...new Set(initialQueue)]`. |
| Crawler.SeedLevelComplete | src/core/crawler.ts:41-45 | Every admissible seed is in the first level. |
| Crawler.SeedLevelDistinct | src/core/crawler.ts:41-45 | The first level has no duplicates. |
| Crawler.FirstLevelIsAdmittedSeeds | src/core/crawler.ts:37-45 | The first level is exactly the distinct seeds of the start origin that pass `shouldVisitUrl`, without duplicates. |
| Crawler.AdmitDiscoveredLinks | src/core/crawler.ts:67-76 | The href loop admits resolved, same-origin (for a `blob:` URL, the origin of the web URL it wraps), predicate-passing, unvisited URLs, marking each visited once. |
| Crawler.VisitLevel | src/core/crawler.ts:51-88 | Visiting a level appends one page per URL, in order, and collects the next level from their hrefs. |
| Crawler.CrawlSite | src/core/crawler.ts:26-94 | The depth loop returns the breadth-first crawl specification. |
| Crawler.AdmitLevelSource | src/core/crawler.ts:67-76 | Every URL of the next level was linked from a page of the current level. |
| Crawler.CrawlStep | src/core/crawler.ts:47-91 | One level keeps the page invariants and sets up the next level's invariants. |
| Crawler.CrawlKeepsInv | src/core/crawler.ts:47-91 | The whole crawl keeps the page invariants. |
| Crawler.CrawlExtends | src/core/crawler.ts:47-91 | The crawl only appends pages at the current depth or deeper, and only grows the visited set. |
| Crawler.CrawlSiteGuarantees | src/core/crawler.ts:26-94 | In a finished crawl, page URLs are distinct and visited, and each page records its own visit. Depths are within the bound and never decrease. Every URL is same-origin and normalised. Every deeper page was linked from an earlier successful page one level up. Every seed's string is visited. |
| Crawler.FirstPagesAreFirstLevel | src/core/crawler.ts:41-65 | The depth-0 pages are exactly the first level, first and in order. |
| Crawler.CrawlSiteComplete | src/core/crawler.ts:47-91 | Every link of a recorded page above `options.depth` that resolves, keeps the start URL's origin and passes `shouldVisitUrl` is in the visited set and is itself a recorded page: the breadth-first search misses nothing within the bound. |
| Crawler.CrawlCompletes | src/core/crawler.ts:47-91 | From any level on which every admissible visited URL is a page or still to be visited, and every admissible link of a page is visited, the crawl ends with every admissible link of a page above the bound recorded as a page. |
| Crawler.WithData | src/core/crawler.ts:132-141 | A successful page with data gets that title, file path and markdown. Any other page is unchanged. |
| Crawler.CountsPartition | src/core/crawler.ts:143-144 | Succeeded plus failed equals pages visited. |
| Crawler.Summarize | src/core/crawler.ts:132-152 | The summary keeps the start URL, one page per crawled page in order, and the counts. |
| Crawler.CrawlWebsite | src/core/crawler.ts:105-153 | The summary is of a crawl from the normalised start URL. An unparseable start URL or seed is an error. |
| Extractor.MaskMarkup | src/core/extractor.ts:151 | The masked text keeps its length, holds no markup character and keeps every other character in place. |
| Extractor.SignalText | src/core/extractor.ts:145-156 | The measured text is no longer than the markdown. |
| Extractor.SignalTextForm | src/core/extractor.ts:145-156 | The measured text has no markup character and only single plain spaces between words, with none at either end. Its `length`, in UTF-16 code units, is at least its number of characters and at most twice the markdown's length, and equals its number of characters when it has no character outside the Basic Multilingual Plane. |
| Text.Utf16LengthBounds | src/core/extractor.ts:155 | A string's `length` counts one or two code units per character, and equals the number of characters exactly when no character lies outside the Basic Multilingual Plane. |
| Extractor.AnchorLinkCountBound | src/core/extractor.ts:140 | The text holds at most a third of its length in `](#` matches. |
| Extractor.ShortTextIsNotContents | src/core/extractor.ts:139-143 | A markdown shorter than twelve characters is never taken for a table of contents. |
| Extractor.HeadingCountZeroIff | src/core/extractor.ts:141 | The heading count is zero exactly when no position starts a `/^#{1,6}\s+/m` match, and never exceeds the number of positions. |
| Extractor.NoHashLineNoHeading | src/core/extractor.ts:141 | A text in which no line starts with `#` has no heading. |
| Extractor.TwoHeadingsAreNotContents | src/core/extractor.ts:139-143 | A markdown with two headings is never taken for a table of contents, however many `](#` links it has. |
| Extractor.PreferFallback | src/core/extractor.ts:124-136 | The fallback is refused below 400. It is taken when Readability measured 0. Otherwise it is taken for a section jump, a tiny Readability result, or a table of contents outgrown by half. |
| Extractor.PreferFallbackMonotone | src/core/extractor.ts:120-137 | A longer fallback is preferred whenever a shorter one was. |
| Extractor.PreferFallbackAntitone | src/core/extractor.ts:120-137 | A shorter Readability result, or one now taken for a table of contents, keeps the fallback preferred. |
| Extractor.FallbackCases | src/core/extractor.ts:120-137 | The decision follows the thresholds on the measured markdowns. |
| Extractor.ChooseTitle | src/core/extractor.ts:20 | The title is the trimmed Readability title, then the document title, then the page URL. It is never empty for a non-empty page URL. |
| Extractor.ExtractContent | src/core/extractor.ts:11-41 | The markdown is `# title` followed by the chosen candidate's text without trailing whitespace. A blank candidate gives the no-content notice. |
| Gitignore.EnsureIgnored | src/core/gitignore.ts:5-27 | A missing file becomes `cyte/` plus a newline. A file with an entry line is unchanged. Otherwise the content is kept and the entry is appended, after a newline only when the content is non-empty and does not end in one. |
| Gitignore.UpdatedHasEntry | src/core/gitignore.ts:16-26 | After the update, the file has an entry line. |
| Gitignore.EnsureIgnoredIdempotent | src/core/gitignore.ts:5-27 | Updating twice leaves what updating once left. |

## Left out

- Network I/O is not modelled: `fetch`, timeouts, user-agent headers, `fetchText`, `fetchPage` and reading response bodies. Responses are inputs: a map of fetched bodies, a robots response value, a visitor result.
- The WHATWG URL parser, resolver and serialiser are not modelled. They are an uninterpreted codec. A serialised URL that is parsed again is assumed to be the same record.
- HTML is not modelled: cheerio, jsdom, Readability, the fallback element choice, noise removal, `absolutizeMediaUrls` and the Turndown conversion (`src/core/markdown.ts` is not part of this model). Anchors reach link extraction as records of href, text, aria label and title.
- Concurrency is not modelled: `p-limit`, `wait` and the delay. Within a level the model visits URLs in list order. The source appends pages and next-level URLs in completion order, so with concurrency above one their order within a level may differ.
- `crawlWebsite`'s visitor, which fetches, extracts and writes a page, is a parameter. So are the writer and the file system.
- The command line, the terminal UI and `.gitignore` file access are not modelled. Gitignore.EnsureIgnored takes the file's content (None when the file is missing) and returns the new content.
- Extractor.PreferFallback: the comparisons with 1.8 and 1.5 are exact rational comparisons. They agree with the source's floating-point products only while lengths stay below about 2^50.
- Sitemap.DiscoveryStart: a seed with an opaque origin serialises its origin as "null". When the parser rejects "null" as a URL, as the WHATWG parser does, the discovery throws; the model reports this as `InvalidUrl("/sitemap.xml")` and keeps no message text.
- Links.FilterLinks / Links.FilterByMatch: the `--match` filter lower-cases only the ASCII letters, whereas `toLowerCase` also folds other letters, so a match of "über" keeps a link titled "Über" in the source but not in the model.
- Robots.SelectedRules / Robots.AgentGroup: user-agent names are lower-cased the same ASCII-only way, so an agent name with a non-ASCII capital letter (in robots.txt or in the caller's agent) may match in the source and not in the model. The directive keys (`user-agent`, `allow`, `disallow`) and the skipped schemes of Url.IsSkippableHref are unaffected: the only non-ASCII characters whose lower case holds an ASCII letter are the Kelvin sign (to `k`, which none of them contains) and the capital I with a dot (to `i` and a combining dot, which breaks the match).
- Robots.LoadRobotsMatcher: a transport failure is returned as an error, as the source lets it propagate. Swallowing it is done by the caller in `src/commands/extract.ts`, which is not part of this model.

Behaviour of the code a reader may not expect:

- Normalising a URL is not idempotent when its path ends in `//`, because only one slash is removed (Url.NormalizeIdempotentIff).
- `/a`, `/a/` and `/a.html` share an output path (Url.TrailingSlashSharesOutputPath, Url.ExtensionSharesOutputPath).
- The content signal counts the single spaces left between words, not only non-whitespace characters (Extractor.SignalTextForm).
- Among robots rules of equal length, the first one wins. `Allow` is not preferred (Robots.BestRuleIsWinner).
