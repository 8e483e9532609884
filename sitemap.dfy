/** Sitemap discovery (src/core/sitemap.ts): the endpoints named by
    `/robots.txt`, `<loc>` extraction and entity decoding, and the bounded
    worklist over sitemap documents (Sitemaps XML format 0.9).

    Fetching is a map from URL string to response text: a URL the map does
    not hold is one whose `fetchText` gives `null` (error status, network
    failure, timeout). An empty body counts like `null`, as the source's
    `!xml` test does. */
module Sitemap {
  import opened Wrappers
  import opened Text
  import opened Url
  import opened OrderedSets

  /** `MAX_SITEMAPS`: the most sitemap documents one discovery fetches. */
  const MaxSitemaps := 20

  /** `fetchText(url)` against the fetched responses; "" stands for `null`. */
  function FetchText(fetch: map<string, string>, url: string): string {
    if url in fetch then fetch[url] else ""
  }

  // ---------------------------------------------------------------------------
  // decodeXmlEntities, looksLikeSitemap

  /** `decodeXmlEntities(value)`: the five predefined XML entities, replaced one
      after another in this fixed order, `&amp;` first. */
  function DecodeXmlEntities(value: string): string {
    var amp := ReplaceAll(value, "&amp;", "&");
    var lt := ReplaceAll(amp, "&lt;", "<");
    var gt := ReplaceAll(lt, "&gt;", ">");
    var quot := ReplaceAll(gt, "&quot;", "\"");
    ReplaceAll(quot, "&#39;", "'")
  }

  /** Text without an ampersand has no entity to decode and comes back unchanged. */
  lemma DecodeWithoutAmpersand(value: string)
    requires '&' !in value
    ensures DecodeXmlEntities(value) == value
  {
    ReplaceAllAbsent(value, "&amp;", "&");
    ReplaceAllAbsent(value, "&lt;", "<");
    ReplaceAllAbsent(value, "&gt;", ">");
    ReplaceAllAbsent(value, "&quot;", "\"");
    ReplaceAllAbsent(value, "&#39;", "'");
  }

  /** Decoding never lengthens the text. */
  lemma DecodeShrinks(value: string)
    ensures |DecodeXmlEntities(value)| <= |value|
  {
    var amp := ReplaceAll(value, "&amp;", "&");
    var lt := ReplaceAll(amp, "&lt;", "<");
    var gt := ReplaceAll(lt, "&gt;", ">");
    var quot := ReplaceAll(gt, "&quot;", "\"");
    ReplaceAllShrinks(value, "&amp;", "&");
    ReplaceAllShrinks(amp, "&lt;", "<");
    ReplaceAllShrinks(lt, "&gt;", ">");
    ReplaceAllShrinks(gt, "&quot;", "\"");
    ReplaceAllShrinks(quot, "&#39;", "'");
  }

  /** Because `&amp;` is decoded first, an escaped entity is decoded twice:
      "&amp;lt;" (the escaping of the text "&lt;") becomes "<". */
  lemma DecodeAmpersandFirst()
    ensures DecodeXmlEntities("&amp;lt;") == "<"
  {
    assert ReplaceAll("&amp;lt;", "&amp;", "&") == "&lt;";
    assert ReplaceAll("&lt;", "&lt;", "<") == "<";
    ReplaceAllAbsent("<", "&gt;", ">");
    ReplaceAllAbsent("<", "&quot;", "\"");
    ReplaceAllAbsent("<", "&#39;", "'");
  }

  /** `looksLikeSitemap(url)`: ignoring case, the URL ends in ".xml", has ".xml"
      right before a '?', or mentions "sitemap". */
  predicate LooksLikeSitemap(url: string) {
    var s := Lower(url);
    EndsWith(s, ".xml") || Contains(s, ".xml?") || Contains(s, "sitemap")
  }

  /** The test ignores case. */
  lemma LooksLikeSitemapIgnoresCase(url: string)
    ensures LooksLikeSitemap(Lower(url)) == LooksLikeSitemap(url)
  {
    LowerIdempotent(url);
  }

  /** `/<sitemapindex/i.test(xml)`: the document is a sitemap index. */
  predicate IsSitemapIndex(xml: string) {
    Contains(Lower(xml), "<sitemapindex")
  }

  // ---------------------------------------------------------------------------
  // extractLocEntries

  /** "<loc>" starts at `i` of the lower-cased document `low`. */
  predicate OpenTagAt(low: string, i: int) {
    && 0 <= i && i + 5 <= |low|
    && low[i] == '<' && low[i + 1] == 'l' && low[i + 2] == 'o' && low[i + 3] == 'c' && low[i + 4] == '>'
  }

  /** "</loc>" starts at `i` of the lower-cased document `low`. */
  predicate CloseTagAt(low: string, i: int) {
    && 0 <= i && i + 6 <= |low|
    && low[i] == '<' && low[i + 1] == '/' && low[i + 2] == 'l' && low[i + 3] == 'o' && low[i + 4] == 'c'
    && low[i + 5] == '>'
  }

  /** The first "<loc>" at or after `from`. */
  function NextOpenTag(low: string, from: nat): (r: Option<nat>)
    ensures r.Some? ==> from <= r.value && r.value + 5 <= |low|
    decreases |low| - from
  {
    if from + 5 > |low| then None
    else if OpenTagAt(low, from) then Some(from)
    else NextOpenTag(low, from + 1)
  }

  /** The first "</loc>" at or after `from`. */
  function NextCloseTag(low: string, from: nat): (r: Option<nat>)
    ensures r.Some? ==> from <= r.value && r.value + 6 <= |low|
    decreases |low| - from
  {
    if from + 6 > |low| then None
    else if CloseTagAt(low, from) then Some(from)
    else NextCloseTag(low, from + 1)
  }

  /** `NextOpenTag` finds the first "<loc>" at or after `from`, if any. */
  lemma {:induction false} NextOpenTagFirst(low: string, from: nat)
    ensures var r := NextOpenTag(low, from);
            && (r.Some? ==> OpenTagAt(low, r.value) && forall j :: from <= j < r.value ==> !OpenTagAt(low, j))
            && (r.None? ==> forall j :: from <= j ==> !OpenTagAt(low, j))
    decreases |low| - from
  {
    if from + 5 <= |low| && !OpenTagAt(low, from) {
      NextOpenTagFirst(low, from + 1);
    }
  }

  /** `NextCloseTag` finds the first "</loc>" at or after `from`, if any. */
  lemma {:induction false} NextCloseTagFirst(low: string, from: nat)
    ensures var r := NextCloseTag(low, from);
            && (r.Some? ==> CloseTagAt(low, r.value) && forall j :: from <= j < r.value ==> !CloseTagAt(low, j))
            && (r.None? ==> forall j :: from <= j ==> !CloseTagAt(low, j))
    decreases |low| - from
  {
    if from + 6 <= |low| && !CloseTagAt(low, from) {
      NextCloseTagFirst(low, from + 1);
    }
  }

  /** The bodies the global regex `/<loc>([\s\S]*?)<\/loc>/gi` matches in `xml`
      (`low` is `xml` lower-cased, for the case-insensitive tags) when its
      `lastIndex` is `from`: the first "<loc>" at or after `from`, up to the
      first "</loc>" after it, then on from the end of that match. */
  function LocBodies(xml: string, low: string, from: nat): seq<string>
    requires |low| == |xml|
    decreases |xml| - from
  {
    var i := NextOpenTag(low, from);
    if i.None? then []
    else
      var j := NextCloseTag(low, i.value + 5);
      if j.None? then []
      else [xml[i.value + 5..j.value]] + LocBodies(xml, low, j.value + 6)
  }

  /** `body` is the content of a `<loc>` element opening at `i`: "<loc>" at `i`,
      the body, then "</loc>", and no "</loc>" starting inside the body (the
      regex's lazy `[\s\S]*?`). */
  predicate LocElementAt(xml: string, low: string, i: nat, body: string) {
    var end := i + 5 + |body|;
    && |low| == |xml|
    && OpenTagAt(low, i)
    && CloseTagAt(low, end)
    && xml[i + 5..end] == body
    && forall j :: i + 5 <= j < end ==> !CloseTagAt(low, j)
  }

  /** One match of the regex: the body between the first "<loc>" at or after
      `from` and the first "</loc>" after it, then the matches from its end. */
  lemma LocBodiesStep(xml: string, low: string, from: nat, i: nat, j: nat)
    requires |low| == |xml|
    requires NextOpenTag(low, from) == Some(i) && NextCloseTag(low, i + 5) == Some(j)
    ensures LocBodies(xml, low, from) == [xml[i + 5..j]] + LocBodies(xml, low, j + 6)
  {
  }

  /** No further match: no more bodies. */
  lemma LocBodiesEnd(xml: string, low: string, from: nat)
    requires |low| == |xml|
    requires NextOpenTag(low, from).None? || NextCloseTag(low, NextOpenTag(low, from).value + 5).None?
    ensures LocBodies(xml, low, from) == []
  {
  }

  /** `body` is the content of a `<loc>` element at or after `from`. */
  ghost predicate IsLocElement(xml: string, low: string, from: nat, body: string) {
    exists i :: from <= i && LocElementAt(xml, low, i, body)
  }

  /** Each of `bodies` is the content of a `<loc>` element at or after `from`. */
  ghost predicate AreElements(xml: string, low: string, from: nat, bodies: seq<string>) {
    forall k :: 0 <= k < |bodies| ==> IsLocElement(xml, low, from, bodies[k])
  }

  /** Every body the regex matches is the content of a `<loc>` element. */
  lemma {:induction false} LocBodiesAreElements(xml: string, low: string, from: nat)
    requires |low| == |xml|
    ensures AreElements(xml, low, from, LocBodies(xml, low, from))
    decreases |xml| - from
  {
    var open := NextOpenTag(low, from);
    if open.None? || NextCloseTag(low, open.value + 5).None? {
      LocBodiesEnd(xml, low, from);
    } else {
      var i := open.value;
      var j := NextCloseTag(low, i + 5).value;
      var bodies := LocBodies(xml, low, from);
      var later := LocBodies(xml, low, j + 6);
      LocBodiesStep(xml, low, from, i, j);
      NextOpenTagFirst(low, from);
      NextCloseTagFirst(low, i + 5);
      LocBodiesAreElements(xml, low, j + 6);
      forall k | 0 <= k < |bodies|
        ensures IsLocElement(xml, low, from, bodies[k])
      {
        if k == 0 {
          assert |bodies[0]| == j - (i + 5);
          assert LocElementAt(xml, low, i, bodies[0]);
        } else {
          assert bodies[k] == later[k - 1];
          assert IsLocElement(xml, low, j + 6, later[k - 1]);
        }
      }
    }
  }

  /** One `<loc>` value: the trimmed body with its entities decoded. */
  function LocValue(body: string): string {
    DecodeXmlEntities(Trim(body))
  }

  /** The non-empty values of the bodies, in order. */
  function LocValues(bodies: seq<string>): (values: seq<string>)
    ensures |values| <= |bodies|
    ensures forall k :: 0 <= k < |values| ==> values[k] != []
  {
    if bodies == [] then []
    else
      var value := LocValue(bodies[0]);
      (if value == [] then [] else [value]) + LocValues(bodies[1..])
  }

  /** Each value is the trimmed, decoded text of one of the bodies. */
  lemma {:induction false} LocValuesSource(bodies: seq<string>, v: string) returns (k: nat)
    requires v in LocValues(bodies)
    ensures k < |bodies| && v == LocValue(bodies[k])
    decreases |bodies|
  {
    if v == LocValue(bodies[0]) && LocValue(bodies[0]) != [] {
      k := 0;
    } else {
      k := LocValuesSource(bodies[1..], v);
      k := k + 1;
    }
  }

  /** What `extractLocEntries(xml)` returns: the decoded, trimmed, non-empty
      `<loc>` bodies in document order. */
  function LocEntries(xml: string): (values: seq<string>)
    ensures forall k :: 0 <= k < |values| ==> values[k] != []
  {
    LocValues(LocBodies(xml, Lower(xml), 0))
  }

  lemma {:induction false} LocValuesAppend(bodies: seq<string>, body: string)
    ensures var value := LocValue(body);
            LocValues(bodies + [body]) == LocValues(bodies) + (if value == [] then [] else [value])
    decreases |bodies|
  {
    if bodies != [] {
      assert (bodies + [body])[1..] == bodies[1..] + [body];
      LocValuesAppend(bodies[1..], body);
    } else {
      assert [] + [body] == [body];
    }
  }

  lemma {:induction false} LocValuesConcat(a: seq<string>, b: seq<string>)
    ensures LocValues(a + b) == LocValues(a) + LocValues(b)
    decreases |a|
  {
    if a == [] {
      assert a + b == b;
    } else {
      assert (a + b)[1..] == a[1..] + b;
      LocValuesConcat(a[1..], b);
    }
  }

  /** Every non-empty value is kept, after the values of the bodies before it
      and before those of the bodies after it. */
  lemma {:induction false} LocValuesKeep(bodies: seq<string>, k: nat)
    requires k < |bodies| && LocValue(bodies[k]) != []
    ensures LocValues(bodies) == LocValues(bodies[..k]) + [LocValue(bodies[k])] + LocValues(bodies[k + 1..])
  {
    var tail := [bodies[k]] + bodies[k + 1..];
    assert bodies == bodies[..k] + tail;
    LocValuesConcat(bodies[..k], tail);
    assert tail[0] == bodies[k] && tail[1..] == bodies[k + 1..];
    assert LocValues(tail) == [LocValue(bodies[k])] + LocValues(bodies[k + 1..]);
  }

  /** One `regex.exec(xml)` of the global `<loc>` regex from `lastIndex`: the
      body of the next match and the `lastIndex` after it, or `None` when no
      match is left. */
  method RegexExec(xml: string, low: string, lastIndex: nat) returns (m: Option<(string, nat)>)
    requires |low| == |xml| && lastIndex <= |xml|
    ensures m.None? ==> LocBodies(xml, low, lastIndex) == []
    ensures m.Some? ==> lastIndex < m.value.1 <= |xml|
    ensures m.Some? ==> LocBodies(xml, low, lastIndex) == [m.value.0] + LocBodies(xml, low, m.value.1)
  {
    var open := NextOpenTag(low, lastIndex);
    if open.None? {
      return None;
    }
    var close := NextCloseTag(low, open.value + 5);
    if close.None? {
      return None;
    }
    LocBodiesStep(xml, low, lastIndex, open.value, close.value);
    m := Some((xml[open.value + 5..close.value], close.value + 6));
  }

  /** Moving one match from the unread part to the collected part keeps the whole. */
  lemma MoveMatch<T>(done: seq<T>, x: T, rest: seq<T>, all: seq<T>)
    requires done + ([x] + rest) == all
    ensures (done + [x]) + rest == all
  {
    assert done + ([x] + rest) == (done + [x]) + rest;
  }

  /** `extractLocEntries(xml)`. */
  method ExtractLocEntries(xml: string) returns (values: seq<string>)
    ensures values == LocEntries(xml)
  {
    values := ExecLocRegex(xml, Lower(xml));
  }

  /** The regex-exec loop of `extractLocEntries`, matching the tags in `low`
      (the document lower-cased) and taking the bodies from `xml`. */
  method ExecLocRegex(xml: string, low: string) returns (values: seq<string>)
    requires |low| == |xml|
    ensures values == LocValues(LocBodies(xml, low, 0))
  {
    values := [];
    var lastIndex := 0;
    ghost var bodies: seq<string> := [];
    ghost var all := LocBodies(xml, low, 0);
    while true
      invariant lastIndex <= |xml|
      invariant bodies + LocBodies(xml, low, lastIndex) == all
      invariant values == LocValues(bodies)
      decreases |xml| - lastIndex
    {
      var m := RegexExec(xml, low, lastIndex);
      if m.None? {
        assert bodies + [] == bodies;
        return;
      }
      var (body, next) := m.value;
      var value := LocValue(body);
      LocValuesAppend(bodies, body);
      MoveMatch(bodies, body, LocBodies(xml, low, next), all);
      if value != [] {
        values := values + [value];
      }
      bodies := bodies + [body];
      lastIndex := next;
    }
  }

  /** A document without any "<loc>" has no entries, the empty one included. */
  lemma NoLocNoEntries(xml: string)
    requires forall i :: !OpenTagAt(Lower(xml), i)
    ensures LocEntries(xml) == []
  {
    NextOpenTagFirst(Lower(xml), 0);
    LocBodiesEnd(xml, Lower(xml), 0);
  }

  /** Writing a URL into a `<loc>` element and extracting it gives the URL back,
      when it has no markup, no entity and no surrounding white space. */
  lemma LocRoundTrip(u: string)
    requires u != [] && !IsWhitespace(u[0]) && !IsWhitespace(u[|u| - 1])
    requires '<' !in u && '&' !in u
    ensures LocEntries("<loc>" + u + "</loc>") == [u]
  {
    SingleLocBody(u);
    TrimOfUnpadded(u);
    DecodeWithoutAmpersand(u);
  }

  /** The one body of a single `<loc>` element without markup inside. */
  lemma SingleLocBody(u: string)
    requires '<' !in u
    ensures var xml := "<loc>" + u + "</loc>"; LocBodies(xml, Lower(xml), 0) == [u]
  {
    var xml := "<loc>" + u + "</loc>";
    var low := Lower(xml);
    var n := |u|;
    assert OpenTagAt(low, 0) by {
      assert xml[..5] == "<loc>";
    }
    assert CloseTagAt(low, 5 + n) by {
      assert xml[5 + n..] == "</loc>";
    }
    forall j | 5 <= j < 5 + n
      ensures !CloseTagAt(low, j)
    {
      assert xml[j] == u[j - 5];
    }
    SingleLocBodyOf(xml, low, u);
  }

  /** The same, stated over the tags found in `low`. */
  lemma SingleLocBodyOf(xml: string, low: string, u: string)
    requires |low| == |xml| && xml == "<loc>" + u + "</loc>"
    requires OpenTagAt(low, 0) && CloseTagAt(low, 5 + |u|)
    requires forall j :: 5 <= j < 5 + |u| ==> !CloseTagAt(low, j)
    ensures LocBodies(xml, low, 0) == [u]
  {
    var n := |u|;
    assert NextOpenTag(low, 0) == Some(0);
    CloseTagFound(low, 5, 5 + n);
    assert xml[5..5 + n] == u;
    LocBodiesStep(xml, low, 0, 0, 5 + n);
    assert NextOpenTag(low, 11 + n) == None;
    LocBodiesEnd(xml, low, 11 + n);
  }

  /** `NextCloseTag` stops at the first "</loc>" at or after `from`. */
  lemma {:induction false} CloseTagFound(low: string, from: nat, i: nat)
    requires from <= i && CloseTagAt(low, i)
    requires forall j :: from <= j < i ==> !CloseTagAt(low, j)
    ensures NextCloseTag(low, from) == Some(i)
    decreases i - from
  {
    if from < i {
      CloseTagFound(low, from + 1, i);
    }
  }

  // ---------------------------------------------------------------------------
  // discoverSitemapEndpoints

  /** The location a robots.txt line names with
      `/^\s*sitemap:\s*(\S+)\s*$/i`: the field name in any case, then one run
      of visible characters, white space around either allowed. */
  function SitemapLocation(line: string): (loc: Option<string>)
    ensures loc.Some? ==> loc.value != [] && forall i :: 0 <= i < |loc.value| ==> !IsWhitespace(loc.value[i])
  {
    var t := Trim(line);
    if |t| >= 8 && Lower(t[..8]) == "sitemap:" then
      var rest := Trim(t[8..]);
      if rest != [] && forall i :: 0 <= i < |rest| ==> !IsWhitespace(rest[i]) then Some(rest) else None
    else None
  }

  /** A `Sitemap:` line written with the field name in any case and one space
      gives back its location. */
  lemma SitemapLineRoundTrip(field: string, loc: string)
    requires |field| == 8 && Lower(field) == "sitemap:"
    requires loc != [] && forall i :: 0 <= i < |loc| ==> !IsWhitespace(loc[i])
    ensures SitemapLocation(field + " " + loc) == Some(loc)
  {
    SitemapLineSplit(field, loc);
    SitemapLineUnpadded(field, loc);
    TrimAfterSpace(loc);
  }

  /** The field name and the rest of such a line. */
  lemma SitemapLineSplit(field: string, loc: string)
    requires |field| == 8
    ensures (field + " " + loc)[..8] == field && (field + " " + loc)[8..] == " " + loc
  {
    var line := field + " " + loc;
    assert line[..8] == field;
    assert line[8..] == " " + loc;
  }

  /** A line that starts with the field name and ends in the location is its own trim. */
  lemma SitemapLineUnpadded(field: string, loc: string)
    requires |field| == 8 && Lower(field) == "sitemap:"
    requires loc != [] && !IsWhitespace(loc[|loc| - 1])
    ensures Trim(field + " " + loc) == field + " " + loc
  {
    var line := field + " " + loc;
    assert LowerChar(field[0]) == 's';
    assert line[0] == field[0] && line[|line| - 1] == loc[|loc| - 1];
    TrimOfUnpadded(line);
  }

  /** One leading space is trimmed away. */
  lemma TrimAfterSpace(loc: string)
    requires loc != [] && !IsWhitespace(loc[0]) && !IsWhitespace(loc[|loc| - 1])
    ensures Trim(" " + loc) == loc
  {
    assert (" " + loc)[1..] == loc;
    TrimOfUnpadded(loc);
  }

  /** The sitemap reference of one robots.txt line, resolved against the origin
      and serialised; None when the line names none or it does not resolve. */
  function SitemapReference(c: UrlCodec, base: Url, line: string): Option<string> {
    match SitemapLocation(line)
    case None => None
    case Some(loc) =>
      match c.resolve(loc, base)
      case None => None
      case Some(u) => Some(c.serialize(u))
  }

  /** The sitemap references of the lines, in order. */
  function SitemapReferences(c: UrlCodec, base: Url, lines: seq<string>): (refs: seq<string>)
    ensures forall x :: x in refs ==> exists k :: 0 <= k < |lines| && SitemapReference(c, base, lines[k]) == Some(x)
    decreases |lines|
  {
    if lines == [] then []
    else
      var init := lines[..|lines| - 1];
      var here := SitemapReference(c, base, lines[|lines| - 1]);
      var refs := SitemapReferences(c, base, init);
      assert forall k :: 0 <= k < |init| ==> init[k] == lines[k];
      refs + (if here.Some? then [here.value] else [])
  }

  /** What `discoverSitemapEndpoints` returns once `/sitemap.xml` has resolved to
      `first`: `first`, then every distinct sitemap reference of robots.txt. */
  function Endpoints(c: UrlCodec, base: Url, first: string, robotsText: string): (endpoints: seq<string>)
    ensures |endpoints| >= 1 && endpoints[0] == first
    ensures Distinct(endpoints)
    ensures forall x :: x in endpoints <==>
              x == first || (robotsText != "" && x in SitemapReferences(c, base, SplitLines(robotsText)))
  {
    if robotsText == "" then [first]
    else AddAll([first], SitemapReferences(c, base, SplitLines(robotsText)))
  }

  /** One more robots.txt line adds its reference, if any, to the endpoints. */
  lemma EndpointsStep(c: UrlCodec, base: Url, first: string, lines: seq<string>, i: nat)
    requires i < |lines|
    ensures var before := AddAll([first], SitemapReferences(c, base, lines[..i]));
            AddAll([first], SitemapReferences(c, base, lines[..i + 1])) ==
              match SitemapReference(c, base, lines[i])
              case None => before
              case Some(x) => Add(before, x)
  {
    assert lines[..i + 1][..i] == lines[..i];
    var refs := SitemapReferences(c, base, lines[..i]);
    var here := SitemapReference(c, base, lines[i]);
    if here.Some? {
      AddAllSnoc([first], refs, here.value);
    } else {
      assert refs + [] == refs;
    }
  }

  /** The outcome of `discoverSitemapEndpoints(origin)` with the origin parsed
      as `base`: it throws when "/sitemap.xml" or "/robots.txt" does not resolve;
      otherwise the endpoints start with "/sitemap.xml" and hold no duplicate. */
  function SitemapEndpoints(c: UrlCodec, base: Url, fetch: map<string, string>): (r: Result<seq<string>, UrlError>)
    ensures r.Err? <==> c.resolve("/sitemap.xml", base).None? || c.resolve("/robots.txt", base).None?
    ensures r.Err? ==> r.error.InvalidUrl?
    ensures r.Ok? ==> r.value != [] && r.value[0] == c.serialize(c.resolve("/sitemap.xml", base).value)
    ensures r.Ok? ==> Distinct(r.value)
  {
    match c.resolve("/sitemap.xml", base)
    case None => Err(InvalidUrl("/sitemap.xml"))
    case Some(sitemapXml) =>
      match c.resolve("/robots.txt", base)
      case None => Err(InvalidUrl("/robots.txt"))
      case Some(robotsUrl) =>
        Ok(Endpoints(c, base, c.serialize(sitemapXml), FetchText(fetch, c.serialize(robotsUrl))))
  }

  /** `discoverSitemapEndpoints(origin)`: the set of endpoints built line by line. */
  method DiscoverSitemapEndpoints(c: UrlCodec, base: Url, fetch: map<string, string>)
    returns (r: Result<seq<string>, UrlError>)
    ensures r == SitemapEndpoints(c, base, fetch)
  {
    var sitemapXml := c.resolve("/sitemap.xml", base);
    if sitemapXml.None? {
      return Err(InvalidUrl("/sitemap.xml"));
    }
    var first := c.serialize(sitemapXml.value);
    var discovered := [first];
    var robotsUrl := c.resolve("/robots.txt", base);
    if robotsUrl.None? {
      return Err(InvalidUrl("/robots.txt"));
    }
    var robotsText := FetchText(fetch, c.serialize(robotsUrl.value));
    if robotsText == "" {
      return Ok(discovered);
    }
    var lines := SplitLines(robotsText);
    for i := 0 to |lines|
      invariant discovered == AddAll([first], SitemapReferences(c, base, lines[..i]))
    {
      EndpointsStep(c, base, first, lines, i);
      var loc := SitemapLocation(lines[i]);
      if loc.Some? {
        var resolved := c.resolve(loc.value, base);
        if resolved.Some? {
          discovered := Add(discovered, c.serialize(resolved.value));
        }
      }
    }
    assert lines[..|lines|] == lines;
    return Ok(discovered);
  }

  // ---------------------------------------------------------------------------
  // discoverUrlsFromSitemap

  /** A page URL as the crawler keys it: the serialisation of a URL without query
      or fragment, on the given origin. */
  ghost predicate IsPageOf(c: UrlCodec, origin: Origin, x: string) {
    exists n: Url :: x == c.serialize(n) && n.query.None? && n.fragment.None? && OriginOf(c, n) == origin
  }

  /** The page a `<loc>` value names: `normalizeUrl(loc, {stripQuery: true})`
      when it parses and keeps the origin; None for an invalid entry or one on
      another origin. */
  function PageUrl(c: UrlCodec, origin: Origin, loc: string): (page: Option<string>)
    ensures page.Some? <==> c.parse(loc).Some? && OriginOf(c, Normalize(c.parse(loc).value, true)) == origin
    ensures page.Some? ==> IsPageOf(c, origin, page.value)
  {
    match c.parse(loc)
    case None => None
    case Some(u) =>
      var n := Normalize(u, true);
      if OriginOf(c, n) == origin then Some(c.serialize(n)) else None
  }

  /** The `<loc>` values a document queues as further sitemaps: all of them in a
      sitemap index, otherwise those that look like sitemaps. */
  function SitemapLinks(locs: seq<string>, isIndex: bool): (links: seq<string>)
    ensures |links| <= |locs|
    decreases |locs|
  {
    if locs == [] then []
    else
      var init := locs[..|locs| - 1];
      var loc := locs[|locs| - 1];
      assert locs == init + [loc];
      SitemapLinks(init, isIndex) + (if isIndex || LooksLikeSitemap(loc) then [loc] else [])
  }

  /** The pages a document lists: the other `<loc>` values that name a page of
      the origin, in order; none at all in a sitemap index. */
  function PageUrls(c: UrlCodec, origin: Origin, locs: seq<string>, isIndex: bool): (pages: seq<string>)
    ensures |pages| <= |locs|
    decreases |locs|
  {
    if locs == [] then []
    else
      var init := locs[..|locs| - 1];
      var loc := locs[|locs| - 1];
      assert locs == init + [loc];
      var page := if isIndex || LooksLikeSitemap(loc) then None else PageUrl(c, origin, loc);
      PageUrls(c, origin, init, isIndex) + (if page.Some? then [page.value] else [])
  }

  /** The entries of the document fetched from `url`; none when it cannot be read. */
  function DocumentLocs(fetch: map<string, string>, url: string): (locs: seq<string>) {
    var xml := FetchText(fetch, url);
    if xml == "" then [] else LocEntries(xml)
  }

  /** The further sitemaps the document at `url` names. */
  function ChildSitemaps(fetch: map<string, string>, url: string): (links: seq<string>)
  {
    SitemapLinks(DocumentLocs(fetch, url), IsSitemapIndex(FetchText(fetch, url)))
  }

  /** A sitemap link is never empty, since the `<loc>` entries are not. */
  lemma ChildSitemapsNonEmpty(fetch: map<string, string>, url: string)
    ensures "" !in ChildSitemaps(fetch, url)
  {
    var xml := FetchText(fetch, url);
    SitemapLinksMembers(DocumentLocs(fetch, url), IsSitemapIndex(xml));
    if xml != "" {
      var locs := LocEntries(xml);
      assert forall k :: 0 <= k < |locs| ==> locs[k] != [];
    }
  }

  /** The pages the document at `url` contributes. */
  function DocumentPages(c: UrlCodec, origin: Origin, fetch: map<string, string>, url: string): (pages: seq<string>)
  {
    PageUrls(c, origin, DocumentLocs(fetch, url), IsSitemapIndex(FetchText(fetch, url)))
  }

  /** A sitemap index contributes no page, whatever it lists. */
  lemma IndexHasNoPages(c: UrlCodec, origin: Origin, fetch: map<string, string>, url: string)
    requires IsSitemapIndex(FetchText(fetch, url))
    ensures DocumentPages(c, origin, fetch, url) == []
  {
    IndexListsNoPages(c, origin, DocumentLocs(fetch, url));
  }

  /** The pages of each fetched document, in fetch order. */
  function PagesPerDocument(c: UrlCodec, origin: Origin, fetch: map<string, string>, fetched: seq<string>): (lists: seq<seq<string>>)
    ensures |lists| == |fetched|
    ensures forall k :: 0 <= k < |fetched| ==> lists[k] == DocumentPages(c, origin, fetch, fetched[k])
  {
    seq(|fetched|, k requires 0 <= k < |fetched| => DocumentPages(c, origin, fetch, fetched[k]))
  }

  /** The distinct pages of the fetched documents, in the order found. */
  function AllPages(c: UrlCodec, origin: Origin, fetch: map<string, string>, fetched: seq<string>): (pages: seq<string>)
    ensures Distinct(pages)
  {
    Union(PagesPerDocument(c, origin, fetch, fetched))
  }

  /** A page found comes from one of the fetched documents. */
  lemma AllPagesSource(c: UrlCodec, origin: Origin, fetch: map<string, string>, fetched: seq<string>, x: string)
    returns (k: nat)
    requires x in AllPages(c, origin, fetch, fetched)
    ensures k < |fetched| && x in DocumentPages(c, origin, fetch, fetched[k])
  {
    k := UnionSource(PagesPerDocument(c, origin, fetch, fetched), x);
  }

  /** Every page of a fetched document is found. */
  lemma AllPagesComplete(c: UrlCodec, origin: Origin, fetch: map<string, string>, fetched: seq<string>, k: nat, x: string)
    requires k < |fetched| && x in DocumentPages(c, origin, fetch, fetched[k])
    ensures x in AllPages(c, origin, fetch, fetched)
  {
    UnionComplete(PagesPerDocument(c, origin, fetch, fetched), k, x);
  }

  /** The pages found are exactly the pages some fetched document lists. */
  lemma AllPagesMembers(c: UrlCodec, origin: Origin, fetch: map<string, string>, fetched: seq<string>)
    ensures forall x :: x in AllPages(c, origin, fetch, fetched) <==>
              exists k :: 0 <= k < |fetched| && x in DocumentPages(c, origin, fetch, fetched[k])
  {
    forall x | x in AllPages(c, origin, fetch, fetched)
      ensures exists k :: 0 <= k < |fetched| && x in DocumentPages(c, origin, fetch, fetched[k])
    {
      var k := AllPagesSource(c, origin, fetch, fetched, x);
    }
    forall x, k | 0 <= k < |fetched| && x in DocumentPages(c, origin, fetch, fetched[k])
      ensures x in AllPages(c, origin, fetch, fetched)
    {
      AllPagesComplete(c, origin, fetch, fetched, k, x);
    }
  }

  /** Every page found is a page of the origin, with no query and no fragment. */
  lemma AllPagesAreOfOrigin(c: UrlCodec, origin: Origin, fetch: map<string, string>, fetched: seq<string>)
    ensures forall x :: x in AllPages(c, origin, fetch, fetched) ==> IsPageOf(c, origin, x)
  {
    forall x | x in AllPages(c, origin, fetch, fetched)
      ensures IsPageOf(c, origin, x)
    {
      var k := AllPagesSource(c, origin, fetch, fetched, x);
      DocumentPagesAreOfOrigin(c, origin, fetch, fetched[k]);
    }
  }

  /** The values of `xs` not in `visited`, in order. */
  function Unvisited(xs: seq<string>, visited: seq<string>): (r: seq<string>)
    ensures |r| <= |xs|
    decreases |xs|
  {
    if xs == [] then []
    else
      var init := xs[..|xs| - 1];
      var x := xs[|xs| - 1];
      assert xs == init + [x];
      Unvisited(init, visited) + (if x in visited then [] else [x])
  }

  /** The sitemap links are the entries a sitemap index lists, or those that
      look like sitemaps. */
  lemma {:induction false} SitemapLinksMembers(locs: seq<string>, isIndex: bool)
    ensures forall x :: x in SitemapLinks(locs, isIndex) <==> x in locs && (isIndex || LooksLikeSitemap(x))
    decreases |locs|
  {
    if locs != [] {
      var init := locs[..|locs| - 1];
      assert locs == init + [locs[|locs| - 1]];
      SitemapLinksMembers(init, isIndex);
    }
  }

  /** The page URLs are the pages named by entries that are not sitemap links. */
  lemma {:induction false} PageUrlsMembers(c: UrlCodec, origin: Origin, locs: seq<string>, isIndex: bool)
    ensures forall x :: x in PageUrls(c, origin, locs, isIndex) <==>
              exists loc :: loc in locs && !isIndex && !LooksLikeSitemap(loc) && PageUrl(c, origin, loc) == Some(x)
    decreases |locs|
  {
    if locs != [] {
      var init := locs[..|locs| - 1];
      assert locs == init + [locs[|locs| - 1]];
      PageUrlsMembers(c, origin, init, isIndex);
    }
  }

  /** A sitemap index contributes no page, whatever it lists. */
  lemma {:induction false} IndexListsNoPages(c: UrlCodec, origin: Origin, locs: seq<string>)
    ensures PageUrls(c, origin, locs, true) == []
    decreases |locs|
  {
    if locs != [] {
      IndexListsNoPages(c, origin, locs[..|locs| - 1]);
    }
  }

  /** Filtering out the visited values keeps exactly the others. */
  lemma {:induction false} UnvisitedMembers(xs: seq<string>, visited: seq<string>)
    ensures forall x :: x in Unvisited(xs, visited) <==> x in xs && x !in visited
    decreases |xs|
  {
    if xs != [] {
      var init := xs[..|xs| - 1];
      assert xs == init + [xs[|xs| - 1]];
      UnvisitedMembers(init, visited);
    }
  }

  /** Every page a document contributes is a page of the origin. */
  lemma DocumentPagesAreOfOrigin(c: UrlCodec, origin: Origin, fetch: map<string, string>, url: string)
    ensures forall x :: x in DocumentPages(c, origin, fetch, url) ==> IsPageOf(c, origin, x)
  {
    PageUrlsMembers(c, origin, DocumentLocs(fetch, url), IsSitemapIndex(FetchText(fetch, url)));
  }

  /** The inner loop over one document's entries: unvisited sitemap links join
      the queue, page URLs join the discovered set. */
  method ScanLocs(c: UrlCodec, origin: Origin, locs: seq<string>, isIndex: bool, visited: seq<string>,
                  queue0: seq<string>, discovered0: seq<string>)
    returns (queue: seq<string>, discovered: seq<string>)
    ensures queue == queue0 + Unvisited(SitemapLinks(locs, isIndex), visited)
    ensures discovered == AddAll(discovered0, PageUrls(c, origin, locs, isIndex))
  {
    queue, discovered := queue0, discovered0;
    for i := 0 to |locs|
      invariant queue == queue0 + Unvisited(SitemapLinks(locs[..i], isIndex), visited)
      invariant discovered == AddAll(discovered0, PageUrls(c, origin, locs[..i], isIndex))
    {
      ScanLocsQueueStep(locs, i, isIndex, visited, queue0);
      ScanLocsPageStep(c, origin, locs, i, isIndex, discovered0);
      var loc := locs[i];
      if isIndex || LooksLikeSitemap(loc) {
        if loc !in visited {
          queue := queue + [loc];
        }
        continue;
      }
      var page := PageUrl(c, origin, loc);
      if page.Some? {
        discovered := Add(discovered, page.value);
      }
    }
    assert locs[..|locs|] == locs;
  }

  /** One more entry, as `ScanLocs` handles it: the queue. */
  lemma ScanLocsQueueStep(locs: seq<string>, i: nat, isIndex: bool, visited: seq<string>, queue0: seq<string>)
    requires i < |locs|
    ensures var loc := locs[i];
            var queue := queue0 + Unvisited(SitemapLinks(locs[..i], isIndex), visited);
            queue0 + Unvisited(SitemapLinks(locs[..i + 1], isIndex), visited) ==
              (if (isIndex || LooksLikeSitemap(loc)) && loc !in visited then queue + [loc] else queue)
  {
    var loc := locs[i];
    assert locs[..i + 1] == locs[..i] + [loc];
    var links := SitemapLinks(locs[..i], isIndex);
    var unvisited := Unvisited(links, visited);
    if isIndex || LooksLikeSitemap(loc) {
      assert (links + [loc])[..|links|] == links;
      if loc !in visited {
        assert queue0 + (unvisited + [loc]) == (queue0 + unvisited) + [loc];
      } else {
        assert unvisited + [] == unvisited;
      }
    } else {
      assert links + [] == links;
    }
  }

  /** One more entry, as `ScanLocs` handles it: the discovered pages. */
  lemma ScanLocsPageStep(c: UrlCodec, origin: Origin, locs: seq<string>, i: nat, isIndex: bool, discovered0: seq<string>)
    requires i < |locs|
    ensures var loc := locs[i];
            var discovered := AddAll(discovered0, PageUrls(c, origin, locs[..i], isIndex));
            AddAll(discovered0, PageUrls(c, origin, locs[..i + 1], isIndex)) ==
              (if !isIndex && !LooksLikeSitemap(loc) && PageUrl(c, origin, loc).Some?
               then Add(discovered, PageUrl(c, origin, loc).value) else discovered)
  {
    var loc := locs[i];
    assert locs[..i + 1] == locs[..i] + [loc];
    var pages := PageUrls(c, origin, locs[..i], isIndex);
    if !isIndex && !LooksLikeSitemap(loc) && PageUrl(c, origin, loc).Some? {
      AddAllSnoc(discovered0, pages, PageUrl(c, origin, loc).value);
    } else {
      assert pages + [] == pages;
    }
  }

  /** `x` is an endpoint or a sitemap link of one of the `fetched` documents. */
  ghost predicate NamedBy(fetch: map<string, string>, endpoints: seq<string>, fetched: seq<string>, x: string) {
    x in endpoints || exists j :: 0 <= j < |fetched| && x in ChildSitemaps(fetch, fetched[j])
  }

  /** Nothing known is lost: every endpoint and every link of a visited document
      is visited or still queued ("" excepted, which the loop skips). */
  ghost predicate Closed(fetch: map<string, string>, endpoints: seq<string>, visited: seq<string>, queue: seq<string>) {
    && (forall e :: e in endpoints ==> e == "" || e in visited || e in queue)
    && (forall k, x :: 0 <= k < |visited| && x in ChildSitemaps(fetch, visited[k]) ==> x in visited || x in queue)
  }

  /** Nothing is made up: each visited URL was named before it was visited, and
      each queued one by the documents visited so far. */
  ghost predicate Traced(fetch: map<string, string>, endpoints: seq<string>, visited: seq<string>, queue: seq<string>) {
    && (forall k :: 0 <= k < |visited| ==> NamedBy(fetch, endpoints, visited[..k], visited[k]))
    && (forall x :: x in queue ==> NamedBy(fetch, endpoints, visited, x))
  }

  /** The worklist invariant of `discoverUrlsFromSitemap`. */
  ghost predicate Worklist(fetch: map<string, string>, endpoints: seq<string>, visited: seq<string>, queue: seq<string>) {
    && |visited| <= MaxSitemaps && Distinct(visited) && "" !in visited
    && Closed(fetch, endpoints, visited, queue)
    && Traced(fetch, endpoints, visited, queue)
  }

  /** Dropping the head of the queue keeps the invariant when it is "" or already visited. */
  lemma SkipKeepsWorklist(fetch: map<string, string>, endpoints: seq<string>, visited: seq<string>, queue: seq<string>)
    requires queue != [] && (queue[0] == "" || queue[0] in visited)
    requires Worklist(fetch, endpoints, visited, queue)
    ensures Worklist(fetch, endpoints, visited, queue[1..])
  {
    var rest := queue[1..];
    forall x | x in queue
      ensures x == queue[0] || x in rest
    {
      var i :| 0 <= i < |queue| && queue[i] == x;
      if i > 0 {
        assert rest[i - 1] == x;
      }
    }
    assert Closed(fetch, endpoints, visited, rest) by {
      forall k, x | 0 <= k < |visited| && x in ChildSitemaps(fetch, visited[k])
        ensures x in visited || x in rest
      {
        ChildSitemapsNonEmpty(fetch, visited[k]);
      }
    }
    assert Traced(fetch, endpoints, visited, rest) by {
      forall x | x in rest
        ensures NamedBy(fetch, endpoints, visited, x)
      {
        assert x in queue;
      }
    }
  }

  /** Visiting the head of the queue, and queueing the links of its document that
      are not visited, keeps the invariant. */
  lemma VisitKeepsWorklist(fetch: map<string, string>, endpoints: seq<string>, visited: seq<string>, queue: seq<string>)
    requires queue != [] && queue[0] != "" && queue[0] !in visited && |visited| < MaxSitemaps
    requires Worklist(fetch, endpoints, visited, queue)
    ensures var x := queue[0];
            var visited' := visited + [x];
            Worklist(fetch, endpoints, visited', queue[1..] + Unvisited(ChildSitemaps(fetch, x), visited'))
  {
    var x := queue[0];
    var visited' := visited + [x];
    var links := ChildSitemaps(fetch, x);
    var queue' := queue[1..] + Unvisited(links, visited');
    UnvisitedMembers(links, visited');
    forall y | y in queue
      ensures y == x || y in queue'
    {
      var i :| 0 <= i < |queue| && queue[i] == y;
      if i > 0 {
        assert queue[1..][i - 1] == y;
      }
    }
    assert Closed(fetch, endpoints, visited', queue') by {
      forall k, y | 0 <= k < |visited'| && y in ChildSitemaps(fetch, visited'[k])
        ensures y in visited' || y in queue'
      {
        if k == |visited| {
          assert visited'[k] == x;
        } else {
          assert visited'[k] == visited[k];
        }
      }
    }
    assert Traced(fetch, endpoints, visited', queue') by {
      forall k | 0 <= k < |visited'|
        ensures NamedBy(fetch, endpoints, visited'[..k], visited'[k])
      {
        if k < |visited| {
          assert visited'[..k] == visited[..k];
          assert visited'[k] == visited[k];
        } else {
          assert visited'[..k] == visited;
        }
      }
      forall y | y in queue'
        ensures NamedBy(fetch, endpoints, visited', y)
      {
        if y in links {
          assert visited'[|visited|] == x;
        } else {
          assert y in queue;
          var j :| y in endpoints || (0 <= j < |visited| && y in ChildSitemaps(fetch, visited[j]));
          if y !in endpoints {
            assert visited'[j] == visited[j];
          }
        }
      }
    }
  }

  /** What `discoverUrlsFromSitemap` starts from: the origin of the seed URL and
      the sitemap endpoints of that origin. */
  datatype Discovery = Discovery(origin: Origin, endpoints: seq<string>)

  /** The seed URL is parsed (it throws when it does not parse), its origin
      serialised and parsed back as the base of `discoverSitemapEndpoints`. */
  function DiscoveryStart(c: UrlCodec, seedUrl: string, fetch: map<string, string>): (r: Result<Discovery, UrlError>)
    ensures c.parse(seedUrl).None? ==> r == Err(InvalidUrl(seedUrl))
    ensures r.Ok? ==> c.parse(seedUrl).Some? && r.value.origin == OriginOf(c, c.parse(seedUrl).value)
    ensures r.Ok? ==> r.value.endpoints != [] && Distinct(r.value.endpoints)
    ensures c.parse(seedUrl).Some? && OriginOf(c, c.parse(seedUrl).value).OpaqueOrigin? && c.parse("null").None? ==>
              r == Err(InvalidUrl("/sitemap.xml"))
  {
    match c.parse(seedUrl)
    case None => Err(InvalidUrl(seedUrl))
    case Some(seed) =>
      var origin := OriginOf(c, seed);
      match c.parse(SerializeOrigin(origin))
      case None => Err(InvalidUrl("/sitemap.xml"))
      case Some(base) =>
        match SitemapEndpoints(c, base, fetch)
        case Err(e) => Err(e)
        case Ok(endpoints) => Ok(Discovery(origin, endpoints))
  }

  /** `discoverUrlsFromSitemap(seedUrl)`: `fetched` lists the sitemap URLs
      fetched, in order (the `visitedSitemaps` set). It throws when the seed or
      an endpoint does not parse; otherwise see `ExploreSitemaps`. */
  method DiscoverUrlsFromSitemap(c: UrlCodec, seedUrl: string, fetch: map<string, string>)
    returns (r: Result<seq<string>, UrlError>, fetched: seq<string>)
    ensures r.Err? <==> DiscoveryStart(c, seedUrl, fetch).Err?
    ensures r.Err? ==> r.error == DiscoveryStart(c, seedUrl, fetch).error && fetched == []
    ensures r.Ok? ==> var start := DiscoveryStart(c, seedUrl, fetch).value;
                      Explored(c, start.origin, fetch, start.endpoints, r.value, fetched)
  {
    var seed := c.parse(seedUrl);
    if seed.None? {
      return Err(InvalidUrl(seedUrl)), [];
    }
    var origin := OriginOf(c, seed.value);
    var base := c.parse(SerializeOrigin(origin));
    if base.None? {
      return Err(InvalidUrl("/sitemap.xml")), [];
    }
    var initialSitemaps := DiscoverSitemapEndpoints(c, base.value, fetch);
    if initialSitemaps.Err? {
      return Err(initialSitemaps.error), [];
    }
    var urls;
    urls, fetched := ExploreSitemaps(c, origin, fetch, initialSitemaps.value);
    r := Ok(urls);
  }

  /** What the worklist guarantees: at most `MaxSitemaps` distinct non-empty
      URLs fetched, each named by an endpoint or an earlier document; the result
      is the distinct pages of the fetched documents; and unless the bound was
      reached every named sitemap was fetched. */
  ghost predicate Explored(c: UrlCodec, origin: Origin, fetch: map<string, string>, endpoints: seq<string>,
                           urls: seq<string>, fetched: seq<string>) {
    && |fetched| <= MaxSitemaps && Distinct(fetched) && "" !in fetched
    && urls == AllPages(c, origin, fetch, fetched)
    && (forall k :: 0 <= k < |fetched| ==> NamedBy(fetch, endpoints, fetched[..k], fetched[k]))
    && (|fetched| < MaxSitemaps ==>
          && (forall e :: e in endpoints && e != "" ==> e in fetched)
          && (forall k, x :: 0 <= k < |fetched| && x in ChildSitemaps(fetch, fetched[k]) ==> x in fetched))
  }

  /** The worklist loop of `discoverUrlsFromSitemap`, from the endpoints. */
  method ExploreSitemaps(c: UrlCodec, origin: Origin, fetch: map<string, string>, endpoints: seq<string>)
    returns (discoveredUrls: seq<string>, visitedSitemaps: seq<string>)
    ensures Explored(c, origin, fetch, endpoints, discoveredUrls, visitedSitemaps)
  {
    visitedSitemaps := [];
    var queue := endpoints;
    discoveredUrls := [];
    while |queue| > 0 && |visitedSitemaps| < MaxSitemaps
      invariant Worklist(fetch, endpoints, visitedSitemaps, queue)
      invariant discoveredUrls == AllPages(c, origin, fetch, visitedSitemaps)
      decreases MaxSitemaps - |visitedSitemaps|, |queue|
    {
      var sitemapUrl := queue[0];
      if sitemapUrl == "" || sitemapUrl in visitedSitemaps {
        SkipKeepsWorklist(fetch, endpoints, visitedSitemaps, queue);
        queue := queue[1..];
        continue;
      }
      VisitKeepsWorklist(fetch, endpoints, visitedSitemaps, queue);
      AllPagesVisit(c, origin, fetch, visitedSitemaps, sitemapUrl);
      queue := queue[1..];
      visitedSitemaps := visitedSitemaps + [sitemapUrl];
      var xml := FetchText(fetch, sitemapUrl);
      if xml == "" {
        UnreadableDocument(c, origin, fetch, sitemapUrl, visitedSitemaps, queue, discoveredUrls);
        continue;
      }
      var locs := ExtractLocEntries(xml);
      if |locs| == 0 {
        UnreadableDocument(c, origin, fetch, sitemapUrl, visitedSitemaps, queue, discoveredUrls);
        continue;
      }
      var isIndex := IsSitemapIndex(xml);
      queue, discoveredUrls := ScanLocs(c, origin, locs, isIndex, visitedSitemaps, queue, discoveredUrls);
    }
    if |visitedSitemaps| < MaxSitemaps {
      ClosedWhenEmpty(fetch, endpoints, visitedSitemaps);
    }
  }

  /** Visiting one more document adds its pages to those found. */
  lemma AllPagesVisit(c: UrlCodec, origin: Origin, fetch: map<string, string>, visited: seq<string>, url: string)
    ensures AllPages(c, origin, fetch, visited + [url]) ==
              AddAll(AllPages(c, origin, fetch, visited), DocumentPages(c, origin, fetch, url))
  {
    var lists := PagesPerDocument(c, origin, fetch, visited + [url]);
    assert lists[..|visited|] == PagesPerDocument(c, origin, fetch, visited);
    assert lists[|visited|] == DocumentPages(c, origin, fetch, url);
  }

  /** A document that cannot be read, or lists nothing, adds no link and no page. */
  lemma UnreadableDocument(c: UrlCodec, origin: Origin, fetch: map<string, string>, url: string,
                           visited: seq<string>, queue: seq<string>, discovered: seq<string>)
    requires DocumentLocs(fetch, url) == []
    ensures queue + Unvisited(ChildSitemaps(fetch, url), visited) == queue
    ensures AddAll(discovered, DocumentPages(c, origin, fetch, url)) == discovered
  {
    assert queue + [] == queue;
  }

  /** With the queue empty, the invariant gives the closure. */
  lemma {:induction false} ClosedWhenEmpty(fetch: map<string, string>, endpoints: seq<string>, visited: seq<string>)
    requires Closed(fetch, endpoints, visited, [])
    ensures forall e :: e in endpoints && e != "" ==> e in visited
    ensures forall k, x :: 0 <= k < |visited| && x in ChildSitemaps(fetch, visited[k]) ==> x in visited
  {
    forall k, x | 0 <= k < |visited| && x in ChildSitemaps(fetch, visited[k])
      ensures x in visited
    {
      assert x in visited || x in [];
    }
  }

  /** The URLs a discovery returns are distinct pages of the seed's origin with
      no query and no fragment, and exactly the pages the fetched documents list. */
  lemma ExploredPages(c: UrlCodec, origin: Origin, fetch: map<string, string>, endpoints: seq<string>,
                      urls: seq<string>, fetched: seq<string>)
    requires Explored(c, origin, fetch, endpoints, urls, fetched)
    ensures Distinct(urls)
    ensures forall x :: x in urls ==> IsPageOf(c, origin, x)
    ensures forall x :: x in urls <==> exists k :: 0 <= k < |fetched| && x in DocumentPages(c, origin, fetch, fetched[k])
  {
    AllPagesMembers(c, origin, fetch, fetched);
    AllPagesAreOfOrigin(c, origin, fetch, fetched);
  }
}
