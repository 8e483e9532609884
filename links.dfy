/** Link extraction and filtering (src/core/links.ts).

    The HTML parser's part is taken as given: the page is the sequence of its
    `<a href>` elements, in document order, each an `Anchor` record with the
    raw attribute values and text. The base URL is the parsed `baseUrl`. */
module Links {
  import opened Wrappers
  import opened Text
  import opened Url
  import opened OrderedSets

  /** One `<a href>` element: its `href`, its text, and its `aria-label` and
      `title` attributes when present. */
  datatype Anchor = Anchor(href: string, text: string, ariaLabel: Option<string>, titleAttr: Option<string>)

  datatype LinkType = Internal | External

  /** `LinkItem`. */
  datatype LinkItem = LinkItem(title: string, url: string, linkType: LinkType)

  /** `chooseLinkTitle`: the first non-empty of the anchor text, the aria label
      and the title attribute, else the slug of the URL. */
  function ChooseLinkTitle(anchorText: string, ariaLabel: string, titleAttr: string, u: Url): (title: string)
    ensures anchorText != "" ==> title == anchorText
    ensures anchorText == "" && ariaLabel != "" ==> title == ariaLabel
    ensures anchorText == "" && ariaLabel == "" && titleAttr != "" ==> title == titleAttr
    ensures anchorText == "" && ariaLabel == "" && titleAttr == "" ==> title == SlugFromUrl(u)
    ensures title == "" ==> anchorText == "" && ariaLabel == "" && titleAttr == "" && u.host == ""
  {
    if anchorText != "" then anchorText
    else if ariaLabel != "" then ariaLabel
    else if titleAttr != "" then titleAttr
    else SlugFromUrl(u)
  }

  /** The URL an anchor links to: its `href` resolved against the base and
      normalised with the query stripped; None for an empty, skippable or
      unresolvable `href`. */
  function AnchorTarget(c: UrlCodec, base: Url, a: Anchor): (target: Option<Url>)
    ensures target.Some? ==> target.value.query.None? && target.value.fragment.None?
    ensures target.Some? ==> a.href != "" && !IsSkippableHref(a.href) && c.resolve(a.href, base).Some?
  {
    if a.href == "" then None else ResolveAndNormalizeUrl(c, base, a.href, true)
  }

  /** The serialised target, the key links are deduplicated by. */
  function AnchorKey(c: UrlCodec, base: Url, a: Anchor): Option<string> {
    match AnchorTarget(c, base, a)
    case None => None
    case Some(n) => Some(c.serialize(n))
  }

  /** The link an anchor with target `n` produces: trimmed text and attributes
      choose the title; the type says whether `n` has the base's origin. */
  function LinkOf(c: UrlCodec, base: Url, a: Anchor, n: Url): (link: LinkItem)
    ensures link.url == c.serialize(n)
    ensures link.linkType == Internal <==> OriginOf(c, n) == OriginOf(c, base)
  {
    var title := ChooseLinkTitle(Trim(a.text), Trim(a.ariaLabel.GetOr("")), Trim(a.titleAttr.GetOr("")), n);
    LinkItem(title, c.serialize(n), if IsInternalUrl(c, base, n) then Internal else External)
  }

  /** The URLs of the links. */
  function UrlsOf(links: seq<LinkItem>): (urls: set<string>)
    ensures forall l :: l in links ==> l.url in urls
    ensures forall u :: u in urls ==> exists i :: 0 <= i < |links| && links[i].url == u
  {
    set i | 0 <= i < |links| :: links[i].url
  }

  /** What `extractLinksFromHtml` returns for the anchors: one link per anchor
      with a new target, in anchor order. */
  function Links(c: UrlCodec, base: Url, anchors: seq<Anchor>): (links: seq<LinkItem>)
    ensures |links| <= |anchors|
    decreases |anchors|
  {
    if anchors == [] then []
    else
      var before := Links(c, base, anchors[..|anchors| - 1]);
      var a := anchors[|anchors| - 1];
      match AnchorTarget(c, base, a)
      case None => before
      case Some(n) => if c.serialize(n) in UrlsOf(before) then before else before + [LinkOf(c, base, a, n)]
  }

  /** `extractLinksFromHtml(baseUrl, html)` over the anchors of the page. */
  method ExtractLinksFromHtml(c: UrlCodec, base: Url, anchors: seq<Anchor>) returns (links: seq<LinkItem>)
    ensures links == Links(c, base, anchors)
  {
    var seen: set<string> := {};
    links := [];
    for i := 0 to |anchors|
      invariant links == Links(c, base, anchors[..i])
      invariant seen == UrlsOf(links)
    {
      assert anchors[..i + 1][..i] == anchors[..i];
      var a := anchors[i];
      assert anchors[..i + 1][i] == a;
      if a.href == "" {
        continue;
      }
      var normalized := ResolveAndNormalizeUrl(c, base, a.href, true);
      if normalized.None? || c.serialize(normalized.value) in seen {
        continue;
      }
      seen := seen + {c.serialize(normalized.value)};
      var anchorText := Trim(a.text);
      var ariaLabel := Trim(a.ariaLabel.GetOr(""));
      var titleAttr := Trim(a.titleAttr.GetOr(""));
      var title := ChooseLinkTitle(anchorText, ariaLabel, titleAttr, normalized.value);
      var linkType := if IsInternalUrl(c, base, normalized.value) then Internal else External;
      LinksAppendUrls(links, LinkItem(title, c.serialize(normalized.value), linkType));
      links := links + [LinkItem(title, c.serialize(normalized.value), linkType)];
    }
    assert anchors[..|anchors|] == anchors;
  }

  lemma LinksAppendUrls(links: seq<LinkItem>, link: LinkItem)
    ensures UrlsOf(links + [link]) == UrlsOf(links) + {link.url}
  {
    var after := links + [link];
    forall u | u in UrlsOf(after)
      ensures u in UrlsOf(links) + {link.url}
    {
      var i :| 0 <= i < |after| && after[i].url == u;
      if i < |links| {
        assert after[i] == links[i];
      }
    }
    assert after[|links|] == link;
  }

  /** No two links share a URL. */
  predicate DistinctUrls(links: seq<LinkItem>) {
    forall i, j :: 0 <= i < j < |links| ==> links[i].url != links[j].url
  }

  lemma DistinctUrlsAppend(links: seq<LinkItem>, link: LinkItem)
    requires DistinctUrls(links) && link.url !in UrlsOf(links)
    ensures DistinctUrls(links + [link])
  {
    var after := links + [link];
    forall i, j | 0 <= i < j < |after|
      ensures after[i].url != after[j].url
    {
      assert after[i] == links[i];
      if j < |links| {
        assert after[j] == links[j];
      }
    }
  }

  /** Links are deduplicated by URL. */
  lemma {:induction false} LinksDistinctUrls(c: UrlCodec, base: Url, anchors: seq<Anchor>)
    ensures DistinctUrls(Links(c, base, anchors))
    decreases |anchors|
  {
    if anchors != [] {
      var init := anchors[..|anchors| - 1];
      LinksDistinctUrls(c, base, init);
      var a := anchors[|anchors| - 1];
      match AnchorTarget(c, base, a)
      case None =>
      case Some(n) =>
        if c.serialize(n) !in UrlsOf(Links(c, base, init)) {
          DistinctUrlsAppend(Links(c, base, init), LinkOf(c, base, a, n));
        }
    }
  }

  /** The links of a prefix of the anchors are a prefix of the links: links
      keep anchor order, and a later anchor never changes an earlier link. */
  lemma {:induction false} LinksOfPrefix(c: UrlCodec, base: Url, anchors: seq<Anchor>, m: nat)
    requires m <= |anchors|
    ensures var before := Links(c, base, anchors[..m]);
            |before| <= |Links(c, base, anchors)| && Links(c, base, anchors)[..|before|] == before
    decreases |anchors|
  {
    if m < |anchors| {
      var init := anchors[..|anchors| - 1];
      assert init[..m] == anchors[..m];
      LinksOfPrefix(c, base, init, m);
      var links := Links(c, base, anchors);
      var before := Links(c, base, init);
      assert links[..|before|] == before;
    } else {
      assert anchors[..m] == anchors;
    }
  }

  /** Every anchor with a target has its URL among the links. */
  lemma {:induction false} LinksComplete(c: UrlCodec, base: Url, anchors: seq<Anchor>, k: nat)
    requires k < |anchors| && AnchorKey(c, base, anchors[k]).Some?
    ensures AnchorKey(c, base, anchors[k]).value in UrlsOf(Links(c, base, anchors))
    decreases |anchors|
  {
    var init := anchors[..|anchors| - 1];
    var before := Links(c, base, init);
    var links := Links(c, base, anchors);
    assert links == before || links == before + [links[|links| - 1]];
    if k < |init| {
      assert init[k] == anchors[k];
      LinksComplete(c, base, init, k);
      LinksOfPrefix(c, base, anchors, |init|);
      assert anchors[..|init|] == init;
      var i :| 0 <= i < |before| && before[i].url == AnchorKey(c, base, anchors[k]).value;
      assert links[i] == before[i];
    }
  }

  /** `k` is the first anchor whose target serialises to `url`. */
  predicate IsFirstAnchorFor(c: UrlCodec, base: Url, anchors: seq<Anchor>, k: nat, url: string) {
    && k < |anchors|
    && AnchorKey(c, base, anchors[k]) == Some(url)
    && forall j :: 0 <= j < k ==> AnchorKey(c, base, anchors[j]) != Some(url)
  }

  /** One more anchor either adds nothing or adds the link of its new target. */
  lemma LinksLast(c: UrlCodec, base: Url, anchors: seq<Anchor>)
    requires anchors != []
    ensures var before := Links(c, base, anchors[..|anchors| - 1]);
            var a := anchors[|anchors| - 1];
            || Links(c, base, anchors) == before
            || (&& AnchorTarget(c, base, a).Some?
                && AnchorKey(c, base, a).value !in UrlsOf(before)
                && Links(c, base, anchors) == before + [LinkOf(c, base, a, AnchorTarget(c, base, a).value)])
  {
  }

  /** Each link is the link of the FIRST anchor with its target: a later
      duplicate never replaces it. The witness is that anchor. */
  lemma {:induction false} LinkSource(c: UrlCodec, base: Url, anchors: seq<Anchor>, i: nat) returns (k: nat)
    requires i < |Links(c, base, anchors)|
    ensures var link := Links(c, base, anchors)[i];
            && IsFirstAnchorFor(c, base, anchors, k, link.url)
            && link == LinkOf(c, base, anchors[k], AnchorTarget(c, base, anchors[k]).value)
    decreases |anchors|, 1
  {
    if i < |Links(c, base, anchors[..|anchors| - 1])| {
      k := EarlierLinkSource(c, base, anchors, i);
    } else {
      k := |anchors| - 1;
      LastLinkSource(c, base, anchors, i);
    }
  }

  /** A link already made before the last anchor keeps its first anchor. */
  lemma {:induction false} EarlierLinkSource(c: UrlCodec, base: Url, anchors: seq<Anchor>, i: nat) returns (k: nat)
    requires anchors != [] && i < |Links(c, base, anchors[..|anchors| - 1])|
    ensures i < |Links(c, base, anchors)|
    ensures var link := Links(c, base, anchors)[i];
            && IsFirstAnchorFor(c, base, anchors, k, link.url)
            && link == LinkOf(c, base, anchors[k], AnchorTarget(c, base, anchors[k]).value)
    decreases |anchors|, 0
  {
    var init := anchors[..|anchors| - 1];
    var before := Links(c, base, init);
    var links := Links(c, base, anchors);
    LinksOfPrefix(c, base, anchors, |init|);
    assert anchors[..|init|] == init;
    assert links[i] == before[i];
    k := LinkSource(c, base, init, i);
    assert init[k] == anchors[k];
    forall j | 0 <= j < k
      ensures AnchorKey(c, base, anchors[j]) != Some(links[i].url)
    {
      assert init[j] == anchors[j];
    }
  }

  /** A link made by the last anchor: no earlier anchor had its target. */
  lemma LastLinkSource(c: UrlCodec, base: Url, anchors: seq<Anchor>, i: nat)
    requires anchors != [] && |Links(c, base, anchors[..|anchors| - 1])| <= i < |Links(c, base, anchors)|
    ensures var link := Links(c, base, anchors)[i];
            var k := |anchors| - 1;
            && IsFirstAnchorFor(c, base, anchors, k, link.url)
            && link == LinkOf(c, base, anchors[k], AnchorTarget(c, base, anchors[k]).value)
  {
    var init := anchors[..|anchors| - 1];
    var links := Links(c, base, anchors);
    LinksLast(c, base, anchors);
    forall j | 0 <= j < |anchors| - 1
      ensures AnchorKey(c, base, anchors[j]) != Some(links[i].url)
    {
      assert init[j] == anchors[j];
      if AnchorKey(c, base, anchors[j]) == Some(links[i].url) {
        LinksComplete(c, base, init, j);
        assert false;
      }
    }
  }

  /** A link is internal exactly when its target has the base URL's origin, and
      its URL is a normalised URL without query or fragment. */
  lemma LinkTypeIsOrigin(c: UrlCodec, base: Url, anchors: seq<Anchor>, i: nat)
    requires i < |Links(c, base, anchors)|
    ensures var link := Links(c, base, anchors)[i];
            exists n: Url :: link.url == c.serialize(n) && n.query.None? && n.fragment.None?
                            && (link.linkType == Internal <==> OriginOf(c, n) == OriginOf(c, base))
  {
    var k := LinkSource(c, base, anchors, i);
    var n := AnchorTarget(c, base, anchors[k]).value;
    assert Links(c, base, anchors)[i].url == c.serialize(n);
  }

  // ---------------------------------------------------------------------------
  // filterLinks

  /** `LinkFilterOptions`. */
  datatype FilterOptions = FilterOptions(internal: bool, external: bool, matchText: Option<string>)

  /** The lower-cased match text, when there is a non-empty one. */
  function Matcher(options: FilterOptions): Option<string> {
    match options.matchText
    case Some(m) => if m != "" then Some(Lower(m)) else None
    case None => None
  }

  /** The test `filterLinks` applies to each link. */
  predicate Keeps(options: FilterOptions, link: LinkItem) {
    && !(options.internal && link.linkType != Internal)
    && !(options.external && link.linkType != External)
    && match Matcher(options)
       case None => true
       case Some(m) => Contains(Lower(link.title + " " + link.url), m)
  }

  /** `filterLinks(links, options)`. */
  function FilterLinks(links: seq<LinkItem>, options: FilterOptions): (kept: seq<LinkItem>)
    ensures |kept| <= |links|
    decreases |links|
  {
    if links == [] then []
    else (if Keeps(options, links[0]) then [links[0]] else []) + FilterLinks(links[1..], options)
  }

  /** The filter keeps exactly the links that pass the test. */
  lemma {:induction false} FilterMembers(links: seq<LinkItem>, options: FilterOptions)
    ensures forall l :: l in FilterLinks(links, options) <==> l in links && Keeps(options, l)
    decreases |links|
  {
    if links != [] {
      FilterMembers(links[1..], options);
      assert links == [links[0]] + links[1..];
    }
  }

  /** `xs` is a subsequence of `ys`: `ys` with some elements removed. */
  predicate IsSubsequence<T(==)>(xs: seq<T>, ys: seq<T>)
    decreases |ys|
  {
    if xs == [] then true
    else if ys == [] then false
    else if xs[0] == ys[0] then IsSubsequence(xs[1..], ys[1..])
    else IsSubsequence(xs, ys[1..])
  }

  lemma {:induction false} EmptyIsSubsequence<T>(ys: seq<T>)
    ensures IsSubsequence([], ys)
  {
  }

  /** The filter keeps a subsequence of the links, in their order. */
  lemma {:induction false} FilterIsSubsequence(links: seq<LinkItem>, options: FilterOptions)
    ensures IsSubsequence(FilterLinks(links, options), links)
    decreases |links|
  {
    if links != [] {
      FilterIsSubsequence(links[1..], options);
      var rest := FilterLinks(links[1..], options);
      if Keeps(options, links[0]) {
        assert FilterLinks(links, options) == [links[0]] + rest;
        assert ([links[0]] + rest)[1..] == rest;
      } else {
        assert FilterLinks(links, options) == rest;
        if rest != [] {
          FilterSkipsHead(links, options);
        }
      }
    }
  }

  /** Without its head, the filter result is a subsequence of the tail, hence of
      the whole list when the head is dropped. */
  lemma FilterSkipsHead(links: seq<LinkItem>, options: FilterOptions)
    requires links != [] && !Keeps(options, links[0])
    requires IsSubsequence(FilterLinks(links[1..], options), links[1..])
    ensures IsSubsequence(FilterLinks(links[1..], options), links)
  {
    var rest := FilterLinks(links[1..], options);
    if rest != [] {
      FilterMembers(links[1..], options);
      assert rest[0] in rest;
      assert rest[0] != links[0];
    }
  }

  /** Filtering twice with the same options is filtering once. */
  lemma {:induction false} FilterIdempotent(links: seq<LinkItem>, options: FilterOptions)
    ensures FilterLinks(FilterLinks(links, options), options) == FilterLinks(links, options)
    decreases |links|
  {
    if links != [] {
      FilterIdempotent(links[1..], options);
      var rest := FilterLinks(links[1..], options);
      if Keeps(options, links[0]) {
        var once := [links[0]] + rest;
        assert FilterLinks(links, options) == once;
        assert once[0] == links[0] && once[1..] == rest;
        assert FilterLinks(once, options) == [links[0]] + FilterLinks(rest, options);
      } else {
        assert FilterLinks(links, options) == [] + rest == rest;
      }
    }
  }

  /** The type flags: `internal` keeps only internal links, `external` only
      external ones, and both together keep nothing. */
  lemma FilterByType(links: seq<LinkItem>, options: FilterOptions)
    ensures options.internal ==> forall l :: l in FilterLinks(links, options) ==> l.linkType == Internal
    ensures options.external ==> forall l :: l in FilterLinks(links, options) ==> l.linkType == External
    ensures options.internal && options.external ==> FilterLinks(links, options) == []
  {
    var kept := FilterLinks(links, options);
    FilterMembers(links, options);
    if options.internal && options.external && kept != [] {
      assert kept[0] in kept;
    }
  }

  /** The match text: with a non-empty one, a link of the right type is kept
      exactly when its lower-cased title, a space and its URL contain the
      lower-cased match; with none or an empty one, no text test applies. */
  lemma FilterByMatch(links: seq<LinkItem>, options: FilterOptions, l: LinkItem)
    requires l in links
    requires !(options.internal && l.linkType != Internal) && !(options.external && l.linkType != External)
    ensures options.matchText.Some? && options.matchText.value != "" ==>
              (l in FilterLinks(links, options) <==> Contains(Lower(l.title + " " + l.url), Lower(options.matchText.value)))
    ensures options.matchText.None? || options.matchText.value == "" ==> l in FilterLinks(links, options)
  {
    FilterMembers(links, options);
  }
}
