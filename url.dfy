/** URL canonicalisation (src/core/url.ts).

    A URL is the record the WHATWG URL Standard parses a string into, reduced to
    the parts the crawler reads or writes. Parsing, resolving a reference
    against a base and serialising are the platform's `new URL(...)` and
    `toString()`: the model takes them as an uninterpreted `UrlCodec` (parsing
    and resolving may fail). A URL the crawler has serialised and parses again
    is the same record, so a canonical URL string is identified with its record. */
module Url {
  import opened Wrappers
  import opened Text

  datatype Url = Url(
    scheme: string,             // lower case, without the ':' (`protocol` minus its colon)
    host: string,               // `hostname`
    port: string,               // `port`; "" when absent
    path: string,               // `pathname`
    opaquePath: bool,           // the path is opaque, as in "data:text/plain,abc" or "mailto:a@b"
    query: Option<string>,      // None when the URL has no '?'
    fragment: Option<string>)   // None when the URL has no '#'

  /** The WHATWG origin (`url.origin`): a (scheme, host, port) tuple for the
      schemes that have one, and for a `blob:` URL whose path is an http or https
      URL; otherwise an opaque origin. Every opaque origin serialises to "null",
      so two of them compare equal as strings, and so they are equal here. */
  datatype Origin = TupleOrigin(scheme: string, host: string, port: string) | OpaqueOrigin

  /** The platform's URL parser (`new URL(s)`), resolver (`new URL(href, base)`)
      and serialiser (`url.toString()`). */
  datatype UrlCodec = UrlCodec(
    parse: string -> Option<Url>,
    resolve: (string, Url) -> Option<Url>,
    serialize: Url -> string)

  /** Serialising loses nothing: two URLs with the same string are the same
      URL. This is what parsing a serialised URL back to its record amounts to. */
  ghost predicate SerializeInjective(c: UrlCodec) {
    forall a: Url, b: Url :: c.serialize(a) == c.serialize(b) ==> a == b
  }

  /** Why `coerceUrl` throws. */
  datatype UrlError = EmptyUrl | InvalidUrl(input: string)

  predicate HasTupleOrigin(scheme: string) {
    scheme in {"http", "https", "ftp", "ws", "wss"}
  }

  /** `url.origin`. A `blob:` URL's path is parsed as a URL of its own, and its
      origin is that URL's when it is an http or https URL. */
  function OriginOf(c: UrlCodec, u: Url): Origin {
    if HasTupleOrigin(u.scheme) then TupleOrigin(u.scheme, u.host, u.port)
    else if u.scheme == "blob" then
      match c.parse(u.path)
      case Some(inner) =>
        if inner.scheme in {"http", "https"} then TupleOrigin(inner.scheme, inner.host, inner.port) else OpaqueOrigin
      case None => OpaqueOrigin
    else OpaqueOrigin
  }

  /** The ASCII serialisation of an origin (`url.origin`). */
  function SerializeOrigin(o: Origin): string {
    match o
    case TupleOrigin(s, h, p) => s + "://" + h + (if p == "" then "" else ":" + p)
    case OpaqueOrigin => "null"
  }

  // ---------------------------------------------------------------------------
  // coerceUrl

  predicate IsAsciiLetter(ch: char) {
    'a' <= ch <= 'z' || 'A' <= ch <= 'Z'
  }

  predicate IsSchemeChar(ch: char) {
    IsAsciiLetter(ch) || '0' <= ch <= '9' || ch == '+' || ch == '-' || ch == '.'
  }

  /** What may follow the first letter of `scheme://`: scheme characters, then `://`. */
  predicate SchemeTail(s: string)
    decreases |s|
  {
    StartsWith(s, "://") || (s != [] && IsSchemeChar(s[0]) && SchemeTail(s[1..]))
  }

  /** The test `/^[a-zA-Z][a-zA-Z\d+\-.]*:\/\//`. */
  predicate HasSchemePrefix(s: string) {
    s != [] && IsAsciiLetter(s[0]) && SchemeTail(s[1..])
  }

  lemma {:induction false} SchemeTailHasColon(s: string)
    requires SchemeTail(s)
    ensures ':' in s
    decreases |s|
  {
    if !StartsWith(s, "://") {
      SchemeTailHasColon(s[1..]);
    } else {
      assert s[0] == ':';
    }
  }

  /** The string `coerceUrl` hands to the parser for an already trimmed input. */
  function CoerceCandidate(trimmed: string): (r: string)
    ensures HasSchemePrefix(r)
    ensures r == trimmed <==> HasSchemePrefix(trimmed)
    ensures EndsWith(r, trimmed)
  {
    if HasSchemePrefix(trimmed) then trimmed
    else
      var r := "https://" + trimmed;
      assert r[5..] == "://" + trimmed && StartsWith(r[5..], "://");
      assert r[4..][1..] == r[5..] && SchemeTail(r[4..]);
      assert r[3..][1..] == r[4..] && SchemeTail(r[3..]);
      assert r[2..][1..] == r[3..] && SchemeTail(r[2..]);
      assert r[1..][1..] == r[2..] && SchemeTail(r[1..]);
      r
  }

  /** `coerceUrl(input)`: trims, fails on blank input, prepends `https://` when
      the input has no `scheme://`, and fails when the result does not parse. */
  function CoerceUrl(c: UrlCodec, input: string): (r: Result<Url, UrlError>)
    ensures r == Err(EmptyUrl) <==> IsBlank(input)
    ensures r.Ok? <==> !IsBlank(input) && c.parse(CoerceCandidate(Trim(input))).Some?
    ensures r.Ok? ==> c.parse(CoerceCandidate(Trim(input))) == Some(r.value)
    ensures r.Err? && !IsBlank(input) ==> r.error == InvalidUrl(input)
  {
    var value := Trim(input);
    if value == "" then Err(EmptyUrl)
    else
      match c.parse(CoerceCandidate(value))
      case None => Err(InvalidUrl(input))
      case Some(u) => Ok(u)
  }

  /** An input without any ':' (a bare host such as "vercel.com") is always
      parsed with `https://` in front. */
  lemma BareHostGetsHttps(input: string)
    requires ':' !in input
    ensures CoerceCandidate(Trim(input)) == "https://" + Trim(input)
  {
    var t := Trim(input);
    if HasSchemePrefix(t) {
      SchemeTailHasColon(t[1..]);
      assert false;
    }
  }

  // ---------------------------------------------------------------------------
  // isSkippableHref

  const SkippedProtocols: seq<string> := ["mailto:", "javascript:", "tel:"]

  /** `isSkippableHref(href)`: blank, or a mail, script or telephone link, ignoring
      case and surrounding white space. */
  predicate IsSkippableHref(href: string) {
    var value := Lower(Trim(href));
    value == "" || exists k | 0 <= k < |SkippedProtocols| :: StartsWith(value, SkippedProtocols[k])
  }

  /** Skipping ignores the case of the href. */
  lemma SkippableIgnoresCase(href: string)
    ensures IsSkippableHref(Lower(href)) == IsSkippableHref(href)
  {
    TrimLowerCommute(href);
    LowerIdempotent(Trim(href));
    assert Lower(Trim(Lower(href))) == Lower(Trim(href));
  }

  lemma ProtocolEndsInColon(k: nat)
    requires k < |SkippedProtocols|
    ensures |SkippedProtocols[k]| > 0 && SkippedProtocols[k][|SkippedProtocols[k]| - 1] == ':'
  {
  }

  /** An href that starts, in any case, with one of the skipped protocols is
      skipped, whatever follows (white space at its end included). */
  lemma SkippedProtocolPrefix(href: string, k: nat)
    requires k < |SkippedProtocols|
    requires href != [] && !IsWhitespace(href[0])
    requires StartsWith(Lower(href), SkippedProtocols[k])
    ensures IsSkippableHref(href)
  {
    var n := |SkippedProtocols[k]|;
    var lh := Lower(href);
    ProtocolEndsInColon(k);
    assert lh[..n][n - 1] == lh[n - 1];
    LowerChangesNoWhitespace(href[n - 1]);
    TrimKeepsVisiblePrefix(href, n);
    LowerPrefix(Trim(href), href, n);
  }

  // ---------------------------------------------------------------------------
  // normalizeUrl

  predicate IsDefaultPort(scheme: string, port: string) {
    (scheme == "http" && port == "80") || (scheme == "https" && port == "443")
  }

  /** The path ends in a slash that normalisation removes from a URL whose
      path is not opaque. */
  predicate HasRemovableSlash(path: string) {
    |path| > 1 && EndsWith(path, "/")
  }

  /** The URL Standard's "potentially strip trailing spaces from an opaque
      path", which the `hash` and `search` setters run once the fragment and
      the query are both gone: every trailing U+0020 goes. */
  function StripTrailingSpaces(p: string): (r: string)
    decreases |p|
  {
    if p != [] && p[|p| - 1] == ' ' then StripTrailingSpaces(p[..|p| - 1]) else p
  }

  /** Stripping keeps a prefix, leaves no trailing space, and removes only spaces. */
  lemma {:induction false} StripTrailingSpacesSpec(p: string)
    ensures var r := StripTrailingSpaces(p);
            && |r| <= |p| && r == p[..|r|]
            && (r == [] || r[|r| - 1] != ' ')
            && forall i :: |r| <= i < |p| ==> p[i] == ' '
    decreases |p|
  {
    if p != [] && p[|p| - 1] == ' ' {
      StripTrailingSpacesSpec(p[..|p| - 1]);
    }
  }

  /** `normalizeUrl`'s updates to the parsed URL: drop the fragment, drop the
      query when `stripQuery`, strip the trailing spaces of an opaque path once
      both are gone, drop a default port, and drop ONE trailing slash from a
      path longer than "/" (the `pathname` setter does nothing on an opaque
      path). */
  function Normalize(u: Url, stripQuery: bool): (r: Url)
    ensures r.scheme == u.scheme && r.host == u.host && r.opaquePath == u.opaquePath
    ensures r.fragment.None?
    ensures r.query == if stripQuery then None else u.query
    ensures !IsDefaultPort(r.scheme, r.port)
    ensures r.port == u.port || IsDefaultPort(u.scheme, u.port)
    ensures IsDefaultPort(u.scheme, u.port) ==> r.port == ""
    ensures !u.opaquePath ==> r.path == u.path || (HasRemovableSlash(u.path) && u.path == r.path + "/")
    ensures u.opaquePath && r.query.None? ==> r.path == StripTrailingSpaces(u.path)
    ensures u.opaquePath && r.query.Some? ==> r.path == u.path
  {
    var noFragment := u.(fragment := None);
    var noQuery := if stripQuery then noFragment.(query := None) else noFragment;
    var noSpaces := if noQuery.opaquePath && noQuery.query.None? then noQuery.(path := StripTrailingSpaces(noQuery.path)) else noQuery;
    var noPort := if IsDefaultPort(noSpaces.scheme, noSpaces.port) then noSpaces.(port := "") else noSpaces;
    var r := if !noPort.opaquePath && HasRemovableSlash(noPort.path) then noPort.(path := noPort.path[..|noPort.path| - 1]) else noPort;
    assert !u.opaquePath && HasRemovableSlash(u.path) ==> u.path == r.path + "/";
    r
  }

  /** A URL in the form the crawler keys pages by: no fragment, no default
      port, and no trailing slash on a non-root path, or, for an opaque path,
      no trailing space. */
  predicate IsCanonical(u: Url) {
    && u.fragment.None?
    && !IsDefaultPort(u.scheme, u.port)
    && (if u.opaquePath then u.path == [] || u.path[|u.path| - 1] != ' ' else !HasRemovableSlash(u.path))
  }

  /** The path `normalizeUrl` cannot fully clean in one call: it ends in "//"
      and is longer than "//". */
  predicate EndsInRepeatedSlash(path: string) {
    |path| > 2 && EndsWith(path, "//")
  }

  lemma SlashSuffixes(p: string)
    ensures EndsWith(p, "/") <==> |p| >= 1 && p[|p| - 1] == '/'
    ensures EndsWith(p, "//") <==> |p| >= 2 && p[|p| - 2] == '/' && p[|p| - 1] == '/'
  {
    if |p| >= 1 { assert p[|p| - 1..] == [p[|p| - 1]]; }
    if |p| >= 2 { assert p[|p| - 2..] == [p[|p| - 2], p[|p| - 1]]; }
  }

  /** Normalising yields a canonical URL exactly when the path does not end in a
      repeated slash. */
  lemma NormalizeCanonicalIff(u: Url, stripQuery: bool)
    ensures IsCanonical(Normalize(u, stripQuery)) <==>
              if u.opaquePath then stripQuery || u.query.None? || u.path == [] || u.path[|u.path| - 1] != ' '
              else !EndsInRepeatedSlash(u.path)
  {
    var p := u.path;
    var r := Normalize(u, stripQuery);
    if u.opaquePath {
      StripTrailingSpacesSpec(p);
    } else {
      SlashSuffixes(p);
      if HasRemovableSlash(p) {
        assert r.path == p[..|p| - 1];
        SlashSuffixes(r.path);
      }
    }
  }

  /** Normalising a canonical URL changes nothing but the query it is asked to strip. */
  lemma NormalizeKeepsCanonical(u: Url, stripQuery: bool)
    requires IsCanonical(u)
    ensures Normalize(u, stripQuery) == if stripQuery then u.(query := None) else u
  {
    if u.opaquePath {
      assert StripTrailingSpaces(u.path) == u.path;
    }
  }

  /** Stripping trailing spaces twice strips nothing more. */
  lemma StripTrailingSpacesIdempotent(p: string)
    ensures StripTrailingSpaces(StripTrailingSpaces(p)) == StripTrailingSpaces(p)
  {
    StripTrailingSpacesSpec(p);
  }

  /** `normalizeUrl` is idempotent exactly when the path is opaque or does not
      end in a repeated slash; on "/a//" the second call strips a second slash. */
  lemma NormalizeIdempotentIff(u: Url, stripQuery: bool)
    ensures Normalize(Normalize(u, stripQuery), stripQuery) == Normalize(u, stripQuery)
            <==> u.opaquePath || !EndsInRepeatedSlash(u.path)
  {
    var r := Normalize(u, stripQuery);
    if u.opaquePath {
      StripTrailingSpacesIdempotent(u.path);
    } else {
      NormalizeCanonicalIff(u, stripQuery);
      if !EndsInRepeatedSlash(u.path) {
        NormalizeKeepsCanonical(r, stripQuery);
      } else {
        assert HasRemovableSlash(r.path);
        assert |Normalize(r, stripQuery).path| == |r.path| - 1;
      }
    }
  }

  /** Normalising the same URL with the query kept and then stripped is the
      same as stripping it at once. */
  lemma NormalizeThenStrip(u: Url)
    requires u.opaquePath || !EndsInRepeatedSlash(u.path)
    ensures Normalize(Normalize(u, false), true) == Normalize(u, true)
  {
    if u.opaquePath {
      StripTrailingSpacesIdempotent(u.path);
    } else {
      NormalizeCanonicalIff(u, false);
      NormalizeKeepsCanonical(Normalize(u, false), true);
    }
  }

  // ---------------------------------------------------------------------------
  // resolveAndNormalizeUrl

  /** `resolveAndNormalizeUrl(base, href, {stripQuery})`: null for a skippable
      href or one that does not resolve against the base, otherwise the
      normalised resolution. */
  function ResolveAndNormalizeUrl(c: UrlCodec, base: Url, href: string, stripQuery: bool): (r: Option<Url>)
    ensures r.None? <==> IsSkippableHref(href) || c.resolve(href, base).None?
    ensures r.Some? ==> r.value == Normalize(c.resolve(href, base).value, stripQuery)
    ensures r.Some? ==> r.value.fragment.None? && (stripQuery ==> r.value.query.None?)
  {
    if IsSkippableHref(href) then None
    else
      match c.resolve(href, base)
      case None => None
      case Some(resolved) => Some(Normalize(resolved, stripQuery))
  }

  // ---------------------------------------------------------------------------
  // isInternalUrl

  /** `isInternalUrl(base, candidate)`: the two URLs have the same origin. */
  predicate IsInternalUrl(c: UrlCodec, base: Url, candidate: Url) {
    OriginOf(c, base) == OriginOf(c, candidate)
  }

  /** Being internal is an equivalence relation on URLs. */
  lemma InternalIsEquivalence(c: UrlCodec, a: Url, b: Url, d: Url)
    ensures IsInternalUrl(c, a, a)
    ensures IsInternalUrl(c, a, b) == IsInternalUrl(c, b, a)
    ensures IsInternalUrl(c, a, b) && IsInternalUrl(c, b, d) ==> IsInternalUrl(c, a, d)
  {
  }

  /** For web URLs, being internal means the same scheme, host and port; a
      `blob:` URL is compared through the URL in its path. */
  lemma InternalMeansSameSchemeHostPort(c: UrlCodec, a: Url, b: Url)
    requires a.scheme in {"http", "https"}
    ensures b.scheme != "blob" ==>
              (IsInternalUrl(c, a, b) <==> a.scheme == b.scheme && a.host == b.host && a.port == b.port)
    ensures b.scheme == "blob" ==>
              (IsInternalUrl(c, a, b) <==> c.parse(b.path).Some? && var inner := c.parse(b.path).value;
                                         a.scheme == inner.scheme && a.host == inner.host && a.port == inner.port)
  {
  }

  /** A `blob:` URL wrapping a web URL shares that URL's origin, so it is
      internal to the pages of that site. */
  lemma BlobSharesInnerOrigin(c: UrlCodec, b: Url)
    requires b.scheme == "blob" && c.parse(b.path).Some? && c.parse(b.path).value.scheme in {"http", "https"}
    ensures OriginOf(c, b) == OriginOf(c, c.parse(b.path).value)
    ensures OriginOf(c, b).TupleOrigin?
  {
  }

  // ---------------------------------------------------------------------------
  // slugFromUrl

  predicate IsSeparatorChar(ch: char) {
    ch == '-' || ch == '_'
  }

  /** `s.replace(/[-_]+/g, " ")`: every run of dashes and underscores becomes one space. */
  function CollapseSeparatorRuns(s: string): string
    decreases |s|
  {
    if s == [] then []
    else if IsSeparatorChar(s[0]) then " " + CollapseSeparatorRuns(DropSeparators(s[1..]))
    else [s[0]] + CollapseSeparatorRuns(s[1..])
  }

  /** `s` without its leading run of dashes and underscores. */
  function DropSeparators(s: string): (r: string)
    ensures |r| <= |s| && r == s[|s| - |r|..]
    ensures r == [] || !IsSeparatorChar(r[0])
    decreases |s|
  {
    if s != [] && IsSeparatorChar(s[0]) then DropSeparators(s[1..]) else s
  }

  /** Dropping the separators in front of a separator run and a text that does
      not start with one leaves that text. */
  lemma {:induction false} DropSeparatorRun(run: string, rest: string)
    requires forall k :: 0 <= k < |run| ==> IsSeparatorChar(run[k])
    requires rest == [] || !IsSeparatorChar(rest[0])
    ensures DropSeparators(run + rest) == rest
    decreases |run|
  {
    if run != [] {
      assert (run + rest)[1..] == run[1..] + rest;
      DropSeparatorRun(run[1..], rest);
    } else {
      assert run + rest == rest;
    }
  }

  /** Text that ends in a character other than a separator is collapsed on its
      own: the runs after it are not affected by it. */
  lemma {:induction false} CollapseConcat(a: string, b: string)
    requires a == [] || !IsSeparatorChar(a[|a| - 1])
    ensures CollapseSeparatorRuns(a + b) == CollapseSeparatorRuns(a) + CollapseSeparatorRuns(b)
    decreases |a|, 1
  {
    if a == [] {
      assert a + b == b;
    } else if IsSeparatorChar(a[0]) {
      CollapseConcatRun(a, b);
    } else {
      assert (a + b)[0] == a[0] && (a + b)[1..] == a[1..] + b;
      calc {
        CollapseSeparatorRuns(a + b);
        [a[0]] + CollapseSeparatorRuns(a[1..] + b);
        { CollapseConcat(a[1..], b); }
        ([a[0]] + CollapseSeparatorRuns(a[1..])) + CollapseSeparatorRuns(b);
        CollapseSeparatorRuns(a) + CollapseSeparatorRuns(b);
      }
    }
  }

  /** `CollapseConcat` for text that starts with a separator run. */
  lemma {:induction false} CollapseConcatRun(a: string, b: string)
    requires a != [] && IsSeparatorChar(a[0]) && !IsSeparatorChar(a[|a| - 1])
    ensures CollapseSeparatorRuns(a + b) == CollapseSeparatorRuns(a) + CollapseSeparatorRuns(b)
    decreases |a|, 0
  {
    var t := DropSeparators(a);
    var run := a[..|a| - |t|];
    SplitSeparatorRun(a);
    assert a + b == run + (t + b);
    calc {
      CollapseSeparatorRuns(a + b);
      { CollapseRunFirst(run, t + b); }
      " " + CollapseSeparatorRuns(t + b);
      { CollapseConcat(t, b); }
      (" " + CollapseSeparatorRuns(t)) + CollapseSeparatorRuns(b);
      { CollapseRunFirst(run, t); }
      CollapseSeparatorRuns(a) + CollapseSeparatorRuns(b);
    }
  }

  /** Text that starts with a separator and ends in another character is a
      separator run followed by the text `DropSeparators` leaves, which keeps
      the last character. */
  lemma SplitSeparatorRun(a: string)
    requires a != [] && IsSeparatorChar(a[0]) && !IsSeparatorChar(a[|a| - 1])
    ensures var t := DropSeparators(a);
      t != [] && t[|t| - 1] == a[|a| - 1] && |t| < |a| && a == a[..|a| - |t|] + t &&
      forall k :: 0 <= k < |a| - |t| ==> IsSeparatorChar(a[k])
  {
    var t := DropSeparators(a);
    DropSeparatorsPrefix(a);
    DropSeparatorsNonEmpty(a);
    assert a == a[..|a| - |t|] + t;
  }

  /** `DropSeparators` stops at the last character when that is not a separator. */
  lemma {:induction false} DropSeparatorsNonEmpty(s: string)
    requires s != [] && !IsSeparatorChar(s[|s| - 1])
    ensures DropSeparators(s) != []
    decreases |s|
  {
    if IsSeparatorChar(s[0]) {
      assert s[1..][|s| - 2] == s[|s| - 1];
      DropSeparatorsNonEmpty(s[1..]);
    }
  }

  /** The characters `DropSeparators` removes are separators. */
  lemma {:induction false} DropSeparatorsPrefix(s: string)
    ensures forall k :: 0 <= k < |s| - |DropSeparators(s)| ==> IsSeparatorChar(s[k])
    decreases |s|
  {
    if s != [] && IsSeparatorChar(s[0]) {
      DropSeparatorsPrefix(s[1..]);
    }
  }

  /** A maximal run of dashes and underscores between two other characters
      becomes exactly one space, and the text on either side is collapsed on its
      own. */
  lemma {:induction false} SeparatorRunBecomesSpace(a: string, run: string, b: string)
    requires a == [] || !IsSeparatorChar(a[|a| - 1])
    requires run != [] && forall k :: 0 <= k < |run| ==> IsSeparatorChar(run[k])
    requires b == [] || !IsSeparatorChar(b[0])
    ensures CollapseSeparatorRuns(a + run + b) == CollapseSeparatorRuns(a) + " " + CollapseSeparatorRuns(b)
  {
    CollapseConcat(a, run + b);
    assert a + run + b == a + (run + b);
    CollapseRunFirst(run, b);
  }

  lemma {:induction false} CollapseRunFirst(run: string, b: string)
    requires run != [] && forall k :: 0 <= k < |run| ==> IsSeparatorChar(run[k])
    requires b == [] || !IsSeparatorChar(b[0])
    ensures CollapseSeparatorRuns(run + b) == " " + CollapseSeparatorRuns(b)
  {
    var s := run + b;
    assert s[0] == run[0] && s[1..] == run[1..] + b;
    DropSeparatorRun(run[1..], b);
    assert CollapseSeparatorRuns(s) == " " + CollapseSeparatorRuns(DropSeparators(s[1..]));
  }

  /** Text without dashes or underscores is left as it is. */
  lemma {:induction false} CollapseWithoutSeparators(s: string)
    requires forall k :: 0 <= k < |s| ==> !IsSeparatorChar(s[k])
    ensures CollapseSeparatorRuns(s) == s
    decreases |s|
  {
    if s != [] {
      CollapseWithoutSeparators(s[1..]);
      assert s == [s[0]] + s[1..];
    }
  }

  /** A segment without dashes, underscores or surrounding whitespace is its
      own slug. */
  lemma PlainSegmentIsOwnSlug(segment: string)
    requires forall k :: 0 <= k < |segment| ==> !IsSeparatorChar(segment[k])
    requires segment == [] || (!IsWhitespace(segment[0]) && !IsWhitespace(segment[|segment| - 1]))
    ensures SegmentSlug(segment) == segment
  {
    CollapseWithoutSeparators(segment);
    TrimOfUnpadded(segment);
  }

  /** The non-empty segments of a URL's path. */
  function PathSegments(u: Url): seq<string> {
    NonEmptySegments(u.path, '/')
  }

  /** A path segment turned into title words: separator runs become one space,
      surrounding white space is trimmed. */
  function SegmentSlug(segment: string): (r: string)
    ensures |r| <= |segment|
    ensures forall ch :: ch in r ==> !IsSeparatorChar(ch) && (ch in segment || ch == ' ')
  {
    CollapseKeepsChars(segment);
    Trim(CollapseSeparatorRuns(segment))
  }

  /** `slugFromUrl(url)`: the slug of the last non-empty path segment, or the host
      name when that slug is empty or the path has no segment. */
  function SlugFromUrl(u: Url): (r: string)
    ensures PathSegments(u) == [] ==> r == u.host
    ensures PathSegments(u) != [] ==>
              var slug := SegmentSlug(PathSegments(u)[|PathSegments(u)| - 1]);
              r == if slug == [] then u.host else slug
    ensures r != u.host ==> forall ch :: ch in r ==> !IsSeparatorChar(ch) && ch != '/'
    ensures r == [] ==> u.host == []
  {
    var segments := PathSegments(u);
    if segments == [] then u.host
    else
      var slug := SegmentSlug(segments[|segments| - 1]);
      if slug == [] then u.host else slug
  }

  /** The collapsed text is no longer than the input, and holds no separator:
      only characters of the input and spaces. */
  lemma {:induction false} CollapseKeepsChars(s: string)
    ensures |CollapseSeparatorRuns(s)| <= |s|
    ensures forall ch :: ch in CollapseSeparatorRuns(s) ==> !IsSeparatorChar(ch) && (ch in s || ch == ' ')
    decreases |s|
  {
    if s != [] {
      if IsSeparatorChar(s[0]) {
        var d := DropSeparators(s[1..]);
        CollapseKeepsChars(d);
        assert forall ch :: ch in d ==> ch in s[1..];
      } else {
        CollapseKeepsChars(s[1..]);
      }
    }
  }

  // ---------------------------------------------------------------------------
  // sanitizePathSegment, domainFolderForUrl, outputPathForUrl

  /** The characters `/[<>:"/\\|?*\x00-\x1F]/` matches. */
  predicate IsUnsafePathChar(ch: char) {
    ch in "<>:\"/\\|?*" || ch < ' '
  }

  /** `sanitizePathSegment(value)`: every unsafe character becomes '-'. */
  function SanitizePathSegment(s: string): (r: string)
    ensures |r| == |s|
    ensures forall i :: 0 <= i < |r| ==> !IsUnsafePathChar(r[i])
    ensures forall i :: 0 <= i < |s| && !IsUnsafePathChar(s[i]) ==> r[i] == s[i]
    ensures forall i :: 0 <= i < |s| && IsUnsafePathChar(s[i]) ==> r[i] == '-'
  {
    seq(|s|, i requires 0 <= i < |s| => if IsUnsafePathChar(s[i]) then '-' else s[i])
  }

  /** `s` ends in an extension that starts at index `k`: a dot followed by at
      least one character that is neither a dot nor a slash, up to the end. */
  predicate HasExtensionAt(s: string, k: int) {
    0 <= k < |s| - 1 && s[k] == '.' && forall i :: k < i < |s| ==> s[i] != '.' && s[i] != '/'
  }

  /** `segment.replace(/\.[^/.]+$/, "")`: drop a final extension. */
  function StripExtension(s: string): (r: string)
    ensures StartsWith(s, r)
    ensures r != s ==> HasExtensionAt(s, |r|)
    ensures r == s ==> forall k :: !HasExtensionAt(s, k)
  {
    match LastIndexOf(s, '.')
    case None => s
    case Some(k) =>
      if k < |s| - 1 && '/' !in s[k + 1..] then
        assert forall i :: k < i < |s| ==> s[i] == s[k + 1..][i - k - 1];
        s[..k]
      else
        assert forall j :: k < j < |s| ==> s[j] != '.' by {
          forall j | k < j < |s| ensures s[j] != '.' { assert s[j] == s[k + 1..][j - k - 1]; }
        }
        assert !HasExtensionAt(s, k) by {
          if k < |s| - 1 {
            var i :| 0 <= i < |s[k + 1..]| && s[k + 1..][i] == '/';
            assert s[k + 1 + i] == '/';
          }
        }
        assert forall j :: !HasExtensionAt(s, j) by {
          forall j ensures !HasExtensionAt(s, j) {
            if 0 <= j < k { assert s[k] == '.'; }
          }
        }
        s
  }

  lemma SanitizedHasNoSlash(s: string)
    ensures '/' !in SanitizePathSegment(s)
  {
    var r := SanitizePathSegment(s);
    assert IsUnsafePathChar('/');
    assert forall j :: 0 <= j < |r| ==> r[j] != '/';
  }

  /** `domainFolderForUrl(url)`. */
  function DomainFolderForUrl(u: Url): (r: string)
    ensures |r| == |u.host| && forall i :: 0 <= i < |r| ==> !IsUnsafePathChar(r[i])
  {
    SanitizePathSegment(u.host)
  }

  /** The components `outputPathForUrl` joins with '/': the host folder, one
      extension-stripped sanitised entry per non-empty path segment, "index.md". */
  function OutputComponents(u: Url): (parts: seq<string>)
    ensures |parts| == |PathSegments(u)| + 2
    ensures parts[0] == DomainFolderForUrl(u) && parts[|parts| - 1] == "index.md"
    ensures forall k :: 0 <= k < |parts| ==> '/' !in parts[k]
  {
    var segs := PathSegments(u);
    var middle := seq(|segs|, i requires 0 <= i < |segs| => SanitizePathSegment(StripExtension(segs[i])));
    forall i | 0 <= i < |segs| ensures '/' !in middle[i] {
      SanitizedHasNoSlash(StripExtension(segs[i]));
    }
    SanitizedHasNoSlash(u.host);
    [DomainFolderForUrl(u)] + middle + ["index.md"]
  }

  /** `outputPathForUrl(url)`. */
  function OutputPathForUrl(u: Url): (r: string)
    ensures StartsWith(r, DomainFolderForUrl(u) + "/")
    ensures EndsWith(r, "/index.md")
  {
    var parts := OutputComponents(u);
    JoinEnds(parts);
    Join(parts, "/")
  }

  lemma {:induction false} JoinEnds(parts: seq<string>)
    requires |parts| >= 2
    ensures StartsWith(Join(parts, "/"), parts[0] + "/")
    ensures EndsWith(Join(parts, "/"), "/" + parts[|parts| - 1])
    decreases |parts|
  {
    if |parts| > 2 {
      JoinEnds(parts[1..]);
    }
  }

  /** Two URLs get the same output file exactly when their component lists agree:
      the join itself never merges two paths. */
  lemma OutputPathCollisionIff(u: Url, v: Url)
    ensures OutputPathForUrl(u) == OutputPathForUrl(v) <==> OutputComponents(u) == OutputComponents(v)
  {
    JoinInjective(OutputComponents(u), OutputComponents(v), '/');
  }

  /** The output file depends on the host name and the path only. */
  lemma OutputPathIgnoresSchemePortQuery(u: Url, v: Url)
    requires u.host == v.host && u.path == v.path
    ensures OutputPathForUrl(u) == OutputPathForUrl(v)
  {
  }

  lemma {:induction false} SegmentsOfSlashName(name: string)
    requires name != [] && '/' !in name
    ensures NonEmptySegments("/" + name, '/') == [name]
  {
    var s := "/" + name;
    assert IndexOf(s, '/') == Some(0);
    assert s[1..] == name;
  }

  lemma {:induction false} SegmentsIgnoreTrailingSlash(p: string)
    ensures NonEmptySegments(p + "/", '/') == NonEmptySegments(p, '/')
    decreases |p|
  {
    var s := p + "/";
    match IndexOf(p, '/')
    case None =>
      assert IndexOf(s, '/') == Some(|p|);
      assert s[..|p|] == p;
      assert s[|p| + 1..] == [];
    case Some(i) =>
      assert s[..i] == p[..i];
      IndexOfFirst(s, '/', i);
      assert s[i + 1..] == p[i + 1..] + "/";
      SegmentsIgnoreTrailingSlash(p[i + 1..]);
  }

  /** "/about/" and "/about" are written to the same file. */
  lemma TrailingSlashSharesOutputPath(u: Url)
    ensures OutputPathForUrl(u.(path := u.path + "/")) == OutputPathForUrl(u)
  {
    SegmentsIgnoreTrailingSlash(u.path);
  }

  /** "/a" and "/a.html" are written to the same file: stripping the extension
      makes the output path collide for URLs that differ in their path. */
  lemma ExtensionSharesOutputPath(u: Url, name: string, ext: string)
    requires name != [] && '.' !in name && '/' !in name
    requires ext != [] && '.' !in ext && '/' !in ext
    ensures OutputPathForUrl(u.(path := "/" + name)) == OutputPathForUrl(u.(path := "/" + name + "." + ext))
  {
    var file := name + "." + ext;
    var u1 := u.(path := "/" + name);
    var u2 := u.(path := "/" + file);
    assert "/" + name + "." + ext == "/" + file;
    SegmentsOfSlashName(name);
    SegmentsOfSlashName(file);
    StripExtensionOfFile(name, ext);
    StripExtensionWithoutDot(name);
    OneSegmentComponents(u1, name);
    OneSegmentComponents(u2, file);
    assert OutputComponents(u1) == OutputComponents(u2);
  }

  lemma OneSegmentComponents(u: Url, seg: string)
    requires PathSegments(u) == [seg]
    ensures OutputComponents(u) == [SanitizePathSegment(u.host), SanitizePathSegment(StripExtension(seg)), "index.md"]
  {
  }

  lemma StripExtensionWithoutDot(name: string)
    requires '.' !in name
    ensures StripExtension(name) == name
  {
  }

  lemma StripExtensionOfFile(name: string, ext: string)
    requires '.' !in ext && '/' !in ext && ext != []
    ensures StripExtension(name + "." + ext) == name
  {
    var file := name + "." + ext;
    assert file[|name| + 1..] == ext;
    assert file[|name|] == '.';
    assert LastIndexOf(file, '.') == Some(|name|);
    assert file[..|name|] == name;
  }
}
