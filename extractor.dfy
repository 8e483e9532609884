/** The extraction arbiter (src/core/extractor.ts): which of the two markdown
    candidates a page keeps, and the title and markdown it returns.

    Readability, jsdom, the fallback element choice and the HTML-to-markdown
    conversion are outside the model: their results (the Readability title,
    the document title and the two markdown candidates) are inputs. */
module Extractor {
  import opened Wrappers
  import opened Text

  // ---------------------------------------------------------------------------
  // contentSignalLength

  predicate FenceAt(s: string, i: int) {
    0 <= i && i + 3 <= |s| && s[i] == '`' && s[i + 1] == '`' && s[i + 2] == '`'
  }

  /** The first "```" at or after `from`. */
  function NextFence(s: string, from: nat): (r: Option<nat>)
    ensures r.Some? ==> from <= r.value && FenceAt(s, r.value)
    decreases |s| - from
  {
    if from + 3 > |s| then None
    else if FenceAt(s, from) then Some(from)
    else NextFence(s, from + 1)
  }

  /** The first `ch` at or after `from`. */
  function NextChar(s: string, ch: char, from: nat): (r: Option<nat>)
    ensures r.Some? ==> from <= r.value < |s| && s[r.value] == ch
    decreases |s| - from
  {
    if from >= |s| then None
    else if s[from] == ch then Some(from)
    else NextChar(s, ch, from + 1)
  }

  /** `.replace(/```[\s\S]*?```/g, " ")` on `s[i..]`: a fence and everything up
      to the first closing fence become one space; an unclosed fence stays. */
  function StripFences(s: string, i: nat): (r: string)
    requires i <= |s|
    ensures |r| <= |s| - i
    decreases |s| - i
  {
    if i == |s| then []
    else if FenceAt(s, i) && NextFence(s, i + 3).Some? then " " + StripFences(s, NextFence(s, i + 3).value + 3)
    else [s[i]] + StripFences(s, i + 1)
  }

  /** `.replace(/`[^`]*`/g, " ")` on `s[i..]`: a backtick and everything up to
      the next backtick become one space. */
  function StripInlineCode(s: string, i: nat): (r: string)
    requires i <= |s|
    ensures |r| <= |s| - i
    decreases |s| - i
  {
    if i == |s| then []
    else if s[i] == '`' && NextChar(s, '`', i + 1).Some? then " " + StripInlineCode(s, NextChar(s, '`', i + 1).value + 1)
    else [s[i]] + StripInlineCode(s, i + 1)
  }

  /** Where a `[text](target)` that starts at `i` ends: `text` runs to the
      first `]`, which must be followed by `(`, and `target` runs to the first
      `)` after that. */
  function LinkEnd(s: string, i: nat): (r: Option<nat>)
    ensures r.Some? ==> i + 4 <= r.value <= |s|
  {
    if i < |s| && s[i] == '[' then
      match NextChar(s, ']', i + 1)
      case None => None
      case Some(j) =>
        if j + 1 < |s| && s[j + 1] == '(' then
          match NextChar(s, ')', j + 2)
          case None => None
          case Some(k) => Some(k + 1)
        else None
    else None
  }

  /** `.replace(/!\[[^\]]*]\([^)]*\)/g, " ")` on `s[i..]`: images become one space. */
  function StripImages(s: string, i: nat): (r: string)
    requires i <= |s|
    ensures |r| <= |s| - i
    decreases |s| - i
  {
    if i == |s| then []
    else if s[i] == '!' && LinkEnd(s, i + 1).Some? then " " + StripImages(s, LinkEnd(s, i + 1).value)
    else [s[i]] + StripImages(s, i + 1)
  }

  /** `.replace(/\[[^\]]*]\([^)]*\)/g, " ")` on `s[i..]`: links become one space. */
  function StripLinks(s: string, i: nat): (r: string)
    requires i <= |s|
    ensures |r| <= |s| - i
    decreases |s| - i
  {
    if i == |s| then []
    else if LinkEnd(s, i).Some? then " " + StripLinks(s, LinkEnd(s, i).value)
    else [s[i]] + StripLinks(s, i + 1)
  }

  /** The characters `.replace(/[#>*_\-\n\r]/g, " ")` blanks out. */
  predicate IsMarkupChar(ch: char) {
    ch == '#' || ch == '>' || ch == '*' || ch == '_' || ch == '-' || ch == '\n' || ch == '\r'
  }

  function MaskMarkup(s: string): (r: string)
    ensures |r| == |s|
    ensures forall ch :: ch in r ==> !IsMarkupChar(ch)
    ensures forall i :: 0 <= i < |s| ==> r[i] == if IsMarkupChar(s[i]) then ' ' else s[i]
  {
    seq(|s|, i requires 0 <= i < |s| => if IsMarkupChar(s[i]) then ' ' else s[i])
  }

  /** `s` without its leading white space. */
  function SkipWhitespace(s: string): (r: string)
    ensures |r| <= |s| && r == s[|s| - |r|..]
    ensures r == [] || !IsWhitespace(r[0])
    decreases |s|
  {
    if s != [] && IsWhitespace(s[0]) then SkipWhitespace(s[1..]) else s
  }

  /** `.replace(/\s+/g, " ")`: every run of white space becomes one space. */
  function CollapseWhitespace(s: string): (r: string)
    ensures |r| <= |s|
    ensures s != [] && !IsWhitespace(s[0]) ==> r != [] && r[0] == s[0]
    decreases |s|
  {
    if s == [] then []
    else if IsWhitespace(s[0]) then " " + CollapseWhitespace(SkipWhitespace(s[1..]))
    else [s[0]] + CollapseWhitespace(s[1..])
  }

  /** The text `contentSignalLength` measures. */
  function SignalText(markdown: string): (r: string)
    ensures |r| <= |markdown|
  {
    var noCode := StripInlineCode(StripFences(markdown, 0), 0);
    var noLinks := StripLinks(StripImages(noCode, 0), 0);
    Trim(CollapseWhitespace(MaskMarkup(noLinks)))
  }

  /** `contentSignalLength(markdown)`: the `length` of the measured text, in
      UTF-16 code units. */
  function ContentSignalLength(markdown: string): nat {
    Utf16Length(SignalText(markdown))
  }

  /** No markup character, and every white-space character a plain space. */
  predicate SpacesOnly(t: string) {
    forall i :: 0 <= i < |t| ==> !IsMarkupChar(t[i]) && (IsWhitespace(t[i]) ==> t[i] == ' ')
  }

  /** No two white-space characters side by side. */
  predicate NoDoubleSpace(t: string) {
    forall i :: 0 <= i < |t| - 1 ==> !(IsWhitespace(t[i]) && IsWhitespace(t[i + 1]))
  }

  /** The shape of a measured text: no markup character, every white-space
      character a plain space, no two of them adjacent, none at either end. */
  predicate IsSignalForm(t: string) {
    SpacesOnly(t) && NoDoubleSpace(t) && (t == [] || (!IsWhitespace(t[0]) && !IsWhitespace(t[|t| - 1])))
  }

  predicate NoMarkup(s: string) {
    forall i :: 0 <= i < |s| ==> !IsMarkupChar(s[i])
  }

  lemma NoMarkupSuffix(s: string, k: nat)
    requires NoMarkup(s) && k <= |s|
    ensures NoMarkup(s[k..])
  {
    assert forall i :: 0 <= i < |s| - k ==> s[k..][i] == s[k + i];
  }

  lemma ConsKeepsSpaces(c: char, rest: string)
    requires c == ' ' || (!IsWhitespace(c) && !IsMarkupChar(c))
    requires SpacesOnly(rest)
    ensures SpacesOnly([c] + rest)
  {
    assert forall i :: 0 < i < |rest| + 1 ==> ([c] + rest)[i] == rest[i - 1];
  }

  /** Collapsing white space in a text without markup leaves plain spaces and
      the other characters. */
  lemma {:induction false} CollapseSpaces(s: string)
    requires NoMarkup(s)
    ensures SpacesOnly(CollapseWhitespace(s))
    decreases |s|
  {
    if s != [] {
      NoMarkupSuffix(s, 1);
      if IsWhitespace(s[0]) {
        var t := SkipWhitespace(s[1..]);
        NoMarkupSuffix(s[1..], |s[1..]| - |t|);
        CollapseSpaces(t);
        ConsKeepsSpaces(' ', CollapseWhitespace(t));
      } else {
        CollapseSpaces(s[1..]);
        ConsKeepsSpaces(s[0], CollapseWhitespace(s[1..]));
      }
    }
  }

  lemma {:induction false} CollapseSingle(s: string)
    ensures NoDoubleSpace(CollapseWhitespace(s))
    decreases |s|
  {
    if s != [] {
      var r := CollapseWhitespace(s);
      if IsWhitespace(s[0]) {
        var t := SkipWhitespace(s[1..]);
        CollapseSingle(t);
        var rest := CollapseWhitespace(t);
        assert forall i :: 0 < i < |r| ==> r[i] == rest[i - 1];
      } else {
        CollapseSingle(s[1..]);
        var rest := CollapseWhitespace(s[1..]);
        assert forall i :: 0 < i < |r| ==> r[i] == rest[i - 1];
      }
    }
  }

  lemma InfixKeepsForm(t: string, a: nat, b: nat)
    requires a <= b <= |t| && SpacesOnly(t) && NoDoubleSpace(t)
    ensures SpacesOnly(t[a..b]) && NoDoubleSpace(t[a..b])
  {
    assert forall i :: 0 <= i < b - a ==> t[a..b][i] == t[a + i];
  }

  /** The measured text never counts a markup character, never counts two
      spaces in a row, and never counts leading or trailing space; the count
      is at least the number of characters measured and at most twice the
      markdown's length, and equals the number of characters measured when
      none lies outside the Basic Multilingual Plane. */
  lemma SignalTextForm(markdown: string)
    ensures IsSignalForm(SignalText(markdown))
    ensures |SignalText(markdown)| <= ContentSignalLength(markdown) <= 2 * |markdown|
    ensures (forall i :: 0 <= i < |SignalText(markdown)| ==> SignalText(markdown)[i] as int < 0x1_0000) ==>
              ContentSignalLength(markdown) == |SignalText(markdown)|
  {
    Utf16LengthBounds(SignalText(markdown));
    var noCode := StripInlineCode(StripFences(markdown, 0), 0);
    var noLinks := StripLinks(StripImages(noCode, 0), 0);
    var masked := MaskMarkup(noLinks);
    var collapsed := CollapseWhitespace(masked);
    CollapseSpaces(masked);
    CollapseSingle(masked);
    var a, b := TrimIsInfix(collapsed);
    InfixKeepsForm(collapsed, a, b);
  }

  // ---------------------------------------------------------------------------
  // isLikelyTableOfContents

  /** A `](#` at `i`. */
  predicate AnchorLinkAt(s: string, i: int) {
    0 <= i && i + 3 <= |s| && s[i] == ']' && s[i + 1] == '(' && s[i + 2] == '#'
  }

  /** The matches of `/\]\(#/g` in `s[i..]`; two of them never overlap, so
      they are the positions where one starts. */
  function AnchorLinkCount(s: string, i: nat): nat
    decreases |s| - i
  {
    if i >= |s| then 0 else (if AnchorLinkAt(s, i) then 1 else 0) + AnchorLinkCount(s, i + 1)
  }

  /** Three characters per `](#`: a match takes three characters of its own. */
  lemma {:induction false} AnchorLinkCountBound(s: string, i: nat)
    requires i <= |s|
    ensures 3 * AnchorLinkCount(s, i) <= |s| - i
    decreases |s| - i
  {
    if i < |s| {
      if AnchorLinkAt(s, i) {
        AnchorLinkCountBound(s, i + 3);
        assert !AnchorLinkAt(s, i + 1) && !AnchorLinkAt(s, i + 2);
        assert AnchorLinkCount(s, i + 1) == AnchorLinkCount(s, i + 2) == AnchorLinkCount(s, i + 3);
      } else {
        AnchorLinkCountBound(s, i + 1);
      }
    }
  }

  /** A line starts at `i` (the `m` flag's `^`). */
  predicate LineStart(s: string, i: int) {
    i == 0 || (0 < i <= |s| && (s[i - 1] == '\n' || s[i - 1] == '\r' || s[i - 1] == '\U{2028}' || s[i - 1] == '\U{2029}'))
  }

  /** The number of `#` from `i` on. */
  function Hashes(s: string, i: nat): (n: nat)
    ensures i + n <= |s| || (i > |s| && n == 0)
    ensures forall k :: i <= k < i + n ==> s[k] == '#'
    ensures i + n < |s| ==> s[i + n] != '#'
    decreases |s| - i
  {
    if i < |s| && s[i] == '#' then 1 + Hashes(s, i + 1) else 0
  }

  /** `/^#{1,6}\s+/` matches at `i`: a line starts there with one to six `#`
      and then white space (seven `#` leave a `#` where white space must be). */
  predicate HeadingAt(s: string, i: nat) {
    var n := if Hashes(s, i) > 6 then 6 else Hashes(s, i);
    LineStart(s, i) && n >= 1 && i + n < |s| && IsWhitespace(s[i + n])
  }

  /** The matches of `/^#{1,6}\s+/gm` in `s[i..]`. A match ends inside white
      space or at a visible character, and a heading starts with `#` at a line
      start, so no match hides another: the matches are the positions where one
      starts. */
  function HeadingCount(s: string, i: nat): nat
    decreases |s| - i
  {
    if i >= |s| then 0 else (if HeadingAt(s, i) then 1 else 0) + HeadingCount(s, i + 1)
  }

  /** `isLikelyTableOfContents(markdown)`. */
  predicate IsLikelyTableOfContents(markdown: string) {
    AnchorLinkCount(markdown, 0) >= 4 && HeadingCount(markdown, 0) <= 1
  }

  /** A table of contents needs four `](#`, so a text shorter than twelve
      characters is never one. */
  lemma ShortTextIsNotContents(markdown: string)
    requires |markdown| < 12
    ensures !IsLikelyTableOfContents(markdown)
  {
    AnchorLinkCountBound(markdown, 0);
  }

  /** The count is zero exactly when no heading starts from `i` on, and it
      never exceeds the number of positions. */
  lemma {:induction false} HeadingCountZeroIff(s: string, i: nat)
    ensures HeadingCount(s, i) == 0 <==> forall k :: i <= k < |s| ==> !HeadingAt(s, k)
    ensures i <= |s| ==> HeadingCount(s, i) <= |s| - i
    decreases |s| - i
  {
    if i < |s| {
      HeadingCountZeroIff(s, i + 1);
    }
  }

  /** A text in which no line starts with `#` has no heading. */
  lemma NoHashLineNoHeading(s: string)
    requires forall k :: 0 <= k < |s| && LineStart(s, k) ==> s[k] != '#'
    ensures HeadingCount(s, 0) == 0
  {
    HeadingCountZeroIff(s, 0);
  }

  /** Two headings at or after `i` count at least two. */
  lemma {:induction false} TwoHeadingsCount(s: string, i: nat, j: nat, k: nat)
    requires i <= j < k < |s| && HeadingAt(s, j) && HeadingAt(s, k)
    ensures HeadingCount(s, i) >= 2
    decreases |s| - i
  {
    if i < j {
      TwoHeadingsCount(s, i + 1, j, k);
    } else {
      HeadingCountZeroIff(s, i + 1);
    }
  }

  /** A markdown with two headings is never taken for a table of contents,
      however many `](#` links it has. */
  lemma TwoHeadingsAreNotContents(markdown: string, j: nat, k: nat)
    requires j < k < |markdown| && HeadingAt(markdown, j) && HeadingAt(markdown, k)
    ensures !IsLikelyTableOfContents(markdown)
  {
    TwoHeadingsCount(markdown, 0, j, k);
  }

  // ---------------------------------------------------------------------------
  // shouldUseFallbackExtraction

  /** The decision on the two signal lengths `r` (Readability) and `f`
      (fallback) and whether the Readability markdown looks like a table of
      contents. The multipliers 1.8 and 1.5 are compared exactly, as 5f > 9r
      and 2f > 3r. */
  function PreferFallback(r: nat, f: nat, toc: bool): (use: bool)
    ensures f < 400 ==> !use
    ensures f >= 400 && r == 0 ==> use
    ensures f >= 400 && r != 0 ==>
              (use <==> (f >= 900 && f as real > r as real * 1.8)
                        || (r < 450 && f > 1000)
                        || (toc && f as real > r as real * 1.5))
  {
    if f < 400 then false
    else if r == 0 && f > 0 then true
    else (f >= 900 && 5 * f > 9 * r) || (r < 450 && f > 1000) || (toc && 2 * f > 3 * r)
  }

  /** `shouldUseFallbackExtraction(readabilityMd, fallbackMd)`. */
  function ShouldUseFallbackExtraction(readabilityMd: string, fallbackMd: string): bool {
    PreferFallback(ContentSignalLength(readabilityMd), ContentSignalLength(fallbackMd), IsLikelyTableOfContents(readabilityMd))
  }

  /** A longer fallback never turns a yes into a no. */
  lemma PreferFallbackMonotone(r: nat, f1: nat, f2: nat, toc: bool)
    requires f1 <= f2 && PreferFallback(r, f1, toc)
    ensures PreferFallback(r, f2, toc)
  {
  }

  /** A shorter Readability text never turns a yes into a no, and neither does
      Readability looking like a table of contents. */
  lemma PreferFallbackAntitone(r1: nat, r2: nat, f: nat, toc1: bool, toc2: bool)
    requires r1 <= r2 && (toc2 ==> toc1) && PreferFallback(r2, f, toc2)
    ensures PreferFallback(r1, f, toc1)
  {
  }

  /** The cases the decision promises: a fallback with a signal below 400 is
      never chosen, one of at least 400 always is over an empty Readability
      text, and over a Readability text that looks like a table of contents
      any fallback with 1.5 times the signal and at least 400 is chosen. */
  lemma FallbackCases(readabilityMd: string, fallbackMd: string)
    ensures ContentSignalLength(fallbackMd) < 400 ==> !ShouldUseFallbackExtraction(readabilityMd, fallbackMd)
    ensures ContentSignalLength(fallbackMd) >= 400 && ContentSignalLength(readabilityMd) == 0 ==>
              ShouldUseFallbackExtraction(readabilityMd, fallbackMd)
    ensures var r := ContentSignalLength(readabilityMd);
            var f := ContentSignalLength(fallbackMd);
            f >= 400 && IsLikelyTableOfContents(readabilityMd) && 2 * f > 3 * r ==> ShouldUseFallbackExtraction(readabilityMd, fallbackMd)
  {
  }

  // ---------------------------------------------------------------------------
  // extractContentFromHtml: the title and the markdown

  datatype ExtractionResult = ExtractionResult(title: string, markdown: string)

  /** `parsed?.title?.trim() || fallbackDoc.title || pageUrl`. */
  function ChooseTitle(pageUrl: string, readabilityTitle: Option<string>, documentTitle: string): (title: string)
    ensures readabilityTitle.Some? && !IsBlank(readabilityTitle.value) ==> title == Trim(readabilityTitle.value)
    ensures (readabilityTitle.None? || IsBlank(readabilityTitle.value)) && documentTitle != "" ==> title == documentTitle
    ensures (readabilityTitle.None? || IsBlank(readabilityTitle.value)) && documentTitle == "" ==> title == pageUrl
    ensures pageUrl != "" ==> title != ""
  {
    if readabilityTitle.Some? && Trim(readabilityTitle.value) != "" then Trim(readabilityTitle.value)
    else if documentTitle != "" then documentTitle
    else pageUrl
  }

  /** The title and markdown `extractContentFromHtml` returns, from what
      Readability and the fallback produced. */
  function ExtractContent(pageUrl: string, readabilityTitle: Option<string>, documentTitle: string,
                          readabilityMd: string, fallbackMd: string): (r: ExtractionResult)
    ensures r.title == ChooseTitle(pageUrl, readabilityTitle, documentTitle)
    ensures var chosen := if ShouldUseFallbackExtraction(readabilityMd, fallbackMd) then fallbackMd else readabilityMd;
            && (IsBlank(chosen) ==> r.markdown == "# " + r.title + "\n\n_No readable content found._")
            && (!IsBlank(chosen) ==> r.markdown == "# " + r.title + "\n\n" + TrimEnd(chosen))
  {
    var title := ChooseTitle(pageUrl, readabilityTitle, documentTitle);
    var markdown := if ShouldUseFallbackExtraction(readabilityMd, fallbackMd) then fallbackMd else readabilityMd;
    if Trim(markdown) == "" then
      ExtractionResult(title, "# " + title + "\n\n_No readable content found._")
    else
      TrimOfVisibleConcat("# " + title + "\n\n", markdown);
      assert "# " + title + "\n\n" + markdown == ("# " + title + "\n\n") + markdown;
      ExtractionResult(title, Trim("# " + title + "\n\n" + markdown))
  }
}
