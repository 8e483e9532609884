/** The string operations of JavaScript that the crawler relies on: `trim`,
    ASCII `toLowerCase`, `startsWith`/`endsWith`/`includes`, `split` on a
    separator or on `/\r?\n/`, `join`, and a global literal `replace`. */
module Text {
  import opened Wrappers

  /** White space as `String.prototype.trim` and the regular-expression class
      `\s` see it: the WhiteSpace and LineTerminator code points of ECMAScript. */
  predicate IsWhitespace(ch: char) {
    || ch == ' ' || ch == '\t' || ch == '\n' || ch == '\r'
    || ch == '\U{000B}' || ch == '\U{000C}' || ch == '\U{00A0}' || ch == '\U{1680}'
    || ('\U{2000}' <= ch <= '\U{200A}')
    || ch == '\U{2028}' || ch == '\U{2029}' || ch == '\U{202F}' || ch == '\U{205F}'
    || ch == '\U{3000}' || ch == '\U{FEFF}'
  }

  /** A string made only of white space (the empty string included). */
  predicate IsBlank(s: string) {
    forall i :: 0 <= i < |s| ==> IsWhitespace(s[i])
  }

  // ---------------------------------------------------------------------------
  // Trimming

  /** The number of white-space characters `s` ends with. */
  function TrailingSpace(s: string): (n: nat)
    ensures n <= |s|
    ensures forall i :: |s| - n <= i < |s| ==> IsWhitespace(s[i])
    ensures n == |s| || !IsWhitespace(s[|s| - n - 1])
    decreases |s|
  {
    if s != [] && IsWhitespace(s[|s| - 1]) then 1 + TrailingSpace(s[..|s| - 1]) else 0
  }

  /** `s.trimEnd()`. */
  function TrimEnd(s: string): (r: string)
    ensures |r| <= |s| && r == s[..|r|]
    ensures r == [] || !IsWhitespace(r[|r| - 1])
  {
    s[..|s| - TrailingSpace(s)]
  }

  /** A visible character survives `TrimEnd`. */
  lemma TrimEndKeeps(s: string, i: int)
    requires 0 <= i < |s| && !IsWhitespace(s[i])
    ensures i < |TrimEnd(s)|
  {
  }

  /** `s.trim()`: the longest infix of `s` that neither starts nor ends with white space. */
  function Trim(s: string): (r: string)
    ensures |r| <= |s|
    ensures r == [] || (!IsWhitespace(r[0]) && !IsWhitespace(r[|r| - 1]))
    ensures r == [] <==> IsBlank(s)
    ensures forall ch :: ch in r ==> ch in s
    decreases |s|
  {
    if s != [] && IsWhitespace(s[0]) then
      assert forall i :: 0 <= i < |s| - 1 ==> s[1..][i] == s[i + 1];
      Trim(s[1..])
    else if s != [] && IsWhitespace(s[|s| - 1]) then
      assert forall i :: 0 <= i < |s| - 1 ==> s[..|s| - 1][i] == s[i];
      Trim(s[..|s| - 1])
    else s
  }

  /** `Trim` removes characters from the two ends only. */
  lemma {:induction false} TrimIsInfix(s: string) returns (a: nat, b: nat)
    ensures a <= b <= |s| && Trim(s) == s[a..b]
    decreases |s|
  {
    if s != [] && IsWhitespace(s[0]) {
      var a1, b1 := TrimIsInfix(s[1..]);
      a, b := a1 + 1, b1 + 1;
      assert s[1..][a1..b1] == s[a..b];
    } else if s != [] && IsWhitespace(s[|s| - 1]) {
      a, b := TrimIsInfix(s[..|s| - 1]);
      assert s[..|s| - 1][a..b] == s[a..b];
    } else {
      a, b := 0, |s|;
    }
  }

  lemma TrimOfUnpadded(s: string)
    requires s == [] || (!IsWhitespace(s[0]) && !IsWhitespace(s[|s| - 1]))
    ensures Trim(s) == s
  {
  }

  lemma TrimIdempotent(s: string)
    ensures Trim(Trim(s)) == Trim(s)
  {
    TrimOfUnpadded(Trim(s));
  }

  /** A string that starts with a visible character only loses white space at its end. */
  lemma {:induction false} TrimOfVisibleStart(s: string)
    requires s != [] && !IsWhitespace(s[0])
    ensures Trim(s) == TrimEnd(s)
    decreases |s|
  {
    if IsWhitespace(s[|s| - 1]) {
      var s' := s[..|s| - 1];
      TrimOfVisibleStart(s');
      assert s'[..|s'| - TrailingSpace(s')] == s[..|s| - TrailingSpace(s)];
    }
  }

  /** Trimming keeps a prefix that starts and ends with a visible character. */
  lemma TrimKeepsVisiblePrefix(s: string, n: nat)
    requires 0 < n <= |s| && !IsWhitespace(s[0]) && !IsWhitespace(s[n - 1])
    ensures n <= |Trim(s)| && Trim(s)[..n] == s[..n]
  {
    TrimOfVisibleStart(s);
    TrimEndKeeps(s, n - 1);
  }

  /** The white space at the end of `a + b` is that of `b` when `b` holds a
      visible character. */
  lemma {:induction false} TrailingSpaceConcat(a: string, b: string)
    requires !IsBlank(b)
    ensures TrailingSpace(a + b) == TrailingSpace(b)
    decreases |b|
  {
    var s := a + b;
    if IsWhitespace(b[|b| - 1]) {
      var b' := b[..|b| - 1];
      assert !IsBlank(b') by {
        var i :| 0 <= i < |b| && !IsWhitespace(b[i]);
        assert i < |b| - 1 && b'[i] == b[i];
      }
      assert s[..|s| - 1] == a + b';
      TrailingSpaceConcat(a, b');
    }
  }

  /** Trimming `a + b` when `a` starts with a visible character and `b` holds one:
      only the white space at the end of `b` goes. */
  lemma TrimOfVisibleConcat(a: string, b: string)
    requires a != [] && !IsWhitespace(a[0])
    requires !IsBlank(b)
    ensures Trim(a + b) == a + TrimEnd(b)
  {
    var s := a + b;
    TrimOfVisibleStart(s);
    TrailingSpaceConcat(a, b);
    assert s[..|s| - TrailingSpace(b)] == a + b[..|b| - TrailingSpace(b)];
  }

  // ---------------------------------------------------------------------------
  // Length

  /** `s.length`: JavaScript counts UTF-16 code units, two for a character
      outside the Basic Multilingual Plane (a surrogate pair). */
  function Utf16Length(s: string): nat
    decreases |s|
  {
    if s == [] then 0 else (if s[0] as int >= 0x1_0000 then 2 else 1) + Utf16Length(s[1..])
  }

  /** Each character is one or two code units, and the count equals the
      number of characters exactly when none lies outside the Basic
      Multilingual Plane. */
  lemma {:induction false} Utf16LengthBounds(s: string)
    ensures |s| <= Utf16Length(s) <= 2 * |s|
    ensures Utf16Length(s) == |s| <==> forall i :: 0 <= i < |s| ==> s[i] as int < 0x1_0000
    decreases |s|
  {
    if s != [] {
      Utf16LengthBounds(s[1..]);
      assert forall i :: 1 <= i < |s| ==> s[i] == s[1..][i - 1];
    }
  }

  // ---------------------------------------------------------------------------
  // Case

  /** `toLowerCase` on one character, for the ASCII letters. */
  function LowerChar(ch: char): char {
    if 'A' <= ch <= 'Z' then (ch as int + 32) as char else ch
  }

  function Lower(s: string): (r: string)
    ensures |r| == |s|
    ensures forall i :: 0 <= i < |s| ==> r[i] == LowerChar(s[i])
    decreases |s|
  {
    if s == [] then [] else [LowerChar(s[0])] + Lower(s[1..])
  }

  lemma LowerIdempotent(s: string)
    ensures Lower(Lower(s)) == Lower(s)
  {
  }

  lemma LowerConcat(a: string, b: string)
    ensures Lower(a + b) == Lower(a) + Lower(b)
  {
  }

  /** Strings that share a prefix share its lower-cased form. */
  lemma LowerPrefix(s: string, t: string, n: nat)
    requires n <= |s| && n <= |t| && s[..n] == t[..n]
    ensures Lower(s)[..n] == Lower(t)[..n]
  {
    forall i | 0 <= i < n
      ensures Lower(s)[i] == Lower(t)[i]
    {
      assert s[..n][i] == s[i] && t[..n][i] == t[i];
    }
  }

  lemma LowerChangesNoWhitespace(ch: char)
    ensures IsWhitespace(LowerChar(ch)) == IsWhitespace(ch)
  {
  }

  /** Lower-casing and trimming commute, since no ASCII letter is white space. */
  lemma {:induction false} TrimLowerCommute(s: string)
    ensures Trim(Lower(s)) == Lower(Trim(s))
    decreases |s|
  {
    if s != [] {
      LowerChangesNoWhitespace(s[0]);
      LowerChangesNoWhitespace(s[|s| - 1]);
      if IsWhitespace(s[0]) {
        assert Lower(s)[1..] == Lower(s[1..]);
        TrimLowerCommute(s[1..]);
      } else if IsWhitespace(s[|s| - 1]) {
        assert Lower(s)[..|s| - 1] == Lower(s[..|s| - 1]);
        TrimLowerCommute(s[..|s| - 1]);
      }
    }
  }

  // ---------------------------------------------------------------------------
  // Searching

  predicate StartsWith(s: string, p: string) {
    |p| <= |s| && s[..|p|] == p
  }

  predicate EndsWith(s: string, p: string) {
    |p| <= |s| && s[|s| - |p|..] == p
  }

  /** `p` occurs in `s` starting at index `i`. */
  predicate OccursAt(s: string, p: string, i: int) {
    0 <= i && i + |p| <= |s| && s[i..i + |p|] == p
  }

  /** `s.includes(p)`. */
  predicate Contains(s: string, p: string) {
    exists i | 0 <= i <= |s| - |p| :: OccursAt(s, p, i)
  }

  /** The first index of character `ch` in `s`. */
  function IndexOf(s: string, ch: char): (r: Option<nat>)
    ensures r.Some? ==> r.value < |s| && s[r.value] == ch && ch !in s[..r.value]
    ensures r.None? <==> ch !in s
  {
    if |s| == 0 then None
    else if s[0] == ch then Some(0)
    else
      var k := IndexOf(s[1..], ch);
      assert s == [s[0]] + s[1..];
      if k.Some? then
        assert s[..k.value + 1] == [s[0]] + s[1..][..k.value];
        Some(k.value + 1)
      else None
  }

  /** `IndexOf` finds the first occurrence and nothing else. */
  lemma {:induction false} IndexOfFirst(s: string, ch: char, i: nat)
    requires i < |s| && s[i] == ch && ch !in s[..i]
    ensures IndexOf(s, ch) == Some(i)
  {
    if i > 0 {
      assert s[0] == s[..i][0];
      assert s[1..][..i - 1] == s[1..i] && s[1..i] == s[..i][1..];
      IndexOfFirst(s[1..], ch, i - 1);
    }
  }

  /** The last index of character `ch` in `s`. */
  function LastIndexOf(s: string, ch: char): (r: Option<nat>)
    ensures r.Some? ==> r.value < |s| && s[r.value] == ch && ch !in s[r.value + 1..]
    ensures r.None? <==> ch !in s
  {
    if |s| == 0 then None
    else if s[|s| - 1] == ch then Some(|s| - 1)
    else
      var k := LastIndexOf(s[..|s| - 1], ch);
      assert s == s[..|s| - 1] + [s[|s| - 1]];
      if k.Some? then
        assert s[k.value + 1..] == s[..|s| - 1][k.value + 1..] + [s[|s| - 1]];
        Some(k.value)
      else None
  }

  // ---------------------------------------------------------------------------
  // Splitting and joining

  /** `s.split(sep)` for a one-character separator: the pieces between the
      separators, empty pieces included, at least one piece. */
  function SplitOn(s: string, sep: char): (parts: seq<string>)
    ensures |parts| >= 1
    ensures forall k :: 0 <= k < |parts| ==> sep !in parts[k]
    decreases |s|
  {
    match IndexOf(s, sep)
    case None => [s]
    case Some(i) => [s[..i]] + SplitOn(s[i + 1..], sep)
  }

  /** `s.split(sep).filter(Boolean)`: the non-empty pieces between separators. */
  function NonEmptySegments(s: string, sep: char): (parts: seq<string>)
    ensures forall k :: 0 <= k < |parts| ==> parts[k] != [] && sep !in parts[k]
    decreases |s|
  {
    match IndexOf(s, sep)
    case None => if s == [] then [] else [s]
    case Some(i) => (if i == 0 then [] else [s[..i]]) + NonEmptySegments(s[i + 1..], sep)
  }

  /** `parts.join(sep)`. */
  function Join(parts: seq<string>, sep: string): string {
    if parts == [] then []
    else if |parts| == 1 then parts[0]
    else parts[0] + sep + Join(parts[1..], sep)
  }

  /** Splitting a join on a separator no part contains gives the parts back. */
  lemma {:induction false} SplitJoin(parts: seq<string>, sep: char)
    requires |parts| >= 1
    requires forall k :: 0 <= k < |parts| ==> sep !in parts[k]
    ensures SplitOn(Join(parts, [sep]), sep) == parts
    decreases |parts|
  {
    var s := Join(parts, [sep]);
    if |parts| == 1 {
      assert IndexOf(s, sep).None?;
    } else {
      var rest := Join(parts[1..], [sep]);
      assert s == parts[0] + [sep] + rest;
      var n := |parts[0]|;
      assert s[..n] == parts[0] && s[n] == sep;
      assert sep !in s[..n];
      assert IndexOf(s, sep) == Some(n);
      assert s[|parts[0]| + 1..] == rest;
      SplitJoin(parts[1..], sep);
    }
  }

  /** Joining with a separator no part contains is injective on non-empty lists. */
  lemma JoinInjective(a: seq<string>, b: seq<string>, sep: char)
    requires |a| >= 1 && |b| >= 1
    requires forall k :: 0 <= k < |a| ==> sep !in a[k]
    requires forall k :: 0 <= k < |b| ==> sep !in b[k]
    ensures Join(a, [sep]) == Join(b, [sep]) <==> a == b
  {
    if Join(a, [sep]) == Join(b, [sep]) {
      SplitJoin(a, sep);
      SplitJoin(b, sep);
    }
  }

  /** One line of `s.split(/\r?\n/)`: the carriage return before the line feed
      belongs to the separator. */
  function DropCarriageReturn(line: string): string {
    if line != [] && line[|line| - 1] == '\r' then line[..|line| - 1] else line
  }

  /** `s.split(/\r?\n/)`. */
  function SplitLines(s: string): (lines: seq<string>)
    ensures |lines| >= 1
    ensures forall k :: 0 <= k < |lines| ==> '\n' !in lines[k]
    decreases |s|
  {
    match IndexOf(s, '\n')
    case None => [s]
    case Some(i) => [DropCarriageReturn(s[..i])] + SplitLines(s[i + 1..])
  }

  /** Every line of `b` is a line of `a + "\n" + b`. */
  lemma {:induction false} SplitLinesKeepsLaterLines(a: string, b: string)
    ensures forall l :: l in SplitLines(b) ==> l in SplitLines(a + "\n" + b)
    decreases |a|
  {
    var s := a + "\n" + b;
    var i := IndexOf(s, '\n');
    assert s[|a|] == '\n';
    assert i.Some? && i.value <= |a|;
    if i.value == |a| {
      assert s[i.value + 1..] == b;
    } else {
      var a' := a[i.value + 1..];
      assert s[i.value + 1..] == a' + "\n" + b;
      SplitLinesKeepsLaterLines(a', b);
    }
  }

  // ---------------------------------------------------------------------------
  // Replacing

  /** `s.replace(/pat/g, rep)` for a literal pattern: occurrences are replaced
      from left to right and do not overlap. */
  function ReplaceAll(s: string, pat: string, rep: string): (r: string)
    requires pat != []
    decreases |s|
  {
    if |s| < |pat| then s
    else if s[..|pat|] == pat then rep + ReplaceAll(s[|pat|..], pat, rep)
    else [s[0]] + ReplaceAll(s[1..], pat, rep)
  }

  /** A string without the pattern's first character has nothing to replace. */
  lemma {:induction false} ReplaceAllAbsent(s: string, pat: string, rep: string)
    requires pat != [] && pat[0] !in s
    ensures ReplaceAll(s, pat, rep) == s
    decreases |s|
  {
    if |s| >= |pat| {
      assert s[..|pat|][0] == s[0];
      ReplaceAllAbsent(s[1..], pat, rep);
    }
  }

  /** Replacing by something no longer than the pattern never lengthens the string. */
  lemma {:induction false} ReplaceAllShrinks(s: string, pat: string, rep: string)
    requires pat != [] && |rep| <= |pat|
    ensures |ReplaceAll(s, pat, rep)| <= |s|
    decreases |s|
  {
    if |s| >= |pat| {
      if s[..|pat|] == pat {
        ReplaceAllShrinks(s[|pat|..], pat, rep);
      } else {
        ReplaceAllShrinks(s[1..], pat, rep);
      }
    }
  }
}
