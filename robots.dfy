/** robots.txt handling (src/core/robots.ts): which rules apply to the crawler's
    user agent, and whether a path is allowed by them.

    The file is read line by line. A `User-agent` line opens a group: the
    wildcard group for "*", the crawler's own group when the agent names it,
    no group otherwise. `Allow` and `Disallow` lines add a rule to the open
    group. The rules of the crawler's own group win over the wildcard rules
    when there are any. A path is decided by the longest rule it matches, the
    earliest one among rules of equal length, and is allowed when no rule
    matches. */
module Robots {
  import opened Wrappers
  import opened Text
  import opened Url

  datatype Rule = Rule(path: string, allow: bool)

  /** The group that the lines since the last `User-agent` line belong to. */
  datatype Group = NoGroup | WildcardGroup | SpecificGroup

  /** What one trimmed line of robots.txt means to the parser. */
  datatype Directive = Skip | UserAgent(group: Group) | RuleLine(rule: Rule)

  /** The agent `loadRobotsMatcher` uses when the caller names none. */
  const DefaultUserAgent: string := "cyte"

  // ---------------------------------------------------------------------------
  // parseRobotsRules

  /** The lines of the file, each trimmed. */
  function RobotsLines(text: string): (lines: seq<string>)
    ensures |lines| == |SplitLines(text)|
    ensures forall k :: 0 <= k < |lines| ==> lines[k] == Trim(SplitLines(text)[k])
    ensures forall k :: 0 <= k < |lines| ==> '\n' !in lines[k]
    ensures forall k :: 0 <= k < |lines| && lines[k] != [] ==>
              !IsWhitespace(lines[k][0]) && !IsWhitespace(lines[k][|lines[k]| - 1])
  {
    var raw := SplitLines(text);
    seq(|raw|, k requires 0 <= k < |raw| => Trim(raw[k]))
  }

  /** The key (trimmed, lower case) and the value (trimmed) of a line: the text
      before and after its first ':'; the value is empty when there is no ':'. */
  function KeyValue(line: string): (string, string) {
    match IndexOf(line, ':')
    case None => (Lower(Trim(line)), "")
    case Some(i) => (Lower(Trim(line[..i])), Trim(line[i + 1..]))
  }

  /** The group a `User-agent` value opens, for the lower-cased agent `ua`. */
  function AgentGroup(candidate: string, ua: string): (g: Group)
    ensures g == WildcardGroup <==> candidate == "*"
    ensures g == SpecificGroup <==> candidate != "*" && Contains(candidate, ua)
  {
    if candidate == "*" then WildcardGroup
    else if candidate == ua || Contains(candidate, ua) then
      assert candidate == ua ==> OccursAt(candidate, ua, 0);
      SpecificGroup
    else NoGroup
  }

  /** What a trimmed line means, for the lower-cased agent `ua`. */
  function Classify(line: string, ua: string): (d: Directive)
    ensures line == [] || StartsWith(line, "#") ==> d == Skip
    ensures d.UserAgent? ==> KeyValue(line).0 == "user-agent"
    ensures d.RuleLine? ==> d.rule.path != [] && d.rule.path == KeyValue(line).1
    ensures d.RuleLine? ==> (d.rule.allow <==> KeyValue(line).0 == "allow")
                            && KeyValue(line).0 in {"allow", "disallow"}
    ensures line != [] && !StartsWith(line, "#") && KeyValue(line).0 == "user-agent" ==>
              d == UserAgent(AgentGroup(Lower(KeyValue(line).1), ua))
    ensures line != [] && !StartsWith(line, "#") && KeyValue(line).0 in {"allow", "disallow"} && KeyValue(line).1 != [] ==>
              d == RuleLine(Rule(KeyValue(line).1, KeyValue(line).0 == "allow"))
    ensures KeyValue(line).0 !in {"user-agent", "allow", "disallow"} ==> d == Skip
  {
    if line == [] || StartsWith(line, "#") then Skip
    else
      var (key, value) := KeyValue(line);
      if key == [] then Skip
      else if key == "user-agent" then UserAgent(AgentGroup(Lower(value), ua))
      else if key != "allow" && key != "disallow" then Skip
      else if value == [] then Skip
      else RuleLine(Rule(value, key == "allow"))
  }

  /** What each line of `lines` means. */
  function Directives(lines: seq<string>, ua: string): (ds: seq<Directive>)
    ensures |ds| == |lines|
  {
    seq(|lines|, k requires 0 <= k < |lines| => Classify(lines[k], ua))
  }

  /** The rules of group `want` among the directives `ds`, read with group
      `active` open at the start. */
  function Collect(ds: seq<Directive>, active: Group, want: Group): (rules: seq<Rule>)
    ensures |rules| <= |ds|
    decreases |ds|
  {
    if ds == [] then []
    else
      var rest := ds[1..];
      match ds[0]
      case Skip => Collect(rest, active, want)
      case UserAgent(g) => Collect(rest, g, want)
      case RuleLine(rule) => (if active == want then [rule] else []) + Collect(rest, active, want)
  }

  /** The group open after reading `d` with group `active` open. */
  function NextGroup(d: Directive, active: Group): Group {
    if d.UserAgent? then d.group else active
  }

  /** The rule of group `want` that reading `d` contributes, if any. */
  function Emitted(d: Directive, active: Group, want: Group): seq<Rule> {
    if d.RuleLine? && active == want then [d.rule] else []
  }

  /** Reading one directive: its contribution, then the rules of the rest. */
  lemma CollectAdvance(ds: seq<Directive>, i: nat, active: Group, want: Group)
    requires i < |ds|
    ensures Collect(ds[i..], active, want) ==
              Emitted(ds[i], active, want) + Collect(ds[i + 1..], NextGroup(ds[i], active), want)
  {
    assert ds[i..][1..] == ds[i + 1..];
  }

  /** What `parseRobotsRules(text, userAgent)` returns: the crawler's own rules
      when there are any, otherwise the wildcard rules. */
  function SelectedRules(text: string, userAgent: string): seq<Rule> {
    var ds := Directives(RobotsLines(text), Lower(userAgent));
    var specific := Collect(ds, NoGroup, SpecificGroup);
    if |specific| > 0 then specific else Collect(ds, NoGroup, WildcardGroup)
  }

  /** The meaning of each line of `lines` (lines 59-79 of the parser, applied to
      every line). */
  method ClassifyLines(lines: seq<string>, ua: string) returns (ds: seq<Directive>)
    ensures |ds| == |lines|
    ensures forall k {:trigger lines[k]} :: 0 <= k < |lines| ==> ds[k] == Classify(lines[k], ua)
  {
    ds := seq(|lines|, k requires 0 <= k < |lines| => Classify(lines[k], ua));
  }

  lemma SameDirectives(lines: seq<string>, ua: string, ds: seq<Directive>)
    requires |ds| == |lines|
    requires forall k {:trigger lines[k]} :: 0 <= k < |lines| ==> ds[k] == Classify(lines[k], ua)
    ensures ds == Directives(lines, ua)
  {
  }

  /** The loop invariant of `GroupRules` survives reading directive `i`. */
  lemma GroupStep(ds: seq<Directive>, i: nat, active: Group, acc: seq<Rule>, want: Group)
    requires i < |ds|
    requires acc + Collect(ds[i..], active, want) == Collect(ds, NoGroup, want)
    ensures (acc + Emitted(ds[i], active, want)) + Collect(ds[i + 1..], NextGroup(ds[i], active), want)
            == Collect(ds, NoGroup, want)
  {
    CollectAdvance(ds, i, active, want);
  }

  /** The loop of `parseRobotsRules` over the classified lines: a `User-agent`
      line switches the open group, a rule line goes to the open group's list. */
  method GroupRules(directives: seq<Directive>) returns (specificRules: seq<Rule>, wildcardRules: seq<Rule>)
    ensures specificRules == Collect(directives, NoGroup, SpecificGroup)
    ensures wildcardRules == Collect(directives, NoGroup, WildcardGroup)
  {
    wildcardRules := [];
    specificRules := [];
    var activeGroup := NoGroup;
    var i := 0;
    while i < |directives|
      invariant 0 <= i <= |directives|
      invariant specificRules + Collect(directives[i..], activeGroup, SpecificGroup)
                == Collect(directives, NoGroup, SpecificGroup)
      invariant wildcardRules + Collect(directives[i..], activeGroup, WildcardGroup)
                == Collect(directives, NoGroup, WildcardGroup)
    {
      GroupStep(directives, i, activeGroup, specificRules, SpecificGroup);
      GroupStep(directives, i, activeGroup, wildcardRules, WildcardGroup);
      ghost var specific0, wildcard0, active0 := specificRules, wildcardRules, activeGroup;
      var directive := directives[i];
      i := i + 1;
      match directive
      case Skip =>
      case UserAgent(group) =>
        activeGroup := group;
      case RuleLine(rule) =>
        if activeGroup == SpecificGroup {
          specificRules := specificRules + [rule];
        } else if activeGroup == WildcardGroup {
          wildcardRules := wildcardRules + [rule];
        }
      assert activeGroup == NextGroup(directive, active0);
      assert specificRules == specific0 + Emitted(directive, active0, SpecificGroup);
      assert wildcardRules == wildcard0 + Emitted(directive, active0, WildcardGroup);
    }
    assert directives[|directives|..] == [];
  }

  /** `parseRobotsRules(text, userAgent)`: each line is classified, the rules
      are gathered into the agent's own list and the wildcard list, and the
      agent's own list wins when it is not empty. */
  method ParseRobotsRules(text: string, userAgent: string) returns (rules: seq<Rule>)
    ensures rules == SelectedRules(text, userAgent)
  {
    var lines := RobotsLines(text);
    var ua := Lower(userAgent);
    var directives := ClassifyLines(lines, ua);
    SameDirectives(lines, ua, directives);
    var specificRules, wildcardRules := GroupRules(directives);
    rules := if |specificRules| > 0 then specificRules else wildcardRules;
  }

  /** Blank lines, comments and lines with an unknown key change nothing,
      wherever they stand. */
  lemma {:induction false} SkippedLineIrrelevant(a: seq<Directive>, b: seq<Directive>, active: Group, want: Group)
    ensures Collect(a + [Skip] + b, active, want) == Collect(a + b, active, want)
    decreases |a|
  {
    if a == [] {
      assert (a + [Skip] + b)[1..] == b;
      assert a + b == b;
    } else {
      assert (a + [Skip] + b)[0] == a[0] && (a + b)[0] == a[0];
      assert (a + [Skip] + b)[1..] == a[1..] + [Skip] + b;
      assert (a + b)[1..] == a[1..] + b;
      match a[0]
      case Skip => SkippedLineIrrelevant(a[1..], b, active, want);
      case UserAgent(g) => SkippedLineIrrelevant(a[1..], b, g, want);
      case RuleLine(_) => SkippedLineIrrelevant(a[1..], b, active, want);
    }
  }

  /** Rule lines before the first `User-agent` line belong to no group. */
  lemma {:induction false} RulesBeforeAnyAgentIgnored(prefix: seq<Directive>, rest: seq<Directive>, want: Group)
    requires want != NoGroup
    requires forall k :: 0 <= k < |prefix| ==> !prefix[k].UserAgent?
    ensures Collect(prefix + rest, NoGroup, want) == Collect(rest, NoGroup, want)
    decreases |prefix|
  {
    if prefix != [] {
      assert (prefix + rest)[0] == prefix[0];
      assert (prefix + rest)[1..] == prefix[1..] + rest;
      RulesBeforeAnyAgentIgnored(prefix[1..], rest, want);
    } else {
      assert prefix + rest == rest;
    }
  }

  /** A file without any `User-agent` line yields no rules. */
  lemma NoAgentNoRules(text: string, userAgent: string)
    requires forall k :: 0 <= k < |RobotsLines(text)| ==> !Classify(RobotsLines(text)[k], Lower(userAgent)).UserAgent?
    ensures SelectedRules(text, userAgent) == []
  {
    var ds := Directives(RobotsLines(text), Lower(userAgent));
    assert ds + [] == ds;
    RulesBeforeAnyAgentIgnored(ds, [], SpecificGroup);
    RulesBeforeAnyAgentIgnored(ds, [], WildcardGroup);
  }

  /** Every collected rule is the rule of one of the directives. */
  lemma {:induction false} CollectedRulesComeFromDirectives(ds: seq<Directive>, active: Group, want: Group)
    ensures forall r :: r in Collect(ds, active, want) ==> RuleLine(r) in ds
    decreases |ds|
  {
    if ds != [] {
      var g := match ds[0] case UserAgent(g) => g case _ => active;
      CollectedRulesComeFromDirectives(ds[1..], g, want);
    }
  }

  /** Each rule `parseRobotsRules` returns has a non-empty path and comes from an
      `Allow` or `Disallow` line of the file. */
  lemma SelectedRulesComeFromLines(text: string, userAgent: string)
    ensures forall r :: r in SelectedRules(text, userAgent) ==>
              && r.path != []
              && exists k :: 0 <= k < |RobotsLines(text)| && Classify(RobotsLines(text)[k], Lower(userAgent)) == RuleLine(r)
  {
    var lines := RobotsLines(text);
    var ua := Lower(userAgent);
    var ds := Directives(lines, ua);
    CollectedRulesComeFromDirectives(ds, NoGroup, SpecificGroup);
    CollectedRulesComeFromDirectives(ds, NoGroup, WildcardGroup);
    forall r | RuleLine(r) in ds
      ensures r.path != [] && exists k :: 0 <= k < |lines| && Classify(lines[k], ua) == RuleLine(r)
    {
      var k :| 0 <= k < |ds| && ds[k] == RuleLine(r);
      assert Classify(lines[k], ua) == RuleLine(r);
    }
  }

  // ---------------------------------------------------------------------------
  // Which rule lines are collected

  /** The group open after reading `ds` with group `active` open at the start:
      the group of the last `User-agent` line, or `active` when there is none. */
  function GroupAfter(ds: seq<Directive>, active: Group): Group
    decreases |ds|
  {
    if ds == [] then active else GroupAfter(ds[1..], NextGroup(ds[0], active))
  }

  /** The group open when line `k` is read, starting from no group. */
  function OpenGroupAt(ds: seq<Directive>, k: nat): Group
    requires k <= |ds|
  {
    GroupAfter(ds[..k], NoGroup)
  }

  /** Reference definition: the rule of every rule line whose open group is
      `want`, in the order of the lines. */
  function RulesOf(ds: seq<Directive>, want: Group): seq<Rule>
    decreases |ds|
  {
    if ds == [] then []
    else
      var n := |ds| - 1;
      RulesOf(ds[..n], want) + Emitted(ds[n], OpenGroupAt(ds, n), want)
  }

  /** Collecting over two stretches of directives: the second is read with the
      group the first leaves open. */
  lemma {:induction false} CollectConcat(p: seq<Directive>, q: seq<Directive>, active: Group, want: Group)
    ensures Collect(p + q, active, want) == Collect(p, active, want) + Collect(q, GroupAfter(p, active), want)
    decreases |p|
  {
    if p == [] {
      assert p + q == q;
    } else {
      var pq := p + q;
      var next := NextGroup(p[0], active);
      assert pq[0] == p[0] && pq[1..] == p[1..] + q;
      calc {
        Collect(pq, active, want);
        { CollectHead(pq, active, want); }
        Emitted(p[0], active, want) + Collect(p[1..] + q, next, want);
        { CollectConcat(p[1..], q, next, want); }
        (Emitted(p[0], active, want) + Collect(p[1..], next, want)) + Collect(q, GroupAfter(p[1..], next), want);
        { CollectHead(p, active, want); }
        Collect(p, active, want) + Collect(q, GroupAfter(p, active), want);
      }
    }
  }

  /** Reading the first directive of `ds`. */
  lemma CollectHead(ds: seq<Directive>, active: Group, want: Group)
    requires ds != []
    ensures Collect(ds, active, want) == Emitted(ds[0], active, want) + Collect(ds[1..], NextGroup(ds[0], active), want)
  {
  }

  /** Reading one more directive after `p`. */
  lemma {:induction false} GroupAfterSnoc(p: seq<Directive>, d: Directive, active: Group)
    ensures GroupAfter(p + [d], active) == NextGroup(d, GroupAfter(p, active))
    decreases |p|
  {
    if p == [] {
      assert (p + [d])[1..] == [];
    } else {
      assert (p + [d])[0] == p[0] && (p + [d])[1..] == p[1..] + [d];
      GroupAfterSnoc(p[1..], d, NextGroup(p[0], active));
    }
  }

  /** `Collect` from no group is the reference `RulesOf`: a rule line
      contributes its rule exactly when the group open at it is `want`. */
  lemma {:induction false} CollectIsRulesOf(ds: seq<Directive>, want: Group)
    ensures Collect(ds, NoGroup, want) == RulesOf(ds, want)
    decreases |ds|
  {
    if ds != [] {
      var n := |ds| - 1;
      assert ds == ds[..n] + [ds[n]];
      CollectConcat(ds[..n], [ds[n]], NoGroup, want);
      CollectAdvance([ds[n]], 0, OpenGroupAt(ds, n), want);
      assert [ds[n]][0..] == [ds[n]] && [ds[n]][1..] == [];
      CollectIsRulesOf(ds[..n], want);
    }
  }

  /** The group opened by the last `User-agent` line before line `k` is the
      group open at line `k`. */
  lemma {:induction false} LastAgentOpens(ds: seq<Directive>, j: nat, k: nat)
    requires j < k <= |ds| && ds[j].UserAgent?
    requires forall m :: j < m < k ==> !ds[m].UserAgent?
    ensures OpenGroupAt(ds, k) == ds[j].group
    decreases k
  {
    assert ds[..k] == ds[..k - 1] + [ds[k - 1]];
    GroupAfterSnoc(ds[..k - 1], ds[k - 1], NoGroup);
    if k - 1 > j {
      LastAgentOpens(ds, j, k - 1);
    }
  }

  /** A rule line whose last preceding `User-agent` line opened group `want`
      is collected for `want`, between the rules of the lines before it and
      those after it. */
  lemma RuleOfOpenGroupCollected(ds: seq<Directive>, j: nat, k: nat, want: Group)
    requires j < k < |ds| && ds[k].RuleLine? && ds[j] == UserAgent(want)
    requires forall m :: j < m < k ==> !ds[m].UserAgent?
    ensures Collect(ds, NoGroup, want) == Collect(ds[..k], NoGroup, want) + [ds[k].rule] + Collect(ds[k + 1..], want, want)
    ensures ds[k].rule in Collect(ds, NoGroup, want)
  {
    LastAgentOpens(ds, j, k);
    assert ds == ds[..k] + ds[k..];
    CollectConcat(ds[..k], ds[k..], NoGroup, want);
    CollectAdvance(ds, k, want, want);
  }

  /** Completeness of `parseRobotsRules`: a rule line of the crawler's own group
      is always returned, and a rule line of the wildcard group is returned when
      the crawler's group has no rules. */
  lemma SelectedRulesComplete(text: string, userAgent: string, k: nat)
    requires k < |RobotsLines(text)|
    requires Directives(RobotsLines(text), Lower(userAgent))[k].RuleLine?
    ensures var ds := Directives(RobotsLines(text), Lower(userAgent));
      OpenGroupAt(ds, k) == SpecificGroup ==> ds[k].rule in SelectedRules(text, userAgent)
    ensures var ds := Directives(RobotsLines(text), Lower(userAgent));
      OpenGroupAt(ds, k) == WildcardGroup && Collect(ds, NoGroup, SpecificGroup) == [] ==>
        ds[k].rule in SelectedRules(text, userAgent)
  {
    var ds := Directives(RobotsLines(text), Lower(userAgent));
    var g := OpenGroupAt(ds, k);
    assert ds == ds[..k] + ds[k..];
    CollectConcat(ds[..k], ds[k..], NoGroup, g);
    CollectAdvance(ds, k, g, g);
  }

  // ---------------------------------------------------------------------------
  // pathMatchesRule, isPathAllowed

  /** `pattern.replace(/\*+$/, "")`. */
  function StripTrailingStars(pattern: string): (r: string)
    ensures StartsWith(pattern, r)
    ensures r == [] || r[|r| - 1] != '*'
    ensures forall i :: |r| <= i < |pattern| ==> pattern[i] == '*'
    decreases |pattern|
  {
    if pattern != [] && pattern[|pattern| - 1] == '*' then
      var r := StripTrailingStars(pattern[..|pattern| - 1]);
      assert pattern[..|pattern| - 1][..|r|] == pattern[..|r|];
      r
    else pattern
  }

  /** `pathMatchesRule(pathname, pattern)`: "/" matches every path; otherwise the
      pattern without its trailing stars is a prefix of the path. A star inside
      the pattern is an ordinary character. */
  predicate PathMatchesRule(path: string, pattern: string) {
    pattern == "/" || StartsWith(path, StripTrailingStars(pattern))
  }

  /** A pattern of stars only matches every path. */
  lemma StarsMatchEverything(path: string, pattern: string)
    requires forall i :: 0 <= i < |pattern| ==> pattern[i] == '*'
    ensures PathMatchesRule(path, pattern)
  {
  }

  /** A pattern that does not end in a star matches exactly the paths it is a
      prefix of, and "/". */
  lemma PlainPatternIsPrefix(path: string, pattern: string)
    requires pattern == [] || pattern[|pattern| - 1] != '*'
    ensures PathMatchesRule(path, pattern) <==> pattern == "/" || StartsWith(path, pattern)
  {
  }

  /** The winning rule among `rules` for `path`: the first of the longest
      matching rules, None when no rule matches. */
  function BestRule(path: string, rules: seq<Rule>): (w: Option<Rule>)
    ensures w.Some? ==> w.value in rules && PathMatchesRule(path, w.value.path)
    decreases |rules|
  {
    if rules == [] then None
    else
      var w := BestRule(path, rules[..|rules| - 1]);
      var rule := rules[|rules| - 1];
      if PathMatchesRule(path, rule.path) && (w.None? || |rule.path| > |w.value.path|) then Some(rule)
      else w
  }

  /** `rules[k]` is the rule the longest match picks: it matches, no matching
      rule is longer, and every matching rule before it is shorter. */
  predicate IsWinner(path: string, rules: seq<Rule>, k: int) {
    && 0 <= k < |rules|
    && PathMatchesRule(path, rules[k].path)
    && (forall j :: 0 <= j < |rules| && PathMatchesRule(path, rules[j].path) ==> |rules[j].path| <= |rules[k].path|)
    && (forall j :: 0 <= j < k && PathMatchesRule(path, rules[j].path) ==> |rules[j].path| < |rules[k].path|)
  }

  /** A last rule that matches and beats every earlier matching rule wins. */
  lemma LastRuleWins(path: string, rules: seq<Rule>)
    requires rules != [] && PathMatchesRule(path, rules[|rules| - 1].path)
    requires forall j :: 0 <= j < |rules| - 1 && PathMatchesRule(path, rules[j].path) ==>
               |rules[j].path| < |rules[|rules| - 1].path|
    ensures IsWinner(path, rules, |rules| - 1)
  {
  }

  /** The winner of all rules but the last stays the winner unless the last
      rule matches and is strictly longer. */
  lemma EarlierWinnerStays(path: string, rules: seq<Rule>, k: int)
    requires rules != [] && IsWinner(path, rules[..|rules| - 1], k)
    requires !(PathMatchesRule(path, rules[|rules| - 1].path) && |rules[|rules| - 1].path| > |rules[k].path|)
    ensures IsWinner(path, rules, k)
  {
    var init := rules[..|rules| - 1];
    assert forall j :: 0 <= j < |rules| - 1 ==> rules[j] == init[j];
  }

  /** `BestRule` is the longest match, the earliest among ties, and is absent
      exactly when no rule matches. */
  lemma {:induction false} BestRuleIsWinner(path: string, rules: seq<Rule>)
    ensures BestRule(path, rules).None? <==> forall j :: 0 <= j < |rules| ==> !PathMatchesRule(path, rules[j].path)
    ensures BestRule(path, rules).Some? ==> exists k :: IsWinner(path, rules, k) && rules[k] == BestRule(path, rules).value
    decreases |rules|
  {
    if rules != [] {
      var n := |rules| - 1;
      var init := rules[..n];
      BestRuleIsWinner(path, init);
      var w := BestRule(path, init);
      var rule := rules[n];
      assert forall j :: 0 <= j < n ==> rules[j] == init[j];
      if PathMatchesRule(path, rule.path) && (w.None? || |rule.path| > |w.value.path|) {
        if w.Some? {
          var k :| IsWinner(path, init, k) && init[k] == w.value;
        }
        LastRuleWins(path, rules);
      } else if w.Some? {
        var k :| IsWinner(path, init, k) && init[k] == w.value;
        EarlierWinnerStays(path, rules, k);
      }
    }
  }

  /** The decision for a path: the winner's `allow`, or allowed when no rule matches. */
  predicate Allowed(path: string, rules: seq<Rule>) {
    match BestRule(path, rules)
    case None => true
    case Some(w) => w.allow
  }

  /** `isPathAllowed(pathname, rules)`. */
  method IsPathAllowed(pathname: string, rules: seq<Rule>) returns (allowed: bool)
    ensures allowed == Allowed(pathname, rules)
  {
    if |rules| == 0 {
      return true;
    }
    var winner: Option<Rule> := None;
    var i := 0;
    while i < |rules|
      invariant 0 <= i <= |rules|
      invariant winner == BestRule(pathname, rules[..i])
    {
      var rule := rules[i];
      assert rules[..i + 1][..i] == rules[..i];
      if PathMatchesRule(pathname, rule.path) {
        if winner.None? || |rule.path| > |winner.value.path| {
          winner := Some(rule);
        }
      }
      i := i + 1;
    }
    assert rules[..|rules|] == rules;
    if winner.None? {
      return true;
    }
    return winner.value.allow;
  }

  /** A path is refused exactly when some matching `Disallow` rule is at least
      as long as every matching rule and longer than every matching `Allow`
      rule before it. */
  lemma AllowedUnlessDisallowWins(path: string, rules: seq<Rule>)
    ensures !Allowed(path, rules) <==> exists k :: IsWinner(path, rules, k) && !rules[k].allow
  {
    BestRuleIsWinner(path, rules);
    if exists k :: IsWinner(path, rules, k) && !rules[k].allow {
      var k :| IsWinner(path, rules, k) && !rules[k].allow;
      var w := BestRule(path, rules).value;
      var m :| IsWinner(path, rules, m) && rules[m] == w;
      WinnerUnique(path, rules, k, m);
    }
  }

  lemma WinnerUnique(path: string, rules: seq<Rule>, k: int, m: int)
    requires IsWinner(path, rules, k) && IsWinner(path, rules, m)
    ensures k == m
  {
  }

  /** When every matching rule is an `Allow` rule the path is allowed, and when
      every matching rule is a `Disallow` rule and there is one, it is not. */
  lemma UniformRulesDecide(path: string, rules: seq<Rule>)
    ensures (forall j :: 0 <= j < |rules| && PathMatchesRule(path, rules[j].path) ==> rules[j].allow)
            ==> Allowed(path, rules)
    ensures (exists j :: 0 <= j < |rules| && PathMatchesRule(path, rules[j].path))
            && (forall j :: 0 <= j < |rules| && PathMatchesRule(path, rules[j].path) ==> !rules[j].allow)
            ==> !Allowed(path, rules)
  {
    BestRuleIsWinner(path, rules);
  }

  // ---------------------------------------------------------------------------
  // loadRobotsMatcher

  /** The outcome of fetching `/robots.txt`: the request failed (network error
      or timeout), or a response with its status, `content-type` header and body. */
  datatype RobotsFetch = FetchFailed(message: string) | Response(ok: bool, contentType: Option<string>, body: string)

  /** `RobotsMatcher.isAllowed`: everything, or the decision of a rule list. */
  datatype Matcher = AllowAll | RuleMatcher(rules: seq<Rule>)

  /** `loadRobotsMatcher(origin, userAgent)` given the fetch outcome: a failed
      request rejects; an error status or an HTML body allows everything; a
      robots file is parsed for the agent. */
  function LoadRobotsMatcher(response: RobotsFetch, userAgent: string := DefaultUserAgent): (r: Result<Matcher, string>)
    ensures r.Err? <==> response.FetchFailed?
    ensures response.Response? && !response.ok ==> r == Ok(AllowAll)
    ensures response.Response? && Contains(response.contentType.GetOr(""), "text/html") ==> r == Ok(AllowAll)
    ensures r.Ok? && r.value.RuleMatcher? ==>
              response.Response? && response.ok && r.value.rules == SelectedRules(response.body, userAgent)
    ensures response.Response? && response.ok && !Contains(response.contentType.GetOr(""), "text/html") ==>
              r == Ok(RuleMatcher(SelectedRules(response.body, userAgent)))
  {
    match response
    case FetchFailed(message) => Err(message)
    case Response(ok, contentType, body) =>
      if !ok then Ok(AllowAll)
      else if Contains(contentType.GetOr(""), "text/html") then Ok(AllowAll)
      else Ok(RuleMatcher(SelectedRules(body, userAgent)))
  }

  /** `isAllowed(url)`: the decision for the URL's path. */
  predicate Permits(m: Matcher, u: Url) {
    match m
    case AllowAll => true
    case RuleMatcher(rules) => Allowed(u.path, rules)
  }

  /** When robots.txt cannot be used (error status, HTML instead of text, or a
      file with no rule for the agent) every URL is allowed. */
  lemma FallbackAllowsEverything(response: RobotsFetch, userAgent: string, u: Url)
    requires response.Response?
    requires !response.ok || Contains(response.contentType.GetOr(""), "text/html")
             || SelectedRules(response.body, userAgent) == []
    ensures LoadRobotsMatcher(response, userAgent).Ok?
    ensures Permits(LoadRobotsMatcher(response, userAgent).value, u)
  {
  }
}
