/**
  Which robots.txt directive decides (MoreSpecific, TakesPriority, class Rule,
  FindDirective and PathAllowed of parser/RobotsManager.cpp).  The pattern with the most
  bytes that are not '*' wins, a final '$' counted among them.  Section 2.2.2 of RFC 9309
  asks for the most octets, and for Allow over Disallow between equals; that an anchored
  pattern comes first on a tie, before the permission is looked at, is the program's own
  rule, and so is preferring a literal agent to "*" last of all.
*/
module RobotsRules {
  import opened Bytes
  import opened RobotsWildcard
  import QuickSort

  datatype Permission = Allow | Disallow
  datatype Directive = Directive(permission: Permission, wildcard: Pattern)
  datatype UserAgent = UserAgent(name: Text, matchAny: bool)
  datatype Rule = Rule(userAgents: seq<UserAgent>, directives: seq<Directive>, crawlDelay: nat)

  datatype Option<T> = None | Some(value: T)

  // ---------------------------------------------------------------- priority

  predicate MoreSpecific(a: Pattern, b: Pattern) {
    a.literalBytes > b.literalBytes || (a.literalBytes == b.literalBytes && a.endsInDollarSign && !b.endsInDollarSign)
  }

  predicate TakesPriority(a: Directive, b: Directive) {
    || MoreSpecific(a.wildcard, b.wildcard)
    || (!MoreSpecific(b.wildcard, a.wildcard) && a.permission == Allow && b.permission == Disallow)
  }

  /** Priority is a strict weak order, so it can be sorted by. */
  lemma PriorityIsOrder()
    ensures QuickSort.WeakOrder(TakesPriority)
  {
  }

  /** Directives that neither takes priority give the same permission. */
  lemma TiesAgree(a: Directive, b: Directive)
    requires !TakesPriority(a, b) && !TakesPriority(b, a)
    ensures a.permission == b.permission
  {
  }

  // ---------------------------------------------------------------- rules

  ghost predicate MatchesPath(d: Directive, path: Text) {
    Accepts(d.wildcard.text, d.wildcard.endsInDollarSign, path)
  }

  ghost predicate Names(ua: UserAgent, user: Text) {
    ua.matchAny || exists k :: OccursAt(ua.name, user, k)
  }

  ghost predicate Applies(r: Rule, user: Text) {
    exists i :: 0 <= i < |r.userAgents| && Names(r.userAgents[i], user)
  }

  ghost predicate WellSorted(r: Rule) {
    QuickSort.Sorted(r.directives, TakesPriority)
  }

  /** A group as the parser leaves it: the same directives, sorted by priority. */
  method MakeRule(userAgents: seq<UserAgent>, directives: seq<Directive>, crawlDelay: nat) returns (r: Rule)
    ensures WellSorted(r) && r.userAgents == userAgents && r.crawlDelay == crawlDelay
    ensures multiset(r.directives) == multiset(directives)
  {
    PriorityIsOrder();
    var vec := new QuickSort.Vector(directives);
    QuickSort.Sort(vec, TakesPriority);
    r := Rule(userAgents, vec.items, crawlDelay);
  }

  /** The directive of this rule that decides on a path: none of the rule's matching ones takes priority over it. */
  ghost predicate BestOf(r: Rule, path: Text, d: Directive) {
    d in r.directives && MatchesPath(d, path) && forall e | e in r.directives && MatchesPath(e, path) :: !TakesPriority(e, d)
  }

  ghost predicate InRule(r: Rule, user: Text, path: Text, d: Directive) {
    Applies(r, user) && d in r.directives && MatchesPath(d, path)
  }

  /** The first agent that names the user. */
  ghost function AgentOf(userAgents: seq<UserAgent>, user: Text): Option<UserAgent> {
    if userAgents == [] then None
    else if Names(userAgents[0], user) then Some(userAgents[0]) else AgentOf(userAgents[1..], user)
  }

  /** The first directive that matches. */
  ghost function DirectiveOf(directives: seq<Directive>, path: Text): Option<Directive> {
    if directives == [] then None
    else if MatchesPath(directives[0], path) then Some(directives[0]) else DirectiveOf(directives[1..], path)
  }

  /** Rule::Match: the first agent that names the user, and the first directive that matches. */
  method MatchRule(r: Rule, user: Text, path: Text) returns (agent: Option<UserAgent>, d: Option<Directive>)
    requires WellSorted(r)
    ensures agent.Some? <==> Applies(r, user)
    ensures agent == AgentOf(r.userAgents, user)
    ensures d == if agent.None? then None else DirectiveOf(r.directives, path)
    ensures d.Some? <==> exists e :: InRule(r, user, path, e)
    ensures d.Some? ==> BestOf(r, path, d.value) && agent.Some?
  {
    hide MatchesPath, TakesPriority;
    agent, d := None, None;
    assert r.userAgents[0..] == r.userAgents && r.directives[0..] == r.directives;
    for i := 0 to |r.userAgents|
      invariant agent == None && forall j | 0 <= j < i :: !Names(r.userAgents[j], user)
      invariant AgentOf(r.userAgents, user) == AgentOf(r.userAgents[i..], user)
    {
      var ua := r.userAgents[i];
      var named := FindSubstring(ua.name, user);
      if named || ua.matchAny {
        agent := Some(ua);
        break;
      }
    }
    if agent == None { return; }
    for i := 0 to |r.directives|
      invariant d == None && forall j | 0 <= j < i :: !MatchesPath(r.directives[j], path)
      invariant DirectiveOf(r.directives, path) == DirectiveOf(r.directives[i..], path)
    {
      var matches := MatchDirective(r.directives[i], path);
      if matches {
        FirstIsBest(r, path, i);
        assert InRule(r, user, path, r.directives[i]);
        return agent, Some(r.directives[i]);
      }
    }
  }

  method MatchDirective(d: Directive, path: Text) returns (matches: bool)
    ensures matches <==> MatchesPath(d, path)
  {
    matches := Match(d.wildcard.text, d.wildcard.endsInDollarSign, path);
  }

  lemma FirstIsBest(r: Rule, path: Text, i: nat)
    requires WellSorted(r) && i < |r.directives| && MatchesPath(r.directives[i], path)
    requires forall j | 0 <= j < i :: !MatchesPath(r.directives[j], path)
    ensures BestOf(r, path, r.directives[i])
  {
    hide MatchesPath;
    PriorityIsOrder();
    forall e | e in r.directives && MatchesPath(e, path) ensures !TakesPriority(e, r.directives[i]) {
      var j :| 0 <= j < |r.directives| && r.directives[j] == e;
    }
  }

  // ---------------------------------------------------------------- all rules together

  /** A directive of an applicable rule that matches the path. */
  ghost predicate InPlay(rules: seq<Rule>, user: Text, path: Text, d: Directive) {
    exists i :: 0 <= i < |rules| && InRule(rules[i], user, path, d)
  }

  /** A directive no other one in play takes priority over. */
  ghost predicate Decides(rules: seq<Rule>, user: Text, path: Text, d: Directive) {
    InPlay(rules, user, path, d) && forall e | InPlay(rules, user, path, e) :: !TakesPriority(e, d)
  }

  /** Access is denied exactly when a Disallow decides. */
  ghost predicate Denied(rules: seq<Rule>, user: Text, path: Text) {
    exists d :: Decides(rules, user, path, d) && d.permission == Disallow
  }

  /** The largest crawl delay among the applicable rules that have a matching directive. */
  ghost function CrawlDelay(rules: seq<Rule>, user: Text, path: Text): nat {
    if rules == [] then 0
    else
      var rest, r := CrawlDelay(rules[..|rules| - 1], user, path), rules[|rules| - 1];
      if r.crawlDelay > rest && exists d :: InRule(r, user, path, d) then r.crawlDelay else rest
  }

  /** The best directive among the first k rules. */
  ghost predicate BestSoFar(rules: seq<Rule>, user: Text, path: Text, best: Option<Directive>) {
    match best
    case None => forall d :: !InPlay(rules, user, path, d)
    case Some(d) => Decides(rules, user, path, d)
  }

  datatype RuleMatch = RuleMatch(agent: UserAgent, directive: Directive)

  /** What a rule has to say about a path. */
  ghost function AnswerOf(r: Rule, user: Text, path: Text): Option<RuleMatch> {
    var agent, d := AgentOf(r.userAgents, user), DirectiveOf(r.directives, path);
    if agent.Some? && d.Some? then Some(RuleMatch(agent.value, d.value)) else None
  }

  /** Priority between rules: that of their directives, and on a tie a literal agent's before a "*". */
  predicate Prefers(a: RuleMatch, b: RuleMatch) {
    || TakesPriority(a.directive, b.directive)
    || (!TakesPriority(b.directive, a.directive) && !a.agent.matchAny && b.agent.matchAny)
  }

  /** Rule k is the first of those no other rule is preferred to. */
  ghost predicate Chosen(rules: seq<Rule>, user: Text, path: Text, k: nat) {
    && k < |rules| && AnswerOf(rules[k], user, path).Some?
    && forall j | 0 <= j < |rules| && AnswerOf(rules[j], user, path).Some? ::
         && !Prefers(AnswerOf(rules[j], user, path).value, AnswerOf(rules[k], user, path).value)
         && (j < k ==> Prefers(AnswerOf(rules[k], user, path).value, AnswerOf(rules[j], user, path).value))
  }

  /** Among rules whose directives tie, one that names the user comes before one for everybody. */
  lemma NamedComesFirst(rules: seq<Rule>, user: Text, path: Text, k: nat, j: nat)
    requires Chosen(rules, user, path, k) && j < |rules| && AnswerOf(rules[j], user, path).Some?
    requires !TakesPriority(AnswerOf(rules[k], user, path).value.directive, AnswerOf(rules[j], user, path).value.directive)
    ensures AnswerOf(rules[k], user, path).value.agent.matchAny ==> AnswerOf(rules[j], user, path).value.agent.matchAny
    ensures j < k ==>
              !AnswerOf(rules[k], user, path).value.agent.matchAny && AnswerOf(rules[j], user, path).value.agent.matchAny
  {
    hide AnswerOf, TakesPriority;
  }

  ghost predicate ChosenSoFar(rules: seq<Rule>, user: Text, path: Text, best: Option<Directive>, rule: nat) {
    if best.None? then forall j | 0 <= j < |rules| :: AnswerOf(rules[j], user, path).None?
    else Chosen(rules, user, path, rule) && best.value == AnswerOf(rules[rule], user, path).value.directive
  }

  /** FindDirective, on a decoded path; ties go to a rule that names the user literally. */
  method FindDirective(rules: seq<Rule>, user: Text, path: Text) returns (best: Option<Directive>, rule: nat, crawlDelay: nat)
    requires forall i | 0 <= i < |rules| :: WellSorted(rules[i])
    ensures BestSoFar(rules, user, path, best) && crawlDelay == CrawlDelay(rules, user, path)
    ensures ChosenSoFar(rules, user, path, best, rule)
  {
    hide TakesPriority, BestSoFar, BestOf, Applies, WellSorted, MatchesPath, ChosenSoFar, CrawlDelay, AgentOf, DirectiveOf;
    best, rule, crawlDelay := None, 0, 0;
    var bestAgent := None;
    NothingInPlay(user, path);
    assert rules[..0] == [];
    for i := 0 to |rules|
      invariant BestSoFar(rules[..i], user, path, best) && crawlDelay == CrawlDelay(rules[..i], user, path)
      invariant ChosenSoFar(rules[..i], user, path, best, rule)
      invariant best.Some? ==> bestAgent.Some? && rule < i && AnswerOf(rules[rule], user, path) == Some(RuleMatch(bestAgent.value, best.value))
    {
      var agent, d := MatchRule(rules[i], user, path);
      assert rules[..i + 1] == rules[..i] + [rules[i]];
      OneRuleMore(rules[..i], rules[i], user, path, best, d);
      OneAnswerMore(rules[..i], rules[i], user, path, best, rule);
      if agent.Some? && d.Some? {
        if rules[i].crawlDelay > crawlDelay { crawlDelay := rules[i].crawlDelay; }
        if best.None? || TakesPriority(d.value, best.value) {
          best, rule, bestAgent := d, i, agent;
        } else if !TakesPriority(best.value, d.value) && !agent.value.matchAny && bestAgent.value.matchAny {
          best, rule, bestAgent := d, i, agent;
        }
      }
    }
    assert rules[..|rules|] == rules;
  }

  /** What one more rule does to the choice. */
  lemma OneAnswerMore(rules: seq<Rule>, r: Rule, user: Text, path: Text, best: Option<Directive>, rule: nat)
    requires ChosenSoFar(rules, user, path, best, rule)
    ensures var a := AnswerOf(r, user, path);
            if a.Some? && (best.None? || Prefers(a.value, AnswerOf(rules[rule], user, path).value))
            then ChosenSoFar(rules + [r], user, path, Some(a.value.directive), |rules|)
            else ChosenSoFar(rules + [r], user, path, best, rule)
  {
    hide Prefers, AnswerOf;
    var a := AnswerOf(r, user, path);
    if a.Some? && best.Some? && Prefers(a.value, AnswerOf(rules[rule], user, path).value) {
      forall j | 0 <= j < |rules| && AnswerOf(rules[j], user, path).Some?
        ensures Prefers(a.value, AnswerOf(rules[j], user, path).value) && !Prefers(AnswerOf(rules[j], user, path).value, a.value)
      {
        PrefersIsOrder(a.value, AnswerOf(rules[j], user, path).value, AnswerOf(rules[rule], user, path).value);
      }
    }
    if a.Some? { PrefersIsOrder(a.value, a.value, a.value); }
  }

  /** The preference between rules is a strict weak order. */
  lemma PrefersIsOrder(a: RuleMatch, b: RuleMatch, c: RuleMatch)
    ensures Prefers(a, b) ==> !Prefers(b, a)
    ensures !Prefers(a, b) && !Prefers(b, c) ==> !Prefers(a, c)
  {
  }

  lemma NothingInPlay(user: Text, path: Text)
    ensures BestSoFar([], user, path, None) && CrawlDelay([], user, path) == 0 && ChosenSoFar([], user, path, None, 0)
  {
  }

  lemma InPlayMore(rules: seq<Rule>, r: Rule, user: Text, path: Text, d: Directive)
    ensures InPlay(rules + [r], user, path, d) <==> InPlay(rules, user, path, d) || InRule(r, user, path, d)
  {
    hide InRule;
    var all := rules + [r];
    if InPlay(rules, user, path, d) {
      var i :| 0 <= i < |rules| && InRule(rules[i], user, path, d);
      assert InRule(all[i], user, path, d);
    }
    assert InRule(r, user, path, d) ==> InRule(all[|rules|], user, path, d);
  }

  /** What one more rule does to the best directive and to the delay. */
  lemma OneRuleMore(rules: seq<Rule>, r: Rule, user: Text, path: Text, best: Option<Directive>, d: Option<Directive>)
    requires BestSoFar(rules, user, path, best)
    requires d.Some? <==> exists e :: InRule(r, user, path, e)
    requires d.Some? ==> BestOf(r, path, d.value) && Applies(r, user)
    ensures d.None? ==> BestSoFar(rules + [r], user, path, best)
    ensures d.Some? && best.None? ==> BestSoFar(rules + [r], user, path, d)
    ensures d.Some? && best.Some? && TakesPriority(d.value, best.value) ==> BestSoFar(rules + [r], user, path, d)
    ensures d.Some? && best.Some? && !TakesPriority(d.value, best.value) ==> BestSoFar(rules + [r], user, path, best)
    ensures d.Some? && best.Some? && !TakesPriority(d.value, best.value) && !TakesPriority(best.value, d.value) ==>
              BestSoFar(rules + [r], user, path, d)
    ensures CrawlDelay(rules + [r], user, path) ==
            if d.Some? && r.crawlDelay > CrawlDelay(rules, user, path) then r.crawlDelay else CrawlDelay(rules, user, path)
  {
    hide MatchesPath, TakesPriority, Applies, InPlay;
    assert (rules + [r])[..|rules|] == rules;
    forall e ensures InPlay(rules + [r], user, path, e) <==> InPlay(rules, user, path, e) || InRule(r, user, path, e) {
      InPlayMore(rules, r, user, path, e);
    }
    if d.Some? && best.Some? {
      PriorityIsOrder();
      forall e | InPlay(rules + [r], user, path, e)
        ensures !TakesPriority(e, best.value) || !TakesPriority(e, d.value)
        ensures TakesPriority(d.value, best.value) ==> !TakesPriority(e, d.value)
        ensures !TakesPriority(d.value, best.value) ==> !TakesPriority(e, best.value)
        ensures !TakesPriority(d.value, best.value) && !TakesPriority(best.value, d.value) ==> !TakesPriority(e, d.value)
      {
        Compare(e, best.value, d.value);
      }
    }
  }

  /** Priority among three directives. */
  lemma Compare(e: Directive, a: Directive, b: Directive)
    ensures !TakesPriority(e, a) && TakesPriority(b, a) ==> !TakesPriority(e, b)
    ensures !TakesPriority(e, b) && !TakesPriority(b, a) ==> !TakesPriority(e, a)
    ensures !TakesPriority(e, a) && !TakesPriority(a, b) ==> !TakesPriority(e, b)
  {
  }

  /** PathAllowed: the first slash is skipped, the rest decoded. */
  method PathAllowed(rules: seq<Rule>, user: Text, path: Text) returns (allowed: bool, crawlDelay: nat)
    requires forall i | 0 <= i < |rules| :: WellSorted(rules[i])
    ensures allowed <==> !Denied(rules, user, DecodedPath(path))
    ensures crawlDelay == CrawlDelay(rules, user, DecodedPath(path))
  {
    hide Decides, WellSorted, Decoded, UpToNul;
    var decode := UrlDecode(if |path| > 0 && path[0] == SLASH then path[1..] else path);
    var d, rule;
    d, rule, crawlDelay := FindDirective(rules, user, decode);
    VerdictIsBest(rules, user, decode, d);
    allowed := d.None? || d.value.permission == Allow;
  }

  function DecodedPath(path: Text): Text {
    UpToNul(Decoded(Body(path)))
  }

  /** Whichever of the directives that decide was found, the verdict is the same. */
  lemma VerdictIsBest(rules: seq<Rule>, user: Text, path: Text, best: Option<Directive>)
    requires BestSoFar(rules, user, path, best)
    ensures Denied(rules, user, path) <==> best.Some? && best.value.permission == Disallow
  {
    hide InPlay;
    if Denied(rules, user, path) {
      var d :| Decides(rules, user, path, d) && d.permission == Disallow;
      if best.Some? { TiesAgree(d, best.value); }
    }
  }

  /** Two groups with the same agents and the same directives, in any order. */
  ghost predicate SameGroup(a: Rule, b: Rule) {
    multiset(a.userAgents) == multiset(b.userAgents) && multiset(a.directives) == multiset(b.directives)
  }

  /** Every group of one file is a group of the other. */
  ghost predicate Covered(rules: seq<Rule>, other: seq<Rule>) {
    forall i | 0 <= i < |rules| :: exists j :: 0 <= j < |other| && SameGroup(rules[i], other[j])
  }

  lemma SameGroupSamePlay(a: Rule, b: Rule, user: Text, path: Text, d: Directive)
    requires SameGroup(a, b) && InRule(a, user, path, d)
    ensures InRule(b, user, path, d)
  {
    hide MatchesPath;
    var i :| 0 <= i < |a.userAgents| && Names(a.userAgents[i], user);
    assert a.userAgents[i] in multiset(a.userAgents) && a.userAgents[i] in b.userAgents;
    var j :| 0 <= j < |b.userAgents| && b.userAgents[j] == a.userAgents[i];
    assert d in multiset(a.directives) && d in b.directives;
  }

  lemma CoveredInPlay(rules: seq<Rule>, other: seq<Rule>, user: Text, path: Text, d: Directive)
    requires Covered(rules, other) && InPlay(rules, user, path, d)
    ensures InPlay(other, user, path, d)
  {
    hide InRule, SameGroup;
    var i :| 0 <= i < |rules| && InRule(rules[i], user, path, d);
    var j :| 0 <= j < |other| && SameGroup(rules[i], other[j]);
    SameGroupSamePlay(rules[i], other[j], user, path, d);
  }

  /** The verdict does not depend on the order of groups, of agents or of directives. */
  lemma OrderDoesNotMatter(rules: seq<Rule>, other: seq<Rule>, user: Text, path: Text)
    requires Covered(rules, other) && Covered(other, rules)
    ensures Denied(rules, user, path) <==> Denied(other, user, path)
  {
    hide InPlay, Covered, TakesPriority;
    forall d ensures InPlay(rules, user, path, d) <==> InPlay(other, user, path, d) {
      if InPlay(rules, user, path, d) { CoveredInPlay(rules, other, user, path, d); }
      if InPlay(other, user, path, d) { CoveredInPlay(other, rules, user, path, d); }
    }
    forall d ensures Decides(rules, user, path, d) <==> Decides(other, user, path, d) {}
  }

  /** The same group, but for the case of letters in the agents' names. */
  ghost predicate RecasedGroup(a: Rule, b: Rule) {
    && a.directives == b.directives && |a.userAgents| == |b.userAgents|
    && forall i | 0 <= i < |a.userAgents| :: RecasedAgent(a.userAgents[i], b.userAgents[i])
  }

  ghost predicate RecasedAgent(a: UserAgent, b: UserAgent) {
    a.matchAny == b.matchAny && Recased(a.name, b.name)
  }

  lemma RecasedNames(a: UserAgent, b: UserAgent, user: Text, other: Text)
    requires RecasedAgent(a, b) && Recased(user, other)
    ensures Names(a, user) <==> Names(b, other)
  {
    forall k ensures OccursAt(a.name, user, k) <==> OccursAt(b.name, other, k) {
      RecasedOccurs(a.name, b.name, user, other, k);
    }
  }

  lemma RecasedApplies(a: Rule, b: Rule, user: Text, other: Text)
    requires RecasedGroup(a, b) && Recased(user, other)
    ensures Applies(a, user) <==> Applies(b, other)
  {
    hide Names, RecasedAgent;
    forall i | 0 <= i < |a.userAgents| ensures Names(a.userAgents[i], user) <==> Names(b.userAgents[i], other) {
      RecasedNames(a.userAgents[i], b.userAgents[i], user, other);
    }
  }

  /** The verdict does not depend on the case of letters, in the agents' names or in the user's. */
  lemma CaseDoesNotMatter(rules: seq<Rule>, recased: seq<Rule>, user: Text, other: Text, path: Text)
    requires |rules| == |recased| && forall i | 0 <= i < |rules| :: RecasedGroup(rules[i], recased[i])
    requires Recased(user, other)
    ensures Denied(rules, user, path) <==> Denied(recased, other, path)
  {
    hide Applies, MatchesPath, TakesPriority, RecasedGroup;
    forall i, d | 0 <= i < |rules| ensures InRule(rules[i], user, path, d) <==> InRule(recased[i], other, path, d) {
      RecasedInRule(rules[i], recased[i], user, other, path, d);
    }
    forall d ensures InPlay(rules, user, path, d) <==> InPlay(recased, other, path, d) {}
    forall d ensures Decides(rules, user, path, d) <==> Decides(recased, other, path, d) {}
  }

  lemma RecasedInRule(a: Rule, b: Rule, user: Text, other: Text, path: Text, d: Directive)
    requires RecasedGroup(a, b) && Recased(user, other)
    ensures InRule(a, user, path, d) <==> InRule(b, other, path, d)
  {
    hide Applies, MatchesPath;
    RecasedApplies(a, b, user, other);
  }
}
