/**
  Where parser/RobotsManager.cpp decides otherwise than its comments say, and exactly
  when.  The comment above class Directive's constructor ranks patterns by their literal
  bytes without wildcards, and the code counts a final '$' among them.  The comment of
  FindDirective announces the largest delay of all applicable rules, and the code takes
  only those with a directive that matches the path.
*/
module RobotsDocumented {
  import opened Bytes
  import opened RobotsWildcard
  import opened RobotsRules
  import QuickSort

  // ---------------------------------------------------------------- the ranking of patterns

  /** As the constructor leaves a pattern: the anchor is counted, but it is not in the text. */
  predicate Counted(p: Pattern) {
    p.literalBytes == Literals(p.text) + if p.endsInDollarSign then 1 else 0
  }

  lemma CompiledIsCounted(arg: Text)
    ensures Counted(PatternOf(arg))
  {
  }

  /** More literal bytes, the anchor not counted, and then the anchored one. */
  predicate MoreLiteral(a: Pattern, b: Pattern) {
    || Literals(a.text) > Literals(b.text)
    || (Literals(a.text) == Literals(b.text) && a.endsInDollarSign && !b.endsInDollarSign)
  }

  /** The anchor of the one makes up for the literal byte the other has more. */
  predicate AnchorCounts(a: Pattern, b: Pattern) {
    a.endsInDollarSign && !b.endsInDollarSign && Literals(a.text) + 1 == Literals(b.text)
  }

  /** The code ranks two compiled patterns as documented exactly when no anchor makes up for a byte. */
  lemma RankedAsDocumented(x: Text, y: Text)
    ensures var a, b := PatternOf(x), PatternOf(y);
            (MoreSpecific(a, b) <==> MoreLiteral(a, b)) <==> !AnchorCounts(a, b) && !AnchorCounts(b, a)
  {
    CompiledIsCounted(x);
    CompiledIsCounted(y);
  }

  predicate Outranks(a: Directive, b: Directive) {
    || MoreLiteral(a.wildcard, b.wildcard)
    || (!MoreLiteral(b.wildcard, a.wildcard) && a.permission == Allow && b.permission == Disallow)
  }

  lemma OutranksIsOrder()
    ensures QuickSort.WeakOrder(Outranks)
  {
    hide Literals;
  }

  // ---------------------------------------------------------------- the verdict

  /** Every pattern of the file came out of the constructor. */
  ghost predicate AllCounted(rules: seq<Rule>) {
    forall i, d | 0 <= i < |rules| && d in rules[i].directives :: Counted(d.wildcard)
  }

  ghost predicate DecidesAsDocumented(rules: seq<Rule>, user: Text, path: Text, d: Directive) {
    InPlay(rules, user, path, d) && forall e | InPlay(rules, user, path, e) :: !Outranks(e, d)
  }

  ghost predicate DeniedAsDocumented(rules: seq<Rule>, user: Text, path: Text) {
    exists d :: DecidesAsDocumented(rules, user, path, d) && d.permission == Disallow
  }

  predicate Alike(a: Pattern, b: Pattern) {
    Literals(a.text) == Literals(b.text) && a.endsInDollarSign == b.endsInDollarSign
  }

  /**
    An anchored directive stands against an unanchored one with one literal byte more and
    the other permission.  Nothing in play is more literal than that one, and where one of
    the two denies, nothing alike allows.
  */
  ghost predicate AnchorOverrules(rules: seq<Rule>, user: Text, path: Text, d: Directive, e: Directive) {
    && InPlay(rules, user, path, d) && InPlay(rules, user, path, e)
    && AnchorCounts(d.wildcard, e.wildcard) && d.permission != e.permission
    && (forall f | InPlay(rules, user, path, f) :: !MoreLiteral(f.wildcard, e.wildcard))
    && forall f | InPlay(rules, user, path, f) && f.permission == Allow ::
         && (Alike(f.wildcard, d.wildcard) ==> d.permission == Allow)
         && (Alike(f.wildcard, e.wildcard) ==> e.permission == Allow)
  }

  /** The directives in play are finitely many. */
  ghost function PlaySet(rules: seq<Rule>, user: Text, path: Text): set<Directive> {
    set i, d | 0 <= i < |rules| && d in rules[i].directives && InRule(rules[i], user, path, d) :: d
  }

  lemma PlaySetIsPlay(rules: seq<Rule>, user: Text, path: Text)
    ensures forall d :: d in PlaySet(rules, user, path) <==> InPlay(rules, user, path, d)
  {
    hide MatchesPath, Applies;
    forall d ensures d in PlaySet(rules, user, path) <==> InPlay(rules, user, path, d) {
      if InPlay(rules, user, path, d) {
        var i :| 0 <= i < |rules| && InRule(rules[i], user, path, d);
        assert d in rules[i].directives;
      }
    }
  }

  /** Among finitely many there is one that none comes before. */
  lemma {:induction false} FirstOf(s: set<Directive>, before: (Directive, Directive) -> bool) returns (d: Directive)
    requires s != {} && QuickSort.WeakOrder(before)
    ensures d in s && forall e | e in s :: !before(e, d)
    decreases |s|
  {
    var x :| x in s;
    var rest := s - {x};
    d := x;
    if rest != {} {
      var y := FirstOf(rest, before);
      if before(y, x) { d := y; }
    }
  }

  lemma BothDecide(rules: seq<Rule>, user: Text, path: Text, f: Directive) returns (d: Directive, e: Directive)
    requires InPlay(rules, user, path, f)
    ensures Decides(rules, user, path, d) && DecidesAsDocumented(rules, user, path, e)
  {
    hide InPlay, TakesPriority, Outranks, PlaySet, QuickSort.WeakOrder;
    PlaySetIsPlay(rules, user, path);
    PriorityIsOrder();
    OutranksIsOrder();
    d := FirstOf(PlaySet(rules, user, path), TakesPriority);
    e := FirstOf(PlaySet(rules, user, path), Outranks);
  }

  /** The permissions of the directives that decide are the verdicts. */
  lemma VerdictsAre(rules: seq<Rule>, user: Text, path: Text, d: Directive, e: Directive)
    requires Decides(rules, user, path, d) && DecidesAsDocumented(rules, user, path, e)
    ensures Denied(rules, user, path) <==> d.permission == Disallow
    ensures DeniedAsDocumented(rules, user, path) <==> e.permission == Disallow
  {
    hide InPlay, Literals;
    if f :| Decides(rules, user, path, f) && f.permission == Disallow { TiesAgree(f, d); }
    if f :| DecidesAsDocumented(rules, user, path, f) && f.permission == Disallow { assert !Outranks(e, f) && !Outranks(f, e); }
  }

  lemma InPlayIsCounted(rules: seq<Rule>, user: Text, path: Text)
    requires AllCounted(rules)
    ensures forall d | InPlay(rules, user, path, d) :: Counted(d.wildcard)
  {
  }

  lemma OverrulingDecides(rules: seq<Rule>, user: Text, path: Text, d: Directive, e: Directive)
    requires AllCounted(rules) && AnchorOverrules(rules, user, path, d, e)
    ensures Decides(rules, user, path, d) && DecidesAsDocumented(rules, user, path, e)
  {
    hide InPlay, Literals;
    InPlayIsCounted(rules, user, path);
  }

  lemma DifferenceOverrules(rules: seq<Rule>, user: Text, path: Text, d: Directive, e: Directive)
    requires AllCounted(rules) && d.permission != e.permission
    requires Decides(rules, user, path, d) && DecidesAsDocumented(rules, user, path, e)
    ensures AnchorOverrules(rules, user, path, d, e)
  {
    hide InPlay, Literals;
    InPlayIsCounted(rules, user, path);
    assert !TakesPriority(e, d) && !Outranks(d, e);
  }

  /** The verdict is the documented one exactly when no anchored directive overrules one with a byte more. */
  lemma VerdictAsDocumented(rules: seq<Rule>, user: Text, path: Text)
    requires AllCounted(rules)
    ensures (Denied(rules, user, path) <==> DeniedAsDocumented(rules, user, path)) <==>
            !exists d, e :: AnchorOverrules(rules, user, path, d, e)
  {
    hide InPlay, AllCounted, AnchorOverrules, TakesPriority, Outranks;
    if d, e :| AnchorOverrules(rules, user, path, d, e) {
      OverrulingDecides(rules, user, path, d, e);
      VerdictsAre(rules, user, path, d, e);
      OtherPermission(rules, user, path, d, e);
    } else if f :| InPlay(rules, user, path, f) {
      var d, e := BothDecide(rules, user, path, f);
      VerdictsAre(rules, user, path, d, e);
      if d.permission != e.permission { DifferenceOverrules(rules, user, path, d, e); }
    }
  }

  lemma OtherPermission(rules: seq<Rule>, user: Text, path: Text, d: Directive, e: Directive)
    requires AnchorOverrules(rules, user, path, d, e)
    ensures d.permission != e.permission
  {
  }

  const EVERYONE: UserAgent := UserAgent([STAR], true)

  /** "Disallow: a*$" and "Allow: ab" for everyone. */
  function AnchoredGroup(): Rule {
    Rule([EVERYONE], [Directive(Disallow, PatternOf([97, STAR, DOLLAR])), Directive(Allow, PatternOf([97, 98]))], 0)
  }

  /** On the path "ab" the documented ranking allows, by two literal bytes against one, and the code denies. */
  lemma AnchorDenies(user: Text)
    ensures Denied([AnchoredGroup()], user, [97, 98]) && !DeniedAsDocumented([AnchoredGroup()], user, [97, 98])
  {
    hide MatchesPath, InPlay, Literals, AnchorOverrules;
    var rules, path := [AnchoredGroup()], [97, 98];
    var d, e := AnchoredGroup().directives[0], AnchoredGroup().directives[1];
    AnchoredPatterns();
    AnchoredMatches();
    GroupInPlay(AnchoredGroup(), user, path);
    TwoOverrule(rules, user, path, d, e);
    OverrulingDecides(rules, user, path, d, e);
    VerdictsAre(rules, user, path, d, e);
  }

  lemma AnchoredPatterns()
    ensures PatternOf([97, STAR, DOLLAR]) == Pattern([97, STAR], 2, true) && PatternOf([97, 98]) == Pattern([97, 98], 2, false)
    ensures Literals([97, STAR]) == 1 && Literals([97, 98]) == 2
  {
    assert [97][..0] == [] && [97, STAR][..1] == [97] && [97, 98][..1] == [97];
    assert Literals([97]) == 1;
    assert [97, STAR, DOLLAR][..2] == [97, STAR];
    assert Literals([97, STAR]) == 1;
  }

  lemma AnchoredMatches()
    ensures forall d | d in AnchoredGroup().directives :: MatchesPath(d, [97, 98])
  {
    hide Literals;
    AnchoredPatterns();
    assert [97, STAR][1..] == [STAR] && [97, 98][1..] == [98];
    assert Filled([STAR], [[98]]) == [98];
    assert FilledBy([97, STAR], true, [97, 98], [[98]]);
    assert Filled([98], []) == [98];
    assert FilledBy([97, 98], false, [97, 98], []);
  }

  /** A group for everyone applies, and its matching directives are those in play. */
  lemma GroupInPlay(r: Rule, user: Text, path: Text)
    requires r.userAgents == [EVERYONE]
    ensures Applies(r, user)
    ensures forall d :: InPlay([r], user, path, d) <==> d in r.directives && MatchesPath(d, path)
  {
    hide MatchesPath;
    assert Names(r.userAgents[0], user);
    forall d | d in r.directives && MatchesPath(d, path) ensures InPlay([r], user, path, d) {
      assert InRule([r][0], user, path, d);
    }
  }

  /** With two directives in play, of which the anchored one has a byte less, it overrules. */
  lemma TwoOverrule(rules: seq<Rule>, user: Text, path: Text, d: Directive, e: Directive)
    requires InPlay(rules, user, path, d) && InPlay(rules, user, path, e)
    requires forall f | InPlay(rules, user, path, f) :: f == d || f == e
    requires AnchorCounts(d.wildcard, e.wildcard) && d.permission != e.permission
    ensures AnchorOverrules(rules, user, path, d, e)
  {
    hide InPlay, Literals;
  }

  // ---------------------------------------------------------------- the announced delay

  /** Some directive of the rule matches, for a user the rule names. */
  ghost predicate Speaks(r: Rule, user: Text, path: Text) {
    exists d :: InRule(r, user, path, d)
  }

  /** The largest delay of all rules that name the user. */
  ghost function LargestDelay(rules: seq<Rule>, user: Text): nat {
    if rules == [] then 0
    else
      var rest, r := LargestDelay(rules[..|rules| - 1], user), rules[|rules| - 1];
      if r.crawlDelay > rest && Applies(r, user) then r.crawlDelay else rest
  }

  lemma {:induction false} LargestDelayIs(rules: seq<Rule>, user: Text)
    ensures forall i | 0 <= i < |rules| && Applies(rules[i], user) :: rules[i].crawlDelay <= LargestDelay(rules, user)
    ensures LargestDelay(rules, user) == 0 || exists i | 0 <= i < |rules| ::
              Applies(rules[i], user) && rules[i].crawlDelay == LargestDelay(rules, user)
    decreases |rules|
  {
    hide Applies;
    if rules != [] {
      var before := rules[..|rules| - 1];
      LargestDelayIs(before, user);
      assert forall i | 0 <= i < |before| :: before[i] == rules[i];
    }
  }

  lemma {:induction false} AnnouncedDelayIs(rules: seq<Rule>, user: Text, path: Text)
    ensures forall i | 0 <= i < |rules| && Speaks(rules[i], user, path) :: rules[i].crawlDelay <= CrawlDelay(rules, user, path)
    ensures CrawlDelay(rules, user, path) == 0 || exists i | 0 <= i < |rules| ::
              Speaks(rules[i], user, path) && rules[i].crawlDelay == CrawlDelay(rules, user, path)
    decreases |rules|
  {
    hide InRule;
    if rules != [] {
      var before := rules[..|rules| - 1];
      AnnouncedDelayIs(before, user, path);
      assert forall i | 0 <= i < |before| :: before[i] == rules[i];
    }
  }

  /**
    The announced delay is never larger than the documented one, and is it exactly when
    no applicable rule has a delay or some rule with the largest has a directive that
    matches the path.
  */
  lemma DelayAsDocumented(rules: seq<Rule>, user: Text, path: Text)
    ensures CrawlDelay(rules, user, path) <= LargestDelay(rules, user)
    ensures CrawlDelay(rules, user, path) == LargestDelay(rules, user) <==>
            || LargestDelay(rules, user) == 0
            || exists i | 0 <= i < |rules| :: rules[i].crawlDelay == LargestDelay(rules, user) && Speaks(rules[i], user, path)
  {
    hide InRule, CrawlDelay, LargestDelay;
    LargestDelayIs(rules, user);
    AnnouncedDelayIs(rules, user, path);
    forall i | 0 <= i < |rules| && Speaks(rules[i], user, path) ensures Applies(rules[i], user) {
      SpeaksIfApplies(rules[i], user, path);
    }
  }

  lemma SpeaksIfApplies(r: Rule, user: Text, path: Text)
    requires Speaks(r, user, path)
    ensures Applies(r, user)
  {
    hide Applies, MatchesPath;
  }

  /** "Disallow: b" and "Crawl-delay: 5" for everyone: on the path "a" no delay is announced. */
  lemma DelayNotAnnounced(user: Text)
    ensures var rules := [Rule([EVERYONE], [Directive(Disallow, PatternOf([98]))], 5)];
            CrawlDelay(rules, user, [97]) == 0 && LargestDelay(rules, user) == 5
  {
    hide Literals, MatchesPath;
    var r := Rule([EVERYONE], [Directive(Disallow, PatternOf([98]))], 5);
    GroupInPlay(r, user, [97]);
    OtherLetter();
    assert forall d :: !InRule(r, user, [97], d);
    assert [r][..0] == [];
  }

  lemma OtherLetter()
    ensures PatternOf([98]) == Pattern([98], 1, false) && !MatchesPath(Directive(Disallow, PatternOf([98])), [97])
  {
    assert [98][..0] == [];
    assert [98] == [98] + [];
    AcceptsLiteral(98, [], false, [97]);
  }
}
