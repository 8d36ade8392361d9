/** Pair and set decisions do not depend on the order of rules, constraints or implications (src/registry.cpp). */
module Rearranging {
  import opened Order
  import opened Sorting
  import opened Rules
  import opened Engine
  import opened Canonical

  // ----- Rules in another order -----

  lemma {:induction false} ActiveOfPermutation(a: seq<Rule>, arity: RuleArity)
    ensures forall r :: multiset(ActiveOf(a, arity))[r] == if r.state == Active && r.arity == arity then multiset(a)[r] else 0
  {
    if a != [] {
      ActiveOfPermutation(a[..|a| - 1], arity);
      assert a == a[..|a| - 1] + [a[|a| - 1]];
    }
  }

  lemma {:induction false} MatchingPermutation(a: seq<Rule>, left: ComponentSpec, right: ComponentSpec)
    ensures forall r :: multiset(Matching(a, left, right))[r] == if RuleMatches(r, left, right) then multiset(a)[r] else 0
  {
    hide RuleMatches;
    if a != [] {
      MatchingPermutation(a[..|a| - 1], left, right);
      assert a == a[..|a| - 1] + [a[|a| - 1]];
    }
  }

  lemma MultisetsAgree<T>(a: seq<T>, b: seq<T>)
    requires forall r :: multiset(a)[r] == multiset(b)[r]
    ensures multiset(a) == multiset(b)
  {
  }

  /** The ranking needs no input order: permuted rules are matched in the same sequence. */
  lemma MatchedRulesForgetOrder(g: Generation, h: Generation, left: ComponentSpec, right: ComponentSpec)
    requires multiset(g.rules) == multiset(h.rules) && DistinctIds(g.rules)
    ensures MatchPairRules(g, left, right) == MatchPairRules(h, left, right)
    ensures ActiveOf(g.rules, Pair) == [] <==> ActiveOf(h.rules, Pair) == []
  {
    hide RuleMatches, PrecedenceHigher;
    var a, b := ActiveOf(g.rules, Pair), ActiveOf(h.rules, Pair);
    ActiveOfPermutation(g.rules, Pair);
    ActiveOfPermutation(h.rules, Pair);
    MultisetsAgree(a, b);
    MembersOfPermutation(a, b);
    var x, y := Matching(a, left, right), Matching(b, left, right);
    MatchingPermutation(a, left, right);
    MatchingPermutation(b, left, right);
    MultisetsAgree(x, y);
    ActiveOfMembers(g.rules, Pair);
    MatchingMembers(a, left, right);
    DistinctIdsDistinguish(g.rules);
    PrecedenceHigherIsStrictTotal();
    SortForgetsOrder(PrecedenceHigher, x, y);
  }

  lemma RuleOrderDoesNotMatter(g: Generation, h: Generation, left: ComponentSpec, right: ComponentSpec)
    requires g.taxonomy == h.taxonomy && multiset(g.rules) == multiset(h.rules) && DistinctIds(g.rules)
    ensures EvaluatePair(g, left, right) == EvaluatePair(h, left, right)
  {
    hide MatchPairRules, ActiveOf, Decide;
    MatchedRulesForgetOrder(g, h, left, right);
  }

  // ----- Constraints and implications in another order -----

  ghost predicate Aligned(a: seq<Rule>, b: seq<Rule>) {
    |a| == |b| && forall i :: 0 <= i < |a| ==> SameRule(a[i], b[i])
  }

  lemma SameSize<T>(a: seq<T>, b: seq<T>)
    requires multiset(a) == multiset(b)
    ensures |a| == |b|
    ensures forall x :: x in a <==> x in b
  {
    assert |multiset(a)| == |a| && |multiset(b)| == |b|;
    forall x ensures x in a <==> x in b {
      assert x in a <==> x in multiset(a);
      assert x in b <==> x in multiset(b);
    }
  }

  lemma SameRuleRanksAlike(a: Rule, b: Rule, x: Rule, y: Rule)
    requires SameRule(a, b) && SameRule(x, y)
    ensures PrecedenceHigher(a, x) == PrecedenceHigher(b, y)
    ensures RuleTier(a) == RuleTier(b)
  {
    SameSize(a.constraints, b.constraints);
    SameSize(a.implications, b.implications);
    SameSize(x.constraints, y.constraints);
    SameSize(x.implications, y.implications);
  }

  lemma StatusOccurs(r: Rule, sides: Sides, taxonomy: Taxonomy, s: Status)
    ensures s in Statuses(r, sides, taxonomy) <==>
      exists c :: c in r.constraints && ConstraintStatus(c, Resolve(sides, c.side), taxonomy) == s
  {
    hide ConstraintStatus;
    var all := Statuses(r, sides, taxonomy);
    if exists c :: c in r.constraints && ConstraintStatus(c, Resolve(sides, c.side), taxonomy) == s {
      var c :| c in r.constraints && ConstraintStatus(c, Resolve(sides, c.side), taxonomy) == s;
      var k :| 0 <= k < |r.constraints| && r.constraints[k] == c;
      assert all[k] == s;
    }
    if s in all {
      var k :| 0 <= k < |all| && all[k] == s;
      assert r.constraints[k] in r.constraints;
    }
  }

  lemma SameRuleSameVerdict(a: Rule, b: Rule, sides: Sides, taxonomy: Taxonomy)
    requires SameRule(a, b)
    ensures Apply(a, sides, taxonomy) == Apply(b, sides, taxonomy)
  {
    hide Statuses, ConstraintStatus;
    SameSize(a.constraints, b.constraints);
    forall s ensures s in Statuses(a, sides, taxonomy) <==> s in Statuses(b, sides, taxonomy) {
      StatusOccurs(a, sides, taxonomy, s);
      StatusOccurs(b, sides, taxonomy, s);
    }
  }

  lemma {:induction false} InsertAligned(x: Rule, y: Rule, a: seq<Rule>, b: seq<Rule>)
    requires SameRule(x, y) && Aligned(a, b)
    ensures Aligned(Insert(PrecedenceHigher, x, a), Insert(PrecedenceHigher, y, b))
  {
    hide SameRule, PrecedenceHigher;
    if a != [] {
      SameRuleRanksAlike(a[0], b[0], x, y);
      InsertAligned(x, y, a[1..], b[1..]);
    }
  }

  lemma {:induction false} SortAligned(a: seq<Rule>, b: seq<Rule>)
    requires Aligned(a, b)
    ensures Aligned(Sort(PrecedenceHigher, a), Sort(PrecedenceHigher, b))
  {
    hide SameRule, PrecedenceHigher;
    if a != [] {
      SortAligned(a[1..], b[1..]);
      InsertAligned(a[0], b[0], Sort(PrecedenceHigher, a[1..]), Sort(PrecedenceHigher, b[1..]));
    }
  }

  lemma SameRuleMatches(a: Rule, b: Rule, left: ComponentSpec, right: ComponentSpec)
    requires SameRule(a, b)
    ensures RuleMatches(a, left, right) == RuleMatches(b, left, right)
    ensures a.state == b.state && a.arity == b.arity && a.id == b.id && a.revision == b.revision && a.negotiation == b.negotiation
  {
    hide SelectorMatches;
  }

  lemma {:induction false} ActiveAligned(a: seq<Rule>, b: seq<Rule>, arity: RuleArity)
    requires Aligned(a, b)
    ensures Aligned(ActiveOf(a, arity), ActiveOf(b, arity))
  {
    if a != [] {
      ActiveAligned(a[..|a| - 1], b[..|b| - 1], arity);
      assert SameRule(a[|a| - 1], b[|b| - 1]);
    }
  }

  lemma {:induction false} MatchingAligned(a: seq<Rule>, b: seq<Rule>, left: ComponentSpec, right: ComponentSpec)
    requires Aligned(a, b)
    ensures Aligned(Matching(a, left, right), Matching(b, left, right))
  {
    if a != [] {
      var n := |a| - 1;
      SameRuleMatches(a[n], b[n], left, right);
      hide SameRule, RuleMatches;
      MatchingAligned(a[..n], b[..n], left, right);
    }
  }

  /** All of a decision that does not spell out a rule's lists. */
  ghost predicate SameDecision(a: Decision, b: Decision) {
    && a.outcome == b.outcome && a.reason == b.reason && a.totalMatched == b.totalMatched && a.policy == b.policy
    && a.decider.Some? == b.decider.Some?
    && (a.decider.Some? ==> a.decider.value.id == b.decider.value.id && a.decider.value.revision == b.decider.value.revision)
  }

  /** Aligned rules, each with the same sides as its counterpart, decide alike. */
  lemma DecideAligned(a: seq<Rule>, b: seq<Rule>, sidesOf: Rule -> Sides, taxonomy: Taxonomy)
    requires Aligned(a, b) && SidesAgree(a, b, sidesOf)
    ensures SameDecision(Decide(a, sidesOf, taxonomy), Decide(b, sidesOf, taxonomy))
  {
    var v, w := Verdicts(a, sidesOf, taxonomy), Verdicts(b, sidesOf, taxonomy);
    forall i | 0 <= i < |v| ensures v[i] == w[i] {
      SameRuleSameVerdict(a[i], b[i], sidesOf(a[i]), taxonomy);
    }
    hide Apply;
    assert v == w;
    var k := FirstResolved(v);
    if k < |a| { assert SameRule(a[k], b[k]); }
  }

  lemma MatchedAligned(g: Generation, h: Generation, left: ComponentSpec, right: ComponentSpec)
    requires Aligned(g.rules, h.rules)
    ensures Aligned(MatchPairRules(g, left, right), MatchPairRules(h, left, right))
    ensures ActiveOf(g.rules, Pair) == [] <==> ActiveOf(h.rules, Pair) == []
  {
    ActiveAligned(g.rules, h.rules, Pair);
    var x, y := ActiveOf(g.rules, Pair), ActiveOf(h.rules, Pair);
    AlignedLengths(x, y);
    MatchingAligned(x, y, left, right);
    hide Aligned, ActiveOf, Matching;
    SortAligned(Matching(x, left, right), Matching(y, left, right));
  }

  /** Counterparts look at the same sides. */
  ghost predicate SidesAgree(a: seq<Rule>, b: seq<Rule>, sidesOf: Rule -> Sides) {
    |a| == |b| && forall i :: 0 <= i < |a| ==> sidesOf(a[i]) == sidesOf(b[i])
  }

  lemma PairSidesAgree(a: seq<Rule>, b: seq<Rule>, left: ComponentSpec, right: ComponentSpec)
    requires Aligned(a, b)
    ensures SidesAgree(a, b, PairSides(left, right))
  {
  }

  lemma SameRefusal(g: Generation, h: Generation, left: ComponentSpec, right: ComponentSpec)
    requires g.taxonomy == h.taxonomy && (ActiveOf(g.rules, Pair) == [] <==> ActiveOf(h.rules, Pair) == [])
    ensures RefusalOfPair(g, left, right) == RefusalOfPair(h, left, right)
  {
    hide ActiveOf;
  }

  lemma EvaluateStep(g: Generation, left: ComponentSpec, right: ComponentSpec)
    ensures var refusal := RefusalOfPair(g, left, right);
      EvaluatePair(g, left, right) ==
      if refusal.Some? then Undecided(refusal.value, 0) else Decide(MatchPairRules(g, left, right), PairSides(left, right), g.taxonomy)
  {
    hide RefusalOfPair, Decide, MatchPairRules, PairSides;
  }

  lemma AlignedRulesDecideAlike(g: Generation, h: Generation, left: ComponentSpec, right: ComponentSpec)
    requires g.taxonomy == h.taxonomy && Aligned(g.rules, h.rules)
    ensures SameDecision(EvaluatePair(g, left, right), EvaluatePair(h, left, right))
  {
    hide *;
    MatchedAligned(g, h, left, right);
    SameRefusal(g, h, left, right);
    PairSidesAgree(MatchPairRules(g, left, right), MatchPairRules(h, left, right), left, right);
    DecideAligned(MatchPairRules(g, left, right), MatchPairRules(h, left, right), PairSides(left, right), g.taxonomy);
    EvaluateStep(g, left, right);
    EvaluateStep(h, left, right);
    SameIsSame(EvaluatePair(g, left, right));
  }

  lemma SameIsSame(d: Decision)
    ensures SameDecision(d, d)
  {
  }

  lemma AlignedLengths(a: seq<Rule>, b: seq<Rule>)
    requires Aligned(a, b)
    ensures a == [] <==> b == []
  {
  }

  // ----- The same for set rules -----

  lemma {:induction false} MatchingSetPermutation(a: seq<Rule>, members: seq<ComponentSpec>)
    ensures forall r :: multiset(MatchingSet(a, members))[r] == if MatchesSomeMember(r, members) then multiset(a)[r] else 0
  {
    hide MatchesSomeMember;
    if a != [] {
      MatchingSetPermutation(a[..|a| - 1], members);
      assert a == a[..|a| - 1] + [a[|a| - 1]];
    }
  }

  lemma MatchedSetRulesForgetOrder(g: Generation, h: Generation, members: seq<ComponentSpec>)
    requires multiset(g.rules) == multiset(h.rules) && DistinctIds(g.rules)
    ensures MatchSetRules(g, members) == MatchSetRules(h, members)
    ensures ActiveOf(g.rules, Set) == [] <==> ActiveOf(h.rules, Set) == []
  {
    hide MatchesSomeMember, PrecedenceHigher;
    var a, b := ActiveOf(g.rules, Set), ActiveOf(h.rules, Set);
    ActiveOfPermutation(g.rules, Set);
    ActiveOfPermutation(h.rules, Set);
    MultisetsAgree(a, b);
    MembersOfPermutation(a, b);
    var x, y := MatchingSet(a, members), MatchingSet(b, members);
    MatchingSetPermutation(a, members);
    MatchingSetPermutation(b, members);
    MultisetsAgree(x, y);
    ActiveOfMembers(g.rules, Set);
    MatchingSetMembers(a, members);
    DistinctIdsDistinguish(g.rules);
    PrecedenceHigherIsStrictTotal();
    SortForgetsOrder(PrecedenceHigher, x, y);
  }

  lemma SetLevelForgetsOrder(g: Generation, h: Generation, members: seq<ComponentSpec>)
    requires g.taxonomy == h.taxonomy && multiset(g.rules) == multiset(h.rules) && DistinctIds(g.rules)
    ensures EvaluateSetLevel(g, members) == EvaluateSetLevel(h, members)
  {
    hide MatchSetRules, ActiveOf, Decide;
    MatchedSetRulesForgetOrder(g, h, members);
  }

  lemma SameRuleSameMembers(a: Rule, b: Rule, members: seq<ComponentSpec>)
    requires SameRule(a, b)
    ensures MatchesSomeMember(a, members) == MatchesSomeMember(b, members)
    ensures SetSides(members)(a) == SetSides(members)(b)
  {
    assert a.left == b.left;
    SameLeftSameMembers(a, b, members);
    hide SelectorMatches;
  }

  lemma {:induction false} SameLeftSameMembers(a: Rule, b: Rule, members: seq<ComponentSpec>)
    requires a.left == b.left
    ensures SelectedMembers(a, members) == SelectedMembers(b, members)
  {
    hide SelectorMatches;
    if members != [] { SameLeftSameMembers(a, b, members[..|members| - 1]); }
  }

  lemma {:induction false} MatchingSetAligned(a: seq<Rule>, b: seq<Rule>, members: seq<ComponentSpec>)
    requires Aligned(a, b)
    ensures Aligned(MatchingSet(a, members), MatchingSet(b, members))
  {
    if a != [] {
      var n := |a| - 1;
      SameRuleSameMembers(a[n], b[n], members);
      hide SameRule, MatchesSomeMember;
      MatchingSetAligned(a[..n], b[..n], members);
    }
  }

  lemma MatchedSetAligned(g: Generation, h: Generation, members: seq<ComponentSpec>)
    requires Aligned(g.rules, h.rules)
    ensures Aligned(MatchSetRules(g, members), MatchSetRules(h, members))
    ensures ActiveOf(g.rules, Set) == [] <==> ActiveOf(h.rules, Set) == []
  {
    ActiveAligned(g.rules, h.rules, Set);
    var x, y := ActiveOf(g.rules, Set), ActiveOf(h.rules, Set);
    AlignedLengths(x, y);
    MatchingSetAligned(x, y, members);
    hide Aligned, ActiveOf, MatchingSet;
    SortAligned(MatchingSet(x, members), MatchingSet(y, members));
  }

  lemma SetSidesAgree(a: seq<Rule>, b: seq<Rule>, members: seq<ComponentSpec>)
    requires Aligned(a, b)
    ensures SidesAgree(a, b, SetSides(members))
  {
    hide SetSides, SameRule, MatchesSomeMember;
    forall i | 0 <= i < |a| ensures SetSides(members)(a[i]) == SetSides(members)(b[i]) {
      assert SameRule(a[i], b[i]);
      SameRuleSameMembers(a[i], b[i], members);
    }
  }

  lemma AlignedRulesDecideSetsAlike(g: Generation, h: Generation, members: seq<ComponentSpec>)
    requires g.taxonomy == h.taxonomy && Aligned(g.rules, h.rules)
    ensures SameDecision(EvaluateSetLevel(g, members), EvaluateSetLevel(h, members))
  {
    hide MatchSetRules, ActiveOf, Decide, SetSides, Aligned, SidesAgree, RefusalOfMembers;
    MatchedSetAligned(g, h, members);
    var x, y := MatchSetRules(g, members), MatchSetRules(h, members);
    SetSidesAgree(x, y, members);
    DecideAligned(x, y, SetSides(members), g.taxonomy);
  }

  // ----- Whole set queries -----

  /** Set level and every pair alike, and one outcome. */
  ghost predicate SameSetResult(a: SetResult, b: SetResult) {
    if a.SetDecided? then
      && b.SetDecided? && a.outcome == b.outcome && SameDecision(a.setLevel, b.setLevel)
      && |a.pairs| == |b.pairs| && forall i :: 0 <= i < |a.pairs| ==> SameDecision(a.pairs[i], b.pairs[i])
    else a == b
  }

  lemma {:induction false} PairRowsAlike(f: (ComponentSpec, ComponentSpec) -> Decision, g: (ComponentSpec, ComponentSpec) -> Decision,
                                         xs: seq<ComponentSpec>, n: nat)
    requires n <= |xs| && forall x, y :: SameDecision(f(x, y), g(x, y))
    ensures |PairRows(f, xs, n)| == |PairRows(g, xs, n)|
    ensures forall i :: 0 <= i < |PairRows(f, xs, n)| ==> SameDecision(PairRows(f, xs, n)[i], PairRows(g, xs, n)[i])
  {
    hide SameDecision;
    if n > 0 { PairRowsAlike(f, g, xs, n - 1); }
  }

  lemma AggregateAlike(s: Decision, t: Decision, a: seq<Decision>, b: seq<Decision>)
    requires s.outcome == t.outcome && |a| == |b| && forall i :: 0 <= i < |a| ==> a[i].outcome == b[i].outcome
    ensures Aggregate(s, a) == Aggregate(t, b)
  {
    OutcomeOccursAlike(a, b, Incompatible);
    OutcomeOccursAlike(b, a, Incompatible);
    OutcomeOccursAlike(a, b, Unknown);
    OutcomeOccursAlike(b, a, Unknown);
  }

  lemma OutcomeOccursAlike(a: seq<Decision>, b: seq<Decision>, o: Outcome)
    requires |a| == |b| && forall i :: 0 <= i < |a| ==> a[i].outcome == b[i].outcome
    ensures (exists d :: d in a && d.outcome == o) ==> exists d :: d in b && d.outcome == o
  {
    if d :| d in a && d.outcome == o {
      var i :| 0 <= i < |a| && a[i] == d;
      assert b[i] in b && b[i].outcome == o;
    }
  }

  lemma SetsAlike(g: Generation, h: Generation, members: seq<ComponentSpec>)
    requires forall l, r :: SameDecision(EvaluatePair(g, l, r), EvaluatePair(h, l, r))
    requires SameDecision(EvaluateSetLevel(g, members), EvaluateSetLevel(h, members))
    ensures SameSetResult(DecideSet(g, members), DecideSet(h, members))
  {
    hide EvaluatePair, EvaluateSetLevel;
    forall l, r ensures SameDecision(PairVerdict(g)(l, r), PairVerdict(h)(l, r)) {
      assert SameDecision(EvaluatePair(g, l, r), EvaluatePair(h, l, r));
    }
    PairRowsAlike(PairVerdict(g), PairVerdict(h), members, |members|);
    AggregateAlike(EvaluateSetLevel(g, members), EvaluateSetLevel(h, members),
                   PairRows(PairVerdict(g), members, |members|), PairRows(PairVerdict(h), members, |members|));
  }

  // ----- Documents -----

  /** Reordering rules, constraints and implications changes no pair decision. */
  lemma RearrangingKeepsDecisions<Meta>(d: Document<Meta>, e: Document<Meta>, mid: seq<Rule>, left: ComponentSpec, right: ComponentSpec)
    requires Rearranged(d, e, mid) && DistinctIds(d.rules)
    ensures SameDecision(EvaluatePair(Generation(d.taxonomy, d.rules), left, right),
                         EvaluatePair(Generation(e.taxonomy, e.rules), left, right))
  {
    assert Aligned(d.rules, mid);
    assert DistinctIds(mid);
    hide EvaluatePair, SameRule, Aligned, DistinctIds;
    AlignedRulesDecideAlike(Generation(d.taxonomy, d.rules), Generation(d.taxonomy, mid), left, right);
    RuleOrderDoesNotMatter(Generation(d.taxonomy, mid), Generation(e.taxonomy, e.rules), left, right);
  }

  lemma NormalizingRearranges<Meta>(d: Document<Meta>)
    ensures Rearranged(d, Normalize(d), NormalizeRules(d.rules))
  {
    var mid := NormalizeRules(d.rules);
    NormalizedAt(d.rules);
    forall i | 0 <= i < |mid| ensures SameRule(d.rules[i], mid[i]) {
      NormalizeRuleKeepsRule(d.rules[i]);
    }
    SortKeeps(DocumentBefore, mid);
  }

  /** So compiling the normal form decides every pair as the document given would. */
  lemma NormalizingKeepsDecisions<Meta>(d: Document<Meta>, left: ComponentSpec, right: ComponentSpec)
    requires DistinctIds(d.rules)
    ensures SameDecision(EvaluatePair(Generation(d.taxonomy, d.rules), left, right),
                         EvaluatePair(Generation(d.taxonomy, Normalize(d).rules), left, right))
  {
    NormalizingRearranges(d);
    hide EvaluatePair, SameRule, NormalizeRule;
    RearrangingKeepsDecisions(d, Normalize(d), NormalizeRules(d.rules), left, right);
  }

  lemma RearrangingKeepsSetLevel<Meta>(d: Document<Meta>, e: Document<Meta>, mid: seq<Rule>, members: seq<ComponentSpec>)
    requires Rearranged(d, e, mid) && DistinctIds(d.rules)
    ensures SameDecision(EvaluateSetLevel(Generation(d.taxonomy, d.rules), members),
                         EvaluateSetLevel(Generation(e.taxonomy, e.rules), members))
  {
    assert Aligned(d.rules, mid);
    assert DistinctIds(mid);
    hide EvaluateSetLevel, SameRule, Aligned, DistinctIds;
    AlignedRulesDecideSetsAlike(Generation(d.taxonomy, d.rules), Generation(d.taxonomy, mid), members);
    SetLevelForgetsOrder(Generation(d.taxonomy, mid), Generation(e.taxonomy, e.rules), members);
  }

  /** Reordering changes no set decision either: neither the set level, nor any of its pairs, nor the outcome. */
  lemma RearrangingKeepsSetDecisions<Meta>(d: Document<Meta>, e: Document<Meta>, mid: seq<Rule>, members: seq<ComponentSpec>)
    requires Rearranged(d, e, mid) && DistinctIds(d.rules)
    ensures SameSetResult(DecideSet(Generation(d.taxonomy, d.rules), members), DecideSet(Generation(e.taxonomy, e.rules), members))
  {
    hide Rearranged, DistinctIds, EvaluatePair, EvaluateSetLevel, DecideSet, SameDecision, SameSetResult;
    forall l, r ensures SameDecision(EvaluatePair(Generation(d.taxonomy, d.rules), l, r),
                                     EvaluatePair(Generation(e.taxonomy, e.rules), l, r)) {
      RearrangingKeepsDecisions(d, e, mid, l, r);
    }
    RearrangingKeepsSetLevel(d, e, mid, members);
    SetsAlike(Generation(d.taxonomy, d.rules), Generation(e.taxonomy, e.rules), members);
  }

  /** And every set. */
  lemma NormalizingKeepsSetDecisions<Meta>(d: Document<Meta>, members: seq<ComponentSpec>)
    requires DistinctIds(d.rules)
    ensures SameSetResult(DecideSet(Generation(d.taxonomy, d.rules), members),
                          DecideSet(Generation(d.taxonomy, Normalize(d).rules), members))
  {
    NormalizingRearranges(d);
    hide DecideSet, SameSetResult, SameRule, NormalizeRule, DistinctIds;
    RearrangingKeepsSetDecisions(d, Normalize(d), NormalizeRules(d.rules), members);
  }
}
