/** Exactly when a query gets which outcome, and for which reason (src/registry.cpp). */
module Outcomes {
  import opened Rules
  import opened Sorting
  import opened Engine

  // ----- One rule -----

  ghost predicate SomeHas(r: Rule, sides: Sides, taxonomy: Taxonomy, status: Status) {
    exists c :: c in r.constraints && ConstraintStatus(c, Resolve(sides, c.side), taxonomy) == status
  }

  lemma StatusesHave(r: Rule, sides: Sides, taxonomy: Taxonomy, status: Status)
    ensures status in Statuses(r, sides, taxonomy) <==> SomeHas(r, sides, taxonomy, status)
  {
    hide ConstraintStatus;
    var statuses := Statuses(r, sides, taxonomy);
    if SomeHas(r, sides, taxonomy, status) {
      var c :| c in r.constraints && ConstraintStatus(c, Resolve(sides, c.side), taxonomy) == status;
      var i :| 0 <= i < |r.constraints| && r.constraints[i] == c;
      assert statuses[i] == status;
    }
    if status in statuses {
      var i :| 0 <= i < |statuses| && statuses[i] == status;
      assert r.constraints[i] in r.constraints;
    }
  }

  /** The rule declines: something is unmet, or only open, and its policy for that is to skip. */
  ghost predicate Declines(r: Rule, sides: Sides, taxonomy: Taxonomy) {
    if SomeHas(r, sides, taxonomy, Violated) then r.onUnmet == UnmetSkip
    else SomeHas(r, sides, taxonomy, Indeterminate) && r.onIndeterminate == OpenSkip
  }

  /** It says Incompatible: outright with everything satisfied, or by its policy on what is unmet or open. */
  ghost predicate SaysIncompatible(r: Rule, sides: Sides, taxonomy: Taxonomy) {
    if SomeHas(r, sides, taxonomy, Violated) then r.onUnmet == UnmetIncompatible
    else if SomeHas(r, sides, taxonomy, Indeterminate) then r.onIndeterminate == OpenIncompatible
    else r.outcome == Incompatible
  }

  ghost predicate SaysUnknown(r: Rule, sides: Sides, taxonomy: Taxonomy) {
    if SomeHas(r, sides, taxonomy, Violated) then r.onUnmet == UnmetUnknown
    else if SomeHas(r, sides, taxonomy, Indeterminate) then r.onIndeterminate == OpenUnknown
    else r.outcome == Unknown
  }

  ghost predicate SaysCompatible(r: Rule, sides: Sides, taxonomy: Taxonomy) {
    r.outcome == Compatible && AllSatisfiedBy(r, sides, taxonomy)
  }

  lemma VerdictMeaning(r: Rule, sides: Sides, taxonomy: Taxonomy)
    ensures var resolved := Apply(r, sides, taxonomy).resolved;
      && (resolved == None <==> Declines(r, sides, taxonomy))
      && (resolved == Some(Incompatible) <==> SaysIncompatible(r, sides, taxonomy))
      && (resolved == Some(Unknown) <==> SaysUnknown(r, sides, taxonomy))
      && (resolved == Some(Compatible) <==> SaysCompatible(r, sides, taxonomy))
  {
    StatusesHave(r, sides, taxonomy, Violated);
    StatusesHave(r, sides, taxonomy, Indeterminate);
    CompatibleVerdict(r, sides, taxonomy);
    hide Statuses, SomeHas, AllSatisfiedBy;
  }

  /** What evidence reports of the rule: skipped, violated, indeterminate or satisfied. */
  lemma StatusMeaning(r: Rule, sides: Sides, taxonomy: Taxonomy)
    ensures Apply(r, sides, taxonomy).status ==
      if Declines(r, sides, taxonomy) then RuleSkipped
      else if SomeHas(r, sides, taxonomy, Violated) then RuleViolated
      else if SomeHas(r, sides, taxonomy, Indeterminate) then RuleIndeterminate
      else RuleSatisfied
  {
    StatusesHave(r, sides, taxonomy, Violated);
    StatusesHave(r, sides, taxonomy, Indeterminate);
    hide Statuses, SomeHas;
  }

  // ----- A ranked list -----

  /** The rule of this rank decides: all above it decline and it does not. */
  ghost predicate DecidesAt(matched: seq<Rule>, sidesOf: Rule -> Sides, taxonomy: Taxonomy, k: nat) {
    && k < |matched| && !Declines(matched[k], sidesOf(matched[k]), taxonomy)
    && forall i :: 0 <= i < k ==> Declines(matched[i], sidesOf(matched[i]), taxonomy)
  }

  ghost predicate AllDecline(matched: seq<Rule>, sidesOf: Rule -> Sides, taxonomy: Taxonomy) {
    forall r :: r in matched ==> Declines(r, sidesOf(r), taxonomy)
  }

  lemma FirstThatSpeaks(matched: seq<Rule>, sidesOf: Rule -> Sides, taxonomy: Taxonomy)
    ensures var first := FirstResolved(Verdicts(matched, sidesOf, taxonomy));
      if first < |matched| then DecidesAt(matched, sidesOf, taxonomy, first) else AllDecline(matched, sidesOf, taxonomy)
  {
    var verdicts := Verdicts(matched, sidesOf, taxonomy);
    hide Apply, Declines, FirstResolved;
    forall i | 0 <= i < |matched|
      ensures verdicts[i].resolved.None? <==> Declines(matched[i], sidesOf(matched[i]), taxonomy)
    {
      VerdictMeaning(matched[i], sidesOf(matched[i]), taxonomy);
    }
  }

  lemma OnlyOneDecides(matched: seq<Rule>, sidesOf: Rule -> Sides, taxonomy: Taxonomy, k: nat)
    requires DecidesAt(matched, sidesOf, taxonomy, k)
    ensures FirstResolved(Verdicts(matched, sidesOf, taxonomy)) == k
  {
    hide Declines;
    FirstThatSpeaks(matched, sidesOf, taxonomy);
    var first := FirstResolved(Verdicts(matched, sidesOf, taxonomy));
    assert matched[k] in matched;
  }

  /** The whole of a ranked decision, from what the rules say. */
  lemma RankedDecision(matched: seq<Rule>, sidesOf: Rule -> Sides, taxonomy: Taxonomy)
    ensures var d := Decide(matched, sidesOf, taxonomy);
      && d.totalMatched == |matched|
      && (forall k: nat :: DecidesAt(matched, sidesOf, taxonomy, k) ==>
            && d.reason == DecidedByRule && d.decider == Some(matched[k]) && d.policy == matched[k].negotiation
            && (d.outcome == Incompatible <==> SaysIncompatible(matched[k], sidesOf(matched[k]), taxonomy))
            && (d.outcome == Compatible <==> SaysCompatible(matched[k], sidesOf(matched[k]), taxonomy)))
      && (AllDecline(matched, sidesOf, taxonomy) ==>
            && d.outcome == Unknown && d.decider == None && d.policy == HighestCommon
            && d.reason == if matched == [] then NoMatchingRule else AllMatchedRulesSkipped)
      && (AllDecline(matched, sidesOf, taxonomy) <==> d.decider == None)
      && (d.decider.Some? ==> exists k: nat :: DecidesAt(matched, sidesOf, taxonomy, k))
  {
    var first := FirstResolved(Verdicts(matched, sidesOf, taxonomy));
    FirstThatSpeaks(matched, sidesOf, taxonomy);
    forall k: nat | DecidesAt(matched, sidesOf, taxonomy, k) ensures k == first { OnlyOneDecides(matched, sidesOf, taxonomy, k); }
    hide Apply, Declines, SaysIncompatible, SaysCompatible, FirstResolved;
    if first < |matched| {
      VerdictMeaning(matched[first], sidesOf(matched[first]), taxonomy);
      assert matched[first] in matched;
    }
  }

  ghost predicate IncompatibleAt(matched: seq<Rule>, sidesOf: Rule -> Sides, taxonomy: Taxonomy, k: nat) {
    DecidesAt(matched, sidesOf, taxonomy, k) && SaysIncompatible(matched[k], sidesOf(matched[k]), taxonomy)
  }

  lemma RankedIncompatible(matched: seq<Rule>, sidesOf: Rule -> Sides, taxonomy: Taxonomy)
    ensures Decide(matched, sidesOf, taxonomy).outcome == Incompatible <==> exists k: nat :: IncompatibleAt(matched, sidesOf, taxonomy, k)
  {
    RankedDecision(matched, sidesOf, taxonomy);
    hide Decide, DecidesAt, AllDecline, SaysIncompatible, SaysCompatible;
    if Decide(matched, sidesOf, taxonomy).outcome == Incompatible {
      var k: nat :| DecidesAt(matched, sidesOf, taxonomy, k);
      assert IncompatibleAt(matched, sidesOf, taxonomy, k);
    }
  }

  // ----- Pairs -----

  /** A pair is found incompatible exactly when some matched rule says so and every rule above it declines. */
  lemma IncompatibleExactlyWhen(g: Generation, left: ComponentSpec, right: ComponentSpec)
    ensures EvaluatePair(g, left, right).outcome == Incompatible <==>
            RefusalOfPair(g, left, right).None?
            && exists k: nat :: IncompatibleAt(MatchPairRules(g, left, right), PairSides(left, right), g.taxonomy, k)
  {
    hide MatchPairRules, RefusalOfPair, IncompatibleAt, Decide;
    RankedIncompatible(MatchPairRules(g, left, right), PairSides(left, right), g.taxonomy);
  }

  ghost predicate ActiveFor(g: Generation, arity: RuleArity, r: Rule) {
    r in g.rules && r.state == Active && r.arity == arity
  }

  /** Why a pair query is not put to the rules: the first of four complaints that holds. */
  lemma RefusalMeaning(g: Generation, left: ComponentSpec, right: ComponentSpec)
    ensures RefusalOfPair(g, left, right) ==
      if !({left.family, right.family} <= g.taxonomy.families) then Some(UnregisteredComponentFamily)
      else if !({left.kind, right.kind} <= g.taxonomy.kinds.Keys) then Some(UnregisteredComponentKind)
      else if exists c :: c in [left, right] && g.taxonomy.kinds[c.kind] != c.family then Some(KindFamilyMismatch)
      else if forall r :: !ActiveFor(g, Pair, r) then Some(NoActiveRules)
      else None
  {
    ActiveOfMembers(g.rules, Pair);
    var active := ActiveOf(g.rules, Pair);
    hide ActiveOf;
    if active != [] { assert active[0] in active && ActiveFor(g, Pair, active[0]); }
    assert left in [left, right] && right in [left, right];
  }

  /** No rule decides, no outcome but Unknown; the reason tells a refusal, no match and all declining apart. */
  lemma UndecidedPair(g: Generation, left: ComponentSpec, right: ComponentSpec)
    ensures var d, refusal := EvaluatePair(g, left, right), RefusalOfPair(g, left, right);
      && (d.decider.None? ==> d.outcome == Unknown && d.policy == HighestCommon)
      && (d.reason == DecidedByRule <==> d.decider.Some?)
      && (refusal.Some? ==> d.reason == refusal.value && d.decider.None? && d.totalMatched == 0)
      && (refusal.None? ==> d.totalMatched == |MatchPairRules(g, left, right)|)
      && (refusal.None? && d.decider.None? ==>
            d.reason == if exists r :: ActiveFor(g, Pair, r) && RuleMatches(r, left, right) then AllMatchedRulesSkipped else NoMatchingRule)
  {
    var matched := MatchPairRules(g, left, right);
    RankedDecision(matched, PairSides(left, right), g.taxonomy);
    MatchedRules(g, left, right);
    RefusalIsNoDecision(g, left, right);
    hide MatchPairRules, RefusalOfPair, Decide, RuleMatches, DecidesAt, AllDecline, SaysIncompatible, SaysCompatible;
    if matched != [] { assert matched[0] in matched && ActiveFor(g, Pair, matched[0]); }
  }

  lemma RefusalIsNoDecision(g: Generation, left: ComponentSpec, right: ComponentSpec)
    ensures RefusalOfPair(g, left, right) != Some(DecidedByRule)
  {
  }

  // ----- Sets -----

  lemma SetIncompatibleExactlyWhen(g: Generation, members: seq<ComponentSpec>)
    ensures EvaluateSetLevel(g, members).outcome == Incompatible <==>
            RefusalOfSet(g, members).None?
            && exists k: nat :: IncompatibleAt(MatchSetRules(g, members), SetSides(members), g.taxonomy, k)
  {
    hide MatchSetRules, RefusalOfSet, IncompatibleAt, Decide;
    RankedIncompatible(MatchSetRules(g, members), SetSides(members), g.taxonomy);
  }

  ghost predicate CompatibleAt(matched: seq<Rule>, sidesOf: Rule -> Sides, taxonomy: Taxonomy, k: nat) {
    DecidesAt(matched, sidesOf, taxonomy, k) && SaysCompatible(matched[k], sidesOf(matched[k]), taxonomy)
  }

  lemma SetCompatibleExactlyWhen(g: Generation, members: seq<ComponentSpec>)
    ensures EvaluateSetLevel(g, members).outcome == Compatible <==>
            RefusalOfSet(g, members).None?
            && exists k: nat :: CompatibleAt(MatchSetRules(g, members), SetSides(members), g.taxonomy, k)
  {
    var matched := MatchSetRules(g, members);
    RankedDecision(matched, SetSides(members), g.taxonomy);
    hide MatchSetRules, RefusalOfSet, DecidesAt, Decide, AllDecline, SaysIncompatible, SaysCompatible;
    if RefusalOfSet(g, members).None? && EvaluateSetLevel(g, members).outcome == Compatible {
      var k: nat :| DecidesAt(matched, SetSides(members), g.taxonomy, k);
      assert CompatibleAt(matched, SetSides(members), g.taxonomy, k);
    }
  }

  lemma UndecidedSet(g: Generation, members: seq<ComponentSpec>)
    ensures var d, refusal := EvaluateSetLevel(g, members), RefusalOfSet(g, members);
      && (d.decider.None? ==> d.outcome == Unknown && d.policy == HighestCommon)
      && (d.reason == DecidedByRule <==> d.decider.Some?)
      && (refusal.Some? ==> d.reason == refusal.value && d.decider.None? && d.totalMatched == 0)
      && (refusal.None? ==> d.totalMatched == |MatchSetRules(g, members)|)
      && (refusal.None? && d.decider.None? ==>
            d.reason == if exists r :: ActiveFor(g, Set, r) && MatchesSomeMember(r, members) then AllMatchedRulesSkipped else NoMatchingRule)
  {
    var matched := MatchSetRules(g, members);
    RankedDecision(matched, SetSides(members), g.taxonomy);
    MatchedSetRules(g, members);
    SetRefusalIsNoDecision(g, members);
    hide MatchSetRules, RefusalOfSet, Decide, MatchesSomeMember, DecidesAt, AllDecline, SaysIncompatible, SaysCompatible;
    if matched != [] { assert matched[0] in matched && ActiveFor(g, Set, matched[0]); }
  }

  lemma {:induction false} SetRefusalIsNoDecision(g: Generation, members: seq<ComponentSpec>)
    ensures RefusalOfMembers(g.taxonomy, members) != Some(DecidedByRule) && RefusalOfSet(g, members) != Some(DecidedByRule)
  {
    if members != [] { SetRefusalIsNoDecision(g, members[1..]); }
  }

  predicate BadMember(t: Taxonomy, m: ComponentSpec) {
    m.family !in t.families || m.kind !in t.kinds || t.kinds[m.kind] != m.family
  }

  /** The first bad member is the one complained about. */
  lemma {:induction false} MembersRefusalMeaning(t: Taxonomy, members: seq<ComponentSpec>)
    ensures RefusalOfMembers(t, members).None? <==> forall m :: m in members ==> !BadMember(t, m)
    ensures forall i :: 0 <= i < |members| && BadMember(t, members[i]) && (forall j :: 0 <= j < i ==> !BadMember(t, members[j])) ==>
              RefusalOfMembers(t, members) == Some(
                if members[i].family !in t.families then UnregisteredComponentFamily
                else if members[i].kind !in t.kinds then UnregisteredComponentKind
                else KindFamilyMismatch)
  {
    if members != [] {
      MembersRefusalMeaning(t, members[1..]);
      assert members == [members[0]] + members[1..] && members[0] in members;
      forall i | 0 < i < |members| && BadMember(t, members[i]) && forall j :: 0 <= j < i ==> !BadMember(t, members[j])
        ensures RefusalOfMembers(t, members) == RefusalOfMembers(t, members[1..])
        ensures members[1..][i - 1] == members[i] && forall j :: 0 <= j < i - 1 ==> !BadMember(t, members[1..][j])
      {
        assert !BadMember(t, members[0]);
      }
    }
  }

  lemma SetRefusalMeaning(g: Generation, members: seq<ComponentSpec>)
    ensures RefusalOfSet(g, members) ==
      if RefusalOfMembers(g.taxonomy, members).Some? then RefusalOfMembers(g.taxonomy, members)
      else if forall r :: !ActiveFor(g, Set, r) then Some(NoActiveRules)
      else None
  {
    ActiveOfMembers(g.rules, Set);
    var active := ActiveOf(g.rules, Set);
    hide ActiveOf, RefusalOfMembers;
    if active != [] { assert active[0] in active && ActiveFor(g, Set, active[0]); }
  }
}
