/** Decisions under growing knowledge: what added facts can and cannot change (src/registry.cpp). */
module Knowledge {
  import opened Order
  import opened SemVer
  import opened Sorting
  import opened Rules
  import opened Engine
  import VersionRange

  /** `t` lists all that `s` lists, with the same values; closed knowledge stays as it is. */
  ghost predicate ExtendsMap<V>(s: map<string, V>, t: map<string, V>, sClosed: bool, tClosed: bool) {
    && (forall id :: id in s ==> id in t && t[id] == s[id])
    && (sClosed ==> tClosed && forall id :: id in t ==> id in s)
  }

  /** A completion fills in facts of open knowledge; identity and hardware class stay. */
  ghost predicate Completes(s: ComponentSpec, t: ComponentSpec) {
    && t.family == s.family && t.kind == s.kind && t.version == s.version && t.hardwareClass == s.hardwareClass
    && ExtendsMap(s.capabilities, t.capabilities, s.knowledge.capabilitiesClosed, t.knowledge.capabilitiesClosed)
    && ExtendsMap(s.protocols, t.protocols, s.knowledge.protocolsClosed, t.knowledge.protocolsClosed)
    && ExtendsMap(s.schemas, t.schemas, s.knowledge.schemasClosed, t.knowledge.schemasClosed)
    && s.features <= t.features
    && (s.knowledge.capabilitiesClosed ==> t.features == s.features)
  }

  ghost predicate CompletesAll(ss: seq<ComponentSpec>, ts: seq<ComponentSpec>) {
    |ss| == |ts| && forall i :: 0 <= i < |ss| ==> Completes(ss[i], ts[i])
  }

  ghost predicate CompletesSides(s: Sides, t: Sides) {
    CompletesAll(s.left, t.left) && CompletesAll(s.right, t.right) && CompletesAll(s.all, t.all)
  }

  /** More knowledge may settle an open status and may change nothing else. */
  predicate Settles(before: Status, after: Status) {
    before == Indeterminate || after == before
  }

  lemma ConstraintIsMonotone(c: Constraint, s: ComponentSpec, t: ComponentSpec, taxonomy: Taxonomy)
    requires Completes(s, t)
    ensures Settles(EvaluateConstraint(c, s, taxonomy), EvaluateConstraint(c, t, taxonomy))
  {
  }

  lemma ConstraintStatusIsMonotone(c: Constraint, ss: seq<ComponentSpec>, ts: seq<ComponentSpec>, taxonomy: Taxonomy)
    requires CompletesAll(ss, ts)
    ensures Settles(ConstraintStatus(c, ss, taxonomy), ConstraintStatus(c, ts, taxonomy))
  {
    forall i | 0 <= i < |ss| ensures Settles(EvaluateConstraint(c, ss[i], taxonomy), EvaluateConstraint(c, ts[i], taxonomy)) {
      ConstraintIsMonotone(c, ss[i], ts[i], taxonomy);
    }
    StatusByIndex(c, ss, taxonomy);
    StatusByIndex(c, ts, taxonomy);
  }

  lemma StatusByIndex(c: Constraint, ss: seq<ComponentSpec>, taxonomy: Taxonomy)
    ensures ConstraintStatus(c, ss, taxonomy) == Violated <==>
              exists i :: 0 <= i < |ss| && EvaluateConstraint(c, ss[i], taxonomy) == Violated
    ensures ConstraintStatus(c, ss, taxonomy) == Satisfied <==>
              ss != [] && forall i :: 0 <= i < |ss| ==> EvaluateConstraint(c, ss[i], taxonomy) == Satisfied
  {
    hide EvaluateConstraint;
    if exists t :: t in ss && EvaluateConstraint(c, t, taxonomy) == Violated {
      var t :| t in ss && EvaluateConstraint(c, t, taxonomy) == Violated;
      var i :| 0 <= i < |ss| && ss[i] == t;
      assert EvaluateConstraint(c, ss[i], taxonomy) == Violated;
    }
    if exists t :: t in ss && EvaluateConstraint(c, t, taxonomy) == Indeterminate {
      var t :| t in ss && EvaluateConstraint(c, t, taxonomy) == Indeterminate;
      var i :| 0 <= i < |ss| && ss[i] == t;
      assert EvaluateConstraint(c, ss[i], taxonomy) == Indeterminate;
    }
  }

  lemma StatusesSettle(r: Rule, s: Sides, t: Sides, taxonomy: Taxonomy)
    requires CompletesSides(s, t)
    ensures forall i :: 0 <= i < |r.constraints| ==> Settles(Statuses(r, s, taxonomy)[i], Statuses(r, t, taxonomy)[i])
  {
    forall i | 0 <= i < |r.constraints| ensures Settles(Statuses(r, s, taxonomy)[i], Statuses(r, t, taxonomy)[i]) {
      var c := r.constraints[i];
      ConstraintStatusIsMonotone(c, Resolve(s, c.side), Resolve(t, c.side), taxonomy);
    }
  }

  /** The verdict was reached for want of evidence: nothing violated, something open. */
  predicate RestsOnOpenEvidence(statuses: seq<Status>) {
    Violated !in statuses && Indeterminate in statuses
  }

  lemma SettledVerdictStays(r: Rule, before: seq<Status>, after: seq<Status>)
    requires |before| == |after|
    requires forall i :: 0 <= i < |before| ==> Settles(before[i], after[i])
    requires !RestsOnOpenEvidence(before)
    ensures VerdictOf(r, after) == VerdictOf(r, before)
  {
    if Violated in before {
      var i :| 0 <= i < |before| && before[i] == Violated;
      assert after[i] == Violated;
    } else {
      forall i | 0 <= i < |after| ensures after[i] == Satisfied {
        assert before[i] in before;
      }
    }
  }

  lemma {:induction false} SamePrefixSameFirst(a: seq<Verdict>, b: seq<Verdict>)
    requires |a| == |b|
    requires FirstResolved(a) < |a|
    requires forall i :: 0 <= i <= FirstResolved(a) ==> a[i] == b[i]
    ensures FirstResolved(b) == FirstResolved(a)
  {
    if a[0].resolved.None? {
      assert forall i :: 0 <= i <= FirstResolved(a[1..]) ==> a[1..][i] == a[i + 1] && b[1..][i] == b[i + 1];
      SamePrefixSameFirst(a[1..], b[1..]);
    }
  }

  /** A ranked decision none of whose deciding steps rests on open evidence survives completion. */
  lemma RankedDecisionStays(matched: seq<Rule>, sidesOf: Rule -> Sides, sidesOf': Rule -> Sides, taxonomy: Taxonomy)
    requires forall r :: r in matched ==> CompletesSides(sidesOf(r), sidesOf'(r))
    requires Decide(matched, sidesOf, taxonomy).decider.Some?
    requires forall i :: 0 <= i <= FirstResolved(Verdicts(matched, sidesOf, taxonomy)) ==>
               !RestsOnOpenEvidence(Statuses(matched[i], sidesOf(matched[i]), taxonomy))
    ensures Decide(matched, sidesOf', taxonomy) == Decide(matched, sidesOf, taxonomy)
  {
    var before, after := Verdicts(matched, sidesOf, taxonomy), Verdicts(matched, sidesOf', taxonomy);
    var first := FirstResolved(before);
    forall i | 0 <= i <= first ensures before[i] == after[i] {
      var r := matched[i];
      StatusesSettle(r, sidesOf(r), sidesOf'(r), taxonomy);
      SettledVerdictStays(r, Statuses(r, sidesOf(r), taxonomy), Statuses(r, sidesOf'(r), taxonomy));
    }
    SamePrefixSameFirst(before, after);
  }

  lemma SelectorIgnoresKnowledge(s: ComponentSelector, c: ComponentSpec, d: ComponentSpec)
    requires Completes(c, d)
    ensures SelectorMatches(s, d) == SelectorMatches(s, c)
  {
  }

  lemma {:induction false} MatchingIgnoresKnowledge(rules: seq<Rule>, l: ComponentSpec, r: ComponentSpec, l': ComponentSpec,
                                                    r': ComponentSpec)
    requires Completes(l, l') && Completes(r, r')
    ensures Matching(rules, l', r') == Matching(rules, l, r)
  {
    if rules != [] {
      var rule := rules[|rules| - 1];
      MatchingIgnoresKnowledge(rules[..|rules| - 1], l, r, l', r');
      SelectorIgnoresKnowledge(rule.left, l, l');
      SelectorIgnoresKnowledge(rule.left, r, r');
      SelectorIgnoresKnowledge(rule.right, l, l');
      SelectorIgnoresKnowledge(rule.right, r, r');
    }
  }

  /** A verdict that skips a rule, under a policy that never skips open questions, is a violation. */
  lemma SkippedMeansViolated(r: Rule, statuses: seq<Status>)
    requires r.onIndeterminate != OpenSkip
    requires VerdictOf(r, statuses).resolved.None?
    ensures !RestsOnOpenEvidence(statuses)
  {
  }

  ghost predicate NeverSkipsOpenQuestions(g: Generation) {
    forall r :: r in ActiveOf(g.rules, Pair) ==> r.onIndeterminate != OpenSkip
  }

  /** The verdict behind a pair decision, when a rule decided. */
  function DecidingVerdict(g: Generation, left: ComponentSpec, right: ComponentSpec): Verdict
    requires EvaluatePair(g, left, right).decider.Some?
  {
    Apply(EvaluatePair(g, left, right).decider.value, Sides([left], [right], [left, right]), g.taxonomy)
  }

  /** Every rule down to the decider was settled by evidence it had. */
  ghost predicate SettledByEvidence(g: Generation, left: ComponentSpec, right: ComponentSpec) {
    var matched := MatchPairRules(g, left, right);
    forall i :: 0 <= i <= FirstResolved(Verdicts(matched, PairSides(left, right), g.taxonomy)) && i < |matched| ==>
      !RestsOnOpenEvidence(Statuses(matched[i], Sides([left], [right], [left, right]), g.taxonomy))
  }

  /** A decision settled by evidence is the same decision under every completion. */
  lemma SettledDecisionIsStable(g: Generation, l: ComponentSpec, r: ComponentSpec, l': ComponentSpec, r': ComponentSpec)
    requires Completes(l, l') && Completes(r, r')
    requires EvaluatePair(g, l, r).decider.Some?
    requires SettledByEvidence(g, l, r)
    ensures EvaluatePair(g, l', r') == EvaluatePair(g, l, r)
  {
    MatchingIgnoresKnowledge(ActiveOf(g.rules, Pair), l, r, l', r');
    RankedDecisionStays(MatchPairRules(g, l, r), PairSides(l, r), PairSides(l', r'), g.taxonomy);
  }

  /** Rules skipped on the way were skipped for a violation, never for an open question. */
  lemma ResolvedMeansSettled(g: Generation, l: ComponentSpec, r: ComponentSpec)
    requires NeverSkipsOpenQuestions(g)
    requires EvaluatePair(g, l, r).decider.Some? && DecidingVerdict(g, l, r).status != RuleIndeterminate
    ensures SettledByEvidence(g, l, r)
  {
    hide MatchPairRules, Statuses, RefusalOfPair, ActiveOf;
    var matched := MatchPairRules(g, l, r);
    var verdicts := Verdicts(matched, PairSides(l, r), g.taxonomy);
    var first := FirstResolved(verdicts);
    MatchedRules(g, l, r);
    ActiveOfMembers(g.rules, Pair);
    forall i | 0 <= i <= first && i < |matched|
      ensures !RestsOnOpenEvidence(Statuses(matched[i], Sides([l], [r], [l, r]), g.taxonomy))
    {
      assert matched[i] in matched;
      var statuses := Statuses(matched[i], Sides([l], [r], [l, r]), g.taxonomy);
      assert verdicts[i] == VerdictOf(matched[i], statuses);
      if i < first { SkippedMeansViolated(matched[i], statuses); }
    }
  }

  /**
   * Stability under added knowledge. With no rule that skips open questions, a decision whose
   * deciding rule was not left indeterminate keeps its outcome, decider and reason however the
   * open facts are filled in.
   */
  lemma DecisionIsStable(g: Generation, l: ComponentSpec, r: ComponentSpec, l': ComponentSpec, r': ComponentSpec)
    requires Completes(l, l') && Completes(r, r')
    requires NeverSkipsOpenQuestions(g)
    requires EvaluatePair(g, l, r).decider.Some? && DecidingVerdict(g, l, r).status != RuleIndeterminate
    ensures EvaluatePair(g, l', r') == EvaluatePair(g, l, r)
  {
    ResolvedMeansSettled(g, l, r);
    hide Completes, MatchPairRules, Decide, SettledByEvidence;
    SettledDecisionIsStable(g, l, r, l', r');
  }

  /** In particular COMPATIBLE is never withdrawn. */
  lemma CompatibleIsNeverWithdrawn(g: Generation, l: ComponentSpec, r: ComponentSpec, l': ComponentSpec, r': ComponentSpec)
    requires Completes(l, l') && Completes(r, r')
    requires NeverSkipsOpenQuestions(g)
    requires EvaluatePair(g, l, r).outcome == Compatible
    ensures EvaluatePair(g, l', r').outcome == Compatible
    ensures EvaluatePair(g, l', r').decider == EvaluatePair(g, l, r).decider
  {
    hide Completes, NeverSkipsOpenQuestions, MatchPairRules;
    assert DecidingVerdict(g, l, r).resolved == Some(Compatible);
    DecisionIsStable(g, l, r, l', r');
  }

  // ----- The three values are exact -----

  /** Some way of filling in the open facts gives the constraint this status. */
  ghost predicate Reachable(c: Constraint, s: ComponentSpec, taxonomy: Taxonomy, status: Status) {
    exists t :: Completes(s, t) && EvaluateConstraint(c, t, taxonomy) == status
  }

  /** Some listed fact would satisfy the constraint. */
  ghost predicate CanBeMet(c: Constraint, taxonomy: Taxonomy) {
    match c
    case RequiresCapabilityValue(_, id, op, literal) =>
      (id in taxonomy.capabilities ==> TypeOf(literal) == taxonomy.capabilities[id]) && exists v :: ApplyComparison(op, v, literal)
    case RequiresProtocol(_, _, range) => exists v :: VersionRange.Contains(range, v)
    case RequiresSchema(_, _, range) => exists v :: VersionRange.Contains(range, v)
    case _ => true
  }

  /** The fact a constraint asks about, listed. */
  function Listing(c: Constraint, s: ComponentSpec, value: CapabilityValue, version: SemVersion): ComponentSpec {
    match c
    case RequiresCapability(_, id) => s.(capabilities := s.capabilities[id := value])
    case RequiresCapabilityValue(_, id, _, _) => s.(capabilities := s.capabilities[id := value])
    case ForbidsCapability(_, id) => s.(capabilities := s.capabilities[id := value])
    case RequiresProtocol(_, id, _) => s.(protocols := s.protocols[id := [version]])
    case ForbidsProtocol(_, id) => s.(protocols := s.protocols[id := [version]])
    case RequiresSchema(_, id, _) => s.(schemas := s.schemas[id := [version]])
    case ForbidsSchema(_, id) => s.(schemas := s.schemas[id := [version]])
    case RequiresFeature(_, id) => s.(features := s.features + {id})
    case ForbidsFeature(_, id) => s.(features := s.features + {id})
    case _ => s
  }

  predicate Forbids(c: Constraint) {
    c.ForbidsCapability? || c.ForbidsProtocol? || c.ForbidsSchema? || c.ForbidsFeature?
  }

  predicate AsksForHardware(c: Constraint) {
    c.RequiresHardwareClass? || c.ForbidsHardwareClass?
  }

  lemma MeetingFact(c: Constraint, taxonomy: Taxonomy) returns (value: CapabilityValue, version: SemVersion)
    requires CanBeMet(c, taxonomy)
    ensures c.RequiresCapabilityValue? ==> ApplyComparison(c.op, value, c.literal)
    ensures c.RequiresProtocol? || c.RequiresSchema? ==> VersionRange.Contains(c.range, version)
  {
    value, version := Flag(true), Release(0, 0, 0);
    if c.RequiresCapabilityValue? {
      value :| ApplyComparison(c.op, value, c.literal);
    } else if c.RequiresProtocol? || c.RequiresSchema? {
      version :| VersionRange.Contains(c.range, version);
    }
  }

  /** Listing the fact and closing the knowledge without it lead to opposite answers. */
  lemma OpenGoesBothWays(c: Constraint, s: ComponentSpec, taxonomy: Taxonomy)
    requires CanBeMet(c, taxonomy) && !AsksForHardware(c)
    requires EvaluateConstraint(c, s, taxonomy) == Indeterminate
    ensures Reachable(c, s, taxonomy, Satisfied) && Reachable(c, s, taxonomy, Violated)
  {
    var value, version := MeetingFact(c, taxonomy);
    var listed, closed := Listing(c, s, value, version), s.(knowledge := Rules.Knowledge(true, true, true));
    ListingTips(c, s, taxonomy, value, version);
    ClosingTips(c, s, taxonomy);
    hide EvaluateConstraint, Completes, Listing;
    assert Completes(s, listed) && Completes(s, closed);
  }

  lemma ListingTips(c: Constraint, s: ComponentSpec, taxonomy: Taxonomy, value: CapabilityValue, version: SemVersion)
    requires !AsksForHardware(c) && EvaluateConstraint(c, s, taxonomy) == Indeterminate && CanBeMet(c, taxonomy)
    requires c.RequiresCapabilityValue? ==> ApplyComparison(c.op, value, c.literal)
    requires c.RequiresProtocol? || c.RequiresSchema? ==> VersionRange.Contains(c.range, version)
    ensures Completes(s, Listing(c, s, value, version))
    ensures EvaluateConstraint(c, Listing(c, s, value, version), taxonomy) == if Forbids(c) then Violated else Satisfied
  {
    hide ApplyComparison, VersionRange.Contains;
    assert [version][0] == version;
  }

  lemma ClosingTips(c: Constraint, s: ComponentSpec, taxonomy: Taxonomy)
    requires !AsksForHardware(c) && EvaluateConstraint(c, s, taxonomy) == Indeterminate
    ensures var closed := s.(knowledge := Rules.Knowledge(true, true, true));
      Completes(s, closed) && EvaluateConstraint(c, closed, taxonomy) == if Forbids(c) then Satisfied else Violated
  {
    hide ApplyComparison, VersionRange.Contains;
  }

  /**
   * The evaluation is exact: satisfied when no completion violates, violated when none
   * satisfies, and indeterminate precisely when the open facts could still tip it either way.
   */
  lemma StatusIsExact(c: Constraint, s: ComponentSpec, taxonomy: Taxonomy)
    requires CanBeMet(c, taxonomy) && (AsksForHardware(c) ==> s.hardwareClass.Some?)
    ensures EvaluateConstraint(c, s, taxonomy) == Satisfied <==> !Reachable(c, s, taxonomy, Violated)
    ensures EvaluateConstraint(c, s, taxonomy) == Violated <==> !Reachable(c, s, taxonomy, Satisfied)
    ensures EvaluateConstraint(c, s, taxonomy) == Indeterminate <==>
              Reachable(c, s, taxonomy, Satisfied) && Reachable(c, s, taxonomy, Violated)
  {
    assert Completes(s, s);
    var status := EvaluateConstraint(c, s, taxonomy);
    assert Reachable(c, s, taxonomy, status);
    if status == Indeterminate {
      OpenGoesBothWays(c, s, taxonomy);
    } else {
      hide EvaluateConstraint, Completes;
      forall t | Completes(s, t) ensures EvaluateConstraint(c, t, taxonomy) == status {
        ConstraintIsMonotone(c, s, t, taxonomy);
      }
    }
  }

  // ----- When open evidence can tip a decision -----

  /** What a rule resolves to when a requirement is violated, and when one is open and none violated. */
  function UnmetOutcome(r: Rule): Option<Outcome> {
    match r.onUnmet
    case UnmetSkip => None
    case UnmetUnknown => Some(Unknown)
    case UnmetIncompatible => Some(Incompatible)
  }

  function OpenOutcome(r: Rule): Option<Outcome> {
    match r.onIndeterminate
    case OpenSkip => None
    case OpenUnknown => Some(Unknown)
    case OpenIncompatible => Some(Incompatible)
  }

  /** An open question can be answered against the constraint. */
  lemma OpenCanBeViolated(c: Constraint, s: ComponentSpec, taxonomy: Taxonomy) returns (t: ComponentSpec)
    requires !AsksForHardware(c) && EvaluateConstraint(c, s, taxonomy) == Indeterminate
    ensures Completes(s, t) && EvaluateConstraint(c, t, taxonomy) == Violated
  {
    if Forbids(c) {
      OpenGoesBothWays(c, s, taxonomy);
      hide EvaluateConstraint, Completes;
      t :| Completes(s, t) && EvaluateConstraint(c, t, taxonomy) == Violated;
    } else {
      ClosingTips(c, s, taxonomy);
      t := s.(knowledge := Rules.Knowledge(true, true, true));
    }
  }

  function BothSides(l: ComponentSpec, r: ComponentSpec): Sides {
    Sides([l], [r], [l, r])
  }

  lemma OpenTargetCanBeViolated(c: Constraint, l: ComponentSpec, r: ComponentSpec, taxonomy: Taxonomy)
    returns (l': ComponentSpec, r': ComponentSpec)
    requires !AsksForHardware(c) && ConstraintStatus(c, Resolve(BothSides(l, r), c.side), taxonomy) == Indeterminate
    ensures Completes(l, l') && Completes(r, r')
    ensures ConstraintStatus(c, Resolve(BothSides(l', r'), c.side), taxonomy) == Violated
  {
    hide EvaluateConstraint, Completes;
    l', r' := l, r;
    assert Completes(l, l) && Completes(r, r) by { ItselfCompletes(l); ItselfCompletes(r); }
    var t :| t in Resolve(BothSides(l, r), c.side) && EvaluateConstraint(c, t, taxonomy) == Indeterminate;
    if c.side == Right || (c.side == AllMembers && t != l) {
      r' := OpenCanBeViolated(c, r, taxonomy);
      assert r' in Resolve(BothSides(l', r'), c.side);
    } else {
      l' := OpenCanBeViolated(c, l, taxonomy);
      assert l' in Resolve(BothSides(l', r'), c.side);
    }
  }

  lemma ItselfCompletes(s: ComponentSpec)
    ensures Completes(s, s)
  {
  }

  /** A ranked list below a prefix that declines: the next rule decides if it resolves, and else does not. */
  lemma NextRuleDecides(matched: seq<Rule>, sidesOf: Rule -> Sides, taxonomy: Taxonomy, k: nat)
    requires k < |matched| && forall i :: 0 <= i < k ==> Apply(matched[i], sidesOf(matched[i]), taxonomy).resolved.None?
    ensures var resolved, d := Apply(matched[k], sidesOf(matched[k]), taxonomy).resolved, Decide(matched, sidesOf, taxonomy);
      if resolved.Some? then d.decider == Some(matched[k]) && d.outcome == resolved.value else d.decider != Some(matched[k])
  {
    hide Apply;
    var verdicts := Verdicts(matched, sidesOf, taxonomy);
    if verdicts[k].resolved.Some? { FirstResolvedIs(verdicts, k); }
  }

  /** The first rule that rests on open evidence, all before it having declined on evidence. */
  ghost predicate FirstOpenRule(matched: seq<Rule>, sides: Sides, taxonomy: Taxonomy, k: nat) {
    && k < |matched| && RestsOnOpenEvidence(Statuses(matched[k], sides, taxonomy))
    && forall i :: 0 <= i < k ==>
         !RestsOnOpenEvidence(Statuses(matched[i], sides, taxonomy)) && Apply(matched[i], sides, taxonomy).resolved.None?
  }

  lemma {:induction false} LeastOpen(matched: seq<Rule>, sides: Sides, taxonomy: Taxonomy, i: nat) returns (k: nat)
    requires i < |matched| && RestsOnOpenEvidence(Statuses(matched[i], sides, taxonomy))
    ensures k <= i && RestsOnOpenEvidence(Statuses(matched[k], sides, taxonomy))
    ensures forall j :: 0 <= j < k ==> !RestsOnOpenEvidence(Statuses(matched[j], sides, taxonomy))
  {
    hide RestsOnOpenEvidence, Statuses;
    k := i;
    if j :| 0 <= j < i && RestsOnOpenEvidence(Statuses(matched[j], sides, taxonomy)) {
      k := LeastOpen(matched, sides, taxonomy, j);
    }
  }

  /** A decision not settled by evidence has such a rule. */
  lemma UnsettledHasOpenRule(g: Generation, l: ComponentSpec, r: ComponentSpec) returns (k: nat)
    requires !SettledByEvidence(g, l, r)
    ensures FirstOpenRule(MatchPairRules(g, l, r), BothSides(l, r), g.taxonomy, k)
  {
    hide RestsOnOpenEvidence, Statuses, Apply, MatchPairRules;
    var matched := MatchPairRules(g, l, r);
    var first := FirstResolved(Verdicts(matched, PairSides(l, r), g.taxonomy));
    var i :| 0 <= i <= first && i < |matched| && RestsOnOpenEvidence(Statuses(matched[i], BothSides(l, r), g.taxonomy));
    k := LeastOpen(matched, BothSides(l, r), g.taxonomy, i);
  }

  /** One of its open questions can be answered by completing knowledge, and the answer matters to its policies. */
  ghost predicate CanTip(r: Rule, sides: Sides, taxonomy: Taxonomy) {
    && UnmetOutcome(r) != OpenOutcome(r)
    && exists m :: 0 <= m < |r.constraints| && !AsksForHardware(r.constraints[m]) && Statuses(r, sides, taxonomy)[m] == Indeterminate
  }

  lemma PrefixStillDeclines(matched: seq<Rule>, s: Sides, t: Sides, taxonomy: Taxonomy, k: nat)
    requires FirstOpenRule(matched, s, taxonomy, k) && CompletesSides(s, t)
    ensures forall i :: 0 <= i < k ==> Apply(matched[i], t, taxonomy).resolved.None?
  {
    hide CompletesSides, Statuses, RestsOnOpenEvidence;
    forall i | 0 <= i < k ensures Apply(matched[i], t, taxonomy).resolved.None? {
      StatusesSettle(matched[i], s, t, taxonomy);
      SettledVerdictStays(matched[i], Statuses(matched[i], s, taxonomy), Statuses(matched[i], t, taxonomy));
    }
  }

  lemma BothSidesComplete(l: ComponentSpec, r: ComponentSpec, l': ComponentSpec, r': ComponentSpec)
    requires Completes(l, l') && Completes(r, r')
    ensures CompletesSides(BothSides(l, r), BothSides(l', r'))
  {
    hide Completes;
  }

  /** The open rule resolves by one policy as it stands, and by the other after the completion. */
  lemma OpenRuleTips(r: Rule, left: ComponentSpec, right: ComponentSpec, taxonomy: Taxonomy)
    returns (left': ComponentSpec, right': ComponentSpec)
    requires RestsOnOpenEvidence(Statuses(r, BothSides(left, right), taxonomy)) && CanTip(r, BothSides(left, right), taxonomy)
    ensures Completes(left, left') && Completes(right, right')
    ensures Apply(r, BothSides(left, right), taxonomy).resolved == OpenOutcome(r)
    ensures Apply(r, BothSides(left', right'), taxonomy).resolved == UnmetOutcome(r)
  {
    hide ConstraintStatus, Completes;
    var m :| 0 <= m < |r.constraints| && !AsksForHardware(r.constraints[m])
             && Statuses(r, BothSides(left, right), taxonomy)[m] == Indeterminate;
    left', right' := OpenTargetCanBeViolated(r.constraints[m], left, right, taxonomy);
    assert Statuses(r, BothSides(left', right'), taxonomy)[m] == Violated;
  }

  lemma RankedDecisionTips(matched: seq<Rule>, s: Sides, t: Sides, sidesOf: Rule -> Sides, sidesOf': Rule -> Sides,
                           taxonomy: Taxonomy, k: nat)
    requires forall r :: sidesOf(r) == s && sidesOf'(r) == t
    requires FirstOpenRule(matched, s, taxonomy, k) && CompletesSides(s, t)
    requires Apply(matched[k], s, taxonomy).resolved != Apply(matched[k], t, taxonomy).resolved
    ensures Decide(matched, sidesOf, taxonomy) != Decide(matched, sidesOf', taxonomy)
  {
    hide Apply, CompletesSides, Decide;
    PrefixStillDeclines(matched, s, t, taxonomy, k);
    NextRuleDecides(matched, sidesOf, taxonomy, k);
    NextRuleDecides(matched, sidesOf', taxonomy, k);
  }

  /**
   * Beyond `SettledDecisionIsStable`: if the first rule that rests on open evidence treats open
   * and unmet requirements differently, some completion does change the decision.
   */
  lemma OpenEvidenceCanTip(g: Generation, l: ComponentSpec, r: ComponentSpec, k: nat) returns (l': ComponentSpec, r': ComponentSpec)
    requires RefusalOfPair(g, l, r).None?
    requires FirstOpenRule(MatchPairRules(g, l, r), BothSides(l, r), g.taxonomy, k)
    requires CanTip(MatchPairRules(g, l, r)[k], BothSides(l, r), g.taxonomy)
    ensures Completes(l, l') && Completes(r, r')
    ensures EvaluatePair(g, l', r') != EvaluatePair(g, l, r)
  {
    var matched := MatchPairRules(g, l, r);
    l', r' := OpenRuleTips(matched[k], l, r, g.taxonomy);
    MatchingIgnoresKnowledge(ActiveOf(g.rules, Pair), l, r, l', r');
    BothSidesComplete(l, r, l', r');
    hide Completes, CompletesSides, Apply, Statuses, Decide, Matching, ActiveOf, CanTip, RestsOnOpenEvidence, FirstOpenRule;
    RankedDecisionTips(matched, BothSides(l, r), BothSides(l', r'), PairSides(l, r), PairSides(l', r'), g.taxonomy, k);
  }

  // ----- Why the restriction is needed -----

  const PLAIN_SPEC: ComponentSpec :=
    ComponentSpec("f", "k", Release(1, 0, 0), None, Rules.Knowledge(false, false, false), map[], map[], map[], {})

  const CLOSED_SPEC: ComponentSpec := PLAIN_SPEC.(knowledge := Rules.Knowledge(true, false, false))

  const PERMISSIVE: Rule :=
    Rule("b", 1, 0, Standard, Symmetric, Pair, Compatible, WILDCARD, WILDCARD, [], [], HighestCommon, UnmetIncompatible,
         OpenUnknown, Active)

  /** Outranks the permissive rule, but declines while its capability question is open. */
  const HESITANT: Rule :=
    PERMISSIVE.(id := "a", priority := 1, constraints := [RequiresCapability(Left, "c")], onIndeterminate := OpenSkip)

  const HESITANT_GENERATION: Generation :=
    Generation(Taxonomy({"f"}, map["k" := "f"], {}, {}, map[]), [HESITANT, PERMISSIVE])

  lemma HesitantRanking(l: ComponentSpec, r: ComponentSpec)
    ensures MatchPairRules(HESITANT_GENERATION, l, r) == [HESITANT, PERMISSIVE]
    ensures ActiveOf(HESITANT_GENERATION.rules, Pair) == [HESITANT, PERMISSIVE]
  {
    var rules := [HESITANT, PERMISSIVE];
    assert rules[..1] == [HESITANT] && [HESITANT][..0] == [];
    assert ActiveOf([HESITANT], Pair) == [HESITANT] && ActiveOf(rules, Pair) == rules;
    assert Matching([HESITANT], l, r) == [HESITANT] && Matching(rules, l, r) == rules;
    assert rules[1..] == [PERMISSIVE] && [PERMISSIVE][1..] == [];
    assert Sort(PrecedenceHigher, [PERMISSIVE]) == [PERMISSIVE];
    assert PrecedenceHigher(HESITANT, PERMISSIVE) && !PrecedenceHigher(PERMISSIVE, HESITANT);
  }

  lemma HesitantVerdict(s: ComponentSpec)
    requires s == PLAIN_SPEC || s == CLOSED_SPEC
    ensures Apply(HESITANT, Sides([s], [s], [s, s]), HESITANT_GENERATION.taxonomy)
            == if s == CLOSED_SPEC then Verdict(RuleViolated, Some(Incompatible)) else Verdict(RuleSkipped, None)
    ensures Apply(PERMISSIVE, Sides([s], [s], [s, s]), HESITANT_GENERATION.taxonomy) == Verdict(RuleSatisfied, Some(Compatible))
  {
    var t := HESITANT_GENERATION.taxonomy;
    var c := RequiresCapability(Left, "c");
    var expected := if s == CLOSED_SPEC then Violated else Indeterminate;
    assert EvaluateConstraint(c, s, t) == expected;
    assert s in [s];
    assert ConstraintStatus(c, [s], t) == expected;
    assert Statuses(HESITANT, Sides([s], [s], [s, s]), t) == [expected];
    assert expected in [expected];
  }

  lemma HesitantDecision(s: ComponentSpec)
    requires s == PLAIN_SPEC || s == CLOSED_SPEC
    ensures EvaluatePair(HESITANT_GENERATION, s, s).outcome == if s == CLOSED_SPEC then Incompatible else Compatible
  {
    HesitantRanking(s, s);
    HesitantVerdict(s);
    var verdicts := Verdicts([HESITANT, PERMISSIVE], PairSides(s, s), HESITANT_GENERATION.taxonomy);
    assert verdicts[0].resolved.Some? <==> s == CLOSED_SPEC;
    assert verdicts[1].resolved.Some?;
    assert FirstResolved(verdicts) == if s == CLOSED_SPEC then 0 else 1;
  }

  /** With a rule that skips open questions, closing the question withdraws COMPATIBLE. */
  lemma OpenSkipCanWithdrawCompatible()
    ensures Completes(PLAIN_SPEC, CLOSED_SPEC)
    ensures EvaluatePair(HESITANT_GENERATION, PLAIN_SPEC, PLAIN_SPEC).outcome == Compatible
    ensures EvaluatePair(HESITANT_GENERATION, CLOSED_SPEC, CLOSED_SPEC).outcome == Incompatible
  {
    HesitantDecision(PLAIN_SPEC);
    HesitantDecision(CLOSED_SPEC);
  }

  // ----- Sets -----

  lemma {:induction false} SelectedComplete(r: Rule, ms: seq<ComponentSpec>, ms': seq<ComponentSpec>)
    requires CompletesAll(ms, ms')
    ensures CompletesAll(SelectedMembers(r, ms), SelectedMembers(r, ms'))
  {
    if ms != [] {
      var n := |ms| - 1;
      SelectedComplete(r, ms[..n], ms'[..n]);
      SelectorIgnoresKnowledge(r.left, ms[n], ms'[n]);
    }
  }

  lemma MatchesSomeIgnoresKnowledge(r: Rule, ms: seq<ComponentSpec>, ms': seq<ComponentSpec>)
    requires CompletesAll(ms, ms')
    ensures MatchesSomeMember(r, ms') == MatchesSomeMember(r, ms)
  {
    forall i | 0 <= i < |ms| ensures SelectorMatches(r.left, ms'[i]) == SelectorMatches(r.left, ms[i]) {
      SelectorIgnoresKnowledge(r.left, ms[i], ms'[i]);
    }
    if MatchesSomeMember(r, ms) {
      var i :| 0 <= i < |ms| && SelectorMatches(r.left, ms[i]);
      assert ms'[i] in ms';
    }
    if MatchesSomeMember(r, ms') {
      var i :| 0 <= i < |ms'| && SelectorMatches(r.left, ms'[i]);
      assert ms[i] in ms;
    }
  }

  lemma {:induction false} MatchingSetIgnoresKnowledge(rules: seq<Rule>, ms: seq<ComponentSpec>, ms': seq<ComponentSpec>)
    requires CompletesAll(ms, ms')
    ensures MatchingSet(rules, ms') == MatchingSet(rules, ms)
  {
    if rules != [] {
      MatchingSetIgnoresKnowledge(rules[..|rules| - 1], ms, ms');
      MatchesSomeIgnoresKnowledge(rules[|rules| - 1], ms, ms');
    }
  }

  lemma {:induction false} RefusalIgnoresKnowledge(t: Taxonomy, ms: seq<ComponentSpec>, ms': seq<ComponentSpec>)
    requires CompletesAll(ms, ms')
    ensures RefusalOfMembers(t, ms') == RefusalOfMembers(t, ms)
  {
    if ms != [] {
      assert Completes(ms[0], ms'[0]);
      assert forall i :: 0 <= i < |ms[1..]| ==> Completes(ms[1..][i], ms'[1..][i]);
      RefusalIgnoresKnowledge(t, ms[1..], ms'[1..]);
    }
  }

  ghost predicate NeverSkipsOpenSetQuestions(g: Generation) {
    forall r :: r in ActiveOf(g.rules, Set) ==> r.onIndeterminate != OpenSkip
  }

  lemma CompatibleSetLevelStays(g: Generation, ms: seq<ComponentSpec>, ms': seq<ComponentSpec>)
    requires CompletesAll(ms, ms')
    requires NeverSkipsOpenSetQuestions(g)
    requires EvaluateSetLevel(g, ms).outcome == Compatible
    ensures EvaluateSetLevel(g, ms') == EvaluateSetLevel(g, ms)
  {
    var active := ActiveOf(g.rules, Set);
    var matched := MatchSetRules(g, ms);
    RefusalIgnoresKnowledge(g.taxonomy, ms, ms');
    MatchingSetIgnoresKnowledge(active, ms, ms');
    SortMembers(PrecedenceHigher, MatchingSet(active, ms));
    MatchingSetMembers(active, ms);
    forall r | r in matched ensures CompletesSides(SetSides(ms)(r), SetSides(ms')(r)) {
      SelectedComplete(r, ms, ms');
    }
    var verdicts := Verdicts(matched, SetSides(ms), g.taxonomy);
    forall i | 0 <= i <= FirstResolved(verdicts)
      ensures !RestsOnOpenEvidence(Statuses(matched[i], SetSides(ms)(matched[i]), g.taxonomy))
    {
      assert matched[i] in matched;
      var statuses := Statuses(matched[i], SetSides(ms)(matched[i]), g.taxonomy);
      assert verdicts[i] == VerdictOf(matched[i], statuses);
      if i < FirstResolved(verdicts) { SkippedMeansViolated(matched[i], statuses); }
    }
    RankedDecisionStays(matched, SetSides(ms), SetSides(ms'), g.taxonomy);
  }

  lemma CompatiblePairStays(g: Generation, ms: seq<ComponentSpec>, ms': seq<ComponentSpec>, i: nat, j: nat)
    requires CompletesAll(ms, ms') && NeverSkipsOpenQuestions(g)
    requires i < j < |ms|
    ensures PairVerdict(g)(ms[i], ms[j]).outcome == Compatible ==> PairVerdict(g)(ms'[i], ms'[j]).outcome == Compatible
  {
    if EvaluatePair(g, ms[i], ms[j]).outcome == Compatible {
      CompatibleIsNeverWithdrawn(g, ms[i], ms[j], ms'[i], ms'[j]);
    }
  }

  lemma NoBadPairAppears(f: (ComponentSpec, ComponentSpec) -> Decision, ms: seq<ComponentSpec>, ms': seq<ComponentSpec>)
    requires |ms| == |ms'|
    requires forall i, j :: 0 <= i < j < |ms| ==>
               (f(ms[i], ms[j]).outcome == Compatible ==> f(ms'[i], ms'[j]).outcome == Compatible)
    requires !SomePair(f, ms, Incompatible) && !SomePair(f, ms, Unknown)
    ensures !SomePair(f, ms', Incompatible) && !SomePair(f, ms', Unknown)
  {
    forall i, j | 0 <= i < j < |ms| ensures f(ms'[i], ms'[j]).outcome == Compatible {
      assert f(ms[i], ms[j]).outcome != Incompatible && f(ms[i], ms[j]).outcome != Unknown;
    }
  }

  /** A set found COMPATIBLE stays COMPATIBLE under every completion of its members. */
  lemma CompatibleSetIsNeverWithdrawn(g: Generation, ms: seq<ComponentSpec>, ms': seq<ComponentSpec>,
                                      pairs: seq<Decision>, pairs': seq<Decision>)
    requires CompletesAll(ms, ms')
    requires NeverSkipsOpenQuestions(g) && NeverSkipsOpenSetQuestions(g)
    requires ListsPairs(PairVerdict(g), ms, pairs) && ListsPairs(PairVerdict(g), ms', pairs')
    requires Aggregate(EvaluateSetLevel(g, ms), pairs) == Compatible
    ensures Aggregate(EvaluateSetLevel(g, ms'), pairs') == Compatible
  {
    AggregateMeaning(PairVerdict(g), ms, EvaluateSetLevel(g, ms), pairs);
    AggregateMeaning(PairVerdict(g), ms', EvaluateSetLevel(g, ms'), pairs');
    CompatibleSetLevelStays(g, ms, ms');
    forall i, j | 0 <= i < j < |ms|
      ensures PairVerdict(g)(ms[i], ms[j]).outcome == Compatible ==> PairVerdict(g)(ms'[i], ms'[j]).outcome == Compatible
    {
      CompatiblePairStays(g, ms, ms', i, j);
    }
    NoBadPairAppears(PairVerdict(g), ms, ms');
  }
}
