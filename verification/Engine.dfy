/** The decision engine (src/registry.cpp): three-valued constraints, ranked rules, set aggregation. */
module Engine {
  import opened Order
  import opened SemVer
  import opened Sorting
  import opened Rules
  import VersionRange

  datatype Status = Satisfied | Violated | Indeterminate

  /** Present facts decide; absent ones are a violation only where knowledge is closed. */
  function Presence(present: bool, closed: bool): Status {
    if present then Satisfied else if closed then Violated else Indeterminate
  }

  function Absence(present: bool, closed: bool): Status {
    if present then Violated else if closed then Satisfied else Indeterminate
  }

  predicate SupportsRange(versions: seq<SemVersion>, range: VersionRange.Range) {
    exists i :: 0 <= i < |versions| && VersionRange.Contains(range, versions[i])
  }

  function SupportStatus(items: map<string, seq<SemVersion>>, id: string, range: VersionRange.Range, closed: bool): Status {
    if id in items then if SupportsRange(items[id], range) then Satisfied else Violated
    else Presence(false, closed)
  }

  function EvaluateConstraint(c: Constraint, spec: ComponentSpec, taxonomy: Taxonomy): Status {
    match c
    case RequiresCapability(_, id) => Presence(id in spec.capabilities, spec.knowledge.capabilitiesClosed)
    case RequiresCapabilityValue(_, id, op, literal) =>
      if id !in spec.capabilities then Presence(false, spec.knowledge.capabilitiesClosed)
      else if id in taxonomy.capabilities && TypeOf(literal) != taxonomy.capabilities[id] then Violated
      else if ApplyComparison(op, spec.capabilities[id], literal) then Satisfied
      else Violated
    case ForbidsCapability(_, id) => Absence(id in spec.capabilities, spec.knowledge.capabilitiesClosed)
    case RequiresProtocol(_, id, range) => SupportStatus(spec.protocols, id, range, spec.knowledge.protocolsClosed)
    case ForbidsProtocol(_, id) => Absence(id in spec.protocols, spec.knowledge.protocolsClosed)
    case RequiresSchema(_, id, range) => SupportStatus(spec.schemas, id, range, spec.knowledge.schemasClosed)
    case ForbidsSchema(_, id) => Absence(id in spec.schemas, spec.knowledge.schemasClosed)
    case RequiresHardwareClass(_, id) =>
      if spec.hardwareClass.None? then Indeterminate
      else if spec.hardwareClass.value == id then Satisfied else Violated
    case ForbidsHardwareClass(_, id) =>
      if spec.hardwareClass.None? then Indeterminate
      else if spec.hardwareClass.value == id then Violated else Satisfied
    case RequiresFeature(_, id) => Presence(id in spec.features, spec.knowledge.capabilitiesClosed)
    case ForbidsFeature(_, id) => Absence(id in spec.features, spec.knowledge.capabilitiesClosed)
    case VersionAtLeast(_, v) => if Precedence(spec.version, v) != Less then Satisfied else Violated
    case VersionAtMost(_, v) => if Precedence(v, spec.version) != Less then Satisfied else Violated
  }

  /** The components a constraint side selects. */
  datatype Sides = Sides(left: seq<ComponentSpec>, right: seq<ComponentSpec>, all: seq<ComponentSpec>)

  function Resolve(sides: Sides, side: Side): seq<ComponentSpec> {
    match side
    case Left => sides.left
    case Right => sides.right
    case AllMembers => sides.all
  }

  /** Over all targets: one violation violates; otherwise one open question leaves it open. */
  function ConstraintStatus(c: Constraint, targets: seq<ComponentSpec>, taxonomy: Taxonomy): Status {
    if exists t :: t in targets && EvaluateConstraint(c, t, taxonomy) == Violated then Violated
    else if targets == [] || exists t :: t in targets && EvaluateConstraint(c, t, taxonomy) == Indeterminate then Indeterminate
    else Satisfied
  }

  datatype RuleStatus = RuleSatisfied | RuleViolated | RuleIndeterminate | RuleSkipped

  datatype Verdict = Verdict(status: RuleStatus, resolved: Option<Outcome>)

  /** One status per constraint, each against the components its side selects. */
  function Statuses(r: Rule, sides: Sides, taxonomy: Taxonomy): (s: seq<Status>)
    ensures |s| == |r.constraints|
  {
    seq(|r.constraints|, i requires 0 <= i < |r.constraints| =>
      ConstraintStatus(r.constraints[i], Resolve(sides, r.constraints[i].side), taxonomy))
  }

  /** Violation is looked at before open questions; each has its own policy. */
  function VerdictOf(r: Rule, statuses: seq<Status>): Verdict {
    if Violated in statuses then
      match r.onUnmet
      case UnmetSkip => Verdict(RuleSkipped, None)
      case UnmetUnknown => Verdict(RuleViolated, Some(Unknown))
      case UnmetIncompatible => Verdict(RuleViolated, Some(Incompatible))
    else if Indeterminate in statuses then
      match r.onIndeterminate
      case OpenSkip => Verdict(RuleSkipped, None)
      case OpenIncompatible => Verdict(RuleIndeterminate, Some(Incompatible))
      case OpenUnknown => Verdict(RuleIndeterminate, Some(Unknown))
    else
      Verdict(RuleSatisfied, Some(r.outcome))
  }

  function Apply(r: Rule, sides: Sides, taxonomy: Taxonomy): Verdict {
    VerdictOf(r, Statuses(r, sides, taxonomy))
  }

  /** The requirements a rule reports as unmet: every constraint not satisfied, in order. */
  function Unmet(constraints: seq<Constraint>, statuses: seq<Status>): seq<(Constraint, Status)>
    requires |constraints| == |statuses|
  {
    if constraints == [] then []
    else
      var n := |constraints| - 1;
      Unmet(constraints[..n], statuses[..n]) + if statuses[n] == Satisfied then [] else [(constraints[n], statuses[n])]
  }

  lemma NothingUnmet()
    ensures Unmet([], []) == []
  {
  }

  /** One constraint's status joins the evidence, the flags and the unmet list. */
  method Note(constraint: Constraint, status: Status, ghost seen: seq<Constraint>, statuses: seq<Status>,
              anyViolated: bool, anyIndeterminate: bool, unmet: seq<(Constraint, Status)>)
    returns (statuses': seq<Status>, anyViolated': bool, anyIndeterminate': bool, unmet': seq<(Constraint, Status)>)
    requires |seen| == |statuses| && unmet == Unmet(seen, statuses)
    requires anyViolated == (Violated in statuses) && anyIndeterminate == (Indeterminate in statuses)
    ensures statuses' == statuses + [status]
    ensures anyViolated' == (Violated in statuses') && anyIndeterminate' == (Indeterminate in statuses')
    ensures unmet' == Unmet(seen + [constraint], statuses')
  {
    statuses', anyViolated', anyIndeterminate', unmet' := statuses + [status], anyViolated, anyIndeterminate, unmet;
    assert (seen + [constraint])[..|seen|] == seen && statuses'[..|seen|] == statuses;
    if status == Violated {
      anyViolated' := true;
      unmet' := unmet + [(constraint, Violated)];
    } else if status == Indeterminate {
      anyIndeterminate' := true;
      unmet' := unmet + [(constraint, Indeterminate)];
    }
  }

  method ComputeStatus(r: Rule, sides: Sides, taxonomy: Taxonomy, i: nat) returns (status: Status)
    requires i < |r.constraints|
    ensures status == Statuses(r, sides, taxonomy)[i]
  {
    status := ComputeConstraintStatus(r.constraints[i], Resolve(sides, r.constraints[i].side), taxonomy);
  }

  /** Per-constraint evidence, then the policy that turns it into a verdict. */
  method ApplyRule(r: Rule, sides: Sides, taxonomy: Taxonomy)
    returns (verdict: Verdict, statuses: seq<Status>, unmet: seq<(Constraint, Status)>)
    ensures verdict == Apply(r, sides, taxonomy)
    ensures statuses == Statuses(r, sides, taxonomy)
    ensures unmet == Unmet(r.constraints, statuses)
  {
    hide VerdictOf, Unmet, ConstraintStatus;
    NothingUnmet();
    var anyViolated, anyIndeterminate := false, false;
    statuses, unmet := [], [];
    ghost var all := Statuses(r, sides, taxonomy);
    for i := 0 to |r.constraints|
      invariant statuses == all[..i]
      invariant anyViolated == (Violated in statuses)
      invariant anyIndeterminate == (Indeterminate in statuses)
      invariant unmet == Unmet(r.constraints[..i], statuses)
    {
      var constraint := r.constraints[i];
      var status := ComputeStatus(r, sides, taxonomy, i);
      statuses, anyViolated, anyIndeterminate, unmet :=
        Note(constraint, status, r.constraints[..i], statuses, anyViolated, anyIndeterminate, unmet);
      assert r.constraints[..i + 1] == r.constraints[..i] + [constraint];
    }
    assert r.constraints[..|r.constraints|] == r.constraints && all[..|all|] == all;
    verdict := ApplyPolicy(r, statuses, anyViolated, anyIndeterminate);
  }

  method ApplyPolicy(r: Rule, ghost statuses: seq<Status>, anyViolated: bool, anyIndeterminate: bool) returns (verdict: Verdict)
    requires anyViolated == (Violated in statuses) && anyIndeterminate == (Indeterminate in statuses)
    ensures verdict == VerdictOf(r, statuses)
  {
    if anyViolated {
      match r.onUnmet
      case UnmetSkip => return Verdict(RuleSkipped, None);
      case UnmetUnknown => return Verdict(RuleViolated, Some(Unknown));
      case UnmetIncompatible => return Verdict(RuleViolated, Some(Incompatible));
    }
    if anyIndeterminate {
      match r.onIndeterminate
      case OpenSkip => return Verdict(RuleSkipped, None);
      case OpenIncompatible => return Verdict(RuleIndeterminate, Some(Incompatible));
      case OpenUnknown => return Verdict(RuleIndeterminate, Some(Unknown));
    }
    return Verdict(RuleSatisfied, Some(r.outcome));
  }

  /** The loop over targets stops at the first violation. */
  method ComputeConstraintStatus(c: Constraint, targets: seq<ComponentSpec>, taxonomy: Taxonomy) returns (status: Status)
    ensures status == ConstraintStatus(c, targets, taxonomy)
  {
    status := if targets == [] then Indeterminate else Satisfied;
    for i := 0 to |targets|
      invariant status != Violated
      invariant forall k :: 0 <= k < i ==> EvaluateConstraint(c, targets[k], taxonomy) != Violated
      invariant status == Indeterminate <==>
                targets == [] || exists k :: 0 <= k < i && EvaluateConstraint(c, targets[k], taxonomy) == Indeterminate
    {
      var outcome := EvaluateConstraint(c, targets[i], taxonomy);
      if outcome == Violated {
        return Violated;
      }
      if outcome == Indeterminate && status == Satisfied {
        status := Indeterminate;
      }
    }
  }

  // ----- Ranked rules -----

  datatype Reason =
    | DecidedByRule | NoMatchingRule | AllMatchedRulesSkipped
    | UnregisteredComponentKind | UnregisteredComponentFamily | KindFamilyMismatch | NoActiveRules

  /** `policy` is the negotiation policy the decision hands to version negotiation. */
  datatype Decision = Decision(
    outcome: Outcome,
    reason: Reason,
    decider: Option<Rule>,
    totalMatched: nat,
    policy: NegotiationPolicy)

  function Undecided(reason: Reason, totalMatched: nat): Decision {
    Decision(Unknown, reason, None, totalMatched, HighestCommon)
  }

  function Verdicts(matched: seq<Rule>, sidesOf: Rule -> Sides, taxonomy: Taxonomy): (v: seq<Verdict>)
    ensures |v| == |matched|
    ensures forall i :: 0 <= i < |v| ==> v[i] == Apply(matched[i], sidesOf(matched[i]), taxonomy)
  {
    seq(|matched|, i requires 0 <= i < |matched| => Apply(matched[i], sidesOf(matched[i]), taxonomy))
  }

  /** The first rank that reaches a verdict, or the number of ranks. */
  function FirstResolved(verdicts: seq<Verdict>): (k: nat)
    ensures k <= |verdicts|
    ensures k < |verdicts| ==> verdicts[k].resolved.Some?
    ensures forall i :: 0 <= i < k ==> verdicts[i].resolved.None?
  {
    if verdicts == [] || verdicts[0].resolved.Some? then 0 else 1 + FirstResolved(verdicts[1..])
  }

  function DecideFrom(matched: seq<Rule>, verdicts: seq<Verdict>): Decision
    requires |matched| == |verdicts|
  {
    var k := FirstResolved(verdicts);
    if k < |matched| then
      Decision(verdicts[k].resolved.value, DecidedByRule, Some(matched[k]), |matched|, matched[k].negotiation)
    else if matched == [] then Undecided(NoMatchingRule, 0)
    else Undecided(AllMatchedRulesSkipped, |matched|)
  }

  function Decide(matched: seq<Rule>, sidesOf: Rule -> Sides, taxonomy: Taxonomy): Decision {
    DecideFrom(matched, Verdicts(matched, sidesOf, taxonomy))
  }

  const MAX_EVIDENCE_RULES: nat := 256

  datatype Evidence = Evidence(rule: Rule, rank: nat, verdict: Verdict, decided: bool)

  function EvidenceAt(matched: seq<Rule>, verdicts: seq<Verdict>, rank: nat): Evidence
    requires rank < |matched| == |verdicts|
  {
    Evidence(matched[rank], rank, verdicts[rank], rank == FirstResolved(verdicts))
  }

  /** Entries are true records of ranks, in rank order, except that the last may be the decider's. */
  predicate EvidenceUpTo(matched: seq<Rule>, verdicts: seq<Verdict>, evidence: seq<Evidence>, n: nat)
    requires |matched| == |verdicts|
  {
    && (forall i :: 0 <= i < |evidence| ==>
          evidence[i].rank < n && evidence[i].rank < |matched| && evidence[i] == EvidenceAt(matched, verdicts, evidence[i].rank))
    && (forall i :: 0 <= i < |evidence| ==>
          evidence[i].rank == i || (i == |evidence| - 1 && evidence[i].rank == FirstResolved(verdicts)))
    && (FirstResolved(verdicts) < n && n <= |matched| ==> exists i :: 0 <= i < |evidence| && evidence[i].rank == FirstResolved(verdicts))
  }

  /**
   * The evaluation loop. The evidence is bounded, but each entry is the true record of some
   * rank and the deciding rule is never the one that is cut off.
   */
  method EvaluateRanked(matched: seq<Rule>, sidesOf: Rule -> Sides, taxonomy: Taxonomy)
    returns (decision: Decision, evidence: seq<Evidence>, truncated: bool)
    ensures decision == Decide(matched, sidesOf, taxonomy)
    ensures |evidence| == if |matched| < 256 then |matched| else 256
    ensures truncated == (|matched| > 256)
    ensures EvidenceUpTo(matched, Verdicts(matched, sidesOf, taxonomy), evidence, |matched|)
  {
    evidence, truncated := [], false;
    var deciding: Option<nat> := None;
    var resolved := Unknown;
    var recorded := false;
    ghost var verdicts := Verdicts(matched, sidesOf, taxonomy);
    ghost var first := FirstResolved(verdicts);
    for rank := 0 to |matched|
      invariant |evidence| == if rank < MAX_EVIDENCE_RULES then rank else MAX_EVIDENCE_RULES
      invariant truncated == (rank > MAX_EVIDENCE_RULES)
      invariant deciding == if first < rank then Some(first) else None
      invariant first < rank ==> Some(resolved) == verdicts[first].resolved
      invariant !recorded ==> forall i :: 0 <= i < |evidence| ==> evidence[i].rank == i
      invariant recorded ==> first < rank && |evidence| == MAX_EVIDENCE_RULES
      invariant EvidenceUpTo(matched, verdicts, evidence, rank)
    {
      var rule := matched[rank];
      var verdict := ComputeVerdict(rule, sidesOf(rule), taxonomy);
      var decides := deciding.None? && verdict.resolved.Some? && verdict.status != RuleSkipped;
      assert decides == (rank == first);
      if decides {
        deciding := Some(rank);
        resolved := verdict.resolved.value;
      }
      var entry := Evidence(rule, rank, verdict, decides);
      evidence, truncated, recorded := Record(matched, verdicts, evidence, truncated, recorded, entry);
    }
    if deciding.Some? {
      decision := Decision(resolved, DecidedByRule, Some(matched[deciding.value]), |matched|, matched[deciding.value].negotiation);
    } else if |matched| == 0 {
      decision := Undecided(NoMatchingRule, 0);
    } else {
      decision := Undecided(AllMatchedRulesSkipped, |matched|);
    }
  }

  method ComputeVerdict(r: Rule, sides: Sides, taxonomy: Taxonomy) returns (verdict: Verdict)
    ensures verdict == Apply(r, sides, taxonomy)
    ensures verdict.resolved.Some? ==> verdict.status != RuleSkipped
  {
    var v, _, _ := ApplyRule(r, sides, taxonomy);
    verdict := v;
  }

  /** Appends while there is room; past that only the decider gets in, over the last entry. */
  method Record(ghost matched: seq<Rule>, ghost verdicts: seq<Verdict>, evidence: seq<Evidence>, truncated: bool, recorded: bool,
                entry: Evidence)
    returns (evidence': seq<Evidence>, truncated': bool, recorded': bool)
    requires |matched| == |verdicts| && entry.rank < |matched| && entry == EvidenceAt(matched, verdicts, entry.rank)
    requires |evidence| == if entry.rank < MAX_EVIDENCE_RULES then entry.rank else MAX_EVIDENCE_RULES
    requires EvidenceUpTo(matched, verdicts, evidence, entry.rank)
    requires !recorded ==> forall i :: 0 <= i < |evidence| ==> evidence[i].rank == i
    requires recorded ==> FirstResolved(verdicts) < entry.rank && |evidence| == MAX_EVIDENCE_RULES
    ensures |evidence'| == if |evidence| < MAX_EVIDENCE_RULES then |evidence| + 1 else MAX_EVIDENCE_RULES
    ensures truncated' == (truncated || |evidence| == MAX_EVIDENCE_RULES)
    ensures !recorded' ==> forall i :: 0 <= i < |evidence'| ==> evidence'[i].rank == i
    ensures recorded' ==> FirstResolved(verdicts) <= entry.rank && |evidence'| == MAX_EVIDENCE_RULES
    ensures EvidenceUpTo(matched, verdicts, evidence', entry.rank + 1)
  {
    evidence', truncated', recorded' := evidence, truncated, recorded;
    if |evidence| < MAX_EVIDENCE_RULES {
      evidence' := evidence + [entry];
      assert evidence'[|evidence|].rank == entry.rank;
      assert forall i :: 0 <= i < |evidence| ==> evidence'[i] == evidence[i];
    } else {
      truncated' := true;
      if entry.decided && !recorded {
        evidence' := evidence[|evidence| - 1 := entry];
        assert evidence'[|evidence| - 1].rank == FirstResolved(verdicts);
        recorded' := true;
      }
    }
  }

  // ----- Pair and set queries -----

  /** A compiled generation: rules in document order under a taxonomy. */
  datatype Generation = Generation(taxonomy: Taxonomy, rules: seq<Rule>)

  function ActiveOf(rules: seq<Rule>, arity: RuleArity): seq<Rule> {
    if rules == [] then []
    else ActiveOf(rules[..|rules| - 1], arity)
         + if rules[|rules| - 1].state == Active && rules[|rules| - 1].arity == arity then [rules[|rules| - 1]] else []
  }

  function Matching(rules: seq<Rule>, left: ComponentSpec, right: ComponentSpec): seq<Rule> {
    if rules == [] then []
    else Matching(rules[..|rules| - 1], left, right)
         + if RuleMatches(rules[|rules| - 1], left, right) then [rules[|rules| - 1]] else []
  }

  function MatchPairRules(g: Generation, left: ComponentSpec, right: ComponentSpec): seq<Rule> {
    Sort(PrecedenceHigher, Matching(ActiveOf(g.rules, Pair), left, right))
  }

  function PairSides(left: ComponentSpec, right: ComponentSpec): Rule -> Sides {
    _ => Sides([left], [right], [left, right])
  }

  /** Why a query never reaches the rules, if it does not. */
  function RefusalOfPair(g: Generation, left: ComponentSpec, right: ComponentSpec): Option<Reason> {
    var t := g.taxonomy;
    if left.family !in t.families || right.family !in t.families then Some(UnregisteredComponentFamily)
    else if left.kind !in t.kinds || right.kind !in t.kinds then Some(UnregisteredComponentKind)
    else if t.kinds[left.kind] != left.family || t.kinds[right.kind] != right.family then Some(KindFamilyMismatch)
    else if ActiveOf(g.rules, Pair) == [] then Some(NoActiveRules)
    else None
  }

  /** Constraint sides stay as the query gave them even when a rule matches mirrored. */
  function EvaluatePair(g: Generation, left: ComponentSpec, right: ComponentSpec): Decision {
    var refusal := RefusalOfPair(g, left, right);
    if refusal.Some? then Undecided(refusal.value, 0)
    else Decide(MatchPairRules(g, left, right), PairSides(left, right), g.taxonomy)
  }

  method ComputeMatchPairRules(g: Generation, left: ComponentSpec, right: ComponentSpec) returns (matched: seq<Rule>)
    ensures matched == MatchPairRules(g, left, right)
  {
    matched := [];
    var active := ActiveOf(g.rules, Pair);
    for i := 0 to |active|
      invariant matched == Matching(active[..i], left, right)
    {
      assert active[..i + 1][..i] == active[..i];
      var matches, _ := ComputeRuleMatches(active[i], left, right);
      if matches { matched := matched + [active[i]]; }
    }
    assert active[..|active|] == active;
    matched := Sort(PrecedenceHigher, matched);
  }

  method EvaluatePairInternal(g: Generation, left: ComponentSpec, right: ComponentSpec)
    returns (decision: Decision, evidence: seq<Evidence>, truncated: bool)
    ensures decision == EvaluatePair(g, left, right)
    ensures truncated <==> decision.totalMatched > 256
    ensures |evidence| == if truncated then 256 else decision.totalMatched
    ensures RefusalOfPair(g, left, right).None? ==>
      var matched := MatchPairRules(g, left, right);
      EvidenceUpTo(matched, Verdicts(matched, PairSides(left, right), g.taxonomy), evidence, |matched|)
  {
    var refusal := RefusalOfPair(g, left, right);
    if refusal.Some? {
      return Undecided(refusal.value, 0), [], false;
    }
    var matched := ComputeMatchPairRules(g, left, right);
    decision, evidence, truncated := EvaluateRanked(matched, PairSides(left, right), g.taxonomy);
  }

  predicate MatchesSomeMember(r: Rule, members: seq<ComponentSpec>) {
    exists m :: m in members && SelectorMatches(r.left, m)
  }

  function SelectedMembers(r: Rule, members: seq<ComponentSpec>): seq<ComponentSpec> {
    if members == [] then []
    else SelectedMembers(r, members[..|members| - 1])
         + if SelectorMatches(r.left, members[|members| - 1]) then [members[|members| - 1]] else []
  }

  function MatchingSet(rules: seq<Rule>, members: seq<ComponentSpec>): seq<Rule> {
    if rules == [] then []
    else MatchingSet(rules[..|rules| - 1], members)
         + if MatchesSomeMember(rules[|rules| - 1], members) then [rules[|rules| - 1]] else []
  }

  function SetSides(members: seq<ComponentSpec>): Rule -> Sides {
    r => Sides(SelectedMembers(r, members), [], members)
  }

  /** The first ill-formed member decides the reason. */
  function RefusalOfMembers(t: Taxonomy, members: seq<ComponentSpec>): Option<Reason> {
    if members == [] then None
    else
      var m := members[0];
      if m.family !in t.families then Some(UnregisteredComponentFamily)
      else if m.kind !in t.kinds then Some(UnregisteredComponentKind)
      else if t.kinds[m.kind] != m.family then Some(KindFamilyMismatch)
      else RefusalOfMembers(t, members[1..])
  }

  function RefusalOfSet(g: Generation, members: seq<ComponentSpec>): Option<Reason> {
    var refusal := RefusalOfMembers(g.taxonomy, members);
    if refusal.Some? then refusal
    else if ActiveOf(g.rules, Set) == [] then Some(NoActiveRules)
    else None
  }

  function MatchSetRules(g: Generation, members: seq<ComponentSpec>): seq<Rule> {
    Sort(PrecedenceHigher, MatchingSet(ActiveOf(g.rules, Set), members))
  }

  function EvaluateSetLevel(g: Generation, members: seq<ComponentSpec>): Decision {
    var refusal := RefusalOfSet(g, members);
    if refusal.Some? then Undecided(refusal.value, 0)
    else Decide(MatchSetRules(g, members), SetSides(members), g.taxonomy)
  }

  const MAX_SET_MEMBERS: nat := 64

  datatype SetError = TooFewMembers | TooManyMembers

  datatype SetResult = SetRefused(error: SetError) | SetDecided(outcome: Outcome, setLevel: Decision, pairs: seq<Decision>)

  /** One incompatible verdict anywhere is incompatible; compatible needs every verdict. */
  function Aggregate(setLevel: Decision, pairs: seq<Decision>): Outcome {
    if setLevel.outcome == Incompatible || exists d :: d in pairs && d.outcome == Incompatible then Incompatible
    else if setLevel.outcome == Unknown || exists d :: d in pairs && d.outcome == Unknown then Unknown
    else Compatible
  }

  /** The loop over pair verdicts, which stops at the first incompatible one. */
  method ComputeAggregate(setLevel: Decision, pairs: seq<Decision>) returns (outcome: Outcome)
    ensures outcome == Aggregate(setLevel, pairs)
  {
    outcome := Compatible;
    var anyUnknown := false;
    var i := 0;
    while i < |pairs|
      invariant i <= |pairs|
      invariant outcome == Compatible
      invariant forall k :: 0 <= k < i ==> pairs[k].outcome != Incompatible
      invariant anyUnknown == exists k :: 0 <= k < i && pairs[k].outcome == Unknown
    {
      if pairs[i].outcome == Incompatible {
        outcome := Incompatible;
        break;
      }
      if pairs[i].outcome == Unknown { anyUnknown := true; }
      i := i + 1;
    }
    if outcome != Incompatible {
      if setLevel.outcome == Incompatible {
        outcome := Incompatible;
      } else if setLevel.outcome == Unknown || anyUnknown {
        outcome := Unknown;
      }
    }
  }

  ghost predicate PairAt<X, D>(f: (X, X) -> D, xs: seq<X>, i: int, j: int, d: D) {
    0 <= i < j < |xs| && d == f(xs[i], xs[j])
  }

  /** The list holds the verdict of every pair i < j and nothing else. */
  ghost predicate ListsPairs<X, D(!new)>(f: (X, X) -> D, xs: seq<X>, pairs: seq<D>) {
    && (forall d :: d in pairs ==> exists i, j :: PairAt(f, xs, i, j, d))
    && (forall i, j, d :: PairAt(f, xs, i, j, d) ==> d in pairs)
  }

  function PairsOf<X, D>(f: (X, X) -> D, xs: seq<X>, i: nat): seq<D>
    requires i < |xs|
  {
    seq(|xs| - i - 1, k requires 0 <= k < |xs| - i - 1 => f(xs[i], xs[i + 1 + k]))
  }

  /** The pairs of the first n rows of the upper triangle. */
  function PairRows<X, D>(f: (X, X) -> D, xs: seq<X>, n: nat): seq<D>
    requires n <= |xs|
  {
    if n == 0 then [] else PairRows(f, xs, n - 1) + PairsOf(f, xs, n - 1)
  }

  /** The double loop over i < j, for any pairwise verdict. */
  method AllPairs<X, D>(f: (X, X) -> D, xs: seq<X>) returns (pairs: seq<D>)
    ensures pairs == PairRows(f, xs, |xs|)
  {
    pairs := [];
    for i := 0 to |xs|
      invariant pairs == PairRows(f, xs, i)
    {
      for j := i + 1 to |xs|
        invariant pairs == PairRows(f, xs, i) + PairsOf(f, xs, i)[..j - i - 1]
      {
        pairs := pairs + [f(xs[i], xs[j])];
      }
    }
  }

  lemma RowListsPairs<X, D(!new)>(f: (X, X) -> D, xs: seq<X>, i: nat)
    requires i < |xs|
    ensures forall d :: d in PairsOf(f, xs, i) ==> exists j :: PairAt(f, xs, i, j, d)
    ensures forall j, d :: PairAt(f, xs, i, j, d) ==> d in PairsOf(f, xs, i)
  {
    var row := PairsOf(f, xs, i);
    forall d | d in row ensures exists j :: PairAt(f, xs, i, j, d) {
      var k :| 0 <= k < |row| && row[k] == d;
      assert PairAt(f, xs, i, i + 1 + k, d);
    }
    forall j, d | PairAt(f, xs, i, j, d) ensures d in row {
      assert row[j - i - 1] == d;
    }
  }

  lemma {:induction false} PairRowsListPairs<X, D(!new)>(f: (X, X) -> D, xs: seq<X>, n: nat)
    requires n <= |xs|
    ensures forall d :: d in PairRows(f, xs, n) ==> exists i, j :: PairAt(f, xs, i, j, d)
    ensures forall i, j, d :: PairAt(f, xs, i, j, d) && i < n ==> d in PairRows(f, xs, n)
  {
    if n > 0 {
      PairRowsListPairs(f, xs, n - 1);
      RowListsPairs(f, xs, n - 1);
    }
  }

  /** Where row i of the upper triangle starts. */
  function RowStart(size: nat, i: nat): (start: nat)
    requires i <= size
  {
    if i == 0 then 0 else RowStart(size, i - 1) + (size - i)
  }

  /** The verdict of the pair i < j stands at its place in the triangle, and there is no other. */
  lemma {:induction false} PairRowsAt<X, D>(f: (X, X) -> D, xs: seq<X>, n: nat, i: nat, j: nat)
    requires i < n <= |xs| && i < j < |xs|
    ensures |PairRows(f, xs, n)| == RowStart(|xs|, n)
    ensures RowStart(|xs|, i) + (j - i - 1) < RowStart(|xs|, n)
    ensures PairRows(f, xs, n)[RowStart(|xs|, i) + (j - i - 1)] == f(xs[i], xs[j])
  {
    PairRowsLength(f, xs, n - 1);
    if i < n - 1 { PairRowsAt(f, xs, n - 1, i, j); }
  }

  lemma {:induction false} PairRowsLength<X, D>(f: (X, X) -> D, xs: seq<X>, n: nat)
    requires n <= |xs|
    ensures |PairRows(f, xs, n)| == RowStart(|xs|, n)
    ensures 2 * RowStart(|xs|, n) == n * (2 * |xs| - n - 1)
  {
    if n > 0 {
      PairRowsLength(f, xs, n - 1);
      assert n * (2 * |xs| - n - 1) == (n - 1) * (2 * |xs| - n) + 2 * (|xs| - n);
    }
  }

  /** The whole answer to a set query. */
  function DecideSet(g: Generation, members: seq<ComponentSpec>): SetResult {
    if |members| < 2 then SetRefused(TooFewMembers)
    else if |members| > MAX_SET_MEMBERS then SetRefused(TooManyMembers)
    else
      var setLevel, pairs := EvaluateSetLevel(g, members), PairRows(PairVerdict(g), members, |members|);
      SetDecided(Aggregate(setLevel, pairs), setLevel, pairs)
  }

  method EvaluateSet(g: Generation, members: seq<ComponentSpec>) returns (result: SetResult)
    ensures result == DecideSet(g, members)
    ensures |members| < 2 <==> result == SetRefused(TooFewMembers)
    ensures |members| > 64 <==> result == SetRefused(TooManyMembers)
    ensures result.SetDecided? ==>
              && result.setLevel == EvaluateSetLevel(g, members)
              && result.pairs == PairRows(PairVerdict(g), members, |members|)
              && ListsPairs(PairVerdict(g), members, result.pairs)
              && result.outcome == Aggregate(result.setLevel, result.pairs)
  {
    if |members| < 2 { return SetRefused(TooFewMembers); }
    if |members| > MAX_SET_MEMBERS { return SetRefused(TooManyMembers); }
    var setLevel := EvaluateSetLevel(g, members);
    var pairs := AllPairs(PairVerdict(g), members);
    PairRowsListPairs(PairVerdict(g), members, |members|);
    var outcome := ComputeAggregate(setLevel, pairs);
    result := SetDecided(outcome, setLevel, pairs);
  }

  function PairVerdict(g: Generation): (ComponentSpec, ComponentSpec) -> Decision {
    (left, right) => EvaluatePair(g, left, right)
  }

  lemma {:induction false} ActiveOfMembers(rules: seq<Rule>, arity: RuleArity)
    ensures forall r :: r in ActiveOf(rules, arity) <==> r in rules && r.state == Active && r.arity == arity
  {
    if rules != [] {
      ActiveOfMembers(rules[..|rules| - 1], arity);
      assert rules == rules[..|rules| - 1] + [rules[|rules| - 1]];
    }
  }

  lemma {:induction false} MatchingMembers(rules: seq<Rule>, left: ComponentSpec, right: ComponentSpec)
    ensures forall r :: r in Matching(rules, left, right) <==> r in rules && RuleMatches(r, left, right)
  {
    if rules != [] {
      MatchingMembers(rules[..|rules| - 1], left, right);
      assert rules == rules[..|rules| - 1] + [rules[|rules| - 1]];
    }
  }

  /** The matched list: exactly the active pair rules that match, best rank first. */
  lemma MatchedRules(g: Generation, left: ComponentSpec, right: ComponentSpec)
    ensures forall r :: r in MatchPairRules(g, left, right) <==>
              r in g.rules && r.state == Active && r.arity == Pair && RuleMatches(r, left, right)
    ensures Sorted(PrecedenceHigher, MatchPairRules(g, left, right))
  {
    ActiveOfMembers(g.rules, Pair);
    MatchingMembers(ActiveOf(g.rules, Pair), left, right);
    PrecedenceHigherIsStrictTotal();
    SortMembers(PrecedenceHigher, Matching(ActiveOf(g.rules, Pair), left, right));
    SortSorts(PrecedenceHigher, Matching(ActiveOf(g.rules, Pair), left, right));
  }

  lemma {:induction false} MatchingSetMembers(rules: seq<Rule>, ms: seq<ComponentSpec>)
    ensures forall r :: r in MatchingSet(rules, ms) <==> r in rules && MatchesSomeMember(r, ms)
  {
    if rules != [] {
      MatchingSetMembers(rules[..|rules| - 1], ms);
      assert rules == rules[..|rules| - 1] + [rules[|rules| - 1]];
    }
  }

  /** Likewise for sets. */
  lemma MatchedSetRules(g: Generation, members: seq<ComponentSpec>)
    ensures forall r :: r in MatchSetRules(g, members) <==>
              r in g.rules && r.state == Active && r.arity == Set && MatchesSomeMember(r, members)
    ensures Sorted(PrecedenceHigher, MatchSetRules(g, members))
  {
    ActiveOfMembers(g.rules, Set);
    MatchingSetMembers(ActiveOf(g.rules, Set), members);
    PrecedenceHigherIsStrictTotal();
    SortMembers(PrecedenceHigher, MatchingSet(ActiveOf(g.rules, Set), members));
    SortSorts(PrecedenceHigher, MatchingSet(ActiveOf(g.rules, Set), members));
  }

  ghost predicate SomePair(f: (ComponentSpec, ComponentSpec) -> Decision, members: seq<ComponentSpec>, o: Outcome) {
    exists i, j :: 0 <= i < j < |members| && f(members[i], members[j]).outcome == o
  }

  lemma PairOutcomes(f: (ComponentSpec, ComponentSpec) -> Decision, members: seq<ComponentSpec>, pairs: seq<Decision>, o: Outcome)
    requires ListsPairs(f, members, pairs)
    ensures SomePair(f, members, o) <==> exists d :: d in pairs && d.outcome == o
  {
    if SomePair(f, members, o) {
      var i, j :| 0 <= i < j < |members| && f(members[i], members[j]).outcome == o;
      assert PairAt(f, members, i, j, f(members[i], members[j]));
    }
    if exists d :: d in pairs && d.outcome == o {
      var d :| d in pairs && d.outcome == o;
      var i, j :| PairAt(f, members, i, j, d);
    }
  }

  /** Compatible needs every pair and the set rules to say so; one Incompatible settles it. */
  lemma AggregateMeaning(f: (ComponentSpec, ComponentSpec) -> Decision, members: seq<ComponentSpec>, setLevel: Decision,
                         pairs: seq<Decision>)
    requires ListsPairs(f, members, pairs)
    ensures Aggregate(setLevel, pairs) == Compatible <==>
              setLevel.outcome == Compatible && !SomePair(f, members, Incompatible) && !SomePair(f, members, Unknown)
    ensures Aggregate(setLevel, pairs) == Incompatible <==>
              setLevel.outcome == Incompatible || SomePair(f, members, Incompatible)
  {
    PairOutcomes(f, members, pairs, Incompatible);
    PairOutcomes(f, members, pairs, Unknown);
  }

  // ----- What a status and a decision mean -----

  /** The two version constraints are the two halves of the order: one always holds, both only at a tie. */
  lemma VersionConstraintsSplitTheOrder(side: Side, v: SemVersion, w: SemVersion, spec: ComponentSpec, taxonomy: Taxonomy)
    ensures EvaluateConstraint(VersionAtLeast(side, v), spec, taxonomy) == Satisfied
            || EvaluateConstraint(VersionAtMost(side, v), spec, taxonomy) == Satisfied
    ensures EvaluateConstraint(VersionAtLeast(side, v), spec, taxonomy) == Satisfied
            && EvaluateConstraint(VersionAtMost(side, v), spec, taxonomy) == Satisfied
            <==> Precedence(spec.version, v) == Equal
    ensures EvaluateConstraint(VersionAtLeast(side, v), spec, taxonomy) == Satisfied && Precedence(w, v) == Less
            ==> EvaluateConstraint(VersionAtLeast(side, w), spec, taxonomy) == Satisfied
  {
    PrecedenceIsTotal();
    assert Composes(Precedence(w, v), Precedence(v, spec.version), Precedence(w, spec.version));
  }

  ghost predicate AllSatisfiedBy(r: Rule, sides: Sides, taxonomy: Taxonomy) {
    forall c :: c in r.constraints ==> ConstraintStatus(c, Resolve(sides, c.side), taxonomy) == Satisfied
  }

  /** No policy turns an unmet or open requirement into Compatible. */
  lemma CompatibleVerdict(r: Rule, sides: Sides, taxonomy: Taxonomy)
    ensures Apply(r, sides, taxonomy).resolved == Some(Compatible) <==> r.outcome == Compatible && AllSatisfiedBy(r, sides, taxonomy)
  {
    hide ConstraintStatus;
    var statuses := Statuses(r, sides, taxonomy);
    if r.outcome == Compatible && AllSatisfiedBy(r, sides, taxonomy) {
      forall i | 0 <= i < |statuses| ensures statuses[i] == Satisfied {
        assert r.constraints[i] in r.constraints;
      }
    }
    if Violated !in statuses && Indeterminate !in statuses {
      forall c | c in r.constraints ensures ConstraintStatus(c, Resolve(sides, c.side), taxonomy) == Satisfied {
        var i :| 0 <= i < |r.constraints| && r.constraints[i] == c;
        assert statuses[i] in statuses;
      }
    }
  }

  /** The rule of rank k decides Compatible: all above it declined, and it has every constraint satisfied. */
  ghost predicate CompatibleAtRank(matched: seq<Rule>, sides: Sides, taxonomy: Taxonomy, k: nat) {
    && k < |matched|
    && (forall i :: 0 <= i < k ==> Apply(matched[i], sides, taxonomy).resolved == None)
    && matched[k].outcome == Compatible
    && AllSatisfiedBy(matched[k], sides, taxonomy)
  }

  lemma FirstResolvedIs(verdicts: seq<Verdict>, k: nat)
    requires k < |verdicts| && verdicts[k].resolved.Some? && forall i :: 0 <= i < k ==> verdicts[i].resolved.None?
    ensures FirstResolved(verdicts) == k
  {
  }

  /**
   * A pair is found compatible exactly when the query is well formed and some matched rule, with
   * every rule above it declining, declares Compatible and has all its constraints satisfied.
   */
  lemma CompatibleExactlyWhen(g: Generation, left: ComponentSpec, right: ComponentSpec)
    ensures EvaluatePair(g, left, right).outcome == Compatible <==>
              RefusalOfPair(g, left, right).None?
              && exists k :: CompatibleAtRank(MatchPairRules(g, left, right), Sides([left], [right], [left, right]), g.taxonomy, k)
  {
    var matched, sides := MatchPairRules(g, left, right), Sides([left], [right], [left, right]);
    var verdicts := Verdicts(matched, PairSides(left, right), g.taxonomy);
    hide MatchPairRules, Apply, AllSatisfiedBy, RefusalOfPair;
    assert forall i :: 0 <= i < |matched| ==> verdicts[i] == Apply(matched[i], sides, g.taxonomy);
    var first := FirstResolved(verdicts);
    if first < |matched| { CompatibleVerdict(matched[first], sides, g.taxonomy); }
    if k: nat :| CompatibleAtRank(matched, sides, g.taxonomy, k) {
      CompatibleVerdict(matched[k], sides, g.taxonomy);
      FirstResolvedIs(verdicts, k);
    }
    if RefusalOfPair(g, left, right).None? && EvaluatePair(g, left, right).outcome == Compatible {
      assert CompatibleAtRank(matched, sides, g.taxonomy, first);
    }
  }
}
