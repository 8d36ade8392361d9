/** Static validation of a rule set and what it guarantees at run time (src/validation.cpp). */
module Validation {
  import opened Order
  import opened SemVer
  import opened Sorting
  import opened Rules
  import opened Coverage
  import opened Engine
  import Intervals
  import VersionRange

  // ----- The report -----

  datatype Severity = Error | Warning | Info

  datatype DiagnosticCode =
    | DuplicateRuleIdentity | ConflictingRules | UnreachableRule | ImplicationCycle | ReachabilityAnalysisSkipped
    | RuleCountLimit | StructuralFinding

  /** `rule` is the index of the rule the finding is about. */
  datatype Diagnostic = Diagnostic(severity: Severity, code: DiagnosticCode, rule: Option<nat>)

  function CountSeverity(ds: seq<Diagnostic>, s: Severity): nat {
    if ds == [] then 0
    else CountSeverity(ds[..|ds| - 1], s) + if ds[|ds| - 1].severity == s then 1 else 0
  }

  lemma {:induction false} NoErrorCounted(ds: seq<Diagnostic>, s: Severity)
    ensures CountSeverity(ds, s) == 0 <==> forall i :: 0 <= i < |ds| ==> ds[i].severity != s
  {
    if ds != [] {
      NoErrorCounted(ds[..|ds| - 1], s);
      assert forall i :: 0 <= i < |ds| - 1 ==> ds[..|ds| - 1][i] == ds[i];
    }
  }

  class ValidationReport {
    var diagnostics: seq<Diagnostic>
    var errorCount: nat
    var warningCount: nat
    var infoCount: nat
    var reachabilityExhaustive: bool

    /** The counters are the counts of the list. */
    ghost predicate Valid()
      reads this
    {
      && errorCount == CountSeverity(diagnostics, Error)
      && warningCount == CountSeverity(diagnostics, Warning)
      && infoCount == CountSeverity(diagnostics, Info)
    }

    constructor ()
      ensures Valid() && diagnostics == [] && reachabilityExhaustive
    {
      diagnostics, errorCount, warningCount, infoCount, reachabilityExhaustive := [], 0, 0, 0, true;
    }

    method Add(d: Diagnostic)
      requires Valid()
      modifies this
      ensures Valid()
      ensures diagnostics == old(diagnostics) + [d]
      ensures reachabilityExhaustive == old(reachabilityExhaustive)
    {
      match d.severity {
        case Error => errorCount := errorCount + 1;
        case Warning => warningCount := warningCount + 1;
        case Info => infoCount := infoCount + 1;
      }
      assert (diagnostics + [d])[..|diagnostics|] == diagnostics;
      diagnostics := diagnostics + [d];
    }

    method AddAll(ds: seq<Diagnostic>)
      requires Valid()
      modifies this
      ensures Valid()
      ensures diagnostics == old(diagnostics) + ds
      ensures reachabilityExhaustive == old(reachabilityExhaustive)
    {
      for i := 0 to |ds|
        invariant Valid()
        invariant diagnostics == old(diagnostics) + ds[..i]
        invariant reachabilityExhaustive == old(reachabilityExhaustive)
      {
        Add(ds[i]);
      }
    }

    /** Publishable exactly when no finding is an error. */
    method Publishable() returns (ok: bool)
      requires Valid()
      ensures ok <==> forall i :: 0 <= i < |diagnostics| ==> diagnostics[i].severity != Error
    {
      NoErrorCounted(diagnostics, Error);
      ok := errorCount == 0;
    }
  }

  datatype ValidationOptions = ValidationOptions(
    analyzeReachability: bool,
    maxReachabilityCandidates: nat,
    maxReachabilityCells: nat)

  const MAX_REACHABILITY_RULES: nat := 2048

  // ----- Regions -----

  datatype RuleBox = RuleBox(left: ComponentSelector, right: ComponentSelector)

  function RuleOrientations(r: Rule): seq<RuleBox> {
    if r.arity == Set then [RuleBox(r.left, WILDCARD)]
    else match r.symmetry
      case LeftToRight => [RuleBox(r.left, r.right)]
      case RightToLeft => [RuleBox(r.right, r.left)]
      case Symmetric => [RuleBox(r.left, r.right), RuleBox(r.right, r.left)]
  }

  predicate BoxOverlaps(a: RuleBox, b: RuleBox, pair: bool) {
    SelectorsOverlap(a.left, b.left) && (pair ==> SelectorsOverlap(a.right, b.right))
  }

  predicate RuleRegionsOverlap(a: Rule, b: Rule) {
    && a.arity == b.arity
    && exists p, q :: p in RuleOrientations(a) && q in RuleOrientations(b) && BoxOverlaps(p, q, a.arity == Pair)
  }

  method ComputeRuleRegionsOverlap(a: Rule, b: Rule) returns (overlap: bool)
    ensures overlap == RuleRegionsOverlap(a, b)
  {
    if a.arity != b.arity { return false; }
    var boxesA, boxesB := RuleOrientations(a), RuleOrientations(b);
    for i := 0 to |boxesA|
      invariant forall k, m :: 0 <= k < i && 0 <= m < |boxesB| ==> !BoxOverlaps(boxesA[k], boxesB[m], a.arity == Pair)
    {
      for j := 0 to |boxesB|
        invariant forall m :: 0 <= m < j ==> !BoxOverlaps(boxesA[i], boxesB[m], a.arity == Pair)
      {
        if BoxOverlaps(boxesA[i], boxesB[j], a.arity == Pair) {
          assert boxesA[i] in RuleOrientations(a) && boxesB[j] in RuleOrientations(b);
          return true;
        }
      }
    }
    return false;
  }

  predicate IdSubsumes(outer: Option<string>, inner: Option<string>) {
    outer.None? || (inner.Some? && outer.value == inner.value)
  }

  predicate SelectorSubsumesModuloVersion(outer: ComponentSelector, inner: ComponentSelector) {
    && IdSubsumes(outer.family, inner.family)
    && IdSubsumes(outer.kind, inner.kind)
    && IdSubsumes(outer.hardwareClass, inner.hardwareClass)
  }

  predicate BoxSubsumesModuloVersion(outer: RuleBox, inner: RuleBox, pair: bool) {
    && SelectorSubsumesModuloVersion(outer.left, inner.left)
    && (pair ==> SelectorSubsumesModuloVersion(outer.right, inner.right))
  }

  predicate RuleRegionSubsumesModuloVersion(outer: Rule, inner: Rule) {
    && outer.arity == inner.arity
    && forall q :: q in RuleOrientations(inner) ==>
         exists p :: p in RuleOrientations(outer) && BoxSubsumesModuloVersion(p, q, outer.arity == Pair)
  }

  ghost predicate BoxMatches(b: RuleBox, left: ComponentSpec, right: ComponentSpec) {
    SelectorMatches(b.left, left) && SelectorMatches(b.right, right)
  }

  /** A pair rule matches exactly when one of its oriented boxes holds the pair. */
  lemma MatchesByOrientation(r: Rule, left: ComponentSpec, right: ComponentSpec)
    requires r.arity == Pair
    ensures RuleMatches(r, left, right) <==> exists b :: b in RuleOrientations(r) && BoxMatches(b, left, right)
  {
    var forward, reverse := RuleBox(r.left, r.right), RuleBox(r.right, r.left);
    assert BoxMatches(forward, left, right) == ForwardMatch(r, left, right);
    assert BoxMatches(reverse, left, right) == ReverseMatch(r, left, right);
    match r.symmetry
    case LeftToRight => assert forward in RuleOrientations(r);
    case RightToLeft => assert reverse in RuleOrientations(r);
    case Symmetric => assert forward in RuleOrientations(r) && reverse in RuleOrientations(r);
  }

  // ----- Conflicts -----

  predicate Conflict(a: Rule, b: Rule) {
    RuleTier(a) == RuleTier(b) && a.outcome != b.outcome && RuleRegionsOverlap(a, b)
  }

  ghost predicate NoConflicts(rules: seq<Rule>) {
    forall i, j :: 0 <= i < j < |rules| ==> !Conflict(rules[i], rules[j])
  }

  method ComputeConflict(a: Rule, b: Rule) returns (conflict: bool)
    requires RuleTier(a) == RuleTier(b)
    ensures conflict == Conflict(a, b)
  {
    if a.outcome == b.outcome { return false; }
    conflict := ComputeRuleRegionsOverlap(a, b);
  }

  function ConflictAt(rules: seq<Rule>): (int, int) -> bool {
    (i, j) => 0 <= i < |rules| && 0 <= j < |rules| && Conflict(rules[i], rules[j])
  }

  function FindingIf(bad: bool, i: nat): seq<Diagnostic> {
    if bad then [Diagnostic(Error, ConflictingRules, Some(i))] else []
  }

  /** What the double loop over a tier's members gathers: one finding per bad pair. */
  function RowFindings(bad: (int, int) -> bool, members: seq<nat>, a: nat, b: nat): seq<Diagnostic>
    requires a < b <= |members|
  {
    if b == a + 1 then [] else RowFindings(bad, members, a, b - 1) + FindingIf(bad(members[a], members[b - 1]), members[a])
  }

  function TierFindings(bad: (int, int) -> bool, members: seq<nat>, n: nat): seq<Diagnostic>
    requires n <= |members|
  {
    if n == 0 then [] else TierFindings(bad, members, n - 1) + RowFindings(bad, members, n - 1, |members|)
  }

  ghost predicate OnlyConflicts(findings: seq<Diagnostic>) {
    forall d :: d in findings ==> d.severity == Error && d.code == ConflictingRules
  }

  ghost predicate QuietRow(bad: (int, int) -> bool, members: seq<nat>, a: nat)
    requires a < |members|
  {
    forall m :: a < m < |members| ==> !bad(members[a], members[m])
  }

  lemma {:induction false} RowSilent(bad: (int, int) -> bool, members: seq<nat>, a: nat, b: nat)
    requires a < b <= |members|
    ensures RowFindings(bad, members, a, b) == [] <==> forall m :: a < m < b ==> !bad(members[a], members[m])
    ensures OnlyConflicts(RowFindings(bad, members, a, b))
  {
    if b > a + 1 {
      RowSilent(bad, members, a, b - 1);
      hide OnlyConflicts;
      OneFinding(bad(members[a], members[b - 1]), members[a]);
      BothOnlyConflicts(RowFindings(bad, members, a, b - 1), FindingIf(bad(members[a], members[b - 1]), members[a]));
      hide FindingIf;
    }
  }

  lemma OneFinding(bad: bool, i: nat)
    ensures OnlyConflicts(FindingIf(bad, i)) && (FindingIf(bad, i) == [] <==> !bad)
  {
  }

  lemma RowIsQuiet(bad: (int, int) -> bool, members: seq<nat>, a: nat)
    requires a < |members|
    ensures RowFindings(bad, members, a, |members|) == [] <==> QuietRow(bad, members, a)
    ensures OnlyConflicts(RowFindings(bad, members, a, |members|))
  {
    RowSilent(bad, members, a, |members|);
    hide OnlyConflicts, RowFindings;
  }

  lemma BothOnlyConflicts(a: seq<Diagnostic>, b: seq<Diagnostic>)
    requires OnlyConflicts(a) && OnlyConflicts(b)
    ensures OnlyConflicts(a + b)
    ensures a + b == [] <==> a == [] && b == []
  {
  }

  lemma TierStep(bad: (int, int) -> bool, members: seq<nat>, n: nat)
    requires 0 < n <= |members|
    ensures TierFindings(bad, members, n) == TierFindings(bad, members, n - 1) + RowFindings(bad, members, n - 1, |members|)
  {
    hide RowFindings;
  }

  lemma NoTierFindings(bad: (int, int) -> bool, members: seq<nat>)
    ensures TierFindings(bad, members, 0) == []
  {
  }

  lemma {:induction false} RowsSilent(bad: (int, int) -> bool, members: seq<nat>, n: nat)
    requires n <= |members|
    ensures TierFindings(bad, members, n) == [] <==> forall k :: 0 <= k < n ==> QuietRow(bad, members, k)
    ensures OnlyConflicts(TierFindings(bad, members, n))
  {
    hide QuietRow, RowFindings, TierFindings;
    if n == 0 {
      NoTierFindings(bad, members);
    } else {
      hide OnlyConflicts;
      RowsSilent(bad, members, n - 1);
      RowIsQuiet(bad, members, n - 1);
      TierStep(bad, members, n);
      BothOnlyConflicts(TierFindings(bad, members, n - 1), RowFindings(bad, members, n - 1, |members|));
    }
  }

  lemma TierSilent(bad: (int, int) -> bool, members: seq<nat>)
    ensures TierFindings(bad, members, |members|) == [] <==> forall k, m :: 0 <= k < m < |members| ==> !bad(members[k], members[m])
    ensures OnlyConflicts(TierFindings(bad, members, |members|))
  {
    RowsSilent(bad, members, |members|);
    hide TierFindings, OnlyConflicts;
    if forall k, m :: 0 <= k < m < |members| ==> !bad(members[k], members[m]) {
      assert forall k :: 0 <= k < |members| ==> QuietRow(bad, members, k);
    }
    if forall k :: 0 <= k < |members| ==> QuietRow(bad, members, k) {
      forall k, m | 0 <= k < m < |members| ensures !bad(members[k], members[m]) {
        assert QuietRow(bad, members, k);
      }
    }
  }

  /** The positions below n that hold a key, in order. */
  function PositionsOf<K(==)>(keys: seq<K>, n: nat, key: K): seq<nat>
    requires n <= |keys|
  {
    if n == 0 then [] else PositionsOf(keys, n - 1, key) + if keys[n - 1] == key then [n - 1] else []
  }

  /** The tier map: each key that occurs, with its positions. */
  ghost predicate Grouped<K(!new)>(keys: seq<K>, n: nat, groups: map<K, seq<nat>>)
    requires n <= |keys|
  {
    forall key :: PositionsOf(keys, n, key) == if key in groups then groups[key] else []
  }

  lemma GroupOneMore<K(!new)>(keys: seq<K>, i: nat, groups: map<K, seq<nat>>)
    requires i < |keys| && Grouped(keys, i, groups)
    ensures var members := if keys[i] in groups then groups[keys[i]] else [];
      Grouped(keys, i + 1, groups[keys[i] := members + [i]])
  {
    var members := if keys[i] in groups then groups[keys[i]] else [];
    var grown := groups[keys[i] := members + [i]];
    forall key ensures PositionsOf(keys, i + 1, key) == if key in grown then grown[key] else [] {
      assert PositionsOf(keys, i, key) == if key in groups then groups[key] else [];
    }
  }

  lemma NothingGrouped<K(!new)>(keys: seq<K>)
    ensures Grouped(keys, 0, map[])
  {
  }

  method GroupByKey<K(==,!new)>(keys: seq<K>) returns (groups: map<K, seq<nat>>)
    ensures Grouped(keys, |keys|, groups)
  {
    groups := map[];
    NothingGrouped(keys);
    hide Grouped;
    for i := 0 to |keys|
      invariant Grouped(keys, i, groups)
    {
      GroupOneMore(keys, i, groups);
      var members := if keys[i] in groups then groups[keys[i]] else [];
      groups := groups[keys[i] := members + [i]];
    }
  }

  lemma {:induction false} PositionsAreExact<K>(keys: seq<K>, n: nat, key: K)
    requires n <= |keys|
    ensures forall k :: 0 <= k < |PositionsOf(keys, n, key)| ==> PositionsOf(keys, n, key)[k] < n && keys[PositionsOf(keys, n, key)[k]] == key
    ensures forall k, m :: 0 <= k < m < |PositionsOf(keys, n, key)| ==> PositionsOf(keys, n, key)[k] < PositionsOf(keys, n, key)[m]
    ensures forall i :: 0 <= i < n && keys[i] == key ==> i in PositionsOf(keys, n, key)
  {
    if n > 0 {
      PositionsAreExact(keys, n - 1, key);
    }
  }

  function TiersOf(rules: seq<Rule>): (ts: seq<Tier>)
    ensures |ts| == |rules|
  {
    seq(|rules|, i requires 0 <= i < |rules| => RuleTier(rules[i]))
  }

  /** All pairs within one tier. */
  method CheckTier(rules: seq<Rule>, members: seq<nat>, ghost t: Tier) returns (findings: seq<Diagnostic>)
    requires forall k :: 0 <= k < |members| ==> members[k] < |rules| && TiersOf(rules)[members[k]] == t
    ensures findings == TierFindings(ConflictAt(rules), members, |members|)
  {
    findings := [];
    for a := 0 to |members|
      invariant findings == TierFindings(ConflictAt(rules), members, a)
    {
      var row := CheckRow(rules, members, a, t);
      findings := findings + row;
    }
  }

  method CheckRow(rules: seq<Rule>, members: seq<nat>, a: nat, ghost t: Tier) returns (findings: seq<Diagnostic>)
    requires forall k :: 0 <= k < |members| ==> members[k] < |rules| && TiersOf(rules)[members[k]] == t
    requires a < |members|
    ensures findings == RowFindings(ConflictAt(rules), members, a, |members|)
  {
    findings := [];
    for b := a + 1 to |members|
      invariant findings == RowFindings(ConflictAt(rules), members, a, b)
    {
      assert RuleTier(rules[members[a]]) == TiersOf(rules)[members[a]];
      assert RuleTier(rules[members[b]]) == TiersOf(rules)[members[b]];
      var conflict := ComputeConflict(rules[members[a]], rules[members[b]]);
      findings := findings + FindingIf(conflict, members[a]);
    }
  }

  lemma ListedPairIsChecked(members: seq<nat>, bad: (int, int) -> bool, i: nat, j: nat)
    requires forall k, m :: 0 <= k < m < |members| ==> members[k] < members[m]
    requires i < j && i in members && j in members
    requires TierFindings(bad, members, |members|) == []
    ensures !bad(i, j)
  {
    TierSilent(bad, members);
    var k :| 0 <= k < |members| && members[k] == i;
    var m :| 0 <= m < |members| && members[m] == j;
    assert k < m;
  }

  lemma SameTierIsListed(keys: seq<Tier>, tiers: map<Tier, seq<nat>>, bad: (int, int) -> bool, i: nat, j: nat)
    requires Grouped(keys, |keys|, tiers)
    requires i < j < |keys| && keys[i] == keys[j] && AllTiersSilent(tiers, bad)
    ensures !bad(i, j)
  {
    var t := keys[i];
    PositionsAreExact(keys, |keys|, t);
    assert PositionsOf(keys, |keys|, t) == if t in tiers then tiers[t] else [];
    ListedPairIsChecked(tiers[t], bad, i, j);
  }

  ghost predicate AllTiersSilent(tiers: map<Tier, seq<nat>>, bad: (int, int) -> bool) {
    forall t :: t in tiers ==> TierFindings(bad, tiers[t], |tiers[t]|) == []
  }

  lemma TiersCoverAllPairs(keys: seq<Tier>, tiers: map<Tier, seq<nat>>, bad: (int, int) -> bool)
    requires Grouped(keys, |keys|, tiers)
    requires forall i, j :: 0 <= i < j < |keys| && bad(i, j) ==> keys[i] == keys[j]
    ensures AllTiersSilent(tiers, bad) <==> forall i, j :: 0 <= i < j < |keys| ==> !bad(i, j)
  {
    if AllTiersSilent(tiers, bad) {
      forall i, j | 0 <= i < j < |keys| ensures !bad(i, j) {
        if keys[i] == keys[j] {
          SameTierIsListed(keys, tiers, bad, i, j);
        }
      }
    }
    if forall i, j :: 0 <= i < j < |keys| ==> !bad(i, j) {
      forall t | t in tiers ensures TierFindings(bad, tiers[t], |tiers[t]|) == [] {
        PositionsAreExact(keys, |keys|, t);
        assert tiers[t] == PositionsOf(keys, |keys|, t);
        TierSilent(bad, tiers[t]);
      }
    }
  }

  lemma ConflictsShareTier(rules: seq<Rule>)
    ensures forall i, j :: 0 <= i < j < |rules| && ConflictAt(rules)(i, j) ==> TiersOf(rules)[i] == TiersOf(rules)[j]
    ensures NoConflicts(rules) <==> forall i, j :: 0 <= i < j < |rules| ==> !ConflictAt(rules)(i, j)
  {
    forall i, j | 0 <= i < j < |rules| ensures ConflictAt(rules)(i, j) == Conflict(rules[i], rules[j]) {
    }
  }

  /** The conflict pass is silent exactly when no two rules of a tier overlap and disagree. */
  method ConflictPass(rules: seq<Rule>) returns (findings: seq<Diagnostic>)
    ensures OnlyConflicts(findings)
    ensures findings == [] <==> NoConflicts(rules)
  {
    var tiers := GroupByKey(TiersOf(rules));
    findings := CheckTiers(rules, tiers);
    ConflictsShareTier(rules);
    TiersCoverAllPairs(TiersOf(rules), tiers, ConflictAt(rules));
  }

  method CheckTiers(rules: seq<Rule>, tiers: map<Tier, seq<nat>>) returns (findings: seq<Diagnostic>)
    requires Grouped(TiersOf(rules), |rules|, tiers)
    ensures OnlyConflicts(findings)
    ensures findings == [] <==> AllTiersSilent(tiers, ConflictAt(rules))
  {
    var remaining := tiers.Keys;
    findings := [];
    ghost var bad := ConflictAt(rules);
    while remaining != {}
      invariant remaining <= tiers.Keys
      invariant OnlyConflicts(findings)
      invariant findings == [] <==> forall t :: t in tiers && t !in remaining ==> TierFindings(bad, tiers[t], |tiers[t]|) == []
      decreases remaining
    {
      var t :| t in remaining;
      PositionsAreExact(TiersOf(rules), |rules|, t);
      assert tiers[t] == PositionsOf(TiersOf(rules), |rules|, t);
      var more := CheckTier(rules, tiers[t], t);
      TierSilent(bad, tiers[t]);
      BothOnlyConflicts(findings, more);
      findings := findings + more;
      remaining := remaining - {t};
    }
  }

  lemma RegionsMeet(a: Rule, b: Rule, left: ComponentSpec, right: ComponentSpec)
    requires a.arity == Pair && b.arity == Pair && RuleCanonical(a) && RuleCanonical(b)
    requires RuleMatches(a, left, right) && RuleMatches(b, left, right)
    ensures RuleRegionsOverlap(a, b)
  {
    MatchesByOrientation(a, left, right);
    MatchesByOrientation(b, left, right);
    var p :| p in RuleOrientations(a) && BoxMatches(p, left, right);
    var q :| q in RuleOrientations(b) && BoxMatches(q, left, right);
    CommonComponentOverlaps(p.left, q.left, left);
    CommonComponentOverlaps(p.right, q.right, right);
    assert BoxOverlaps(p, q, true);
  }

  ghost predicate AllCanonical(rules: seq<Rule>) {
    forall r :: r in rules ==> RuleCanonical(r)
  }

  /** Tier agreement: in a rule set without conflicts, rules of one tier that match a pair agree. */
  lemma TierAgreement(rules: seq<Rule>, a: Rule, b: Rule, left: ComponentSpec, right: ComponentSpec)
    requires NoConflicts(rules) && AllCanonical(rules)
    requires a in rules && b in rules && a.arity == Pair && b.arity == Pair
    requires RuleTier(a) == RuleTier(b)
    requires RuleMatches(a, left, right) && RuleMatches(b, left, right)
    ensures a.outcome == b.outcome
  {
    RegionsMeet(a, b, left, right);
    RegionsMeet(b, a, left, right);
    var i :| 0 <= i < |rules| && rules[i] == a;
    var j :| 0 <= j < |rules| && rules[j] == b;
    if i < j { assert !Conflict(rules[i], rules[j]); }
    if j < i { assert !Conflict(rules[j], rules[i]); }
  }

  // ----- Renaming -----

  function Rename(f: string -> string, r: Rule): Rule {
    r.(id := f(r.id))
  }

  /** One generation is another with its rule ids changed, in whatever order that puts them. */
  ghost predicate Renamed(f: string -> string, g: Generation, h: Generation) {
    && h.taxonomy == g.taxonomy
    && (forall r :: r in g.rules ==> Rename(f, r) in h.rules)
    && (forall s :: s in h.rules ==> exists r :: r in g.rules && s == Rename(f, r))
  }

  ghost predicate AllSatisfied(g: Generation, left: ComponentSpec, right: ComponentSpec) {
    forall r :: r in MatchPairRules(g, left, right) ==>
      Apply(r, Sides([left], [right], [left, right]), g.taxonomy).status == RuleSatisfied
  }

  lemma TopRuleDecides(g: Generation, left: ComponentSpec, right: ComponentSpec)
    requires RefusalOfPair(g, left, right).None?
    requires MatchPairRules(g, left, right) != [] && AllSatisfied(g, left, right)
    ensures EvaluatePair(g, left, right).outcome == MatchPairRules(g, left, right)[0].outcome
    ensures EvaluatePair(g, left, right).decider == Some(MatchPairRules(g, left, right)[0])
  {
    var matched := MatchPairRules(g, left, right);
    assert matched[0] in matched;
    var verdicts := Verdicts(matched, PairSides(left, right), g.taxonomy);
    assert verdicts[0] == Apply(matched[0], Sides([left], [right], [left, right]), g.taxonomy);
    assert FirstResolved(verdicts) == 0;
  }

  /** The best matched rule has the best tier. */
  lemma TopTier(g: Generation, left: ComponentSpec, right: ComponentSpec, r: Rule)
    requires r in MatchPairRules(g, left, right)
    ensures !TierBelow(RuleTier(MatchPairRules(g, left, right)[0]), RuleTier(r))
  {
    var matched := MatchPairRules(g, left, right);
    MatchedRules(g, left, right);
    PrecedenceHigherIsStrictTotal();
    var k :| 0 <= k < |matched| && matched[k] == r;
    if k > 0 { assert !PrecedenceHigher(matched[k], matched[0]); }
  }

  lemma RenamedActive(f: string -> string, g: Generation, h: Generation)
    requires Renamed(f, g, h)
    ensures ActiveOf(g.rules, Pair) == [] <==> ActiveOf(h.rules, Pair) == []
  {
    var ag, ah := ActiveOf(g.rules, Pair), ActiveOf(h.rules, Pair);
    ActiveOfMembers(g.rules, Pair);
    ActiveOfMembers(h.rules, Pair);
    if ag != [] {
      assert ag[0] in ag;
      assert Rename(f, ag[0]) in ah;
    }
    if ah != [] {
      assert ah[0] in ah;
      var r :| r in g.rules && ah[0] == Rename(f, r);
      assert r in ag;
    }
  }

  lemma RenamedMatch(f: string -> string, g: Generation, h: Generation, left: ComponentSpec, right: ComponentSpec, r: Rule)
    requires Renamed(f, g, h) && r in MatchPairRules(g, left, right)
    ensures Rename(f, r) in MatchPairRules(h, left, right)
  {
    MatchedRules(g, left, right);
    MatchedRules(h, left, right);
    assert Rename(f, r) in h.rules;
    assert RuleMatches(Rename(f, r), left, right) == RuleMatches(r, left, right);
  }

  lemma RenamedMatchBack(f: string -> string, g: Generation, h: Generation, left: ComponentSpec, right: ComponentSpec, s: Rule)
    returns (r: Rule)
    requires Renamed(f, g, h) && s in MatchPairRules(h, left, right)
    ensures r in MatchPairRules(g, left, right) && s == Rename(f, r)
  {
    MatchedRules(g, left, right);
    MatchedRules(h, left, right);
    r :| r in g.rules && s == Rename(f, r);
    assert RuleMatches(s, left, right) == RuleMatches(r, left, right);
  }

  lemma RenamingKeepsSatisfied(f: string -> string, g: Generation, h: Generation, left: ComponentSpec, right: ComponentSpec)
    requires Renamed(f, g, h) && AllSatisfied(g, left, right)
    ensures AllSatisfied(h, left, right)
  {
    var sides := Sides([left], [right], [left, right]);
    forall s | s in MatchPairRules(h, left, right) ensures Apply(s, sides, h.taxonomy).status == RuleSatisfied {
      var r := RenamedMatchBack(f, g, h, left, right, s);
      assert Statuses(r, sides, g.taxonomy) == Statuses(s, sides, h.taxonomy);
    }
  }

  /** The best rules of the two generations come from one tier. */
  lemma TopRulesShareTier(f: string -> string, g: Generation, h: Generation, left: ComponentSpec, right: ComponentSpec)
    returns (r: Rule)
    requires Renamed(f, g, h)
    requires MatchPairRules(g, left, right) != []
    ensures MatchPairRules(h, left, right) != []
    ensures r in MatchPairRules(g, left, right) && MatchPairRules(h, left, right)[0] == Rename(f, r)
    ensures RuleTier(r) == RuleTier(MatchPairRules(g, left, right)[0])
  {
    var mg, mh := MatchPairRules(g, left, right), MatchPairRules(h, left, right);
    assert mg[0] in mg;
    RenamedMatch(f, g, h, left, right, mg[0]);
    assert mh[0] in mh;
    r := RenamedMatchBack(f, g, h, left, right, mh[0]);
    TopTier(h, left, right, Rename(f, mg[0]));
    TopTier(g, left, right, r);
    assert RuleTier(mh[0]) == RuleTier(r) && RuleTier(Rename(f, mg[0])) == RuleTier(mg[0]);
  }

  lemma NothingMatchesRenamed(f: string -> string, g: Generation, h: Generation, left: ComponentSpec, right: ComponentSpec)
    requires Renamed(f, g, h) && MatchPairRules(g, left, right) == []
    ensures MatchPairRules(h, left, right) == []
  {
    var mh := MatchPairRules(h, left, right);
    if mh != [] {
      assert mh[0] in mh;
      var r := RenamedMatchBack(f, g, h, left, right, mh[0]);
    }
  }

  /**
   * Rule ids never decide a question: when all matched rules are satisfied, the outcome of a
   * conflict-free generation is the same under every renaming of its rules.
   */
  lemma OutcomeIgnoresRuleIds(f: string -> string, g: Generation, h: Generation, left: ComponentSpec, right: ComponentSpec)
    requires NoConflicts(g.rules) && AllCanonical(g.rules)
    requires Renamed(f, g, h) && AllSatisfied(g, left, right)
    ensures EvaluatePair(h, left, right).outcome == EvaluatePair(g, left, right).outcome
  {
    RenamedActive(f, g, h);
    assert RefusalOfPair(g, left, right) == RefusalOfPair(h, left, right);
    var mg := MatchPairRules(g, left, right);
    if RefusalOfPair(g, left, right).None? {
      if mg == [] {
        NothingMatchesRenamed(f, g, h, left, right);
      } else {
        var r := TopRulesShareTier(f, g, h, left, right);
        RenamingKeepsSatisfied(f, g, h, left, right);
        TopRuleDecides(g, left, right);
        TopRuleDecides(h, left, right);
        MatchedRules(g, left, right);
        assert mg[0] in mg;
        TierAgreement(g.rules, mg[0], r, left, right);
      }
    }
  }

  // ----- Reachability -----

  /** A rule that, once matched, always reaches a verdict. */
  predicate RuleAlwaysApplies(r: Rule) {
    r.onUnmet != UnmetSkip && r.onIndeterminate != OpenSkip
  }

  lemma AlwaysAppliesResolves(r: Rule, sides: Sides, taxonomy: Taxonomy)
    requires RuleAlwaysApplies(r)
    ensures Apply(r, sides, taxonomy).resolved.Some?
  {
  }

  /** Active, of a higher tier, and sure to reach a verdict once matched. */
  predicate Outranks(candidate: Rule, target: Rule) {
    && candidate.state == Active && candidate.arity == target.arity
    && RuleAlwaysApplies(candidate)
    && TierBelow(RuleTier(target), RuleTier(candidate))
  }

  predicate Shadows(candidate: Rule, target: Rule) {
    Outranks(candidate, target) && RuleRegionSubsumesModuloVersion(candidate, target)
  }

  function ShadowersUpTo(rules: seq<Rule>, index: nat, n: nat): seq<Rule>
    requires index < |rules| && n <= |rules|
  {
    if n == 0 then []
    else ShadowersUpTo(rules, index, n - 1) + if n - 1 != index && Shadows(rules[n - 1], rules[index]) then [rules[n - 1]] else []
  }

  function CandidatesOfRule(boxes: seq<RuleBox>, targetBox: RuleBox, pair: bool): seq<Plane> {
    if boxes == [] then []
    else CandidatesOfRule(boxes[..|boxes| - 1], targetBox, pair)
         + if BoxSubsumesModuloVersion(boxes[|boxes| - 1], targetBox, pair) then [PlaneOf(boxes[|boxes| - 1])] else []
  }

  function PlaneOf(b: RuleBox): Plane {
    Plane(b.left.version, b.right.version)
  }

  /** The boxes of the shadowers that lie around one oriented box of the target. */
  function Candidates(shadowers: seq<Rule>, targetBox: RuleBox, pair: bool): seq<Plane> {
    if shadowers == [] then []
    else Candidates(shadowers[..|shadowers| - 1], targetBox, pair)
         + CandidatesOfRule(RuleOrientations(shadowers[|shadowers| - 1]), targetBox, pair)
  }

  function BoxCoverage(target: Rule, shadowers: seq<Rule>, box: RuleBox, maxCells: nat): CoverageResult {
    VersionPlaneCovered(PlaneOf(box), Candidates(shadowers, box, target.arity == Pair), maxCells)
  }

  /** Box by box until one is not covered; that one's exhaustiveness is reported. */
  function RegionCovered(target: Rule, shadowers: seq<Rule>, boxes: seq<RuleBox>, maxCells: nat): CoverageResult {
    if boxes == [] then CoverageResult(true, true)
    else
      var first := BoxCoverage(target, shadowers, boxes[0], maxCells);
      if !first.covered then first else RegionCovered(target, shadowers, boxes[1..], maxCells)
  }

  datatype Reach = NotShadowed | OverBudget | Open(exhaustive: bool) | Dead

  function ReachOf(rules: seq<Rule>, index: nat, options: ValidationOptions): Reach
    requires index < |rules|
  {
    var target := rules[index];
    var shadowers := ShadowersUpTo(rules, index, |rules|);
    if target.state != Active || shadowers == [] || options.maxReachabilityCandidates == 0 then NotShadowed
    else if |shadowers| > options.maxReachabilityCandidates then OverBudget
    else
      var r := RegionCovered(target, shadowers, RuleOrientations(target), options.maxReachabilityCells);
      if r.covered then Dead else Open(r.exhaustive)
  }

  lemma {:induction false} ShadowersGrow(rules: seq<Rule>, index: nat, n: nat, m: nat)
    requires index < |rules| && n <= m <= |rules|
    ensures |ShadowersUpTo(rules, index, n)| <= |ShadowersUpTo(rules, index, m)|
  {
    if n < m { ShadowersGrow(rules, index, n, m - 1); }
  }

  /** The scan for shadowers, which stops when one more would exceed the budget. */
  method CollectShadowers(rules: seq<Rule>, index: nat, budget: nat) returns (shadowers: seq<Rule>, exceeded: bool)
    requires index < |rules|
    ensures exceeded == (|ShadowersUpTo(rules, index, |rules|)| > budget)
    ensures !exceeded ==> shadowers == ShadowersUpTo(rules, index, |rules|)
    ensures exceeded ==> |shadowers| == budget
  {
    shadowers, exceeded := [], false;
    var other := 0;
    while other < |rules|
      invariant other <= |rules|
      invariant !exceeded
      invariant shadowers == ShadowersUpTo(rules, index, other)
      invariant |shadowers| <= budget
    {
      if other != index && Shadows(rules[other], rules[index]) {
        if |shadowers| >= budget {
          ShadowersGrow(rules, index, other + 1, |rules|);
          exceeded := true;
          break;
        }
        shadowers := shadowers + [rules[other]];
      }
      other := other + 1;
    }
  }

  method CoverRegion(target: Rule, shadowers: seq<Rule>, maxCells: nat) returns (r: CoverageResult)
    ensures r == RegionCovered(target, shadowers, RuleOrientations(target), maxCells)
  {
    var boxes := RuleOrientations(target);
    var i := 0;
    while i < |boxes|
      invariant i <= |boxes|
      invariant RegionCovered(target, shadowers, boxes, maxCells) == RegionCovered(target, shadowers, boxes[i..], maxCells)
    {
      assert boxes[i..][1..] == boxes[i + 1..];
      var coverage := ComputeVersionPlaneCovered(PlaneOf(boxes[i]), Candidates(shadowers, boxes[i], target.arity == Pair), maxCells);
      if !coverage.covered {
        return coverage;
      }
      i := i + 1;
    }
    return CoverageResult(true, true);
  }

  method AnalyzeRule(rules: seq<Rule>, index: nat, options: ValidationOptions) returns (reach: Reach)
    requires index < |rules|
    ensures reach == ReachOf(rules, index, options)
  {
    if rules[index].state != Active { return NotShadowed; }
    var shadowers, exceeded := CollectShadowers(rules, index, options.maxReachabilityCandidates);
    if shadowers == [] { return NotShadowed; }
    if exceeded { return OverBudget; }
    var coverage := CoverRegion(rules[index], shadowers, options.maxReachabilityCells);
    reach := if coverage.covered then Dead else Open(coverage.exhaustive);
  }

  function Reaches(rules: seq<Rule>, options: ValidationOptions): (rs: seq<Reach>)
    ensures |rs| == |rules|
  {
    seq(|rules|, i requires 0 <= i < |rules| => ReachOf(rules, i, options))
  }

  function ReachFinding(reach: Reach, index: nat): seq<Diagnostic> {
    match reach
    case OverBudget => [Diagnostic(Info, ReachabilityAnalysisSkipped, Some(index))]
    case Dead => [Diagnostic(Error, UnreachableRule, Some(index))]
    case _ => []
  }

  function ReachFindings(reaches: seq<Reach>): seq<Diagnostic> {
    if reaches == [] then []
    else ReachFindings(reaches[..|reaches| - 1]) + ReachFinding(reaches[|reaches| - 1], |reaches| - 1)
  }

  predicate GaveUp(reach: Reach) {
    reach == OverBudget || reach == Open(false)
  }

  /** One finding per dead rule, and whether every rule was analysed in full. */
  method ReachabilityPass(rules: seq<Rule>, options: ValidationOptions) returns (findings: seq<Diagnostic>, exhaustive: bool)
    ensures findings ==
              if !options.analyzeReachability then []
              else if |rules| > 2048 then [Diagnostic(Info, ReachabilityAnalysisSkipped, None)]
              else ReachFindings(Reaches(rules, options))
    ensures exhaustive ==
              (options.analyzeReachability ==>
                 |rules| <= 2048 && forall r :: r in Reaches(rules, options) ==> !GaveUp(r))
  {
    findings, exhaustive := [], true;
    if !options.analyzeReachability || rules == [] { return; }
    if |rules| > MAX_REACHABILITY_RULES {
      return [Diagnostic(Info, ReachabilityAnalysisSkipped, None)], false;
    }
    var reaches := AnalyzeEach(rules, options);
    findings, exhaustive := Gather(reaches);
  }

  method AnalyzeEach(rules: seq<Rule>, options: ValidationOptions) returns (reaches: seq<Reach>)
    ensures reaches == Reaches(rules, options)
  {
    hide ReachOf;
    reaches := [];
    for index := 0 to |rules|
      invariant |reaches| == index
      invariant forall i :: 0 <= i < index ==> reaches[i] == Reaches(rules, options)[i]
    {
      var reach := AnalyzeRule(rules, index, options);
      reaches := reaches + [reach];
    }
  }

  method Gather(reaches: seq<Reach>) returns (findings: seq<Diagnostic>, exhaustive: bool)
    ensures findings == ReachFindings(reaches)
    ensures exhaustive <==> forall r :: r in reaches ==> !GaveUp(r)
  {
    findings, exhaustive := [], true;
    for index := 0 to |reaches|
      invariant findings == ReachFindings(reaches[..index])
      invariant exhaustive <==> forall r :: r in reaches[..index] ==> !GaveUp(r)
    {
      assert reaches[..index + 1] == reaches[..index] + [reaches[index]];
      if GaveUp(reaches[index]) { exhaustive := false; }
      findings := findings + ReachFinding(reaches[index], index);
    }
    assert reaches[..|reaches|] == reaches;
  }
}
