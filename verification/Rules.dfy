/** Components, selectors, constraints and rules (src/component.cpp, src/taxonomy.cpp, src/rule.cpp). */
module Rules {
  import opened Order
  import opened SemVer
  import opened Sorting
  import VersionRange
  import Intervals

  datatype Option<+T> = None | Some(value: T)

  // ----- Capability values -----

  datatype CapabilityValue = Flag(flag: bool) | Integer(integer: int) | Text(text: string) | Version(version: SemVersion)

  datatype CapabilityType = FlagType | IntegerType | TextType | VersionType

  datatype ComparisonOp = Eq | Ne | Lt | Le | Gt | Ge

  function TypeOf(v: CapabilityValue): CapabilityType {
    match v
    case Flag(_) => FlagType
    case Integer(_) => IntegerType
    case Text(_) => TextType
    case Version(_) => VersionType
  }

  predicate OrderingSatisfies(op: ComparisonOp, o: Ordering) {
    match op
    case Eq => o == Equal
    case Ne => o != Equal
    case Lt => o == Less
    case Le => o != Greater
    case Gt => o == Greater
    case Ge => o != Less
  }

  function CompareInt(a: int, b: int): Ordering {
    if a < b then Less else if a == b then Equal else Greater
  }

  /** Values of different types never compare; flags only for equality. */
  predicate ApplyComparison(op: ComparisonOp, lhs: CapabilityValue, rhs: CapabilityValue) {
    match (lhs, rhs)
    case (Flag(a), Flag(b)) => (op == Eq && a == b) || (op == Ne && a != b)
    case (Integer(a), Integer(b)) => OrderingSatisfies(op, CompareInt(a, b))
    case (Text(a), Text(b)) => OrderingSatisfies(op, CompareText(a, b))
    case (Version(a), Version(b)) => OrderingSatisfies(op, Precedence(a, b))
    case _ => false
  }

  /** What a registry declares: families, kinds with their family, subjects, capability types. */
  datatype Taxonomy = Taxonomy(
    families: set<string>,
    kinds: map<string, string>,
    protocols: set<string>,
    schemas: set<string>,
    capabilities: map<string, CapabilityType>)

  // ----- Components -----

  /** Each closure says that everything not listed is known to be absent. */
  datatype Knowledge = Knowledge(capabilitiesClosed: bool, protocolsClosed: bool, schemasClosed: bool)

  datatype ComponentSpec = ComponentSpec(
    family: string,
    kind: string,
    version: SemVersion,
    hardwareClass: Option<string>,
    knowledge: Knowledge,
    capabilities: map<string, CapabilityValue>,
    protocols: map<string, seq<SemVersion>>,
    schemas: map<string, seq<SemVersion>>,
    features: set<string>)

  datatype ComponentSelector = ComponentSelector(
    family: Option<string>,
    kind: Option<string>,
    version: Option<VersionRange.Range>,
    hardwareClass: Option<string>)

  const WILDCARD: ComponentSelector := ComponentSelector(None, None, None, None)

  predicate IdMatches(wanted: Option<string>, actual: string) {
    wanted.Some? ==> wanted.value == actual
  }

  predicate VersionMatches(wanted: Option<VersionRange.Range>, actual: SemVersion) {
    wanted.Some? ==> VersionRange.Contains(wanted.value, actual)
  }

  predicate SelectorMatches(s: ComponentSelector, c: ComponentSpec) {
    && IdMatches(s.family, c.family)
    && IdMatches(s.kind, c.kind)
    && (s.hardwareClass.Some? ==> c.hardwareClass.Some? && s.hardwareClass.value == c.hardwareClass.value)
    && VersionMatches(s.version, c.version)
  }

  predicate IdOverlaps(x: Option<string>, y: Option<string>) {
    x.None? || y.None? || x.value == y.value
  }

  predicate SelectorsOverlap(a: ComponentSelector, b: ComponentSelector) {
    && IdOverlaps(a.family, b.family)
    && IdOverlaps(a.kind, b.kind)
    && IdOverlaps(a.hardwareClass, b.hardwareClass)
    && (a.version.Some? && b.version.Some? ==> Intervals.Overlaps(Precedence, a.version.value, b.version.value))
  }

  ghost predicate SelectorCanonical(s: ComponentSelector) {
    s.version.Some? ==> VersionRange.CanonicalRange(s.version.value)
  }

  /** Two selectors that accept one component are never taken to be disjoint. */
  lemma CommonComponentOverlaps(a: ComponentSelector, b: ComponentSelector, c: ComponentSpec)
    requires SelectorCanonical(a) && SelectorCanonical(b)
    requires SelectorMatches(a, c) && SelectorMatches(b, c)
    ensures SelectorsOverlap(a, b)
  {
    if a.version.Some? && b.version.Some? && !Intervals.Overlaps(Precedence, a.version.value, b.version.value) {
      VersionRange.DisjointRanges(a.version.value, b.version.value, c.version);
    }
  }

  // ----- Constraints -----

  datatype Side = Left | Right | AllMembers

  datatype Constraint =
    | RequiresCapability(side: Side, capability: string)
    | RequiresCapabilityValue(side: Side, capability: string, op: ComparisonOp, literal: CapabilityValue)
    | ForbidsCapability(side: Side, capability: string)
    | RequiresProtocol(side: Side, protocol: string, range: VersionRange.Range)
    | ForbidsProtocol(side: Side, protocol: string)
    | RequiresSchema(side: Side, schema: string, range: VersionRange.Range)
    | ForbidsSchema(side: Side, schema: string)
    | RequiresHardwareClass(side: Side, hardwareClass: string)
    | ForbidsHardwareClass(side: Side, hardwareClass: string)
    | VersionAtLeast(side: Side, version: SemVersion)
    | VersionAtMost(side: Side, version: SemVersion)
    | RequiresFeature(side: Side, feature: string)
    | ForbidsFeature(side: Side, feature: string)

  datatype Implication = Implication(side: Side, ifPresent: string, thenRequired: string)

  // ----- Rules -----

  datatype RuleOrigin = Standard | Vendor | Operator | LocalOverride
  datatype RuleSymmetry = Symmetric | LeftToRight | RightToLeft
  datatype RuleArity = Pair | Set
  datatype Outcome = Compatible | Incompatible | Unknown
  datatype OnUnmet = UnmetIncompatible | UnmetUnknown | UnmetSkip
  datatype OnIndeterminate = OpenUnknown | OpenIncompatible | OpenSkip
  datatype NegotiationPolicy = HighestCommon | LowestCommon | ExactRequired
  datatype LifecycleState = Active | Deprecated | Retired

  datatype Rule = Rule(
    id: string,
    revision: nat,
    priority: int,
    origin: RuleOrigin,
    symmetry: RuleSymmetry,
    arity: RuleArity,
    outcome: Outcome,
    left: ComponentSelector,
    right: ComponentSelector,
    constraints: seq<Constraint>,
    implications: seq<Implication>,
    negotiation: NegotiationPolicy,
    onUnmet: OnUnmet,
    onIndeterminate: OnIndeterminate,
    state: LifecycleState)

  ghost predicate RuleCanonical(r: Rule) {
    SelectorCanonical(r.left) && SelectorCanonical(r.right)
  }

  predicate ForwardMatch(r: Rule, left: ComponentSpec, right: ComponentSpec) {
    SelectorMatches(r.left, left) && SelectorMatches(r.right, right)
  }

  predicate ReverseMatch(r: Rule, left: ComponentSpec, right: ComponentSpec) {
    SelectorMatches(r.left, right) && SelectorMatches(r.right, left)
  }

  predicate RuleMatches(r: Rule, left: ComponentSpec, right: ComponentSpec) {
    match r.symmetry
    case LeftToRight => ForwardMatch(r, left, right)
    case RightToLeft => ReverseMatch(r, left, right)
    case Symmetric => ForwardMatch(r, left, right) || ReverseMatch(r, left, right)
  }

  /** The match and whether it holds only with the selectors swapped. */
  method ComputeRuleMatches(r: Rule, left: ComponentSpec, right: ComponentSpec) returns (matches: bool, mirrored: bool)
    ensures matches == RuleMatches(r, left, right)
    ensures mirrored == (matches && (r.symmetry == RightToLeft || !ForwardMatch(r, left, right)))
  {
    mirrored := false;
    var forward := SelectorMatches(r.left, left) && SelectorMatches(r.right, right);
    if r.symmetry == LeftToRight { return forward, false; }
    var reverse := SelectorMatches(r.left, right) && SelectorMatches(r.right, left);
    if r.symmetry == RightToLeft {
      if reverse { mirrored := true; }
      return reverse, mirrored;
    }
    if forward { return true, false; }
    if reverse { mirrored := true; }
    return reverse, mirrored;
  }

  // ----- Precedence of rules -----

  function SelectorScore(s: ComponentSelector): nat {
    (if s.family.Some? then 8 else 0)
    + (if s.kind.Some? then 8 else 0)
    + (if s.hardwareClass.Some? then 8 else 0)
    + (if s.version.None? then 0
       else if VersionRange.IsExact(s.version.value) then 24
       else if !VersionRange.IsAny(s.version.value) then 12
       else 0)
  }

  function AtMost16(n: nat): nat {
    if n < 16 then n else 16
  }

  function Specificity(r: Rule): nat {
    SelectorScore(r.left) + (if r.arity == Pair then SelectorScore(r.right) else 0)
    + AtMost16(|r.constraints|) * 2 + AtMost16(|r.implications|)
  }

  /** The source's running score over one or two selectors. */
  method ComputeSpecificity(r: Rule) returns (score: nat)
    ensures score == Specificity(r)
  {
    score := 0;
    var selectors := [r.left, r.right];
    var count := if r.arity == Pair then 2 else 1;
    for i := 0 to count
      invariant i == 0 ==> score == 0
      invariant i == 1 ==> score == SelectorScore(r.left)
      invariant i == 2 ==> score == SelectorScore(r.left) + SelectorScore(r.right)
    {
      var s := selectors[i];
      if s.family.Some? { score := score + 8; }
      if s.kind.Some? { score := score + 8; }
      if s.hardwareClass.Some? { score := score + 8; }
      if s.version.Some? {
        if VersionRange.IsExact(s.version.value) {
          score := score + 24;
        } else if !VersionRange.IsAny(s.version.value) {
          score := score + 12;
        }
      }
    }
    score := score + AtMost16(|r.constraints|) * 2;
    score := score + AtMost16(|r.implications|);
  }

  function OriginRank(o: RuleOrigin): nat {
    match o
    case Standard => 0
    case Vendor => 10
    case Operator => 20
    case LocalOverride => 30
  }

  datatype Tier = Tier(priority: int, specificity: nat, originRank: nat)

  function RuleTier(r: Rule): Tier {
    Tier(r.priority, Specificity(r), OriginRank(r.origin))
  }

  predicate TierBelow(a: Tier, b: Tier) {
    if a.priority != b.priority then a.priority < b.priority
    else if a.specificity != b.specificity then a.specificity < b.specificity
    else a.originRank < b.originRank
  }

  /** Higher tier first; within a tier by id, then revision. */
  predicate PrecedenceHigher(a: Rule, b: Rule) {
    if RuleTier(a) != RuleTier(b) then TierBelow(RuleTier(b), RuleTier(a))
    else if a.id != b.id then CompareText(a.id, b.id) == Less
    else a.revision < b.revision
  }

  /** Document order: by id, then revision. */
  predicate DocumentBefore(a: Rule, b: Rule) {
    if a.id != b.id then CompareText(a.id, b.id) == Less else a.revision < b.revision
  }

  lemma DocumentBeforeIsWeak()
    ensures StrictWeakOrder(DocumentBefore)
  {
    CompareTextIsTotal();
    forall a: Rule, b: Rule, c: Rule | DocumentBefore(a, b)
      ensures DocumentBefore(a, c) || DocumentBefore(c, b)
    {
      assert Composes(CompareText(a.id, c.id), CompareText(c.id, b.id), CompareText(a.id, b.id));
    }
  }

  /** The ranking is a strict total order on rules with distinct references. */
  lemma PrecedenceHigherIsStrictTotal()
    ensures StrictWeakOrder(PrecedenceHigher)
    ensures forall a, b :: !PrecedenceHigher(a, b) && !PrecedenceHigher(b, a) ==> a.id == b.id && a.revision == b.revision
  {
    DocumentBeforeIsWeak();
    CompareTextIsTotal();
    forall a: Rule, b: Rule, c: Rule | PrecedenceHigher(a, b)
      ensures PrecedenceHigher(a, c) || PrecedenceHigher(c, b)
    {
      assert DocumentBefore(a, b) ==> DocumentBefore(a, c) || DocumentBefore(c, b);
    }
  }
}
