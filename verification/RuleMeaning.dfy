/** What comparisons, constraints, selectors and the ranking of rules mean (src/component.cpp, src/rule.cpp, src/registry.cpp). */
module RuleMeaning {
  import opened Order
  import opened SemVer
  import opened OrderMeaning
  import opened Rules
  import opened Engine
  import opened Knowledge
  import VersionRange
  import Intervals

  // ----- Comparisons of capability values -----

  ghost predicate Alike(x: CapabilityValue, y: CapabilityValue) {
    if x.Version? && y.Version? then x.version.(build := "") == y.version.(build := "") else x == y
  }

  /** Flags are unordered. */
  ghost predicate Below(x: CapabilityValue, y: CapabilityValue) {
    match x
    case Flag(_) => false
    case Integer(n) => y.Integer? && n < y.integer
    case Text(s) => y.Text? && TextBelow(s, y.text)
    case Version(v) => y.Version? && VersionBelow(v, y.version)
  }

  ghost predicate Compares(op: ComparisonOp, x: CapabilityValue, y: CapabilityValue) {
    && TypeOf(x) == TypeOf(y) && (x.Flag? ==> op == Eq || op == Ne)
    && match op
       case Eq => Alike(x, y)
       case Ne => !Alike(x, y)
       case Lt => Below(x, y)
       case Le => !Below(y, x)
       case Gt => Below(y, x)
       case Ge => !Below(x, y)
  }

  lemma ComparisonMeaning(op: ComparisonOp, x: CapabilityValue, y: CapabilityValue)
    ensures ApplyComparison(op, x, y) <==> Compares(op, x, y)
  {
    PrecedenceIsTotal();
    if x.Text? && y.Text? {
      TextOrderMeaning(x.text, y.text);
    } else if x.Version? && y.Version? {
      PrecedenceMeaning(x.version, y.version);
    }
    hide CompareText, Precedence, TextBelow, VersionBelow;
  }

  // ----- Constraints as certain answers -----

  /** A fully known component that agrees with all that is known of `s`. */
  ghost predicate IsWorldOf(s: ComponentSpec, t: ComponentSpec) {
    && t.family == s.family && t.kind == s.kind && t.version == s.version
    && t.hardwareClass.Some? && (s.hardwareClass.Some? ==> t.hardwareClass == s.hardwareClass)
    && t.knowledge == Rules.Knowledge(true, true, true)
    && ExtendsMap(s.capabilities, t.capabilities, s.knowledge.capabilitiesClosed, true)
    && ExtendsMap(s.protocols, t.protocols, s.knowledge.protocolsClosed, true)
    && ExtendsMap(s.schemas, t.schemas, s.knowledge.schemasClosed, true)
    && s.features <= t.features && (s.knowledge.capabilitiesClosed ==> t.features == s.features)
  }

  ghost predicate Offers(items: map<string, seq<SemVersion>>, id: string, range: VersionRange.Range) {
    id in items && exists v :: v in items[id] && VersionRange.Contains(range, v)
  }

  /** What a constraint asserts of a fully known component. */
  ghost predicate Holds(c: Constraint, t: ComponentSpec, taxonomy: Taxonomy) {
    match c
    case RequiresCapability(_, id) => id in t.capabilities
    case RequiresCapabilityValue(_, id, op, literal) =>
      && (id in taxonomy.capabilities ==> taxonomy.capabilities[id] == TypeOf(literal))
      && id in t.capabilities && Compares(op, t.capabilities[id], literal)
    case ForbidsCapability(_, id) => id !in t.capabilities
    case RequiresProtocol(_, id, range) => Offers(t.protocols, id, range)
    case ForbidsProtocol(_, id) => id !in t.protocols
    case RequiresSchema(_, id, range) => Offers(t.schemas, id, range)
    case ForbidsSchema(_, id) => id !in t.schemas
    case RequiresHardwareClass(_, id) => t.hardwareClass == Some(id)
    case ForbidsHardwareClass(_, id) => t.hardwareClass != Some(id)
    case VersionAtLeast(_, v) => !VersionBelow(t.version, v)
    case VersionAtMost(_, v) => !VersionBelow(v, t.version)
    case RequiresFeature(_, id) => id in t.features
    case ForbidsFeature(_, id) => id !in t.features
  }

  lemma SupportIsOffer(items: map<string, seq<SemVersion>>, id: string, range: VersionRange.Range)
    ensures id in items ==> (SupportsRange(items[id], range) <==> Offers(items, id, range))
  {
    hide VersionRange.Contains;
    if Offers(items, id, range) {
      var v :| v in items[id] && VersionRange.Contains(range, v);
      var i :| 0 <= i < |items[id]| && items[id][i] == v;
    }
  }

  /** On a fully known component the evaluation says whether the assertion holds. */
  lemma KnownIsDecided(c: Constraint, t: ComponentSpec, taxonomy: Taxonomy)
    requires t.hardwareClass.Some? && t.knowledge == Rules.Knowledge(true, true, true)
    ensures EvaluateConstraint(c, t, taxonomy) == if Holds(c, t, taxonomy) then Satisfied else Violated
  {
    match c
    case RequiresCapabilityValue(_, id, op, literal) =>
      if id in t.capabilities { ComparisonMeaning(op, t.capabilities[id], literal); }
    case RequiresProtocol(_, id, range) => SupportIsOffer(t.protocols, id, range);
    case RequiresSchema(_, id, range) => SupportIsOffer(t.schemas, id, range);
    case VersionAtLeast(_, v) => PrecedenceMeaning(t.version, v);
    case VersionAtMost(_, v) => PrecedenceMeaning(v, t.version);
    case _ =>
  }

  /** A decided status is the status in every such component. */
  lemma DecidedStays(c: Constraint, s: ComponentSpec, t: ComponentSpec, taxonomy: Taxonomy)
    requires IsWorldOf(s, t) && EvaluateConstraint(c, s, taxonomy) != Indeterminate
    ensures EvaluateConstraint(c, t, taxonomy) == EvaluateConstraint(c, s, taxonomy)
  {
    hide ApplyComparison, SupportsRange, Precedence;
  }

  function Settled(s: ComponentSpec, hardwareClass: string): ComponentSpec {
    s.(knowledge := Rules.Knowledge(true, true, true),
       hardwareClass := if s.hardwareClass.Some? then s.hardwareClass else Some(hardwareClass))
  }

  lemma SettledIsWorld(s: ComponentSpec, hardwareClass: string)
    ensures IsWorldOf(s, Settled(s, hardwareClass))
  {
  }

  /** An open question has a component in which the constraint fails, and one in which it holds if it can hold at all. */
  lemma OpenHasBothWorlds(c: Constraint, s: ComponentSpec, taxonomy: Taxonomy)
    requires EvaluateConstraint(c, s, taxonomy) == Indeterminate
    ensures exists t :: IsWorldOf(s, t) && EvaluateConstraint(c, t, taxonomy) == Violated
    ensures CanBeMet(c, taxonomy) ==> exists t :: IsWorldOf(s, t) && EvaluateConstraint(c, t, taxonomy) == Satisfied
  {
    if AsksForHardware(c) {
      HardwareBothWays(c, s, taxonomy);
    } else {
      var closed := Settled(s, "");
      SettledIsWorld(s, "");
      ClosedAnswer(c, s, taxonomy);
      if Forbids(c) || CanBeMet(c, taxonomy) {
        var value, version := Flag(true), Release(0, 0, 0);
        if CanBeMet(c, taxonomy) { value, version := MeetingFact(c, taxonomy); }
        var listed := Settled(Listing(c, s, value, version), "");
        ListedAnswer(c, s, taxonomy, value, version);
      }
    }
  }

  lemma HardwareBothWays(c: Constraint, s: ComponentSpec, taxonomy: Taxonomy)
    requires AsksForHardware(c) && EvaluateConstraint(c, s, taxonomy) == Indeterminate
    ensures exists t :: IsWorldOf(s, t) && EvaluateConstraint(c, t, taxonomy) == Violated
    ensures exists t :: IsWorldOf(s, t) && EvaluateConstraint(c, t, taxonomy) == Satisfied
  {
    var id := c.hardwareClass;
    assert id + "x" != id;
    SettledIsWorld(s, id);
    SettledIsWorld(s, id + "x");
  }

  lemma ClosedAnswer(c: Constraint, s: ComponentSpec, taxonomy: Taxonomy)
    requires !AsksForHardware(c) && EvaluateConstraint(c, s, taxonomy) == Indeterminate
    ensures EvaluateConstraint(c, Settled(s, ""), taxonomy) == if Forbids(c) then Satisfied else Violated
  {
    hide ApplyComparison, SupportsRange, Precedence;
  }

  lemma ListedAnswer(c: Constraint, s: ComponentSpec, taxonomy: Taxonomy, value: CapabilityValue, version: SemVersion)
    requires !AsksForHardware(c) && EvaluateConstraint(c, s, taxonomy) == Indeterminate && (Forbids(c) || CanBeMet(c, taxonomy))
    requires c.RequiresCapabilityValue? ==> ApplyComparison(c.op, value, c.literal)
    requires c.RequiresProtocol? || c.RequiresSchema? ==> VersionRange.Contains(c.range, version)
    ensures var t := Settled(Listing(c, s, value, version), "");
      IsWorldOf(s, t) && EvaluateConstraint(c, t, taxonomy) == if Forbids(c) then Violated else Satisfied
  {
    hide ApplyComparison, VersionRange.Contains;
    assert [version][0] == version;
  }

  /**
   * The three values are the certain answers: satisfied when the assertion holds however the open
   * facts turn out, violated when it holds in no case, indeterminate otherwise.
   */
  lemma CertainAnswers(c: Constraint, s: ComponentSpec, taxonomy: Taxonomy)
    ensures EvaluateConstraint(c, s, taxonomy) == Satisfied <==> forall t :: IsWorldOf(s, t) ==> Holds(c, t, taxonomy)
    ensures EvaluateConstraint(c, s, taxonomy) == Violated ==> forall t :: IsWorldOf(s, t) ==> !Holds(c, t, taxonomy)
    ensures CanBeMet(c, taxonomy) && (forall t :: IsWorldOf(s, t) ==> !Holds(c, t, taxonomy)) ==>
              EvaluateConstraint(c, s, taxonomy) == Violated
  {
    hide EvaluateConstraint, Holds, CanBeMet;
    forall t | IsWorldOf(s, t)
      ensures EvaluateConstraint(c, t, taxonomy) == if Holds(c, t, taxonomy) then Satisfied else Violated
      ensures EvaluateConstraint(c, s, taxonomy) != Indeterminate ==> EvaluateConstraint(c, t, taxonomy) == EvaluateConstraint(c, s, taxonomy)
    {
      KnownIsDecided(c, t, taxonomy);
      if EvaluateConstraint(c, s, taxonomy) != Indeterminate { DecidedStays(c, s, t, taxonomy); }
    }
    SettledIsWorld(s, "");
    hide IsWorldOf;
    if EvaluateConstraint(c, s, taxonomy) == Indeterminate { OpenHasBothWorlds(c, s, taxonomy); }
  }

  // ----- Sides -----

  lemma {:induction false} SelectedAre(r: Rule, members: seq<ComponentSpec>)
    ensures forall m :: m in SelectedMembers(r, members) <==> m in members && SelectorMatches(r.left, m)
  {
    if members != [] {
      SelectedAre(r, members[..|members| - 1]);
      assert members == members[..|members| - 1] + [members[|members| - 1]];
    }
  }

  /** In a set the left side is the members the rule selects; the right side is empty, so it stays open. */
  lemma SetSidesMeaning(c: Constraint, r: Rule, members: seq<ComponentSpec>, taxonomy: Taxonomy)
    ensures var status := ConstraintStatus(c, Resolve(SetSides(members)(r), c.side), taxonomy);
      && (c.side == Right ==> status == Indeterminate)
      && (c.side == Left ==>
            (status == Violated <==>
               exists m :: m in members && SelectorMatches(r.left, m) && EvaluateConstraint(c, m, taxonomy) == Violated))
      && (c.side == Left && MatchesSomeMember(r, members) ==>
            (status == Satisfied <==>
               forall m :: m in members && SelectorMatches(r.left, m) ==> EvaluateConstraint(c, m, taxonomy) == Satisfied))
      && (c.side == AllMembers ==>
            (status == Violated <==> exists m :: m in members && EvaluateConstraint(c, m, taxonomy) == Violated))
      && (c.side == AllMembers && members != [] ==>
            (status == Satisfied <==> forall m :: m in members ==> EvaluateConstraint(c, m, taxonomy) == Satisfied))
  {
    SelectedAre(r, members);
    hide EvaluateConstraint, SelectorMatches, SelectedMembers;
    if members != [] { assert members[0] in members; }
    AllSatisfiedMeans(c, members, taxonomy);
    AllSatisfiedMeans(c, SelectedMembers(r, members), taxonomy);
  }

  lemma AllSatisfiedMeans(c: Constraint, targets: seq<ComponentSpec>, taxonomy: Taxonomy)
    ensures ConstraintStatus(c, targets, taxonomy) == Satisfied <==>
              targets != [] && forall t :: t in targets ==> EvaluateConstraint(c, t, taxonomy) == Satisfied
  {
    hide EvaluateConstraint;
  }

  lemma PairSidesMeaning(c: Constraint, r: Rule, left: ComponentSpec, right: ComponentSpec, taxonomy: Taxonomy)
    ensures var status := ConstraintStatus(c, Resolve(PairSides(left, right)(r), c.side), taxonomy);
      var l, q := EvaluateConstraint(c, left, taxonomy), EvaluateConstraint(c, right, taxonomy);
      && (c.side == Left ==> status == l) && (c.side == Right ==> status == q)
      && (c.side == AllMembers ==>
            status == if l == Violated || q == Violated then Violated
                      else if l == Indeterminate || q == Indeterminate then Indeterminate else Satisfied)
  {
    TwoTargets(c, left, left, taxonomy);
    TwoTargets(c, right, right, taxonomy);
    TwoTargets(c, left, right, taxonomy);
    SameTargets(c, [left], [left, left], taxonomy);
    SameTargets(c, [right], [right, right], taxonomy);
    hide EvaluateConstraint, ConstraintStatus;
  }

  lemma TwoTargets(c: Constraint, x: ComponentSpec, y: ComponentSpec, taxonomy: Taxonomy)
    ensures ConstraintStatus(c, [x, y], taxonomy) ==
      if EvaluateConstraint(c, x, taxonomy) == Violated || EvaluateConstraint(c, y, taxonomy) == Violated then Violated
      else if EvaluateConstraint(c, x, taxonomy) == Indeterminate || EvaluateConstraint(c, y, taxonomy) == Indeterminate then Indeterminate
      else Satisfied
  {
    hide EvaluateConstraint;
    var targets := [x, y];
    assert x in targets && y in targets && forall t :: t in targets ==> t == x || t == y;
  }

  lemma SameTargets(c: Constraint, xs: seq<ComponentSpec>, ys: seq<ComponentSpec>, taxonomy: Taxonomy)
    requires forall t :: t in xs <==> t in ys
    ensures ConstraintStatus(c, xs, taxonomy) == ConstraintStatus(c, ys, taxonomy)
  {
    hide EvaluateConstraint;
    if xs != [] { assert xs[0] in ys; }
    if ys != [] { assert ys[0] in xs; }
  }

  // ----- Selectors -----

  /** An open selector takes anything; narrowing one dimension keeps exactly the components that have the value. */
  lemma SelectorMeaning(s: ComponentSelector, c: ComponentSpec, id: string, range: VersionRange.Range)
    ensures SelectorMatches(WILDCARD, c)
    ensures s.family.None? ==> (SelectorMatches(s.(family := Some(id)), c) <==> SelectorMatches(s, c) && c.family == id)
    ensures s.kind.None? ==> (SelectorMatches(s.(kind := Some(id)), c) <==> SelectorMatches(s, c) && c.kind == id)
    ensures s.hardwareClass.None? ==>
              (SelectorMatches(s.(hardwareClass := Some(id)), c) <==> SelectorMatches(s, c) && c.hardwareClass == Some(id))
    ensures s.version.None? ==>
              (SelectorMatches(s.(version := Some(range)), c) <==> SelectorMatches(s, c) && VersionRange.Contains(range, c.version))
  {
    hide VersionRange.Contains;
  }

  function Swapped(r: Rule): Rule {
    r.(left := r.right, right := r.left,
       symmetry := match r.symmetry case Symmetric => Symmetric case LeftToRight => RightToLeft case RightToLeft => LeftToRight)
  }

  /** Which way round a rule may match: a directed rule is its mirror image swapped, a symmetric one works both ways. */
  lemma SymmetryMeaning(r: Rule, left: ComponentSpec, right: ComponentSpec)
    ensures RuleMatches(Swapped(r), left, right) <==> RuleMatches(r, left, right)
    ensures r.symmetry == LeftToRight ==> (RuleMatches(r, left, right) <==> SelectorMatches(r.left, left) && SelectorMatches(r.right, right))
    ensures r.symmetry == RightToLeft ==> (RuleMatches(r, left, right) <==> RuleMatches(r.(symmetry := LeftToRight), right, left))
    ensures r.symmetry == Symmetric ==> (RuleMatches(r, left, right) <==> RuleMatches(r, right, left))
    ensures RuleMatches(r.(symmetry := Symmetric), left, right) <==>
            RuleMatches(r.(symmetry := LeftToRight), left, right) || RuleMatches(r.(symmetry := RightToLeft), left, right)
  {
    hide SelectorMatches;
  }

  // ----- Ranking -----

  /** From the weakest to the strongest. */
  const ORIGINS: seq<RuleOrigin> := [Standard, Vendor, Operator, LocalOverride]

  ghost predicate OriginBelow(a: RuleOrigin, b: RuleOrigin) {
    exists i, j :: 0 <= i < j < |ORIGINS| && ORIGINS[i] == a && ORIGINS[j] == b
  }

  lemma OriginMeaning(a: RuleOrigin, b: RuleOrigin)
    ensures OriginBelow(a, b) <==> OriginRank(a) < OriginRank(b)
    ensures OriginRank(a) == OriginRank(b) <==> a == b
  {
    assert forall i :: 0 <= i < 4 ==> OriginRank(ORIGINS[i]) == 10 * i;
    var i := OriginRank(a) / 10;
    var j := OriginRank(b) / 10;
    assert ORIGINS[i] == a && ORIGINS[j] == b;
  }

  /** The documented key: priority, specificity, origin, then identity. */
  lemma RankingMeaning(a: Rule, b: Rule)
    ensures PrecedenceHigher(a, b) <==>
      if a.priority != b.priority then a.priority > b.priority
      else if Specificity(a) != Specificity(b) then Specificity(a) > Specificity(b)
      else if a.origin != b.origin then OriginBelow(b.origin, a.origin)
      else if a.id != b.id then TextBelow(a.id, b.id)
      else a.revision < b.revision
  {
    OriginMeaning(a.origin, b.origin);
    OriginMeaning(b.origin, a.origin);
    TextOrderMeaning(a.id, b.id);
    hide Specificity, CompareText, TextBelow, OriginBelow, OriginRank;
  }

  lemma DocumentOrderMeaning(a: Rule, b: Rule)
    ensures DocumentBefore(a, b) <==> if a.id != b.id then TextBelow(a.id, b.id) else a.revision < b.revision
  {
    TextOrderMeaning(a.id, b.id);
    hide CompareText, TextBelow;
  }

  /** One more named dimension weighs 8, a range 12, an exact version 24, a range of everything nothing. */
  lemma SelectorScoreMeaning(s: ComponentSelector, id: string, range: VersionRange.Range)
    ensures SelectorScore(WILDCARD) == 0
    ensures s.family.None? ==> SelectorScore(s.(family := Some(id))) == SelectorScore(s) + 8
    ensures s.kind.None? ==> SelectorScore(s.(kind := Some(id))) == SelectorScore(s) + 8
    ensures s.hardwareClass.None? ==> SelectorScore(s.(hardwareClass := Some(id))) == SelectorScore(s) + 8
    ensures s.version.None? ==> SelectorScore(s.(version := Some(range))) == SelectorScore(s) + RangeScore(range)
  {
    PrecedenceIsTotal();
    hide Precedence;
  }

  function RangeScore(range: VersionRange.Range): nat {
    if OneVersion(range) then 24 else if TakesAll(range) then 0 else 12
  }

  /** From a version to itself, ends included. */
  predicate OneVersion(range: VersionRange.Range) {
    |range| == 1
    && match (range[0].low, range[0].high)
       case (At(v, fromIt), At(w, upToIt)) => fromIt && upToIt && v.(build := "") == w.(build := "")
       case _ => false
  }

  predicate TakesAll(range: VersionRange.Range) {
    range == [Intervals.Interval(Intervals.Unbounded, Intervals.Unbounded)]
  }

  /** A further constraint weighs 2, a further implication 1, each up to sixteen; the right selector weighs in pairs. */
  lemma SpecificityMeaning(r: Rule, c: Constraint, i: Implication)
    ensures Specificity(r.(constraints := r.constraints + [c])) == Specificity(r) + if |r.constraints| < 16 then 2 else 0
    ensures Specificity(r.(implications := r.implications + [i])) == Specificity(r) + if |r.implications| < 16 then 1 else 0
    ensures r.constraints == [] && r.implications == [] ==>
              Specificity(r) == SelectorScore(r.left) + if r.arity == Pair then SelectorScore(r.right) else 0
  {
    hide SelectorScore;
  }
}
