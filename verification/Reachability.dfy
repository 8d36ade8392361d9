/** From the static reachability report to what the engine decides (src/validation.cpp, src/registry.cpp). */
module Reachability {
  import opened Order
  import opened SemVer
  import opened Sorting
  import opened Rules
  import opened Coverage
  import opened Gaps
  import opened Engine
  import opened Validation
  import Intervals
  import VersionRange

  lemma {:induction false} ShadowersMembers(rules: seq<Rule>, index: nat, n: nat)
    requires index < |rules| && n <= |rules|
    ensures forall s :: s in ShadowersUpTo(rules, index, n) ==> s in rules && Shadows(s, rules[index])
  {
    if n > 0 {
      ShadowersMembers(rules, index, n - 1);
    }
  }

  lemma {:induction false} CandidatesOfRuleOrigin(boxes: seq<RuleBox>, targetBox: RuleBox, pair: bool, p: Plane)
    returns (b: RuleBox)
    requires p in CandidatesOfRule(boxes, targetBox, pair)
    ensures b in boxes && p == PlaneOf(b) && BoxSubsumesModuloVersion(b, targetBox, pair)
  {
    var n := |boxes| - 1;
    if p in CandidatesOfRule(boxes[..n], targetBox, pair) {
      b := CandidatesOfRuleOrigin(boxes[..n], targetBox, pair, p);
    } else {
      b := boxes[n];
    }
  }

  /** Every candidate plane is the plane of some shadower's box around the target's. */
  lemma {:induction false} CandidateOrigin(shadowers: seq<Rule>, targetBox: RuleBox, pair: bool, p: Plane)
    returns (s: Rule, b: RuleBox)
    requires p in Candidates(shadowers, targetBox, pair)
    ensures s in shadowers && b in RuleOrientations(s)
    ensures p == PlaneOf(b) && BoxSubsumesModuloVersion(b, targetBox, pair)
  {
    var n := |shadowers| - 1;
    if p in Candidates(shadowers[..n], targetBox, pair) {
      s, b := CandidateOrigin(shadowers[..n], targetBox, pair, p);
    } else {
      s := shadowers[n];
      b := CandidatesOfRuleOrigin(RuleOrientations(s), targetBox, pair, p);
    }
  }

  lemma {:induction false} CoveredBoxes(target: Rule, shadowers: seq<Rule>, boxes: seq<RuleBox>, maxCells: nat, b: RuleBox)
    requires RegionCovered(target, shadowers, boxes, maxCells).covered
    requires b in boxes
    ensures BoxCoverage(target, shadowers, b, maxCells).covered
  {
    if b != boxes[0] {
      assert b in boxes[1..];
      CoveredBoxes(target, shadowers, boxes[1..], maxCells, b);
    }
  }

  /** An outer selector whose range accepts the version accepts what the inner one accepts. */
  lemma OuterSelectorMatches(outer: ComponentSelector, inner: ComponentSelector, c: ComponentSpec)
    requires SelectorSubsumesModuloVersion(outer, inner) && SelectorMatches(inner, c) && VersionMatches(outer.version, c.version)
    ensures SelectorMatches(outer, c)
  {
  }

  function ShadowersOf(rules: seq<Rule>, index: nat): seq<Rule>
    requires index < |rules|
  {
    ShadowersUpTo(rules, index, |rules|)
  }

  function OutrankersUpTo(rules: seq<Rule>, target: Rule, n: nat): seq<Rule>
    requires n <= |rules|
  {
    if n == 0 then [] else OutrankersUpTo(rules, target, n - 1) + if Outranks(rules[n - 1], target) then [rules[n - 1]] else []
  }

  /** All rules that could shadow the target somewhere; the analysis looks only at those around its whole region. */
  function OutrankersOf(rules: seq<Rule>, index: nat): seq<Rule>
    requires index < |rules|
  {
    OutrankersUpTo(rules, rules[index], |rules|)
  }

  lemma {:induction false} OutrankersMembers(rules: seq<Rule>, target: Rule, n: nat)
    requires n <= |rules|
    ensures forall s :: s in OutrankersUpTo(rules, target, n) <==> s in rules[..n] && Outranks(s, target)
  {
    hide Outranks;
    if n > 0 {
      OutrankersMembers(rules, target, n - 1);
      assert rules[..n] == rules[..n - 1] + [rules[n - 1]];
    }
  }

  lemma ShadowersOutrank(rules: seq<Rule>, index: nat)
    requires index < |rules|
    ensures forall s :: s in ShadowersOf(rules, index) ==> s in OutrankersOf(rules, index)
    ensures forall s :: s in OutrankersOf(rules, index) <==> s in rules && Outranks(s, rules[index])
  {
    ShadowersMembers(rules, index, |rules|);
    OutrankersMembers(rules, rules[index], |rules|);
    assert rules[..|rules|] == rules;
    hide RuleAlwaysApplies, TierBelow, RuleTier, RuleRegionSubsumesModuloVersion;
  }

  function CandidatesFor(over: seq<Rule>, target: Rule, box: RuleBox): seq<Plane> {
    Candidates(over, box, target.arity == Pair)
  }

  /** A rule holds two components in one of its orientations; a set rule looks at the first only. */
  ghost predicate Meets(r: Rule, left: ComponentSpec, right: ComponentSpec) {
    exists b :: b in RuleOrientations(r) && BoxMatches(b, left, right)
  }

  lemma MeetsIsMatching(r: Rule, left: ComponentSpec, right: ComponentSpec)
    ensures r.arity == Pair ==> (Meets(r, left, right) <==> RuleMatches(r, left, right))
    ensures r.arity == Set ==> (Meets(r, left, right) <==> SelectorMatches(r.left, left))
  {
    if r.arity == Pair {
      MatchesByOrientation(r, left, right);
    } else {
      var box := RuleOrientations(r)[0];
      assert box in RuleOrientations(r) && BoxMatches(box, left, right) == SelectorMatches(r.left, left);
    }
  }

  /** A candidate that accepts the two versions belongs to a rule that meets the components. */
  lemma CandidateMeets(over: seq<Rule>, target: Rule, box: RuleBox, left: ComponentSpec, right: ComponentSpec) returns (h: Rule)
    requires box in RuleOrientations(target) && BoxMatches(box, left, right)
    requires forall s :: s in over ==> s.arity == target.arity
    requires SomeAccepts(CandidatesFor(over, target, box), left.version, right.version)
    ensures h in over && Meets(h, left, right)
  {
    var pair, candidates := target.arity == Pair, CandidatesFor(over, target, box);
    var k :| 0 <= k < |candidates| && Accepts(candidates[k], left.version, right.version);
    var s, b := CandidateOrigin(over, box, pair, candidates[k]);
    h := s;
    OuterSelectorMatches(b.left, box.left, left);
    if pair {
      OuterSelectorMatches(b.right, box.right, right);
    } else {
      assert b.right == WILDCARD;
    }
    assert BoxMatches(b, left, right);
  }

  lemma BoxAccepts(box: RuleBox, left: ComponentSpec, right: ComponentSpec)
    requires BoxMatches(box, left, right)
    ensures Accepts(PlaneOf(box), left.version, right.version)
  {
  }

  // ----- Untied releases -----

  /** The version ties with no interval bound of the rule. */
  ghost predicate Untied(r: Rule, v: SemVersion) {
    TiesNoBound(r.left.version, v) && TiesNoBound(r.right.version, v)
  }

  /** Neither version ties with a bound of any of the compared rules. */
  ghost predicate UntiedPair(rules: seq<Rule>, index: nat, left: ComponentSpec, right: ComponentSpec)
    requires index < |rules|
  {
    && Untied(rules[index], left.version) && Untied(rules[index], right.version)
    && forall s :: s in ShadowersOf(rules, index) ==> Untied(s, left.version) && Untied(s, right.version)
  }

  lemma OrientationUntied(r: Rule, b: RuleBox, v: SemVersion)
    requires b in RuleOrientations(r) && Untied(r, v)
    ensures TiesNoBound(b.left.version, v) && TiesNoBound(b.right.version, v)
  {
  }

  lemma UntiedLines(rules: seq<Rule>, index: nat, box: RuleBox, left: ComponentSpec, right: ComponentSpec)
    requires index < |rules|
    requires box in RuleOrientations(rules[index]) && UntiedPair(rules, index, left, right)
    ensures var candidates := CandidatesFor(ShadowersOf(rules, index), rules[index], box);
            && (forall r :: r in Lefts(PlaneOf(box), candidates) ==> TiesNoBound(r, left.version))
            && (forall r :: r in Rights(PlaneOf(box), candidates) ==> TiesNoBound(r, right.version))
  {
    var shadowers, candidates := ShadowersOf(rules, index), CandidatesFor(ShadowersOf(rules, index), rules[index], box);
    OrientationUntied(rules[index], box, left.version);
    OrientationUntied(rules[index], box, right.version);
    hide TiesNoBound, Candidates, RuleOrientations;
    forall k | 0 <= k < |candidates|
      ensures TiesNoBound(candidates[k].left, left.version) && TiesNoBound(candidates[k].right, right.version)
    {
      var s, b := CandidateOrigin(shadowers, box, rules[index].arity == Pair, candidates[k]);
      OrientationUntied(s, b, left.version);
      OrientationUntied(s, b, right.version);
    }
  }

  ghost predicate UntiedReleases(rules: seq<Rule>, index: nat, left: ComponentSpec, right: ComponentSpec)
    requires index < |rules|
  {
    !left.version.HasPrerelease() && !right.version.HasPrerelease() && UntiedPair(rules, index, left, right)
  }

  // ----- All versions -----

  /** What the analysis would have to check besides, for each oriented box. */
  predicate GapsOfRuleCovered(rules: seq<Rule>, index: nat)
    requires index < |rules|
  {
    forall box | box in RuleOrientations(rules[index]) ::
      GapsCovered(PlaneOf(box), CandidatesFor(OutrankersOf(rules, index), rules[index], box))
  }

  lemma DeadBoxIsCovered(rules: seq<Rule>, index: nat, options: ValidationOptions, box: RuleBox)
    requires index < |rules| && ReachOf(rules, index, options) == Dead && box in RuleOrientations(rules[index])
    ensures var candidates := CandidatesFor(ShadowersOf(rules, index), rules[index], box);
      VersionPlaneCovered(PlaneOf(box), candidates, options.maxReachabilityCells).covered
  {
    CoveredBoxes(rules[index], ShadowersOf(rules, index), RuleOrientations(rules[index]), options.maxReachabilityCells, box);
  }

  lemma {:induction false} BoxIsCandidateOfRule(boxes: seq<RuleBox>, targetBox: RuleBox, pair: bool, b: RuleBox)
    requires b in boxes && BoxSubsumesModuloVersion(b, targetBox, pair)
    ensures PlaneOf(b) in CandidatesOfRule(boxes, targetBox, pair)
  {
    var n := |boxes| - 1;
    if b != boxes[n] {
      assert boxes == boxes[..n] + [boxes[n]];
      BoxIsCandidateOfRule(boxes[..n], targetBox, pair, b);
    }
  }

  lemma {:induction false} BoxIsCandidate(over: seq<Rule>, targetBox: RuleBox, pair: bool, s: Rule, b: RuleBox)
    requires s in over && b in RuleOrientations(s) && BoxSubsumesModuloVersion(b, targetBox, pair)
    ensures PlaneOf(b) in Candidates(over, targetBox, pair)
  {
    hide RuleOrientations, BoxSubsumesModuloVersion, CandidatesOfRule;
    var n := |over| - 1;
    if s == over[n] {
      BoxIsCandidateOfRule(RuleOrientations(s), targetBox, pair, b);
    } else {
      assert over == over[..n] + [over[n]];
      BoxIsCandidate(over[..n], targetBox, pair, s, b);
    }
  }

  lemma WalkedAreIncluded(rules: seq<Rule>, index: nat, box: RuleBox)
    requires index < |rules|
    ensures Includes(CandidatesFor(OutrankersOf(rules, index), rules[index], box),
                     CandidatesFor(ShadowersOf(rules, index), rules[index], box))
  {
    ShadowersOutrank(rules, index);
    var pair := rules[index].arity == Pair;
    hide Candidates, OutrankersOf, ShadowersOf, BoxSubsumesModuloVersion;
    forall p | p in Candidates(ShadowersOf(rules, index), box, pair) ensures p in Candidates(OutrankersOf(rules, index), box, pair) {
      var s, b := CandidateOrigin(ShadowersOf(rules, index), box, pair, p);
      BoxIsCandidate(OutrankersOf(rules, index), box, pair, s, b);
    }
  }

  /** For a rule reported dead, acceptance of a box's versions by some outranking rule is the gap check. */
  lemma DeadBoxIsRightIff(rules: seq<Rule>, index: nat, options: ValidationOptions, box: RuleBox)
    requires index < |rules| && ReachOf(rules, index, options) == Dead && box in RuleOrientations(rules[index])
    ensures var wide := CandidatesFor(OutrankersOf(rules, index), rules[index], box);
      AllAccepted(PlaneOf(box), wide) <==> GapsCovered(PlaneOf(box), wide)
  {
    DeadBoxIsCovered(rules, index, options, box);
    WalkedAreIncluded(rules, index, box);
    hide ReachOf, CandidatesFor, VersionPlaneCovered, AllAccepted, GapsCovered, Includes;
    CoveredIsRightIffGapsCovered(PlaneOf(box), CandidatesFor(ShadowersOf(rules, index), rules[index], box),
                                 CandidatesFor(OutrankersOf(rules, index), rules[index], box), options.maxReachabilityCells);
  }

  /** For every pair of release versions that ties with no bound, a rule reported dead is outranked by a matching one. */
  lemma DeadRuleIsShadowed(rules: seq<Rule>, index: nat, options: ValidationOptions, left: ComponentSpec, right: ComponentSpec)
    returns (h: Rule)
    requires index < |rules| && ReachOf(rules, index, options) == Dead
    requires Meets(rules[index], left, right) && UntiedReleases(rules, index, left, right)
    ensures h in rules && Outranks(h, rules[index]) && Meets(h, left, right)
  {
    var box :| box in RuleOrientations(rules[index]) && BoxMatches(box, left, right);
    var candidates := CandidatesFor(ShadowersOf(rules, index), rules[index], box);
    DeadBoxIsCovered(rules, index, options, box);
    BoxAccepts(box, left, right);
    UntiedLines(rules, index, box, left, right);
    ShadowersOutrank(rules, index);
    ShadowersMembers(rules, index, |rules|);
    hide VersionPlaneCovered, Accepts, SomeAccepts, CandidatesFor, ReachOf, BoxMatches, RuleOrientations, OutrankersOf, Outranks;
    UntiedReleasesAreAccepted(PlaneOf(box), candidates, options.maxReachabilityCells, left.version, right.version);
    h := CandidateMeets(ShadowersOf(rules, index), rules[index], box, left, right);
  }

  /** With the gaps covered, the same holds for every pair of components, whatever their versions. */
  lemma DeadRuleIsShadowedEverywhere(rules: seq<Rule>, index: nat, options: ValidationOptions, left: ComponentSpec,
                                     right: ComponentSpec)
    returns (h: Rule)
    requires index < |rules| && ReachOf(rules, index, options) == Dead && GapsOfRuleCovered(rules, index)
    requires Meets(rules[index], left, right)
    ensures h in rules && Outranks(h, rules[index]) && Meets(h, left, right)
  {
    var box :| box in RuleOrientations(rules[index]) && BoxMatches(box, left, right);
    var wide := CandidatesFor(OutrankersOf(rules, index), rules[index], box);
    BoxAccepts(box, left, right);
    DeadBoxIsRightIff(rules, index, options, box);
    ShadowersOutrank(rules, index);
    hide Accepts, SomeAccepts, CandidatesFor, ReachOf, BoxMatches, RuleOrientations, OutrankersOf, GapsCovered;
    assert AllAccepted(PlaneOf(box), wide);
    h := CandidateMeets(OutrankersOf(rules, index), rules[index], box, left, right);
  }

  // ----- The condition is exact -----

  ghost predicate Outranked(rules: seq<Rule>, index: nat, left: ComponentSpec, right: ComponentSpec)
    requires index < |rules|
  {
    exists h :: h in OutrankersOf(rules, index) && Meets(h, left, right)
  }

  /** Whatever components the rule holds, a higher rule that always resolves holds them too. */
  ghost predicate AlwaysOutranked(rules: seq<Rule>, index: nat)
    requires index < |rules|
  {
    forall left, right :: Meets(rules[index], left, right) ==> Outranked(rules, index, left, right)
  }

  function IdText(id: Option<string>): string {
    if id.Some? then id.value else ""
  }

  function SelectorText(s: ComponentSelector): string {
    IdText(s.family) + IdText(s.kind) + IdText(s.hardwareClass)
  }

  function RulesText(rules: seq<Rule>): string {
    if rules == [] then "" else SelectorText(rules[0].left) + SelectorText(rules[0].right) + RulesText(rules[1..])
  }

  /** An identifier longer than all that the rules mention. */
  function SpareId(rules: seq<Rule>): string {
    RulesText(rules) + "x"
  }

  predicate Mentions(s: ComponentSelector, id: string) {
    s.family == Some(id) || s.kind == Some(id) || s.hardwareClass == Some(id)
  }

  lemma {:induction false} SpareIsNotMentioned(rules: seq<Rule>, r: Rule, more: string)
    requires r in rules && |more| > |RulesText(rules)|
    ensures !Mentions(r.left, more) && !Mentions(r.right, more)
  {
    if r != rules[0] { SpareIsNotMentioned(rules[1..], r, more); }
  }

  function Filled(id: Option<string>, spare: string): string {
    if id.Some? then id.value else spare
  }

  /** A component a selector accepts for nothing but what it asks. */
  function Specimen(s: ComponentSelector, v: SemVersion, spare: string): ComponentSpec {
    ComponentSpec(Filled(s.family, spare), Filled(s.kind, spare), v, Some(Filled(s.hardwareClass, spare)),
                  Knowledge(true, true, true), map[], map[], map[], {})
  }

  lemma SpecimenMatches(s: ComponentSelector, v: SemVersion, spare: string)
    requires VersionMatches(s.version, v)
    ensures SelectorMatches(s, Specimen(s, v, spare))
  {
  }

  /** A selector that accepts the specimen asks for nothing the given one does not ask. */
  lemma SpecimenSubsumes(outer: ComponentSelector, inner: ComponentSelector, v: SemVersion, spare: string)
    requires !Mentions(outer, spare) && SelectorMatches(outer, Specimen(inner, v, spare))
    ensures SelectorSubsumesModuloVersion(outer, inner) && VersionMatches(outer.version, v)
  {
  }

  lemma OrientationMentions(r: Rule, b: RuleBox, id: string)
    requires b in RuleOrientations(r) && !Mentions(r.left, id) && !Mentions(r.right, id)
    ensures !Mentions(b.left, id) && !Mentions(b.right, id)
  {
  }

  /** A rule that holds specimens of the box is among the candidates, so it accepts their versions. */
  lemma SpecimensAreAccepted(over: seq<Rule>, target: Rule, box: RuleBox, v: SemVersion, w: SemVersion, h: Rule)
    requires box in RuleOrientations(target) && h in over
    requires Meets(h, Specimen(box.left, v, SpareId(over)), Specimen(box.right, w, SpareId(over)))
    ensures SomeAccepts(CandidatesFor(over, target, box), v, w)
  {
    var candidates, spare := CandidatesFor(over, target, box), SpareId(over);
    hide RuleOrientations, Candidates, Specimen, SelectorMatches, VersionMatches, Mentions;
    var b :| b in RuleOrientations(h) && BoxMatches(b, Specimen(box.left, v, spare), Specimen(box.right, w, spare));
    SpareIsNotMentioned(over, h, spare);
    OrientationMentions(h, b, spare);
    SpecimenSubsumes(b.left, box.left, v, spare);
    SpecimenSubsumes(b.right, box.right, w, spare);
    BoxIsCandidate(over, box, target.arity == Pair, h, b);
    var k :| 0 <= k < |candidates| && candidates[k] == PlaneOf(b);
    assert Accepts(candidates[k], v, w);
  }

  /** Two versions no candidate accepts give two components no higher rule holds. */
  lemma UnacceptedIsNotOutranked(rules: seq<Rule>, index: nat, box: RuleBox, v: SemVersion, w: SemVersion)
    requires index < |rules| && box in RuleOrientations(rules[index])
    requires Accepts(PlaneOf(box), v, w) && !SomeAccepts(CandidatesFor(OutrankersOf(rules, index), rules[index], box), v, w)
    ensures !AlwaysOutranked(rules, index)
  {
    var over := OutrankersOf(rules, index);
    var left, right := Specimen(box.left, v, SpareId(over)), Specimen(box.right, w, SpareId(over));
    SpecimenMatches(box.left, v, SpareId(over));
    SpecimenMatches(box.right, w, SpareId(over));
    assert BoxMatches(box, left, right) && Meets(rules[index], left, right);
    hide RuleOrientations, Candidates, OutrankersOf, Specimen, SelectorMatches, VersionMatches, Meets, SomeAccepts;
    forall h | h in over ensures !Meets(h, left, right) {
      if Meets(h, left, right) { SpecimensAreAccepted(over, rules[index], box, v, w, h); }
    }
    assert !Outranked(rules, index, left, right);
  }

  /**
   * Exactly when a dead report is right: a rule reported dead is outranked on all components it
   * holds, of any version, if and only if the gaps the walk leaves are covered.
   */
  lemma DeadIsRightIffGapsCovered(rules: seq<Rule>, index: nat, options: ValidationOptions)
    requires index < |rules| && ReachOf(rules, index, options) == Dead
    ensures AlwaysOutranked(rules, index) <==> GapsOfRuleCovered(rules, index)
  {
    ShadowersOutrank(rules, index);
    hide ReachOf, Meets, GapsCovered, CandidatesFor, RuleOrientations, OutrankersOf;
    if GapsOfRuleCovered(rules, index) {
      forall left, right | Meets(rules[index], left, right) ensures Outranked(rules, index, left, right) {
        var h := DeadRuleIsShadowedEverywhere(rules, index, options, left, right);
      }
    } else {
      var wide := (box: RuleBox) => CandidatesFor(OutrankersOf(rules, index), rules[index], box);
      var box :| box in RuleOrientations(rules[index]) && !GapsCovered(PlaneOf(box), wide(box));
      DeadBoxIsRightIff(rules, index, options, box);
      var v, w :| Accepts(PlaneOf(box), v, w) && !SomeAccepts(wide(box), v, w);
      UnacceptedIsNotOutranked(rules, index, box, v, w);
    }
  }

  // ----- What the engine decides -----

  lemma DeadComponentsAreOutranked(rules: seq<Rule>, index: nat, options: ValidationOptions, left: ComponentSpec,
                                   right: ComponentSpec)
    returns (h: Rule)
    requires index < |rules| && ReachOf(rules, index, options) == Dead && Meets(rules[index], left, right)
    requires GapsOfRuleCovered(rules, index) || UntiedReleases(rules, index, left, right)
    ensures h in rules && Outranks(h, rules[index]) && Meets(h, left, right)
  {
    if UntiedReleases(rules, index, left, right) {
      h := DeadRuleIsShadowed(rules, index, options, left, right);
    } else {
      h := DeadRuleIsShadowedEverywhere(rules, index, options, left, right);
    }
  }

  /** In a ranked list, a rule below one that always resolves never decides. */
  lemma OutrankedNeverDecides(matched: seq<Rule>, sidesOf: Rule -> Sides, taxonomy: Taxonomy, target: Rule, h: Rule)
    requires Sorted(PrecedenceHigher, matched) && h in matched && Outranks(h, target)
    ensures Decide(matched, sidesOf, taxonomy).decider != Some(target)
  {
    PrecedenceHigherIsStrictTotal();
    var verdicts := Verdicts(matched, sidesOf, taxonomy);
    var first := FirstResolved(verdicts);
    var k :| 0 <= k < |matched| && matched[k] == h;
    AlwaysAppliesResolves(h, sidesOf(h), taxonomy);
    assert verdicts[k].resolved.Some?;
    assert first <= k;
    assert PrecedenceHigher(h, target);
    if first < k { assert !PrecedenceHigher(matched[k], matched[first]); }
    assert matched[first] != target;
  }

  /** A rule outranked on the pair never decides it. */
  lemma ShadowedNeverDecides(g: Generation, target: Rule, h: Rule, left: ComponentSpec, right: ComponentSpec)
    requires h in g.rules && Outranks(h, target) && target.arity == Pair && RuleMatches(h, left, right)
    ensures EvaluatePair(g, left, right).decider != Some(target)
  {
    MatchedRules(g, left, right);
    hide MatchPairRules, Decide, RuleMatches;
    OutrankedNeverDecides(MatchPairRules(g, left, right), PairSides(left, right), g.taxonomy, target, h);
  }

  lemma DeciderIsMatched(g: Generation, left: ComponentSpec, right: ComponentSpec, r: Rule)
    requires EvaluatePair(g, left, right).decider == Some(r)
    ensures RuleMatches(r, left, right)
  {
    MatchedRules(g, left, right);
    hide RuleMatches, MatchPairRules;
  }

  /** With the gaps covered, a pair rule reported dead decides no pair at all, prereleases included. */
  lemma DeadRuleNeverDecides(g: Generation, index: nat, options: ValidationOptions, left: ComponentSpec, right: ComponentSpec)
    requires index < |g.rules| && g.rules[index].arity == Pair
    requires ReachOf(g.rules, index, options) == Dead
    requires GapsOfRuleCovered(g.rules, index) || UntiedReleases(g.rules, index, left, right)
    ensures EvaluatePair(g, left, right).decider != Some(g.rules[index])
  {
    hide ReachOf, GapsOfRuleCovered, EvaluatePair, RuleMatches, Meets, UntiedReleases;
    if EvaluatePair(g, left, right).decider == Some(g.rules[index]) {
      DeciderIsMatched(g, left, right, g.rules[index]);
      MeetsIsMatching(g.rules[index], left, right);
      var h := DeadComponentsAreOutranked(g.rules, index, options, left, right);
      MeetsIsMatching(h, left, right);
      ShadowedNeverDecides(g, g.rules[index], h, left, right);
    }
  }

  lemma ShadowedNeverDecidesSet(g: Generation, target: Rule, h: Rule, members: seq<ComponentSpec>)
    requires h in g.rules && Outranks(h, target) && target.arity == Set && MatchesSomeMember(h, members)
    ensures EvaluateSetLevel(g, members).decider != Some(target)
  {
    MatchedSetRules(g, members);
    hide MatchSetRules, Decide, MatchesSomeMember;
    OutrankedNeverDecides(MatchSetRules(g, members), SetSides(members), g.taxonomy, target, h);
  }

  lemma SetDeciderIsMatched(g: Generation, members: seq<ComponentSpec>, r: Rule)
    requires EvaluateSetLevel(g, members).decider == Some(r)
    ensures MatchesSomeMember(r, members)
  {
    MatchedSetRules(g, members);
    hide MatchesSomeMember, MatchSetRules;
  }

  /** A set rule reported dead never decides the set level, under the same condition. */
  lemma DeadSetRuleNeverDecides(g: Generation, index: nat, options: ValidationOptions, members: seq<ComponentSpec>)
    requires index < |g.rules| && g.rules[index].arity == Set
    requires ReachOf(g.rules, index, options) == Dead
    requires GapsOfRuleCovered(g.rules, index) || forall m :: m in members ==> UntiedReleases(g.rules, index, m, m)
    ensures EvaluateSetLevel(g, members).decider != Some(g.rules[index])
  {
    hide ReachOf, GapsOfRuleCovered, EvaluateSetLevel, Meets, UntiedReleases, SelectorMatches;
    if EvaluateSetLevel(g, members).decider == Some(g.rules[index]) {
      SetDeciderIsMatched(g, members, g.rules[index]);
      var m :| m in members && SelectorMatches(g.rules[index].left, m);
      MeetsIsMatching(g.rules[index], m, m);
      var h := DeadComponentsAreOutranked(g.rules, index, options, m, m);
      MeetsIsMatching(h, m, m);
      ShadowedNeverDecidesSet(g, g.rules[index], h, members);
    }
  }

  // ----- Live rules reported dead -----

  const LOWER: Rule :=
    Rule("a", 1, 0, Standard, LeftToRight, Pair, Compatible, WILDCARD, WILDCARD, [], [], HighestCommon, UnmetIncompatible,
         OpenUnknown, Active)

  /** A rule of the lower tier, and one of the higher, that differ in their left version only. */
  function Lower(version: Option<VersionRange.Range>): Rule {
    LOWER.(left := WILDCARD.(version := version))
  }

  function Higher(version: Option<VersionRange.Range>): Rule {
    Lower(version).(id := "b", priority := 1)
  }

  function TwoRules(low: Option<VersionRange.Range>, high: Option<VersionRange.Range>): Generation {
    Generation(Taxonomy({"f"}, map["k" := "f"], {}, {}, map[]), [Lower(low), Higher(high)])
  }

  const DEFAULTS: ValidationOptions := ValidationOptions(true, 64, 4096)

  function ComponentOf(version: SemVersion): ComponentSpec {
    ComponentSpec("f", "k", version, None, Knowledge(true, true, true), map[], map[], map[], {})
  }

  lemma {:induction false} GridSize(coords: seq<Coord>, ivs: VersionRange.Range)
    ensures |AddIntervals(coords, ivs)| <= |coords| + 2 * |ivs|
    decreases |ivs|
  {
    if ivs != [] {
      GridSize(AddBound(AddBound(coords, ivs[0].low), ivs[0].high), ivs[1..]);
    }
  }

  lemma RangeSize(coords: seq<Coord>, range: Option<VersionRange.Range>)
    ensures |AddRange(coords, range)| <= |coords| + if range.Some? then 2 * |range.value| else 0
  {
    if range.Some? { GridSize(coords, range.value); }
  }

  lemma TwoRangesGrid(a: Option<VersionRange.Range>, b: Option<VersionRange.Range>)
    requires (a.Some? ==> |a.value| == 1) && (b.Some? ==> |b.value| == 1)
    ensures |Grid([a, b])| <= 6
    ensures a.None? && b.None? ==> Grid([a, b]) == [NegInf, PosInf]
  {
    var start := [NegInf, PosInf];
    assert [a, b][1..] == [b] && [b][1..] == [];
    assert AddRanges(AddRange(start, a), [b]) == AddRanges(AddRange(AddRange(start, a), b), []);
    assert AddRanges(start, [a, b]) == AddRange(AddRange(start, a), b);
    RangeSize(start, a);
    RangeSize(AddRange(start, a), b);
    if a.None? && b.None? {
      assert start[1..] == [PosInf] && [PosInf][1..] == [];
      assert Sort(CoordBefore, [PosInf]) == [PosInf] && Sort(CoordBefore, start) == start;
    }
  }

  lemma HigherShadows(low: Option<VersionRange.Range>, high: Option<VersionRange.Range>)
    ensures Shadows(Higher(high), Lower(low))
  {
    var box, outer := RuleBox(Lower(low).left, WILDCARD), RuleBox(Higher(high).left, WILDCARD);
    assert RuleOrientations(Lower(low)) == [box];
    assert RuleOrientations(Higher(high)) == [outer] && outer in RuleOrientations(Higher(high));
    assert BoxSubsumesModuloVersion(outer, box, true);
    hide RuleOrientations, BoxSubsumesModuloVersion;
  }

  lemma TwoRulesShadow(low: Option<VersionRange.Range>, high: Option<VersionRange.Range>)
    ensures ShadowersOf(TwoRules(low, high).rules, 0) == [Higher(high)]
  {
    var rules := TwoRules(low, high).rules;
    HigherShadows(low, high);
    hide Shadows;
    assert ShadowersUpTo(rules, 0, 0) == [] && ShadowersUpTo(rules, 0, 1) == [];
    assert ShadowersUpTo(rules, 0, 2) == [Higher(high)];
  }

  lemma TwoRulesCandidates(low: Option<VersionRange.Range>, high: Option<VersionRange.Range>)
    ensures RuleOrientations(Lower(low)) == [RuleBox(Lower(low).left, WILDCARD)]
    ensures Candidates([Higher(high)], RuleBox(Lower(low).left, WILDCARD), true) == [Plane(high, None)]
  {
    var box, outer := RuleBox(Lower(low).left, WILDCARD), RuleBox(Higher(high).left, WILDCARD);
    assert RuleOrientations(Higher(high)) == [outer] && [outer][..0] == [] && [Higher(high)][..0] == [];
    assert CandidatesOfRule([outer], box, true) == [PlaneOf(outer)];
  }

  lemma OneBoxRegion(target: Rule, shadowers: seq<Rule>, box: RuleBox, maxCells: nat)
    requires target.arity == Pair && VersionPlaneCovered(PlaneOf(box), Candidates(shadowers, box, true), maxCells).covered
    ensures RegionCovered(target, shadowers, [box], maxCells).covered
  {
    hide VersionPlaneCovered, Candidates;
    assert [box][1..] == [];
    assert RegionCovered(target, shadowers, [], maxCells).covered;
  }

  lemma TwoRulesPlane(low: Option<VersionRange.Range>, high: Option<VersionRange.Range>)
    requires (low.Some? ==> |low.value| == 1) && (high.Some? ==> |high.value| == 1)
    requires OpenCellsCovered(Plane(low, None), [Plane(high, None)], Grid([low, high]), Grid([None, None]))
    ensures VersionPlaneCovered(Plane(low, None), [Plane(high, None)], 4096).covered
  {
    var target, candidates := Plane(low, None), [Plane(high, None)];
    assert Lefts(target, candidates) == [low, high] && Rights(target, candidates) == [None, None];
    TwoRangesGrid(low, high);
    TwoRangesGrid(None, None);
    hide Grid, OpenCellsCovered;
  }

  /** The lower of the two is reported dead when the cells of its line are covered by the other's. */
  lemma LowerIsReportedDead(low: Option<VersionRange.Range>, high: Option<VersionRange.Range>)
    requires (low.Some? ==> |low.value| == 1) && (high.Some? ==> |high.value| == 1)
    requires OpenCellsCovered(Plane(low, None), [Plane(high, None)], Grid([low, high]), Grid([None, None]))
    ensures ReachOf(TwoRules(low, high).rules, 0, DEFAULTS) == Dead
  {
    TwoRulesShadow(low, high);
    TwoRulesCandidates(low, high);
    TwoRulesPlane(low, high);
    hide Grid, OpenCellsCovered, VersionPlaneCovered, Candidates, RegionCovered, RuleOrientations, ShadowersUpTo;
    OneBoxRegion(Lower(low), [Higher(high)], RuleBox(Lower(low).left, WILDCARD), 4096);
  }

  lemma OnlyFirstMatches(a: Rule, b: Rule, left: ComponentSpec, right: ComponentSpec)
    requires a.state == Active && b.state == Active && a.arity == Pair && b.arity == Pair
    requires RuleMatches(a, left, right) && !RuleMatches(b, left, right)
    ensures ActiveOf([a, b], Pair) == [a, b] && Matching([a, b], left, right) == [a]
  {
    hide RuleMatches;
    assert [a, b][..1] == [a] && [a][..0] == [];
    assert ActiveOf([a], Pair) == [a] && Matching([a], left, right) == [a];
  }

  lemma OnlyMatchDecides(g: Generation, left: ComponentSpec, right: ComponentSpec, r: Rule)
    requires RefusalOfPair(g, left, right).None? && Matching(ActiveOf(g.rules, Pair), left, right) == [r]
    requires RuleAlwaysApplies(r)
    ensures EvaluatePair(g, left, right).decider == Some(r)
  {
    hide RefusalOfPair, Matching, ActiveOf, Apply, PairSides;
    assert [r][1..] == [] && MatchPairRules(g, left, right) == [r];
    var verdicts := Verdicts([r], PairSides(left, right), g.taxonomy);
    AlwaysAppliesResolves(r, PairSides(left, right)(r), g.taxonomy);
    assert verdicts[0].resolved.Some?;
    assert FirstResolved(verdicts) == 0;
  }

  lemma WildcardMatches(version: Option<VersionRange.Range>, c: ComponentSpec)
    ensures SelectorMatches(WILDCARD, c)
    ensures SelectorMatches(WILDCARD.(version := version), c) <==> VersionMatches(version, c.version)
  {
  }

  /** It decides every component that its own range accepts and the other's does not. */
  lemma LowerDecides(low: Option<VersionRange.Range>, high: Option<VersionRange.Range>, version: SemVersion)
    requires VersionMatches(low, version) && !VersionMatches(high, version)
    ensures var c := ComponentOf(version); EvaluatePair(TwoRules(low, high), c, c).decider == Some(Lower(low))
  {
    var c := ComponentOf(version);
    WildcardMatches(low, c);
    WildcardMatches(high, c);
    hide VersionMatches, SelectorMatches, ActiveOf, Matching, EvaluatePair;
    OnlyFirstMatches(Lower(low), Higher(high), c, c);
    assert RefusalOfPair(TwoRules(low, high), c, c).None?;
    OnlyMatchDecides(TwoRules(low, high), c, c, Lower(low));
  }

  const EXACTLY_ONE: VersionRange.Range := [Intervals.ExactInterval(Release(1, 0, 0))]

  const FROM_TWO: VersionRange.Range := [Intervals.Interval(Intervals.At(Release(2, 0, 0), true), Intervals.Unbounded)]

  lemma SinglesAreCovered(low: VersionRange.Range, high: Option<VersionRange.Range>)
    requires OnlySingleVersions(Some(low)) && |low| == 1 && (high.Some? ==> |high.value| == 1)
    ensures ReachOf(TwoRules(Some(low), high).rules, 0, DEFAULTS) == Dead
  {
    var target, candidates := Plane(Some(low), None), [Plane(high, None)];
    assert Lefts(target, candidates) == [Some(low), high] && Rights(target, candidates) == [None, None];
    TwoRangesGrid(Some(low), high);
    TwoRangesGrid(None, None);
    hide Grid, OpenCellsCovered, OnlySingleVersions;
    SingleVersionTargetsAlwaysCovered(target, candidates, 4096);
    LowerIsReportedDead(Some(low), high);
  }

  /** At a bound: `=1.0.0` under one higher rule `>=2.0.0` is reported dead, and decides 1.0.0. */
  lemma PinnedIsReportedDead()
    ensures ReachOf(TwoRules(Some(EXACTLY_ONE), Some(FROM_TWO)).rules, 0, DEFAULTS) == Dead
  {
    PrecedenceIsTotal();
    SinglesAreCovered(EXACTLY_ONE, Some(FROM_TWO));
  }

  lemma PinnedStillDecides()
    ensures var c := ComponentOf(Release(1, 0, 0));
      EvaluatePair(TwoRules(Some(EXACTLY_ONE), Some(FROM_TWO)), c, c).decider == Some(Lower(Some(EXACTLY_ONE)))
  {
    PrecedenceIsTotal();
    assert VersionRange.IntervalContains(EXACTLY_ONE[0], Release(1, 0, 0));
    assert !VersionRange.IntervalContains(FROM_TWO[0], Release(1, 0, 0));
    LowerDecides(Some(EXACTLY_ONE), Some(FROM_TWO), Release(1, 0, 0));
  }

  const ANY: VersionRange.Range := [Intervals.Interval(Intervals.Unbounded, Intervals.Unbounded)]

  const TWO_RC: SemVersion := Release(2, 0, 0).(prerelease := ["rc"])

  /** Away from all bounds: a rule for every version under one for `*` is reported dead, and decides 2.0.0-rc. */
  lemma UnversionedIsReportedDead()
    ensures ReachOf(TwoRules(None, Some(ANY)).rules, 0, DEFAULTS) == Dead
  {
    var xs, ys := Grid([None, Some(ANY)]), Grid([None, None]);
    forall i, j | 0 <= i < |xs| - 1 && 0 <= j < |ys| - 1
      ensures CellCovered([Plane(Some(ANY), None)], xs, ys, i, j)
    {
      AnyCovers(xs[i], xs[i + 1]);
      assert CellInside([Plane(Some(ANY), None)][0], xs, ys, i, j);
    }
    LowerIsReportedDead(None, Some(ANY));
  }

  lemma AnyCovers(lo: Coord, hi: Coord)
    ensures RangeCoversCell(Some(ANY), lo, hi)
  {
    assert LowReaches(ANY[0].low, lo) && HighReaches(ANY[0].high, hi);
  }

  /** No bound is in sight: neither range has one. */
  lemma UnversionedTiesNothing(c: ComponentSpec)
    ensures UntiedPair(TwoRules(None, Some(ANY)).rules, 0, c, c)
  {
    TwoRulesShadow(None, Some(ANY));
    hide ShadowersUpTo;
    assert forall iv :: iv in ANY ==> iv == ANY[0];
    assert TiesNoBound(Some(ANY), c.version) && TiesNoBound(None, c.version);
  }

  lemma UnversionedStillDecides()
    ensures var c := ComponentOf(TWO_RC);
      && UntiedPair(TwoRules(None, Some(ANY)).rules, 0, c, c)
      && EvaluatePair(TwoRules(None, Some(ANY)), c, c).decider == Some(Lower(None))
  {
    UnversionedTiesNothing(ComponentOf(TWO_RC));
    hide EvaluatePair, UntiedPair;
    assert !VersionRange.IntervalContains(ANY[0], TWO_RC);
    LowerDecides(None, Some(ANY), TWO_RC);
  }

  const ONE_RC: SemVersion := Release(1, 0, 0).(prerelease := ["rc"])

  const EXACTLY_ONE_RC: VersionRange.Range := [Intervals.ExactInterval(ONE_RC)]

  const FROM_HALF: VersionRange.Range := [Intervals.Interval(Intervals.At(Release(0, 5, 0), true), Intervals.Unbounded)]

  /** At a prerelease within the bounds: `=1.0.0-rc` under `>=0.5.0` is reported dead, and decides 1.0.0-rc. */
  lemma PinnedPrereleaseIsReportedDead()
    ensures ReachOf(TwoRules(Some(EXACTLY_ONE_RC), Some(FROM_HALF)).rules, 0, DEFAULTS) == Dead
  {
    PrecedenceIsTotal();
    SinglesAreCovered(EXACTLY_ONE_RC, Some(FROM_HALF));
  }

  lemma PinnedPrereleaseStillDecides()
    ensures var c := ComponentOf(ONE_RC);
      && Intervals.ContainsBound(Precedence, FROM_HALF[0], ONE_RC)
      && EvaluatePair(TwoRules(Some(EXACTLY_ONE_RC), Some(FROM_HALF)), c, c).decider == Some(Lower(Some(EXACTLY_ONE_RC)))
  {
    PrecedenceIsTotal();
    assert VersionRange.IntervalContains(EXACTLY_ONE_RC[0], ONE_RC);
    assert !VersionRange.IntervalContains(FROM_HALF[0], ONE_RC);
    LowerDecides(Some(EXACTLY_ONE_RC), Some(FROM_HALF), ONE_RC);
  }
}
