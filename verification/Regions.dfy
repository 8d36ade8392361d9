/** When regions of selectors and rules really meet, and when one really contains another (src/component.cpp, src/validation.cpp). */
module Regions {
  import opened Order
  import opened SemVer
  import opened Rules
  import opened Engine
  import opened Validation
  import opened RuleMeaning
  import VersionRange
  import Intervals

  // ----- Two selectors -----

  function Either(x: Option<string>, y: Option<string>): Option<string> {
    if x.Some? then x else y
  }

  function IdOf(x: Option<string>): string {
    if x.Some? then x.value else ""
  }

  /** A component with what either selector asks for, and the given version. */
  function Common(a: ComponentSelector, b: ComponentSelector, v: SemVersion): ComponentSpec {
    ComponentSpec(IdOf(Either(a.family, b.family)), IdOf(Either(a.kind, b.kind)), v, Either(a.hardwareClass, b.hardwareClass),
                  Rules.Knowledge(false, false, false), map[], map[], map[], {})
  }

  predicate BothTake(a: ComponentSelector, b: ComponentSelector, v: SemVersion) {
    VersionMatches(a.version, v) && VersionMatches(b.version, v)
  }

  ghost predicate ShareVersion(a: ComponentSelector, b: ComponentSelector) {
    exists v :: BothTake(a, b, v)
  }

  ghost predicate ShareComponent(a: ComponentSelector, b: ComponentSelector) {
    exists c :: SelectorMatches(a, c) && SelectorMatches(b, c)
  }

  lemma CommonIsTaken(a: ComponentSelector, b: ComponentSelector, v: SemVersion)
    requires SelectorsOverlap(a, b) && BothTake(a, b, v)
    ensures SelectorMatches(a, Common(a, b, v)) && SelectorMatches(b, Common(a, b, v))
  {
    hide Intervals.Overlaps, VersionMatches;
  }

  /** Overlapping selectors share a component exactly when their ranges share a version, and no others do. */
  lemma SelectorsOverlapIff(a: ComponentSelector, b: ComponentSelector)
    requires SelectorCanonical(a) && SelectorCanonical(b)
    ensures ShareComponent(a, b) <==> SelectorsOverlap(a, b) && ShareVersion(a, b)
  {
    hide SelectorsOverlap, SelectorMatches, VersionMatches, SelectorCanonical;
    if c :| SelectorMatches(a, c) && SelectorMatches(b, c) {
      CommonComponentOverlaps(a, b, c);
      MatchedVersion(a, c);
      MatchedVersion(b, c);
      assert BothTake(a, b, c.version);
    }
    if SelectorsOverlap(a, b) && ShareVersion(a, b) {
      var v :| BothTake(a, b, v);
      CommonIsTaken(a, b, v);
      assert SelectorMatches(a, Common(a, b, v));
    }
  }

  lemma MatchedVersion(s: ComponentSelector, c: ComponentSpec)
    requires SelectorMatches(s, c)
    ensures VersionMatches(s.version, c.version)
  {
  }

  /** Ranges overlap exactly when two of their intervals meet in one that its bounds do not rule out. */
  lemma OverlapsIff(a: VersionRange.Range, b: VersionRange.Range)
    requires VersionRange.CanonicalRange(a) && VersionRange.CanonicalRange(b)
    ensures Intervals.Overlaps(Precedence, a, b) ==>
              exists i, j :: 0 <= i < |a| && 0 <= j < |b|
                && !Intervals.StructurallyEmpty(Precedence, Intervals.Meet(Precedence, a[i], b[j]))
    ensures (exists v :: VersionRange.Contains(a, v) && VersionRange.Contains(b, v)) ==> Intervals.Overlaps(Precedence, a, b)
  {
    PrecedenceIsTotal();
    hide Precedence, VersionRange.Contains;
    if Intervals.Overlaps(Precedence, a, b) {
      Intervals.IntersectIsSweep(Precedence, a, b);
      var i, j := Intervals.SweepMeets(Precedence, a, b, 0);
    }
    if v :| VersionRange.Contains(a, v) && VersionRange.Contains(b, v) {
      if !Intervals.Overlaps(Precedence, a, b) { VersionRange.DisjointRanges(a, b, v); }
    }
  }

  // ----- Two rules -----

  ghost predicate BoxesShareVersions(p: RuleBox, q: RuleBox) {
    ShareVersion(p.left, q.left) && ShareVersion(p.right, q.right)
  }

  ghost predicate ReallyOverlap(a: Rule, b: Rule) {
    exists p, q :: p in RuleOrientations(a) && q in RuleOrientations(b) && BoxOverlaps(p, q, true) && BoxesShareVersions(p, q)
  }

  ghost predicate SharePair(a: Rule, b: Rule) {
    exists left, right :: RuleMatches(a, left, right) && RuleMatches(b, left, right)
  }

  lemma BoxesCanonical(r: Rule, b: RuleBox)
    requires RuleCanonical(r) && r.arity == Pair && b in RuleOrientations(r)
    ensures SelectorCanonical(b.left) && SelectorCanonical(b.right)
  {
  }

  /**
   * Two pair rules take a common pair exactly when they have overlapping oriented boxes whose
   * ranges share versions: the overlap that conflicts are reported for is real wherever there
   * are versions in it, and no real one is missed.
   */
  lemma RegionsOverlapIff(a: Rule, b: Rule)
    requires a.arity == Pair && b.arity == Pair && RuleCanonical(a) && RuleCanonical(b)
    ensures SharePair(a, b) <==> ReallyOverlap(a, b)
    ensures ReallyOverlap(a, b) ==> RuleRegionsOverlap(a, b)
  {
    hide SelectorsOverlap, SelectorMatches, ShareVersion, RuleMatches, RuleOrientations, RuleCanonical;
    if left, right :| RuleMatches(a, left, right) && RuleMatches(b, left, right) { SharedPairOverlaps(a, b, left, right); }
    if p, q :| p in RuleOrientations(a) && q in RuleOrientations(b) && BoxOverlaps(p, q, true) && BoxesShareVersions(p, q) {
      BoxesCanonical(a, p);
      BoxesCanonical(b, q);
      OverlapIsShared(a, b, p, q);
    }
  }

  lemma SharedPairOverlaps(a: Rule, b: Rule, left: ComponentSpec, right: ComponentSpec)
    requires a.arity == Pair && b.arity == Pair && RuleCanonical(a) && RuleCanonical(b)
    requires RuleMatches(a, left, right) && RuleMatches(b, left, right)
    ensures ReallyOverlap(a, b)
  {
    MatchesByOrientation(a, left, right);
    MatchesByOrientation(b, left, right);
    hide SelectorsOverlap, SelectorMatches, ShareVersion, RuleMatches, RuleOrientations, RuleCanonical, SelectorCanonical;
    var p :| p in RuleOrientations(a) && BoxMatches(p, left, right);
    var q :| q in RuleOrientations(b) && BoxMatches(q, left, right);
    BoxesCanonical(a, p);
    BoxesCanonical(b, q);
    SelectorsOverlapIff(p.left, q.left);
    SelectorsOverlapIff(p.right, q.right);
    assert ShareComponent(p.left, q.left) && ShareComponent(p.right, q.right);
    assert BoxOverlaps(p, q, true);
  }

  lemma OverlapIsShared(a: Rule, b: Rule, p: RuleBox, q: RuleBox)
    requires a.arity == Pair && b.arity == Pair && p in RuleOrientations(a) && q in RuleOrientations(b)
    requires SelectorCanonical(p.left) && SelectorCanonical(p.right) && SelectorCanonical(q.left) && SelectorCanonical(q.right)
    requires BoxOverlaps(p, q, true) && BoxesShareVersions(p, q)
    ensures SharePair(a, b)
  {
    hide SelectorsOverlap, SelectorMatches, ShareVersion, RuleMatches, RuleOrientations, SelectorCanonical;
    SelectorsOverlapIff(p.left, q.left);
    SelectorsOverlapIff(p.right, q.right);
    var left :| SelectorMatches(p.left, left) && SelectorMatches(q.left, left);
    var right :| SelectorMatches(p.right, right) && SelectorMatches(q.right, right);
    MatchesByOrientation(a, left, right);
    MatchesByOrientation(b, left, right);
    assert BoxMatches(p, left, right) && BoxMatches(q, left, right);
  }

  /** Where the overlap is inhabited, a conflict is a disagreement on a common pair that no rank settles. */
  lemma ConflictIsDisagreement(a: Rule, b: Rule)
    requires a.arity == Pair && b.arity == Pair && RuleCanonical(a) && RuleCanonical(b)
    ensures ReallyOverlap(a, b) ==>
      (Conflict(a, b) <==> SharePair(a, b) && a.outcome != b.outcome
                           && a.priority == b.priority && Specificity(a) == Specificity(b) && a.origin == b.origin)
    ensures Conflict(a, b) && !ReallyOverlap(a, b) ==> RuleRegionsOverlap(a, b) && !SharePair(a, b)
  {
    RegionsOverlapIff(a, b);
    OriginMeaning(a.origin, b.origin);
    hide Specificity, OriginRank, RuleRegionsOverlap, ReallyOverlap, SharePair, RuleCanonical, OriginBelow;
  }

  // ----- Containment, versions aside -----

  /** One selector contains another, versions aside, exactly when it takes every component the other takes. */
  lemma SubsumesIff(outer: ComponentSelector, inner: ComponentSelector)
    ensures SelectorSubsumesModuloVersion(outer, inner) <==>
      forall c :: SelectorMatches(inner.(version := None), c) ==> SelectorMatches(outer.(version := None), c)
  {
    if !SelectorSubsumesModuloVersion(outer, inner) {
      var c := Apart(outer, inner);
      assert SelectorMatches(inner.(version := None), c) && !SelectorMatches(outer.(version := None), c);
    }
  }

  function Other(id: Option<string>): string {
    if id.Some? then id.value + "x" else ""
  }

  /** A component the inner selector takes that differs from the outer one wherever it may. */
  function Apart(outer: ComponentSelector, inner: ComponentSelector): ComponentSpec {
    ComponentSpec(IdOf(Either(inner.family, Some(Other(outer.family)))), IdOf(Either(inner.kind, Some(Other(outer.kind)))),
                  Release(0, 0, 0), Either(inner.hardwareClass, Some(Other(outer.hardwareClass))),
                  Rules.Knowledge(false, false, false), map[], map[], map[], {})
  }

  // ----- Who may shadow whom -----

  /** No choice of statuses makes it decline. */
  lemma AlwaysAppliesIff(r: Rule)
    ensures RuleAlwaysApplies(r) <==> forall statuses :: VerdictOf(r, statuses).resolved.Some?
  {
    var violated, open := VerdictOf(r, [Violated]), VerdictOf(r, [Indeterminate]);
    assert Violated in [Violated] && Indeterminate in [Indeterminate] && Violated !in [Indeterminate];
    if !RuleAlwaysApplies(r) { assert violated.resolved.None? || open.resolved.None?; }
  }

  /**
   * A rule may shadow another exactly when it is active and of the same arity, can never decline,
   * comes first by the ranking whatever the ids, and takes, versions aside, all that each
   * orientation of the other takes.
   */
  lemma ShadowsIff(s: Rule, t: Rule)
    ensures Shadows(s, t) <==>
      && s.state == Active && s.arity == t.arity
      && (forall statuses :: VerdictOf(s, statuses).resolved.Some?)
      && (if s.priority != t.priority then s.priority > t.priority
          else if Specificity(s) != Specificity(t) then Specificity(s) > Specificity(t)
          else OriginBelow(t.origin, s.origin))
      && forall q :: q in RuleOrientations(t) ==> exists p :: p in RuleOrientations(s) && ContainsBox(p, q, s.arity == Pair)
  {
    AlwaysAppliesIff(s);
    OriginMeaning(t.origin, s.origin);
    hide VerdictOf, Specificity, OriginBelow, OriginRank, RuleOrientations, ContainsBox, BoxSubsumesModuloVersion;
    var pair := s.arity == Pair;
    forall p, q ensures BoxSubsumesModuloVersion(p, q, pair) <==> ContainsBox(p, q, pair) {
      ContainsBoxIff(p, q, pair);
    }
  }

  ghost predicate TakesAllOf(outer: ComponentSelector, inner: ComponentSelector) {
    forall c :: SelectorMatches(inner.(version := None), c) ==> SelectorMatches(outer.(version := None), c)
  }

  ghost predicate ContainsBox(outer: RuleBox, inner: RuleBox, pair: bool) {
    TakesAllOf(outer.left, inner.left) && (pair ==> TakesAllOf(outer.right, inner.right))
  }

  lemma ContainsBoxIff(outer: RuleBox, inner: RuleBox, pair: bool)
    ensures BoxSubsumesModuloVersion(outer, inner, pair) <==> ContainsBox(outer, inner, pair)
  {
    SubsumesIff(outer.left, inner.left);
    SubsumesIff(outer.right, inner.right);
    hide SelectorMatches, SelectorSubsumesModuloVersion;
  }
}
