/** A negotiated answer agrees with what the decision engine says of the same requirement (src/registry.cpp). */
module NegotiationMeaning {
  import opened Order
  import opened SemVer
  import opened Rules
  import opened Engine
  import opened Negotiation
  import VersionRange
  import Intervals

  /** Versions of equal precedence are admitted alike. */
  lemma TiesAdmittedAlike(range: VersionRange.Range, v: SemVersion, w: SemVersion)
    requires Precedence(v, w) == Equal && VersionRange.Contains(range, v)
    ensures VersionRange.Contains(range, w)
  {
    PrecedenceIsTotal();
    var i :| 0 <= i < |range| && VersionRange.IntervalContains(range[i], v);
    var low, high := range[i].low, range[i].high;
    if low.At? { assert Composes(Precedence(low.value, v), Precedence(v, w), Precedence(low.value, w)); }
    if high.At? { assert Composes(Precedence(w, v), Precedence(v, high.value), Precedence(w, high.value)); }
    hide Precedence;
    assert Precedence(w, v) == Equal;
    assert VersionRange.IntervalContains(range[i], w);
  }

  lemma OfferSatisfies(items: map<string, seq<SemVersion>>, id: string, range: VersionRange.Range, closed: bool, v: SemVersion)
    requires id in items && Negotiation.Offers(Precedence, items[id], v) && VersionRange.Contains(range, v)
    ensures SupportStatus(items, id, range, closed) == Satisfied
  {
    PrecedenceIsTotal();
    hide Precedence, VersionRange.Contains;
    var i :| 0 <= i < |items[id]| && Precedence(items[id][i], v) == Equal;
    assert Precedence(v, items[id][i]) == Equal;
    TiesAdmittedAlike(range, v, items[id][i]);
  }

  /** A requirement on the negotiated subject, of one component. */
  function Requirement(schema: bool, id: string, range: VersionRange.Range): Constraint {
    if schema then RequiresSchema(AllMembers, id, range) else RequiresProtocol(AllMembers, id, range)
  }

  function ViewOf(schema: bool, id: string): ComponentSpec -> Member<SemVersion> {
    if schema then SchemaMember(id) else ProtocolMember(id)
  }

  /** The members agree on a version: every range that admits it is a requirement they all satisfy. */
  lemma AgreedIsSupported(specs: seq<ComponentSpec>, schema: bool, id: string, policy: NegotiationPolicy, s: Subject<SemVersion>,
                          range: VersionRange.Range, taxonomy: Taxonomy)
    requires IsNegotiated(Precedence, MembersBy(ViewOf(schema, id), specs), policy, s) && s.status == Agreed
    requires VersionRange.Contains(range, s.selected.value)
    ensures forall c :: c in specs ==> EvaluateConstraint(Requirement(schema, id, range), c, taxonomy) == Satisfied
    ensures ConstraintStatus(Requirement(schema, id, range), specs, taxonomy) == Satisfied
  {
    hide Precedence, VersionRange.Contains, EvaluateConstraint, ConstraintStatus;
    forall i | 0 <= i < |specs| ensures EvaluateConstraint(Requirement(schema, id, range), specs[i], taxonomy) == Satisfied {
      MemberIsSupported(specs, schema, id, policy, s, range, taxonomy, i);
    }
    AllSatisfied(Requirement(schema, id, range), specs, taxonomy);
  }

  lemma AllSatisfied(c: Constraint, specs: seq<ComponentSpec>, taxonomy: Taxonomy)
    requires specs != [] && forall i :: 0 <= i < |specs| ==> EvaluateConstraint(c, specs[i], taxonomy) == Satisfied
    ensures ConstraintStatus(c, specs, taxonomy) == Satisfied
  {
    hide EvaluateConstraint;
  }

  lemma MemberIsSupported(specs: seq<ComponentSpec>, schema: bool, id: string, policy: NegotiationPolicy, s: Subject<SemVersion>,
                          range: VersionRange.Range, taxonomy: Taxonomy, i: nat)
    requires IsNegotiated(Precedence, MembersBy(ViewOf(schema, id), specs), policy, s) && s.status == Agreed
    requires VersionRange.Contains(range, s.selected.value) && i < |specs|
    ensures EvaluateConstraint(Requirement(schema, id, range), specs[i], taxonomy) == Satisfied
  {
    hide Precedence, VersionRange.Contains;
    var members, v, c := MembersBy(ViewOf(schema, id), specs), s.selected.value, specs[i];
    assert members[i] == ViewOf(schema, id)(c) && members[i].versions.Some?;
    assert Negotiation.Offers(Precedence, members[i].versions.value, v);
    if schema {
      OfferSatisfies(c.schemas, id, range, c.knowledge.schemasClosed, v);
    } else {
      OfferSatisfies(c.protocols, id, range, c.knowledge.protocolsClosed, v);
    }
  }

  /** The member named as the owner is the one whose support is known to be missing, or not known. */
  lemma OwnerLacksSupport(specs: seq<ComponentSpec>, schema: bool, id: string, policy: NegotiationPolicy, s: Subject<SemVersion>,
                          range: VersionRange.Range, taxonomy: Taxonomy)
    requires IsNegotiated(Precedence, MembersBy(ViewOf(schema, id), specs), policy, s)
    ensures s.owner.Some? ==>
      && s.owner.value < |specs|
      && EvaluateConstraint(Requirement(schema, id, range), specs[s.owner.value], taxonomy) ==
           (if s.status == NotSupported then Violated else Indeterminate)
      && s.status == if EvaluateConstraint(Requirement(schema, id, range), specs[s.owner.value], taxonomy) == Violated
                     then NotSupported else IsIndeterminate
    ensures s.owner.None? <==> s.status == Agreed || s.status == NoOverlap
  {
    hide Precedence;
    var members := MembersBy(ViewOf(schema, id), specs);
    if s.owner.Some? {
      var k := s.owner.value;
      assert members[k] == ViewOf(schema, id)(specs[k]) && members[k].versions.None?;
      assert forall j: nat :: StopsAt(Precedence, members, j) ==> j == k;
    }
  }

  /** No version of one precedence class is offered by all exactly when nothing is left of the window. */
  lemma OverlapMeansWindow(specs: seq<ComponentSpec>, schema: bool, id: string, policy: NegotiationPolicy, s: Subject<SemVersion>)
    requires IsNegotiated(Precedence, MembersBy(ViewOf(schema, id), specs), policy, s) && s.status == NoOverlap
    ensures s.window == [] || (policy == ExactRequired && exists v, w :: v in s.window && w in s.window && Precedence(v, w) != Equal)
  {
    var members := MembersBy(ViewOf(schema, id), specs);
    hide Precedence;
    if s.window != [] {
      var v, w :| CommonUpTo(Precedence, members, |members|, v) && CommonUpTo(Precedence, members, |members|, w)
                  && Precedence(v, w) != Equal;
      WindowHasBoth(s.window, v, w);
    }
  }

  lemma WindowHasBoth(window: seq<SemVersion>, v: SemVersion, w: SemVersion)
    requires Negotiation.Offers(Precedence, window, v) && Negotiation.Offers(Precedence, window, w) && Precedence(v, w) != Equal
    ensures exists x, y :: x in window && y in window && Precedence(x, y) != Equal
  {
    PrecedenceIsTotal();
    hide Precedence;
    var i :| 0 <= i < |window| && Precedence(window[i], v) == Equal;
    var j :| 0 <= j < |window| && Precedence(window[j], w) == Equal;
    assert Precedence(v, window[i]) == Equal;
    assert Composes(Precedence(v, window[i]), Precedence(window[i], window[j]), Precedence(v, window[j]));
    assert Composes(Precedence(v, window[j]), Precedence(window[j], w), Precedence(v, w));
    assert window[i] in window && window[j] in window;
  }
}
