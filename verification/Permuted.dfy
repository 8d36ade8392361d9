/** The verdict of the reachability analysis does not depend on the order of rules (src/validation.cpp). */
module Permuted {
  import opened Order
  import opened SemVer
  import opened Sorting
  import opened Rising
  import opened Intervals
  import opened Rules
  import opened Coverage
  import opened Validation
  import opened Reachability
  import opened Verdicts
  import VersionRange

  // ----- Grids of the same bounds -----

  ghost predicate BoundsHold(ivs: VersionRange.Range, c: Coord) {
    exists iv :: iv in ivs && (Ties(iv.low, c) || Ties(iv.high, c))
  }

  predicate Ties(b: Bound<SemVersion>, c: Coord) {
    b.At? && CompareCoord(Finite(b.value), c) == Equal
  }

  ghost predicate IsBound(ranges: seq<Option<VersionRange.Range>>, c: Coord) {
    exists r :: r in ranges && r.Some? && BoundsHold(r.value, c)
  }

  lemma AddCoordIff(coords: seq<Coord>, c: Coord, d: Coord)
    ensures HasCoord(AddCoord(coords, c), d) <==> HasCoord(coords, d) || CompareCoord(c, d) == Equal
  {
    CompareCoordIsTotal();
    if exists e :: e in coords && CompareCoord(e, c) == Equal {
      var e :| e in coords && CompareCoord(e, c) == Equal;
      assert Composes(CompareCoord(e, c), CompareCoord(c, d), CompareCoord(e, d));
    } else {
      assert c in coords + [c];
      if HasCoord(coords, d) {
        var e :| e in coords && CompareCoord(e, d) == Equal;
        assert e in coords + [c];
      }
    }
  }

  lemma AddBoundIff(coords: seq<Coord>, b: Bound<SemVersion>, d: Coord)
    ensures HasCoord(AddBound(coords, b), d) <==> HasCoord(coords, d) || Ties(b, d)
  {
    if b.At? { AddCoordIff(coords, Finite(b.value), d); }
    hide AddCoord, HasCoord;
  }

  lemma {:induction false} AddIntervalsIff(coords: seq<Coord>, ivs: VersionRange.Range, d: Coord)
    ensures HasCoord(AddIntervals(coords, ivs), d) <==> HasCoord(coords, d) || BoundsHold(ivs, d)
    decreases |ivs|
  {
    hide HasCoord, AddBound, Ties;
    if ivs != [] {
      AddBoundIff(coords, ivs[0].low, d);
      AddBoundIff(AddBound(coords, ivs[0].low), ivs[0].high, d);
      AddIntervalsIff(AddBound(AddBound(coords, ivs[0].low), ivs[0].high), ivs[1..], d);
      assert ivs == [ivs[0]] + ivs[1..];
    }
  }

  lemma {:induction false} AddRangesIff(coords: seq<Coord>, ranges: seq<Option<VersionRange.Range>>, d: Coord)
    ensures HasCoord(AddRanges(coords, ranges), d) <==> HasCoord(coords, d) || IsBound(ranges, d)
    decreases |ranges|
  {
    hide HasCoord, AddIntervals, BoundsHold;
    if ranges != [] {
      if ranges[0].Some? { AddIntervalsIff(coords, ranges[0].value, d); }
      AddRangesIff(AddRange(coords, ranges[0]), ranges[1..], d);
      assert ranges == [ranges[0]] + ranges[1..];
    }
  }

  /** The grid has the two infinities and every bound, and nothing else. */
  lemma GridIff(ranges: seq<Option<VersionRange.Range>>, d: Coord)
    ensures HasCoord(Grid(ranges), d) <==> !d.Finite? || IsBound(ranges, d)
  {
    var cs := AddRanges([NegInf, PosInf], ranges);
    AddRangesIff([NegInf, PosInf], ranges, d);
    SortMembers(CoordBefore, cs);
    assert NegInf in [NegInf, PosInf] && PosInf in [NegInf, PosInf];
    assert HasCoord([NegInf, PosInf], d) <==> !d.Finite? by {
      if d == NegInf { assert CompareCoord(NegInf, d) == Equal; }
      if d == PosInf { assert CompareCoord(PosInf, d) == Equal; }
    }
    assert HasCoord(Grid(ranges), d) <==> HasCoord(cs, d);
    hide IsBound, AddRanges, Grid, HasCoord;
    if !d.Finite? { InfinityIsNoBound(ranges, d); }
  }

  lemma InfinityIsNoBound(ranges: seq<Option<VersionRange.Range>>, d: Coord)
    requires !d.Finite?
    ensures !IsBound(ranges, d)
  {
  }

  /** Position by position the same, up to build metadata. */
  ghost predicate SameCoords(xs: seq<Coord>, ys: seq<Coord>) {
    |xs| == |ys| && forall i :: 0 <= i < |xs| ==> CompareCoord(xs[i], ys[i]) == Equal
  }

  ghost predicate SameMembers<T(!new)>(a: seq<T>, b: seq<T>) {
    forall x :: x in a <==> x in b
  }

  lemma GridIsCovered(a: seq<Option<VersionRange.Range>>, b: seq<Option<VersionRange.Range>>)
    requires SameMembers(a, b)
    ensures Covers(CompareCoord, Grid(a), Grid(b))
  {
    CompareCoordIsTotal();
    hide Grid;
    forall y | y in Grid(b) ensures exists x :: x in Grid(a) && CompareCoord(x, y) == Equal {
      GridIff(a, y);
      GridIff(b, y);
      assert HasCoord(Grid(b), y);
    }
  }

  lemma GridForgetsOrder(a: seq<Option<VersionRange.Range>>, b: seq<Option<VersionRange.Range>>)
    requires SameMembers(a, b)
    ensures SameCoords(Grid(a), Grid(b))
  {
    CompareCoordIsTotal();
    GridIsOk(a);
    GridIsOk(b);
    GridIsCovered(a, b);
    GridIsCovered(b, a);
    hide Grid, CompareCoord, Covers;
    assert forall i, j :: 0 <= i < j < |Grid(a)| ==> CoordBefore(Grid(a)[i], Grid(a)[j]);
    assert forall i, j :: 0 <= i < j < |Grid(b)| ==> CoordBefore(Grid(b)[i], Grid(b)[j]);
    RisingListsTie(CompareCoord, Grid(a), Grid(b));
  }

  // ----- Coverage on such grids -----

  lemma ReachesAlike(b: Bound<SemVersion>, c: Coord, d: Coord)
    requires CompareCoord(c, d) == Equal
    ensures LowReaches(b, c) == LowReaches(b, d) && HighReaches(b, c) == HighReaches(b, d)
  {
    PrecedenceIsTotal();
    if c.Finite? && b.At? {
      assert Composes(Precedence(c.version, d.version), Precedence(d.version, b.value), Precedence(c.version, b.value));
      assert Composes(Precedence(b.value, c.version), Precedence(c.version, d.version), Precedence(b.value, d.version));
    }
  }

  lemma CellsAlike(range: Option<VersionRange.Range>, lo: Coord, hi: Coord, low: Coord, high: Coord)
    requires CompareCoord(lo, low) == Equal && CompareCoord(hi, high) == Equal
    ensures RangeCoversCell(range, lo, hi) == RangeCoversCell(range, low, high)
  {
    assert (lo == PosInf <==> low == PosInf) && (hi == NegInf <==> high == NegInf);
    if range.Some? {
      forall i | 0 <= i < |range.value|
        ensures LowReaches(range.value[i].low, lo) == LowReaches(range.value[i].low, low)
        ensures HighReaches(range.value[i].high, hi) == HighReaches(range.value[i].high, high)
      {
        ReachesAlike(range.value[i].low, lo, low);
        ReachesAlike(range.value[i].high, hi, high);
      }
    }
    hide LowReaches, HighReaches, CompareCoord;
  }

  lemma InsideAlike(p: Plane, xs: seq<Coord>, ys: seq<Coord>, us: seq<Coord>, vs: seq<Coord>, i: nat, j: nat)
    requires SameCoords(xs, us) && SameCoords(ys, vs) && i + 1 < |xs| && j + 1 < |ys|
    ensures CellInside(p, xs, ys, i, j) == CellInside(p, us, vs, i, j)
  {
    hide RangeCoversCell, CompareCoord;
    CellsAlike(p.left, xs[i], xs[i + 1], us[i], us[i + 1]);
    CellsAlike(p.right, ys[j], ys[j + 1], vs[j], vs[j + 1]);
  }

  lemma CoveredAlike(c: seq<Plane>, d: seq<Plane>, xs: seq<Coord>, ys: seq<Coord>, us: seq<Coord>, vs: seq<Coord>, i: nat, j: nat)
    requires SameMembers(c, d) && SameCoords(xs, us) && SameCoords(ys, vs) && i + 1 < |xs| && j + 1 < |ys|
    ensures CellCovered(c, xs, ys, i, j) ==> CellCovered(d, us, vs, i, j)
  {
    hide CellInside, SameCoords;
    if CellCovered(c, xs, ys, i, j) {
      var k :| 0 <= k < |c| && CellInside(c[k], xs, ys, i, j);
      assert c[k] in d;
      var m :| 0 <= m < |d| && d[m] == c[k];
      assert |us| == |xs| && |vs| == |ys| by { SameLengths(xs, us); SameLengths(ys, vs); }
      InsideAlike(c[k], xs, ys, us, vs, i, j);
      assert CellInside(d[m], us, vs, i, j);
    }
  }

  lemma SameLengths(xs: seq<Coord>, ys: seq<Coord>)
    requires SameCoords(xs, ys)
    ensures |xs| == |ys| && SameCoords(ys, xs)
  {
    CompareCoordIsTotal();
    forall i | 0 <= i < |ys| ensures CompareCoord(ys[i], xs[i]) == Equal {
      assert CompareCoord(ys[i], xs[i]) == Flip(CompareCoord(xs[i], ys[i]));
    }
  }

  lemma OpenCellsAlike(target: Plane, c: seq<Plane>, d: seq<Plane>, xs: seq<Coord>, ys: seq<Coord>, us: seq<Coord>, vs: seq<Coord>)
    requires SameMembers(c, d) && SameCoords(xs, us) && SameCoords(ys, vs) && OpenCellsCovered(target, c, xs, ys)
    ensures OpenCellsCovered(target, d, us, vs)
  {
    hide CellInside, CellCovered, SameCoords;
    SameLengths(xs, us);
    SameLengths(ys, vs);
    forall i, j | 0 <= i < |us| - 1 && 0 <= j < |vs| - 1 && CellInside(target, us, vs, i, j)
      ensures CellCovered(d, us, vs, i, j)
    {
      InsideAlike(target, xs, ys, us, vs, i, j);
      CoveredAlike(c, d, xs, ys, us, vs, i, j);
    }
  }

  lemma LinesAlike(target: Plane, c: seq<Plane>, d: seq<Plane>)
    requires SameMembers(c, d)
    ensures SameMembers(Lefts(target, c), Lefts(target, d)) && SameMembers(Rights(target, c), Rights(target, d))
  {
    LinesWithin(target, c, d);
    LinesWithin(target, d, c);
  }

  lemma LinesWithin(target: Plane, c: seq<Plane>, d: seq<Plane>)
    requires SameMembers(c, d)
    ensures forall r :: r in Lefts(target, c) ==> r in Lefts(target, d)
    ensures forall r :: r in Rights(target, c) ==> r in Rights(target, d)
  {
    forall k | 0 <= k < |c| ensures c[k].left in Lefts(target, d) && c[k].right in Rights(target, d) {
      assert c[k] in d;
      var m :| 0 <= m < |d| && d[m] == c[k];
      assert Lefts(target, d)[m + 1] == d[m].left && Rights(target, d)[m + 1] == d[m].right;
    }
    assert Lefts(target, d)[0] == target.left && Rights(target, d)[0] == target.right;
    forall r | r in Lefts(target, c) ensures r in Lefts(target, d) {
      var k :| 0 <= k < |Lefts(target, c)| && Lefts(target, c)[k] == r;
    }
    forall r | r in Rights(target, c) ensures r in Rights(target, d) {
      var k :| 0 <= k < |Rights(target, c)| && Rights(target, c)[k] == r;
    }
  }

  /** The coverage of a plane depends on which candidates there are, not on their order. */
  lemma CoverageForgetsOrder(target: Plane, c: seq<Plane>, d: seq<Plane>, maxCells: nat)
    requires SameMembers(c, d)
    ensures VersionPlaneCovered(target, c, maxCells) == VersionPlaneCovered(target, d, maxCells)
  {
    var xs, ys := Grid(Lefts(target, c)), Grid(Rights(target, c));
    var us, vs := Grid(Lefts(target, d)), Grid(Rights(target, d));
    LinesAlike(target, c, d);
    hide Grid, SameCoords, OpenCellsCovered, Lefts, Rights;
    GridForgetsOrder(Lefts(target, c), Lefts(target, d));
    GridForgetsOrder(Rights(target, c), Rights(target, d));
    SameLengths(xs, us);
    SameLengths(ys, vs);
    if OpenCellsCovered(target, c, xs, ys) { OpenCellsAlike(target, c, d, xs, ys, us, vs); }
    if OpenCellsCovered(target, d, us, vs) { OpenCellsAlike(target, d, c, us, vs, xs, ys); }
  }

  // ----- Rules in another order -----

  lemma CandidatesWithin(over: seq<Rule>, other: seq<Rule>, box: RuleBox, pair: bool)
    requires SameMembers(over, other)
    ensures forall p :: p in Candidates(over, box, pair) ==> p in Candidates(other, box, pair)
  {
    hide Candidates, RuleOrientations, BoxSubsumesModuloVersion;
    forall p | p in Candidates(over, box, pair) ensures p in Candidates(other, box, pair) {
      var s, b := CandidateOrigin(over, box, pair, p);
      BoxIsCandidate(other, box, pair, s, b);
    }
  }

  lemma {:induction false} RegionForgetsOrder(target: Rule, over: seq<Rule>, other: seq<Rule>, boxes: seq<RuleBox>, maxCells: nat)
    requires SameMembers(over, other)
    ensures RegionCovered(target, over, boxes, maxCells) == RegionCovered(target, other, boxes, maxCells)
  {
    hide Candidates, VersionPlaneCovered;
    if boxes != [] {
      CandidatesWithin(over, other, boxes[0], target.arity == Pair);
      CandidatesWithin(other, over, boxes[0], target.arity == Pair);
      CoverageForgetsOrder(PlaneOf(boxes[0]), Candidates(over, boxes[0], target.arity == Pair),
                           Candidates(other, boxes[0], target.arity == Pair), maxCells);
      RegionForgetsOrder(target, over, other, boxes[1..], maxCells);
    }
  }

  lemma ShadowersForgetOrder(rules: seq<Rule>, index: nat, others: seq<Rule>, place: nat)
    requires index < |rules| && place < |others| && rules[index] == others[place] && multiset(rules) == multiset(others)
    ensures multiset(ShadowersOf(rules, index)) == multiset(ShadowersOf(others, place))
  {
    hide ShadowersUpTo, Shadows;
    assert rules[..|rules|] == rules && others[..|others|] == others;
    forall s ensures multiset(ShadowersOf(rules, index))[s] == multiset(ShadowersOf(others, place))[s] {
      ShadowersAreAll(rules, index, |rules|, s);
      ShadowersAreAll(others, place, |others|, s);
    }
  }

  lemma SameMultisetSameMembers<T(!new)>(a: seq<T>, b: seq<T>)
    requires multiset(a) == multiset(b)
    ensures |a| == |b| && SameMembers(a, b)
  {
    assert |multiset(a)| == |a| && |multiset(b)| == |b|;
    forall x ensures x in a <==> x in b {
      assert x in a <==> x in multiset(a);
      assert x in b <==> x in multiset(b);
    }
  }

  /** Wherever a rule and the others stand in the document, the verdict on it is the same. */
  lemma VerdictForgetsOrder(rules: seq<Rule>, index: nat, others: seq<Rule>, place: nat, options: ValidationOptions)
    requires index < |rules| && place < |others| && rules[index] == others[place] && multiset(rules) == multiset(others)
    ensures ReachOf(rules, index, options) == ReachOf(others, place, options)
  {
    hide ShadowersUpTo, RegionCovered, RuleOrientations, SameMembers;
    ShadowersForgetOrder(rules, index, others, place);
    SameMultisetSameMembers(ShadowersOf(rules, index), ShadowersOf(others, place));
    RegionForgetsOrder(rules[index], ShadowersOf(rules, index), ShadowersOf(others, place), RuleOrientations(rules[index]),
                       options.maxReachabilityCells);
  }
}
