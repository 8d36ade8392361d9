/** Version ranges: interval unions over precedence, with prerelease admission (src/version.cpp). */
module VersionRange {
  import opened Order
  import opened SemVer
  import opened Intervals

  type VersionInterval = Interval<SemVersion>
  type Range = seq<VersionInterval>

  predicate SameTuple(a: SemVersion, b: SemVersion) {
    a.major == b.major && a.minor == b.minor && a.patch == b.patch
  }

  /** A prerelease enters only past a start that is a prerelease of the same release. */
  predicate AdmitsPrerelease(low: Bound<SemVersion>, v: SemVersion) {
    low.At? && low.value.HasPrerelease() && SameTuple(low.value, v)
  }

  predicate IntervalContains(iv: VersionInterval, v: SemVersion) {
    ContainsBound(Precedence, iv, v) && (v.HasPrerelease() ==> AdmitsPrerelease(iv.low, v))
  }

  predicate Contains(r: Range, v: SemVersion) {
    exists i :: 0 <= i < |r| && IntervalContains(r[i], v)
  }

  predicate IsAny(r: Range) {
    |r| == 1 && !r[0].low.At? && !r[0].high.At?
  }

  predicate IsExact(r: Range) {
    |r| == 1 && IsExactInterval(Precedence, r[0])
  }

  ghost predicate CanonicalRange(r: Range) {
    Canonical(Precedence, r)
  }

  /** The source's membership loop. */
  method ComputeContains(r: Range, v: SemVersion) returns (found: bool)
    ensures found == Contains(r, v)
  {
    for i := 0 to |r|
      invariant forall k :: 0 <= k < i ==> !IntervalContains(r[k], v)
    {
      if IntervalContains(r[i], v) { return true; }
    }
    return false;
  }

  /** Without a prerelease, membership is bound membership. */
  lemma ReleaseMembership(r: Range, v: SemVersion)
    ensures Contains(r, v) ==> InUnion(Precedence, r, v)
    ensures !v.HasPrerelease() ==> (Contains(r, v) <==> InUnion(Precedence, r, v))
  {
    if Contains(r, v) {
      var i :| 0 <= i < |r| && IntervalContains(r[i], v);
      assert ContainsBound(Precedence, r[i], v);
    }
    if InUnion(Precedence, r, v) && !v.HasPrerelease() {
      var i :| 0 <= i < |r| && ContainsBound(Precedence, r[i], v);
      assert IntervalContains(r[i], v);
    }
  }

  /** Between a same-release prerelease start and a prerelease lies only that release line. */
  lemma LaterStartAdmits(early: Bound<SemVersion>, late: Bound<SemVersion>, v: SemVersion)
    requires LowLe(Precedence, early, late) && LowAdmits(Precedence, late, v)
    requires v.HasPrerelease() && AdmitsPrerelease(early, v)
    ensures AdmitsPrerelease(late, v)
  {
  }

  lemma MeetAdmits(x: VersionInterval, y: VersionInterval, v: SemVersion)
    requires v.HasPrerelease()
    requires ContainsBound(Precedence, x, v) && ContainsBound(Precedence, y, v)
    ensures AdmitsPrerelease(Meet(Precedence, x, y).low, v) <==> AdmitsPrerelease(x.low, v) || AdmitsPrerelease(y.low, v)
  {
    PrecedenceIsTotal();
    var low := Meet(Precedence, x, y).low;
    assert LowLe(Precedence, x.low, low) && LowLe(Precedence, y.low, low);
    MeetExact(Precedence, x, y, v);
    if AdmitsPrerelease(x.low, v) { LaterStartAdmits(x.low, low, v); }
    if AdmitsPrerelease(y.low, v) { LaterStartAdmits(y.low, low, v); }
  }

  /** The interval of a canonical range a version lies in is the only one. */
  lemma OnlyOneInterval(r: Range, i: nat, j: nat, v: SemVersion)
    requires CanonicalRange(r) && i < |r| && j < |r|
    requires ContainsBound(Precedence, r[i], v) && ContainsBound(Precedence, r[j], v)
    ensures i == j
  {
    PrecedenceIsTotal();
  }

  /**
   * Exactly which versions an intersection admits: those within both ranges' bounds that at
   * least one of the two admits. On release versions that is plain intersection.
   */
  lemma IntersectContains(a: Range, b: Range, v: SemVersion)
    requires CanonicalRange(a) && CanonicalRange(b)
    ensures CanonicalRange(Intersect(Precedence, a, b))
    ensures Contains(Intersect(Precedence, a, b), v)
            <==> InUnion(Precedence, a, v) && InUnion(Precedence, b, v) && (Contains(a, v) || Contains(b, v))
    ensures !v.HasPrerelease() ==> (Contains(Intersect(Precedence, a, b), v) <==> Contains(a, v) && Contains(b, v))
  {
    PrecedenceIsTotal();
    var r := Intersect(Precedence, a, b);
    IntersectExact(Precedence, a, b);
    ReleaseMembership(r, v);
    ReleaseMembership(a, v);
    ReleaseMembership(b, v);
    if v.HasPrerelease() && InUnion(Precedence, r, v) {
      var k :| 0 <= k < |r| && ContainsBound(Precedence, r[k], v);
      IntersectIsSweep(Precedence, a, b);
      var p, q := SweepMeets(Precedence, a, b, k);
      MeetExact(Precedence, a[p], b[q], v);
      MeetAdmits(a[p], b[q], v);
      OnlyHomeAdmits(r, k, v);
      OnlyHomeAdmits(a, p, v);
      OnlyHomeAdmits(b, q, v);
    }
  }

  lemma OnlyHomeAdmits(r: Range, k: nat, v: SemVersion)
    requires CanonicalRange(r) && k < |r| && ContainsBound(Precedence, r[k], v)
    ensures Contains(r, v) <==> IntervalContains(r[k], v)
  {
    if Contains(r, v) {
      var i :| 0 <= i < |r| && IntervalContains(r[i], v);
      OnlyOneInterval(r, i, k, v);
    }
  }

  // ----- Which versions a union admits -----

  /** A prerelease gets in through a start that admits it and that no interval runs up to from before. */
  predicate Entered(ivs: Range, v: SemVersion) {
    exists k :: 0 <= k < |ivs| && EntersAt(ivs, k, v)
  }

  predicate EntersAt(ivs: Range, k: nat, v: SemVersion)
    requires k < |ivs|
  {
    && !StructurallyEmpty(Precedence, ivs[k])
    && AdmitsPrerelease(ivs[k].low, v) && LowAdmits(Precedence, ivs[k].low, v)
    && AllClearOf(Precedence, ivs[k].low, ivs)
  }

  lemma NotPastItsStart(iv: VersionInterval, start: Bound<SemVersion>, v: SemVersion)
    requires ClearOf(Precedence, start, iv) && LowAdmits(Precedence, start, v) && ContainsBound(Precedence, iv, v)
    ensures LowLe(Precedence, start, iv.low)
  {
    PrecedenceIsTotal();
    hide Precedence, LowLe, Gap, HighAdmits, LowAdmits;
    if Gap(Precedence, iv.high, start) { GapSeparates(Precedence, iv.high, start, v); }
  }

  /** What the merge admits of prereleases. */
  lemma MergedAdmitsIff(ivs: Range, v: SemVersion)
    requires v.HasPrerelease()
    ensures Contains(FromIntervals(Precedence, ivs), v) <==> InUnion(Precedence, ivs, v) && Entered(ivs, v)
  {
    PrecedenceIsTotal();
    var r := FromIntervals(Precedence, ivs);
    FromIntervalsExact(Precedence, ivs);
    hide FromIntervals, Precedence, AdmitsPrerelease, LowAdmits, HighAdmits, ClearOf, LowLe, StructurallyEmpty, Canonical;
    if Contains(r, v) {
      var j :| 0 <= j < |r| && IntervalContains(r[j], v);
      assert ContainsBound(Precedence, r[j], v);
      var k := FromIntervalsStarts(Precedence, ivs, j);
      assert EntersAt(ivs, k, v);
    }
    if InUnion(Precedence, ivs, v) && Entered(ivs, v) {
      var j :| 0 <= j < |r| && ContainsBound(Precedence, r[j], v);
      var k :| 0 <= k < |ivs| && EntersAt(ivs, k, v);
      FromIntervalsStaysClear(Precedence, ivs[k].low, ivs);
      NotPastItsStart(r[j], ivs[k].low, v);
      LaterStartAdmits(ivs[k].low, r[j].low, v);
      assert IntervalContains(r[j], v);
    }
  }

  /** Where a prerelease enters, every interval it lies in admits it. */
  lemma EnteredIsAdmitted(ivs: Range, v: SemVersion)
    requires v.HasPrerelease() && InUnion(Precedence, ivs, v) && Entered(ivs, v)
    ensures Contains(ivs, v)
  {
    PrecedenceIsTotal();
    var k :| 0 <= k < |ivs| && EntersAt(ivs, k, v);
    var i :| 0 <= i < |ivs| && ContainsBound(Precedence, ivs[i], v);
    if StructurallyEmpty(Precedence, ivs[i]) { EmptyHasNoMember(Precedence, ivs[i], v); }
    hide Precedence, AdmitsPrerelease, StructurallyEmpty, ClearOf;
    NotPastItsStart(ivs[i], ivs[k].low, v);
    LaterStartAdmits(ivs[k].low, ivs[i].low, v);
    assert IntervalContains(ivs[i], v);
  }

  /** Merging admits exactly what the intervals admit, releases all of it, prereleases where they enter. */
  lemma MergeContains(ivs: Range, v: SemVersion)
    ensures Contains(FromIntervals(Precedence, ivs), v) <==> Contains(ivs, v) && (v.HasPrerelease() ==> Entered(ivs, v))
  {
    ReleaseMembership(ivs, v);
    hide FromIntervals, Contains, InUnion, Entered;
    if v.HasPrerelease() {
      MergedAdmitsIff(ivs, v);
      if InUnion(Precedence, ivs, v) && Entered(ivs, v) { EnteredIsAdmitted(ivs, v); }
    } else {
      PrecedenceIsTotal();
      FromIntervalsExact(Precedence, ivs);
      ReleaseMembership(FromIntervals(Precedence, ivs), v);
    }
  }

  lemma ContainsOfConcat(a: Range, b: Range, v: SemVersion)
    ensures Contains(a + b, v) <==> Contains(a, v) || Contains(b, v)
  {
    hide IntervalContains;
    if Contains(a, v) {
      var i :| 0 <= i < |a| && IntervalContains(a[i], v);
      assert (a + b)[i] == a[i];
    }
    if Contains(b, v) {
      var i :| 0 <= i < |b| && IntervalContains(b[i], v);
      assert (a + b)[|a| + i] == b[i];
    }
  }

  /**
   * Exactly which versions a union admits: it never gains one, and loses a prerelease that a
   * part admits exactly when every start that admits it is run over by an interval from before.
   */
  lemma UnionContainsIff(a: Range, b: Range, v: SemVersion)
    ensures Contains(Union(Precedence, a, b), v) <==>
            (Contains(a, v) || Contains(b, v)) && (v.HasPrerelease() ==> Entered(a + b, v))
  {
    MergeContains(a + b, v);
    ContainsOfConcat(a, b, v);
  }

  /** Union is exact on release versions. */
  lemma UnionContains(a: Range, b: Range, v: SemVersion)
    requires !v.HasPrerelease()
    ensures CanonicalRange(Union(Precedence, a, b))
    ensures Contains(Union(Precedence, a, b), v) <==> Contains(a, v) || Contains(b, v)
  {
    PrecedenceIsTotal();
    UnionExact(Precedence, a, b);
    ReleaseMembership(Union(Precedence, a, b), v);
    ReleaseMembership(a, v);
    ReleaseMembership(b, v);
  }

  /** No version of either kind is in two ranges that do not overlap. */
  lemma DisjointRanges(a: Range, b: Range, v: SemVersion)
    requires CanonicalRange(a) && CanonicalRange(b)
    requires !Overlaps(Precedence, a, b)
    ensures !(Contains(a, v) && Contains(b, v))
  {
    PrecedenceIsTotal();
    NoOverlapMeansDisjoint(Precedence, a, b, v);
    ReleaseMembership(a, v);
    ReleaseMembership(b, v);
  }

  const EARLY: VersionInterval := Interval(At(Release(0, 5, 0), true), At(Release(1, 5, 0), false))
  const LATE: VersionInterval := Interval(At(Release(1, 0, 0).(prerelease := ["a"]), true), At(Release(2, 0, 0), false))

  lemma UnionOfLateAndEarly()
    ensures Union(Precedence, [LATE], [EARLY]) == [Interval(EARLY.low, LATE.high)]
  {
    var both := [LATE, EARLY];
    assert [LATE] + [EARLY] == both && both[..1] == [LATE] && [LATE][..0] == [];
    assert DropEmpty(Precedence, [LATE]) == [LATE];
    assert DropEmpty(Precedence, both) == both;
    assert both[1..] == [EARLY] && [EARLY][1..] == [];
    assert Sorting.Sort(SortOrder(Precedence), [EARLY]) == [EARLY];
    assert Sorting.Insert(SortOrder(Precedence), LATE, [EARLY]) == [EARLY] + Sorting.Insert(SortOrder(Precedence), LATE, []);
    assert [EARLY, LATE][..1] == [EARLY] && [EARLY][..0] == [];
    assert Merge(Precedence, [EARLY]) == [EARLY];
  }

  /** On prereleases a union can admit less than its parts: the merged start has changed. */
  lemma UnionCanLosePrerelease()
    ensures var v := Release(1, 0, 0).(prerelease := ["b"]);
            CanonicalRange([LATE]) && CanonicalRange([EARLY])
            && Contains([LATE], v) && !Contains(Union(Precedence, [LATE], [EARLY]), v)
  {
    UnionOfLateAndEarly();
    assert Lex(CompareChar, "b", "a") == Greater;
    assert CompareIdentifier("b", "a") == Greater;
    assert IntervalContains([LATE][0], Release(1, 0, 0).(prerelease := ["b"]));
  }
}
