/** Interval unions over any total preorder (the algebra of src/version.cpp). */
module Intervals {
  import opened Order
  import opened Sorting

  /** An absent bound is infinite; the inclusive flag of an absent bound plays no part. */
  datatype Bound<T> = Unbounded | At(value: T, inclusive: bool)

  datatype Interval<T> = Interval(low: Bound<T>, high: Bound<T>)

  function ExactInterval<T>(v: T): Interval<T> {
    Interval(At(v, true), At(v, true))
  }

  predicate LowAdmits<T>(cmp: (T, T) -> Ordering, low: Bound<T>, v: T) {
    low.At? ==> cmp(v, low.value) == Greater || (cmp(v, low.value) == Equal && low.inclusive)
  }

  predicate HighAdmits<T>(cmp: (T, T) -> Ordering, high: Bound<T>, v: T) {
    high.At? ==> cmp(v, high.value) == Less || (cmp(v, high.value) == Equal && high.inclusive)
  }

  predicate ContainsBound<T>(cmp: (T, T) -> Ordering, iv: Interval<T>, v: T) {
    LowAdmits(cmp, iv.low, v) && HighAdmits(cmp, iv.high, v)
  }

  predicate StructurallyEmpty<T>(cmp: (T, T) -> Ordering, iv: Interval<T>) {
    && iv.low.At? && iv.high.At?
    && (cmp(iv.low.value, iv.high.value) == Greater
        || (cmp(iv.low.value, iv.high.value) == Equal && !(iv.low.inclusive && iv.high.inclusive)))
  }

  predicate IsExactInterval<T>(cmp: (T, T) -> Ordering, iv: Interval<T>) {
    && iv.low.At? && iv.high.At? && iv.low.inclusive && iv.high.inclusive
    && cmp(iv.low.value, iv.high.value) == Equal
  }

  ghost predicate InUnion<T>(cmp: (T, T) -> Ordering, ivs: seq<Interval<T>>, v: T) {
    exists i :: 0 <= i < |ivs| && ContainsBound(cmp, ivs[i], v)
  }

  /** Some value could still lie between the end of one interval and the start of the next. */
  predicate Gap<T>(cmp: (T, T) -> Ordering, high: Bound<T>, low: Bound<T>) {
    && high.At? && low.At?
    && (cmp(high.value, low.value) == Less
        || (cmp(high.value, low.value) == Equal && !high.inclusive && !low.inclusive))
  }

  /** Canonical unions: non-empty intervals, in order, no two of them touching. */
  ghost predicate Canonical<T>(cmp: (T, T) -> Ordering, ivs: seq<Interval<T>>) {
    && (forall i :: 0 <= i < |ivs| ==> !StructurallyEmpty(cmp, ivs[i]))
    && (forall i, j :: 0 <= i < j < |ivs| ==> Gap(cmp, ivs[i].high, ivs[j].low))
  }

  // ----- FromIntervals -----

  /** The sort order: by low bound, then the longer-reaching interval by high bound. */
  predicate SortsBefore<T>(cmp: (T, T) -> Ordering, a: Interval<T>, b: Interval<T>) {
    if a.low.At? != b.low.At? then !a.low.At?
    else if a.low.At? && cmp(a.low.value, b.low.value) != Equal then cmp(a.low.value, b.low.value) == Less
    else if a.low.At? && a.low.inclusive != b.low.inclusive then a.low.inclusive
    else if a.high.At? != b.high.At? then !a.high.At?
    else if a.high.At? && cmp(a.high.value, b.high.value) != Equal then cmp(a.high.value, b.high.value) == Less
    else if a.high.At? && a.high.inclusive != b.high.inclusive then !a.high.inclusive
    else false
  }

  function SortOrder<T>(cmp: (T, T) -> Ordering): (Interval<T>, Interval<T>) -> bool {
    (a, b) => SortsBefore(cmp, a, b)
  }

  function DropEmpty<T>(cmp: (T, T) -> Ordering, ivs: seq<Interval<T>>): seq<Interval<T>> {
    if ivs == [] then []
    else if StructurallyEmpty(cmp, ivs[|ivs| - 1]) then DropEmpty(cmp, ivs[..|ivs| - 1])
    else DropEmpty(cmp, ivs[..|ivs| - 1]) + [ivs[|ivs| - 1]]
  }

  predicate Joins<T>(cmp: (T, T) -> Ordering, cur: Interval<T>, iv: Interval<T>) {
    !cur.high.At? || !iv.low.At?
    || cmp(cur.high.value, iv.low.value) == Greater
    || (cmp(cur.high.value, iv.low.value) == Equal && (cur.high.inclusive || iv.low.inclusive))
  }

  function Extend<T>(cmp: (T, T) -> Ordering, cur: Interval<T>, iv: Interval<T>): Interval<T> {
    if !cur.high.At? || !iv.high.At? then cur.(high := Unbounded)
    else match cmp(cur.high.value, iv.high.value)
      case Less => cur.(high := iv.high)
      case Equal => cur.(high := At(cur.high.value, cur.high.inclusive || iv.high.inclusive))
      case Greater => cur
  }

  function Absorb<T>(cmp: (T, T) -> Ordering, merged: seq<Interval<T>>, iv: Interval<T>): seq<Interval<T>> {
    if merged == [] then [iv]
    else
      var last := |merged| - 1;
      if Joins(cmp, merged[last], iv) then merged[last := Extend(cmp, merged[last], iv)]
      else merged + [iv]
  }

  function Merge<T>(cmp: (T, T) -> Ordering, kept: seq<Interval<T>>): seq<Interval<T>> {
    if kept == [] then [] else Absorb(cmp, Merge(cmp, kept[..|kept| - 1]), kept[|kept| - 1])
  }

  function FromIntervals<T>(cmp: (T, T) -> Ordering, ivs: seq<Interval<T>>): seq<Interval<T>> {
    Merge(cmp, Sort(SortOrder(cmp), DropEmpty(cmp, ivs)))
  }

  /** The source's filter, sort and merge loop over a growing vector. */
  method ComputeFromIntervals<T>(cmp: (T, T) -> Ordering, ivs: seq<Interval<T>>) returns (merged: seq<Interval<T>>)
    ensures merged == FromIntervals(cmp, ivs)
  {
    var kept := [];
    for i := 0 to |ivs|
      invariant kept == DropEmpty(cmp, ivs[..i])
    {
      assert ivs[..i + 1][..i] == ivs[..i];
      if !StructurallyEmpty(cmp, ivs[i]) { kept := kept + [ivs[i]]; }
    }
    assert ivs[..|ivs|] == ivs;
    kept := Sort(SortOrder(cmp), kept);
    merged := [];
    for i := 0 to |kept|
      invariant merged == Merge(cmp, kept[..i])
    {
      assert kept[..i + 1][..i] == kept[..i];
      var iv := kept[i];
      if merged == [] {
        merged := [iv];
        continue;
      }
      var cur := merged[|merged| - 1];
      var join := false;
      if !cur.high.At? {
        join := true;
      } else if !iv.low.At? {
        join := true;
      } else {
        var c := cmp(cur.high.value, iv.low.value);
        if c == Greater {
          join := true;
        } else if c == Equal {
          join := cur.high.inclusive || iv.low.inclusive;
        }
      }
      if !join {
        merged := merged + [iv];
        continue;
      }
      if !cur.high.At? || !iv.high.At? {
        cur := cur.(high := Unbounded);
      } else {
        var c := cmp(cur.high.value, iv.high.value);
        if c == Less {
          cur := cur.(high := iv.high);
        } else if c == Equal {
          cur := cur.(high := At(cur.high.value, cur.high.inclusive || iv.high.inclusive));
        }
      }
      merged := merged[|merged| - 1 := cur];
    }
    assert kept[..|kept|] == kept;
  }

  lemma SortOrderIsWeak<T(!new)>(cmp: (T, T) -> Ordering)
    requires TotalPreorder(cmp)
    ensures StrictWeakOrder(SortOrder(cmp))
  {
  }

  lemma {:induction false} DropEmptyExact<T(!new)>(cmp: (T, T) -> Ordering, ivs: seq<Interval<T>>)
    ensures forall iv :: iv in DropEmpty(cmp, ivs) <==> iv in ivs && !StructurallyEmpty(cmp, iv)
  {
    if ivs != [] {
      var n := |ivs| - 1;
      DropEmptyExact(cmp, ivs[..n]);
      assert ivs == ivs[..n] + [ivs[n]];
    }
  }

  /** One low bound admits everything another does. */
  predicate LowLe<T>(cmp: (T, T) -> Ordering, a: Bound<T>, b: Bound<T>) {
    a.At? ==> b.At? && (cmp(a.value, b.value) == Less
                        || (cmp(a.value, b.value) == Equal && (a.inclusive || !b.inclusive)))
  }

  lemma GapBelowLater<T(!new)>(cmp: (T, T) -> Ordering, high: Bound<T>, low: Bound<T>, later: Bound<T>)
    requires TotalPreorder(cmp)
    requires Gap(cmp, high, low) && LowLe(cmp, low, later)
    ensures Gap(cmp, high, later)
  {
  }

  lemma AbsorbExact<T(!new)>(cmp: (T, T) -> Ordering, cur: Interval<T>, iv: Interval<T>, v: T)
    requires TotalPreorder(cmp)
    requires LowLe(cmp, cur.low, iv.low) && Joins(cmp, cur, iv)
    ensures ContainsBound(cmp, Extend(cmp, cur, iv), v) <==> ContainsBound(cmp, cur, v) || ContainsBound(cmp, iv, v)
  {
  }

  lemma ExtendKeepsNonEmpty<T(!new)>(cmp: (T, T) -> Ordering, cur: Interval<T>, iv: Interval<T>)
    requires TotalPreorder(cmp)
    requires !StructurallyEmpty(cmp, cur)
    ensures !StructurallyEmpty(cmp, Extend(cmp, cur, iv))
  {
  }

  /** One step of the merge loop: the list stays canonical and its last start is kept or is the new one. */
  lemma AbsorbCanonical<T(!new)>(cmp: (T, T) -> Ordering, before: seq<Interval<T>>, iv: Interval<T>)
    requires TotalPreorder(cmp)
    requires Canonical(cmp, before) && !StructurallyEmpty(cmp, iv)
    requires before != [] ==> LowLe(cmp, before[|before| - 1].low, iv.low)
    ensures Canonical(cmp, Absorb(cmp, before, iv))
  {
    if before != [] {
      var last := before[|before| - 1];
      if Joins(cmp, last, iv) {
        ExtendKeepsNonEmpty(cmp, last, iv);
      } else {
        forall i | 0 <= i < |before| ensures Gap(cmp, before[i].high, iv.low) {
          if i < |before| - 1 { GapBelowLater(cmp, before[i].high, last.low, iv.low); }
        }
      }
    }
  }

  lemma AbsorbUnion<T(!new)>(cmp: (T, T) -> Ordering, before: seq<Interval<T>>, iv: Interval<T>, v: T)
    requires TotalPreorder(cmp)
    requires before != [] ==> LowLe(cmp, before[|before| - 1].low, iv.low)
    ensures InUnion(cmp, Absorb(cmp, before, iv), v) <==> InUnion(cmp, before, v) || ContainsBound(cmp, iv, v)
  {
    UnionAppend(cmp, before, iv, v);
    if before != [] {
      var n := |before| - 1;
      var last := before[n];
      if Joins(cmp, last, iv) {
        AbsorbExact(cmp, last, iv, v);
        UnionAppend(cmp, before[..n], last, v);
        UnionAppend(cmp, before[..n], Extend(cmp, last, iv), v);
        assert before == before[..n] + [last];
        assert Absorb(cmp, before, iv) == before[..n] + [Extend(cmp, last, iv)];
      }
    }
  }

  lemma UnionAppend<T(!new)>(cmp: (T, T) -> Ordering, a: seq<Interval<T>>, iv: Interval<T>, v: T)
    ensures InUnion(cmp, a + [iv], v) <==> InUnion(cmp, a, v) || ContainsBound(cmp, iv, v)
  {
    UnionOfConcat(cmp, a, [iv], v);
    if ContainsBound(cmp, iv, v) { assert ContainsBound(cmp, [iv][0], v); }
  }

  /** What the merge loop keeps: a canonical list, with a last start that was read. */
  lemma {:induction false} MergeCanonical<T(!new)>(cmp: (T, T) -> Ordering, kept: seq<Interval<T>>)
    requires TotalPreorder(cmp)
    requires forall i :: 0 <= i < |kept| ==> !StructurallyEmpty(cmp, kept[i])
    requires forall i, j :: 0 <= i < j < |kept| ==> LowLe(cmp, kept[i].low, kept[j].low)
    ensures Canonical(cmp, Merge(cmp, kept))
    ensures Merge(cmp, kept) != [] ==>
              exists k :: 0 <= k < |kept| && Merge(cmp, kept)[|Merge(cmp, kept)| - 1].low == kept[k].low
  {
    if kept != [] {
      var n := |kept| - 1;
      var before, iv := Merge(cmp, kept[..n]), kept[n];
      MergeCanonical(cmp, kept[..n]);
      if before != [] {
        var k :| 0 <= k < n && before[|before| - 1].low == kept[..n][k].low;
        assert LowLe(cmp, kept[k].low, iv.low);
        assert Absorb(cmp, before, iv)[|Absorb(cmp, before, iv)| - 1].low in [kept[k].low, kept[n].low];
      }
      AbsorbCanonical(cmp, before, iv);
    }
  }

  lemma LastStartIsEarlier<T(!new)>(cmp: (T, T) -> Ordering, kept: seq<Interval<T>>)
    requires TotalPreorder(cmp) && kept != []
    requires forall i :: 0 <= i < |kept| ==> !StructurallyEmpty(cmp, kept[i])
    requires forall i, j :: 0 <= i < j < |kept| ==> LowLe(cmp, kept[i].low, kept[j].low)
    ensures var before := Merge(cmp, kept[..|kept| - 1]);
            before != [] ==> LowLe(cmp, before[|before| - 1].low, kept[|kept| - 1].low)
  {
    var n := |kept| - 1;
    var before := Merge(cmp, kept[..n]);
    MergeCanonical(cmp, kept[..n]);
    if before != [] {
      var k :| 0 <= k < n && before[|before| - 1].low == kept[..n][k].low;
      assert LowLe(cmp, kept[k].low, kept[n].low);
    }
  }

  lemma {:induction false} MergeUnion<T(!new)>(cmp: (T, T) -> Ordering, kept: seq<Interval<T>>, v: T)
    requires TotalPreorder(cmp)
    requires forall i :: 0 <= i < |kept| ==> !StructurallyEmpty(cmp, kept[i])
    requires forall i, j :: 0 <= i < j < |kept| ==> LowLe(cmp, kept[i].low, kept[j].low)
    ensures InUnion(cmp, Merge(cmp, kept), v) <==> InUnion(cmp, kept, v)
  {
    if kept != [] {
      var n := |kept| - 1;
      var before, iv := Merge(cmp, kept[..n]), kept[n];
      MergeUnion(cmp, kept[..n], v);
      LastStartIsEarlier(cmp, kept);
      AbsorbUnion(cmp, before, iv, v);
      UnionAppend(cmp, kept[..n], iv, v);
      assert kept == kept[..n] + [iv];
    }
  }

  /** FromIntervals is canonical and has exactly the members of its input. */
  lemma FromIntervalsExact<T(!new)>(cmp: (T, T) -> Ordering, ivs: seq<Interval<T>>)
    requires TotalPreorder(cmp)
    ensures Canonical(cmp, FromIntervals(cmp, ivs))
    ensures forall v :: InUnion(cmp, FromIntervals(cmp, ivs), v) <==> InUnion(cmp, ivs, v)
  {
    var kept := KeptInOrder(cmp, ivs);
    MergeCanonical(cmp, kept);
    forall v ensures InUnion(cmp, FromIntervals(cmp, ivs), v) <==> InUnion(cmp, ivs, v) {
      MergeUnion(cmp, kept, v);
      SameMembers(cmp, kept, ivs, v);
    }
  }

  // ----- Where merged intervals start -----

  /** The interval starts no earlier than the given start, or ends with a gap before it. */
  predicate ClearOf<T>(cmp: (T, T) -> Ordering, start: Bound<T>, iv: Interval<T>) {
    LowLe(cmp, start, iv.low) || Gap(cmp, iv.high, start)
  }

  /** No interval runs up to the start from before it; empty ones do not matter. */
  predicate AllClearOf<T>(cmp: (T, T) -> Ordering, start: Bound<T>, ivs: seq<Interval<T>>) {
    forall i :: 0 <= i < |ivs| && !StructurallyEmpty(cmp, ivs[i]) ==> ClearOf(cmp, start, ivs[i])
  }

  /** Nothing lies both before the gap and after it. */
  lemma GapSeparates<T(!new)>(cmp: (T, T) -> Ordering, high: Bound<T>, low: Bound<T>, v: T)
    requires TotalPreorder(cmp) && Gap(cmp, high, low)
    ensures !(HighAdmits(cmp, high, v) && LowAdmits(cmp, low, v))
  {
  }

  lemma ExtendStaysClear<T(!new)>(cmp: (T, T) -> Ordering, start: Bound<T>, cur: Interval<T>, iv: Interval<T>)
    requires TotalPreorder(cmp) && Joins(cmp, cur, iv)
    requires ClearOf(cmp, start, cur) && ClearOf(cmp, start, iv)
    ensures ClearOf(cmp, start, Extend(cmp, cur, iv))
  {
    if Gap(cmp, cur.high, start) && LowLe(cmp, start, iv.low) { GapBelowLater(cmp, cur.high, start, iv.low); }
  }

  /** Merging does not run over a start that no input runs over. */
  lemma {:induction false} MergeStaysClear<T(!new)>(cmp: (T, T) -> Ordering, start: Bound<T>, kept: seq<Interval<T>>)
    requires TotalPreorder(cmp) && forall i :: 0 <= i < |kept| ==> ClearOf(cmp, start, kept[i])
    ensures forall j :: 0 <= j < |Merge(cmp, kept)| ==> ClearOf(cmp, start, Merge(cmp, kept)[j])
  {
    if kept != [] {
      var n := |kept| - 1;
      var before, iv := Merge(cmp, kept[..n]), kept[n];
      MergeStaysClear(cmp, start, kept[..n]);
      hide TotalPreorder, ClearOf, Joins, Extend;
      if before != [] && Joins(cmp, before[|before| - 1], iv) {
        ExtendStaysClear(cmp, start, before[|before| - 1], iv);
      }
    }
  }

  lemma ExtendReaches<T(!new)>(cmp: (T, T) -> Ordering, cur: Interval<T>, iv: Interval<T>, low: Bound<T>)
    requires TotalPreorder(cmp) && Gap(cmp, Extend(cmp, cur, iv).high, low)
    ensures Gap(cmp, cur.high, low) && Gap(cmp, iv.high, low)
  {
  }

  /** What lies past everything merged lies past every input. */
  lemma {:induction false} MergeReaches<T(!new)>(cmp: (T, T) -> Ordering, kept: seq<Interval<T>>, low: Bound<T>)
    requires TotalPreorder(cmp) && forall j :: 0 <= j < |Merge(cmp, kept)| ==> Gap(cmp, Merge(cmp, kept)[j].high, low)
    ensures forall i :: 0 <= i < |kept| ==> Gap(cmp, kept[i].high, low)
  {
    if kept != [] {
      var n := |kept| - 1;
      var before, iv := Merge(cmp, kept[..n]), kept[n];
      var after := Merge(cmp, kept);
      hide TotalPreorder, Gap, Joins, Extend;
      var joined := before != [] && Joins(cmp, before[|before| - 1], iv);
      if joined {
        assert after[|before| - 1] == Extend(cmp, before[|before| - 1], iv);
        ExtendReaches(cmp, before[|before| - 1], iv, low);
      } else {
        assert after[|before|] == iv;
      }
      forall j | 0 <= j < |before| ensures Gap(cmp, before[j].high, low) {
        if j < |before| - 1 || !joined { assert after[j] == before[j]; }
      }
      MergeReaches(cmp, kept[..n], low);
    }
  }

  /** The start of an input that no other input runs up to. */
  ghost predicate IsStart<T(!new)>(cmp: (T, T) -> Ordering, kept: seq<Interval<T>>, low: Bound<T>) {
    && (exists k :: 0 <= k < |kept| && kept[k].low == low)
    && forall i :: 0 <= i < |kept| ==> ClearOf(cmp, low, kept[i])
  }

  /** Every merged interval starts where some input does that no other input runs up to. */
  lemma {:induction false} MergeStarts<T(!new)>(cmp: (T, T) -> Ordering, kept: seq<Interval<T>>)
    requires TotalPreorder(cmp)
    requires forall i :: 0 <= i < |kept| ==> !StructurallyEmpty(cmp, kept[i])
    requires forall i, j :: 0 <= i < j < |kept| ==> LowLe(cmp, kept[i].low, kept[j].low)
    ensures forall j :: 0 <= j < |Merge(cmp, kept)| ==> IsStart(cmp, kept, Merge(cmp, kept)[j].low)
  {
    if kept != [] {
      var front, iv := kept[..|kept| - 1], kept[|kept| - 1];
      MergeStarts(cmp, front);
      MergeCanonical(cmp, kept);
      hide TotalPreorder, ClearOf, StructurallyEmpty, IsStart;
      assert forall i :: 0 <= i < |front| ==> LowLe(cmp, front[i].low, iv.low);
      assert kept == front + [iv];
      hide LowLe;
      AbsorbStarts(cmp, front, iv);
    }
  }

  lemma AbsorbStarts<T(!new)>(cmp: (T, T) -> Ordering, front: seq<Interval<T>>, iv: Interval<T>)
    requires TotalPreorder(cmp) && Canonical(cmp, Absorb(cmp, Merge(cmp, front), iv))
    requires forall i :: 0 <= i < |front| ==> LowLe(cmp, front[i].low, iv.low)
    requires forall j :: 0 <= j < |Merge(cmp, front)| ==> IsStart(cmp, front, Merge(cmp, front)[j].low)
    ensures forall j :: 0 <= j < |Absorb(cmp, Merge(cmp, front), iv)| ==>
              IsStart(cmp, front + [iv], Absorb(cmp, Merge(cmp, front), iv)[j].low)
  {
    var before := Merge(cmp, front);
    var after := Absorb(cmp, before, iv);
    hide TotalPreorder, IsStart, LowLe, Joins, Canonical, Merge;
    forall j | 0 <= j < |after| ensures IsStart(cmp, front + [iv], after[j].low) {
      if j < |before| {
        assert after[j].low == before[j].low;
        OldStartStays(cmp, front, iv, before[j].low);
      } else {
        assert after == before + [iv];
        NewStart(cmp, front, iv);
      }
    }
  }

  lemma OldStartStays<T(!new)>(cmp: (T, T) -> Ordering, front: seq<Interval<T>>, iv: Interval<T>, low: Bound<T>)
    requires IsStart(cmp, front, low) && forall i :: 0 <= i < |front| ==> LowLe(cmp, front[i].low, iv.low)
    ensures IsStart(cmp, front + [iv], low)
  {
    hide LowLe, Gap;
    var kept := front + [iv];
    var k :| 0 <= k < |front| && front[k].low == low;
    assert kept[k].low == low && LowLe(cmp, low, iv.low);
    assert forall i :: 0 <= i < |front| ==> kept[i] == front[i];
  }

  lemma GapsBeforeLast<T(!new)>(cmp: (T, T) -> Ordering, before: seq<Interval<T>>, iv: Interval<T>)
    requires Canonical(cmp, before + [iv])
    ensures forall j :: 0 <= j < |before| ==> Gap(cmp, before[j].high, iv.low)
  {
    hide StructurallyEmpty, Gap;
    var after := before + [iv];
    assert after[|before|] == iv && forall j :: 0 <= j < |before| ==> after[j] == before[j];
  }

  lemma StartIsClearOfItself<T(!new)>(cmp: (T, T) -> Ordering, iv: Interval<T>)
    requires TotalPreorder(cmp)
    ensures ClearOf(cmp, iv.low, iv)
  {
  }

  lemma NewStart<T(!new)>(cmp: (T, T) -> Ordering, front: seq<Interval<T>>, iv: Interval<T>)
    requires TotalPreorder(cmp) && Canonical(cmp, Merge(cmp, front) + [iv])
    ensures IsStart(cmp, front + [iv], iv.low)
  {
    var kept := front + [iv];
    hide TotalPreorder, Gap, LowLe, Merge, Canonical;
    GapsBeforeLast(cmp, Merge(cmp, front), iv);
    MergeReaches(cmp, front, iv.low);
    StartIsClearOfItself(cmp, iv);
    assert kept[|front|] == iv;
    forall i | 0 <= i < |kept| ensures ClearOf(cmp, iv.low, kept[i]) {
      if i < |front| { assert kept[i] == front[i] && Gap(cmp, front[i].high, iv.low); }
    }
  }

  /** The intervals FromIntervals merges: the non-empty ones, by their starts. */
  lemma KeptInOrder<T(!new)>(cmp: (T, T) -> Ordering, ivs: seq<Interval<T>>) returns (kept: seq<Interval<T>>)
    requires TotalPreorder(cmp)
    ensures FromIntervals(cmp, ivs) == Merge(cmp, kept)
    ensures forall iv :: iv in kept <==> iv in ivs && !StructurallyEmpty(cmp, iv)
    ensures forall i :: 0 <= i < |kept| ==> !StructurallyEmpty(cmp, kept[i])
    ensures forall i, j :: 0 <= i < j < |kept| ==> LowLe(cmp, kept[i].low, kept[j].low)
  {
    var dropped := DropEmpty(cmp, ivs);
    kept := Sort(SortOrder(cmp), dropped);
    SortOrderIsWeak(cmp);
    SortSorts(SortOrder(cmp), dropped);
    SortMembers(SortOrder(cmp), dropped);
    DropEmptyExact(cmp, ivs);
    forall i | 0 <= i < |kept| ensures !StructurallyEmpty(cmp, kept[i]) {
      assert kept[i] in kept;
    }
    forall i, j | 0 <= i < j < |kept| ensures LowLe(cmp, kept[i].low, kept[j].low) {
      assert !SortsBefore(cmp, kept[j], kept[i]);
    }
  }

  /** Each interval of the result starts where a non-empty input does that no other runs up to. */
  lemma FromIntervalsStarts<T(!new)>(cmp: (T, T) -> Ordering, ivs: seq<Interval<T>>, j: nat) returns (k: nat)
    requires TotalPreorder(cmp) && j < |FromIntervals(cmp, ivs)|
    ensures k < |ivs| && !StructurallyEmpty(cmp, ivs[k]) && ivs[k].low == FromIntervals(cmp, ivs)[j].low
    ensures AllClearOf(cmp, ivs[k].low, ivs)
  {
    var kept := KeptInOrder(cmp, ivs);
    MergeStarts(cmp, kept);
    hide TotalPreorder, Merge, FromIntervals, ClearOf, StructurallyEmpty;
    var low := FromIntervals(cmp, ivs)[j].low;
    assert IsStart(cmp, kept, low);
    var m :| 0 <= m < |kept| && kept[m].low == low;
    assert kept[m] in kept;
    k :| 0 <= k < |ivs| && ivs[k] == kept[m];
    forall i | 0 <= i < |ivs| && !StructurallyEmpty(cmp, ivs[i]) ensures ClearOf(cmp, low, ivs[i]) {
      assert ivs[i] in kept;
    }
  }

  /** And none of them runs over a start that no input runs up to. */
  lemma FromIntervalsStaysClear<T(!new)>(cmp: (T, T) -> Ordering, start: Bound<T>, ivs: seq<Interval<T>>)
    requires TotalPreorder(cmp) && AllClearOf(cmp, start, ivs)
    ensures forall j :: 0 <= j < |FromIntervals(cmp, ivs)| ==> ClearOf(cmp, start, FromIntervals(cmp, ivs)[j])
  {
    var kept := KeptInOrder(cmp, ivs);
    hide FromIntervals, ClearOf, StructurallyEmpty;
    forall i | 0 <= i < |kept| ensures ClearOf(cmp, start, kept[i]) {
      assert kept[i] in kept;
    }
    MergeStaysClear(cmp, start, kept);
  }

  lemma EmptyHasNoMember<T(!new)>(cmp: (T, T) -> Ordering, iv: Interval<T>, v: T)
    requires TotalPreorder(cmp)
    requires StructurallyEmpty(cmp, iv)
    ensures !ContainsBound(cmp, iv, v)
  {
  }

  lemma SameMembers<T(!new)>(cmp: (T, T) -> Ordering, kept: seq<Interval<T>>, ivs: seq<Interval<T>>, v: T)
    requires TotalPreorder(cmp)
    requires forall iv :: iv in kept <==> iv in ivs && !StructurallyEmpty(cmp, iv)
    ensures InUnion(cmp, kept, v) <==> InUnion(cmp, ivs, v)
  {
    if InUnion(cmp, kept, v) {
      var i :| 0 <= i < |kept| && ContainsBound(cmp, kept[i], v);
      assert kept[i] in ivs;
    }
    if InUnion(cmp, ivs, v) {
      var i :| 0 <= i < |ivs| && ContainsBound(cmp, ivs[i], v);
      if StructurallyEmpty(cmp, ivs[i]) { EmptyHasNoMember(cmp, ivs[i], v); }
      assert ivs[i] in kept;
    }
  }

  lemma {:induction false} DropEmptyKeepsCanonical<T(!new)>(cmp: (T, T) -> Ordering, ivs: seq<Interval<T>>)
    requires forall i :: 0 <= i < |ivs| ==> !StructurallyEmpty(cmp, ivs[i])
    ensures DropEmpty(cmp, ivs) == ivs
  {
    if ivs != [] {
      DropEmptyKeepsCanonical(cmp, ivs[..|ivs| - 1]);
      assert ivs == ivs[..|ivs| - 1] + [ivs[|ivs| - 1]];
    }
  }

  lemma {:induction false} MergeKeepsCanonical<T(!new)>(cmp: (T, T) -> Ordering, ivs: seq<Interval<T>>)
    requires Canonical(cmp, ivs)
    ensures Merge(cmp, ivs) == ivs
  {
    if ivs != [] {
      var n := |ivs| - 1;
      MergeKeepsCanonical(cmp, ivs[..n]);
      assert ivs == ivs[..n] + [ivs[n]];
      if n > 0 { assert Gap(cmp, ivs[n - 1].high, ivs[n].low); }
    }
  }

  /** FromIntervals leaves every canonical union alone, so it is idempotent. */
  lemma FromIntervalsKeepsCanonical<T(!new)>(cmp: (T, T) -> Ordering, ivs: seq<Interval<T>>)
    requires TotalPreorder(cmp)
    requires Canonical(cmp, ivs)
    ensures FromIntervals(cmp, ivs) == ivs
  {
    DropEmptyKeepsCanonical(cmp, ivs);
    forall i, j | 0 <= i < j < |ivs| ensures !SortsBefore(cmp, ivs[j], ivs[i]) {
      assert Gap(cmp, ivs[i].high, ivs[j].low);
    }
    SortKeepsSorted(SortOrder(cmp), ivs);
    MergeKeepsCanonical(cmp, ivs);
  }

  // ----- Intersect, Union, Overlaps -----

  function HigherLow<T>(cmp: (T, T) -> Ordering, x: Bound<T>, y: Bound<T>): Bound<T> {
    if !x.At? then y
    else if !y.At? then x
    else match cmp(x.value, y.value)
      case Greater => x
      case Less => y
      case Equal => At(x.value, x.inclusive && y.inclusive)
  }

  function LowerHigh<T>(cmp: (T, T) -> Ordering, x: Bound<T>, y: Bound<T>): Bound<T> {
    if !x.At? then y
    else if !y.At? then x
    else match cmp(x.value, y.value)
      case Less => x
      case Greater => y
      case Equal => At(x.value, x.inclusive && y.inclusive)
  }

  function Meet<T>(cmp: (T, T) -> Ordering, x: Interval<T>, y: Interval<T>): Interval<T> {
    Interval(HigherLow(cmp, x.low, y.low), LowerHigh(cmp, x.high, y.high))
  }

  /** Which cursor moves: the interval that ends first. */
  predicate AdvancesFirst<T>(cmp: (T, T) -> Ordering, x: Interval<T>, y: Interval<T>) {
    if !x.high.At? then false
    else if !y.high.At? then true
    else match cmp(x.high.value, y.high.value)
      case Less => true
      case Greater => false
      case Equal => !x.high.inclusive
  }

  function Sweep<T>(cmp: (T, T) -> Ordering, a: seq<Interval<T>>, b: seq<Interval<T>>): seq<Interval<T>>
    decreases |a| + |b|
  {
    if a == [] || b == [] then []
    else
      var meet := Meet(cmp, a[0], b[0]);
      var here := if StructurallyEmpty(cmp, meet) then [] else [meet];
      here + if AdvancesFirst(cmp, a[0], b[0]) then Sweep(cmp, a[1..], b) else Sweep(cmp, a, b[1..])
  }

  function Intersect<T>(cmp: (T, T) -> Ordering, a: seq<Interval<T>>, b: seq<Interval<T>>): seq<Interval<T>> {
    FromIntervals(cmp, Sweep(cmp, a, b))
  }

  function Union<T>(cmp: (T, T) -> Ordering, a: seq<Interval<T>>, b: seq<Interval<T>>): seq<Interval<T>> {
    FromIntervals(cmp, a + b)
  }

  predicate Overlaps<T>(cmp: (T, T) -> Ordering, a: seq<Interval<T>>, b: seq<Interval<T>>) {
    |Intersect(cmp, a, b)| > 0
  }

  /** Low is the greater start, high the lesser end; at equal bounds both must include it. */
  method ComputeMeet<T>(cmp: (T, T) -> Ordering, x: Interval<T>, y: Interval<T>) returns (iv: Interval<T>)
    ensures iv == Meet(cmp, x, y)
  {
    var low, high := Unbounded, Unbounded;
    if !x.low.At? {
      low := y.low;
    } else if !y.low.At? {
      low := x.low;
    } else {
      var c := cmp(x.low.value, y.low.value);
      if c == Greater {
        low := x.low;
      } else if c == Less {
        low := y.low;
      } else {
        low := At(x.low.value, x.low.inclusive && y.low.inclusive);
      }
    }
    if !x.high.At? {
      high := y.high;
    } else if !y.high.At? {
      high := x.high;
    } else {
      var c := cmp(x.high.value, y.high.value);
      if c == Less {
        high := x.high;
      } else if c == Greater {
        high := y.high;
      } else {
        high := At(x.high.value, x.high.inclusive && y.high.inclusive);
      }
    }
    iv := Interval(low, high);
  }

  /** One turn of the sweep, seen from cursor positions. */
  lemma SweepTurn<T>(cmp: (T, T) -> Ordering, a: seq<Interval<T>>, b: seq<Interval<T>>, i: nat, j: nat)
    requires i < |a| && j < |b|
    ensures var meet := Meet(cmp, a[i], b[j]);
            Sweep(cmp, a[i..], b[j..])
            == (if StructurallyEmpty(cmp, meet) then [] else [meet])
               + if AdvancesFirst(cmp, a[i], b[j]) then Sweep(cmp, a[i + 1..], b[j..]) else Sweep(cmp, a[i..], b[j + 1..])
  {
    assert a[i..][1..] == a[i + 1..] && b[j..][1..] == b[j + 1..];
  }

  /** The source's two-cursor loop. */
  method ComputeIntersect<T>(cmp: (T, T) -> Ordering, a: seq<Interval<T>>, b: seq<Interval<T>>)
    returns (r: seq<Interval<T>>)
    ensures r == Intersect(cmp, a, b)
  {
    var out := [];
    var i, j := 0, 0;
    ghost var ahead := Sweep(cmp, a, b);
    assert a[0..] == a && b[0..] == b;
    while i < |a| && j < |b|
      invariant i <= |a| && j <= |b|
      invariant ahead == Sweep(cmp, a[i..], b[j..])
      invariant Sweep(cmp, a, b) == out + ahead
      decreases |a| - i + |b| - j
    {
      SweepTurn(cmp, a, b, i, j);
      var x, y := a[i], b[j];
      var iv := ComputeMeet(cmp, x, y);
      if !StructurallyEmpty(cmp, iv) {
        out := out + [iv];
        ahead := ahead[1..];
      }
      var advanceX := ComputeAdvance(cmp, x, y);
      if advanceX { i := i + 1; } else { j := j + 1; }
    }
    assert ahead == [] && Sweep(cmp, a, b) == out;
    r := ComputeFromIntervals(cmp, out);
  }

  method ComputeAdvance<T>(cmp: (T, T) -> Ordering, x: Interval<T>, y: Interval<T>) returns (advanceX: bool)
    ensures advanceX == AdvancesFirst(cmp, x, y)
  {
    advanceX := false;
    if !x.high.At? {
      advanceX := false;
    } else if !y.high.At? {
      advanceX := true;
    } else {
      var c := cmp(x.high.value, y.high.value);
      if c == Less {
        advanceX := true;
      } else if c == Greater {
        advanceX := false;
      } else {
        advanceX := !x.high.inclusive;
      }
    }
  }

  lemma MeetExact<T(!new)>(cmp: (T, T) -> Ordering, x: Interval<T>, y: Interval<T>, v: T)
    requires TotalPreorder(cmp)
    ensures ContainsBound(cmp, Meet(cmp, x, y), v) <==> ContainsBound(cmp, x, v) && ContainsBound(cmp, y, v)
  {
  }

  /** The interval the cursor leaves cannot meet anything further along the other list. */
  lemma LeftBehind<T(!new)>(cmp: (T, T) -> Ordering, x: Interval<T>, y: Interval<T>, later: Interval<T>, v: T)
    requires TotalPreorder(cmp)
    requires Gap(cmp, y.high, later.low)
    requires !x.high.At? ==> !y.high.At?
    requires x.high.At? && y.high.At? ==>
               cmp(x.high.value, y.high.value) == Less
               || (cmp(x.high.value, y.high.value) == Equal && (y.high.inclusive || !x.high.inclusive))
    ensures !(ContainsBound(cmp, x, v) && ContainsBound(cmp, later, v))
  {
  }

  lemma TailIsCanonical<T(!new)>(cmp: (T, T) -> Ordering, a: seq<Interval<T>>)
    requires Canonical(cmp, a) && a != []
    ensures Canonical(cmp, a[1..])
  {
    forall i, j | 0 <= i < j < |a[1..]| ensures Gap(cmp, a[1..][i].high, a[1..][j].low) {
      assert Gap(cmp, a[i + 1].high, a[j + 1].low);
    }
  }

  lemma UnionSplit<T(!new)>(cmp: (T, T) -> Ordering, a: seq<Interval<T>>, v: T)
    requires a != []
    ensures InUnion(cmp, a, v) <==> ContainsBound(cmp, a[0], v) || InUnion(cmp, a[1..], v)
  {
    if InUnion(cmp, a, v) {
      var i :| 0 <= i < |a| && ContainsBound(cmp, a[i], v);
      if i > 0 { assert ContainsBound(cmp, a[1..][i - 1], v); }
    }
    if InUnion(cmp, a[1..], v) {
      var i :| 0 <= i < |a[1..]| && ContainsBound(cmp, a[1..][i], v);
      assert ContainsBound(cmp, a[i + 1], v);
    }
  }

  lemma {:induction false} SweepExact<T(!new)>(cmp: (T, T) -> Ordering, a: seq<Interval<T>>, b: seq<Interval<T>>, v: T)
    requires TotalPreorder(cmp)
    requires Canonical(cmp, a) && Canonical(cmp, b)
    ensures InUnion(cmp, Sweep(cmp, a, b), v) <==> InUnion(cmp, a, v) && InUnion(cmp, b, v)
    decreases |a| + |b|
  {
    if a != [] && b != [] {
      var x, y := a[0], b[0];
      var meet := Meet(cmp, x, y);
      var here := if StructurallyEmpty(cmp, meet) then [] else [meet];
      var rest := if AdvancesFirst(cmp, x, y) then Sweep(cmp, a[1..], b) else Sweep(cmp, a, b[1..]);
      MeetExact(cmp, x, y, v);
      if StructurallyEmpty(cmp, meet) { EmptyHasNoMember(cmp, meet, v); }
      UnionSplit(cmp, a, v);
      UnionSplit(cmp, b, v);
      UnionOfConcat(cmp, here, rest, v);
      assert InUnion(cmp, here, v) <==> ContainsBound(cmp, x, v) && ContainsBound(cmp, y, v) by {
        if here != [] { UnionSplit(cmp, here, v); }
      }
      if AdvancesFirst(cmp, x, y) {
        TailIsCanonical(cmp, a);
        SweepExact(cmp, a[1..], b, v);
        SkipIsSafe(cmp, x, b, v);
      } else {
        TailIsCanonical(cmp, b);
        SweepExact(cmp, a, b[1..], v);
        SkipIsSafe(cmp, y, a, v);
      }
    }
  }

  lemma UnionOfConcat<T(!new)>(cmp: (T, T) -> Ordering, a: seq<Interval<T>>, b: seq<Interval<T>>, v: T)
    ensures InUnion(cmp, a + b, v) <==> InUnion(cmp, a, v) || InUnion(cmp, b, v)
  {
    if InUnion(cmp, a, v) {
      var i :| 0 <= i < |a| && ContainsBound(cmp, a[i], v);
      assert (a + b)[i] == a[i];
    }
    if InUnion(cmp, b, v) {
      var i :| 0 <= i < |b| && ContainsBound(cmp, b[i], v);
      assert (a + b)[|a| + i] == b[i];
    }
  }

  /** Leaving `x` loses nothing: it meets no later interval of the other list. */
  lemma SkipIsSafe<T(!new)>(cmp: (T, T) -> Ordering, x: Interval<T>, b: seq<Interval<T>>, v: T)
    requires TotalPreorder(cmp)
    requires b != [] && Canonical(cmp, b)
    requires AdvancesFirst(cmp, x, b[0]) || !AdvancesFirst(cmp, b[0], x)
    ensures ContainsBound(cmp, x, v) && InUnion(cmp, b, v) ==> ContainsBound(cmp, b[0], v)
  {
    if ContainsBound(cmp, x, v) && InUnion(cmp, b, v) {
      var i :| 0 <= i < |b| && ContainsBound(cmp, b[i], v);
      if i > 0 { LeftBehind(cmp, x, b[0], b[i], v); }
    }
  }

  /** Every interval the sweep emits is the meet of one from each side. */
  lemma {:induction false} SweepMeets<T(!new)>(cmp: (T, T) -> Ordering, a: seq<Interval<T>>, b: seq<Interval<T>>, k: nat)
    returns (p: nat, q: nat)
    requires k < |Sweep(cmp, a, b)|
    ensures p < |a| && q < |b|
    ensures Sweep(cmp, a, b)[k] == Meet(cmp, a[p], b[q]) && !StructurallyEmpty(cmp, Meet(cmp, a[p], b[q]))
    ensures AdvancesFirst(cmp, a[0], b[0]) && (k > 0 || StructurallyEmpty(cmp, Meet(cmp, a[0], b[0]))) ==> p > 0
    ensures !AdvancesFirst(cmp, a[0], b[0]) && (k > 0 || StructurallyEmpty(cmp, Meet(cmp, a[0], b[0]))) ==> q > 0
    decreases |a| + |b|
  {
    var meet := Meet(cmp, a[0], b[0]);
    var skip := if StructurallyEmpty(cmp, meet) then 0 else 1;
    if k < skip {
      p, q := 0, 0;
    } else if AdvancesFirst(cmp, a[0], b[0]) {
      p, q := SweepMeets(cmp, a[1..], b, k - skip);
      p := p + 1;
    } else {
      p, q := SweepMeets(cmp, a, b[1..], k - skip);
      q := q + 1;
    }
  }

  lemma GapOfMeets<T(!new)>(cmp: (T, T) -> Ordering, x: Interval<T>, y: Interval<T>, x': Interval<T>, y': Interval<T>)
    requires TotalPreorder(cmp)
    requires Gap(cmp, x.high, x'.low) || Gap(cmp, y.high, y'.low)
    ensures Gap(cmp, Meet(cmp, x, y).high, Meet(cmp, x', y').low)
  {
  }

  lemma FirstMeetEndsBefore<T(!new)>(cmp: (T, T) -> Ordering, a: seq<Interval<T>>, b: seq<Interval<T>>, k: nat)
    requires TotalPreorder(cmp)
    requires Canonical(cmp, a) && Canonical(cmp, b) && a != [] && b != []
    requires 0 < k < |Sweep(cmp, a, b)|
    ensures Gap(cmp, Meet(cmp, a[0], b[0]).high, Sweep(cmp, a, b)[k].low)
  {
    var p, q := SweepMeets(cmp, a, b, k);
    GapOfMeets(cmp, a[0], b[0], a[p], b[q]);
  }

  lemma {:induction false} SweepCanonical<T(!new)>(cmp: (T, T) -> Ordering, a: seq<Interval<T>>, b: seq<Interval<T>>)
    requires TotalPreorder(cmp)
    requires Canonical(cmp, a) && Canonical(cmp, b)
    ensures Canonical(cmp, Sweep(cmp, a, b))
    decreases |a| + |b|
  {
    if a != [] && b != [] {
      var meet := Meet(cmp, a[0], b[0]);
      var rest;
      if AdvancesFirst(cmp, a[0], b[0]) {
        TailIsCanonical(cmp, a);
        SweepCanonical(cmp, a[1..], b);
        rest := Sweep(cmp, a[1..], b);
      } else {
        TailIsCanonical(cmp, b);
        SweepCanonical(cmp, a, b[1..]);
        rest := Sweep(cmp, a, b[1..]);
      }
      if !StructurallyEmpty(cmp, meet) {
        var all := Sweep(cmp, a, b);
        assert all == [meet] + rest;
        forall k | 0 < k < |all| ensures Gap(cmp, meet.high, all[k].low) {
          FirstMeetEndsBefore(cmp, a, b, k);
        }
        ConsCanonical(cmp, meet, rest);
      }
    }
  }

  lemma ConsCanonical<T(!new)>(cmp: (T, T) -> Ordering, x: Interval<T>, rest: seq<Interval<T>>)
    requires Canonical(cmp, rest) && !StructurallyEmpty(cmp, x)
    requires forall k :: 0 < k < |[x] + rest| ==> Gap(cmp, x.high, ([x] + rest)[k].low)
    ensures Canonical(cmp, [x] + rest)
  {
  }

  /** The sweep's output needs no merging: the final FromIntervals changes nothing. */
  lemma IntersectIsSweep<T(!new)>(cmp: (T, T) -> Ordering, a: seq<Interval<T>>, b: seq<Interval<T>>)
    requires TotalPreorder(cmp)
    requires Canonical(cmp, a) && Canonical(cmp, b)
    ensures Intersect(cmp, a, b) == Sweep(cmp, a, b)
  {
    SweepCanonical(cmp, a, b);
    FromIntervalsKeepsCanonical(cmp, Sweep(cmp, a, b));
  }

  /** Intersect is exact intersection on canonical unions, and canonical again. */
  lemma IntersectExact<T(!new)>(cmp: (T, T) -> Ordering, a: seq<Interval<T>>, b: seq<Interval<T>>)
    requires TotalPreorder(cmp)
    requires Canonical(cmp, a) && Canonical(cmp, b)
    ensures Canonical(cmp, Intersect(cmp, a, b))
    ensures forall v :: InUnion(cmp, Intersect(cmp, a, b), v) <==> InUnion(cmp, a, v) && InUnion(cmp, b, v)
  {
    FromIntervalsExact(cmp, Sweep(cmp, a, b));
    forall v { SweepExact(cmp, a, b, v); }
  }

  /** Union is exact union, and canonical. */
  lemma UnionExact<T(!new)>(cmp: (T, T) -> Ordering, a: seq<Interval<T>>, b: seq<Interval<T>>)
    requires TotalPreorder(cmp)
    ensures Canonical(cmp, Union(cmp, a, b))
    ensures forall v :: InUnion(cmp, Union(cmp, a, b), v) <==> InUnion(cmp, a, v) || InUnion(cmp, b, v)
  {
    FromIntervalsExact(cmp, a + b);
    forall v { UnionOfConcat(cmp, a, b, v); }
  }

  /** When Overlaps says no, no value lies in both unions. */
  lemma NoOverlapMeansDisjoint<T(!new)>(cmp: (T, T) -> Ordering, a: seq<Interval<T>>, b: seq<Interval<T>>, v: T)
    requires TotalPreorder(cmp)
    requires Canonical(cmp, a) && Canonical(cmp, b)
    requires !Overlaps(cmp, a, b)
    ensures !(InUnion(cmp, a, v) && InUnion(cmp, b, v))
  {
    IntersectExact(cmp, a, b);
    assert !InUnion(cmp, Intersect(cmp, a, b), v);
  }
}
