/** The versions that can stand as bounds of a parsed range (src/version.cpp). */
module RangeBounds {
  import opened Order
  import opened SemVer
  import opened Sorting
  import opened Intervals
  import opened VersionText
  import opened Rules
  import opened RangeText
  import RangeRoundTrip

  // ----- The interval algebra makes up no bound -----

  predicate EndsAre<T>(ok: T -> bool, iv: Interval<T>) {
    (iv.low.At? ==> ok(iv.low.value)) && (iv.high.At? ==> ok(iv.high.value))
  }

  ghost predicate BoundsAre<T(!new)>(ok: T -> bool, ivs: seq<Interval<T>>) {
    forall iv :: iv in ivs ==> EndsAre(ok, iv)
  }

  lemma {:induction false} DropKeepsBounds<T(!new)>(cmp: (T, T) -> Ordering, ok: T -> bool, ivs: seq<Interval<T>>)
    requires BoundsAre(ok, ivs)
    ensures BoundsAre(ok, DropEmpty(cmp, ivs))
  {
    if ivs != [] {
      hide EndsAre;
      assert BoundsAre(ok, ivs[..|ivs| - 1]);
      DropKeepsBounds(cmp, ok, ivs[..|ivs| - 1]);
    }
  }

  lemma {:induction false} MergeKeepsBounds<T(!new)>(cmp: (T, T) -> Ordering, ok: T -> bool, ivs: seq<Interval<T>>)
    requires BoundsAre(ok, ivs)
    ensures BoundsAre(ok, Merge(cmp, ivs))
  {
    if ivs != [] {
      var front, last := ivs[..|ivs| - 1], ivs[|ivs| - 1];
      assert BoundsAre(ok, front);
      MergeKeepsBounds(cmp, ok, front);
      AbsorbKeepsBounds(cmp, ok, Merge(cmp, front), last);
    }
  }

  lemma AbsorbKeepsBounds<T(!new)>(cmp: (T, T) -> Ordering, ok: T -> bool, merged: seq<Interval<T>>, iv: Interval<T>)
    requires BoundsAre(ok, merged) && EndsAre(ok, iv)
    ensures BoundsAre(ok, Absorb(cmp, merged, iv))
  {
    if merged != [] {
      var last := merged[|merged| - 1];
      assert last in merged;
      assert EndsAre(ok, Extend(cmp, last, iv));
      hide EndsAre, Extend, Joins;
    }
  }

  lemma FromIntervalsKeepsBounds<T(!new)>(cmp: (T, T) -> Ordering, ok: T -> bool, ivs: seq<Interval<T>>)
    requires BoundsAre(ok, ivs)
    ensures BoundsAre(ok, FromIntervals(cmp, ivs))
  {
    DropKeepsBounds(cmp, ok, ivs);
    SortMembers(SortOrder(cmp), DropEmpty(cmp, ivs));
    hide DropEmpty, Sort, Merge, EndsAre;
    MergeKeepsBounds(cmp, ok, Sort(SortOrder(cmp), DropEmpty(cmp, ivs)));
  }

  lemma {:induction false} SweepKeepsBounds<T(!new)>(cmp: (T, T) -> Ordering, ok: T -> bool, a: seq<Interval<T>>, b: seq<Interval<T>>)
    requires BoundsAre(ok, a) && BoundsAre(ok, b)
    ensures BoundsAre(ok, Sweep(cmp, a, b))
    decreases |a| + |b|
  {
    if a != [] && b != [] {
      MeetKeepsBounds(cmp, ok, a[0], b[0]);
      hide Meet, EndsAre, AdvancesFirst, StructurallyEmpty;
      if AdvancesFirst(cmp, a[0], b[0]) {
        SweepKeepsBounds(cmp, ok, a[1..], b);
      } else {
        SweepKeepsBounds(cmp, ok, a, b[1..]);
      }
    }
  }

  lemma MeetKeepsBounds<T>(cmp: (T, T) -> Ordering, ok: T -> bool, x: Interval<T>, y: Interval<T>)
    requires EndsAre(ok, x) && EndsAre(ok, y)
    ensures EndsAre(ok, Meet(cmp, x, y))
  {
  }

  lemma IntersectKeepsBounds<T(!new)>(cmp: (T, T) -> Ordering, ok: T -> bool, a: seq<Interval<T>>, b: seq<Interval<T>>)
    requires BoundsAre(ok, a) && BoundsAre(ok, b)
    ensures BoundsAre(ok, Intersect(cmp, a, b))
  {
    SweepKeepsBounds(cmp, ok, a, b);
    FromIntervalsKeepsBounds(cmp, ok, Sweep(cmp, a, b));
  }

  // ----- Bare versions -----

  /** A version without build metadata. */
  predicate BareVersion(v: SemVersion) {
    IsVersion(v) && v.build == ""
  }

  lemma PartialIsFit(text: string)
    requires ParsePartial(text).Some? && ParsePartial(text).value.prerelease != []
    ensures AreIdentifiers(ParsePartial(text).value.prerelease, true)
  {
    hide PartsOf, SplitOn, AreIdentifiers, ReadComponents;
  }

  /** A partial version is filled up to a version without build metadata. */
  lemma FilledIsBare(text: string)
    requires ParsePartial(text).Some?
    ensures BareVersion(FilledWithPrerelease(ParsePartial(text).value))
  {
    var pv := ParsePartial(text).value;
    if pv.prerelease != [] {
      PartialIsFit(text);
      var v := Filled(pv).(prerelease := pv.prerelease);
      hide ParsePartial, VersionString, AreIdentifiers, Join;
      RangeRoundTrip.RebuiltText(v);
      if |VersionString(v)| <= MAX_VERSION_TEXT {
        VersionRoundTrip(v);
      } else {
        assert ParseVersion(VersionString(v)).None? by { TooLongIsRefused(VersionString(v)); }
      }
    }
  }

  lemma TooLongIsRefused(text: string)
    requires |text| > MAX_VERSION_TEXT
    ensures ParseVersion(text).None?
  {
  }

  lemma AnyIsBare()
    ensures BoundsAre(BareVersion, ANY) && IsBare(Accepted(ANY)) && IsBare(Refused) && IsBare(Undefined)
  {
  }

  // ----- Through the parser -----

  ghost predicate IsBare(r: Ranged) {
    r.Accepted? ==> BoundsAre(BareVersion, r.range)
  }

  lemma OneIsBare(low: Bound<SemVersion>, high: Bound<SemVersion>)
    requires EndsAre(BareVersion, Interval(low, high))
    ensures IsBare(One(low, high))
  {
    FromIntervalsKeepsBounds(Precedence, BareVersion, [Interval(low, high)]);
  }

  lemma OnesAreBare()
    ensures forall low: Bound<SemVersion>, high: Bound<SemVersion> ::
              EndsAre(BareVersion, Interval(low, high)) ==> IsBare(One(low, high))
    ensures forall a: u32, b: u32, c: u32 :: BareVersion(Release(a, b, c))
  {
    forall low: Bound<SemVersion>, high: Bound<SemVersion> | EndsAre(BareVersion, Interval(low, high))
      ensures IsBare(One(low, high)) {
      OneIsBare(low, high);
    }
    hide One;
  }

  lemma BandsAreBare(pv: Partial)
    requires BareVersion(FilledWithPrerelease(pv))
    ensures IsBare(CaretRange(pv)) && IsBare(TildeRange(pv))
  {
    OnesAreBare();
    AnyIsBare();
    hide One, FilledWithPrerelease, BareVersion, Bump, Number, Release;
  }

  lemma HalvesAreBare(pv: Partial)
    requires BareVersion(FilledWithPrerelease(pv))
    ensures IsBare(AboveRange(pv)) && IsBare(BelowRange(pv)) && IsBare(AtMostRange(pv))
    ensures IsBare(One(At(FilledWithPrerelease(pv), true), Unbounded))
    ensures IsBare(Accepted([ExactInterval(FilledWithPrerelease(pv))]))
  {
    OnesAreBare();
    hide One, FilledWithPrerelease, BareVersion, Bump, Number, Release;
  }

  lemma RewrittenIsNoTilde(token: string)
    requires OperatorOf(token).0.NoOperator? || OperatorOf(token).0.Equals?
    ensures TokenRank(token) == 1
  {
  }

  lemma BandRank(pv: Partial)
    requires pv.HasMajor()
    ensures TextRank(BandText(pv)) == 0
  {
    hide BandText;
    BandTextIsBand(pv);
  }

  lemma {:induction false} ComparatorIsBare(token: string)
    ensures IsBare(ComparatorToRange(token))
    decreases TokenRank(token), 0, 0
  {
    hide *;
    AnyIsBare();
    var (op, rest) := OperatorOf(token);
    if ParsePartial(rest).Some? {
      var pv := ParsePartial(rest).value;
      FilledIsBare(rest);
      BandsAreBare(pv);
      HalvesAreBare(pv);
      if (op.NoOperator? || op.Equals?) && pv.HasMajor() {
        RewrittenIsNoTilde(token);
        BandRank(pv);
        ParsedIsBare(BandText(pv));
      }
      ComparatorCases(token);
    } else {
      ComparatorCases(token);
    }
  }

  lemma ComparatorCases(token: string)
    ensures var (op, rest) := OperatorOf(token);
      ComparatorToRange(token) ==
        if ParsePartial(rest).None? then Refused
        else
          var pv := ParsePartial(rest).value;
          match op
          case Caret => CaretRange(pv)
          case Tilde => TildeRange(pv)
          case Above => AboveRange(pv)
          case AtLeast => One(At(FilledWithPrerelease(pv), true), Unbounded)
          case Below => BelowRange(pv)
          case AtMost => AtMostRange(pv)
          case _ =>
            if pv.IsFull() then Accepted([ExactInterval(FilledWithPrerelease(pv))])
            else if !pv.HasMajor() then Accepted(ANY)
            else ParseRange(BandText(pv))
  {
    hide OperatorOf, ParsePartial, CaretRange, TildeRange, AboveRange, BelowRange, AtMostRange, ParseRange, BandText, One,
         FilledWithPrerelease;
  }

  lemma {:induction false} GroupIsBare(tokens: seq<string>, i: nat, group: Range)
    requires i <= |tokens| && BoundsAre(BareVersion, group)
    ensures IsBare(ParseGroup(tokens, i, group))
    decreases TokensRank(tokens), 1, |tokens| - i
  {
    hide ParsePartial, FilledWithPrerelease, FromIntervals, Intersect, ComparatorToRange, BareVersion;
    if i < |tokens| {
      if i + 2 < |tokens| && tokens[i + 1] == "-" {
        var low, high := ParsePartial(tokens[i]), ParsePartial(tokens[i + 2]);
        if low.Some? && high.Some? {
          FilledIsBare(tokens[i]);
          FilledIsBare(tokens[i + 2]);
          var iv := Interval(At(FilledWithPrerelease(low.value), true), At(FilledWithPrerelease(high.value), true));
          FromIntervalsKeepsBounds(Precedence, BareVersion, [iv]);
          IntersectKeepsBounds(Precedence, BareVersion, group, FromIntervals(Precedence, [iv]));
          GroupIsBare(tokens, i + 3, Intersect(Precedence, group, FromIntervals(Precedence, [iv])));
        }
      } else {
        ComparatorIsBare(tokens[i]);
        var piece := ComparatorToRange(tokens[i]);
        if piece.Accepted? {
          IntersectKeepsBounds(Precedence, BareVersion, group, piece.range);
          GroupIsBare(tokens, i + 1, Intersect(Precedence, group, piece.range));
        }
      }
    }
  }

  lemma {:induction false} GroupsAreBare(groups: seq<string>, all: Range)
    requires BoundsAre(BareVersion, all)
    ensures IsBare(ParseGroups(groups, all))
    decreases GroupsRank(groups), 2, |groups|
  {
    hide WordsOf, ParseGroup, FromIntervals, BareVersion;
    AnyIsBare();
    FromIntervalsKeepsBounds(Precedence, BareVersion, all);
    if groups != [] {
      var words := WordsOf(groups[0]);
      GroupIsBare(words, 0, ANY);
      var piece := ParseGroup(words, 0, ANY);
      if piece.Accepted? { GroupsAreBare(groups[1..], all + piece.range); }
    }
  }

  /** Every bound of an accepted range is a version without build metadata. */
  lemma {:induction false} ParsedIsBare(text: string)
    ensures IsBare(ParseRange(text))
    decreases TextRank(text), 3, 0
  {
    AnyIsBare();
    if |text| <= MAX_RANGE_TEXT {
      var groups := GroupsOf(TrimRight(TrimLeft(text)), "");
      assert GroupsRank(groups) <= TextRank(text) by {
        if IsBand(text) { BandIsOneWord(text); }
      }
      hide GroupsOf, ParseGroups, TrimRight, TrimLeft;
      GroupsAreBare(groups, []);
    }
  }
}
