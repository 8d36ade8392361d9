/** What a whole range text admits: exact versions, hyphen ranges, groups and alternatives (src/version.cpp). */
module TextMeaning {
  import opened Order
  import opened SemVer
  import opened Decimal
  import opened Intervals
  import opened VersionText
  import opened Rules
  import opened RangeText
  import opened RangeMeaning
  import opened RangeRoundTrip
  import RangeBounds
  import VersionRange

  // ----- Exact versions -----

  /** A comparator that spells a full version out admits that version alone, prerelease or not. */
  lemma ExactMeaning(token: string, text: string, pv: Partial, v: SemVersion)
    requires OperatorOf(token) == (NoOperator, text) || OperatorOf(token) == (Equals, text)
    requires ParsePartial(text) == Some(pv) && pv.IsFull()
    ensures Admits(ComparatorToRange(token), v) <==> Precedence(v, FilledWithPrerelease(pv)) == Equal
  {
    hide ParsePartial, FilledWithPrerelease, OperatorOf, ComparatorToRange;
    RangeBounds.ComparatorCases(token);
    ExactAdmits(FilledWithPrerelease(pv), v);
  }

  lemma ExactAdmits(w: SemVersion, v: SemVersion)
    ensures VersionRange.Contains([ExactInterval(w)], v) <==> Precedence(v, w) == Equal
  {
    PrecedenceIsTotal();
    if Precedence(v, w) == Equal {
      assert v.(build := "") == w.(build := "");
      assert VersionRange.IntervalContains([ExactInterval(w)][0], v);
    }
  }

  // ----- Hyphen ranges -----

  function HyphenPiece(low: string, high: string): Ranged {
    var l, h := ParsePartial(low), ParsePartial(high);
    if l.None? || h.None? then Refused
    else One(At(FilledWithPrerelease(l.value), true), At(FilledWithPrerelease(h.value), true))
  }

  /** Up to the version the partial one is filled up to, not to the end of its band. */
  predicate EndsAfter(pv: Partial, v: SemVersion) {
    !StartsBefore(pv, v) || (pv.prerelease == [] && IsAt(v, Number(pv, 0), Number(pv, 1), Number(pv, 2)))
  }

  lemma HyphenMeaning(low: string, high: string, l: Partial, h: Partial, v: SemVersion)
    requires ParsePartial(low) == Some(l) && ParsePartial(high) == Some(h) && !v.HasPrerelease()
    ensures Admits(HyphenPiece(low, high), v) <==> StartsBefore(l, v) && EndsAfter(h, v)
  {
    StartIsItself(low, l);
    StartIsItself(high, h);
    hide ParsePartial, BandStart, FilledWithPrerelease, Admits;
    OneAdmits(At(FilledWithPrerelease(l), true), At(FilledWithPrerelease(h), true), v);
    hide One, Precedence;
    ReleaseOrder(v, FilledWithPrerelease(l));
    ReleaseOrder(v, FilledWithPrerelease(h));
  }

  // ----- Groups: all their pieces -----

  function PiecesFrom(tokens: seq<string>, i: nat): seq<Ranged>
    requires i <= |tokens|
    decreases |tokens| - i
  {
    if i == |tokens| then []
    else if i + 2 < |tokens| && tokens[i + 1] == "-" then [HyphenPiece(tokens[i], tokens[i + 2])] + PiecesFrom(tokens, i + 3)
    else [ComparatorToRange(tokens[i])] + PiecesFrom(tokens, i + 1)
  }

  ghost predicate IsCanonical(r: Ranged) {
    r.Accepted? ==> VersionRange.CanonicalRange(r.range)
  }

  ghost predicate AllAdmit(pieces: seq<Ranged>, v: SemVersion) {
    forall k :: 0 <= k < |pieces| ==> Admits(pieces[k], v)
  }

  lemma OneIsCanonical(low: Bound<SemVersion>, high: Bound<SemVersion>)
    ensures IsCanonical(One(low, high))
  {
    PrecedenceIsTotal();
    hide Precedence, FromIntervals;
    FromIntervalsExact(Precedence, [Interval(low, high)]);
  }

  lemma OnesAreCanonical()
    ensures forall low: Bound<SemVersion>, high: Bound<SemVersion> :: IsCanonical(One(low, high))
  {
    forall low: Bound<SemVersion>, high: Bound<SemVersion> ensures IsCanonical(One(low, high)) {
      OneIsCanonical(low, high);
    }
  }

  lemma SingleIsCanonical(iv: VersionRange.VersionInterval)
    requires !StructurallyEmpty(Precedence, iv)
    ensures IsCanonical(Accepted([iv]))
  {
  }

  lemma RangesAreCanonical(pv: Partial)
    ensures IsCanonical(CaretRange(pv)) && IsCanonical(TildeRange(pv))
    ensures IsCanonical(AboveRange(pv)) && IsCanonical(BelowRange(pv)) && IsCanonical(AtMostRange(pv))
    ensures IsCanonical(Accepted(ANY))
  {
    OnesAreCanonical();
    SingleIsCanonical(ANY[0]);
    hide One, BandStart, FilledWithPrerelease, Bump, Number, VersionRange.CanonicalRange;
  }

  lemma ComparatorIsCanonical(token: string)
    ensures IsCanonical(ComparatorToRange(token))
  {
    hide *;
    var (op, rest) := OperatorOf(token);
    RangeBounds.ComparatorCases(token);
    NotAccepted();
    if ParsePartial(rest).Some? {
      var pv := ParsePartial(rest).value;
      RangesAreCanonical(pv);
      OneIsCanonical(At(FilledWithPrerelease(pv), true), Unbounded);
      ExactIsCanonical(FilledWithPrerelease(pv));
      if pv.HasMajor() { ParsedCanonically(BandText(pv)); }
    }
  }

  lemma NotAccepted()
    ensures IsCanonical(Refused) && IsCanonical(Undefined)
  {
  }

  lemma ExactIsCanonical(w: SemVersion)
    ensures IsCanonical(Accepted([ExactInterval(w)]))
  {
    PrecedenceIsTotal();
    SingleIsCanonical(ExactInterval(w));
  }

  lemma ParsedCanonically(text: string)
    ensures IsCanonical(ParseRange(text))
  {
    hide ParseRange;
    if ParseRange(text).Accepted? { ParsedIsCanonical(text); }
  }

  /** One more piece narrows the group, for releases to what both admit. */
  lemma PieceNarrows(group: Range, piece: Range, v: SemVersion)
    requires VersionRange.CanonicalRange(group) && VersionRange.CanonicalRange(piece) && !v.HasPrerelease()
    ensures VersionRange.CanonicalRange(Intersect(Precedence, group, piece))
    ensures VersionRange.Contains(Intersect(Precedence, group, piece), v)
            <==> VersionRange.Contains(group, v) && VersionRange.Contains(piece, v)
  {
    VersionRange.IntersectContains(group, piece, v);
  }

  lemma AllAdmitStep(first: Ranged, rest: seq<Ranged>, v: SemVersion)
    ensures AllAdmit([first] + rest, v) <==> Admits(first, v) && AllAdmit(rest, v)
  {
    hide Admits;
    var all := [first] + rest;
    assert all[0] == first;
    if AllAdmit(all, v) {
      forall k | 0 <= k < |rest| ensures Admits(rest[k], v) { assert all[k + 1] == rest[k]; }
    }
  }

  lemma {:induction false} GroupNarrows(tokens: seq<string>, i: nat, group: Range, v: SemVersion)
    requires i <= |tokens| && VersionRange.CanonicalRange(group) && !v.HasPrerelease()
    requires ParseGroup(tokens, i, group).Accepted?
    ensures Admits(ParseGroup(tokens, i, group), v) <==> VersionRange.Contains(group, v) && AllAdmit(PiecesFrom(tokens, i), v)
    decreases |tokens| - i
  {
    hide ParsePartial, FilledWithPrerelease, FromIntervals, Intersect, ComparatorToRange, VersionRange.Contains,
         VersionRange.CanonicalRange, AllAdmit;
    if i == |tokens| {
      assert AllAdmit(PiecesFrom(tokens, i), v) by { NothingToAdmit(v); }
    } else if i + 2 < |tokens| && tokens[i + 1] == "-" {
      var piece := HyphenPiece(tokens[i], tokens[i + 2]);
      HyphenIsCanonical(tokens[i], tokens[i + 2]);
      PieceNarrows(group, piece.range, v);
      AllAdmitStep(piece, PiecesFrom(tokens, i + 3), v);
      GroupNarrows(tokens, i + 3, Intersect(Precedence, group, piece.range), v);
    } else {
      var piece := ComparatorToRange(tokens[i]);
      ComparatorIsCanonical(tokens[i]);
      PieceNarrows(group, piece.range, v);
      AllAdmitStep(piece, PiecesFrom(tokens, i + 1), v);
      GroupNarrows(tokens, i + 1, Intersect(Precedence, group, piece.range), v);
    }
  }

  lemma NothingToAdmit(v: SemVersion)
    ensures AllAdmit([], v)
  {
  }

  lemma HyphenIsCanonical(low: string, high: string)
    ensures IsCanonical(HyphenPiece(low, high))
  {
    OnesAreCanonical();
    hide One, ParsePartial, FilledWithPrerelease;
  }

  /** A group admits the releases that every comparator and hyphen range in it admits. */
  lemma GroupMeaning(words: seq<string>, v: SemVersion)
    requires ParseGroup(words, 0, ANY).Accepted? && !v.HasPrerelease()
    ensures Admits(ParseGroup(words, 0, ANY), v) <==> AllAdmit(PiecesFrom(words, 0), v)
  {
    hide ParseGroup, PiecesFrom, AllAdmit;
    SingleIsCanonical(ANY[0]);
    AnyAdmits(v);
    GroupNarrows(words, 0, ANY, v);
  }

  // ----- Alternatives: one of the groups -----

  ghost predicate NoneIsBlank(groups: seq<string>) {
    forall g :: g in groups ==> WordsOf(g) != []
  }

  function RangeOfGroup(group: string): Range {
    var r := ParseGroup(WordsOf(group), 0, ANY);
    if r.Accepted? then r.range else []
  }

  function RangesOfGroups(groups: seq<string>): Range {
    if groups == [] then [] else RangeOfGroup(groups[0]) + RangesOfGroups(groups[1..])
  }

  lemma {:induction false} GroupsAreMerged(groups: seq<string>, all: Range)
    requires ParseGroups(groups, all).Accepted? && NoneIsBlank(groups)
    ensures ParseGroups(groups, all) == Accepted(FromIntervals(Precedence, all + RangesOfGroups(groups)))
  {
    hide WordsOf, ParseGroup, FromIntervals;
    if groups == [] {
      assert all + [] == all;
    } else {
      GroupsAreMerged(groups[1..], all + RangeOfGroup(groups[0]));
      assert all + RangesOfGroups(groups) == all + RangeOfGroup(groups[0]) + RangesOfGroups(groups[1..]);
    }
  }

  ghost predicate SomeGroupAdmits(groups: seq<string>, v: SemVersion) {
    exists g :: g in groups && VersionRange.Contains(RangeOfGroup(g), v)
  }

  lemma {:induction false} SomeGroupContains(groups: seq<string>, v: SemVersion)
    ensures VersionRange.Contains(RangesOfGroups(groups), v) <==> SomeGroupAdmits(groups, v)
  {
    hide RangeOfGroup, VersionRange.Contains;
    if groups == [] {
      assert !VersionRange.Contains([], v) by { EmptyAdmitsNothing(v); }
    } else {
      SomeGroupContains(groups[1..], v);
      VersionRange.ContainsOfConcat(RangeOfGroup(groups[0]), RangesOfGroups(groups[1..]), v);
      assert groups == [groups[0]] + groups[1..];
    }
  }

  lemma EmptyAdmitsNothing(v: SemVersion)
    ensures !VersionRange.Contains([], v)
  {
  }

  /** Alternatives admit what one of them does, but for prereleases whose start another runs over. */
  lemma AlternativesMeaning(groups: seq<string>, v: SemVersion)
    requires ParseGroups(groups, []).Accepted? && NoneIsBlank(groups)
    ensures Admits(ParseGroups(groups, []), v) <==>
            SomeGroupAdmits(groups, v) && (v.HasPrerelease() ==> VersionRange.Entered(RangesOfGroups(groups), v))
  {
    hide ParseGroups, FromIntervals, VersionRange.Contains, VersionRange.Entered, NoneIsBlank;
    GroupsAreMerged(groups, []);
    assert [] + RangesOfGroups(groups) == RangesOfGroups(groups);
    VersionRange.MergeContains(RangesOfGroups(groups), v);
    SomeGroupContains(groups, v);
  }

  // ----- A prerelease that is lost -----

  lemma DigitTexts()
    ensures Print(0) == "0" && Print(1) == "1" && Print(2) == "2" && Print(5) == "5"
  {
  }

  lemma BoundTexts()
    ensures VersionString(Release(2, 0, 0)) == "2.0.0" && VersionString(Release(0, 5, 0)) == "0.5.0"
    ensures VersionString(Release(1, 5, 0)) == "1.5.0"
    ensures VersionString(Release(1, 0, 0).(prerelease := ["a"])) == "1.0.0-a"
  {
    DigitTexts();
    hide Print;
    assert Join(["a"], '.') == "a";
  }

  lemma TwoBounds(iv: VersionRange.VersionInterval, low: string, high: string)
    requires iv.low.At? && iv.low.inclusive && iv.high.At? && !iv.high.inclusive
    requires VersionString(iv.low.value) == low && VersionString(iv.high.value) == high
    ensures IntervalString(iv) == ">=" + low + " " + ("<" + high)
  {
    hide VersionString, Precedence;
    assert IntervalTokens(iv) == [">=" + low] + ["<" + high];
    RangeRoundTrip.Joined(IntervalTokens(iv));
    hide Join;
  }

  lemma AlternativesOf(x: VersionRange.VersionInterval, y: VersionRange.VersionInterval)
    ensures Alternatives([x]) == IntervalString(x)
    ensures Alternatives([x, y]) == IntervalString(x) + " || " + IntervalString(y)
  {
    hide IntervalString;
    assert [x, y][1..] == [y];
    assert Alternatives([y]) == IntervalString(y);
  }

  lemma IntervalTexts()
    ensures IntervalString(VersionRange.LATE) == ">=1.0.0-a <2.0.0"
    ensures IntervalString(VersionRange.EARLY) == ">=0.5.0 <1.5.0"
  {
    BoundTexts();
    hide VersionString, IntervalString;
    TwoBounds(VersionRange.LATE, "1.0.0-a", "2.0.0");
    TwoBounds(VersionRange.EARLY, "0.5.0", "1.5.0");
  }

  lemma ExampleTexts()
    ensures Alternatives([VersionRange.LATE]) == ">=1.0.0-a <2.0.0"
    ensures Alternatives([VersionRange.LATE, VersionRange.EARLY]) == ">=1.0.0-a <2.0.0 || >=0.5.0 <1.5.0"
  {
    hide IntervalString, Alternatives;
    IntervalTexts();
    AlternativesOf(VersionRange.LATE, VersionRange.EARLY);
  }

  lemma ExampleFits()
    ensures AllFit([VersionRange.LATE]) && AllFit([VersionRange.LATE, VersionRange.EARLY])
    ensures PlainRange([VersionRange.LATE]) == [VersionRange.LATE]
    ensures PlainRange([VersionRange.LATE, VersionRange.EARLY]) == [VersionRange.LATE, VersionRange.EARLY]
  {
    BoundTexts();
    hide VersionString;
    assert AreIdentifiers(["a"], true);
  }

  /** `>=1.0.0-a <2.0.0` admits 1.0.0-b; with a second alternative it does not. */
  lemma AlternativeIsLost()
    ensures var v := Release(1, 0, 0).(prerelease := ["b"]);
      && Admits(ParseRange(">=1.0.0-a <2.0.0"), v)
      && ParseRange(">=1.0.0-a <2.0.0 || >=0.5.0 <1.5.0").Accepted?
      && !Admits(ParseRange(">=1.0.0-a <2.0.0 || >=0.5.0 <1.5.0"), v)
  {
    ExampleTexts();
    ExampleFits();
    VersionRange.UnionCanLosePrerelease();
    UnionOfExample();
    hide ParseRange, FromIntervals, Precedence, AllFit, Alternatives, VersionRange.Contains, Union, StructurallyEmpty,
         PlainRange, Admits, VersionRange.CanonicalRange;
    var late, both := [VersionRange.LATE], [VersionRange.LATE, VersionRange.EARLY];
    BoundedReads(late);
    BoundedReads(both);
    OneInterval(VersionRange.LATE);
    AdmitsAccepted(late, Release(1, 0, 0).(prerelease := ["b"]));
    AdmitsAccepted(FromIntervals(Precedence, both), Release(1, 0, 0).(prerelease := ["b"]));
  }

  lemma AdmitsAccepted(r: Range, v: SemVersion)
    ensures Admits(Accepted(r), v) <==> VersionRange.Contains(r, v)
  {
  }

  lemma UnionOfExample()
    ensures Union(Precedence, [VersionRange.LATE], [VersionRange.EARLY])
         == FromIntervals(Precedence, [VersionRange.LATE, VersionRange.EARLY])
    ensures !StructurallyEmpty(Precedence, VersionRange.LATE)
  {
    hide FromIntervals;
    assert [VersionRange.LATE] + [VersionRange.EARLY] == [VersionRange.LATE, VersionRange.EARLY];
  }
}
