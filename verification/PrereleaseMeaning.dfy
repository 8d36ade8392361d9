/** Which prereleases the comparators of a range admit (src/version.cpp). */
module PrereleaseMeaning {
  import opened Order
  import opened SemVer
  import opened Intervals
  import opened VersionText
  import opened Rules
  import opened RangeText
  import opened RangeMeaning
  import opened RangeRoundTrip
  import opened TextMeaning
  import RangeBounds
  import VersionRange

  /** One interval admits exactly its members. */
  lemma OneAdmitsIff(low: Bound<SemVersion>, high: Bound<SemVersion>, v: SemVersion)
    ensures Admits(One(low, high), v) <==> VersionRange.IntervalContains(Interval(low, high), v)
  {
    var iv := Interval(low, high);
    PrecedenceIsTotal();
    VersionRange.MergeContains([iv], v);
    hide FromIntervals, Precedence, StructurallyEmpty;
    assert VersionRange.Contains([iv], v) <==> VersionRange.IntervalContains([iv][0], v);
    if VersionRange.IntervalContains(iv, v) && v.HasPrerelease() {
      if StructurallyEmpty(Precedence, iv) { EmptyHasNoMember(Precedence, iv, v); }
      StartIsClearOfItself(Precedence, iv);
      assert VersionRange.EntersAt([iv], 0, v);
    }
  }

  /** The prerelease is one of the version that the partial one spells, from it on. */
  predicate ContinuesFrom(pv: Partial, v: SemVersion) {
    && pv.IsFull() && pv.prerelease != []
    && v.major == pv.numbers[0] && v.minor == pv.numbers[1] && v.patch == pv.numbers[2]
    && ComparePrerelease(v.prerelease, pv.prerelease) != Less
  }

  lemma SpelledOut(text: string, pv: Partial)
    requires ParsePartial(text) == Some(pv)
    ensures pv.IsFull() ==>
      FilledWithPrerelease(pv) == SemVersion(pv.numbers[0], pv.numbers[1], pv.numbers[2], pv.prerelease, "")
    ensures !pv.IsFull() ==> pv.prerelease == [] && FilledWithPrerelease(pv) == Filled(pv)
  {
    if pv.IsFull() { FullIsItself(text, pv); }
  }

  /** Prereleases from a spelled-out start on. */
  lemma FromStart(pv: Partial, v: SemVersion)
    requires v.HasPrerelease()
    requires pv.IsFull() ==> FilledWithPrerelease(pv) == SemVersion(pv.numbers[0], pv.numbers[1], pv.numbers[2], pv.prerelease, "")
    requires !pv.IsFull() ==> pv.prerelease == [] && FilledWithPrerelease(pv) == Filled(pv)
    ensures var low := At(FilledWithPrerelease(pv), true);
      VersionRange.AdmitsPrerelease(low, v) && LowAdmits(Precedence, low, v) <==> ContinuesFrom(pv, v)
  {
    hide FilledWithPrerelease;
    ComparePrereleaseIsTotal();
    hide ComparePrerelease;
  }

  lemma CaretOfPrereleases(text: string, pv: Partial, v: SemVersion)
    requires ParsePartial(text) == Some(pv) && v.HasPrerelease()
    ensures Admits(CaretRange(pv), v) <==> CaretFits(pv) && ContinuesFrom(pv, v)
  {
    SpelledOut(text, pv);
    FromStart(pv, v);
    hide ParsePartial, FilledWithPrerelease, Admits, CaretFits, CaretRange, Precedence;
    if !pv.HasMajor() {
      AnyRefuses(v);
      CaretOfNothing(pv);
    } else {
      var high := CaretEnd(pv, v);
      OneAdmitsIff(At(BandStart(pv), true), At(high, false), v);
    }
  }

  lemma CaretOfNothing(pv: Partial)
    requires !pv.HasMajor()
    ensures CaretRange(pv) == Accepted(ANY)
  {
  }

  /** The band ends above a prerelease of its version exactly when it fits. */
  lemma CaretEnd(pv: Partial, v: SemVersion) returns (high: SemVersion)
    requires pv.HasMajor() && v.HasPrerelease()
    ensures CaretRange(pv) == One(At(BandStart(pv), true), At(high, false))
    ensures pv.IsFull() && v.major == pv.numbers[0] && v.minor == pv.numbers[1] && v.patch == pv.numbers[2] ==>
              (Precedence(v, high) == Less <==> CaretFits(pv))
  {
    var major, minor, patch := Number(pv, 0), Number(pv, 1), Number(pv, 2);
    high :=
      if major > 0 then Release(Bump(major), 0, 0)
      else if pv.HasMinor() && minor > 0 then Release(0, Bump(minor), 0)
      else if pv.IsFull() then Release(0, minor, Bump(patch))
      else if pv.HasMinor() then Release(0, 1, 0)
      else Release(1, 0, 0);
    hide BandStart, One;
  }

  lemma AnyRefuses(v: SemVersion)
    requires v.HasPrerelease()
    ensures !Admits(Accepted(ANY), v)
  {
  }

  lemma TildeOfPrereleases(text: string, pv: Partial, v: SemVersion)
    requires ParsePartial(text) == Some(pv) && v.HasPrerelease()
    ensures Admits(TildeRange(pv), v) <==> TildeFits(pv) && ContinuesFrom(pv, v)
  {
    SpelledOut(text, pv);
    FromStart(pv, v);
    hide ParsePartial, FilledWithPrerelease, Admits, ComparePrerelease;
    if !pv.HasMajor() {
      AnyRefuses(v);
    } else {
      var high := if pv.HasMinor() then Release(Number(pv, 0), Bump(Number(pv, 1)), 0) else Release(Bump(Number(pv, 0)), 0, 0);
      OneAdmitsIff(At(BandStart(pv), true), At(high, false), v);
    }
  }

  lemma AtLeastOfPrereleases(text: string, pv: Partial, v: SemVersion)
    requires ParsePartial(text) == Some(pv) && v.HasPrerelease()
    ensures Admits(One(At(FilledWithPrerelease(pv), true), Unbounded), v) <==> ContinuesFrom(pv, v)
  {
    SpelledOut(text, pv);
    FromStart(pv, v);
    hide ParsePartial, FilledWithPrerelease, Admits, ComparePrerelease;
    OneAdmitsIff(At(FilledWithPrerelease(pv), true), Unbounded, v);
  }

  lemma AboveOfPrereleases(text: string, pv: Partial, v: SemVersion)
    requires ParsePartial(text) == Some(pv) && v.HasPrerelease()
    ensures Admits(AboveRange(pv), v) <==> ContinuesFrom(pv, v) && v.prerelease != pv.prerelease
  {
    SpelledOut(text, pv);
    ComparePrereleaseIsTotal();
    hide ParsePartial, FilledWithPrerelease, Admits, ComparePrerelease;
    OneAdmitsIff(AboveStart(pv), Unbounded, v);
  }

  /** `<` and `<=` admit no prerelease at all. */
  lemma BelowOfPrereleases(pv: Partial, v: SemVersion)
    requires v.HasPrerelease()
    ensures !Admits(BelowRange(pv), v) && !Admits(AtMostRange(pv), v)
  {
    forall high: Bound<SemVersion> ensures !Admits(One(Unbounded, high), v) { OneAdmitsIff(Unbounded, high, v); }
    hide One, Admits, FilledWithPrerelease, Bump;
    assert !Admits(Undefined, v) by { UndefinedRefuses(v); }
  }

  lemma UndefinedRefuses(v: SemVersion)
    ensures !Admits(Undefined, v)
  {
  }

  /** A hyphen range admits the prereleases of its left end, from it on and up to the right end. */
  lemma HyphenOfPrereleases(low: string, high: string, l: Partial, h: Partial, v: SemVersion)
    requires ParsePartial(low) == Some(l) && ParsePartial(high) == Some(h) && v.HasPrerelease()
    ensures Admits(HyphenPiece(low, high), v) <==> ContinuesFrom(l, v) && Precedence(v, FilledWithPrerelease(h)) != Greater
  {
    SpelledOut(low, l);
    FromStart(l, v);
    PrecedenceIsTotal();
    hide ParsePartial, FilledWithPrerelease, Admits, ComparePrerelease;
    OneAdmitsIff(At(FilledWithPrerelease(l), true), At(FilledWithPrerelease(h), true), v);
  }

  /** A bare partial version is a band of releases. */
  lemma BandOfPrereleases(token: string, text: string, pv: Partial, v: SemVersion)
    requires OperatorOf(token) == (NoOperator, text) || OperatorOf(token) == (Equals, text)
    requires ParsePartial(text) == Some(pv) && 1 <= |pv.numbers| <= 2 && v.HasPrerelease()
    ensures !Admits(ComparatorToRange(token), v)
  {
    var tilde := Partial(pv.numbers, [], false);
    BandBecomesTilde(pv);
    BandReads(pv);
    BareStep(token, text, pv);
    hide ParsePartial, OperatorOf, ComparatorToRange, ParseRange, TildeRange, BandText, Admits;
    TildeOfPrereleases(BandText(pv)[1..], tilde, v);
  }

  /** Caret and tilde admit the very version they are written with, when the number they raise is not the largest. */
  lemma BandsAdmitTheirStart(text: string, pv: Partial)
    requires ParsePartial(text) == Some(pv) && pv.IsFull()
    ensures var v := FilledWithPrerelease(pv);
      && (Admits(CaretRange(pv), v) <==> CaretFits(pv))
      && (Admits(TildeRange(pv), v) <==> TildeFits(pv))
      && Admits(One(At(v, true), Unbounded), v) && Admits(Accepted([ExactInterval(v)]), v)
  {
    var v := FilledWithPrerelease(pv);
    SpelledOut(text, pv);
    ComparePrereleaseIsTotal();
    if v.HasPrerelease() {
      CaretOfPrereleases(text, pv, v);
      TildeOfPrereleases(text, pv, v);
      AtLeastOfPrereleases(text, pv, v);
    } else {
      CaretMeaning(text, pv, v);
      TildeMeaning(text, pv, v);
      AtLeastMeaning(text, pv, v);
    }
    ExactAdmits(v, v);
    PrecedenceIsTotal();
    hide ParsePartial, FilledWithPrerelease, CaretRange, TildeRange, One, ComparePrerelease;
  }

  // ----- The comparators by their symbols -----

  lemma SymbolMeaning(token: string, pv: Partial)
    requires ParsePartial(OperatorOf(token).1) == Some(pv)
    ensures OperatorOf(token).0 == Caret ==> ComparatorToRange(token) == CaretRange(pv)
    ensures OperatorOf(token).0 == Tilde ==> ComparatorToRange(token) == TildeRange(pv)
    ensures OperatorOf(token).0 == Above ==> ComparatorToRange(token) == AboveRange(pv)
    ensures OperatorOf(token).0 == Below ==> ComparatorToRange(token) == BelowRange(pv)
    ensures OperatorOf(token).0 == AtMost ==> ComparatorToRange(token) == AtMostRange(pv)
    ensures OperatorOf(token).0 == AtLeast ==> ComparatorToRange(token) == One(At(FilledWithPrerelease(pv), true), Unbounded)
  {
    hide OperatorOf, ParsePartial, ComparatorToRange, CaretRange, TildeRange, AboveRange, BelowRange, AtMostRange;
    RangeBounds.ComparatorCases(token);
  }

  /** What each symbol is, on the text after it. */
  lemma Symbols(rest: string)
    requires rest != "" && rest[0] != '='
    ensures OperatorOf(">=" + rest) == (AtLeast, rest) && OperatorOf("<=" + rest) == (AtMost, rest)
    ensures OperatorOf(">" + rest) == (Above, rest) && OperatorOf("<" + rest) == (Below, rest)
    ensures OperatorOf("=" + rest) == (Equals, rest)
    ensures OperatorOf("^" + rest) == (Caret, rest) && OperatorOf("~" + rest) == (Tilde, rest)
  {
    forall op | op in [">=", "<="] ensures (op + rest)[..2] == op && (op + rest)[2..] == rest {
    }
    forall op | op in [">", "<", "=", "^", "~"] ensures (op + rest)[..2][1] == rest[0] && (op + rest)[1..] == rest {
    }
  }
}
