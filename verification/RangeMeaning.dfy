/** What the comparators of a range admit, for release versions (src/version.cpp). */
module RangeMeaning {
  import opened Order
  import opened SemVer
  import opened Decimal
  import opened Intervals
  import opened VersionText
  import opened Rules
  import opened RangeText
  import opened RangeRoundTrip
  import VersionRange

  ghost predicate Admits(r: Ranged, v: SemVersion) {
    r.Accepted? && VersionRange.Contains(r.range, v)
  }

  predicate Before(v: SemVersion, major: nat, minor: nat, patch: nat) {
    v.major < major || (v.major == major && (v.minor < minor || (v.minor == minor && v.patch < patch)))
  }

  predicate IsAt(v: SemVersion, major: nat, minor: nat, patch: nat) {
    v.major == major && v.minor == minor && v.patch == patch
  }

  predicate StartsBefore(pv: Partial, v: SemVersion) {
    !Before(v, Number(pv, 0), Number(pv, 1), Number(pv, 2))
  }

  lemma OneAdmits(low: Bound<SemVersion>, high: Bound<SemVersion>, v: SemVersion)
    requires !v.HasPrerelease()
    ensures Admits(One(low, high), v) <==> ContainsBound(Precedence, Interval(low, high), v)
  {
    PrecedenceIsTotal();
    var iv := Interval(low, high);
    hide Precedence, FromIntervals, ContainsBound;
    FromIntervalsExact(Precedence, [iv]);
    VersionRange.ReleaseMembership(FromIntervals(Precedence, [iv]), v);
    assert InUnion(Precedence, [iv], v) <==> ContainsBound(Precedence, iv, v) by {
      if ContainsBound(Precedence, iv, v) { assert ContainsBound(Precedence, [iv][0], v); }
    }
  }

  lemma AnyAdmits(v: SemVersion)
    requires !v.HasPrerelease()
    ensures Admits(Accepted(ANY), v)
  {
    assert VersionRange.IntervalContains(ANY[0], v);
  }

  /** Release versions against a release or a prerelease of one. */
  lemma ReleaseOrder(v: SemVersion, w: SemVersion)
    requires !v.HasPrerelease()
    ensures Precedence(v, w) == Less <==> Before(v, w.major, w.minor, w.patch)
    ensures Precedence(v, w) == Equal <==> IsAt(v, w.major, w.minor, w.patch) && !w.HasPrerelease()
    ensures Precedence(w, v) == Flip(Precedence(v, w))
  {
    PrecedenceIsTotal();
  }

  lemma {:induction false} ThreeNumbersNoWildcard(pieces: seq<string>, slot: nat)
    requires pieces != [] && slot <= 3 && ReadComponents(pieces, slot).Some? && |ReadComponents(pieces, slot).value.numbers| == 3 - slot
    ensures !ReadComponents(pieces, slot).value.wildcard
  {
    hide ParseComponent;
    if slot < 3 && |pieces| > 1 && ReadComponents(pieces[1..], slot + 1).Some? {
      ThreeNumbersNoWildcard(pieces[1..], slot + 1);
    }
  }

  /** A partial version with all three numbers stands for exactly the version it spells. */
  lemma FullIsItself(text: string, pv: Partial)
    requires ParsePartial(text) == Some(pv) && pv.IsFull()
    ensures FilledWithPrerelease(pv) == SemVersion(pv.numbers[0], pv.numbers[1], pv.numbers[2], pv.prerelease, "")
  {
    ThreeNumbersNoWildcard(SplitOn(PartsOf(text).core, '.'), 0);
    AcceptedTextIsCanonical(text);
    var v := ParseVersion(text).value;
    hide ParsePartial, FilledWithPrerelease, VersionString, IsVersion;
    TextFits(text);
    VersionReads(v);
  }

  lemma TextFits(text: string)
    requires ParsePartial(text).Some?
    ensures |text| <= MAX_VERSION_TEXT
  {
  }

  lemma StartIsItself(text: string, pv: Partial)
    requires ParsePartial(text) == Some(pv)
    ensures var w := BandStart(pv); w.major == Number(pv, 0) && w.minor == Number(pv, 1) && w.patch == Number(pv, 2)
    ensures var w := FilledWithPrerelease(pv);
      w.major == Number(pv, 0) && w.minor == Number(pv, 1) && w.patch == Number(pv, 2) && w.prerelease == pv.prerelease
  {
    if pv.IsFull() { FullIsItself(text, pv); }
  }

  // ----- Caret: the leftmost non-zero number stays -----

  predicate CaretSays(pv: Partial, v: SemVersion) {
    StartsBefore(pv, v)
    && if !pv.HasMajor() then true
       else if pv.numbers[0] > 0 || !pv.HasMinor() then v.major == pv.numbers[0]
       else if pv.numbers[1] > 0 || !pv.IsFull() then v.major == 0 && v.minor == pv.numbers[1]
       else IsAt(v, 0, 0, pv.numbers[2])
  }

  /** The number to be raised is not the largest. */
  predicate CaretFits(pv: Partial) {
    if !pv.HasMajor() then true
    else if pv.numbers[0] > 0 then pv.numbers[0] < MAX_COMPONENT
    else if pv.HasMinor() && pv.numbers[1] > 0 then pv.numbers[1] < MAX_COMPONENT
    else pv.IsFull() ==> pv.numbers[2] < MAX_COMPONENT
  }

  lemma CaretMeaning(text: string, pv: Partial, v: SemVersion)
    requires ParsePartial(text) == Some(pv) && !v.HasPrerelease()
    ensures Admits(CaretRange(pv), v) <==> CaretFits(pv) && CaretSays(pv, v)
  {
    StartIsItself(text, pv);
    hide ParsePartial, BandStart, FilledWithPrerelease, Admits;
    if !pv.HasMajor() {
      AnyAdmits(v);
    } else {
      var major, minor, patch := Number(pv, 0), Number(pv, 1), Number(pv, 2);
      var low := BandStart(pv);
      var high :=
        if major > 0 then Release(Bump(major), 0, 0)
        else if pv.HasMinor() && minor > 0 then Release(0, Bump(minor), 0)
        else if pv.IsFull() then Release(0, minor, Bump(patch))
        else if pv.HasMinor() then Release(0, 1, 0)
        else Release(1, 0, 0);
      OneAdmits(At(low, true), At(high, false), v);
      hide One, Precedence;
      ReleaseOrder(v, low);
      ReleaseOrder(v, high);
    }
  }

  // ----- Tilde: the minor number stays, or the major one if it stands alone -----

  predicate TildeSays(pv: Partial, v: SemVersion) {
    StartsBefore(pv, v)
    && (pv.HasMajor() ==> v.major == pv.numbers[0]) && (pv.HasMinor() ==> v.minor == pv.numbers[1])
  }

  predicate TildeFits(pv: Partial) {
    if pv.HasMinor() then pv.numbers[1] < MAX_COMPONENT else pv.HasMajor() ==> pv.numbers[0] < MAX_COMPONENT
  }

  lemma TildeMeaning(text: string, pv: Partial, v: SemVersion)
    requires ParsePartial(text) == Some(pv) && !v.HasPrerelease()
    ensures Admits(TildeRange(pv), v) <==> TildeFits(pv) && TildeSays(pv, v)
  {
    StartIsItself(text, pv);
    hide ParsePartial, BandStart, FilledWithPrerelease, Admits;
    if !pv.HasMajor() {
      AnyAdmits(v);
    } else {
      var low := BandStart(pv);
      var high := if pv.HasMinor() then Release(Number(pv, 0), Bump(Number(pv, 1)), 0) else Release(Bump(Number(pv, 0)), 0, 0);
      OneAdmits(At(low, true), At(high, false), v);
      hide One, Precedence;
      ReleaseOrder(v, low);
      ReleaseOrder(v, high);
    }
  }

  // ----- The order operators: a partial version stands for its whole band -----

  predicate AboveBand(pv: Partial, v: SemVersion) {
    if pv.HasMinor() then v.major > pv.numbers[0] || (v.major == pv.numbers[0] && v.minor > pv.numbers[1])
    else pv.HasMajor() ==> v.major > pv.numbers[0]
  }

  /** A release is past a prerelease of its own. */
  predicate AboveSays(pv: Partial, v: SemVersion) {
    if pv.IsFull() then StartsBefore(pv, v) && !(pv.prerelease == [] && IsAt(v, pv.numbers[0], pv.numbers[1], pv.numbers[2]))
    else AboveBand(pv, v)
  }

  predicate BandFits(pv: Partial) {
    pv.IsFull() || TildeFits(pv)
  }

  lemma AboveMeaning(text: string, pv: Partial, v: SemVersion)
    requires ParsePartial(text) == Some(pv) && !v.HasPrerelease() && BandFits(pv)
    ensures Admits(AboveRange(pv), v) <==> AboveSays(pv, v)
  {
    StartIsItself(text, pv);
    hide ParsePartial, BandStart, FilledWithPrerelease, Admits;
    var low := AboveStart(pv);
    OneAdmits(low, Unbounded, v);
    hide One, Precedence;
    if low.At? { ReleaseOrder(v, low.value); }
  }

  function AboveStart(pv: Partial): Bound<SemVersion> {
    if pv.IsFull() then At(FilledWithPrerelease(pv), false)
    else if pv.HasMinor() then At(Release(Number(pv, 0), Bump(Number(pv, 1)), 0), true)
    else if pv.HasMajor() then At(Release(Bump(Number(pv, 0)), 0, 0), true)
    else Unbounded
  }

  /** Where the raised number wraps to zero, `>` admits versions of the band itself. */
  lemma AboveWraps(pv: Partial)
    requires !BandFits(pv)
    ensures var v := Release(if pv.HasMinor() then pv.numbers[0] else 0, 0, 0); Admits(AboveRange(pv), v) && !AboveSays(pv, v)
  {
    var v := Release(if pv.HasMinor() then pv.numbers[0] else 0, 0, 0);
    OneAdmits(AboveStart(pv), Unbounded, v);
    ReleaseOrder(v, AboveStart(pv).value);
  }

  predicate AtMostSays(pv: Partial, v: SemVersion) {
    if pv.IsFull() then
      !StartsBefore(pv, v) || (pv.prerelease == [] && IsAt(v, pv.numbers[0], pv.numbers[1], pv.numbers[2]))
    else !AboveBand(pv, v)
  }

  function AtMostEnd(pv: Partial): Bound<SemVersion>
    requires pv.HasMajor()
  {
    if pv.IsFull() then At(FilledWithPrerelease(pv), true)
    else if pv.HasMinor() then At(Release(Number(pv, 0), Bump(Number(pv, 1)), 0), false)
    else At(Release(Bump(Number(pv, 0)), 0, 0), false)
  }

  lemma AtMostMeaning(text: string, pv: Partial, v: SemVersion)
    requires ParsePartial(text) == Some(pv) && pv.HasMajor() && !v.HasPrerelease() && BandFits(pv)
    ensures Admits(AtMostRange(pv), v) <==> AtMostSays(pv, v)
  {
    StartIsItself(text, pv);
    hide ParsePartial, BandStart, FilledWithPrerelease, Admits;
    OneAdmits(Unbounded, AtMostEnd(pv), v);
    hide One, Precedence;
    ReleaseOrder(v, AtMostEnd(pv).value);
  }

  /** Where it wraps, `<=` leaves out versions of the band. */
  lemma AtMostWraps(pv: Partial)
    requires !BandFits(pv)
    ensures var v := Release(if pv.HasMinor() then pv.numbers[0] else 0, 0, 0); !Admits(AtMostRange(pv), v) && AtMostSays(pv, v)
  {
    var v := Release(if pv.HasMinor() then pv.numbers[0] else 0, 0, 0);
    OneAdmits(Unbounded, AtMostEnd(pv), v);
    ReleaseOrder(v, AtMostEnd(pv).value);
  }

  lemma BelowMeaning(text: string, pv: Partial, v: SemVersion)
    requires ParsePartial(text) == Some(pv) && pv.HasMajor() && !v.HasPrerelease()
    ensures Admits(BelowRange(pv), v) <==> !StartsBefore(pv, v)
  {
    StartIsItself(text, pv);
    hide ParsePartial, BandStart, FilledWithPrerelease, Admits;
    var end := if pv.IsFull() then FilledWithPrerelease(pv) else Release(Number(pv, 0), Number(pv, 1), 0);
    OneAdmits(Unbounded, At(end, false), v);
    hide One, Precedence;
    ReleaseOrder(v, end);
  }

  lemma AtLeastMeaning(text: string, pv: Partial, v: SemVersion)
    requires ParsePartial(text) == Some(pv) && !v.HasPrerelease()
    ensures Admits(One(At(FilledWithPrerelease(pv), true), Unbounded), v) <==> StartsBefore(pv, v)
  {
    StartIsItself(text, pv);
    hide ParsePartial, BandStart, FilledWithPrerelease, Admits;
    OneAdmits(At(FilledWithPrerelease(pv), true), Unbounded, v);
    hide One, Precedence;
    ReleaseOrder(v, FilledWithPrerelease(pv));
  }

  // ----- A bare partial version is the band it names -----

  lemma BandTail(pv: Partial)
    requires 1 <= |pv.numbers| <= 2
    ensures BandText(pv)[1..] == Print(pv.numbers[0]) + if pv.HasMinor() then "." + Print(pv.numbers[1]) else ""
  {
    hide Print;
  }

  lemma PrintedFits(n: u32)
    ensures ParseComponent(Print(n)) == Some(n) && |Print(n)| <= 10
  {
    PrintedComponent(n);
    PrintedIsShort(n);
  }

  lemma OneNumberReads(m: u32)
    ensures ParsePartial(Print(m)) == Some(Partial([m], [], false))
  {
    PrintedFits(m);
    hide Print, ParseComponent, ParsePartial, Join;
    PiecesRead([Print(m)], [m]);
    JoinOne(Print(m));
  }

  lemma TwoNumbersRead(m: u32, n: u32)
    ensures ParsePartial(Print(m) + "." + Print(n)) == Some(Partial([m, n], [], false))
  {
    PrintedFits(m);
    PrintedFits(n);
    hide Print, ParseComponent, ParsePartial, Join;
    PiecesRead([Print(m), Print(n)], [m, n]);
    JoinTwo(Print(m), Print(n));
  }

  lemma BandReads(pv: Partial)
    requires 1 <= |pv.numbers| <= 2
    ensures ParsePartial(BandText(pv)[1..]) == Some(Partial(pv.numbers, [], false))
  {
    BandTail(pv);
    hide Print, ParsePartial, BandText;
    if pv.HasMinor() {
      assert pv.numbers == [pv.numbers[0], pv.numbers[1]];
      TwoNumbersRead(pv.numbers[0], pv.numbers[1]);
      var a, b := Print(pv.numbers[0]), Print(pv.numbers[1]);
      assert a + ("." + b) == a + "." + b;
    } else {
      assert pv.numbers == [pv.numbers[0]];
      OneNumberReads(pv.numbers[0]);
      assert Print(pv.numbers[0]) + "" == Print(pv.numbers[0]);
    }
  }

  lemma JoinOne(a: string)
    ensures Join([a], '.') == a
  {
  }

  lemma JoinTwo(a: string, b: string)
    ensures Join([a, b], '.') == a + "." + b
  {
    assert [a, b][1..] == [b];
  }

  lemma PiecesRead(pieces: seq<string>, numbers: seq<u32>)
    requires 1 <= |pieces| == |numbers| <= 2
    requires forall i :: 0 <= i < |pieces| ==> ParseComponent(pieces[i]) == Some(numbers[i]) && |pieces[i]| <= 10
    ensures ParsePartial(Join(pieces, '.')) == Some(Partial(numbers, [], false))
  {
    forall i, c | 0 <= i < |pieces| && c in ['.', '+', '-'] ensures c !in pieces[i] { DigitsAvoid(pieces[i], c); }
    BandComponents(pieces, numbers);
    SplitOfJoin(pieces, '.');
    JoinAvoids(pieces, '.', '+');
    JoinAvoids(pieces, '.', '-');
    var text := Join(pieces, '.');
    NotWildcard(pieces[0]);
    if |pieces| == 1 {
      JoinOne(pieces[0]);
      assert pieces == [pieces[0]];
    } else {
      JoinTwo(pieces[0], pieces[1]);
      assert pieces == [pieces[0], pieces[1]];
    }
    hide SplitOn, Join, FindFrom, ReadComponents, ParseComponent;
    PlainParts(text);
  }

  lemma PlainParts(text: string)
    requires '+' !in text && '-' !in text
    ensures PartsOf(text) == Parts(text, None, None)
  {
    FindNothing(text, '+');
    FindNothing(text, '-');
  }

  lemma PrintedIsShort(n: u32)
    ensures |Print(n)| <= 10
  {
    PrintedComponent(n);
  }

  lemma BandComponents(pieces: seq<string>, numbers: seq<u32>)
    requires 1 <= |pieces| == |numbers| <= 2
    requires forall i :: 0 <= i < |pieces| ==> ParseComponent(pieces[i]) == Some(numbers[i])
    ensures ReadComponents(pieces, 0) == Some(Components(numbers, false))
  {
    hide ParseComponent;
    ReadStep(pieces, 0);
    if |pieces| == 2 {
      ReadStep(pieces[1..], 1);
      assert numbers == [numbers[0]] + [numbers[1]];
    } else {
      assert numbers == [numbers[0]];
    }
  }

  lemma TildeOperator(rest: string)
    ensures OperatorOf("~" + rest) == (Tilde, rest)
  {
    var token := "~" + rest;
    assert token[1..] == rest;
    if rest != "" { assert token[..2][0] == '~'; }
  }

  lemma TildeTokenReads(pv: Partial)
    requires 1 <= |pv.numbers| <= 2
    ensures ComparatorToRange(BandText(pv)) == TildeRange(Partial(pv.numbers, [], false))
  {
    BandReads(pv);
    hide Print;
    var rest := BandText(pv)[1..];
    assert BandText(pv) == "~" + rest;
    TildeOperator(rest);
    hide ParsePartial, TildeRange, OperatorOf, BandText;
    TildeStep("~" + rest, rest, Partial(pv.numbers, [], false));
  }

  lemma TildeStep(token: string, rest: string, pv: Partial)
    requires OperatorOf(token) == (Tilde, rest) && ParsePartial(rest) == Some(pv)
    ensures ComparatorToRange(token) == TildeRange(pv)
  {
    hide ParsePartial, TildeRange, OperatorOf;
  }

  lemma BareStep(token: string, text: string, pv: Partial)
    requires OperatorOf(token) == (NoOperator, text) || OperatorOf(token) == (Equals, text)
    requires ParsePartial(text) == Some(pv) && 1 <= |pv.numbers| <= 2
    ensures ComparatorToRange(token) == ParseRange(BandText(pv))
  {
    hide ParsePartial, ParseRange, OperatorOf;
  }

  lemma NothingMeets(cmp: (SemVersion, SemVersion) -> Ordering)
    ensures Sweep(cmp, ANY, []) == [] && FromIntervals(cmp, []) == []
  {
  }

  lemma BandGroup(token: string, r: Range)
    requires ComparatorToRange(token) == Accepted(r) && |r| <= 1
    requires |r| == 1 ==> !StructurallyEmpty(Precedence, r[0])
    ensures ParseGroup([token], 0, ANY) == Accepted(r)
  {
    if |r| == 1 {
      assert r == [r[0]];
      GroupOfOne(token, r[0]);
    } else {
      NothingMeets(Precedence);
      hide ComparatorToRange, FromIntervals, Sweep, Precedence;
      assert ParseGroup([token], 1, []) == Accepted([]);
    }
  }

  lemma OneIsAtMostOne(low: Bound<SemVersion>, high: Bound<SemVersion>)
    ensures var r := One(low, high).range;
      |r| <= 1 && (|r| == 1 ==> !StructurallyEmpty(Precedence, r[0])) && FromIntervals(Precedence, r) == r
  {
    PrecedenceIsTotal();
    var iv := Interval(low, high);
    hide Precedence;
    FromIntervalsExact(Precedence, [iv]);
    FromIntervalsKeepsCanonical(Precedence, FromIntervals(Precedence, [iv]));
    hide StructurallyEmpty;
    assert [iv][..0] == [];
    assert DropEmpty(Precedence, [iv]) == if StructurallyEmpty(Precedence, iv) then [] else [iv];
    assert [iv][1..] == [];
    assert Sorting.Sort(SortOrder(Precedence), [iv]) == [iv];
    assert Merge(Precedence, [iv]) == [iv];
  }

  lemma TildeIsSmall(pv: Partial)
    requires pv.HasMajor()
    ensures TildeRange(pv).Accepted?
    ensures var r := TildeRange(pv).range;
      |r| <= 1 && (|r| == 1 ==> !StructurallyEmpty(Precedence, r[0])) && FromIntervals(Precedence, r) == r
  {
    var high := if pv.HasMinor() then Release(Number(pv, 0), Bump(Number(pv, 1)), 0) else Release(Bump(Number(pv, 0)), 0, 0);
    OneIsAtMostOne(At(BandStart(pv), true), At(high, false));
    hide BandStart, One, Precedence, FromIntervals;
  }

  lemma BandIsTaken(text: string)
    requires IsBand(text) && |text| <= MAX_RANGE_TEXT
    ensures ParseRange(text) == ParseGroups([text], [])
  {
    BandIsOneWord(text);
    hide GroupsOf, ParseGroups, WordsOf;
    assert text != "*" && text != "x" && text != "X" && text != "any" && text != "<none>";
  }

  lemma BandIsShort(pv: Partial)
    requires 1 <= |pv.numbers| <= 2
    ensures |BandText(pv)| <= MAX_RANGE_TEXT
  {
    PrintedIsShort(pv.numbers[0]);
    if pv.HasMinor() { PrintedIsShort(pv.numbers[1]); }
    hide Print;
  }

  /** The rewriting through text arrives: "1.2" is "~1.2". */
  lemma BandBecomesTilde(pv: Partial)
    requires 1 <= |pv.numbers| <= 2
    ensures ParseRange(BandText(pv)) == TildeRange(Partial(pv.numbers, [], false))
  {
    var text, tilde := BandText(pv), Partial(pv.numbers, [], false);
    TildeTokenReads(pv);
    BandTextIsBand(pv);
    BandIsShort(pv);
    BandIsTaken(text);
    BandIsOneWord(text);
    TildeIsSmall(tilde);
    hide *;
    var r := TildeRange(tilde).range;
    BandGroup(text, r);
    GroupsOfOneWord(text, r);
  }

  lemma GroupsOfOneWord(text: string, r: Range)
    requires WordsOf(text) == [text] && ParseGroup([text], 0, ANY) == Accepted(r) && FromIntervals(Precedence, r) == r
    ensures ParseGroups([text], []) == Accepted(r)
  {
    hide WordsOf, ParseGroup, FromIntervals, Precedence;
    assert [text][1..] == [] && [] + r == r;
    NoGroupsLeft(r);
  }

  /** A bare or `=` partial version admits exactly the versions that agree on the numbers it gives. */
  lemma BandMeaning(token: string, text: string, pv: Partial, v: SemVersion)
    requires OperatorOf(token) == (NoOperator, text) || OperatorOf(token) == (Equals, text)
    requires ParsePartial(text) == Some(pv) && 1 <= |pv.numbers| <= 2 && !v.HasPrerelease()
    ensures Admits(ComparatorToRange(token), v) <==>
      TildeFits(pv) && v.major == pv.numbers[0] && (pv.HasMinor() ==> v.minor == pv.numbers[1])
  {
    var tilde := Partial(pv.numbers, [], false);
    BandBecomesTilde(pv);
    BandReads(pv);
    BareStep(token, text, pv);
    hide ParsePartial, OperatorOf, ComparatorToRange, ParseRange, TildeRange, BandText, Admits;
    TildeMeaning(BandText(pv)[1..], tilde, v);
  }
}
