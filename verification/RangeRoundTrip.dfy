/** The text of a canonical range parses back to that range. */
module RangeRoundTrip {
  import opened Order
  import opened SemVer
  import opened Decimal
  import opened Intervals
  import opened VersionText
  import opened Rules
  import opened RangeText
  import VersionRange

  // ----- Build metadata plays no part -----

  function Plain(v: SemVersion): SemVersion {
    v.(build := "")
  }

  function PlainBound(b: Bound<SemVersion>): Bound<SemVersion> {
    if b.At? then At(Plain(b.value), b.inclusive) else b
  }

  function PlainInterval(iv: VersionRange.VersionInterval): VersionRange.VersionInterval {
    Interval(PlainBound(iv.low), PlainBound(iv.high))
  }

  function PlainRange(r: Range): (p: Range)
    ensures |p| == |r|
  {
    seq(|r|, i requires 0 <= i < |r| => PlainInterval(r[i]))
  }

  lemma PlainPrecedence(a: SemVersion, b: SemVersion)
    ensures Precedence(Plain(a), Plain(b)) == Precedence(a, b)
    ensures Precedence(Plain(a), a) == Equal
  {
    PrecedenceIsTotal();
  }

  /** The equality of bounds and intervals that the source compares ranges with. */
  ghost predicate SameBound(a: Bound<SemVersion>, b: Bound<SemVersion>) {
    if a.At? && b.At? then Precedence(a.value, b.value) == Equal && a.inclusive == b.inclusive else a.At? == b.At?
  }

  ghost predicate SameRange(a: Range, b: Range) {
    |a| == |b| && forall i :: 0 <= i < |a| ==> SameBound(a[i].low, b[i].low) && SameBound(a[i].high, b[i].high)
  }

  lemma PlainIsSame(r: Range)
    ensures SameRange(PlainRange(r), r)
  {
    hide Precedence;
    forall i | 0 <= i < |r| ensures SameBound(PlainRange(r)[i].low, r[i].low) && SameBound(PlainRange(r)[i].high, r[i].high) {
      if r[i].low.At? { PlainPrecedence(r[i].low.value, r[i].low.value); }
      if r[i].high.At? { PlainPrecedence(r[i].high.value, r[i].high.value); }
    }
  }

  lemma PlainStaysCanonical(r: Range)
    requires VersionRange.CanonicalRange(r)
    ensures VersionRange.CanonicalRange(PlainRange(r))
  {
    hide Precedence;
    var p := PlainRange(r);
    forall i | 0 <= i < |p| ensures !StructurallyEmpty(Precedence, p[i]) {
      if r[i].low.At? && r[i].high.At? { PlainPrecedence(r[i].low.value, r[i].high.value); }
    }
    forall i, j | 0 <= i < j < |p| ensures Gap(Precedence, p[i].high, p[j].low) {
      assert Gap(Precedence, r[i].high, r[j].low);
      PlainPrecedence(r[i].high.value, r[j].low.value);
    }
  }

  // ----- What can be printed within the limits -----

  predicate BoundPrints(b: Bound<SemVersion>) {
    b.At? ==> IsVersion(b.value)
  }

  predicate BoundFits(b: Bound<SemVersion>) {
    b.At? ==> IsVersion(b.value) && |VersionString(b.value)| <= MAX_VERSION_TEXT
  }

  ghost predicate Printable(r: Range) {
    && VersionRange.CanonicalRange(r)
    && |r| <= MAX_GROUPS
    && |RangeString(r)| <= MAX_RANGE_TEXT
    && forall i :: 0 <= i < |r| ==> BoundFits(r[i].low) && BoundFits(r[i].high)
  }

  // ----- Versions inside comparators -----

  lemma PlainText(v: SemVersion)
    requires IsVersion(v)
    ensures IsVersion(Plain(v)) && |VersionString(Plain(v))| <= |VersionString(v)|
  {
  }

  lemma SameCore(v: SemVersion, w: SemVersion)
    requires v.major == w.major && v.minor == w.minor && v.patch == w.patch
    ensures CoreText(v) == CoreText(w)
  {
  }

  lemma RebuiltText(v: SemVersion)
    requires v.prerelease != []
    ensures VersionString(Release(v.major, v.minor, v.patch)) + "-" + Join(v.prerelease, '.') == VersionString(Plain(v))
  {
    SameCore(Release(v.major, v.minor, v.patch), Plain(v));
    hide CoreText, Join;
  }

  /** A printed version reads as itself without its build metadata. */
  lemma VersionReads(v: SemVersion)
    requires IsVersion(v) && |VersionString(v)| <= MAX_VERSION_TEXT
    ensures ParsePartial(VersionString(v)).Some?
    ensures ParsePartial(VersionString(v)).value.IsFull()
    ensures FilledWithPrerelease(ParsePartial(VersionString(v)).value) == Plain(v)
  {
    hide VersionString, ParsePartial, ParseVersion, Join, IsVersion;
    PartialOfVersion(v);
    if v.prerelease != [] {
      RebuiltText(v);
      PlainText(v);
      VersionRoundTrip(Plain(v));
    }
  }

  lemma OperatorReads(v: SemVersion)
    ensures OperatorOf(">=" + VersionString(v)) == (AtLeast, VersionString(v))
    ensures OperatorOf("<=" + VersionString(v)) == (AtMost, VersionString(v))
    ensures OperatorOf(">" + VersionString(v)) == (Above, VersionString(v))
    ensures OperatorOf("<" + VersionString(v)) == (Below, VersionString(v))
    ensures OperatorOf("=" + VersionString(v)) == (Equals, VersionString(v))
  {
    NotEmptyText(v);
    hide VersionString;
    var s := VersionString(v);
    forall op | op in [">=", "<="] ensures (op + s)[..2] == op && (op + s)[2..] == s {
    }
    forall op | op in [">", "<", "="] ensures (op + s)[..2][1] == s[0] && (op + s)[1..] == s && (op + s)[0] == op[0] {
    }
  }

  lemma OneInterval(iv: VersionRange.VersionInterval)
    requires !StructurallyEmpty(Precedence, iv)
    ensures FromIntervals(Precedence, [iv]) == [iv]
  {
    hide Precedence;
    PrecedenceIsTotal();
    FromIntervalsKeepsCanonical(Precedence, [iv]);
  }

  lemma LowReads(b: Bound<SemVersion>)
    requires b.At? && BoundFits(b)
    ensures ComparatorToRange((if b.inclusive then ">=" else ">") + VersionString(b.value))
         == Accepted([Interval(PlainBound(b), Unbounded)])
  {
    hide VersionString, ParsePartial, FilledWithPrerelease, FromIntervals, OperatorOf, IsVersion;
    VersionReads(b.value);
    OperatorReads(b.value);
    OneInterval(Interval(PlainBound(b), Unbounded));
  }

  lemma HighReads(b: Bound<SemVersion>)
    requires b.At? && BoundFits(b)
    ensures ComparatorToRange((if b.inclusive then "<=" else "<") + VersionString(b.value))
         == Accepted([Interval(Unbounded, PlainBound(b))])
  {
    hide VersionString, ParsePartial, FilledWithPrerelease, FromIntervals, OperatorOf, IsVersion;
    VersionReads(b.value);
    OperatorReads(b.value);
    OneInterval(Interval(Unbounded, PlainBound(b)));
  }

  lemma ExactReads(iv: VersionRange.VersionInterval)
    requires IsExactInterval(Precedence, iv) && BoundFits(iv.low)
    ensures ComparatorToRange("=" + VersionString(iv.low.value)) == Accepted([PlainInterval(iv)])
  {
    hide VersionString, ParsePartial, FilledWithPrerelease, OperatorOf, IsVersion;
    VersionReads(iv.low.value);
    OperatorReads(iv.low.value);
    PrecedenceIsTotal();
    assert Plain(iv.low.value) == Plain(iv.high.value);
  }

  // ----- Groups -----

  lemma AnyMeets(cmp: (SemVersion, SemVersion) -> Ordering, iv: VersionRange.VersionInterval)
    requires !StructurallyEmpty(cmp, iv)
    ensures Sweep(cmp, ANY, [iv]) == [iv]
  {
    assert ANY[1..] == [] && [iv][1..] == [];
    assert Meet(cmp, ANY[0], iv) == iv;
    assert Sweep(cmp, ANY, []) == [] && Sweep(cmp, [], [iv]) == [] && Sweep(cmp, [], []) == [];
  }

  lemma HalvesMeet(cmp: (SemVersion, SemVersion) -> Ordering, iv: VersionRange.VersionInterval)
    requires !StructurallyEmpty(cmp, iv)
    ensures Sweep(cmp, [Interval(iv.low, Unbounded)], [Interval(Unbounded, iv.high)]) == [iv]
  {
    var x, y := Interval(iv.low, Unbounded), Interval(Unbounded, iv.high);
    assert [x][1..] == [] && [y][1..] == [];
    assert Meet(cmp, x, y) == iv;
    assert Sweep(cmp, [x], []) == [] && Sweep(cmp, [], [y]) == [];
  }

  lemma GroupOfOne(token: string, iv: VersionRange.VersionInterval)
    requires ComparatorToRange(token) == Accepted([iv]) && !StructurallyEmpty(Precedence, iv)
    ensures ParseGroup([token], 0, ANY) == Accepted([iv])
  {
    hide ComparatorToRange, FromIntervals, Sweep;
    AnyMeets(Precedence, iv);
    OneInterval(iv);
    assert ParseGroup([token], 1, [iv]) == Accepted([iv]);
  }

  lemma GroupOfTwo(low: string, high: string, iv: VersionRange.VersionInterval)
    requires ComparatorToRange(low) == Accepted([Interval(iv.low, Unbounded)])
    requires ComparatorToRange(high) == Accepted([Interval(Unbounded, iv.high)])
    requires !StructurallyEmpty(Precedence, iv)
    ensures ParseGroup([low, high], 0, ANY) == Accepted([iv])
  {
    hide ComparatorToRange, FromIntervals, Sweep;
    var x := Interval(iv.low, Unbounded);
    AnyMeets(Precedence, x);
    OneInterval(x);
    HalvesMeet(Precedence, iv);
    OneInterval(iv);
    assert ParseGroup([low, high], 2, [iv]) == Accepted([iv]);
    assert ParseGroup([low, high], 1, [x]) == ParseGroup([low, high], 2, [iv]);
  }

  lemma PlainNotEmpty(iv: VersionRange.VersionInterval)
    requires !StructurallyEmpty(Precedence, iv)
    ensures !StructurallyEmpty(Precedence, PlainInterval(iv))
  {
    hide Precedence;
    if iv.low.At? && iv.high.At? { PlainPrecedence(iv.low.value, iv.high.value); }
  }

  /** The comparators printed for an interval parse to that interval. */
  lemma IntervalReads(iv: VersionRange.VersionInterval)
    requires BoundFits(iv.low) && BoundFits(iv.high) && !StructurallyEmpty(Precedence, iv)
    requires iv.low.At? || iv.high.At?
    ensures ParseGroup(IntervalTokens(iv), 0, ANY) == Accepted([PlainInterval(iv)])
  {
    PlainNotEmpty(iv);
    hide Precedence, VersionString, ParseGroup, ComparatorToRange, IsVersion;
    var tokens := IntervalTokens(iv);
    if IsExactInterval(Precedence, iv) {
      ExactReads(iv);
      GroupOfOne(tokens[0], PlainInterval(iv));
    } else if !iv.high.At? {
      LowReads(iv.low);
      assert tokens == [tokens[0]];
      GroupOfOne(tokens[0], PlainInterval(iv));
    } else if !iv.low.At? {
      HighReads(iv.high);
      assert tokens == [tokens[0]];
      GroupOfOne(tokens[0], PlainInterval(iv));
    } else {
      LowReads(iv.low);
      HighReads(iv.high);
      assert tokens == [tokens[0], tokens[1]];
      GroupOfTwo(tokens[0], tokens[1], PlainInterval(iv));
    }
  }

  // ----- Words -----

  /** The text of a version has only letters, digits, hyphens, dots and pluses. */
  lemma TextAvoids(v: SemVersion, c: char)
    requires IsVersion(v) && !IsAlphaNumHyphen(c) && c != '.' && c != '+'
    ensures c !in VersionString(v)
  {
    hide Print;
    DigitsAvoid(Print(v.major), c);
    DigitsAvoid(Print(v.minor), c);
    DigitsAvoid(Print(v.patch), c);
    if v.prerelease != [] { IdentifiersTextAvoids(v.prerelease, true, c); }
    if v.build != "" {
      JoinOfSplit(v.build, '.');
      IdentifiersTextAvoids(SplitOn(v.build, '.'), false, c);
    }
  }

  lemma IdentifiersTextAvoids(ids: seq<string>, prerelease: bool, c: char)
    requires AreIdentifiers(ids, prerelease) && !IsAlphaNumHyphen(c) && c != '.'
    ensures c !in Join(ids, '.')
  {
    forall i | 0 <= i < |ids| ensures c !in ids[i] { IdentifiersAvoid(ids[i], prerelease, c); }
    JoinAvoids(ids, '.', c);
  }

  /** A word that `Fold` leaves alone. */
  predicate IsToken(s: string) {
    IsWord(s) && !IsBareOperator(s) && !IsBlank(s[|s| - 1])
  }

  predicate IsOperatorText(op: string) {
    op == ">=" || op == "<=" || op == ">" || op == "<" || op == "="
  }

  lemma TokenText(op: string, v: SemVersion)
    requires IsOperatorText(op) && IsVersion(v)
    ensures IsToken(op + VersionString(v))
  {
    NotEmptyText(v);
    forall c | IsSeparator(c) || c == '|' ensures c !in VersionString(v) { TextAvoids(v, c); }
    hide VersionString, IsVersion;
    var s := op + VersionString(v);
    assert IsDigit(s[|op|]);
    forall i | 0 <= i < |s| ensures !IsSeparator(s[i]) && s[i] != '|' {
      if i >= |op| { assert s[i] == VersionString(v)[i - |op|]; }
    }
  }

  /** What an interval prints: one or two words, the first starting with an operator and not with "<n". */
  lemma IntervalWords(iv: VersionRange.VersionInterval)
    requires BoundPrints(iv.low) && BoundPrints(iv.high) && (iv.low.At? || iv.high.At?)
    ensures 1 <= |IntervalTokens(iv)| <= 2
    ensures forall t :: t in IntervalTokens(iv) ==> IsToken(t)
    ensures var t := IntervalTokens(iv)[0]; |t| > 1 && t[0] in "<>=" && t[1] != 'n'
  {
    hide VersionString, IsToken, IsVersion, Precedence;
    var low := if iv.low.At? && !iv.low.inclusive then ">" else ">=";
    var high := if iv.high.At? && !iv.high.inclusive then "<" else "<=";
    if iv.low.At? {
      WordFacts(low, iv.low.value);
      WordFacts("=", iv.low.value);
    }
    if iv.high.At? { WordFacts(high, iv.high.value); }
  }

  lemma WordFacts(op: string, v: SemVersion)
    requires IsOperatorText(op) && IsVersion(v)
    ensures var t := op + VersionString(v); IsToken(t) && |t| > 1 && t[0] in "<>=" && t[1] != 'n'
  {
    TokenText(op, v);
    NotEmptyText(v);
  }

  lemma Joined(words: seq<string>)
    requires 1 <= |words| <= 2
    ensures Join(words, ' ') == if |words| == 1 then words[0] else words[0] + " " + words[1]
  {
    if |words| == 2 { assert words[1..] == [words[1]]; }
  }

  predicate IsPadding(s: string) {
    s == "" || s == " "
  }

  lemma LeadIsSkipped(lead: string, text: string)
    requires IsPadding(lead)
    ensures TokensOf(lead + text, "") == TokensOf(text, "")
  {
    if lead == " " {
      assert (lead + text)[1..] == text;
      assert [] + TokensOf(text, "") == TokensOf(text, "");
    } else {
      assert lead + text == text;
    }
  }

  lemma OneWord(word: string, trail: string)
    requires IsWord(word) && IsPadding(trail)
    ensures TokensOf(word + trail, "") == [word]
  {
    TokensPastWord(word, trail, "");
    assert "" + word == word;
    if trail == " " {
      assert trail[1..] == "";
      assert TokensOf("", "") == [] && [word] + [] == [word];
    }
  }

  lemma TwoWords(first: string, second: string, trail: string)
    requires IsWord(first) && IsWord(second) && IsPadding(trail)
    ensures TokensOf(first + " " + second + trail, "") == [first, second]
  {
    var rest := " " + (second + trail);
    assert first + " " + second + trail == first + rest;
    TokensPastWord(first, rest, "");
    assert "" + first == first;
    assert rest[1..] == second + trail;
    OneWord(second, trail);
    assert [first] + [second] == [first, second];
  }

  lemma FoldKeeps(words: seq<string>)
    requires |words| <= 2 && forall w :: w in words ==> !IsBareOperator(w)
    ensures Fold(words) == words
  {
    if |words| == 1 {
      assert words[1..] == [] && Fold([]) == [];
      assert words == [words[0]] + [];
    } else if |words| == 2 {
      assert words[1..] == [words[1]] && words[1..][1..] == [];
      assert Fold([words[1]]) == [words[1]] + Fold([]) == [words[1]];
      assert words == [words[0]] + [words[1]];
    }
  }

  lemma PaddedTokens(words: seq<string>, lead: string, trail: string)
    requires 1 <= |words| <= 2 && forall w :: w in words ==> IsWord(w)
    requires IsPadding(lead) && IsPadding(trail)
    ensures TokensOf(lead + Join(words, ' ') + trail, "") == words
  {
    hide IsWord, TokensOf, Join;
    Joined(words);
    var text := Join(words, ' ');
    assert lead + text + trail == lead + (text + trail);
    LeadIsSkipped(lead, text + trail);
    if |words| == 1 {
      OneWord(words[0], trail);
      assert words == [words[0]];
    } else {
      TwoWords(words[0], words[1], trail);
      assert words == [words[0], words[1]];
    }
  }

  lemma PaddedWords(words: seq<string>, lead: string, trail: string)
    requires 1 <= |words| <= 2 && forall w :: w in words ==> IsToken(w)
    requires IsPadding(lead) && IsPadding(trail)
    ensures WordsOf(lead + Join(words, ' ') + trail) == words
  {
    assert forall w :: w in words ==> IsWord(w) && !IsBareOperator(w);
    hide IsToken, IsWord, IsBareOperator, TokensOf, Fold, Join, IsPadding;
    PaddedTokens(words, lead, trail);
    FoldKeeps(words);
  }

  lemma GroupWords(iv: VersionRange.VersionInterval, lead: string, trail: string)
    requires BoundPrints(iv.low) && BoundPrints(iv.high) && (iv.low.At? || iv.high.At?)
    requires IsPadding(lead) && IsPadding(trail)
    ensures WordsOf(lead + IntervalString(iv) + trail) == IntervalTokens(iv)
  {
    IntervalWords(iv);
    hide IntervalTokens, IsToken, BoundPrints, WordsOf, Join;
    PaddedWords(IntervalTokens(iv), lead, trail);
  }

  // ----- Alternatives -----

  lemma {:induction false} GroupsPast(word: string, rest: string, current: string)
    requires '|' !in word
    ensures GroupsOf(word + rest, current) == GroupsOf(rest, current + word)
  {
    if word != "" {
      assert (word + rest)[1..] == word[1..] + rest;
      GroupsPast(word[1..], rest, current + [word[0]]);
      assert current + [word[0]] + word[1..] == current + word;
    } else {
      assert word + rest == rest && current + word == current;
    }
  }

  lemma GroupsPastBars(tail: string, current: string)
    ensures GroupsOf("||" + tail, current) == [current] + GroupsOf(tail, "")
  {
    assert ("||" + tail)[2..] == tail;
  }

  function GroupTexts(r: Range, lead: string): (texts: seq<string>)
    requires r != []
    ensures |texts| == |r|
  {
    if |r| == 1 then [lead + IntervalString(r[0])]
    else [lead + IntervalString(r[0]) + " "] + GroupTexts(r[1..], " ")
  }

  /** Any version text, however long, and at least one bound. */
  ghost predicate AllPrint(r: Range) {
    forall i :: 0 <= i < |r| ==> BoundPrints(r[i].low) && BoundPrints(r[i].high) && (r[i].low.At? || r[i].high.At?)
  }

  ghost predicate AllFit(r: Range) {
    forall i :: 0 <= i < |r| ==>
      BoundFits(r[i].low) && BoundFits(r[i].high) && (r[i].low.At? || r[i].high.At?) && !StructurallyEmpty(Precedence, r[i])
  }

  /** Neither empty nor blank at the end, and not one of the texts with a meaning of their own. */
  predicate StartsAndEndsWell(text: string) {
    |text| > 1 && !IsBlank(text[|text| - 1]) && text[0] in "<>=" && text[1] != 'n'
  }

  lemma JoinedEnds(words: seq<string>)
    requires 1 <= |words| <= 2 && forall w :: w in words ==> IsToken(w)
    requires var t := words[0]; |t| > 1 && t[0] in "<>=" && t[1] != 'n'
    ensures StartsAndEndsWell(Join(words, ' ')) && '|' !in Join(words, ' ')
  {
    Joined(words);
    hide IsBareOperator, Join;
    assert forall w :: w in words ==> w != "" && !IsBlank(w[|w| - 1]) && '|' !in w;
  }

  lemma NoBars(iv: VersionRange.VersionInterval)
    requires BoundPrints(iv.low) && BoundPrints(iv.high) && (iv.low.At? || iv.high.At?)
    ensures '|' !in IntervalString(iv) && StartsAndEndsWell(IntervalString(iv))
  {
    IntervalWords(iv);
    hide IntervalTokens, BoundPrints, IsToken, StartsAndEndsWell, Join;
    JoinedEnds(IntervalTokens(iv));
  }

  lemma GroupsPastAlternative(front: string, tail: string)
    requires '|' !in front
    ensures GroupsOf(front + ("||" + tail), "") == [front] + GroupsOf(tail, "")
  {
    GroupsPast(front, "||" + tail, "");
    hide GroupsOf;
    assert "" + front == front;
    GroupsPastBars(tail, front);
  }

  lemma FirstAlternative(r: Range, lead: string)
    requires |r| > 1
    ensures lead + Alternatives(r) == (lead + IntervalString(r[0]) + " ") + ("||" + (" " + Alternatives(r[1..])))
  {
    hide IntervalString;
  }

  lemma PrintSplits(r: Range)
    requires r != [] && AllPrint(r)
    ensures AllPrint([r[0]]) && AllPrint(r[1..])
    ensures BoundPrints(r[0].low) && BoundPrints(r[0].high) && (r[0].low.At? || r[0].high.At?)
  {
    hide BoundPrints;
  }

  lemma {:induction false} GroupsOfAlternatives(r: Range, lead: string)
    requires r != [] && AllPrint(r) && IsPadding(lead)
    ensures GroupsOf(lead + Alternatives(r), "") == GroupTexts(r, lead)
  {
    PrintSplits(r);
    NoBars(r[0]);
    hide AllPrint, IntervalString, BoundPrints, GroupsOf, StartsAndEndsWell;
    var text := IntervalString(r[0]);
    if |r| == 1 {
      GroupsWithoutBars(lead + text, "");
      assert "" + (lead + text) == lead + text;
    } else {
      FirstAlternative(r, lead);
      GroupsOfAlternatives(r[1..], " ");
      hide Alternatives;
      GroupsPastAlternative(lead + text + " ", " " + Alternatives(r[1..]));
    }
  }

  lemma GroupReads(iv: VersionRange.VersionInterval, lead: string, trail: string, rest: seq<string>, all: Range)
    requires BoundFits(iv.low) && BoundFits(iv.high) && (iv.low.At? || iv.high.At?)
    requires !StructurallyEmpty(Precedence, iv) && IsPadding(lead) && IsPadding(trail)
    ensures ParseGroups([lead + IntervalString(iv) + trail] + rest, all) == ParseGroups(rest, all + [PlainInterval(iv)])
  {
    GroupWords(iv, lead, trail);
    IntervalWords(iv);
    IntervalReads(iv);
    hide IntervalString, IntervalTokens, WordsOf, ParseGroup, BoundFits, StructurallyEmpty, Precedence;
    var groups := [lead + IntervalString(iv) + trail] + rest;
    assert groups[1..] == rest;
  }

  lemma {:induction false} AlternativesRead(r: Range, lead: string, all: Range)
    requires r != [] && AllFit(r) && IsPadding(lead)
    ensures ParseGroups(GroupTexts(r, lead), all) == Accepted(FromIntervals(Precedence, all + PlainRange(r)))
  {
    hide IntervalString, ParseGroups, BoundFits, StructurallyEmpty, Precedence, FromIntervals;
    var p := PlainInterval(r[0]);
    if |r| == 1 {
      GroupReads(r[0], lead, "", [], all);
      assert lead + IntervalString(r[0]) + "" == lead + IntervalString(r[0]);
      assert [lead + IntervalString(r[0])] + [] == GroupTexts(r, lead);
      assert PlainRange(r) == [p];
      NoGroupsLeft(all + [p]);
    } else {
      GroupReads(r[0], lead, " ", GroupTexts(r[1..], " "), all);
      assert AllFit(r[1..]);
      AlternativesRead(r[1..], " ", all + [p]);
      assert all + PlainRange(r) == all + [p] + PlainRange(r[1..]);
    }
  }

  lemma NoGroupsLeft(all: Range)
    ensures ParseGroups([], all) == Accepted(FromIntervals(Precedence, all))
  {
  }

  // ----- The round trip -----

  /** In a canonical range other than `*`, every interval has a bound. */
  lemma EveryIntervalIsBounded(r: Range)
    requires VersionRange.CanonicalRange(r) && !VersionRange.IsAny(r)
    ensures forall i :: 0 <= i < |r| ==> r[i].low.At? || r[i].high.At?
  {
    forall i | 0 <= i < |r| ensures r[i].low.At? || r[i].high.At? {
      if i + 1 < |r| {
        assert Gap(Precedence, r[i].high, r[i + 1].low);
      } else if i > 0 {
        assert Gap(Precedence, r[i - 1].high, r[i].low);
      }
    }
  }

  lemma {:induction false} AlternativesEnds(r: Range)
    requires r != [] && AllPrint(r)
    ensures StartsAndEndsWell(Alternatives(r))
  {
    PrintSplits(r);
    NoBars(r[0]);
    hide AllPrint, IntervalString, BoundPrints;
    if |r| > 1 {
      AlternativesEnds(r[1..]);
      FirstAlternative(r, "");
      assert "" + Alternatives(r) == Alternatives(r);
    }
  }

  lemma TextIsTaken(text: string)
    requires StartsAndEndsWell(text) && |text| <= MAX_RANGE_TEXT && |GroupsOf(text, "")| <= MAX_GROUPS
    ensures ParseRange(text) == ParseGroups(GroupsOf(text, ""), [])
  {
    hide GroupsOf, ParseGroups;
    assert TrimLeft(text) == text && TrimRight(text) == text;
    assert text != "*" && text != "x" && text != "X" && text != "any" && text != "<none>";
  }

  lemma FromIntervalsOfPlain(r: Range)
    requires VersionRange.CanonicalRange(PlainRange(r))
    ensures FromIntervals(Precedence, PlainRange(r)) == PlainRange(r)
  {
    PrecedenceIsTotal();
    FromIntervalsKeepsCanonical(Precedence, PlainRange(r));
  }

  lemma BoundedReads(r: Range)
    requires r != [] && AllFit(r) && |r| <= MAX_GROUPS && |Alternatives(r)| <= MAX_RANGE_TEXT
    ensures ParseRange(Alternatives(r)) == Accepted(FromIntervals(Precedence, PlainRange(r)))
  {
    assert AllPrint(r);
    hide AllFit, AllPrint, ParseRange, ParseGroups, GroupsOf, GroupTexts, FromIntervals, Alternatives, StartsAndEndsWell;
    AlternativesEnds(r);
    GroupsOfAlternatives(r, "");
    AlternativesRead(r, "", []);
    assert "" + Alternatives(r) == Alternatives(r) && [] + PlainRange(r) == PlainRange(r);
    TextIsTaken(Alternatives(r));
  }

  lemma BoundedFits(r: Range)
    requires Printable(r) && !VersionRange.IsAny(r)
    ensures AllFit(r)
  {
    hide RangeString, BoundFits, Precedence;
    EveryIntervalIsBounded(r);
  }

  /**
   * Printing a canonical range and parsing the text gives the range back, interval by
   * interval, but for build metadata, which the source's own equality ignores too.
   */
  lemma RoundTrip(r: Range)
    requires Printable(r)
    ensures ParseRange(RangeString(r)) == Accepted(PlainRange(r))
    ensures SameRange(PlainRange(r), r)
  {
    PlainIsSame(r);
    hide SameRange;
    if r == [] {
      assert PlainRange(r) == [];
    } else if VersionRange.IsAny(r) {
      assert PlainRange(r) == ANY;
    } else {
      BoundedFits(r);
      PlainStaysCanonical(r);
      FromIntervalsOfPlain(r);
      hide AllFit, ParseRange, FromIntervals, Alternatives;
      BoundedReads(r);
    }
  }

  // ----- What the parser accepts is canonical -----

  lemma {:induction false} GroupsAreCanonical(groups: seq<string>, all: Range)
    requires ParseGroups(groups, all).Accepted?
    ensures VersionRange.CanonicalRange(ParseGroups(groups, all).range)
  {
    if groups == [] {
      PrecedenceIsTotal();
      FromIntervalsExact(Precedence, all);
    } else {
      var words := WordsOf(groups[0]);
      hide WordsOf, ParseGroup, Precedence, FromIntervals;
      if words != [] {
        GroupsAreCanonical(groups[1..], all + ParseGroup(words, 0, ANY).range);
      }
    }
  }

  /** Whatever the text, an accepted range is sorted, non-empty and apart. */
  lemma ParsedIsCanonical(text: string)
    requires ParseRange(text).Accepted?
    ensures VersionRange.CanonicalRange(ParseRange(text).range)
  {
    hide ParseGroups, GroupsOf, Precedence;
    var groups := GroupsOf(TrimRight(TrimLeft(text)), "");
    if ParseGroups(groups, []).Accepted? { GroupsAreCanonical(groups, []); }
  }
}
