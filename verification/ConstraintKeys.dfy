/** The text key that orders constraints, and what it tells apart (src/rule.cpp). */
module ConstraintKeys {
  import opened Order
  import opened SemVer
  import opened Decimal
  import opened Intervals
  import opened VersionText
  import opened Rules
  import opened RangeText
  import opened RangeRoundTrip
  import opened RangeBounds
  import VersionRange

  function KindIndex(c: Constraint): nat {
    match c
    case RequiresCapability(_, _) => 0
    case RequiresCapabilityValue(_, _, _, _) => 1
    case ForbidsCapability(_, _) => 2
    case RequiresProtocol(_, _, _) => 3
    case ForbidsProtocol(_, _) => 4
    case RequiresSchema(_, _, _) => 5
    case ForbidsSchema(_, _) => 6
    case RequiresHardwareClass(_, _) => 7
    case ForbidsHardwareClass(_, _) => 8
    case VersionAtLeast(_, _) => 9
    case VersionAtMost(_, _) => 10
    case RequiresFeature(_, _) => 11
    case ForbidsFeature(_, _) => 12
  }

  function SideIndex(s: Side): nat {
    match s
    case Left => 0
    case Right => 1
    case AllMembers => 2
  }

  function OpIndex(op: ComparisonOp): nat {
    match op
    case Eq => 0
    case Ne => 1
    case Lt => 2
    case Le => 3
    case Gt => 4
    case Ge => 5
  }

  function IntText(n: int): string {
    if n < 0 then "-" + Print(-n) else Print(n)
  }

  function LiteralText(v: CapabilityValue): string {
    match v
    case Flag(b) => if b then "true" else "false"
    case Integer(n) => IntText(n)
    case Text(t) => t
    case Version(v) => VersionString(v)
  }

  function Index(n: nat): string {
    Padded(n, 3)
  }

  function KeyBody(c: Constraint): string {
    match c
    case RequiresCapability(_, id) => id
    case RequiresCapabilityValue(_, id, op, literal) => id + "|" + (Index(OpIndex(op)) + "|" + LiteralText(literal))
    case ForbidsCapability(_, id) => id
    case RequiresProtocol(_, id, range) => id + "|" + RangeString(range)
    case ForbidsProtocol(_, id) => id
    case RequiresSchema(_, id, range) => id + "|" + RangeString(range)
    case ForbidsSchema(_, id) => id
    case RequiresHardwareClass(_, id) => id
    case ForbidsHardwareClass(_, id) => id
    case VersionAtLeast(_, v) => VersionString(v)
    case VersionAtMost(_, v) => VersionString(v)
    case RequiresFeature(_, id) => id
    case ForbidsFeature(_, id) => id
  }

  function ConstraintSortKey(c: Constraint): string {
    Index(KindIndex(c)) + "|" + Index(SideIndex(c.side)) + "|" + KeyBody(c)
  }

  // ----- What constraints can hold -----

  predicate IsAlphaNum(c: char) {
    IsDigit(c) || 'a' <= c <= 'z' || 'A' <= c <= 'Z'
  }

  predicate IsNameSeparator(c: char) {
    c == '.' || c == '_' || c == '-'
  }

  /** A qualified name: letters and digits, with single separators inside. */
  predicate IsName(s: string) {
    && 1 <= |s| <= 64
    && IsAlphaNum(s[0]) && IsAlphaNum(s[|s| - 1])
    && (forall i :: 0 <= i < |s| ==> IsAlphaNum(s[i]) || IsNameSeparator(s[i]))
    && (forall i :: 0 < i < |s| ==> !(IsNameSeparator(s[i - 1]) && IsNameSeparator(s[i])))
  }

  /** Bounds the range parser can produce: versions without build metadata. */
  predicate BareBound(b: Bound<SemVersion>) {
    b.At? ==> BareVersion(b.value)
  }

  ghost predicate BareRange(r: Range) {
    VersionRange.CanonicalRange(r) && forall i :: 0 <= i < |r| ==> BareBound(r[i].low) && BareBound(r[i].high)
  }

  /** Whatever range the parser accepts is of that kind. */
  lemma AcceptedIsBare(text: string)
    requires ParseRange(text).Accepted?
    ensures BareRange(ParseRange(text).range)
  {
    ParsedIsCanonical(text);
    ParsedIsBare(text);
    var r := ParseRange(text).range;
    hide ParseRange, BareVersion, VersionRange.CanonicalRange;
    forall i | 0 <= i < |r| ensures BareBound(r[i].low) && BareBound(r[i].high) {
      assert r[i] in r && EndsAre(BareVersion, r[i]);
    }
  }

  predicate LiteralFits(v: CapabilityValue) {
    v.Version? ==> IsVersion(v.version)
  }

  ghost predicate WellFormed(c: Constraint) {
    match c
    case RequiresCapability(_, id) => IsName(id)
    case RequiresCapabilityValue(_, id, op, literal) => IsName(id) && LiteralFits(literal)
    case ForbidsCapability(_, id) => IsName(id)
    case RequiresProtocol(_, id, range) => IsName(id) && BareRange(range)
    case ForbidsProtocol(_, id) => IsName(id)
    case RequiresSchema(_, id, range) => IsName(id) && BareRange(range)
    case ForbidsSchema(_, id) => IsName(id)
    case RequiresHardwareClass(_, id) => IsName(id)
    case ForbidsHardwareClass(_, id) => IsName(id)
    case VersionAtLeast(_, v) => IsVersion(v)
    case VersionAtMost(_, v) => IsVersion(v)
    case RequiresFeature(_, id) => IsName(id)
    case ForbidsFeature(_, id) => IsName(id)
  }

  // ----- Texts that determine what they print -----

  /** Two versions with one text are one version, build metadata included. */
  lemma VersionTextInjective(a: SemVersion, b: SemVersion)
    requires IsVersion(a) && IsVersion(b) && VersionString(a) == VersionString(b)
    ensures a == b
  {
    hide PartsOf, TextOf, CoreText, ReadComponents, AreIdentifiers, SplitIdentifiers;
    forall v | v in [a, b] ensures PartsOf(VersionString(v)) == PartsOfVersion(v) {
      CoreRoundTrip(v);
      if v.prerelease != [] { PrereleaseText(v.prerelease); }
      PartsOfText(PartsOfVersion(v));
    }
    CoreRoundTrip(a);
    CoreRoundTrip(b);
    SameThree(a, b);
    if a.prerelease != [] {
      IdentifiersRoundTrip(a.prerelease, true);
      IdentifiersRoundTrip(b.prerelease, true);
    }
  }

  lemma SameThree(a: SemVersion, b: SemVersion)
    requires [a.major, a.minor, a.patch] == [b.major, b.minor, b.patch]
    ensures a.major == b.major && a.minor == b.minor && a.patch == b.patch
  {
    var s, t := [a.major, a.minor, a.patch], [b.major, b.minor, b.patch];
    assert s[0] == t[0] && s[1] == t[1] && s[2] == t[2];
  }

  lemma IntTextInjective(m: int, n: int)
    requires IntText(m) == IntText(n)
    ensures m == n
  {
    ValueOfPrint(if m < 0 then -m else m);
    ValueOfPrint(if n < 0 then -n else n);
    hide Print, NumericValue;
    assert IntText(m)[0] == '-' <==> m < 0;
    assert IntText(n)[0] == '-' <==> n < 0;
    if m < 0 { assert IntText(m)[1..] == Print(-m) && IntText(n)[1..] == Print(-n); }
  }

  lemma IndexInjective(m: nat, n: nat)
    requires m < 1000 && n < 1000 && Index(m) == Index(n)
    ensures m == n
  {
    assert Pow10(3) == 1000;
    ValueOfPadded(m, 3);
    ValueOfPadded(n, 3);
  }

  /** An operator and the version after it. */
  lemma TokenInjective(op: string, v: SemVersion, op': string, v': SemVersion)
    requires IsOperatorText(op) && IsOperatorText(op') && IsVersion(v) && IsVersion(v')
    requires op + VersionString(v) == op' + VersionString(v')
    ensures op == op' && v == v'
  {
    NotEmptyText(v);
    NotEmptyText(v');
    assert op == op' by {
      hide VersionString, IsVersion;
      OperatorEndsAtDigit(op, VersionString(v), op', VersionString(v'));
    }
    assert (op + VersionString(v))[|op|..] == VersionString(v);
    assert (op' + VersionString(v'))[|op|..] == VersionString(v');
    VersionTextInjective(v, v');
  }

  lemma OperatorEndsAtDigit(op: string, s: string, op': string, s': string)
    requires IsOperatorText(op) && IsOperatorText(op') && s != "" && s' != "" && IsDigit(s[0]) && IsDigit(s'[0])
    requires op + s == op' + s'
    ensures op == op'
  {
    assert (op + s)[|op|] == s[0] && (op' + s')[|op'|] == s'[0];
    assert forall i :: 0 <= i < |op| ==> (op + s)[i] == op[i];
    assert forall i :: 0 <= i < |op'| ==> (op' + s')[i] == op'[i];
  }

  function LowText(b: Bound<SemVersion>): string
    requires b.At?
  {
    (if b.inclusive then ">=" else ">") + VersionString(b.value)
  }

  function HighText(b: Bound<SemVersion>): string
    requires b.At?
  {
    (if b.inclusive then "<=" else "<") + VersionString(b.value)
  }

  lemma TokensByShape(iv: VersionRange.VersionInterval)
    requires iv.low.At? || iv.high.At?
    ensures IntervalTokens(iv) ==
      if IsExactInterval(Precedence, iv) then ["=" + VersionString(iv.low.value)]
      else if !iv.high.At? then [LowText(iv.low)]
      else if !iv.low.At? then [HighText(iv.high)]
      else [LowText(iv.low), HighText(iv.high)]
  {
    hide VersionString, Precedence;
  }

  lemma ExactEnds(iv: VersionRange.VersionInterval)
    requires BareBound(iv.low) && BareBound(iv.high) && IsExactInterval(Precedence, iv)
    ensures iv == ExactInterval(iv.low.value)
  {
    PrecedenceIsTotal();
  }

  lemma FirstCharacters(b: Bound<SemVersion>)
    requires b.At?
    ensures LowText(b)[0] == '>' && HighText(b)[0] == '<'
  {
  }

  lemma LowTextInjective(a: Bound<SemVersion>, b: Bound<SemVersion>)
    requires a.At? && b.At? && BareBound(a) && BareBound(b) && LowText(a) == LowText(b)
    ensures a == b
  {
    TokenInjective(if a.inclusive then ">=" else ">", a.value, if b.inclusive then ">=" else ">", b.value);
  }

  lemma HighTextInjective(a: Bound<SemVersion>, b: Bound<SemVersion>)
    requires a.At? && b.At? && BareBound(a) && BareBound(b) && HighText(a) == HighText(b)
    ensures a == b
  {
    TokenInjective(if a.inclusive then "<=" else "<", a.value, if b.inclusive then "<=" else "<", b.value);
  }

  lemma FirstOfTokens(iv: VersionRange.VersionInterval)
    requires iv.low.At? || iv.high.At?
    ensures IntervalTokens(iv) != [] && IntervalTokens(iv)[0] != ""
    ensures var c := IntervalTokens(iv)[0][0];
      c == if IsExactInterval(Precedence, iv) then '=' else if iv.low.At? then '>' else '<'
    ensures |IntervalTokens(iv)| == if !IsExactInterval(Precedence, iv) && iv.low.At? && iv.high.At? then 2 else 1
  {
    TokensByShape(iv);
    if iv.low.At? { FirstCharacters(iv.low); }
    if iv.high.At? { FirstCharacters(iv.high); }
  }

  /** The comparators printed for an interval determine it. */
  lemma TokensInjective(a: VersionRange.VersionInterval, b: VersionRange.VersionInterval)
    requires BareBound(a.low) && BareBound(a.high) && BareBound(b.low) && BareBound(b.high)
    requires (a.low.At? || a.high.At?) && (b.low.At? || b.high.At?)
    requires IntervalTokens(a) == IntervalTokens(b)
    ensures a == b
  {
    TokensByShape(a);
    TokensByShape(b);
    FirstOfTokens(a);
    FirstOfTokens(b);
    var s, t := IntervalTokens(a), IntervalTokens(b);
    if IsExactInterval(Precedence, a) {
      ExactEnds(a);
      ExactEnds(b);
      assert s[0] == t[0];
      TokenInjective("=", a.low.value, "=", b.low.value);
    } else {
      hide VersionString, IntervalTokens, LowText, HighText, Precedence, BareBound;
      assert s[0] == t[0];
      if a.low.At? { LowTextInjective(a.low, b.low); } else { HighTextInjective(a.high, b.high); }
      if a.low.At? && a.high.At? {
        assert s[1] == t[1];
        HighTextInjective(a.high, b.high);
      } else if a.low.At? {
        assert !b.high.At?;
      }
      NoBound(a.low, b.low);
      NoBound(a.high, b.high);
    }
  }

  lemma NoBound(a: Bound<SemVersion>, b: Bound<SemVersion>)
    requires a.At? <==> b.At?
    ensures !a.At? ==> a == b
  {
  }

  ghost predicate AllBare(r: Range) {
    forall i :: 0 <= i < |r| ==> BareBound(r[i].low) && BareBound(r[i].high) && (r[i].low.At? || r[i].high.At?)
  }

  lemma BareSplits(r: Range)
    requires r != [] && AllBare(r)
    ensures AllBare(r[1..]) && AllPrint(r)
    ensures BareBound(r[0].low) && BareBound(r[0].high) && (r[0].low.At? || r[0].high.At?)
    ensures BoundPrints(r[0].low) && BoundPrints(r[0].high)
  {
  }

  lemma SameGroup(a: VersionRange.VersionInterval, b: VersionRange.VersionInterval, lead: string, trail: string)
    requires BareBound(a.low) && BareBound(a.high) && BareBound(b.low) && BareBound(b.high)
    requires (a.low.At? || a.high.At?) && (b.low.At? || b.high.At?)
    requires IsPadding(lead) && IsPadding(trail)
    requires lead + IntervalString(a) + trail == lead + IntervalString(b) + trail
    ensures a == b
  {
    GroupWords(a, lead, trail);
    GroupWords(b, lead, trail);
    hide IntervalTokens, IntervalString, WordsOf, BareBound;
    TokensInjective(a, b);
  }

  lemma GroupTextsStep(r: Range, lead: string)
    requires r != []
    ensures GroupTexts(r, lead)[0] == lead + IntervalString(r[0]) + if |r| == 1 then "" else " "
    ensures |r| > 1 ==> GroupTexts(r, lead)[1..] == GroupTexts(r[1..], " ")
  {
    hide IntervalString;
    assert lead + IntervalString(r[0]) + "" == lead + IntervalString(r[0]);
  }

  lemma SameHeadAndTail<T>(a: seq<T>, b: seq<T>)
    requires |a| == |b| > 0 && a[0] == b[0] && a[1..] == b[1..]
    ensures a == b
  {
    assert a == [a[0]] + a[1..] && b == [b[0]] + b[1..];
  }

  lemma {:induction false} GroupTextsInjective(r: Range, q: Range, lead: string)
    requires r != [] && q != [] && AllBare(r) && AllBare(q) && IsPadding(lead)
    requires GroupTexts(r, lead) == GroupTexts(q, lead)
    ensures r == q
  {
    BareSplits(r);
    BareSplits(q);
    GroupTextsStep(r, lead);
    GroupTextsStep(q, lead);
    assert |r| == |q|;
    hide AllBare, AllPrint, IntervalString, BareBound, BoundPrints, GroupTexts;
    SameGroup(r[0], q[0], lead, if |r| == 1 then "" else " ");
    if |r| > 1 { GroupTextsInjective(r[1..], q[1..], " "); }
    SameHeadAndTail(r, q);
  }

  lemma AlternativesInjective(r: Range, q: Range)
    requires r != [] && q != [] && AllBare(r) && AllBare(q) && Alternatives(r) == Alternatives(q)
    ensures r == q
  {
    BareSplits(r);
    BareSplits(q);
    hide AllBare, AllPrint, Alternatives, GroupTexts, GroupsOf;
    GroupsOfAlternatives(r, "");
    GroupsOfAlternatives(q, "");
    GroupTextsInjective(r, q, "");
  }

  /** How a range prints tells which of the three forms it has. */
  lemma RangeForms(r: Range)
    requires BareRange(r)
    ensures r == [] || VersionRange.IsAny(r) || (AllBare(r) && StartsAndEndsWell(RangeString(r)) && RangeString(r) == Alternatives(r))
    ensures r == [] ==> RangeString(r) == "<none>"
    ensures r != [] && VersionRange.IsAny(r) ==> RangeString(r) == "*"
  {
    if r != [] && !VersionRange.IsAny(r) {
      EveryIntervalIsBounded(r);
      hide BareBound, Precedence, StartsAndEndsWell, Alternatives;
      assert AllBare(r);
      BareSplits(r);
      AlternativesEnds(r);
    }
  }

  lemma SpecialTexts()
    ensures !StartsAndEndsWell("<none>") && !StartsAndEndsWell("*")
  {
  }

  /** Two ranges with one text are one range, whatever the length of the text. */
  lemma RangeTextInjective(r: Range, q: Range)
    requires BareRange(r) && BareRange(q) && RangeString(r) == RangeString(q)
    ensures r == q
  {
    RangeForms(r);
    RangeForms(q);
    SpecialTexts();
    hide RangeString, BareRange, StartsAndEndsWell, AllBare, Alternatives;
    if r != [] && !VersionRange.IsAny(r) {
      AlternativesInjective(r, q);
    }
  }

  // ----- The key -----

  lemma BarSplits(a: string, x: string, b: string, y: string)
    requires '|' !in a && '|' !in b && a + "|" + x == b + "|" + y
    ensures a == b && x == y
  {
    FindInFront(a, '|', x);
    FindInFront(b, '|', y);
    assert a + ['|'] + x == a + "|" + x && b + ['|'] + y == b + "|" + y;
    hide FindFrom;
    var s := a + "|" + x;
    assert s[..|a|] == a && s[|a| + 1..] == x && s[..|b|] == b && s[|b| + 1..] == y;
  }

  lemma NamesHaveNoBar(s: string)
    requires IsName(s)
    ensures '|' !in s
  {
  }

  lemma KeyParts(a: Constraint, b: Constraint)
    requires ConstraintSortKey(a) == ConstraintSortKey(b)
    ensures KindIndex(a) == KindIndex(b) && SideIndex(a.side) == SideIndex(b.side) && KeyBody(a) == KeyBody(b)
  {
    hide KeyBody;
    var s, t := ConstraintSortKey(a), ConstraintSortKey(b);
    assert s[..3] == Index(KindIndex(a)) && t[..3] == Index(KindIndex(b));
    assert s[4..7] == Index(SideIndex(a.side)) && t[4..7] == Index(SideIndex(b.side));
    assert s[8..] == KeyBody(a) && t[8..] == KeyBody(b);
    hide Index;
    IndexInjective(KindIndex(a), KindIndex(b));
    IndexInjective(SideIndex(a.side), SideIndex(b.side));
  }

  /** Equal but for the type of a literal with the same text. */
  predicate SameButLiteral(a: Constraint, b: Constraint) {
    a == b
    || (a.RequiresCapabilityValue? && b.RequiresCapabilityValue? && a.side == b.side && a.capability == b.capability && a.op == b.op
        && LiteralText(a.literal) == LiteralText(b.literal))
  }

  lemma ValueBody(a: Constraint, b: Constraint)
    requires a.RequiresCapabilityValue? && b.RequiresCapabilityValue? && IsName(a.capability) && IsName(b.capability)
    requires KeyBody(a) == KeyBody(b)
    ensures a.capability == b.capability && a.op == b.op && LiteralText(a.literal) == LiteralText(b.literal)
  {
    NamesHaveNoBar(a.capability);
    NamesHaveNoBar(b.capability);
    hide LiteralText, IsName;
    var x, y := Index(OpIndex(a.op)) + "|" + LiteralText(a.literal), Index(OpIndex(b.op)) + "|" + LiteralText(b.literal);
    BarSplits(a.capability, x, b.capability, y);
    assert x[..3] == Index(OpIndex(a.op)) && y[..3] == Index(OpIndex(b.op));
    assert x[4..] == LiteralText(a.literal) && y[4..] == LiteralText(b.literal);
    IndexInjective(OpIndex(a.op), OpIndex(b.op));
  }

  lemma RangeBody(id: string, r: Range, id': string, r': Range)
    requires IsName(id) && IsName(id') && BareRange(r) && BareRange(r')
    requires id + "|" + RangeString(r) == id' + "|" + RangeString(r')
    ensures id == id' && r == r'
  {
    NamesHaveNoBar(id);
    NamesHaveNoBar(id');
    hide RangeString, IsName, BareRange;
    BarSplits(id, RangeString(r), id', RangeString(r'));
    RangeTextInjective(r, r');
  }

  lemma BodyDecides(a: Constraint, b: Constraint)
    requires WellFormed(a) && WellFormed(b)
    requires KindIndex(a) == KindIndex(b) && a.side == b.side && KeyBody(a) == KeyBody(b)
    ensures SameButLiteral(a, b)
  {
    hide LiteralText, IsName, BareRange, IsVersion, VersionString, RangeString;
    match a
    case RequiresCapabilityValue(_, _, _, _) => ValueBody(a, b);
    case RequiresProtocol(_, id, range) => RangeBody(id, range, b.protocol, b.range);
    case RequiresSchema(_, id, range) => RangeBody(id, range, b.schema, b.range);
    case VersionAtLeast(_, v) => VersionTextInjective(v, b.version);
    case VersionAtMost(_, v) => VersionTextInjective(v, b.version);
    case _ =>
  }

  /** Two constraints share a key exactly when they agree on all but a literal's type. */
  lemma SameKeyIff(a: Constraint, b: Constraint)
    requires WellFormed(a) && WellFormed(b)
    ensures ConstraintSortKey(a) == ConstraintSortKey(b) <==> SameButLiteral(a, b)
  {
    if ConstraintSortKey(a) == ConstraintSortKey(b) {
      KeyParts(a, b);
      hide WellFormed, KeyBody, ConstraintSortKey;
      BodyDecides(a, b);
    }
  }

  /** Where literals have the type their capability declares, the key is injective. */
  ghost predicate TypedBy(t: Taxonomy, c: Constraint) {
    c.RequiresCapabilityValue? ==> c.capability in t.capabilities && TypeOf(c.literal) == t.capabilities[c.capability]
  }

  lemma LiteralTextInjective(x: CapabilityValue, y: CapabilityValue)
    requires TypeOf(x) == TypeOf(y) && LiteralFits(x) && LiteralFits(y) && LiteralText(x) == LiteralText(y)
    ensures x == y
  {
    hide VersionString, IntText, IsVersion;
    match x
    case Flag(_) => assert "true"[0] != "false"[0];
    case Integer(n) => IntTextInjective(n, y.integer);
    case Text(_) =>
    case Version(v) => VersionTextInjective(v, y.version);
  }

  lemma KeyInjective(t: Taxonomy, a: Constraint, b: Constraint)
    requires WellFormed(a) && WellFormed(b) && TypedBy(t, a) && TypedBy(t, b)
    requires ConstraintSortKey(a) == ConstraintSortKey(b)
    ensures a == b
  {
    SameKeyIff(a, b);
    hide ConstraintSortKey, LiteralText;
    if a != b { LiteralTextInjective(a.literal, b.literal); }
  }

  /** Without the typing the comment "equal exactly when their keys are" fails. */
  lemma KeysCollide()
    ensures var a := RequiresCapabilityValue(Left, "c", Eq, Flag(true));
      var b := RequiresCapabilityValue(Left, "c", Eq, Text("true"));
      WellFormed(a) && WellFormed(b) && a != b && ConstraintSortKey(a) == ConstraintSortKey(b)
  {
    assert IsName("c");
  }
}
