/** Semantic versions and their two orders (src/version.cpp). */
module SemVer {
  import opened Order

  const U32_BOUND: nat := 0x1_0000_0000

  type u32 = x: nat | x < U32_BOUND

  /** Prerelease identifiers are dot-separated pieces; build metadata is one text, empty if absent. */
  datatype SemVersion = SemVersion(major: u32, minor: u32, patch: u32, prerelease: seq<string>, build: string) {
    predicate HasPrerelease() {
      prerelease != []
    }
  }

  function Release(major: u32, minor: u32, patch: u32): SemVersion {
    SemVersion(major, minor, patch, [], "")
  }

  predicate IsDigit(c: char) {
    '0' <= c <= '9'
  }

  predicate Digits(s: string) {
    forall i :: 0 <= i < |s| ==> IsDigit(s[i])
  }

  predicate IsAllDigits(s: string) {
    s != "" && Digits(s)
  }

  /** Numeric identifiers by length then text and below all others; the rest by text. */
  function CompareIdentifier(a: string, b: string): Ordering {
    if IsAllDigits(a) && IsAllDigits(b) then
      if |a| != |b| then CompareNat(|a|, |b|) else CompareText(a, b)
    else if IsAllDigits(a) != IsAllDigits(b) then
      if IsAllDigits(a) then Less else Greater
    else
      CompareText(a, b)
  }

  /** A release outranks its prereleases; otherwise identifiers decide in order. */
  function ComparePrerelease(a: seq<string>, b: seq<string>): Ordering {
    if a == [] && b == [] then Equal
    else if a == [] then Greater
    else if b == [] then Less
    else Lex(CompareIdentifier, a, b)
  }

  /** The source's loop over the common prefix, then the lengths. */
  method ComparePrereleaseLoop(a: seq<string>, b: seq<string>) returns (r: Ordering)
    ensures r == ComparePrerelease(a, b)
  {
    if a == [] && b == [] { return Equal; }
    if a == [] { return Greater; }
    if b == [] { return Less; }
    var n := if |a| < |b| then |a| else |b|;
    for i := 0 to n
      invariant Lex(CompareIdentifier, a, b) == Lex(CompareIdentifier, a[i..], b[i..])
    {
      var an := IsAllDigits(a[i]);
      var bn := IsAllDigits(b[i]);
      assert a[i..][1..] == a[i + 1..] && b[i..][1..] == b[i + 1..];
      if an && bn {
        if |a[i]| != |b[i]| { return if |a[i]| < |b[i]| then Less else Greater; }
        var cmp := CompareText(a[i], b[i]);
        if cmp != Equal { return cmp; }
      } else if an != bn {
        return if an then Less else Greater;
      } else {
        var cmp := CompareText(a[i], b[i]);
        if cmp != Equal { return cmp; }
      }
    }
    if |a| == |b| { return Equal; }
    return if |a| < |b| then Less else Greater;
  }

  function Precedence(a: SemVersion, b: SemVersion): Ordering {
    if a.major != b.major then CompareNat(a.major, b.major)
    else if a.minor != b.minor then CompareNat(a.minor, b.minor)
    else if a.patch != b.patch then CompareNat(a.patch, b.patch)
    else ComparePrerelease(a.prerelease, b.prerelease)
  }

  /** Precedence, with the build text as the last tie-break. */
  function TotalOrder(a: SemVersion, b: SemVersion): Ordering {
    var p := Precedence(a, b);
    if p != Equal then p else CompareText(a.build, b.build)
  }

  lemma CompareIdentifierIsTotal()
    ensures TotalPreorder(CompareIdentifier)
    ensures forall a, b :: CompareIdentifier(a, b) == Equal <==> a == b
  {
    CompareTextIsTotal();
    forall a: string, b: string, c: string
      ensures Composes(CompareIdentifier(a, b), CompareIdentifier(b, c), CompareIdentifier(a, c))
    {
      assert Composes(CompareText(a, b), CompareText(b, c), CompareText(a, c));
    }
  }

  lemma ComparePrereleaseIsTotal()
    ensures TotalPreorder(ComparePrerelease)
    ensures forall a, b :: ComparePrerelease(a, b) == Equal <==> a == b
  {
    CompareIdentifierIsTotal();
    forall a, b
      ensures ComparePrerelease(a, a) == Equal
      ensures ComparePrerelease(b, a) == Flip(ComparePrerelease(a, b))
      ensures ComparePrerelease(a, b) == Equal ==> a == b
    {
      LexReflexive(CompareIdentifier, a);
      LexFlips(CompareIdentifier, a, b);
      if a != [] && b != [] && ComparePrerelease(a, b) == Equal {
        LexEqual(CompareIdentifier, a, b);
      }
    }
    forall a, b, c
      ensures Composes(ComparePrerelease(a, b), ComparePrerelease(b, c), ComparePrerelease(a, c))
    {
      LexComposes(CompareIdentifier, a, b, c);
    }
  }

  /** Precedence is a total order on versions up to build metadata. */
  lemma PrecedenceIsTotal()
    ensures TotalPreorder(Precedence)
    ensures forall a, b :: Precedence(a, b) == Equal <==> a.(build := "") == b.(build := "")
  {
    ComparePrereleaseIsTotal();
    forall a, b, c
      ensures Composes(Precedence(a, b), Precedence(b, c), Precedence(a, c))
    {
      assert Composes(ComparePrerelease(a.prerelease, b.prerelease),
                      ComparePrerelease(b.prerelease, c.prerelease),
                      ComparePrerelease(a.prerelease, c.prerelease));
    }
  }

  /** TotalOrder is a total order that tells all versions apart and never contradicts Precedence. */
  lemma TotalOrderRefinesPrecedence()
    ensures TotalPreorder(TotalOrder)
    ensures forall a, b :: TotalOrder(a, b) == Equal <==> a == b
    ensures forall a, b :: Precedence(a, b) != Equal ==> TotalOrder(a, b) == Precedence(a, b)
  {
    PrecedenceIsTotal();
    CompareTextIsTotal();
    forall a, b, c
      ensures Composes(TotalOrder(a, b), TotalOrder(b, c), TotalOrder(a, c))
    {
      assert Composes(Precedence(a, b), Precedence(b, c), Precedence(a, c));
      assert Composes(CompareText(a.build, b.build), CompareText(b.build, c.build), CompareText(a.build, c.build));
    }
  }

  // ----- The comparison operators -----

  predicate OperatorEqual(a: SemVersion, b: SemVersion) {
    Precedence(a, b) == Equal
  }

  predicate OperatorLess(a: SemVersion, b: SemVersion) {
    Precedence(a, b) == Less
  }

  predicate DifferInBuildAlone(a: SemVersion, b: SemVersion) {
    a.build != b.build && a.(build := "") == b.(build := "")
  }

  /** The operators decide as the total order does, unless build metadata is all that differs. */
  lemma OperatorsFollowTotalOrderIff(a: SemVersion, b: SemVersion)
    ensures (OperatorEqual(a, b) <==> TotalOrder(a, b) == Equal)
            && (OperatorLess(a, b) <==> TotalOrder(a, b) == Less)
            && (OperatorLess(b, a) <==> TotalOrder(b, a) == Less)
            <==> !DifferInBuildAlone(a, b)
  {
    TotalOrderRefinesPrecedence();
    PrecedenceIsTotal();
    if a.build == b.build && a.(build := "") == b.(build := "") {
      assert a == a.(build := "").(build := b.build) == b;
    }
    hide Precedence, TotalOrder;
  }

  /** 1.0.0+a and 1.0.0+b: equal for the operators, apart in the total order. */
  lemma OperatorsMissBuild()
    ensures var a, b := Release(1, 0, 0).(build := "a"), Release(1, 0, 0).(build := "b");
      OperatorEqual(a, b) && !OperatorLess(a, b) && TotalOrder(a, b) == Less
  {
    assert 'a' < 'b';
  }

  /** A version carrying a prerelease ranks strictly below the release it leads to. */
  lemma PrereleaseRanksBelowRelease(v: SemVersion, build: string)
    requires v.HasPrerelease()
    ensures Precedence(v, v.(prerelease := [], build := build)) == Less
    ensures forall w :: Precedence(v, w) == Less && !w.HasPrerelease()
                        ==> Precedence(v.(prerelease := []), w) != Greater
  {
  }

  // ----- Numeric identifiers -----

  function DigitValue(c: char): (d: nat)
    requires IsDigit(c)
    ensures d < 10
  {
    c as int - '0' as int
  }

  /** The number a digit text denotes, most significant digit first. */
  function NumericValue(s: string): nat
    requires Digits(s)
  {
    if s == "" then 0 else NumericValue(s[..|s| - 1]) * 10 + DigitValue(s[|s| - 1])
  }

  function Pow10(n: nat): (p: nat)
    ensures p > 0
  {
    if n == 0 then 1 else 10 * Pow10(n - 1)
  }

  lemma ScaleBy10(d: nat, p: nat, x: nat, e: nat)
    ensures (d * p + x) * 10 + e == d * (10 * p) + (x * 10 + e)
  {
  }

  /** Splitting off the leading digit instead of the last one. */
  lemma {:induction false} NumericValueHead(s: string)
    requires s != "" && Digits(s)
    ensures NumericValue(s) == DigitValue(s[0]) * Pow10(|s| - 1) + NumericValue(s[1..])
  {
    var init, last := s[..|s| - 1], DigitValue(s[|s| - 1]);
    if init == "" {
      assert s[1..] == "" && NumericValue(init) == 0;
    } else {
      NumericValueHead(init);
      assert init[1..] == s[1..][..|s| - 2];
      assert s[1..][|s| - 2] == s[|s| - 1];
      assert NumericValue(s[1..]) == NumericValue(init[1..]) * 10 + last;
      assert Pow10(|s| - 1) == 10 * Pow10(|s| - 2);
      ScaleBy10(DigitValue(s[0]), Pow10(|s| - 2), NumericValue(init[1..]), last);
    }
  }

  lemma MulMonotone(d: nat, e: nat, p: nat)
    requires d <= e
    ensures d * p <= e * p
  {
  }

  lemma {:induction false} NumericValueBound(s: string)
    requires Digits(s)
    ensures NumericValue(s) < Pow10(|s|)
    ensures s != "" && s[0] != '0' ==> Pow10(|s| - 1) <= NumericValue(s)
  {
    if s != "" {
      NumericValueHead(s);
      NumericValueBound(s[1..]);
      MulMonotone(DigitValue(s[0]), 9, Pow10(|s| - 1));
      if s[0] != '0' {
        MulMonotone(1, DigitValue(s[0]), Pow10(|s| - 1));
      }
    }
  }

  lemma {:induction false} Pow10Grows(m: nat, n: nat)
    requires m <= n
    ensures Pow10(m) <= Pow10(n)
  {
    if m < n {
      Pow10Grows(m, n - 1);
    }
  }

  /** A larger leading digit outweighs all that follows. */
  lemma LeadingDigitDecides(d: nat, e: nat, p: nat, x: nat, y: nat)
    requires d < e && x < p
    ensures d * p + x < e * p + y
  {
    MulMonotone(d + 1, e, p);
  }

  lemma {:induction false} SameLengthTextIsValue(a: string, b: string)
    requires |a| == |b| && Digits(a) && Digits(b)
    ensures CompareText(a, b) == CompareNat(NumericValue(a), NumericValue(b))
  {
    if a != "" {
      NumericValueHead(a);
      NumericValueHead(b);
      SameLengthTextIsValue(a[1..], b[1..]);
      NumericValueBound(a[1..]);
      NumericValueBound(b[1..]);
      var p := Pow10(|a| - 1);
      if a[0] < b[0] {
        LeadingDigitDecides(DigitValue(a[0]), DigitValue(b[0]), p, NumericValue(a[1..]), NumericValue(b[1..]));
      } else if b[0] < a[0] {
        LeadingDigitDecides(DigitValue(b[0]), DigitValue(a[0]), p, NumericValue(b[1..]), NumericValue(a[1..]));
      }
    }
  }

  predicate NoLeadingZero(s: string) {
    |s| > 1 ==> s[0] != '0'
  }

  lemma ShorterIsSmaller(a: string, b: string)
    requires IsAllDigits(a) && IsAllDigits(b) && NoLeadingZero(b)
    requires |a| < |b|
    ensures NumericValue(a) < NumericValue(b)
  {
    NumericValueBound(a);
    NumericValueBound(b);
    Pow10Grows(|a|, |b| - 1);
  }

  /** Without leading zeros, length-then-text compares the numbers themselves. */
  lemma NumericIdentifiersCompareByValue(a: string, b: string)
    requires IsAllDigits(a) && IsAllDigits(b)
    requires NoLeadingZero(a) && NoLeadingZero(b)
    ensures CompareIdentifier(a, b) == CompareNat(NumericValue(a), NumericValue(b))
  {
    if |a| < |b| {
      ShorterIsSmaller(a, b);
    } else if |b| < |a| {
      ShorterIsSmaller(b, a);
    } else {
      SameLengthTextIsValue(a, b);
    }
  }
}
