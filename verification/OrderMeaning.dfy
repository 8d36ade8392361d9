/** Which text, identifier and version comes first, by the first difference (src/version.cpp; section 11 of SemVer 2.0.0). */
module OrderMeaning {
  import opened Order
  import opened SemVer

  /** The two agree before position k, and there the first ends or has the lesser element. */
  ghost predicate BelowAt<T(!new)>(less: (T, T) -> bool, a: seq<T>, b: seq<T>, k: nat) {
    && k <= |a| && k < |b| && (forall i :: 0 <= i < k ==> a[i] == b[i])
    && (k == |a| || less(a[k], b[k]))
  }

  ghost predicate BelowByFirstDifference<T(!new)>(less: (T, T) -> bool, a: seq<T>, b: seq<T>) {
    exists k: nat :: BelowAt(less, a, b, k)
  }

  ghost predicate Decides<T(!new)>(cmp: (T, T) -> Ordering, less: (T, T) -> bool) {
    (forall x, y :: cmp(x, y) == Less <==> less(x, y)) && (forall x, y :: cmp(x, y) == Equal <==> x == y)
  }

  lemma {:induction false} LexMeaning<T(!new)>(cmp: (T, T) -> Ordering, less: (T, T) -> bool, a: seq<T>, b: seq<T>)
    requires Decides(cmp, less)
    ensures Lex(cmp, a, b) == Less <==> BelowByFirstDifference(less, a, b)
  {
    if a == [] || b == [] {
      if b != [] { assert BelowAt(less, a, b, 0); }
    } else if a[0] != b[0] {
      if less(a[0], b[0]) { assert BelowAt(less, a, b, 0); }
    } else {
      LexMeaning(cmp, less, a[1..], b[1..]);
      if k: nat :| BelowAt(less, a[1..], b[1..], k) {
        forall i | 0 <= i < k + 1 ensures a[i] == b[i] {
          if i > 0 { assert a[1..][i - 1] == b[1..][i - 1]; }
        }
        assert BelowAt(less, a, b, k + 1);
      }
      if k: nat :| BelowAt(less, a, b, k) {
        assert cmp(a[0], b[0]) == Equal && !less(a[0], b[0]);
        forall i | 0 <= i < k - 1 ensures a[1..][i] == b[1..][i] { assert a[i + 1] == b[i + 1]; }
        assert BelowAt(less, a[1..], b[1..], k - 1);
      }
    }
  }

  // ----- Text -----

  const CharBelow: (char, char) -> bool := (x, y) => x < y

  ghost predicate TextBelow(a: string, b: string) {
    BelowByFirstDifference(CharBelow, a, b)
  }

  lemma TextOrderMeaning(a: string, b: string)
    ensures CompareText(a, b) == Less <==> TextBelow(a, b)
    ensures CompareText(a, b) == Equal <==> a == b
    ensures CompareText(a, b) == Greater <==> TextBelow(b, a)
  {
    CompareTextIsTotal();
    LexMeaning(CompareChar, CharBelow, a, b);
    LexMeaning(CompareChar, CharBelow, b, a);
    assert CompareText(b, a) == Flip(CompareText(a, b));
  }

  // ----- Identifiers and versions -----

  /** Numbers by value and below everything else, the rest by text. */
  ghost predicate IdentifierBelow(x: string, y: string) {
    if IsAllDigits(x) && IsAllDigits(y) && NoLeadingZero(x) && NoLeadingZero(y) then NumericValue(x) < NumericValue(y)
    else if IsAllDigits(x) && IsAllDigits(y) then |x| < |y| || (|x| == |y| && TextBelow(x, y))
    else if IsAllDigits(x) then true
    else !IsAllDigits(y) && TextBelow(x, y)
  }

  lemma IdentifierMeaning(x: string, y: string)
    ensures CompareIdentifier(x, y) == Less <==> IdentifierBelow(x, y)
  {
    hide CompareText, NumericValue, NoLeadingZero, TextBelow;
    TextOrderMeaning(x, y);
    if IsAllDigits(x) && IsAllDigits(y) && NoLeadingZero(x) && NoLeadingZero(y) { NumericIdentifiersCompareByValue(x, y); }
  }

  ghost function IdentifierOrder(): ((string, string) -> bool) {
    (x, y) => CompareIdentifier(x, y) == Less
  }

  /** Numbers first, then a prerelease below its release, then the first identifier that differs. */
  ghost predicate VersionBelow(a: SemVersion, b: SemVersion) {
    if a.major != b.major then a.major < b.major
    else if a.minor != b.minor then a.minor < b.minor
    else if a.patch != b.patch then a.patch < b.patch
    else if b.prerelease == [] then a.prerelease != []
    else a.prerelease != [] && BelowByFirstDifference(IdentifierOrder(), a.prerelease, b.prerelease)
  }

  lemma PrecedenceMeaning(a: SemVersion, b: SemVersion)
    ensures Precedence(a, b) == Less <==> VersionBelow(a, b)
    ensures Precedence(a, b) == Greater <==> VersionBelow(b, a)
  {
    CompareIdentifierIsTotal();
    PrecedenceIsTotal();
    assert Precedence(b, a) == Flip(Precedence(a, b));
    hide CompareIdentifier, BelowByFirstDifference;
    LexMeaning(CompareIdentifier, IdentifierOrder(), a.prerelease, b.prerelease);
    LexMeaning(CompareIdentifier, IdentifierOrder(), b.prerelease, a.prerelease);
  }

  // ----- The published chain -----

  function Pre(identifiers: seq<string>): SemVersion {
    Release(1, 0, 0).(prerelease := identifiers)
  }

  const CHAIN: seq<SemVersion> :=
    [Pre(["alpha"]), Pre(["alpha", "1"]), Pre(["alpha", "beta"]), Pre(["beta"]), Pre(["beta", "2"]), Pre(["beta", "11"]),
     Pre(["rc", "1"]), Release(1, 0, 0), Release(2, 0, 0), Release(2, 1, 0), Release(2, 1, 1)]

  lemma Words()
    ensures CompareIdentifier("alpha", "beta") == Less && CompareIdentifier("beta", "rc") == Less
    ensures CompareIdentifier("1", "beta") == Less && CompareIdentifier("2", "11") == Less
  {
    assert !IsAllDigits("alpha") by { assert !IsDigit("alpha"[0]); }
    assert !IsAllDigits("beta") by { assert !IsDigit("beta"[0]); }
    assert !IsAllDigits("rc") by { assert !IsDigit("rc"[0]); }
  }

  lemma ChainStep(i: nat)
    requires i + 1 < |CHAIN|
    ensures Precedence(CHAIN[i], CHAIN[i + 1]) == Less
  {
    Words();
    CompareIdentifierIsTotal();
    hide CompareIdentifier;
  }

  /** The standard's own example, each below all that follow. */
  lemma {:induction false} PublishedChainRises(i: nat, j: nat)
    requires i < j < |CHAIN|
    ensures Precedence(CHAIN[i], CHAIN[j]) == Less
  {
    hide Precedence;
    ChainStep(j - 1);
    if i < j - 1 {
      PublishedChainRises(i, j - 1);
      PrecedenceIsTotal();
      assert Composes(Precedence(CHAIN[i], CHAIN[j - 1]), Precedence(CHAIN[j - 1], CHAIN[j]), Precedence(CHAIN[i], CHAIN[j]));
    }
  }
}
