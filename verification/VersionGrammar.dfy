/** Which texts are versions and partial versions, and of what (src/version.cpp; section 9 and 10 of SemVer 2.0.0). */
module VersionGrammar {
  import opened SemVer
  import opened Decimal
  import opened Rules
  import opened VersionText

  const DIGITS: string := "0123456789"
  const UPPER: string := "ABCDEFGHIJKLMNOPQRSTUVWXYZ"
  const LOWER: string := "abcdefghijklmnopqrstuvwxyz"
  const WILDCARDS: set<string> := {"*", "x", "X"}

  // ----- Identifiers -----

  predicate IsSpelling(c: char) {
    c in DIGITS || c in UPPER || c in LOWER || c == '-'
  }

  /** Only letters, digits and hyphens; a prerelease number has no leading zero. */
  predicate Spelled(id: string, prerelease: bool) {
    && id != "" && (forall i :: 0 <= i < |id| ==> IsSpelling(id[i]))
    && (prerelease && |id| > 1 && id[0] == '0' ==> exists i :: 0 <= i < |id| && id[i] !in DIGITS)
  }

  predicate AllSpelled(ids: seq<string>, prerelease: bool) {
    1 <= |ids| <= 32 && forall i :: 0 <= i < |ids| ==> Spelled(ids[i], prerelease)
  }

  lemma DigitMeaning(c: char)
    ensures '0' <= c <= '9' <==> c in DIGITS
  {
    if '0' <= c <= '9' { assert DIGITS[c as int - '0' as int] == c; }
  }

  lemma UpperMeaning(c: char)
    ensures 'A' <= c <= 'Z' <==> c in UPPER
  {
    if 'A' <= c <= 'Z' { assert UPPER[c as int - 'A' as int] == c; }
  }

  lemma LowerMeaning(c: char)
    ensures 'a' <= c <= 'z' <==> c in LOWER
  {
    if 'a' <= c <= 'z' { assert LOWER[c as int - 'a' as int] == c; }
  }

  lemma AlphabetMeaning(c: char)
    ensures IsAlphaNumHyphen(c) <==> IsSpelling(c)
    ensures IsDigit(c) <==> c in DIGITS
  {
    DigitMeaning(c);
    UpperMeaning(c);
    LowerMeaning(c);
    hide DIGITS, UPPER, LOWER;
  }

  lemma SpelledMeaning(id: string, prerelease: bool)
    ensures IsIdentifier(id, prerelease) <==> Spelled(id, prerelease)
  {
    forall i | 0 <= i < |id|
      ensures IsAlphaNumHyphen(id[i]) <==> IsSpelling(id[i])
      ensures IsDigit(id[i]) <==> id[i] in DIGITS
    {
      AlphabetMeaning(id[i]);
    }
    hide IsAlphaNumHyphen, IsDigit, IsSpelling, DIGITS;
  }

  lemma AllSpelledMeaning(ids: seq<string>, prerelease: bool)
    ensures AreIdentifiers(ids, prerelease) <==> AllSpelled(ids, prerelease)
  {
    forall i | 0 <= i < |ids| ensures IsIdentifier(ids[i], prerelease) <==> Spelled(ids[i], prerelease) {
      SpelledMeaning(ids[i], prerelease);
    }
    hide IsIdentifier, Spelled;
  }

  // ----- The numbers -----

  function Numbers(numbers: seq<u32>): (s: seq<string>)
    ensures |s| == |numbers|
  {
    seq(|numbers|, i requires 0 <= i < |numbers| => Print(numbers[i]))
  }

  function Pieces(numbers: seq<u32>, wild: Option<string>): seq<string> {
    Numbers(numbers) + if wild.None? then [] else [wild.value]
  }

  lemma NumbersHead(numbers: seq<u32>)
    requires numbers != []
    ensures Numbers(numbers) == [Print(numbers[0])] + Numbers(numbers[1..])
  {
  }

  lemma PiecesHead(numbers: seq<u32>, wild: Option<string>)
    requires numbers != []
    ensures Pieces(numbers, wild)[0] == Print(numbers[0]) && Pieces(numbers, wild)[1..] == Pieces(numbers[1..], wild)
  {
    NumbersHead(numbers);
    var tail := if wild.None? then [] else [wild.value];
    assert Pieces(numbers, wild) == [Print(numbers[0])] + (Numbers(numbers[1..]) + tail);
  }

  lemma {:induction false} ReadIsPieces(pieces: seq<string>, slot: nat) returns (wild: Option<string>)
    requires pieces != [] && ReadComponents(pieces, slot).Some?
    ensures var c := ReadComponents(pieces, slot).value;
      && (wild.Some? <==> c.wildcard) && (wild.Some? ==> wild.value in WILDCARDS)
      && pieces == Pieces(c.numbers, wild) && |pieces| <= 3 - slot
  {
    hide ParseComponent;
    if IsWildcard(pieces[0]) {
      wild := Some(pieces[0]);
    } else {
      ParsedComponent(pieces[0]);
      wild := None;
      if |pieces| > 1 { wild := ReadIsPieces(pieces[1..], slot + 1); }
      var numbers := ReadComponents(pieces, slot).value.numbers;
      assert |pieces| > 1 ==> numbers[1..] == ReadComponents(pieces[1..], slot + 1).value.numbers;
      PiecesHead(numbers, wild);
      assert pieces == [pieces[0]] + pieces[1..];
    }
  }

  lemma {:induction false} PiecesAreRead(numbers: seq<u32>, wild: Option<string>, slot: nat)
    requires wild.Some? ==> wild.value in WILDCARDS
    requires 1 <= |Pieces(numbers, wild)| <= 3 - slot
    ensures ReadComponents(Pieces(numbers, wild), slot) == Some(Components(numbers, wild.Some?))
  {
    var pieces := Pieces(numbers, wild);
    if numbers == [] {
      assert pieces == [wild.value];
    } else {
      PiecesHead(numbers, wild);
      PrintedComponent(numbers[0]);
      ReadStep(pieces, slot);
      hide ParseComponent, Pieces;
      if |pieces| > 1 {
        PiecesAreRead(numbers[1..], wild, slot + 1);
        assert numbers == [numbers[0]] + numbers[1..];
      } else {
        LonePiece(numbers, wild);
      }
    }
  }

  lemma LonePiece(numbers: seq<u32>, wild: Option<string>)
    requires |Pieces(numbers, wild)| == 1 && numbers != []
    ensures wild == None && numbers == [numbers[0]]
  {
  }

  lemma PiecesAvoid(numbers: seq<u32>, wild: Option<string>, c: char)
    requires wild.Some? ==> wild.value in WILDCARDS
    requires c == '.' || c == '+' || c == '-'
    ensures forall i :: 0 <= i < |Pieces(numbers, wild)| ==> c !in Pieces(numbers, wild)[i]
  {
    forall i | 0 <= i < |numbers| ensures c !in Pieces(numbers, wild)[i] {
      DigitsAvoid(Print(numbers[i]), c);
    }
  }

  // ----- Partial versions -----

  /** One to three numbers, the last perhaps a wildcard, then a prerelease of a full version, then build metadata. */
  predicate PartialText(text: string, p: Partial, wild: Option<string>, build: Option<seq<string>>) {
    && (wild.Some? <==> p.wildcard) && (wild.Some? ==> wild.value in WILDCARDS)
    && 1 <= |Pieces(p.numbers, wild)| <= 3
    && (p.prerelease != [] ==> |p.numbers| == 3 && AllSpelled(p.prerelease, true))
    && (build.Some? ==> AllSpelled(build.value, false))
    && text == Join(Pieces(p.numbers, wild), '.') + (if p.prerelease == [] then "" else "-" + Join(p.prerelease, '.'))
               + (if build.None? then "" else "+" + Join(build.value, '.'))
  }

  ghost predicate IsPartialText(text: string, p: Partial) {
    exists wild, build :: PartialText(text, p, wild, build)
  }

  lemma AcceptedIsPartialText(text: string, p: Partial)
    requires ParsePartial(text) == Some(p)
    ensures |text| <= 512 && IsPartialText(text, p)
  {
    var parts := PartsOf(text);
    TextOfParts(text);
    hide PartsOf, ReadComponents, AreIdentifiers, AllSpelled, Pieces;
    var pieces := SplitOn(parts.core, '.');
    JoinOfSplit(parts.core, '.');
    var wild := ReadIsPieces(pieces, 0);
    var build := None;
    if parts.build.Some? {
      JoinOfSplit(parts.build.value, '.');
      AllSpelledMeaning(SplitOn(parts.build.value, '.'), false);
      build := Some(SplitOn(parts.build.value, '.'));
    }
    if parts.prerelease.Some? {
      JoinOfSplit(parts.prerelease.value, '.');
      AllSpelledMeaning(p.prerelease, true);
    }
    assert PartialText(text, p, wild, build);
  }

  function PartsFor(p: Partial, wild: Option<string>, build: Option<seq<string>>): Parts {
    Parts(Join(Pieces(p.numbers, wild), '.'), if p.prerelease == [] then None else Some(Join(p.prerelease, '.')),
          if build.None? then None else Some(Join(build.value, '.')))
  }

  lemma PartialTextIsAccepted(text: string, p: Partial, wild: Option<string>, build: Option<seq<string>>)
    requires |text| <= 512 && PartialText(text, p, wild, build)
    ensures ParsePartial(text) == Some(p)
  {
    hide PartsOf, ReadComponents, AreIdentifiers, AllSpelled, SplitIdentifiers, Pieces;
    var pieces, parts := Pieces(p.numbers, wild), PartsFor(p, wild, build);
    PiecesAvoid(p.numbers, wild, '.');
    PiecesAvoid(p.numbers, wild, '+');
    PiecesAvoid(p.numbers, wild, '-');
    SplitOfJoin(pieces, '.');
    JoinAvoids(pieces, '.', '+');
    JoinAvoids(pieces, '.', '-');
    PiecesAreRead(p.numbers, wild, 0);
    if p.prerelease != [] {
      AllSpelledMeaning(p.prerelease, true);
      PrereleaseText(p.prerelease);
      IdentifiersRoundTrip(p.prerelease, true);
    }
    if build.Some? {
      AllSpelledMeaning(build.value, false);
      IdentifiersRoundTrip(build.value, false);
      NotEmptyJoin(build.value);
    }
    assert text == TextOf(parts);
    PartsOfText(parts);
    NoPiecesMeansWildcard(p.numbers, wild);
    CoreIsText(p.numbers, wild);
  }

  lemma NotEmptyJoin(ids: seq<string>)
    requires AreIdentifiers(ids, false)
    ensures Join(ids, '.') != ""
  {
    assert ids[0] != "";
  }

  lemma NoPiecesMeansWildcard(numbers: seq<u32>, wild: Option<string>)
    requires |Pieces(numbers, wild)| >= 1
    ensures numbers == [] ==> wild.Some?
  {
  }

  lemma CoreIsText(numbers: seq<u32>, wild: Option<string>)
    requires |Pieces(numbers, wild)| >= 1 && (wild.Some? ==> wild.value in WILDCARDS)
    ensures Join(Pieces(numbers, wild), '.') != ""
  {
    assert Pieces(numbers, wild)[0] != "";
  }

  /** The partial parser accepts exactly such texts, up to 512 characters. */
  lemma PartialAcceptedExactlyWhen(text: string, p: Partial)
    ensures ParsePartial(text) == Some(p) <==> |text| <= 512 && IsPartialText(text, p)
  {
    hide PartialText, ParsePartial;
    if ParsePartial(text) == Some(p) { AcceptedIsPartialText(text, p); }
    if |text| <= 512 && IsPartialText(text, p) {
      var wild, build :| PartialText(text, p, wild, build);
      PartialTextIsAccepted(text, p, wild, build);
    }
  }

  // ----- Versions -----

  ghost predicate IsBuildText(build: string) {
    exists ids :: AllSpelled(ids, false) && Join(ids, '.') == build
  }

  lemma BuildMeaning(build: string)
    ensures SplitIdentifiers(build, false).Some? <==> IsBuildText(build)
  {
    hide AllSpelled, AreIdentifiers;
    if SplitIdentifiers(build, false).Some? {
      JoinOfSplit(build, '.');
      AllSpelledMeaning(SplitOn(build, '.'), false);
    }
    if ids :| AllSpelled(ids, false) && Join(ids, '.') == build {
      AllSpelledMeaning(ids, false);
      IdentifiersRoundTrip(ids, false);
    }
  }

  /** Three numbers, then a prerelease after a dash, then build metadata after a plus. */
  ghost predicate IsVersionText(text: string, v: SemVersion) {
    && (v.prerelease != [] ==> AllSpelled(v.prerelease, true))
    && (v.build != "" ==> IsBuildText(v.build))
    && text == Print(v.major) + "." + Print(v.minor) + "." + Print(v.patch)
               + (if v.prerelease == [] then "" else "-" + Join(v.prerelease, '.'))
               + (if v.build == "" then "" else "+" + v.build)
  }

  lemma VersionAcceptedExactlyWhen(text: string, v: SemVersion)
    ensures ParseVersion(text) == Some(v) <==> |text| <= 512 && IsVersionText(text, v)
  {
    AllSpelledMeaning(v.prerelease, true);
    BuildMeaning(v.build);
    PrintedVersion(v);
    hide AllSpelled, AreIdentifiers, SplitIdentifiers, IsBuildText, ParsePartial, PartsOf, VersionString, Print;
    if ParseVersion(text) == Some(v) {
      AcceptedTextIsCanonical(text);
      AcceptedIsShort(text);
    } else if |text| <= 512 && IsVersionText(text, v) {
      VersionRoundTrip(v);
    }
  }

  lemma AcceptedIsShort(text: string)
    requires ParseVersion(text).Some?
    ensures |text| <= 512
  {
    hide PartsOf, ReadComponents, SplitIdentifiers;
  }

  lemma PrintedVersion(v: SemVersion)
    ensures VersionString(v) == Print(v.major) + "." + Print(v.minor) + "." + Print(v.patch)
      + (if v.prerelease == [] then "" else "-" + Join(v.prerelease, '.')) + (if v.build == "" then "" else "+" + v.build)
  {
  }
}
