/** The text of a semantic version, strict and partial (src/version.cpp; section 2 of Semantic Versioning 2.0.0). */
module VersionText {
  import opened SemVer
  import opened Decimal
  import opened Rules

  const MAX_VERSION_TEXT: nat := 512
  const MAX_IDENTIFIERS: nat := 32
  const MAX_COMPONENT: nat := 0xFFFF_FFFF

  // ----- Splitting at a character -----

  function FindFrom(text: string, c: char, from: nat): (at: Option<nat>)
    requires from <= |text|
    ensures at.Some? ==> from <= at.value < |text| && text[at.value] == c && c !in text[from..at.value]
    ensures at.None? ==> c !in text[from..]
    decreases |text| - from
  {
    if from == |text| then None
    else if text[from] == c then Some(from)
    else
      var rest := FindFrom(text, c, from + 1);
      assert text[from..] == [text[from]] + text[from + 1..];
      assert rest.Some? ==> text[from..rest.value] == [text[from]] + text[from + 1..rest.value];
      rest
  }

  function SplitOn(text: string, c: char): (pieces: seq<string>)
    ensures pieces != []
    decreases |text|
  {
    var at := FindFrom(text, c, 0);
    if at.None? then [text] else [text[..at.value]] + SplitOn(text[at.value + 1..], c)
  }

  function Join(pieces: seq<string>, c: char): string {
    if pieces == [] then ""
    else if |pieces| == 1 then pieces[0]
    else pieces[0] + [c] + Join(pieces[1..], c)
  }

  lemma {:induction false} JoinOfSplit(text: string, c: char)
    ensures Join(SplitOn(text, c), c) == text
    decreases |text|
  {
    var at := FindFrom(text, c, 0);
    if at.Some? {
      var rest := text[at.value + 1..];
      JoinOfSplit(rest, c);
      assert text == text[..at.value] + [c] + rest;
    }
  }

  lemma FindInFront(a: string, c: char, b: string)
    requires c !in a
    ensures FindFrom(a + [c] + b, c, 0) == Some(|a|)
  {
    var text := a + [c] + b;
    var at := FindFrom(text, c, 0);
    assert text[|a|] == c && text[0..] == text;
    assert c in text;
    assert at.Some?;
    assert forall i :: 0 <= i < |a| ==> text[i] == a[i] && a[i] in a;
    assert forall k :: |a| < k <= |text| ==> text[0..k][|a|] == c;
  }

  lemma FindNothing(a: string, c: char)
    requires c !in a
    ensures FindFrom(a, c, 0) == None
  {
  }

  lemma {:induction false} SplitOfJoin(pieces: seq<string>, c: char)
    requires pieces != [] && forall i :: 0 <= i < |pieces| ==> c !in pieces[i]
    ensures SplitOn(Join(pieces, c), c) == pieces
  {
    if |pieces| == 1 {
      FindNothing(pieces[0], c);
    } else {
      var rest := Join(pieces[1..], c);
      FindInFront(pieces[0], c, rest);
      var text := pieces[0] + [c] + rest;
      assert text[..|pieces[0]|] == pieces[0] && text[|pieces[0]| + 1..] == rest;
      SplitOfJoin(pieces[1..], c);
    }
  }

  lemma {:induction false} JoinAvoids(pieces: seq<string>, c: char, d: char)
    requires c != d && forall i :: 0 <= i < |pieces| ==> d !in pieces[i]
    ensures d !in Join(pieces, c)
  {
    if |pieces| > 1 {
      JoinAvoids(pieces[1..], c, d);
    }
  }

  // ----- Identifiers -----

  predicate IsAlphaNumHyphen(c: char) {
    IsDigit(c) || 'a' <= c <= 'z' || 'A' <= c <= 'Z' || c == '-'
  }

  predicate IsIdentifier(s: string, prerelease: bool) {
    && s != ""
    && (forall i :: 0 <= i < |s| ==> IsAlphaNumHyphen(s[i]))
    && (prerelease && IsAllDigits(s) ==> NoLeadingZero(s))
  }

  predicate AreIdentifiers(ids: seq<string>, prerelease: bool) {
    && 0 < |ids| <= MAX_IDENTIFIERS
    && forall i :: 0 <= i < |ids| ==> IsIdentifier(ids[i], prerelease)
  }

  function SplitIdentifiers(text: string, prerelease: bool): Option<seq<string>> {
    var ids := SplitOn(text, '.');
    if AreIdentifiers(ids, prerelease) then Some(ids) else None
  }

  lemma SplitStep(rest: string, c: char)
    ensures var at := FindFrom(rest, c, 0);
      SplitOn(rest, c) == if at.None? then [rest] else [rest[..at.value]] + SplitOn(rest[at.value + 1..], c)
  {
  }

  lemma OneBadPiece(ids: seq<string>, i: nat, prerelease: bool)
    requires i < |ids| && (!IsIdentifier(ids[i], prerelease) || i >= MAX_IDENTIFIERS)
    ensures !AreIdentifiers(ids, prerelease)
  {
  }

  lemma OneGoodPiece(ids: seq<string>, piece: string, prerelease: bool)
    requires ids == [] || AreIdentifiers(ids, prerelease)
    requires IsIdentifier(piece, prerelease) && |ids| < MAX_IDENTIFIERS
    ensures AreIdentifiers(ids + [piece], prerelease)
  {
    hide IsIdentifier;
  }

  /** The scan from dot to dot, giving up at the first piece that will not do. */
  method ScanIdentifiers(text: string, prerelease: bool) returns (r: Option<seq<string>>)
    ensures r == SplitIdentifiers(text, prerelease)
  {
    hide SplitOn, IsIdentifier, AreIdentifiers, FindFrom;
    var out: seq<string> := [];
    var rest := text;
    ghost var all := SplitOn(text, '.');
    assert all == [] + SplitOn(rest, '.');
    while true
      invariant all == out + SplitOn(rest, '.')
      invariant out == [] || AreIdentifiers(out, prerelease)
      invariant |out| <= MAX_IDENTIFIERS
      decreases |rest|
    {
      SplitStep(rest, '.');
      var dot := FindFrom(rest, '.', 0);
      var piece := if dot.None? then rest else rest[..dot.value];
      ghost var later := if dot.None? then [] else SplitOn(rest[dot.value + 1..], '.');
      MoveOver(out, piece, later);
      if !IsIdentifier(piece, prerelease) || |out| >= MAX_IDENTIFIERS {
        OneBadPiece(all, |out|, prerelease);
        return None;
      }
      OneGoodPiece(out, piece, prerelease);
      out := out + [piece];
      if dot.None? {
        assert out + [] == out;
        return Some(out);
      }
      rest := rest[dot.value + 1..];
    }
  }

  lemma MoveOver(out: seq<string>, piece: string, later: seq<string>)
    ensures out + ([piece] + later) == out + [piece] + later
    ensures (out + ([piece] + later))[|out|] == piece
    ensures [piece] + [] == [piece]
  {
  }

  lemma IdentifiersAvoid(s: string, prerelease: bool, c: char)
    requires IsIdentifier(s, prerelease) && !IsAlphaNumHyphen(c)
    ensures c !in s
  {
  }

  lemma IdentifiersRoundTrip(ids: seq<string>, prerelease: bool)
    requires AreIdentifiers(ids, prerelease)
    ensures SplitIdentifiers(Join(ids, '.'), prerelease) == Some(ids)
  {
    forall i | 0 <= i < |ids| ensures '.' !in ids[i] {
      IdentifiersAvoid(ids[i], prerelease, '.');
    }
    SplitOfJoin(ids, '.');
  }

  // ----- Numeric components -----

  function ParseComponent(s: string): (n: Option<u32>)
    ensures n.Some? ==> Digits(s) && s != ""
  {
    if s == "" || |s| > 10 || !NoLeadingZero(s) || !Digits(s) || NumericValue(s) > MAX_COMPONENT then None
    else Some(NumericValue(s))
  }

  lemma PrintedComponent(n: u32)
    ensures ParseComponent(Print(n)) == Some(n)
    ensures Digits(Print(n))
  {
    ValueOfPrint(n);
    var s := Print(n);
    if |s| > 10 {
      NumericValueBound(s);
      Pow10Grows(10, |s| - 1);
      TenDigits();
    }
  }

  lemma TenDigits()
    ensures Pow10(10) == 10_000_000_000
  {
    assert Pow10(5) == 100_000 by { assert Pow10(3) == 1000; }
    assert Pow10(8) == 100_000_000 by { assert Pow10(6) == 1_000_000; }
  }

  lemma ParsedComponent(s: string)
    requires ParseComponent(s).Some?
    ensures Print(ParseComponent(s).value) == s
  {
    PrintOfValue(s);
  }

  predicate IsWildcard(s: string) {
    s == "*" || s == "x" || s == "X"
  }

  /** Up to three numbers; a wildcard only at the end. */
  datatype Components = Components(numbers: seq<u32>, wildcard: bool)

  function ReadComponents(pieces: seq<string>, slot: nat): (r: Option<Components>)
    requires pieces != []
    ensures r.Some? && slot <= 3 ==> |r.value.numbers| <= 3 - slot
  {
    var piece := pieces[0];
    if piece == "" || slot >= 3 then None
    else if IsWildcard(piece) then (if |pieces| > 1 then None else Some(Components([], true)))
    else
      var n := ParseComponent(piece);
      if n.None? then None
      else if |pieces| == 1 then Some(Components([n.value], false))
      else
        var rest := ReadComponents(pieces[1..], slot + 1);
        if rest.None? then None else Some(Components([n.value] + rest.value.numbers, rest.value.wildcard))
  }

  lemma {:induction false} ComponentsPrintBack(pieces: seq<string>, slot: nat)
    requires pieces != [] && ReadComponents(pieces, slot).Some? && !ReadComponents(pieces, slot).value.wildcard
    ensures var numbers := ReadComponents(pieces, slot).value.numbers;
      |pieces| == |numbers| && forall i :: 0 <= i < |pieces| ==> pieces[i] == Print(numbers[i])
  {
    ParsedComponent(pieces[0]);
    if |pieces| > 1 {
      ComponentsPrintBack(pieces[1..], slot + 1);
    }
  }

  lemma NotWildcard(s: string)
    requires ParseComponent(s).Some?
    ensures s != "" && !IsWildcard(s)
  {
    assert IsDigit(s[0]);
  }

  lemma ReadStep(pieces: seq<string>, slot: nat)
    requires pieces != [] && slot < 3 && ParseComponent(pieces[0]).Some?
    ensures ReadComponents(pieces, slot) ==
      if |pieces| == 1 then Some(Components([ParseComponent(pieces[0]).value], false))
      else
        var rest := ReadComponents(pieces[1..], slot + 1);
        if rest.None? then None else Some(Components([ParseComponent(pieces[0]).value] + rest.value.numbers, rest.value.wildcard))
  {
    NotWildcard(pieces[0]);
    hide ParseComponent;
  }

  function Prepend(numbers: seq<u32>, r: Option<Components>): Option<Components> {
    if r.None? then None else Some(Components(numbers + r.value.numbers, r.value.wildcard))
  }

  /** The scan over the numeric part: three slots, a wildcard last. */
  method ScanComponents(core: string) returns (r: Option<Components>)
    ensures r == ReadComponents(SplitOn(core, '.'), 0)
  {
    var numbers: seq<u32> := [];
    var rest := core;
    assert forall c: Components :: c == Components([] + c.numbers, c.wildcard);
    while true
      invariant |numbers| <= 3
      invariant ReadComponents(SplitOn(core, '.'), 0) == Prepend(numbers, ReadComponents(SplitOn(rest, '.'), |numbers|))
      decreases |rest|
    {
      SplitStep(rest, '.');
      var dot := FindFrom(rest, '.', 0);
      var piece := if dot.None? then rest else rest[..dot.value];
      var pieces := SplitOn(rest, '.');
      hide SplitOn;
      assert pieces[0] == piece && (|pieces| == 1 <==> dot.None?);
      if piece == "" || |numbers| >= 3 { return None; }
      if IsWildcard(piece) {
        assert numbers + [] == numbers;
        return if dot.Some? then None else Some(Components(numbers, true));
      }
      var n := ParseComponent(piece);
      if n.None? { return None; }
      ReadStep(pieces, |numbers|);
      if dot.None? { return Some(Components(numbers + [n.value], false)); }
      rest := rest[dot.value + 1..];
      assert pieces[1..] == SplitOn(rest, '.');
      PrependOneMore(numbers, n.value, ReadComponents(SplitOn(rest, '.'), |numbers| + 1));
      numbers := numbers + [n.value];
    }
  }

  lemma PrependOneMore(numbers: seq<u32>, n: u32, r: Option<Components>)
    ensures Prepend(numbers + [n], r) ==
      if r.None? then None else Some(Components(numbers + ([n] + r.value.numbers), r.value.wildcard))
  {
    if r.Some? {
      assert numbers + [n] + r.value.numbers == numbers + ([n] + r.value.numbers);
    }
  }

  // ----- Partial versions -----

  datatype Partial = Partial(numbers: seq<u32>, prerelease: seq<string>, wildcard: bool) {
    predicate IsFull() {
      |numbers| == 3
    }

    predicate HasMajor() {
      |numbers| > 0
    }

    predicate HasMinor() {
      |numbers| > 1
    }
  }

  /** Build metadata after the first plus, prerelease after the first dash before it. */
  datatype Parts = Parts(core: string, prerelease: Option<string>, build: Option<string>)

  function PartsOf(text: string): Parts {
    var plus := FindFrom(text, '+', 0);
    var front := if plus.None? then text else text[..plus.value];
    var dash := FindFrom(front, '-', 0);
    Parts(if dash.None? then front else front[..dash.value],
          if dash.None? then None else Some(front[dash.value + 1..]),
          if plus.None? then None else Some(text[plus.value + 1..]))
  }

  function TextOf(p: Parts): string {
    p.core + (if p.prerelease.None? then "" else "-" + p.prerelease.value) + (if p.build.None? then "" else "+" + p.build.value)
  }

  lemma TextOfParts(text: string)
    ensures TextOf(PartsOf(text)) == text
  {
  }

  lemma PartsOfText(p: Parts)
    requires '+' !in p.core && '-' !in p.core
    requires p.prerelease.Some? ==> '+' !in p.prerelease.value
    ensures PartsOf(TextOf(p)) == p
  {
    var front := p.core + (if p.prerelease.None? then "" else "-" + p.prerelease.value);
    assert '+' !in front;
    if p.build.None? {
      assert TextOf(p) == front;
      FindNothing(front, '+');
    } else {
      assert TextOf(p) == front + ['+'] + p.build.value;
      FindInFront(front, '+', p.build.value);
      assert TextOf(p)[..|front|] == front && TextOf(p)[|front| + 1..] == p.build.value;
    }
    if p.prerelease.None? {
      assert front == p.core;
      FindNothing(p.core, '-');
    } else {
      assert front == p.core + ['-'] + p.prerelease.value;
      FindInFront(p.core, '-', p.prerelease.value);
      assert front[..|p.core|] == p.core && front[|p.core| + 1..] == p.prerelease.value;
    }
  }

  function ParsePartial(text: string): (r: Option<Partial>)
    ensures r.Some? ==> |r.value.numbers| <= 3 && (r.value.prerelease != [] ==> r.value.IsFull())
    ensures r.Some? && !r.value.HasMajor() ==> r.value.wildcard
  {
    if text == "" || |text| > MAX_VERSION_TEXT then None
    else
      var p := PartsOf(text);
      if p.build.Some? && (p.build.value == "" || SplitIdentifiers(p.build.value, false).None?) then None
      else
        var ids := if p.prerelease.None? then Some([]) else SplitIdentifiers(p.prerelease.value, true);
        if ids.None? then None
        else
          var components := ReadComponents(SplitOn(p.core, '.'), 0);
          if components.None? then None
          else if |components.value.numbers| == 0 && !components.value.wildcard then None
          else if ids.value != [] && |components.value.numbers| != 3 then None
          else Some(Partial(components.value.numbers, ids.value, components.value.wildcard))
  }

  // ----- Full versions -----

  /** What `SemVersion::Parse` can produce. */
  predicate IsVersion(v: SemVersion) {
    && (v.prerelease != [] ==> AreIdentifiers(v.prerelease, true))
    && (v.build != "" ==> SplitIdentifiers(v.build, false).Some?)
  }

  /** The parse as it runs. */
  method ScanPartial(text: string) returns (r: Option<Partial>)
    ensures r == ParsePartial(text)
  {
    if text == "" || |text| > MAX_VERSION_TEXT { return None; }
    var p := PartsOf(text);
    if p.build.Some? {
      if p.build.value == "" { return None; }
      var build := ScanIdentifiers(p.build.value, false);
      if build.None? { return None; }
    }
    var prerelease: seq<string> := [];
    if p.prerelease.Some? {
      var ids := ScanIdentifiers(p.prerelease.value, true);
      if ids.None? { return None; }
      prerelease := ids.value;
    }
    var components := ScanComponents(p.core);
    if components.None? { return None; }
    var numbers := components.value.numbers;
    if |numbers| == 0 && !components.value.wildcard { return None; }
    if prerelease != [] && |numbers| != 3 { return None; }
    return Some(Partial(numbers, prerelease, components.value.wildcard));
  }

  function ParseVersion(text: string): Option<SemVersion> {
    var partial := ParsePartial(text);
    if partial.None? || partial.value.wildcard || !partial.value.IsFull() then None
    else
      var n := partial.value.numbers;
      var build := PartsOf(text).build;
      Some(SemVersion(n[0], n[1], n[2], partial.value.prerelease, if build.None? then "" else build.value))
  }

  function CoreText(v: SemVersion): string {
    Print(v.major) + "." + Print(v.minor) + "." + Print(v.patch)
  }

  function PartsOfVersion(v: SemVersion): Parts {
    Parts(CoreText(v),
          if v.prerelease == [] then None else Some(Join(v.prerelease, '.')),
          if v.build == "" then None else Some(v.build))
  }

  function VersionString(v: SemVersion): string {
    TextOf(PartsOfVersion(v))
  }

  lemma CoreOfThree(a: string, b: string, c: string)
    ensures Join([a, b, c], '.') == a + "." + b + "." + c
  {
    assert [a, b, c][1..] == [b, c] && [b, c][1..] == [c];
    assert Join([b, c], '.') == b + "." + c;
    assert a + ['.'] + (b + "." + c) == a + "." + b + "." + c;
  }

  lemma DigitsAvoid(s: string, c: char)
    requires Digits(s) && !IsDigit(c)
    ensures c !in s
  {
  }

  /** Three printed numbers read back. */
  lemma CoreRoundTrip(v: SemVersion)
    ensures ReadComponents(SplitOn(CoreText(v), '.'), 0) == Some(Components([v.major, v.minor, v.patch], false))
    ensures '+' !in CoreText(v) && '-' !in CoreText(v)
  {
    hide ParseComponent, Print;
    var a, b, c := Print(v.major), Print(v.minor), Print(v.patch);
    PrintedComponent(v.major);
    PrintedComponent(v.minor);
    PrintedComponent(v.patch);
    forall s, d | s in [a, b, c] && d in ['.', '+', '-'] ensures d !in s {
      DigitsAvoid(s, d);
    }
    CoreOfThree(a, b, c);
    SplitOfJoin([a, b, c], '.');
    JoinAvoids([a, b, c], '.', '+');
    JoinAvoids([a, b, c], '.', '-');
    ThreeComponents(a, b, c, v.major, v.minor, v.patch);
  }

  lemma ThreeComponents(a: string, b: string, c: string, x: u32, y: u32, z: u32)
    requires ParseComponent(a) == Some(x) && ParseComponent(b) == Some(y) && ParseComponent(c) == Some(z)
    ensures ReadComponents([a, b, c], 0) == Some(Components([x, y, z], false))
  {
    assert [a, b, c][1..] == [b, c] && [b, c][1..] == [c];
    NotWildcard(a);
    NotWildcard(b);
    NotWildcard(c);
    hide ParseComponent, IsWildcard;
    assert [y] + [z] == [y, z] && [x] + [y, z] == [x, y, z];
    assert ReadComponents([c], 2) == Some(Components([z], false));
    assert ReadComponents([b, c], 1) == Some(Components([y, z], false));
  }

  lemma PrereleaseText(ids: seq<string>)
    requires AreIdentifiers(ids, true)
    ensures '+' !in Join(ids, '.')
  {
    forall i | 0 <= i < |ids| ensures '+' !in ids[i] {
      IdentifiersAvoid(ids[i], true, '+');
    }
    JoinAvoids(ids, '.', '+');
  }

  lemma PartialOfVersion(v: SemVersion)
    requires IsVersion(v) && |VersionString(v)| <= MAX_VERSION_TEXT
    ensures ParsePartial(VersionString(v)) == Some(Partial([v.major, v.minor, v.patch], v.prerelease, false))
    ensures PartsOf(VersionString(v)) == PartsOfVersion(v)
  {
    hide PartsOf, TextOf, CoreText, SplitIdentifiers, ReadComponents, AreIdentifiers;
    CoreRoundTrip(v);
    if v.prerelease != [] {
      PrereleaseText(v.prerelease);
      IdentifiersRoundTrip(v.prerelease, true);
    }
    PartsOfText(PartsOfVersion(v));
    NotEmptyText(v);
  }

  lemma NotEmptyText(v: SemVersion)
    ensures VersionString(v) != "" && IsDigit(VersionString(v)[0])
  {
    hide Print;
    assert Digits(Print(v.major)) && Print(v.major) != "";
    assert VersionString(v)[0] == Print(v.major)[0];
  }

  /** The text of a version parses to that version, build metadata included. */
  lemma VersionRoundTrip(v: SemVersion)
    requires IsVersion(v) && |VersionString(v)| <= MAX_VERSION_TEXT
    ensures ParseVersion(VersionString(v)) == Some(v)
  {
    hide PartsOf, ParsePartial;
    PartialOfVersion(v);
  }

  /** An accepted text is the text of the version it stands for, character for character. */
  lemma AcceptedTextIsCanonical(text: string)
    requires ParseVersion(text).Some?
    ensures VersionString(ParseVersion(text).value) == text
    ensures IsVersion(ParseVersion(text).value)
  {
    var p, v := PartsOf(text), ParseVersion(text).value;
    TextOfParts(text);
    var pieces := SplitOn(p.core, '.');
    ComponentsPrintBack(pieces, 0);
    assert pieces == [Print(v.major), Print(v.minor), Print(v.patch)];
    CoreOfThree(Print(v.major), Print(v.minor), Print(v.patch));
    JoinOfSplit(p.core, '.');
    if p.prerelease.Some? {
      JoinOfSplit(p.prerelease.value, '.');
    }
    assert PartsOfVersion(v) == p;
  }
}
