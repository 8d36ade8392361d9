/** The text of a version range and its parser (src/version.cpp). */
module RangeText {
  import opened Order
  import opened SemVer
  import opened Decimal
  import opened Intervals
  import opened VersionText
  import opened Rules
  import VersionRange

  const MAX_RANGE_TEXT: nat := 4096
  const MAX_GROUPS: nat := 64
  const MAX_COMPARATORS: nat := 64

  type Range = VersionRange.Range

  /** `Undefined`: the source reads an absent major number (`<*`, `<=*`). */
  datatype Ranged = Refused | Undefined | Accepted(range: Range)

  const ANY: Range := [Interval(Unbounded, Unbounded)]

  // ----- Printing -----

  function IntervalTokens(iv: VersionRange.VersionInterval): seq<string> {
    if IsExactInterval(Precedence, iv) then ["=" + VersionString(iv.low.value)]
    else
      (if iv.low.At? then [(if iv.low.inclusive then ">=" else ">") + VersionString(iv.low.value)] else [])
      + (if iv.high.At? then [(if iv.high.inclusive then "<=" else "<") + VersionString(iv.high.value)] else [])
  }

  function IntervalString(iv: VersionRange.VersionInterval): string {
    var tokens := IntervalTokens(iv);
    if tokens == [] then "*" else Join(tokens, ' ')
  }

  function Alternatives(r: Range): string
    requires r != []
  {
    if |r| == 1 then IntervalString(r[0]) else IntervalString(r[0]) + " || " + Alternatives(r[1..])
  }

  function RangeString(r: Range): string {
    if r == [] then "<none>" else if VersionRange.IsAny(r) then "*" else Alternatives(r)
  }

  // ----- Splitting the text -----

  predicate IsBlank(c: char) {
    c == ' ' || c == '\t'
  }

  function TrimLeft(text: string): string {
    if text != "" && IsBlank(text[0]) then TrimLeft(text[1..]) else text
  }

  function TrimRight(text: string): string {
    if text != "" && IsBlank(text[|text| - 1]) then TrimRight(text[..|text| - 1]) else text
  }

  /** Alternatives between single or double bars. */
  function GroupsOf(text: string, current: string): (groups: seq<string>)
    ensures groups != []
    decreases |text|
  {
    if text == "" then [current]
    else if text[0] == '|' then
      [current] + GroupsOf(if |text| > 1 && text[1] == '|' then text[2..] else text[1..], "")
    else GroupsOf(text[1..], current + [text[0]])
  }

  predicate IsSeparator(c: char) {
    c == ' ' || c == '\t' || c == '\r' || c == '\n' || c == ','
  }

  function Pending(current: string): seq<string> {
    if current == "" then [] else [current]
  }

  function TokensOf(text: string, current: string): seq<string> {
    if text == "" then Pending(current)
    else if IsSeparator(text[0]) then Pending(current) + TokensOf(text[1..], "")
    else TokensOf(text[1..], current + [text[0]])
  }

  predicate IsBareOperator(t: string) {
    t == ">" || t == ">=" || t == "<" || t == "<=" || t == "=" || t == "^" || t == "~"
  }

  /** Joins an operator with the version that follows it after a space. */
  function Fold(tokens: seq<string>): seq<string> {
    if tokens == [] then []
    else if IsBareOperator(tokens[0]) && |tokens| > 1 && tokens[1] != "-" then [tokens[0] + tokens[1]] + Fold(tokens[2..])
    else [tokens[0]] + Fold(tokens[1..])
  }

  function WordsOf(group: string): seq<string> {
    Fold(TokensOf(group, ""))
  }

  // ----- Comparators -----

  datatype Operator = NoOperator | AtLeast | AtMost | Above | Below | Equals | Caret | Tilde

  function OperatorOf(token: string): (r: (Operator, string)) {
    if |token| >= 2 && token[..2] == ">=" then (AtLeast, token[2..])
    else if |token| >= 2 && token[..2] == "<=" then (AtMost, token[2..])
    else if token == "" then (NoOperator, token)
    else match token[0]
      case '>' => (Above, token[1..])
      case '<' => (Below, token[1..])
      case '=' => (Equals, token[1..])
      case '^' => (Caret, token[1..])
      case '~' => (Tilde, token[1..])
      case _ => (NoOperator, token)
  }

  /** 32-bit increment. */
  function Bump(n: u32): u32 {
    if n == MAX_COMPONENT then 0 else n + 1
  }

  function Number(pv: Partial, i: nat): u32 {
    if i < |pv.numbers| then pv.numbers[i] else 0
  }

  function Filled(pv: Partial): SemVersion {
    Release(Number(pv, 0), Number(pv, 1), Number(pv, 2))
  }

  /** Rebuilt through text, so that the prerelease travels along; build metadata does not. */
  function FilledWithPrerelease(pv: Partial): SemVersion {
    if pv.prerelease == [] then Filled(pv)
    else
      var parsed := ParseVersion(VersionString(Filled(pv)) + "-" + Join(pv.prerelease, '.'));
      if parsed.Some? then parsed.value else Filled(pv)
  }

  function One(low: Bound<SemVersion>, high: Bound<SemVersion>): Ranged {
    Accepted(FromIntervals(Precedence, [Interval(low, high)]))
  }

  /** The lower end of a caret or tilde range. */
  function BandStart(pv: Partial): SemVersion {
    if pv.IsFull() && pv.prerelease != [] then FilledWithPrerelease(pv) else Filled(pv)
  }

  function CaretRange(pv: Partial): Ranged {
    if !pv.HasMajor() then Accepted(ANY)
    else
      var major, minor, patch := Number(pv, 0), Number(pv, 1), Number(pv, 2);
      var high :=
        if major > 0 then Release(Bump(major), 0, 0)
        else if pv.HasMinor() && minor > 0 then Release(0, Bump(minor), 0)
        else if pv.IsFull() then Release(0, minor, Bump(patch))
        else if pv.HasMinor() then Release(0, 1, 0)
        else Release(1, 0, 0);
      One(At(BandStart(pv), true), At(high, false))
  }

  function TildeRange(pv: Partial): Ranged {
    if !pv.HasMajor() then Accepted(ANY)
    else
      var high := if pv.HasMinor() then Release(Number(pv, 0), Bump(Number(pv, 1)), 0) else Release(Bump(Number(pv, 0)), 0, 0);
      One(At(BandStart(pv), true), At(high, false))
  }

  function AboveRange(pv: Partial): Ranged {
    if pv.IsFull() then One(At(FilledWithPrerelease(pv), false), Unbounded)
    else if pv.HasMinor() then One(At(Release(Number(pv, 0), Bump(Number(pv, 1)), 0), true), Unbounded)
    else if pv.HasMajor() then One(At(Release(Bump(Number(pv, 0)), 0, 0), true), Unbounded)
    else One(Unbounded, Unbounded)
  }

  function BelowRange(pv: Partial): Ranged {
    if pv.IsFull() then One(Unbounded, At(FilledWithPrerelease(pv), false))
    else if !pv.HasMajor() then Undefined
    else One(Unbounded, At(Release(Number(pv, 0), Number(pv, 1), 0), false))
  }

  function AtMostRange(pv: Partial): Ranged {
    if pv.IsFull() then One(Unbounded, At(FilledWithPrerelease(pv), true))
    else if pv.HasMinor() then One(Unbounded, At(Release(Number(pv, 0), Bump(Number(pv, 1)), 0), false))
    else if !pv.HasMajor() then Undefined
    else One(Unbounded, At(Release(Bump(Number(pv, 0)), 0, 0), false))
  }

  /** The tilde text a partial version is rewritten to. */
  function BandText(pv: Partial): string
    requires pv.HasMajor()
  {
    "~" + Print(pv.numbers[0]) + if pv.HasMinor() then "." + Print(pv.numbers[1]) else ""
  }

  // ----- Why the mutual recursion ends: a tilde token is never rewritten -----

  function TokenRank(token: string): nat {
    if token != "" && token[0] == '~' then 0 else 1
  }

  ghost function TokensRank(tokens: seq<string>): nat {
    if forall t :: t in tokens ==> TokenRank(t) == 0 then 0 else 1
  }

  ghost function GroupsRank(groups: seq<string>): nat {
    if forall g :: g in groups ==> TokensRank(WordsOf(g)) == 0 then 0 else 1
  }

  ghost predicate IsBand(text: string) {
    |text| > 1 && text[0] == '~' && forall i :: 0 < i < |text| ==> IsDigit(text[i]) || text[i] == '.'
  }

  ghost function TextRank(text: string): nat {
    if IsBand(text) then 0 else 1
  }

  lemma BandTextIsBand(pv: Partial)
    requires pv.HasMajor()
    ensures IsBand(BandText(pv))
  {
    hide Print;
    assert Digits(Print(pv.numbers[0]));
  }

  lemma {:induction false} GroupsWithoutBars(text: string, current: string)
    requires '|' !in text
    ensures GroupsOf(text, current) == [current + text]
  {
    if text != "" {
      GroupsWithoutBars(text[1..], current + [text[0]]);
      assert current + [text[0]] + text[1..] == current + text;
    } else {
      assert current + text == current;
    }
  }

  predicate IsWord(s: string) {
    s != "" && forall i :: 0 <= i < |s| ==> !IsSeparator(s[i]) && s[i] != '|'
  }

  lemma {:induction false} TokensPastWord(word: string, rest: string, current: string)
    requires forall i :: 0 <= i < |word| ==> !IsSeparator(word[i])
    ensures TokensOf(word + rest, current) == TokensOf(rest, current + word)
  {
    if word != "" {
      assert (word + rest)[1..] == word[1..] + rest;
      TokensPastWord(word[1..], rest, current + [word[0]]);
      assert current + [word[0]] + word[1..] == current + word;
    } else {
      assert word + rest == rest && current + word == current;
    }
  }

  lemma BandIsOneWord(text: string)
    requires IsBand(text)
    ensures TrimRight(TrimLeft(text)) == text && GroupsOf(text, "") == [text] && WordsOf(text) == [text]
    ensures GroupsRank([text]) == 0
  {
    GroupsWithoutBars(text, "");
    assert "" + text == text;
    TokensPastWord(text, "", "");
    assert text + "" == text;
    assert TokensOf("", text) == [text];
    assert [text][1..] == [] && Fold([text]) == [text] + Fold([]);
    assert WordsOf(text) == [text];
  }

  // ----- Parsing -----

  function ComparatorToRange(token: string): Ranged
    decreases TokenRank(token), 0, 0
  {
    var (op, rest) := OperatorOf(token);
    var parsed := ParsePartial(rest);
    if parsed.None? then Refused
    else
      var pv := parsed.value;
      match op
      case Caret => CaretRange(pv)
      case Tilde => TildeRange(pv)
      case Above => AboveRange(pv)
      case AtLeast => One(At(FilledWithPrerelease(pv), true), Unbounded)
      case Below => BelowRange(pv)
      case AtMost => AtMostRange(pv)
      case _ =>
        if pv.IsFull() then Accepted([ExactInterval(FilledWithPrerelease(pv))])
        else if !pv.HasMajor() then Accepted(ANY)
        else
          BandTextIsBand(pv);
          ParseRange(BandText(pv))
  }

  /** The comparators of one alternative, intersected from left to right. */
  function ParseGroup(tokens: seq<string>, i: nat, group: Range): Ranged
    requires i <= |tokens|
    decreases TokensRank(tokens), 1, |tokens| - i
  {
    if i == |tokens| then Accepted(group)
    else if i + 2 < |tokens| && tokens[i + 1] == "-" then
      var low, high := ParsePartial(tokens[i]), ParsePartial(tokens[i + 2]);
      if low.None? || high.None? then Refused
      else
        var piece := FromIntervals(Precedence,
          [Interval(At(FilledWithPrerelease(low.value), true), At(FilledWithPrerelease(high.value), true))]);
        ParseGroup(tokens, i + 3, Intersect(Precedence, group, piece))
    else
      var piece := ComparatorToRange(tokens[i]);
      if !piece.Accepted? then piece
      else ParseGroup(tokens, i + 1, Intersect(Precedence, group, piece.range))
  }

  function ParseGroups(groups: seq<string>, all: Range): Ranged
    decreases GroupsRank(groups), 2, |groups|
  {
    if groups == [] then Accepted(FromIntervals(Precedence, all))
    else
      var words := WordsOf(groups[0]);
      if words == [] then Accepted(ANY)
      else if |words| > MAX_COMPARATORS then Refused
      else
        var piece := ParseGroup(words, 0, ANY);
        if !piece.Accepted? then piece else ParseGroups(groups[1..], all + piece.range)
  }

  predicate MeansAny(trimmed: string) {
    trimmed == "" || trimmed == "*" || trimmed == "x" || trimmed == "X" || trimmed == "any"
  }

  function ParseRange(text: string): Ranged
    decreases TextRank(text), 3, 0
  {
    if |text| > MAX_RANGE_TEXT then Refused
    else
      var trimmed := TrimRight(TrimLeft(text));
      if MeansAny(trimmed) then Accepted(ANY)
      else if trimmed == "<none>" then Accepted([])
      else
        var groups := GroupsOf(trimmed, "");
        assert GroupsRank(groups) <= TextRank(text) by {
          if IsBand(text) { BandIsOneWord(text); }
        }
        if |groups| > MAX_GROUPS then Refused else ParseGroups(groups, [])
  }
}
