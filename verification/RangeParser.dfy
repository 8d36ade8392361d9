/** The loops of the range parser, each against the function it computes (src/version.cpp). */
module RangeParser {
  import opened SemVer
  import opened Intervals
  import opened VersionText
  import opened Rules
  import opened RangeText

  lemma Reassociate<T>(a: seq<T>, b: seq<T>, c: seq<T>)
    ensures a + (b + c) == a + b + c
  {
  }

  lemma TokensStep(text: string, current: string)
    requires text != ""
    ensures TokensOf(text, current) ==
      if IsSeparator(text[0]) then Pending(current) + TokensOf(text[1..], "") else TokensOf(text[1..], current + [text[0]])
  {
  }

  /** Cuts a group into its words. */
  method Tokenize(text: string) returns (tokens: seq<string>)
    ensures tokens == TokensOf(text, "")
  {
    hide TokensOf;
    tokens := [];
    var current := "";
    assert text[0..] == text && TokensOf(text, "") == [] + TokensOf(text, "");
    for i := 0 to |text|
      invariant TokensOf(text, "") == tokens + TokensOf(text[i..], current)
    {
      assert text[i..][1..] == text[i + 1..];
      TokensStep(text[i..], current);
      if IsSeparator(text[i]) {
        Reassociate(tokens, Pending(current), TokensOf(text[i + 1..], ""));
        if current != "" {
          tokens := tokens + [current];
          current := "";
        }
        assert tokens + [] == tokens;
      } else {
        current := current + [text[i]];
      }
    }
    NoTokensLeft(text[|text|..], current);
    if current != "" { tokens := tokens + [current]; }
  }

  lemma NoTokensLeft(text: string, current: string)
    requires text == ""
    ensures TokensOf(text, current) == Pending(current)
  {
  }

  lemma GroupsStep(text: string, current: string)
    requires text != ""
    ensures GroupsOf(text, current) ==
      if text[0] == '|' then [current] + GroupsOf(if |text| > 1 && text[1] == '|' then text[2..] else text[1..], "")
      else GroupsOf(text[1..], current + [text[0]])
  {
  }

  /** Cuts a range into its alternatives at single or double bars. */
  method SplitGroups(text: string) returns (groups: seq<string>)
    ensures groups == GroupsOf(text, "")
  {
    hide GroupsOf;
    groups := [];
    var current, i := "", 0;
    assert text[0..] == text && GroupsOf(text, "") == [] + GroupsOf(text, "");
    while i < |text|
      invariant i <= |text|
      invariant GroupsOf(text, "") == groups + GroupsOf(text[i..], current)
    {
      ghost var rest := text[i..];
      GroupsStep(rest, current);
      if text[i] == '|' {
        if i + 1 < |text| && text[i + 1] == '|' {
          assert rest[2..] == text[i + 2..];
          i := i + 1;
        } else {
          assert rest[1..] == text[i + 1..];
        }
        Reassociate(groups, [current], GroupsOf(text[i + 1..], ""));
        groups := groups + [current];
        current := "";
      } else {
        assert rest[1..] == text[i + 1..];
        current := current + [text[i]];
      }
      i := i + 1;
    }
    NoTextLeft(text[|text|..], current);
    groups := groups + [current];
  }

  lemma NoTextLeft(text: string, current: string)
    requires text == ""
    ensures GroupsOf(text, current) == [current]
  {
  }

  lemma FoldStep(tokens: seq<string>)
    requires tokens != []
    ensures Fold(tokens) ==
      if IsBareOperator(tokens[0]) && |tokens| > 1 && tokens[1] != "-" then [tokens[0] + tokens[1]] + Fold(tokens[2..])
      else [tokens[0]] + Fold(tokens[1..])
  {
  }

  /** Joins every bare operator with the word after it, unless that word is a dash. */
  method FoldOperators(tokens: seq<string>) returns (folded: seq<string>)
    ensures folded == Fold(tokens)
  {
    hide Fold, IsBareOperator;
    folded := [];
    var i := 0;
    assert tokens[0..] == tokens && Fold(tokens) == [] + Fold(tokens);
    while i < |tokens|
      invariant i <= |tokens|
      invariant Fold(tokens) == folded + Fold(tokens[i..])
    {
      ghost var rest := tokens[i..];
      FoldStep(rest);
      if IsBareOperator(tokens[i]) && i + 1 < |tokens| && tokens[i + 1] != "-" {
        assert rest[2..] == tokens[i + 2..];
        Reassociate(folded, [tokens[i] + tokens[i + 1]], Fold(tokens[i + 2..]));
        folded := folded + [tokens[i] + tokens[i + 1]];
        i := i + 1;
      } else {
        assert rest[1..] == tokens[i + 1..];
        Reassociate(folded, [tokens[i]], Fold(tokens[i + 1..]));
        folded := folded + [tokens[i]];
      }
      i := i + 1;
    }
    NothingToFold(tokens[|tokens|..]);
    assert folded + [] == folded;
  }

  lemma NothingToFold(tokens: seq<string>)
    requires tokens == []
    ensures Fold(tokens) == []
  {
  }

  lemma GroupStep(tokens: seq<string>, i: nat, group: Range)
    requires i <= |tokens|
    ensures ParseGroup(tokens, i, group) ==
      if i == |tokens| then Accepted(group)
      else if i + 2 < |tokens| && tokens[i + 1] == "-" then
        var low, high := ParsePartial(tokens[i]), ParsePartial(tokens[i + 2]);
        if low.None? || high.None? then Refused
        else
          var piece := FromIntervals(Precedence,
            [Interval(At(FilledWithPrerelease(low.value), true), At(FilledWithPrerelease(high.value), true))]);
          ParseGroup(tokens, i + 3, Intersect(Precedence, group, piece))
      else
        var piece := ComparatorToRange(tokens[i]);
        if !piece.Accepted? then piece else ParseGroup(tokens, i + 1, Intersect(Precedence, group, piece.range))
  {
  }

  /** Intersects the comparators of one alternative, reading hyphen ranges three words at a time. */
  method EvaluateGroup(tokens: seq<string>) returns (r: Ranged)
    ensures r == ParseGroup(tokens, 0, ANY)
  {
    hide ParseGroup, ComparatorToRange, FromIntervals, Intersect, ParsePartial, FilledWithPrerelease;
    var group, i := ANY, 0;
    while i < |tokens|
      invariant i <= |tokens|
      invariant ParseGroup(tokens, 0, ANY) == ParseGroup(tokens, i, group)
    {
      GroupStep(tokens, i, group);
      if i + 2 < |tokens| && tokens[i + 1] == "-" {
        var low := ScanPartial(tokens[i]);
        if low.None? { return Refused; }
        var high := ScanPartial(tokens[i + 2]);
        if high.None? { return Refused; }
        var piece := FromIntervals(Precedence,
          [Interval(At(FilledWithPrerelease(low.value), true), At(FilledWithPrerelease(high.value), true))]);
        group := Intersect(Precedence, group, piece);
        i := i + 3;
      } else {
        var piece := ComparatorToRange(tokens[i]);
        if !piece.Accepted? { return piece; }
        group := Intersect(Precedence, group, piece.range);
        i := i + 1;
      }
    }
    GroupStep(tokens, i, group);
    return Accepted(group);
  }

  lemma GroupsTurn(groups: seq<string>, all: Range)
    ensures ParseGroups(groups, all) ==
      if groups == [] then Accepted(FromIntervals(Precedence, all))
      else
        var words := WordsOf(groups[0]);
        if words == [] then Accepted(ANY)
        else if |words| > MAX_COMPARATORS then Refused
        else
          var piece := ParseGroup(words, 0, ANY);
          if !piece.Accepted? then piece else ParseGroups(groups[1..], all + piece.range)
  {
  }

  method EvaluateGroups(groups: seq<string>) returns (r: Ranged)
    ensures r == ParseGroups(groups, [])
  {
    hide ParseGroups, ParseGroup, FromIntervals, TokensOf, Fold;
    var all: Range := [];
    assert groups[0..] == groups;
    for i := 0 to |groups|
      invariant ParseGroups(groups, []) == ParseGroups(groups[i..], all)
    {
      GroupsTurn(groups[i..], all);
      assert groups[i..][1..] == groups[i + 1..];
      var tokens := Tokenize(groups[i]);
      var folded := FoldOperators(tokens);
      if folded == [] { return Accepted(ANY); }
      if |folded| > MAX_COMPARATORS { return Refused; }
      var piece := EvaluateGroup(folded);
      if !piece.Accepted? { return piece; }
      all := all + piece.range;
    }
    GroupsTurn(groups[|groups|..], all);
    return Accepted(FromIntervals(Precedence, all));
  }

  lemma LeftStep(text: string)
    ensures TrimLeft(text) == if text != "" && IsBlank(text[0]) then TrimLeft(text[1..]) else text
  {
  }

  lemma RightStep(text: string)
    ensures TrimRight(text) == if text != "" && IsBlank(text[|text| - 1]) then TrimRight(text[..|text| - 1]) else text
  {
  }

  /** The two ends move inward over blanks. */
  method Trim(text: string) returns (trimmed: string)
    ensures trimmed == TrimRight(TrimLeft(text))
  {
    hide TrimLeft, TrimRight;
    var begin, end := 0, |text|;
    assert text[0..] == text;
    while begin < end && IsBlank(text[begin])
      invariant begin <= end == |text|
      invariant TrimLeft(text) == TrimLeft(text[begin..])
    {
      LeftStep(text[begin..]);
      assert text[begin..][1..] == text[begin + 1..];
      begin := begin + 1;
    }
    LeftStep(text[begin..]);
    assert text[begin..end] == text[begin..];
    while end > begin && IsBlank(text[end - 1])
      invariant begin <= end <= |text|
      invariant TrimRight(TrimLeft(text)) == TrimRight(text[begin..end])
    {
      RightStep(text[begin..end]);
      ghost var rest := text[begin..end];
      assert rest[..|rest| - 1] == text[begin..end - 1];
      end := end - 1;
    }
    RightStep(text[begin..end]);
    return text[begin..end];
  }

  /** `VersionRange::Parse` as it runs. */
  method Run(text: string) returns (r: Ranged)
    ensures r == ParseRange(text)
  {
    hide ParseGroups, GroupsOf, TrimLeft, TrimRight;
    if |text| > MAX_RANGE_TEXT { return Refused; }
    var trimmed := Trim(text);
    if MeansAny(trimmed) { return Accepted(ANY); }
    if trimmed == "<none>" { return Accepted([]); }
    var groups := SplitGroups(trimmed);
    if |groups| > MAX_GROUPS { return Refused; }
    r := EvaluateGroups(groups);
  }
}
