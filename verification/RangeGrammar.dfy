/** How a range text is cut into alternatives and words, and which texts are refused (src/version.cpp). */
module RangeGrammar {
  import opened Order
  import opened SemVer
  import opened Intervals
  import opened VersionText
  import opened Rules
  import opened RangeText
  import opened TextMeaning
  import VersionRange

  // ----- Alternatives -----

  const BARS: set<string> := {"|", "||"}

  function Glued(groups: seq<string>, bars: seq<string>): string
    requires |groups| == |bars| + 1
  {
    if bars == [] then groups[0] else groups[0] + bars[0] + Glued(groups[1..], bars[1..])
  }

  /** The groups hold no bar; two bars in a row are one, so a single bar is not followed by another. */
  predicate IsCut(text: string, groups: seq<string>, bars: seq<string>) {
    && |groups| == |bars| + 1 && text == Glued(groups, bars)
    && (forall i :: 0 <= i < |groups| ==> '|' !in groups[i])
    && (forall i :: 0 <= i < |bars| ==> bars[i] in BARS)
    && (forall i :: 0 <= i < |bars| - 1 && bars[i] == "|" ==> groups[i + 1] != "")
  }

  lemma {:induction false} GroupsPastPlain(plain: string, rest: string, current: string)
    requires '|' !in plain
    ensures GroupsOf(plain + rest, current) == GroupsOf(rest, current + plain)
  {
    if plain == "" {
      assert plain + rest == rest && current + plain == current;
    } else {
      assert (plain + rest)[1..] == plain[1..] + rest;
      GroupsPastPlain(plain[1..], rest, current + [plain[0]]);
      assert current + [plain[0]] + plain[1..] == current + plain;
    }
  }

  /** What follows a single bar does not begin with one. */
  lemma GluedStarts(groups: seq<string>, bars: seq<string>)
    requires |groups| == |bars| + 1 && '|' !in groups[0] && (bars != [] ==> groups[0] != "")
    ensures Glued(groups, bars) == "" || Glued(groups, bars)[0] != '|'
  {
    if groups[0] != "" { assert groups[0][0] in groups[0] && Glued(groups, bars)[0] == groups[0][0]; }
  }

  lemma {:induction false} CutIsRead(text: string, groups: seq<string>, bars: seq<string>)
    requires IsCut(text, groups, bars)
    ensures GroupsOf(text, "") == groups
    decreases |bars|
  {
    if bars == [] {
      assert groups[0] + "" == groups[0];
      GroupsPastPlain(groups[0], "", "");
      assert "" + groups[0] == groups[0] && groups == [groups[0]];
    } else {
      var tail := Glued(groups[1..], bars[1..]);
      CutIsRead(tail, groups[1..], bars[1..]);
      assert text == groups[0] + (bars[0] + tail);
      GroupsPastPlain(groups[0], bars[0] + tail, "");
      assert "" + groups[0] == groups[0];
      if bars[0] == "|" {
        GluedStarts(groups[1..], bars[1..]);
        assert ("|" + tail)[1..] == tail;
      } else {
        assert ("||" + tail)[2..] == tail;
      }
      assert groups == [groups[0]] + groups[1..];
    }
  }

  lemma LastCut(text: string)
    requires '|' !in text
    ensures IsCut(text, [text], [])
  {
  }

  lemma BarStep(text: string, current: string) returns (bar: string, rest: string)
    requires text != "" && text[0] == '|'
    ensures text == bar + rest && bar in BARS && (bar == "|" && rest != "" ==> rest[0] != '|')
    ensures GroupsOf(text, current) == [current] + GroupsOf(rest, "")
  {
    if |text| > 1 && text[1] == '|' {
      bar, rest := "||", text[2..];
    } else {
      bar, rest := "|", text[1..];
    }
  }

  lemma PlainStep(text: string, current: string)
    requires text != "" && text[0] != '|'
    ensures GroupsOf(text, current) == GroupsOf(text[1..], current + [text[0]])
    ensures current + [text[0]] + text[1..] == current + text
  {
  }

  lemma {:induction false} CutFrom(text: string, current: string) returns (bars: seq<string>)
    requires '|' !in current
    ensures IsCut(current + text, GroupsOf(text, current), bars)
    decreases |text|
  {
    hide IsCut, BARS, GroupsOf;
    if text == "" {
      bars := [];
      LastStep(current);
      LastCut(current);
    } else if text[0] == '|' {
      var bar, rest := BarStep(text, current);
      NoEmptyBar(bar);
      var more := CutFrom(rest, "");
      NothingBefore(rest);
      CutOneMore(current, bar, rest, GroupsOf(rest, ""), more);
      Rebracket(current, bar, rest);
      bars := [bar] + more;
    } else {
      PlainStep(text, current);
      bars := CutFrom(text[1..], current + [text[0]]);
    }
  }

  lemma LastStep(current: string)
    ensures GroupsOf("", current) == [current] && current + "" == current
  {
  }

  lemma NothingBefore(s: string)
    ensures "" + s == s
  {
  }

  lemma Rebracket(a: string, b: string, c: string)
    ensures a + (b + c) == a + b + c
  {
  }

  lemma NoEmptyBar(bar: string)
    requires bar in BARS
    ensures bar != ""
  {
  }

  lemma EmptyThenBar(rest: string, groups: seq<string>, bars: seq<string>)
    requires IsCut(rest, groups, bars) && bars != [] && groups[0] == ""
    ensures rest != "" && rest[0] == '|'
  {
    assert bars[0][0] == '|';
  }

  lemma CutOneMore(current: string, bar: string, rest: string, groups: seq<string>, bars: seq<string>)
    requires IsCut(rest, groups, bars) && '|' !in current && bar in BARS
    requires bar == "|" && rest != "" ==> rest[0] != '|'
    ensures IsCut(current + bar + rest, [current] + groups, [bar] + bars)
  {
    var gs, bs := [current] + groups, [bar] + bars;
    assert gs[1..] == groups && bs[1..] == bars;
    if bars != [] && groups[0] == "" { EmptyThenBar(rest, groups, bars); }
  }

  /** The alternatives are exactly the pieces between single or double bars. */
  lemma CutMeaning(text: string, groups: seq<string>)
    ensures GroupsOf(text, "") == groups <==> exists bars :: IsCut(text, groups, bars)
  {
    hide IsCut;
    if GroupsOf(text, "") == groups {
      var bars := CutFrom(text, "");
      assert "" + text == text;
    }
    if bars :| IsCut(text, groups, bars) { CutIsRead(text, groups, bars); }
  }

  // ----- Words -----

  const SEPARATORS: set<char> := {' ', '\t', '\r', '\n', ','}

  predicate IsGap(gap: string) {
    forall i :: 0 <= i < |gap| ==> gap[i] in SEPARATORS
  }

  predicate IsPlainWord(word: string) {
    word != "" && forall i :: 0 <= i < |word| ==> word[i] !in SEPARATORS
  }

  function Spaced(words: seq<string>, gaps: seq<string>): string
    requires |gaps| == |words| + 1
  {
    if words == [] then gaps[0] else gaps[0] + words[0] + Spaced(words[1..], gaps[1..])
  }

  /** Blanks, line ends and commas, at least one between two words. */
  predicate IsSpaced(text: string, words: seq<string>, gaps: seq<string>) {
    && |gaps| == |words| + 1 && text == Spaced(words, gaps)
    && (forall i :: 0 <= i < |words| ==> IsPlainWord(words[i]))
    && (forall i :: 0 <= i < |gaps| ==> IsGap(gaps[i]))
    && (forall i :: 0 < i < |words| ==> gaps[i] != "")
  }

  lemma SeparatorMeaning(c: char)
    ensures IsSeparator(c) <==> c in SEPARATORS
  {
  }

  lemma {:induction false} TokensPastGap(gap: string, rest: string)
    requires IsGap(gap)
    ensures TokensOf(gap + rest, "") == TokensOf(rest, "")
  {
    if gap == "" {
      assert gap + rest == rest;
    } else {
      SeparatorMeaning(gap[0]);
      assert (gap + rest)[1..] == gap[1..] + rest;
      TokensPastGap(gap[1..], rest);
    }
  }

  lemma WordThenGap(word: string, gap: string, rest: string)
    requires IsPlainWord(word) && IsGap(gap) && (gap != "" || rest == "")
    ensures TokensOf(word + gap + rest, "") == [word] + TokensOf(rest, "")
  {
    forall i | 0 <= i < |word| ensures !IsSeparator(word[i]) { SeparatorMeaning(word[i]); }
    assert word + gap + rest == word + (gap + rest) && "" + word == word;
    TokensPastWord(word, gap + rest, "");
    if gap == "" {
      assert gap + rest == "";
    } else {
      SeparatorMeaning(gap[0]);
      assert (gap + rest)[1..] == gap[1..] + rest;
      TokensPastGap(gap[1..], rest);
    }
  }

  lemma FirstGap(words: seq<string>, gaps: seq<string>)
    requires |gaps| == |words| + 1
    ensures Spaced(words, gaps) == gaps[0] + Spaced(words, [""] + gaps[1..])
  {
    var tail := [""] + gaps[1..];
    assert tail[1..] == gaps[1..];
    if words == [] {
      assert gaps[0] + "" == gaps[0];
    } else {
      NothingBefore(words[0]);
      Rebracket(gaps[0], words[0], Spaced(words[1..], gaps[1..]));
    }
  }

  lemma SpacedSplits(words: seq<string>, gaps: seq<string>)
    requires |gaps| == |words| + 1 && words != []
    ensures Spaced(words, gaps) == gaps[0] + (words[0] + gaps[1] + Spaced(words[1..], [""] + gaps[2..]))
    ensures |words| == 1 ==> Spaced(words[1..], [""] + gaps[2..]) == ""
  {
    var rest := Spaced(words[1..], [""] + gaps[2..]);
    FirstGap(words[1..], gaps[1..]);
    assert gaps[1..][1..] == gaps[2..];
    assert Spaced(words, gaps) == gaps[0] + words[0] + (gaps[1] + rest);
    Rebracket(gaps[0], words[0], gaps[1] + rest);
    Rebracket(words[0], gaps[1], rest);
  }

  lemma {:induction false} SpacedIsRead(text: string, words: seq<string>, gaps: seq<string>)
    requires IsSpaced(text, words, gaps)
    ensures TokensOf(text, "") == words
    decreases |words|
  {
    if words == [] {
      assert text == gaps[0] + "";
      TokensPastGap(gaps[0], "");
    } else {
      var tail := [""] + gaps[2..];
      var rest := Spaced(words[1..], tail);
      SpacedSplits(words, gaps);
      SpacedIsRead(rest, words[1..], tail);
      TokensPastGap(gaps[0], words[0] + gaps[1] + rest);
      WordThenGap(words[0], gaps[1], rest);
      assert words == [words[0]] + words[1..];
    }
  }

  lemma {:induction false} SpacedFrom(text: string, current: string) returns (gaps: seq<string>)
    requires forall i :: 0 <= i < |current| ==> current[i] !in SEPARATORS
    ensures IsSpaced(current + text, TokensOf(text, current), gaps)
    ensures gaps != [] && (current != "" ==> gaps[0] == "")
    decreases |text|
  {
    hide IsSpaced, TokensOf, SEPARATORS;
    if text == "" {
      gaps := if current == "" then [""] else ["", ""];
      LastWords(current);
    } else {
      SeparatorMeaning(text[0]);
      TokensStep(text, current);
      if IsSeparator(text[0]) {
        var more := SpacedFrom(text[1..], "");
        var words := TokensOf(text[1..], "");
        NothingBefore(text[1..]);
        NothingBefore(text);
        gaps := WiderGap(text[0], text[1..], words, more);
        if current != "" {
          WordInFront(current, text, words, gaps);
          gaps := [""] + gaps;
        }
      } else {
        gaps := SpacedFrom(text[1..], current + [text[0]]);
      }
    }
  }

  lemma LastWords(current: string)
    requires forall i :: 0 <= i < |current| ==> current[i] !in SEPARATORS
    ensures IsSpaced(current + "", TokensOf("", current), if current == "" then [""] else ["", ""])
  {
    hide IsSpaced, TokensOf;
    TokensEnd(current);
    NoWordIsSpaced();
    if current != "" { LoneWordIsSpaced(current); }
  }

  lemma TokensEnd(current: string)
    ensures TokensOf("", current) == if current == "" then [] else [current]
    ensures current + "" == current
  {
  }

  lemma NoWordIsSpaced()
    ensures IsSpaced("", [], [""])
  {
    NoWords("");
  }

  lemma LoneWordIsSpaced(word: string)
    requires IsPlainWord(word)
    ensures IsSpaced(word, [word], ["", ""])
  {
    LoneWord(word);
    hide Spaced, IsPlainWord;
  }

  lemma NoWords(gap: string)
    ensures Spaced([], [gap]) == gap
  {
  }

  lemma LoneWord(word: string)
    ensures Spaced([word], ["", ""]) == word
  {
    assert [word][1..] == [] && ["", ""][1..] == [""];
    NoWords("");
    hide Spaced;
    assert "" + word + "" == word;
  }

  lemma TokensStep(text: string, current: string)
    requires text != ""
    ensures TokensOf(text, current) ==
      if IsSeparator(text[0]) then (if current == "" then [] else [current]) + TokensOf(text[1..], "")
      else TokensOf(text[1..], current + [text[0]])
    ensures current + [text[0]] + text[1..] == current + text && [text[0]] + text[1..] == text
    ensures current == "" ==> current + text == text && [] + TokensOf(text[1..], "") == TokensOf(text[1..], "")
  {
  }

  lemma WiderGap(c: char, text: string, words: seq<string>, gaps: seq<string>) returns (wider: seq<string>)
    requires c in SEPARATORS && IsSpaced(text, words, gaps)
    ensures IsSpaced([c] + text, words, wider) && wider != [] && wider[0] != ""
  {
    wider := gaps[0 := [c] + gaps[0]];
    assert wider[1..] == gaps[1..];
    assert words != [] ==> [c] + gaps[0] + words[0] + Spaced(words[1..], gaps[1..]) == [c] + text;
  }

  lemma WordInFront(word: string, text: string, words: seq<string>, gaps: seq<string>)
    requires IsPlainWord(word) && IsSpaced(text, words, gaps) && gaps != [] && gaps[0] != ""
    ensures IsSpaced(word + text, [word] + words, [""] + gaps)
  {
    var ws, gs := [word] + words, [""] + gaps;
    assert ws[1..] == words && gs[1..] == gaps;
    assert "" + word + Spaced(words, gaps) == word + text;
  }

  /** The words of a group are exactly what stands between separators. */
  lemma WordsMeaning(text: string, words: seq<string>)
    ensures TokensOf(text, "") == words <==> exists gaps :: IsSpaced(text, words, gaps)
  {
    hide IsSpaced;
    if TokensOf(text, "") == words {
      var gaps := SpacedFrom(text, "");
      assert "" + text == text;
    }
    if gaps :| IsSpaced(text, words, gaps) { SpacedIsRead(text, words, gaps); }
  }

  const OPERATORS: set<string> := {">", ">=", "<", "<=", "=", "^", "~"}

  /** An operator on its own is read together with the word after it, but for a dash. */
  lemma FoldMeaning(word: string, rest: seq<string>)
    ensures Fold([]) == []
    ensures word !in OPERATORS || rest == [] || rest[0] == "-" ==> Fold([word] + rest) == [word] + Fold(rest)
    ensures word in OPERATORS && rest != [] && rest[0] != "-" ==> Fold([word] + rest) == [word + rest[0]] + Fold(rest[1..])
  {
    OperatorsMeaning(word);
    hide IsBareOperator, OPERATORS;
    var words := [word] + rest;
    assert words[1..] == rest;
    if rest != [] { assert words[2..] == rest[1..] && words[1] == rest[0]; }
  }

  lemma OperatorsMeaning(word: string)
    ensures IsBareOperator(word) <==> word in OPERATORS
  {
  }

  // ----- The whole text -----

  predicate IsBlankText(s: string) {
    forall i :: 0 <= i < |s| ==> s[i] == ' ' || s[i] == '\t'
  }

  predicate IsTrimmed(s: string) {
    s != "" ==> s[0] != ' ' && s[0] != '\t' && s[|s| - 1] != ' ' && s[|s| - 1] != '\t'
  }

  lemma {:induction false} LeftTrims(before: string, rest: string)
    requires IsBlankText(before) && (rest != "" ==> rest[0] != ' ' && rest[0] != '\t')
    ensures TrimLeft(before + rest) == rest
  {
    if before == "" {
      assert before + rest == rest;
    } else {
      assert (before + rest)[1..] == before[1..] + rest;
      LeftTrims(before[1..], rest);
    }
  }

  lemma {:induction false} RightTrims(rest: string, after: string)
    requires IsBlankText(after) && (rest != "" ==> rest[|rest| - 1] != ' ' && rest[|rest| - 1] != '\t')
    ensures TrimRight(rest + after) == rest
  {
    if after == "" {
      assert rest + after == rest;
    } else {
      var n := |after| - 1;
      assert (rest + after)[..|rest| + n] == rest + after[..n];
      RightTrims(rest, after[..n]);
    }
  }

  lemma Trims(before: string, core: string, after: string)
    requires IsBlankText(before) && IsBlankText(after) && IsTrimmed(core)
    ensures TrimRight(TrimLeft(before + core + after)) == core
  {
    assert before + core + after == before + (core + after);
    if core == "" {
      assert before + core + after == before + after + "";
      LeftTrims(before + after, "");
    } else {
      LeftTrims(before, core + after);
      RightTrims(core, after);
    }
  }

  const EVERYTHING: set<string> := {"", "*", "x", "X", "any"}

  /** Blanks around it aside, a text is one of five words for everything, the word for nothing, or up to 64 alternatives. */
  lemma TextCases(before: string, core: string, after: string)
    requires IsBlankText(before) && IsBlankText(after) && IsTrimmed(core)
    ensures var text := before + core + after;
      && (|text| > 4096 ==> ParseRange(text) == Refused)
      && (|text| <= 4096 && core in EVERYTHING ==> ParseRange(text) == Accepted(ANY))
      && (|text| <= 4096 && core == "<none>" ==> ParseRange(text) == Accepted([]))
      && (|text| <= 4096 && core !in EVERYTHING && core != "<none>" ==>
            ParseRange(text) == if |GroupsOf(core, "")| > 64 then Refused else ParseGroups(GroupsOf(core, ""), []))
  {
    Trims(before, core, after);
    hide TrimLeft, TrimRight, GroupsOf, ParseGroups, IsBlankText, IsTrimmed;
  }

  // ----- Which alternatives are looked at -----

  predicate IsEmptyGroup(group: string) {
    WordsOf(group) == []
  }

  predicate IsGoodGroup(group: string) {
    1 <= |WordsOf(group)| <= 64 && ParseGroup(WordsOf(group), 0, ANY).Accepted?
  }

  /**
   * Alternatives are read in order up to the first without a word, which makes it everything, or
   * the first that is no good, which decides the refusal; otherwise the text is accepted.
   */
  lemma {:induction false} GroupsOutcome(groups: seq<string>, all: Range, k: nat)
    requires k <= |groups| && forall i :: 0 <= i < k ==> IsGoodGroup(groups[i])
    ensures k == |groups| ==> ParseGroups(groups, all).Accepted?
    ensures k < |groups| && IsEmptyGroup(groups[k]) ==> ParseGroups(groups, all) == Accepted(ANY)
    ensures k < |groups| && !IsEmptyGroup(groups[k]) && |WordsOf(groups[k])| > 64 ==> ParseGroups(groups, all) == Refused
    ensures k < |groups| && !IsEmptyGroup(groups[k]) && |WordsOf(groups[k])| <= 64 && !IsGoodGroup(groups[k]) ==>
              ParseGroups(groups, all) == ParseGroup(WordsOf(groups[k]), 0, ANY)
  {
    hide WordsOf, ParseGroup, FromIntervals;
    if k > 0 {
      assert IsGoodGroup(groups[0]);
      assert forall i :: 0 <= i < k - 1 ==> groups[1..][i] == groups[i + 1];
      GroupsOutcome(groups[1..], all + ParseGroup(WordsOf(groups[0]), 0, ANY).range, k - 1);
    }
  }

  /** A group is accepted exactly when each of its comparators and hyphen ranges is. */
  lemma {:induction false} GroupAccepted(words: seq<string>, i: nat, group: Range)
    requires i <= |words|
    ensures ParseGroup(words, i, group).Accepted? <==> forall r :: r in PiecesFrom(words, i) ==> r.Accepted?
    decreases |words| - i
  {
    hide ComparatorToRange, ParsePartial, FromIntervals, FilledWithPrerelease, Intersect;
    if i < |words| {
      if i + 2 < |words| && words[i + 1] == "-" {
        var low, high := ParsePartial(words[i]), ParsePartial(words[i + 2]);
        assert PiecesFrom(words, i)[0] == HyphenPiece(words[i], words[i + 2]);
        if low.Some? && high.Some? {
          var piece := FromIntervals(Precedence,
            [Interval(At(FilledWithPrerelease(low.value), true), At(FilledWithPrerelease(high.value), true))]);
          GroupAccepted(words, i + 3, Intersect(Precedence, group, piece));
        }
      } else {
        var piece := ComparatorToRange(words[i]);
        assert PiecesFrom(words, i)[0] == piece;
        if piece.Accepted? { GroupAccepted(words, i + 1, Intersect(Precedence, group, piece.range)); }
      }
    }
  }

  /** A hyphen range is accepted exactly when both of its ends read. */
  lemma HyphenAccepted(low: string, high: string)
    ensures HyphenPiece(low, high).Accepted? <==> ParsePartial(low).Some? && ParsePartial(high).Some?
  {
    hide ParsePartial;
  }
}
