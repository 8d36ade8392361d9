/** Compact JSON text reads back as the value it was made from. */
module JsonRoundTrip {
  import opened Order
  import opened SemVer
  import opened Decimal
  import opened Json

  /** The text continues with `s` at `pos`. */
  predicate Shows(text: string, pos: nat, s: string) {
    pos + |s| <= |text| && text[pos..pos + |s|] == s
  }

  lemma ShowsParts(text: string, pos: nat, a: string, b: string)
    requires Shows(text, pos, a + b)
    ensures Shows(text, pos, a) && Shows(text, pos + |a|, b)
  {
    var s := text[pos..pos + |a + b|];
    assert text[pos..pos + |a|] == s[..|a|] && text[pos + |a|..pos + |a| + |b|] == s[|a|..];
  }

  lemma ShowsFirst(text: string, pos: nat, s: string)
    requires Shows(text, pos, s) && s != ""
    ensures text[pos] == s[0]
  {
    assert text[pos..pos + |s|][0] == s[0];
  }

  // ----- Strings -----

  lemma HexDigitRoundTrip(d: nat)
    requires d < 16
    ensures IsHex(HexDigit(d)) && HexValue(HexDigit(d)) == d
  {
  }

  lemma ControlCharacter(text: string, pos: nat, c: char)
    requires c as int < 0x20
    requires Shows(text, pos, "\\u00" + [HexDigit(c as int / 16), HexDigit(c as int % 16)])
    ensures StringPiece(text, pos) == Got([c], pos + 6)
  {
    var h, l := c as int / 16, c as int % 16;
    var s := "\\u00" + [HexDigit(h), HexDigit(l)];
    assert |s| == 6;
    assert forall i :: 0 <= i < 6 ==> text[pos + i] == text[pos..pos + 6][i] == s[i];
    HexDigitRoundTrip(h);
    HexDigitRoundTrip(l);
    assert text[pos] == '\\' && text[pos + 1] == 'u' && text[pos + 2] == '0' && text[pos + 3] == '0';
    assert Hex4(text, pos + 2) == Got(c as int, pos + 6);
    assert Utf8(c as int) == [c];
  }

  lemma EscapedCharReads(text: string, pos: nat, c: char)
    requires Shows(text, pos, EscapedChar(c))
    ensures StringPiece(text, pos) == Got([c], pos + |EscapedChar(c)|)
    ensures text[pos] != '"'
  {
    ShowsFirst(text, pos, EscapedChar(c));
    if |EscapedChar(c)| == 2 {
      assert text[pos + 1] == text[pos..pos + 2][1] == EscapedChar(c)[1];
    } else if |EscapedChar(c)| == 6 {
      ControlCharacter(text, pos, c);
    }
  }

  lemma StringRestStep(text: string, pos: nat, out: string, c: char, next: nat, limits: Limits)
    requires pos < |text| && text[pos] != '"' && StringPiece(text, pos) == Got([c], next) && next <= |text|
    requires |out| < limits.maxString
    ensures StringRest(text, pos, out, limits) == StringRest(text, next, out + [c], limits)
  {
    hide StringPiece;
  }

  lemma EscapedHead(s: string)
    requires s != ""
    ensures Escaped(s) + "\"" == EscapedChar(s[0]) + (Escaped(s[1..]) + "\"")
    ensures |Escaped(s)| == |EscapedChar(s[0])| + |Escaped(s[1..])|
  {
    hide EscapedChar;
  }

  lemma EscapedNothing()
    ensures Escaped("") == ""
  {
  }

  lemma StringEnds(text: string, pos: nat, out: string, limits: Limits)
    requires Shows(text, pos, Escaped("") + "\"")
    ensures StringRest(text, pos, out, limits) == Got(out + "", pos + |Escaped("")| + 1)
  {
    ShowsFirst(text, pos, "\"");
    assert out + "" == out;
  }

  lemma {:induction false} StringRestReads(text: string, pos: nat, out: string, s: string, limits: Limits)
    requires Shows(text, pos, Escaped(s) + "\"")
    requires |out| + |s| <= limits.maxString
    ensures StringRest(text, pos, out, limits) == Got(out + s, pos + |Escaped(s)| + 1)
    decreases |s|
  {
    hide EscapedChar, StringPiece, StringRest, Escaped, Shows;
    if s == "" {
      StringEnds(text, pos, out, limits);
    } else {
      var c, rest := s[0], s[1..];
      EscapedHead(s);
      ShowsParts(text, pos, EscapedChar(c), Escaped(rest) + "\"");
      EscapedCharReads(text, pos, c);
      ShowsInside(text, pos, EscapedChar(c));
      StringRestStep(text, pos, out, c, pos + |EscapedChar(c)|, limits);
      StringRestReads(text, pos + |EscapedChar(c)|, out + [c], rest, limits);
      assert out + [c] + rest == out + s;
    }
  }

  lemma ShowsInside(text: string, pos: nat, s: string)
    requires Shows(text, pos, s)
    ensures pos + |s| <= |text|
  {
  }

  lemma StringReads(text: string, pos: nat, s: string, limits: Limits)
    requires Shows(text, pos, Quoted(s)) && |s| <= limits.maxString
    ensures StringAt(text, pos, limits) == Got(s, pos + |Quoted(s)|)
  {
    hide Escaped, StringRest;
    assert Quoted(s) == "\"" + (Escaped(s) + "\"");
    ShowsParts(text, pos, "\"", Escaped(s) + "\"");
    ShowsFirst(text, pos, "\"");
    StringRestReads(text, pos + 1, "", s, limits);
    assert "" + s == s;
  }

  // ----- Numbers -----

  /** Nothing that would carry a number on. */
  predicate NumberEnds(text: string, pos: nat) {
    pos >= |text| || (!IsDigit(text[pos]) && !StartsFraction(text, pos))
  }

  lemma {:induction false} DigitsEndReads(text: string, pos: nat, s: string)
    requires Shows(text, pos, s) && Digits(s)
    requires pos + |s| >= |text| || !IsDigit(text[pos + |s|])
    ensures DigitsEnd(text, pos) == pos + |s|
    decreases |s|
  {
    if s != "" {
      ShowsFirst(text, pos, s);
      assert s == [s[0]] + s[1..];
      ShowsParts(text, pos, [s[0]], s[1..]);
      DigitsEndReads(text, pos + 1, s[1..]);
    }
  }

  lemma IntegerPartReads(text: string, pos: nat, n: nat)
    requires Shows(text, pos, Print(n)) && NumberEnds(text, pos + |Print(n)|)
    ensures IntegerPart(text, pos) == Got(Print(n), pos + |Print(n)|)
  {
    var s := Print(n);
    ShowsFirst(text, pos, s);
    ValueOfPrint(n);
    DigitsEndReads(text, pos, s);
    if s[0] == '0' {
      assert |s| == 1;
    }
  }

  lemma NaturalReads(text: string, pos: nat, n: nat)
    requires Shows(text, pos, Print(n)) && NumberEnds(text, pos + |Print(n)|)
    requires n <= MAX_U64
    ensures NumberAt(text, pos) == Got(UInt(n), pos + |Print(n)|)
    ensures IsDigit(text[pos])
  {
    hide Print;
    ShowsFirst(text, pos, Print(n));
    IntegerPartReads(text, pos, n);
    ValueOfPrint(n);
  }

  /** A negative number reads back unless its magnitude does not fit the signed type. */
  lemma NegativeReads(text: string, pos: nat, n: int)
    requires MIN_I64 <= n < 0
    requires Shows(text, pos, PrintInt(n)) && NumberEnds(text, pos + |PrintInt(n)|)
    ensures NumberAt(text, pos) == if n == MIN_I64 then Fail(InvalidJson) else Got(Int(n), pos + |PrintInt(n)|)
    ensures text[pos] == '-'
  {
    hide Print;
    ShowsParts(text, pos, "-", Print(-n));
    ShowsFirst(text, pos, "-");
    IntegerPartReads(text, pos + 1, -n);
    ValueOfPrint(-n);
  }

  // ----- Values -----

  /** What comes back: non-negative Ints are read as UInts. */
  function Readback(v: Json): Json
    decreases v
  {
    match v
    case Int(n) => if n >= 0 then UInt(n) else v
    case Arr(items) => Arr(seq(|items|, i requires 0 <= i < |items| => Readback(items[i])))
    case Obj(keys, values) => Obj(keys, seq(|values|, i requires 0 <= i < |values| => Readback(values[i])))
    case _ => v
  }

  /** Somewhere in it is the one integer that prints but does not parse. */
  ghost predicate HoldsMinInt(v: Json) {
    match v
    case Int(n) => n == MIN_I64
    case Arr(items) => exists i :: 0 <= i < |items| && HoldsMinInt(items[i])
    case Obj(_, values) => exists i :: 0 <= i < |values| && HoldsMinInt(values[i])
    case _ => false
  }

  /** Strings, sizes and nesting are within the limits, starting at a depth. */
  ghost predicate Within(v: Json, depth: nat, limits: Limits) {
    && depth <= limits.maxDepth
    && match v
       case Str(s) => |s| <= limits.maxString
       case Arr(items) => |items| <= limits.maxElements && forall i :: 0 <= i < |items| ==> Within(items[i], depth + 1, limits)
       case Obj(keys, values) =>
         && |keys| <= limits.maxElements && (forall i :: 0 <= i < |keys| ==> |keys[i]| <= limits.maxString)
         && forall i :: 0 <= i < |values| ==> Within(values[i], depth + 1, limits)
       case _ => true
  }

  ghost predicate Good(v: Json, depth: nat, limits: Limits) {
    WellFormed(v) && Within(v, depth, limits)
  }

  /** The reader's answer for a value whose text ends at `end`. */
  ghost predicate ReadsAs(r: Parsed<Json>, v: Json, end: nat) {
    if HoldsMinInt(v) then r == Fail(InvalidJson) else r == Got(Readback(v), end)
  }

  lemma NumbersRead(text: string, pos: nat, v: Json, depth: nat, limits: Limits)
    requires v.Int? || v.UInt?
    requires Good(v, depth, limits) && Shows(text, pos, Dump(v)) && NumberEnds(text, pos + |Dump(v)|)
    ensures ReadsAs(ValueAt(text, pos, depth, limits), v, pos + |Dump(v)|)
  {
    hide NumberAt, Print;
    match v
    case UInt(n) => NaturalReads(text, pos, n);
    case Int(n) =>
      if n >= 0 {
        NaturalReads(text, pos, n);
      } else {
        NegativeReads(text, pos, n);
      }
    case _ =>
  }

  lemma WordsRead(text: string, pos: nat, v: Json, depth: nat, limits: Limits)
    requires v.Null? || v.Bool?
    requires Good(v, depth, limits) && Shows(text, pos, Dump(v))
    ensures ReadsAs(ValueAt(text, pos, depth, limits), v, pos + |Dump(v)|)
  {
    ShowsFirst(text, pos, Dump(v));
  }

  lemma StringsRead(text: string, pos: nat, v: Json, depth: nat, limits: Limits)
    requires v.Str?
    requires Good(v, depth, limits) && Shows(text, pos, Dump(v))
    ensures ReadsAs(ValueAt(text, pos, depth, limits), v, pos + |Dump(v)|)
  {
    hide StringAt, Escaped;
    ShowsFirst(text, pos, Dump(v));
    StringReads(text, pos, v.text, limits);
  }

  // ----- Arrays and objects -----

  /** Whatever follows an element of the compact text is no space and ends a number. */
  predicate Delimited(text: string, pos: nat) {
    pos < |text| && (text[pos] == ',' || text[pos] == ']' || text[pos] == '}')
  }

  lemma DelimitedEndsNumbers(text: string, pos: nat)
    requires Delimited(text, pos)
    ensures NumberEnds(text, pos) && SkipSpace(text, pos) == pos
  {
  }

  /** No value's text begins with a space or a closing bracket. */
  lemma TextBegins(v: Json)
    ensures Dump(v) != "" && !IsSpace(Dump(v)[0]) && Dump(v)[0] != ']' && Dump(v)[0] != '}'
  {
    hide ItemsFrom, MembersFrom, Escaped;
    match v
    case UInt(n) => assert IsDigit(Print(n)[0]);
    case Int(n) => assert n >= 0 ==> IsDigit(Print(n)[0]);
    case _ =>
  }

  lemma NoSpace(text: string, pos: nat, s: string)
    requires Shows(text, pos, s) && s != "" && !IsSpace(s[0])
    ensures SkipSpace(text, pos) == pos
  {
    ShowsFirst(text, pos, s);
  }

  function ReadbackUpTo(items: seq<Json>, n: nat): (r: seq<Json>)
    requires n <= |items|
    ensures |r| == n
  {
    seq(n, i requires 0 <= i < n => Readback(items[i]))
  }

  lemma ReadbackOneMore(items: seq<Json>, n: nat)
    requires n < |items|
    ensures ReadbackUpTo(items, n + 1) == ReadbackUpTo(items, n) + [Readback(items[n])]
  {
  }

  /** The unread integer, if any, is among the elements not yet read. */
  ghost predicate HoldsMinFrom(items: seq<Json>, n: nat)
    requires n <= |items|
  {
    exists i :: n <= i < |items| && HoldsMinInt(items[i])
  }

  lemma CommaOrClose(v: Json, i: nat, close: string)
    requires v.Arr? && i <= |v.items| && |close| == 1
    requires i > 0
    ensures (ItemsFrom(v, i) + close)[0] == if i == |v.items| then close[0] else ','
  {
    if i < |v.items| {
      assert Comma(i)[0] == ',';
    }
  }

  lemma ItemsAtStep(text: string, pos: nat, depth: nat, items: seq<Json>, limits: Limits)
    requires pos <= |text| && SkipSpace(text, pos) == pos && |items| < limits.maxElements
    ensures var v, r := ValueAt(text, pos, depth + 1, limits), ItemsAt(text, pos, depth, items, limits);
      if v.Fail? then r == Fail(v.error)
      else
        && (v.next < |text| && SkipSpace(text, v.next) == v.next && text[v.next] == ']' ==>
              r == Got(Arr(items + [v.value]), v.next + 1))
        && (v.next < |text| && SkipSpace(text, v.next) == v.next && text[v.next] == ',' ==>
              r == ItemsAt(text, v.next + 1, depth, items + [v.value], limits))
  {
    hide ValueAt, SkipSpace;
  }

  /** The loop over the elements, from the i-th on. */
  lemma {:induction false} ItemsRead(text: string, pos: nat, v: Json, i: nat, depth: nat, limits: Limits)
    requires v.Arr? && i < |v.items|
    requires Good(v, depth, limits)
    requires Shows(text, pos, Dump(v.items[i]) + ItemsFrom(v, i + 1) + "]")
    ensures var r := ItemsAt(text, pos, depth, ReadbackUpTo(v.items, i), limits);
      if HoldsMinFrom(v.items, i) then r == Fail(InvalidJson)
      else r == Got(Arr(ReadbackUpTo(v.items, |v.items|)), pos + |Dump(v.items[i]) + ItemsFrom(v, i + 1)| + 1)
    decreases v, |v.items| - i
  {
    hide Dump, ItemsFrom, Readback, HoldsMinInt, ItemsAt, ValueAt, Shows, SkipSpace;
    var item, rest := v.items[i], ItemsFrom(v, i + 1) + "]";
    assert Dump(item) + ItemsFrom(v, i + 1) + "]" == Dump(item) + rest;
    ShowsParts(text, pos, Dump(item), rest);
    TextBegins(item);
    NoSpace(text, pos, Dump(item));
    var end := pos + |Dump(item)|;
    ShowsInside(text, end, rest);
    ItemsAtStep(text, pos, depth, ReadbackUpTo(v.items, i), limits);
    CommaOrClose(v, i + 1, "]");
    ShowsFirst(text, end, rest);
    DelimitedEndsNumbers(text, end);
    ValueReads(text, pos, item, depth + 1, limits);
    ReadbackOneMore(v.items, i);
    if HoldsMinInt(item) {
      assert HoldsMinFrom(v.items, i);
    } else {
      assert HoldsMinFrom(v.items, i) <==> HoldsMinFrom(v.items, i + 1);
      if i + 1 < |v.items| {
        NextItem(v, i + 1);
        var tail := Dump(v.items[i + 1]) + ItemsFrom(v, i + 2) + "]";
        assert rest == "," + tail;
        ShowsParts(text, end, ",", tail);
        ItemsRead(text, end + 1, v, i + 1, depth, limits);
      } else {
        NoItems(v);
        assert rest == "]";
      }
    }
  }

  lemma NextItem(v: Json, i: nat)
    requires v.Arr? && 0 < i < |v.items|
    ensures ItemsFrom(v, i) == "," + Dump(v.items[i]) + ItemsFrom(v, i + 1)
  {
  }

  lemma NoItems(v: Json)
    requires v.Arr?
    ensures ItemsFrom(v, |v.items|) == ""
  {
  }

  lemma ArraysRead(text: string, pos: nat, v: Json, depth: nat, limits: Limits)
    requires v.Arr?
    requires Good(v, depth, limits) && Shows(text, pos, Dump(v))
    ensures ReadsAs(ValueAt(text, pos, depth, limits), v, pos + |Dump(v)|)
    decreases v, |v.items| + 1
  {
    hide ItemsAt, MembersAt, ItemsFrom, Readback, HoldsMinInt;
    var inner := ItemsFrom(v, 0) + "]";
    DumpOfArray(v);
    ShowsParts(text, pos, "[", inner);
    ShowsFirst(text, pos, "[");
    ShowsFirst(text, pos + 1, inner);
    ReadbackOfArray(v);
    if v.items == [] {
      NoItems(v);
      assert SkipSpace(text, pos + 1) == pos + 1;
    } else {
      FirstItem(v);
      var item := v.items[0];
      TextBegins(item);
      assert inner == Dump(item) + ItemsFrom(v, 1) + "]";
      assert inner[0] == Dump(item)[0];
      NoSpace(text, pos + 1, inner);
      ItemsRead(text, pos + 1, v, 0, depth, limits);
    }
  }

  lemma DumpOfArray(v: Json)
    requires v.Arr?
    ensures Dump(v) == "[" + (ItemsFrom(v, 0) + "]")
  {
  }

  lemma FirstItem(v: Json)
    requires v.Arr? && v.items != []
    ensures ItemsFrom(v, 0) == Dump(v.items[0]) + ItemsFrom(v, 1)
  {
  }

  lemma ReadbackOfArray(v: Json)
    requires v.Arr?
    ensures Readback(v) == Arr(ReadbackUpTo(v.items, |v.items|)) && ReadbackUpTo(v.items, 0) == []
    ensures HoldsMinInt(v) <==> HoldsMinFrom(v.items, 0)
  {
  }

  // ----- Objects -----

  lemma {:induction false} AboveAllKeys(keys: seq<string>, key: string)
    requires forall i :: 0 <= i < |keys| ==> CompareText(keys[i], key) == Less
    ensures LowerBound(keys, key) == |keys|
  {
    if keys != [] {
      AboveAllKeys(keys[1..], key);
    }
  }

  /** A key above all others goes to the end. */
  lemma SetAppends(keys: seq<string>, values: seq<Json>, n: nat, value: Json)
    requires KeysRise(keys) && n < |keys| && |values| == n
    ensures !HasKey(keys[..n], keys[n])
    ensures SetMember(keys[..n], values, keys[n], value) == (keys[..n + 1], values + [value])
  {
    AboveAllKeys(keys[..n], keys[n]);
    assert keys[..n][..n] + [keys[n]] + keys[..n][n..] == keys[..n + 1];
    assert values[..n] + [value] + values[n..] == values + [value];
  }

  function MemberText(v: Json, i: nat): string
    requires v.Obj? && i < |v.keys| && i < |v.values|
  {
    Quoted(v.keys[i]) + ":" + Dump(v.values[i])
  }

  lemma NextMember(v: Json, i: nat)
    requires v.Obj? && 0 < i < |v.keys| == |v.values|
    ensures MembersFrom(v, i) == "," + (MemberText(v, i) + MembersFrom(v, i + 1))
  {
  }

  lemma FirstMember(v: Json)
    requires v.Obj? && v.keys != [] && |v.keys| == |v.values|
    ensures MembersFrom(v, 0) == MemberText(v, 0) + MembersFrom(v, 1)
  {
  }

  lemma NoMembers(v: Json)
    requires v.Obj? && |v.keys| == |v.values|
    ensures MembersFrom(v, |v.keys|) == ""
  {
  }

  lemma AfterMember(v: Json, i: nat)
    requires v.Obj? && 0 < i <= |v.keys| == |v.values|
    ensures (MembersFrom(v, i) + "}")[0] == if i == |v.keys| then '}' else ','
  {
    if i < |v.keys| {
      NextMember(v, i);
    } else {
      NoMembers(v);
    }
  }

  lemma MemberFromParts(text: string, pos: nat, key: string, p: nat, depth: nat, limits: Limits)
    requires pos <= |text| && SkipSpace(text, pos) == pos && StringAt(text, pos, limits) == Got(key, p)
    requires p < |text| && text[p] == ':' && SkipSpace(text, p + 1) == p + 1
    ensures var v := ValueAt(text, p + 1, depth + 1, limits);
      MemberAt(text, pos, depth, limits) == if v.Fail? then Fail(v.error) else Got((key, v.value), v.next)
  {
    hide StringAt, ValueAt;
    assert SkipSpace(text, p) == p;
  }

  /** One member: its key, the colon and its value. */
  lemma MemberReads(text: string, pos: nat, v: Json, i: nat, depth: nat, limits: Limits)
    requires v.Obj? && i < |v.keys| == |v.values|
    requires Good(v, depth, limits)
    requires Shows(text, pos, MemberText(v, i)) && NumberEnds(text, pos + |MemberText(v, i)|)
    ensures var r := MemberAt(text, pos, depth, limits);
      if HoldsMinInt(v.values[i]) then r == Fail(InvalidJson)
      else r == Got((v.keys[i], Readback(v.values[i])), pos + |MemberText(v, i)|)
    decreases v, 0
  {
    hide Dump, Readback, HoldsMinInt, StringAt, ValueAt, Escaped, MemberAt, SkipSpace;
    var key, value := v.keys[i], v.values[i];
    assert MemberText(v, i) == Quoted(key) + (":" + Dump(value));
    ShowsParts(text, pos, Quoted(key), ":" + Dump(value));
    NoSpace(text, pos, Quoted(key));
    StringReads(text, pos, key, limits);
    var p := pos + |Quoted(key)|;
    ShowsParts(text, p, ":", Dump(value));
    ShowsFirst(text, p, ":");
    TextBegins(value);
    NoSpace(text, p + 1, Dump(value));
    ValueReads(text, p + 1, value, depth + 1, limits);
    MemberFromParts(text, pos, key, p, depth, limits);
  }

  lemma MembersAtStep(text: string, pos: nat, depth: nat, keys: seq<string>, values: seq<Json>, limits: Limits)
    requires pos <= |text| && |keys| == |values| < limits.maxElements
    ensures var m, r := MemberAt(text, pos, depth, limits), MembersAt(text, pos, depth, keys, values, limits);
      if m.Fail? then r == Fail(m.error)
      else
        var (ks, vs) := SetMember(keys, values, m.value.0, m.value.1);
        !HasKey(keys, m.value.0) && |ks| <= limits.maxElements
        && m.next < |text| && SkipSpace(text, m.next) == m.next ==>
          && (text[m.next] == '}' ==> r == Got(Obj(ks, vs), m.next + 1))
          && (text[m.next] == ',' ==> r == MembersAt(text, m.next + 1, depth, ks, vs, limits))
  {
    hide MemberAt, SkipSpace, HasKey, SetMember;
  }

  lemma {:induction false} MembersRead(text: string, pos: nat, v: Json, i: nat, depth: nat, limits: Limits)
    requires v.Obj? && i < |v.keys| == |v.values|
    requires Good(v, depth, limits)
    requires Shows(text, pos, MemberText(v, i) + (MembersFrom(v, i + 1) + "}"))
    ensures var r := MembersAt(text, pos, depth, v.keys[..i], ReadbackUpTo(v.values, i), limits);
      if HoldsMinFrom(v.values, i) then r == Fail(InvalidJson)
      else r == Got(Obj(v.keys, ReadbackUpTo(v.values, |v.values|)), pos + |MemberText(v, i) + MembersFrom(v, i + 1)| + 1)
    decreases v, |v.keys| - i + 1
  {
    hide Dump, MembersFrom, Readback, HoldsMinInt, MemberAt, MembersAt, MemberText, SetMember, HasKey, Shows, SkipSpace;
    var member, rest := MemberText(v, i), MembersFrom(v, i + 1) + "}";
    ShowsParts(text, pos, member, rest);
    var end := pos + |member|;
    ShowsInside(text, end, rest);
    MembersAtStep(text, pos, depth, v.keys[..i], ReadbackUpTo(v.values, i), limits);
    AfterMember(v, i + 1);
    ShowsFirst(text, end, rest);
    DelimitedEndsNumbers(text, end);
    MemberReads(text, pos, v, i, depth, limits);
    ReadbackOneMore(v.values, i);
    SetAppends(v.keys, ReadbackUpTo(v.values, i), i, Readback(v.values[i]));
    if HoldsMinInt(v.values[i]) {
      assert HoldsMinFrom(v.values, i);
    } else {
      assert HoldsMinFrom(v.values, i) <==> HoldsMinFrom(v.values, i + 1);
      if i + 1 < |v.keys| {
        NextMember(v, i + 1);
        var tail := MemberText(v, i + 1) + (MembersFrom(v, i + 2) + "}");
        assert rest == "," + tail;
        ShowsParts(text, end, ",", tail);
        MembersRead(text, end + 1, v, i + 1, depth, limits);
      } else {
        NoMembers(v);
        assert rest == "}";
        assert v.keys[..i + 1] == v.keys;
      }
    }
  }

  lemma DumpOfObject(v: Json)
    requires v.Obj?
    ensures Dump(v) == "{" + (MembersFrom(v, 0) + "}")
  {
  }

  lemma ReadbackOfObject(v: Json)
    requires v.Obj?
    ensures Readback(v) == Obj(v.keys, ReadbackUpTo(v.values, |v.values|)) && ReadbackUpTo(v.values, 0) == []
    ensures HoldsMinInt(v) <==> HoldsMinFrom(v.values, 0)
  {
  }

  lemma ObjectsRead(text: string, pos: nat, v: Json, depth: nat, limits: Limits)
    requires v.Obj?
    requires Good(v, depth, limits) && Shows(text, pos, Dump(v))
    ensures ReadsAs(ValueAt(text, pos, depth, limits), v, pos + |Dump(v)|)
    decreases v, |v.keys| + 2
  {
    hide ItemsAt, MembersAt, MembersFrom, Readback, HoldsMinInt, Escaped;
    var inner := MembersFrom(v, 0) + "}";
    DumpOfObject(v);
    ShowsParts(text, pos, "{", inner);
    ShowsFirst(text, pos, "{");
    ShowsFirst(text, pos + 1, inner);
    ReadbackOfObject(v);
    if v.keys == [] {
      NoMembers(v);
      assert SkipSpace(text, pos + 1) == pos + 1;
    } else {
      FirstMember(v);
      assert inner == MemberText(v, 0) + (MembersFrom(v, 1) + "}");
      assert inner[0] == '"';
      NoSpace(text, pos + 1, inner);
      MembersRead(text, pos + 1, v, 0, depth, limits);
      assert v.keys[..0] == [];
    }
  }

  /** Wherever its text stands in a larger text, a value within the limits is read back, unless it holds
      the least 64-bit integer. */
  lemma ValueReads(text: string, pos: nat, v: Json, depth: nat, limits: Limits)
    requires Good(v, depth, limits) && Shows(text, pos, Dump(v)) && NumberEnds(text, pos + |Dump(v)|)
    ensures ReadsAs(ValueAt(text, pos, depth, limits), v, pos + |Dump(v)|)
    decreases v
  {
    match v
    case Null => WordsRead(text, pos, v, depth, limits);
    case Bool(_) => WordsRead(text, pos, v, depth, limits);
    case Int(_) => NumbersRead(text, pos, v, depth, limits);
    case UInt(_) => NumbersRead(text, pos, v, depth, limits);
    case Str(_) => StringsRead(text, pos, v, depth, limits);
    case Arr(_) => ArraysRead(text, pos, v, depth, limits);
    case Obj(_, _) => ObjectsRead(text, pos, v, depth, limits);
  }

  // ----- Whole texts -----

  lemma ReadbackKeepsText(v: Json)
    requires WellFormed(v) && !HoldsMinInt(v)
    ensures Dump(Readback(v)) == Dump(v)
    decreases v
  {
    match v
    case Arr(items) =>
      forall i | 0 <= i < |items| ensures Dump(Readback(items[i])) == Dump(items[i]) {
        ReadbackKeepsText(items[i]);
      }
      ReadbackKeepsItems(v, 0);
    case Obj(keys, values) =>
      forall i | 0 <= i < |values| ensures Dump(Readback(values[i])) == Dump(values[i]) {
        ReadbackKeepsText(values[i]);
      }
      ReadbackKeepsMembers(v, 0);
    case _ =>
  }

  lemma {:induction false} ReadbackKeepsItems(v: Json, i: nat)
    requires v.Arr? && i <= |v.items|
    requires forall k :: 0 <= k < |v.items| ==> Dump(Readback(v.items[k])) == Dump(v.items[k])
    ensures ItemsFrom(Readback(v), i) == ItemsFrom(v, i)
    decreases |v.items| - i
  {
    if i < |v.items| {
      ReadbackKeepsItems(v, i + 1);
    }
  }

  lemma {:induction false} ReadbackKeepsMembers(v: Json, i: nat)
    requires v.Obj? && i <= |v.keys| == |v.values|
    requires forall k :: 0 <= k < |v.values| ==> Dump(Readback(v.values[k])) == Dump(v.values[k])
    ensures MembersFrom(Readback(v), i) == MembersFrom(v, i)
    decreases |v.keys| - i
  {
    if i < |v.keys| {
      ReadbackKeepsMembers(v, i + 1);
    }
  }

  /** The compact text of a value within the limits parses exactly when the value does not hold the least
      64-bit integer; then the value comes back, up to non-negative Ints, and has the same text. */
  lemma RoundTrip(v: Json, limits: Limits)
    requires Good(v, 0, limits) && |Dump(v)| <= limits.maxBytes
    ensures Parse(Dump(v), limits) == if HoldsMinInt(v) then Err(InvalidJson) else Ok(Readback(v))
    ensures !HoldsMinInt(v) ==> Dump(Readback(v)) == Dump(v)
  {
    hide Dump, Readback, HoldsMinInt, ValueAt, WellFormed, Within;
    var text := Dump(v);
    assert text[0..|text|] == text;
    TextBegins(v);
    NoSpace(text, 0, text);
    ValueReads(text, 0, v, 0, limits);
    if !HoldsMinInt(v) {
      ReadbackKeepsText(v);
    }
  }

  lemma MinIntDoesNotParse(limits: Limits)
    ensures Parse(Dump(Int(MIN_I64)), limits).Err?
  {
    hide Print;
    if |Dump(Int(MIN_I64))| <= limits.maxBytes {
      RoundTrip(Int(MIN_I64), limits);
    }
  }
}
