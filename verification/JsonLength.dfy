/** The compact text of a parsed value is never longer than the text it was parsed from (src/json.cpp). */
module JsonLength {
  import opened SemVer
  import opened Decimal
  import opened Json

  // ----- Strings -----

  lemma {:induction false} EscapedAppends(a: string, b: string)
    ensures Escaped(a + b) == Escaped(a) + Escaped(b)
  {
    if a == "" {
      assert a + b == b;
    } else {
      assert (a + b)[1..] == a[1..] + b;
      hide EscapedChar;
      EscapedAppends(a[1..], b);
    }
  }

  lemma EscapedOfOne(c: char)
    ensures Escaped([c]) == EscapedChar(c)
  {
    assert [c][1..] == "" && Escaped("") == "";
  }

  lemma PlainBytes(s: string)
    requires forall i :: 0 <= i < |s| ==> s[i] as int >= 0x80
    ensures |Escaped(s)| == |s|
  {
    if s != "" { PlainBytes(s[1..]); }
  }

  lemma Utf8Length(codePoint: nat)
    requires codePoint < 0x11_0000
    ensures codePoint <= 0x7F ==> |Escaped(Utf8(codePoint))| <= 6
    ensures codePoint > 0x7F ==> |Escaped(Utf8(codePoint))| <= 4
  {
    if codePoint <= 0x7F {
      EscapedOfOne(Byte(codePoint));
    } else {
      PlainBytes(Utf8(codePoint));
      hide Escaped;
    }
  }

  lemma UnicodeLength(text: string, pos: nat)
    requires pos <= |text| && UnicodeEscape(text, pos).Got?
    ensures |Escaped(UnicodeEscape(text, pos).value)| <= UnicodeEscape(text, pos).next - pos + 2
  {
    hide Utf8, Escaped, Hex4;
    var high := Hex4(text, pos);
    if 0xD800 <= high.value <= 0xDBFF {
      var low := Hex4(text, high.next + 2);
      Utf8Length(0x10000 + (high.value - 0xD800) * 1024 + (low.value - 0xDC00));
    } else {
      Utf8Length(high.value);
    }
  }

  /** One piece never grows: a raw control byte is refused, and an escape shrinks or stays. */
  lemma PieceLength(text: string, pos: nat)
    requires pos < |text| && text[pos] != '"' && StringPiece(text, pos).Got?
    ensures |Escaped(StringPiece(text, pos).value)| <= StringPiece(text, pos).next - pos
  {
    var piece := StringPiece(text, pos);
    if text[pos] == '\\' && text[pos + 1] == 'u' {
      UnicodeLength(text, pos + 2);
      hide Escaped, UnicodeEscape;
    } else {
      hide UnicodeEscape;
      assert |piece.value| == 1;
      EscapedOfOne(piece.value[0]);
      assert piece.value == [piece.value[0]];
      hide Escaped;
    }
  }

  lemma {:induction false} RestLength(text: string, pos: nat, out: string, limits: Limits)
    requires pos <= |text| && StringRest(text, pos, out, limits).Got?
    ensures var r := StringRest(text, pos, out, limits); |Escaped(r.value)| <= |Escaped(out)| + r.next - 1 - pos
    decreases |text| - pos
  {
    if text[pos] != '"' {
      PieceLength(text, pos);
      hide StringPiece, Escaped;
      var piece := StringPiece(text, pos);
      EscapedAppends(out, piece.value);
      RestLength(text, piece.next, out + piece.value, limits);
    }
  }

  lemma StringLength(text: string, pos: nat, limits: Limits)
    requires pos <= |text| && StringAt(text, pos, limits).Got?
    ensures |Quoted(StringAt(text, pos, limits).value)| <= StringAt(text, pos, limits).next - pos
  {
    RestLength(text, pos + 1, "", limits);
    hide StringRest;
  }

  // ----- Numbers -----

  lemma IntegerHasNoLeadingZero(text: string, pos: nat)
    requires pos <= |text| && IntegerPart(text, pos).Got?
    ensures NoLeadingZero(IntegerPart(text, pos).value)
  {
  }

  lemma NumberLength(text: string, pos: nat)
    requires pos <= |text| && NumberAt(text, pos).Got?
    ensures |Dump(NumberAt(text, pos).value)| <= NumberAt(text, pos).next - pos
  {
    var start := if text[pos] == '-' then pos + 1 else pos;
    IntegerHasNoLeadingZero(text, start);
    PrintOfValue(IntegerPart(text, start).value);
    hide IntegerPart, NumericValue, Print;
  }

  // ----- Lists -----

  /** The total, each piece with one separator. */
  function Width(sizes: seq<nat>): nat {
    if sizes == [] then 0 else sizes[0] + 1 + Width(sizes[1..])
  }

  lemma {:induction false} WidthAppends(a: seq<nat>, b: seq<nat>)
    ensures Width(a + b) == Width(a) + Width(b)
  {
    if a == [] {
      assert a + b == b;
    } else {
      assert (a + b)[1..] == a[1..] + b;
      WidthAppends(a[1..], b);
    }
  }

  lemma WidthOfOne(n: nat)
    ensures Width([n]) == n + 1
  {
    assert [n][1..] == [];
  }

  lemma WidthInserts(a: seq<nat>, k: nat, n: nat)
    requires k <= |a|
    ensures Width(a[..k] + [n] + a[k..]) == Width(a) + n + 1
  {
    hide Width;
    WidthAppends(a[..k] + [n], a[k..]);
    WidthAppends(a[..k], [n]);
    WidthOfOne(n);
    WidthAppends(a[..k], a[k..]);
    assert a[..k] + a[k..] == a;
  }

  function ItemSizes(items: seq<Json>): seq<nat> {
    seq(|items|, i requires 0 <= i < |items| => |Dump(items[i])|)
  }

  function MemberSizes(keys: seq<string>, values: seq<Json>): seq<nat>
    requires |keys| == |values|
  {
    seq(|keys|, i requires 0 <= i < |keys| => |Quoted(keys[i])| + 1 + |Dump(values[i])|)
  }

  lemma {:induction false} ItemsWidth(v: Json, i: nat)
    requires v.Arr? && i <= |v.items|
    ensures |ItemsFrom(v, i)| == Width(ItemSizes(v.items)[i..]) - if i == 0 < |v.items| then 1 else 0
    decreases |v.items| - i
  {
    if i < |v.items| {
      hide Dump;
      ItemsWidth(v, i + 1);
      assert ItemSizes(v.items)[i..][1..] == ItemSizes(v.items)[i + 1..];
    }
  }

  lemma {:induction false} MembersWidth(v: Json, i: nat)
    requires v.Obj? && |v.keys| == |v.values| && i <= |v.keys|
    ensures |MembersFrom(v, i)| == Width(MemberSizes(v.keys, v.values)[i..]) - if i == 0 < |v.keys| then 1 else 0
    decreases |v.keys| - i
  {
    if i < |v.keys| {
      hide Dump, Quoted;
      MembersWidth(v, i + 1);
      assert MemberSizes(v.keys, v.values)[i..][1..] == MemberSizes(v.keys, v.values)[i + 1..];
    }
  }

  lemma ArrayLength(items: seq<Json>)
    requires items != []
    ensures |Dump(Arr(items))| == 1 + Width(ItemSizes(items))
  {
    hide ItemsFrom, Width;
    ItemsWidth(Arr(items), 0);
    assert ItemSizes(items)[0..] == ItemSizes(items);
  }

  lemma ObjectLength(keys: seq<string>, values: seq<Json>)
    requires |keys| == |values| && keys != []
    ensures |Dump(Obj(keys, values))| == 1 + Width(MemberSizes(keys, values))
  {
    hide MembersFrom, Width;
    MembersWidth(Obj(keys, values), 0);
    assert MemberSizes(keys, values)[0..] == MemberSizes(keys, values);
  }

  lemma OneMoreItem(items: seq<Json>, v: Json)
    ensures Width(ItemSizes(items + [v])) == Width(ItemSizes(items)) + |Dump(v)| + 1
  {
    hide Dump, Width;
    WidthAppends(ItemSizes(items), [|Dump(v)|]);
    WidthOfOne(|Dump(v)|);
    assert ItemSizes(items + [v]) == ItemSizes(items) + [|Dump(v)|];
  }

  lemma OneMoreMember(keys: seq<string>, values: seq<Json>, key: string, value: Json)
    requires |keys| == |values| && !HasKey(keys, key)
    ensures var (ks, vs) := SetMember(keys, values, key, value);
      ks != [] && Width(MemberSizes(ks, vs)) == Width(MemberSizes(keys, values)) + |Quoted(key)| + |Dump(value)| + 2
  {
    hide Dump, Quoted, Width, LowerBound;
    var k, size := LowerBound(keys, key), |Quoted(key)| + 1 + |Dump(value)|;
    var (ks, vs) := SetMember(keys, values, key, value);
    WidthInserts(MemberSizes(keys, values), k, size);
    assert MemberSizes(ks, vs) == MemberSizes(keys, values)[..k] + [size] + MemberSizes(keys, values)[k..];
  }

  // ----- Values -----

  lemma {:induction false} ValueLength(text: string, pos: nat, depth: nat, limits: Limits)
    requires pos <= |text| && ValueAt(text, pos, depth, limits).Got?
    ensures |Dump(ValueAt(text, pos, depth, limits).value)| <= ValueAt(text, pos, depth, limits).next - pos
    decreases |text| - pos, 0
  {
    hide ItemsAt, MembersAt, StringAt, NumberAt, SkipSpace, Quoted, Width;
    var c, start := text[pos], SkipSpace(text, pos + 1);
    if c == '{' {
      if !(start < |text| && text[start] == '}') {
        MembersLength(text, start, depth, [], [], limits);
        assert MemberSizes([], []) == [] && Width([]) == 0 by { NoWidth(); }
      }
    } else if c == '[' {
      if !(start < |text| && text[start] == ']') {
        ItemsLength(text, start, depth, [], limits);
        assert ItemSizes([]) == [] && Width([]) == 0 by { NoWidth(); }
      }
    } else if c == '"' {
      StringLength(text, pos, limits);
    } else if c == '-' || IsDigit(c) {
      NumberLength(text, pos);
    }
  }

  lemma NoWidth()
    ensures Width([]) == 0
  {
  }

  lemma {:induction false} ItemsLength(text: string, pos: nat, depth: nat, items: seq<Json>, limits: Limits)
    requires pos <= |text| && ItemsAt(text, pos, depth, items, limits).Got?
    ensures var r := ItemsAt(text, pos, depth, items, limits); |Dump(r.value)| <= 1 + Width(ItemSizes(items)) + r.next - pos
    decreases |text| - pos, 1
  {
    hide ValueAt, AfterElement, SkipSpace, Dump, Width, ItemSizes;
    var p := SkipSpace(text, pos);
    ValueLength(text, p, depth + 1, limits);
    var v := ValueAt(text, p, depth + 1, limits);
    var longer := items + [v.value];
    OneMoreItem(items, v.value);
    match AfterElement(text, v.next, ']')
    case More(next) => ItemsLength(text, next, depth, longer, limits);
    case Closed(_) => ArrayLength(longer);
    case Broken =>
  }

  lemma {:induction false} MembersLength(text: string, pos: nat, depth: nat, keys: seq<string>, values: seq<Json>, limits: Limits)
    requires pos <= |text| && |keys| == |values| && MembersAt(text, pos, depth, keys, values, limits).Got?
    ensures var r := MembersAt(text, pos, depth, keys, values, limits);
      |Dump(r.value)| <= 1 + Width(MemberSizes(keys, values)) + r.next - pos
    decreases |text| - pos, 2
  {
    hide MemberAt, AfterElement, SkipSpace, Dump, Quoted, Width, MemberSizes, SetMember, HasKey;
    MemberLength(text, pos, depth, limits);
    var m := MemberAt(text, pos, depth, limits);
    OneMoreMember(keys, values, m.value.0, m.value.1);
    var (ks, vs) := SetMember(keys, values, m.value.0, m.value.1);
    match AfterElement(text, m.next, '}')
    case More(next) => MembersLength(text, next, depth, ks, vs, limits);
    case Closed(_) => ObjectLength(ks, vs);
    case Broken =>
  }

  lemma {:induction false} MemberLength(text: string, pos: nat, depth: nat, limits: Limits)
    requires pos <= |text| && MemberAt(text, pos, depth, limits).Got?
    ensures var m := MemberAt(text, pos, depth, limits); |Quoted(m.value.0)| + 1 + |Dump(m.value.1)| <= m.next - pos
    decreases |text| - pos, 1
  {
    hide ValueAt, StringAt, SkipSpace, Dump, Quoted;
    var start := SkipSpace(text, pos);
    StringLength(text, start, limits);
    var key := StringAt(text, start, limits);
    var colon := SkipSpace(text, key.next);
    ValueLength(text, SkipSpace(text, colon + 1), depth + 1, limits);
  }

  /** The compact text of a parsed value is at most as long as the text. */
  lemma DumpIsNotLonger(text: string, limits: Limits)
    requires Parse(text, limits).Ok?
    ensures |Dump(Parse(text, limits).value)| <= |text|
  {
    hide ValueAt, SkipSpace, Dump;
    ValueLength(text, SkipSpace(text, 0), 0, limits);
  }
}
