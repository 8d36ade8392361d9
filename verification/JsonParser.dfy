/** The parser, printer and member list as they run, and what parsing guarantees (src/json.cpp). */
module JsonParser {
  import opened Order
  import opened SemVer
  import opened Decimal
  import opened Json
  import opened JsonRoundTrip
  import JsonLength
  import opened Rules

  // ----- Members of an object -----

  lemma {:induction false} LowerBoundSplits(keys: seq<string>, key: string)
    requires KeysRise(keys)
    ensures var k := LowerBound(keys, key);
      && (forall i :: 0 <= i < k ==> CompareText(keys[i], key) == Less)
      && (forall i :: k <= i < |keys| ==> CompareText(keys[i], key) != Less)
  {
    if keys != [] {
      if CompareText(keys[0], key) == Less {
        LowerBoundSplits(keys[1..], key);
      } else {
        CompareTextIsTotal();
        forall i | 0 < i < |keys| ensures CompareText(keys[i], key) != Less {
          assert Composes(CompareText(keys[0], keys[i]), CompareText(keys[i], key), CompareText(keys[0], key));
        }
      }
    }
  }

  ghost function Contents(keys: seq<string>, values: seq<Json>): map<string, Json>
    requires |keys| == |values|
  {
    if keys == [] then map[]
    else Contents(keys[..|keys| - 1], values[..|values| - 1])[keys[|keys| - 1] := values[|values| - 1]]
  }

  ghost predicate Apart(keys: seq<string>) {
    forall i, j :: 0 <= i < j < |keys| ==> keys[i] != keys[j]
  }

  lemma RisingIsApart(keys: seq<string>)
    requires KeysRise(keys)
    ensures Apart(keys)
  {
    CompareTextIsTotal();
  }

  lemma {:induction false} ContentsByIndex(keys: seq<string>, values: seq<Json>)
    requires |keys| == |values| && Apart(keys)
    ensures forall k :: k in Contents(keys, values) <==> k in keys
    ensures forall i :: 0 <= i < |keys| ==> keys[i] in Contents(keys, values) && Contents(keys, values)[keys[i]] == values[i]
  {
    if keys != [] {
      var n := |keys| - 1;
      ContentsByIndex(keys[..n], values[..n]);
      assert keys == keys[..n] + [keys[n]];
      assert forall i :: 0 <= i < n ==> keys[i] == keys[..n][i];
    }
  }

  lemma InsertedRises(keys: seq<string>, key: string, k: nat)
    requires KeysRise(keys) && k <= |keys|
    requires forall i :: 0 <= i < k ==> CompareText(keys[i], key) == Less
    requires forall i :: k <= i < |keys| ==> CompareText(key, keys[i]) == Less
    ensures KeysRise(keys[..k] + [key] + keys[k..])
  {
    hide CompareText;
    var longer := keys[..k] + [key] + keys[k..];
    assert forall i :: 0 <= i < |longer| ==> longer[i] == if i < k then keys[i] else if i == k then key else keys[i - 1];
  }

  /** Inserting keeps the keys sorted and distinct. */
  lemma SetKeepsOrder(keys: seq<string>, values: seq<Json>, key: string, value: Json)
    requires |keys| == |values| && KeysRise(keys)
    ensures KeysRise(SetMember(keys, values, key, value).0)
    ensures forall k :: k in SetMember(keys, values, key, value).0 <==> k in keys || k == key
  {
    var k := LowerBound(keys, key);
    LowerBoundSplits(keys, key);
    CompareTextIsTotal();
    if !(k < |keys| && keys[k] == key) {
      forall i | k <= i < |keys| ensures CompareText(key, keys[i]) == Less {
        if i > k {
          assert Composes(CompareText(key, keys[k]), CompareText(keys[k], keys[i]), CompareText(key, keys[i]));
        }
        assert CompareText(keys[i], key) == Flip(CompareText(key, keys[i]));
      }
      InsertedRises(keys, key, k);
      assert keys == keys[..k] + keys[k..];
    }
  }

  /** Where a member with another key is after the insertion. */
  lemma OthersStay(keys: seq<string>, values: seq<Json>, key: string, value: Json, j: nat) returns (at: nat)
    requires |keys| == |values| && j < |keys| && keys[j] != key
    ensures var (ks, vs) := SetMember(keys, values, key, value);
      at < |ks| && ks[at] == keys[j] && vs[at] == values[j]
  {
    var k := LowerBound(keys, key);
    at := if (k < |keys| && keys[k] == key) || j < k then j else j + 1;
  }

  lemma SetPlaces(keys: seq<string>, values: seq<Json>, key: string, value: Json)
    requires |keys| == |values|
    ensures var (ks, vs) := SetMember(keys, values, key, value);
      LowerBound(keys, key) < |ks| && ks[LowerBound(keys, key)] == key && vs[LowerBound(keys, key)] == value
  {
  }

  lemma SetIsUpdate(keys: seq<string>, values: seq<Json>, key: string, value: Json)
    requires |keys| == |values| && KeysRise(keys)
    ensures var (ks, vs) := SetMember(keys, values, key, value);
      Contents(ks, vs) == Contents(keys, values)[key := value]
  {
    hide SetMember, KeysRise, Contents, LowerBound, CompareText;
    var (ks, vs) := SetMember(keys, values, key, value);
    SetPlaces(keys, values, key, value);
    SetKeepsOrder(keys, values, key, value);
    RisingIsApart(keys);
    RisingIsApart(ks);
    ContentsByIndex(keys, values);
    ContentsByIndex(ks, vs);
    forall x | x in Contents(keys, values) && x != key ensures Contents(ks, vs)[x] == Contents(keys, values)[x] {
      var j :| 0 <= j < |keys| && keys[j] == x;
      var at := OthersStay(keys, values, key, value, j);
    }
    MapUpdated(Contents(keys, values), Contents(ks, vs), key, value);
  }

  lemma MapUpdated<X, Y>(before: map<X, Y>, after: map<X, Y>, key: X, value: Y)
    requires forall x :: x in after <==> x in before || x == key
    requires after[key] == value && forall x :: x in before && x != key ==> after[x] == before[x]
    ensures after == before[key := value]
  {
  }

  lemma FoundAtBound(keys: seq<string>, key: string, i: nat)
    requires KeysRise(keys) && i < |keys| && keys[i] == key
    ensures LowerBound(keys, key) == i
  {
    hide CompareText;
    LowerBoundSplits(keys, key);
    CompareTextIsTotal();
    var k := LowerBound(keys, key);
    assert CompareText(keys[i], key) == Equal;
    assert k <= i;
    assert CompareText(keys[k], key) != Less;
  }

  lemma FindIsLookup(keys: seq<string>, values: seq<Json>, key: string)
    requires |keys| == |values| && KeysRise(keys)
    ensures HasKey(keys, key) <==> key in Contents(keys, values)
    ensures HasKey(keys, key) ==> Contents(keys, values)[key] == values[LowerBound(keys, key)]
  {
    hide CompareText, KeysRise, LowerBound, Contents;
    RisingIsApart(keys);
    ContentsByIndex(keys, values);
    if key in keys {
      var i :| 0 <= i < |keys| && keys[i] == key;
      FoundAtBound(keys, key, i);
    }
  }

  /** Parallel vectors, kept sorted by insertion in place. */
  class MemberList {
    var keys: seq<string>
    var values: seq<Json>

    ghost predicate Valid()
      reads this
    {
      |keys| == |values| && KeysRise(keys)
    }

    constructor ()
      ensures Valid() && keys == [] && values == []
    {
      keys, values := [], [];
    }

    method Find(key: string) returns (found: bool, value: Json)
      requires Valid()
      ensures found == HasKey(keys, key)
      ensures found <==> key in Contents(keys, values)
      ensures found ==> value == Contents(keys, values)[key]
    {
      FindIsLookup(keys, values, key);
      var k := LowerBound(keys, key);
      if k >= |keys| || keys[k] != key { return false, Null; }
      return true, values[k];
    }

    method Set(key: string, value: Json)
      requires Valid()
      modifies this
      ensures Valid()
      ensures (keys, values) == SetMember(old(keys), old(values), key, value)
      ensures Contents(keys, values) == Contents(old(keys), old(values))[key := value]
    {
      SetKeepsOrder(keys, values, key, value);
      SetIsUpdate(keys, values, key, value);
      var k := LowerBound(keys, key);
      if k < |keys| && keys[k] == key {
        values := values[k := value];
        return;
      }
      keys := keys[..k] + [key] + keys[k..];
      values := values[..k] + [value] + values[k..];
    }
  }

  // ----- Printing -----

  lemma Reassociate(a: string, b: string, c: string)
    ensures a + (b + c) == a + b + c
  {
  }

  lemma {:induction false} EscapedOneMore(s: string, c: char)
    ensures Escaped(s + [c]) == Escaped(s) + EscapedChar(c)
  {
    hide EscapedChar;
    if s == "" {
      assert Escaped([c]) == EscapedChar(c) + Escaped("");
    } else {
      EscapedOneMore(s[1..], c);
      assert (s + [c])[1..] == s[1..] + [c];
      Reassociate(EscapedChar(s[0]), Escaped(s[1..]), EscapedChar(c));
    }
  }

  method DumpString(out: string, text: string) returns (longer: string)
    ensures longer == out + Quoted(text)
  {
    hide Escaped, EscapedChar;
    var open := out + "\"";
    longer := open;
    EscapedNothing();
    for i := 0 to |text|
      invariant longer == open + Escaped(text[..i])
    {
      EscapedOneMore(text[..i], text[i]);
      assert text[..i + 1] == text[..i] + [text[i]];
      longer := longer + EscapedChar(text[i]);
      Reassociate(open, Escaped(text[..i]), EscapedChar(text[i]));
    }
    assert text[..|text|] == text;
    longer := longer + "\"";
  }

  /** Appends the compact text of a value. */
  method DumpTo(v: Json, out: string) returns (longer: string)
    requires WellFormed(v)
    ensures longer == out + Dump(v)
    decreases v
  {
    match v {
      case Null => longer := out + "null";
      case Bool(b) => longer := out + if b then "true" else "false";
      case Int(n) => longer := out + PrintInt(n);
      case UInt(n) => longer := out + Print(n);
      case Str(s) => longer := DumpString(out, s);
      case Arr(items) => longer := DumpItems(v, out);
      case Obj(keys, values) => longer := DumpMembers(v, out);
    }
  }

  /** The elements before the i-th. */
  function ItemsTo(v: Json, i: nat): string
    requires v.Arr? && i <= |v.items|
  {
    if i == 0 then "" else ItemsTo(v, i - 1) + (Comma(i - 1) + Dump(v.items[i - 1]))
  }

  lemma {:induction false} ItemsSplit(v: Json, i: nat)
    requires v.Arr? && i <= |v.items|
    ensures ItemsTo(v, i) + ItemsFrom(v, i) == ItemsFrom(v, 0)
  {
    if i > 0 {
      ItemsSplit(v, i - 1);
      hide Dump;
      Reassociate(ItemsTo(v, i - 1), Comma(i - 1) + Dump(v.items[i - 1]), ItemsFrom(v, i));
    }
  }

  method DumpItems(v: Json, out: string) returns (longer: string)
    requires WellFormed(v) && v.Arr?
    ensures longer == out + Dump(v)
    decreases v, 0
  {
    hide ItemsFrom, Dump;
    DumpOfArray(v);
    NoItems(v);
    if v.items == [] { return out + "[]"; }
    var open := out + "[";
    longer := open;
    for i := 0 to |v.items|
      invariant longer == open + ItemsTo(v, i)
    {
      if i != 0 { longer := longer + ","; }
      assert longer == open + ItemsTo(v, i) + Comma(i);
      longer := DumpTo(v.items[i], longer);
      assert longer == open + ItemsTo(v, i) + Comma(i) + Dump(v.items[i]);
      Reassociate(open + ItemsTo(v, i), Comma(i), Dump(v.items[i]));
      Reassociate(open, ItemsTo(v, i), Comma(i) + Dump(v.items[i]));
    }
    ItemsSplit(v, |v.items|);
    assert ItemsTo(v, |v.items|) + "" == ItemsTo(v, |v.items|);
    longer := longer + "]";
    Reassociate(open, ItemsFrom(v, 0), "]");
    Reassociate(out, "[", ItemsFrom(v, 0) + "]");
  }

  function MembersTo(v: Json, i: nat): string
    requires v.Obj? && i <= |v.keys| == |v.values|
  {
    if i == 0 then "" else MembersTo(v, i - 1) + (Comma(i - 1) + MemberText(v, i - 1))
  }

  lemma MembersStep(v: Json, i: nat)
    requires v.Obj? && i < |v.keys| == |v.values|
    ensures MembersFrom(v, i) == Comma(i) + MemberText(v, i) + MembersFrom(v, i + 1)
  {
  }

  lemma {:induction false} MembersSplit(v: Json, i: nat)
    requires v.Obj? && i <= |v.keys| == |v.values|
    ensures MembersTo(v, i) + MembersFrom(v, i) == MembersFrom(v, 0)
  {
    if i > 0 {
      MembersSplit(v, i - 1);
      MembersStep(v, i - 1);
      hide MemberText, MembersFrom;
      Reassociate(MembersTo(v, i - 1), Comma(i - 1) + MemberText(v, i - 1), MembersFrom(v, i));
    }
  }

  method DumpMember(v: Json, i: nat, out: string) returns (longer: string)
    requires WellFormed(v) && v.Obj? && i < |v.keys|
    ensures longer == out + (Comma(i) + MemberText(v, i))
    decreases v, 0
  {
    hide Dump, Quoted;
    longer := out;
    if i != 0 { longer := longer + ","; }
    longer := DumpString(longer, v.keys[i]);
    longer := longer + ":";
    longer := DumpTo(v.values[i], longer);
    assert longer == out + Comma(i) + Quoted(v.keys[i]) + ":" + Dump(v.values[i]);
  }

  method DumpMembers(v: Json, out: string) returns (longer: string)
    requires WellFormed(v) && v.Obj?
    ensures longer == out + Dump(v)
    decreases v, 1
  {
    hide MembersFrom, Dump, MemberText;
    DumpOfObject(v);
    NoMembers(v);
    if v.keys == [] { return out + "{}"; }
    var open := out + "{";
    longer := open;
    for i := 0 to |v.keys|
      invariant longer == open + MembersTo(v, i)
    {
      longer := DumpMember(v, i, longer);
      Reassociate(open, MembersTo(v, i), Comma(i) + MemberText(v, i));
    }
    MembersSplit(v, |v.keys|);
    assert MembersTo(v, |v.keys|) + "" == MembersTo(v, |v.keys|);
    longer := longer + "}";
    Reassociate(open, MembersFrom(v, 0), "}");
    Reassociate(out, "{", MembersFrom(v, 0) + "}");
  }

  // ----- Parsing -----

  /** The value of n hex digits, if they all are. */
  function HexRun(text: string, pos: nat, n: nat): Option<nat>
    requires pos + n <= |text|
  {
    if n == 0 then Some(0)
    else
      var front := HexRun(text, pos, n - 1);
      if front.None? || !IsHex(text[pos + n - 1]) then None else Some(front.value * 16 + HexValue(text[pos + n - 1]))
  }

  lemma HexRunStarts(text: string, pos: nat)
    requires pos <= |text|
    ensures HexRun(text, pos, 0) == Some(0)
  {
  }

  lemma HexRunStep(text: string, pos: nat, n: nat)
    requires pos + n < |text| && HexRun(text, pos, n).Some?
    ensures HexRun(text, pos, n + 1) ==
      if IsHex(text[pos + n]) then Some(HexRun(text, pos, n).value * 16 + HexValue(text[pos + n])) else None
  {
  }

  lemma HexRunIsHex4(text: string, pos: nat)
    requires pos + 4 <= |text|
    ensures HexRun(text, pos, 4) == if Hex4(text, pos).Fail? then None else Some(Hex4(text, pos).value)
  {
    hide HexValue, IsHex;
    assert HexRun(text, pos, 1) == if IsHex(text[pos]) then Some(HexValue(text[pos])) else None;
    assert HexRun(text, pos, 2) ==
      if IsHex(text[pos]) && IsHex(text[pos + 1]) then Some(HexValue(text[pos]) * 16 + HexValue(text[pos + 1])) else None;
  }

  lemma {:induction false} HexRunStops(text: string, pos: nat, n: nat)
    requires pos + 4 <= |text| && n <= 4 && HexRun(text, pos, n).None?
    ensures HexRun(text, pos, 4).None?
    decreases 4 - n
  {
    if n < 4 {
      HexRunStops(text, pos, n + 1);
    }
  }

  class Parser {
    const text: string
    const limits: Limits
    var position: nat

    ghost predicate Valid()
      reads this
    {
      position <= |text|
    }

    constructor (text: string, limits: Limits)
      ensures Valid() && this.text == text && this.limits == limits && position == 0
    {
      this.text, this.limits, position := text, limits, 0;
    }

    /** The position has moved exactly as the specification says. */
    ghost predicate Follows<T>(r: Parsed<T>)
      reads this
    {
      Valid() && (r.Got? ==> position == r.next)
    }

    method SkipWhitespace()
      requires Valid()
      modifies this
      ensures Valid() && position == SkipSpace(text, old(position))
    {
      while position < |text| && IsSpace(text[position])
        invariant Valid() && SkipSpace(text, position) == SkipSpace(text, old(position))
      {
        position := position + 1;
      }
    }

    method ParseHex4() returns (r: Parsed<nat>)
      requires Valid()
      modifies this
      ensures r == Hex4(text, old(position)) && Follows(r)
    {
      if position + 4 > |text| { return Fail(InvalidJson); }
      HexRunIsHex4(text, position);
      hide Hex4, IsHex, HexValue, HexRun;
      HexRunStarts(text, position);
      var value := 0;
      for i := 0 to 4
        invariant position == old(position)
        invariant HexRun(text, position, i) == Some(value)
      {
        HexRunStep(text, position, i);
        if !IsHex(text[position + i]) {
          HexRunStops(text, position, i + 1);
          return Fail(InvalidJson);
        }
        value := value * 16 + HexValue(text[position + i]);
      }
      position := position + 4;
      return Got(value, position);
    }

    method ParseUnicode() returns (r: Parsed<string>)
      requires Valid()
      modifies this
      ensures r == UnicodeEscape(text, old(position)) && Follows(r)
    {
      var high := ParseHex4();
      if high.Fail? { return Fail(high.error); }
      var codePoint := high.value;
      if 0xD800 <= codePoint <= 0xDBFF {
        if position + 1 >= |text| || text[position] != '\\' || text[position + 1] != 'u' { return Fail(InvalidJson); }
        position := position + 2;
        var low := ParseHex4();
        if low.Fail? { return Fail(low.error); }
        if low.value < 0xDC00 || low.value > 0xDFFF { return Fail(InvalidJson); }
        codePoint := 0x10000 + (codePoint - 0xD800) * 1024 + (low.value - 0xDC00);
      } else if 0xDC00 <= codePoint <= 0xDFFF {
        return Fail(InvalidJson);
      }
      return Got(Utf8(codePoint), position);
    }

    method ParsePiece() returns (r: Parsed<string>)
      requires position < |text|
      modifies this
      ensures r == StringPiece(text, old(position)) && Follows(r)
    {
      var c := text[position];
      position := position + 1;
      if c as int < 0x20 { return Fail(InvalidJson); }
      if c != '\\' { return Got([c], position); }
      if position >= |text| { return Fail(InvalidJson); }
      var esc := text[position];
      position := position + 1;
      match esc {
        case '"' => return Got("\"", position);
        case '\\' => return Got("\\", position);
        case '/' => return Got("/", position);
        case 'b' => return Got([Byte(8)], position);
        case 'f' => return Got([Byte(12)], position);
        case 'n' => return Got("\n", position);
        case 'r' => return Got("\r", position);
        case 't' => return Got("\t", position);
        case 'u' => r := ParseUnicode();
        case _ => return Fail(InvalidJson);
      }
    }

    method ParseString() returns (r: Parsed<string>)
      requires Valid()
      modifies this
      ensures r == StringAt(text, old(position), limits) && Follows(r)
    {
      if position >= |text| || text[position] != '"' { return Fail(InvalidJson); }
      position := position + 1;
      var out := "";
      while true
        invariant Valid() && StringRest(text, position, out, limits) == StringAt(text, old(position), limits)
        decreases |text| - position
      {
        hide StringPiece, StringAt;
        if position >= |text| { return Fail(InvalidJson); }
        if text[position] == '"' {
          position := position + 1;
          return Got(out, position);
        }
        var piece := ParsePiece();
        if piece.Fail? { return Fail(piece.error); }
        out := out + piece.value;
        if |out| > limits.maxString { return Fail(LimitExceeded); }
      }
    }

    method SkipDigits()
      requires Valid()
      modifies this
      ensures Valid() && position == DigitsEnd(text, old(position))
    {
      while position < |text| && IsDigit(text[position])
        invariant Valid() && DigitsEnd(text, position) == DigitsEnd(text, old(position))
      {
        position := position + 1;
      }
    }

    method ParseNumber() returns (r: Parsed<Json>)
      requires Valid()
      modifies this
      ensures r == NumberAt(text, old(position)) && Follows(r)
    {
      var negative := position < |text| && text[position] == '-';
      if negative { position := position + 1; }
      var start := position;
      if position >= |text| || !IsDigit(text[position]) { return Fail(InvalidJson); }
      if text[position] == '0' {
        position := position + 1;
        if position < |text| && IsDigit(text[position]) { return Fail(InvalidJson); }
      } else {
        SkipDigits();
      }
      if StartsFraction(text, position) { return Fail(FloatingPoint); }
      var n := NumericValue(text[start..position]);
      if !negative { return if n > MAX_U64 then Fail(InvalidJson) else Got(UInt(n), position); }
      return if n > MAX_I64 then Fail(InvalidJson) else Got(Int(0 - n), position);
    }

    method ParseLiteral(word: string, value: Json) returns (r: Parsed<Json>)
      requires Valid() && word != ""
      modifies this
      ensures r == Literal(text, old(position), word, value) && Follows(r)
    {
      if position + |word| <= |text| && text[position..position + |word|] == word {
        position := position + |word|;
        return Got(value, position);
      }
      return Fail(InvalidJson);
    }

    method ParseValue(depth: nat) returns (r: Parsed<Json>)
      requires Valid()
      modifies this
      ensures r == ValueAt(text, old(position), depth, limits) && Follows(r)
      decreases |text| - position, 1
    {
      if depth > limits.maxDepth { return Fail(LimitExceeded); }
      if position >= |text| { return Fail(InvalidJson); }
      hide ItemsAt, MembersAt, StringAt, NumberAt, Literal, SkipSpace;
      var c := text[position];
      if c == '{' {
        r := ParseObject(depth);
      } else if c == '[' {
        r := ParseArray(depth);
      } else if c == '"' {
        var s := ParseString();
        r := if s.Fail? then Fail(s.error) else Got(Str(s.value), s.next);
      } else if c == 't' {
        r := ParseLiteral("true", Bool(true));
      } else if c == 'f' {
        r := ParseLiteral("false", Bool(false));
      } else if c == 'n' {
        r := ParseLiteral("null", Null);
      } else if c == '-' || IsDigit(c) {
        r := ParseNumber();
      } else {
        r := Fail(InvalidJson);
      }
    }

    /** What comes after an element; consumes the comma or the bracket. */
    method ParseAfter(close: char) returns (r: After)
      requires Valid()
      modifies this
      ensures r == AfterElement(text, old(position), close) && Valid()
      ensures !r.Broken? ==> position == r.next
    {
      SkipWhitespace();
      if position >= |text| { return Broken; }
      if text[position] == ',' {
        position := position + 1;
        return More(position);
      }
      if text[position] == close {
        position := position + 1;
        return Closed(position);
      }
      return Broken;
    }

    method ParseArray(depth: nat) returns (r: Parsed<Json>)
      requires Valid() && depth <= limits.maxDepth && position < |text| && text[position] == '['
      modifies this
      ensures r == ValueAt(text, old(position), depth, limits) && Follows(r)
      decreases |text| - position, 0
    {
      hide ItemsAt, MembersAt, StringAt, NumberAt, Literal, SkipSpace;
      position := position + 1;
      SkipWhitespace();
      if position < |text| && text[position] == ']' {
        position := position + 1;
        return Got(Arr([]), position);
      }
      r := ParseItems(depth);
    }

    method ParseItems(depth: nat) returns (r: Parsed<Json>)
      requires Valid()
      modifies this
      ensures r == ItemsAt(text, old(position), depth, [], limits) && Follows(r)
      decreases |text| - position, 2
    {
      var items: seq<Json> := [];
      while true
        invariant old(position) <= position <= |text|
        invariant ItemsAt(text, position, depth, items, limits) == ItemsAt(text, old(position), depth, [], limits)
        decreases |text| - position
      {
        hide ValueAt, AfterElement, SkipSpace;
        SkipWhitespace();
        var element := ParseValue(depth + 1);
        if element.Fail? { return Fail(element.error); }
        items := items + [element.value];
        if |items| > limits.maxElements { return Fail(LimitExceeded); }
        var after := ParseAfter(']');
        match after {
          case More(_) =>
          case Closed(next) => return Got(Arr(items), next);
          case Broken => return Fail(InvalidJson);
        }
      }
    }

    method ParseObject(depth: nat) returns (r: Parsed<Json>)
      requires Valid() && depth <= limits.maxDepth && position < |text| && text[position] == '{'
      modifies this
      ensures r == ValueAt(text, old(position), depth, limits) && Follows(r)
      decreases |text| - position, 0
    {
      hide ItemsAt, MembersAt, StringAt, NumberAt, Literal, SkipSpace;
      position := position + 1;
      SkipWhitespace();
      if position < |text| && text[position] == '}' {
        position := position + 1;
        return Got(Obj([], []), position);
      }
      r := ParseMembers(depth);
    }

    method ParseMember(depth: nat) returns (r: Parsed<(string, Json)>)
      requires Valid()
      modifies this
      ensures r == MemberAt(text, old(position), depth, limits) && Follows(r)
      decreases |text| - position, 2
    {
      hide StringAt, ValueAt, SkipSpace;
      SkipWhitespace();
      var key := ParseString();
      if key.Fail? { return Fail(key.error); }
      SkipWhitespace();
      if position >= |text| || text[position] != ':' { return Fail(InvalidJson); }
      position := position + 1;
      SkipWhitespace();
      var value := ParseValue(depth + 1);
      if value.Fail? { return Fail(value.error); }
      return Got((key.value, value.value), position);
    }

    method ParseMembers(depth: nat) returns (r: Parsed<Json>)
      requires Valid()
      modifies this
      ensures r == MembersAt(text, old(position), depth, [], [], limits) && Follows(r)
      decreases |text| - position, 3
    {
      var members := new MemberList();
      while true
        invariant fresh(members) && members.Valid()
        invariant old(position) <= position <= |text|
        invariant MembersAt(text, position, depth, members.keys, members.values, limits)
               == MembersAt(text, old(position), depth, [], [], limits)
        decreases |text| - position
      {
        hide MemberAt, AfterElement, SetMember, HasKey, Contents, KeysRise;
        var member := ParseMember(depth);
        if member.Fail? { return Fail(member.error); }
        var duplicate, _ := members.Find(member.value.0);
        if duplicate { return Fail(InvalidJson); }
        members.Set(member.value.0, member.value.1);
        if |members.keys| > limits.maxElements { return Fail(LimitExceeded); }
        var after := ParseAfter('}');
        match after {
          case More(_) =>
          case Closed(next) => return Got(Obj(members.keys, members.values), next);
          case Broken => return Fail(InvalidJson);
        }
      }
    }

    method Run() returns (r: Result)
      requires Valid() && position == 0 && |text| <= limits.maxBytes
      modifies this
      ensures r == Parse(text, limits)
    {
      hide ValueAt, SkipSpace;
      SkipWhitespace();
      var value := ParseValue(0);
      if value.Fail? { return Err(value.error); }
      SkipWhitespace();
      return if position != |text| then Err(InvalidJson) else Ok(value.value);
    }
  }

  // ----- What parsing guarantees -----

  lemma {:induction false} StringsAreWithin(text: string, pos: nat, out: string, limits: Limits)
    requires pos <= |text| && |out| <= limits.maxString
    requires StringRest(text, pos, out, limits).Got?
    ensures |StringRest(text, pos, out, limits).value| <= limits.maxString
    decreases |text| - pos
  {
    if text[pos] != '"' {
      hide StringPiece;
      var piece := StringPiece(text, pos);
      StringsAreWithin(text, piece.next, out + piece.value, limits);
    }
  }

  ghost predicate AllGood(values: seq<Json>, depth: nat, limits: Limits) {
    forall i :: 0 <= i < |values| ==> Good(values[i], depth, limits) && !HoldsMinInt(values[i])
  }

  /** Whatever is accepted is well formed, within the limits, and can be read back. */
  lemma {:induction false} ParsedIsGood(text: string, pos: nat, depth: nat, limits: Limits)
    requires pos <= |text| && ValueAt(text, pos, depth, limits).Got?
    ensures var v := ValueAt(text, pos, depth, limits).value; Good(v, depth, limits) && !HoldsMinInt(v)
    decreases |text| - pos, 0
  {
    hide ItemsAt, MembersAt, StringRest, SkipSpace;
    var c := text[pos];
    var start := SkipSpace(text, pos + 1);
    if c == '{' {
      if !(start < |text| && text[start] == '}') {
        MembersAreGood(text, start, depth, [], [], limits);
      }
    } else if c == '[' {
      if !(start < |text| && text[start] == ']') {
        ItemsAreGood(text, start, depth, [], limits);
      }
    } else if c == '"' {
      StringsAreWithin(text, pos + 1, "", limits);
    }
  }

  lemma {:induction false} ItemsAreGood(text: string, pos: nat, depth: nat, items: seq<Json>, limits: Limits)
    requires pos <= |text| && depth <= limits.maxDepth && AllGood(items, depth + 1, limits)
    requires ItemsAt(text, pos, depth, items, limits).Got?
    ensures var v := ItemsAt(text, pos, depth, items, limits).value; Good(v, depth, limits) && !HoldsMinInt(v)
    decreases |text| - pos, 1
  {
    hide ValueAt, AfterElement, SkipSpace, Good, HoldsMinInt;
    var p := SkipSpace(text, pos);
    ParsedIsGood(text, p, depth + 1, limits);
    var v := ValueAt(text, p, depth + 1, limits);
    match AfterElement(text, v.next, ']')
    case More(next) => ItemsAreGood(text, next, depth, items + [v.value], limits);
    case Closed(_) => GoodArray(items + [v.value], depth, limits);
    case Broken =>
  }

  lemma GoodArray(items: seq<Json>, depth: nat, limits: Limits)
    requires depth <= limits.maxDepth && AllGood(items, depth + 1, limits) && |items| <= limits.maxElements
    ensures Good(Arr(items), depth, limits) && !HoldsMinInt(Arr(items))
  {
  }

  lemma GoodObject(keys: seq<string>, values: seq<Json>, depth: nat, limits: Limits)
    requires depth <= limits.maxDepth && AllGood(values, depth + 1, limits) && |keys| == |values| <= limits.maxElements
    requires KeysRise(keys) && forall i :: 0 <= i < |keys| ==> |keys[i]| <= limits.maxString
    ensures Good(Obj(keys, values), depth, limits) && !HoldsMinInt(Obj(keys, values))
  {
  }

  lemma SetKeepsGood(keys: seq<string>, values: seq<Json>, key: string, value: Json, depth: nat, limits: Limits)
    requires |keys| == |values| && KeysRise(keys) && AllGood(values, depth, limits)
    requires (forall i :: 0 <= i < |keys| ==> |keys[i]| <= limits.maxString) && |key| <= limits.maxString
    requires Good(value, depth, limits) && !HoldsMinInt(value)
    ensures var (ks, vs) := SetMember(keys, values, key, value);
      KeysRise(ks) && AllGood(vs, depth, limits) && forall i :: 0 <= i < |ks| ==> |ks[i]| <= limits.maxString
  {
    hide KeysRise, Good, HoldsMinInt, LowerBound;
    SetKeepsOrder(keys, values, key, value);
  }

  lemma {:induction false} MembersAreGood(text: string, pos: nat, depth: nat, keys: seq<string>, values: seq<Json>, limits: Limits)
    requires pos <= |text| && depth <= limits.maxDepth && |keys| == |values|
    requires KeysRise(keys) && AllGood(values, depth + 1, limits)
    requires forall i :: 0 <= i < |keys| ==> |keys[i]| <= limits.maxString
    requires MembersAt(text, pos, depth, keys, values, limits).Got?
    ensures var v := MembersAt(text, pos, depth, keys, values, limits).value; Good(v, depth, limits) && !HoldsMinInt(v)
    decreases |text| - pos, 2
  {
    hide MemberAt, AfterElement, SkipSpace, Good, HoldsMinInt, SetMember, HasKey, KeysRise, AllGood;
    MemberIsGood(text, pos, depth, limits);
    var m := MemberAt(text, pos, depth, limits);
    SetKeepsGood(keys, values, m.value.0, m.value.1, depth + 1, limits);
    var (ks, vs) := SetMember(keys, values, m.value.0, m.value.1);
    match AfterElement(text, m.next, '}')
    case More(next) => MembersAreGood(text, next, depth, ks, vs, limits);
    case Closed(_) => GoodObject(ks, vs, depth, limits);
    case Broken =>
  }

  lemma {:induction false} MemberIsGood(text: string, pos: nat, depth: nat, limits: Limits)
    requires pos <= |text| && MemberAt(text, pos, depth, limits).Got?
    ensures var m := MemberAt(text, pos, depth, limits).value;
      |m.0| <= limits.maxString && Good(m.1, depth + 1, limits) && !HoldsMinInt(m.1)
    decreases |text| - pos, 1
  {
    hide ValueAt, StringRest, SkipSpace, Good, HoldsMinInt;
    var start := SkipSpace(text, pos);
    StringsAreWithin(text, start + 1, "", limits);
    var key := StringAt(text, start, limits);
    var colon := SkipSpace(text, key.next);
    ParsedIsGood(text, SkipSpace(text, colon + 1), depth + 1, limits);
  }

  /** An accepted text has a canonical form that is accepted in turn and stands for the same value. */
  lemma AcceptedTextsNormalize(text: string, limits: Limits)
    requires Parse(text, limits).Ok?
    ensures var v := Parse(text, limits).value;
      && WellFormed(v) && |Dump(v)| <= |text|
      && Parse(Dump(v), limits) == Ok(Readback(v)) && Dump(Readback(v)) == Dump(v)
  {
    JsonLength.DumpIsNotLonger(text, limits);
    hide ValueAt, SkipSpace, Dump, Readback;
    ParsedIsGood(text, SkipSpace(text, 0), 0, limits);
    RoundTrip(Parse(text, limits).value, limits);
  }

  method ParseJson(text: string, limits: Limits) returns (r: Result)
    ensures r == Parse(text, limits)
  {
    if |text| > limits.maxBytes { return Err(LimitExceeded); }
    var parser := new Parser(text, limits);
    r := parser.Run();
  }
}
