/** The grammar of JSON texts, and that the parser accepts exactly it (src/json.cpp; RFC 8259). */
module JsonGrammar {
  import opened Order
  import opened SemVer
  import opened Json
  import opened JsonText
  import opened JsonRoundTrip
  import opened JsonParser

  // ----- The grammar, over a stretch of text -----

  const BLANKS: set<nat> := {0x20, 0x09, 0x0A, 0x0D}

  predicate Blank(text: string, lo: nat, hi: nat)
    requires lo <= hi <= |text|
  {
    forall i :: lo <= i < hi ==> text[i] as int in BLANKS
  }

  predicate IsUnit(text: string, pos: nat) {
    pos + 4 <= |text| && forall i :: pos <= i < pos + 4 ==> IsHex(text[i])
  }

  function UnitAt(text: string, pos: nat): nat
    requires IsUnit(text, pos)
  {
    0x1000 * HexValue(text[pos]) + 0x100 * HexValue(text[pos + 1]) + 0x10 * HexValue(text[pos + 2]) + HexValue(text[pos + 3])
  }

  predicate StartsUnit(text: string, pos: nat) {
    pos + 6 <= |text| && text[pos] == '\\' && text[pos + 1] == 'u' && IsUnit(text, pos + 2)
  }

  /** A character, a short escape, a unit, or a pair of surrogates; and what it stands for. */
  predicate Piece(text: string, lo: nat, hi: nat, s: string)
    requires lo <= hi <= |text|
  {
    || (hi == lo + 1 && text[lo] as int >= 0x20 && text[lo] != '"' && text[lo] != '\\' && s == [text[lo]])
    || (hi == lo + 2 && text[lo] == '\\' && text[lo + 1] in SHORT_ESCAPES && s == [SHORT_ESCAPES[text[lo + 1]] as char])
    || (hi == lo + 6 && StartsUnit(text, lo) && UnitAt(text, lo + 2) < 0x1_0000 && !IsHigh(UnitAt(text, lo + 2))
        && !IsLow(UnitAt(text, lo + 2)) && s == Utf8(UnitAt(text, lo + 2)))
    || (hi == lo + 12 && StartsUnit(text, lo) && StartsUnit(text, lo + 6)
        && IsHigh(UnitAt(text, lo + 2)) && IsLow(UnitAt(text, lo + 8))
        && Joined(UnitAt(text, lo + 2), UnitAt(text, lo + 8)) < 0x11_0000
        && s == Utf8(Joined(UnitAt(text, lo + 2), UnitAt(text, lo + 8))))
  }

  ghost predicate StringBody(text: string, lo: nat, hi: nat, s: string)
    requires lo <= hi <= |text|
    decreases hi - lo
  {
    if lo == hi then s == "" else exists mid: nat, n: nat :: BodyStep(text, lo, hi, s, mid, n)
  }

  ghost predicate BodyStep(text: string, lo: nat, hi: nat, s: string, mid: nat, n: nat)
    requires lo < hi <= |text|
    decreases hi - lo, 0
  {
    lo < mid <= hi && n <= |s| && Piece(text, lo, mid, s[..n]) && StringBody(text, mid, hi, s[n..])
  }

  ghost predicate StringText(text: string, lo: nat, hi: nat, s: string)
    requires lo <= hi <= |text|
  {
    lo + 2 <= hi && text[lo] == '"' && text[hi - 1] == '"' && StringBody(text, lo + 1, hi - 1, s)
  }

  /** No leading zero; a minus sign makes it an Int, zero included. */
  predicate NumberText(text: string, lo: nat, hi: nat, v: Json)
    requires lo <= hi <= |text|
  {
    lo < hi
    && var start := if text[lo] == '-' then lo + 1 else lo;
       && start < hi && Digits(text[start..hi]) && NoLeadingZero(text[start..hi])
       && v == if text[lo] == '-' then Int(0 - NumericValue(text[start..hi])) else UInt(NumericValue(text[start..hi]))
  }

  type Member = (string, Json)

  ghost function MapOf(members: seq<Member>): map<string, Json> {
    if members == [] then map[] else MapOf(members[..|members| - 1])[members[|members| - 1].0 := members[|members| - 1].1]
  }

  ghost predicate NoKeyTwice(members: seq<Member>) {
    forall i, j :: 0 <= i < j < |members| ==> members[i].0 != members[j].0
  }

  /** The members sorted by key. */
  ghost predicate Holds(keys: seq<string>, values: seq<Json>, members: seq<Member>) {
    && |keys| == |values| == |members| && KeysRise(keys) && NoKeyTwice(members)
    && Contents(keys, values) == MapOf(members)
  }

  ghost predicate IsText(text: string, lo: nat, hi: nat, v: Json)
    requires lo <= hi <= |text|
    decreases hi - lo, 1
  {
    match v
    case Null => text[lo..hi] == "null"
    case Bool(b) => text[lo..hi] == if b then "true" else "false"
    case Int(_) => NumberText(text, lo, hi, v)
    case UInt(_) => NumberText(text, lo, hi, v)
    case Str(s) => StringText(text, lo, hi, s)
    case Arr(items) =>
      lo + 2 <= hi && text[lo] == '[' && text[hi - 1] == ']'
      && if items == [] then Blank(text, lo + 1, hi - 1) else ItemsText(text, lo + 1, hi - 1, items)
    case Obj(keys, values) =>
      lo + 2 <= hi && text[lo] == '{' && text[hi - 1] == '}'
      && if keys == [] then values == [] && Blank(text, lo + 1, hi - 1)
         else exists members :: members != [] && MembersText(text, lo + 1, hi - 1, members) && Holds(keys, values, members)
  }

  /** Elements between commas, blanks allowed around each. */
  ghost predicate ItemsText(text: string, lo: nat, hi: nat, items: seq<Json>)
    requires lo <= hi <= |text| && items != []
    decreases hi - lo, 3
  {
    exists a: nat, b: nat, c: nat :: ItemStep(text, lo, hi, items, a, b, c)
  }

  ghost predicate ItemStep(text: string, lo: nat, hi: nat, items: seq<Json>, a: nat, b: nat, c: nat)
    requires lo <= hi <= |text| && items != []
    decreases hi - lo, 2
  {
    && lo <= a <= b <= c <= hi && Blank(text, lo, a) && IsText(text, a, b, items[0]) && Blank(text, b, c)
    && if |items| == 1 then c == hi else c < hi && text[c] == ',' && ItemsText(text, c + 1, hi, items[1..])
  }

  ghost predicate MembersText(text: string, lo: nat, hi: nat, members: seq<Member>)
    requires lo <= hi <= |text| && members != []
    decreases hi - lo, 3
  {
    exists a: nat, b: nat, c: nat, d: nat, e: nat, f: nat :: MemberStep(text, lo, hi, members, a, b, c, d, e, f)
  }

  /** A key, a colon and a value, blanks allowed between all of them. */
  ghost predicate PairText(text: string, lo: nat, hi: nat, m: Member, a: nat, b: nat, c: nat, d: nat)
    requires lo <= hi <= |text|
    decreases hi - lo, 1, 1
  {
    && lo <= a <= b <= c < d <= hi && Blank(text, lo, a) && StringText(text, a, b, m.0) && Blank(text, b, c)
    && text[c] == ':' && Blank(text, c + 1, d) && IsText(text, d, hi, m.1)
  }

  ghost predicate MemberStep(text: string, lo: nat, hi: nat, members: seq<Member>, a: nat, b: nat, c: nat, d: nat, e: nat, f: nat)
    requires lo <= hi <= |text| && members != []
    decreases hi - lo, 2
  {
    && lo <= e <= f <= hi && PairText(text, lo, e, members[0], a, b, c, d) && Blank(text, e, f)
    && if |members| == 1 then f == hi else f < hi && text[f] == ',' && MembersText(text, f + 1, hi, members[1..])
  }

  // ----- What is accepted is in the grammar -----

  lemma {:induction false} SkippedIsBlank(text: string, pos: nat)
    requires pos <= |text|
    ensures Blank(text, pos, SkipSpace(text, pos))
    ensures SkipSpace(text, pos) < |text| ==> text[SkipSpace(text, pos)] as int !in BLANKS
    decreases |text| - pos
  {
    if pos < |text| && IsSpace(text[pos]) { SkippedIsBlank(text, pos + 1); }
  }

  lemma UnitIsRead(text: string, pos: nat)
    requires pos <= |text|
    ensures Hex4(text, pos) == if IsUnit(text, pos) then Got(UnitAt(text, pos), pos + 4) else Fail(InvalidJson)
    ensures IsUnit(text, pos) ==> UnitAt(text, pos) < 0x1_0000
  {
    hide IsHex, HexValue;
  }

  /** A unit that is read is followed by whatever it needs. */
  lemma UnicodeIsRead(text: string, pos: nat)
    requires pos <= |text|
    ensures var r := UnicodeEscape(text, pos);
      if !IsUnit(text, pos) then r.Fail?
      else if IsHigh(UnitAt(text, pos)) then
        if StartsUnit(text, pos + 4) && IsLow(UnitAt(text, pos + 6)) then
          Joined(UnitAt(text, pos), UnitAt(text, pos + 6)) < 0x11_0000
          && r == Got(Utf8(Joined(UnitAt(text, pos), UnitAt(text, pos + 6))), pos + 10)
        else r.Fail?
      else if IsLow(UnitAt(text, pos)) then r.Fail?
      else r == Got(Utf8(UnitAt(text, pos)), pos + 4)
  {
    UnitIsRead(text, pos);
    if IsUnit(text, pos) && IsHigh(UnitAt(text, pos)) {
      if pos + 6 <= |text| { UnitIsRead(text, pos + 6); }
      if StartsUnit(text, pos + 4) && IsLow(UnitAt(text, pos + 6)) {
        JoinedIs(UnitAt(text, pos), UnitAt(text, pos + 6));
      }
      hide Utf8, IsUnit, UnitAt, Hex4, Joined;
    } else {
      hide Utf8, IsUnit, UnitAt, Hex4, Joined;
    }
  }

  lemma UnicodeIsPiece(text: string, lo: nat)
    requires lo + 1 < |text| && text[lo] == '\\' && text[lo + 1] == 'u' && UnicodeEscape(text, lo + 2).Got?
    ensures Piece(text, lo, UnicodeEscape(text, lo + 2).next, UnicodeEscape(text, lo + 2).value)
  {
    UnicodeIsRead(text, lo + 2);
    UnitIsRead(text, lo + 2);
    hide Utf8, UnitAt, UnicodeEscape, IsHigh, IsLow;
    assert StartsUnit(text, lo);
  }

  lemma ReadIsPiece(text: string, lo: nat)
    requires lo < |text| && text[lo] != '"' && StringPiece(text, lo).Got?
    ensures Piece(text, lo, StringPiece(text, lo).next, StringPiece(text, lo).value)
  {
    PieceMeaning(text, lo);
    if text[lo] == '\\' {
      EscapeMeaning(text, lo + 1);
      if lo + 1 < |text| && text[lo + 1] == 'u' { UnicodeIsPiece(text, lo); }
    }
    hide StringPiece, Escape, UnicodeEscape, Utf8, StartsUnit, UnitAt;
  }

  lemma {:induction false} RestIsBody(text: string, pos: nat, out: string, limits: Limits) returns (s: string)
    requires pos <= |text| && StringRest(text, pos, out, limits).Got?
    ensures var r := StringRest(text, pos, out, limits);
      r.value == out + s && text[r.next - 1] == '"' && StringBody(text, pos, r.next - 1, s)
    decreases |text| - pos
  {
    hide StringPiece, Piece, StringBody, StringRest;
    RestStep(text, pos, out, limits);
    if text[pos] == '"' {
      s := "";
      EmptyBody(text, pos);
    } else {
      ReadIsPiece(text, pos);
      var piece := StringPiece(text, pos);
      var rest := RestIsBody(text, piece.next, out + piece.value, limits);
      s := piece.value + rest;
      BodyFromStep(text, pos, piece.next, StringRest(text, pos, out, limits).next - 1, piece.value, rest);
      Reassociate(out, piece.value, rest);
    }
  }

  lemma EmptyBody(text: string, pos: nat)
    requires pos <= |text|
    ensures StringBody(text, pos, pos, "")
  {
  }

  lemma RestStep(text: string, pos: nat, out: string, limits: Limits)
    requires pos <= |text| && StringRest(text, pos, out, limits).Got?
    ensures pos < |text|
    ensures text[pos] == '"' ==> StringRest(text, pos, out, limits) == Got(out + "", pos + 1)
    ensures text[pos] != '"' ==>
      && StringPiece(text, pos).Got?
      && StringRest(text, pos, out, limits) == StringRest(text, StringPiece(text, pos).next, out + StringPiece(text, pos).value, limits)
  {
    hide StringPiece;
    assert out + "" == out;
  }

  lemma BodyFromStep(text: string, lo: nat, mid: nat, hi: nat, piece: string, rest: string)
    requires lo < mid <= hi <= |text| && Piece(text, lo, mid, piece) && StringBody(text, mid, hi, rest)
    ensures StringBody(text, lo, hi, piece + rest)
  {
    hide Piece;
    var s := piece + rest;
    assert s[..|piece|] == piece && s[|piece|..] == rest;
    assert BodyStep(text, lo, hi, s, mid, |piece|);
  }

  lemma StringIsText(text: string, pos: nat, limits: Limits)
    requires pos <= |text| && StringAt(text, pos, limits).Got?
    ensures StringText(text, pos, StringAt(text, pos, limits).next, StringAt(text, pos, limits).value)
  {
    var s := RestIsBody(text, pos + 1, "", limits);
    assert "" + s == s;
    hide StringRest, StringBody;
  }

  lemma NumberIsText(text: string, pos: nat)
    requires pos < |text| && NumberAt(text, pos).Got?
    ensures NumberText(text, pos, NumberAt(text, pos).next, NumberAt(text, pos).value)
    ensures NumberAt(text, pos).value.Int? || NumberAt(text, pos).value.UInt?
  {
    hide NumericValue;
  }

  lemma {:induction false} ValueIsText(text: string, pos: nat, depth: nat, limits: Limits)
    requires pos <= |text| && ValueAt(text, pos, depth, limits).Got?
    ensures var r := ValueAt(text, pos, depth, limits); IsText(text, pos, r.next, r.value)
    decreases |text| - pos, 0
  {
    hide ItemsAt, MembersAt, StringAt, NumberAt, SkipSpace, StringText, NumberText, ItemsText, MembersText, Holds, Blank;
    var c, start := text[pos], SkipSpace(text, pos + 1);
    if c == '{' {
      SkippedIsBlank(text, pos + 1);
      if !(start < |text| && text[start] == '}') {
        ObjectIsText(text, pos, depth, limits);
      }
    } else if c == '[' {
      SkippedIsBlank(text, pos + 1);
      if !(start < |text| && text[start] == ']') {
        ArrayIsText(text, pos, depth, limits);
      }
    } else if c == '"' {
      StringIsText(text, pos, limits);
    } else if c == '-' || IsDigit(c) {
      NumberIsText(text, pos);
    }
  }

  lemma ArrayIsText(text: string, pos: nat, depth: nat, limits: Limits)
    requires pos < |text| && text[pos] == '[' && ItemsAt(text, SkipSpace(text, pos + 1), depth, [], limits).Got?
    ensures var r := ItemsAt(text, SkipSpace(text, pos + 1), depth, [], limits); IsText(text, pos, r.next, r.value)
    decreases |text| - pos - 1, 5
  {
    hide ItemsAt, SkipSpace, IsText, ItemsText, Blank;
    var start := SkipSpace(text, pos + 1);
    SkippedIsBlank(text, pos + 1);
    var more := ItemsAreText(text, start, depth, [], limits);
    var r := ItemsAt(text, start, depth, [], limits);
    assert [] + more == more;
    BlankLead(text, pos + 1, start, r.next - 1, more);
    ItemsFold(text, pos, r.next, more);
  }

  lemma ItemsFold(text: string, lo: nat, hi: nat, items: seq<Json>)
    requires lo + 2 <= hi <= |text| && text[lo] == '[' && text[hi - 1] == ']' && items != [] && ItemsText(text, lo + 1, hi - 1, items)
    ensures IsText(text, lo, hi, Arr(items))
  {
    hide ItemsText;
  }

  lemma BlankJoins(text: string, lo: nat, mid: nat, hi: nat)
    requires lo <= mid <= hi <= |text| && Blank(text, lo, mid) && Blank(text, mid, hi)
    ensures Blank(text, lo, hi)
  {
  }

  lemma BlankLead(text: string, lo: nat, mid: nat, hi: nat, items: seq<Json>)
    requires lo <= mid <= hi <= |text| && items != [] && Blank(text, lo, mid) && ItemsText(text, mid, hi, items)
    ensures ItemsText(text, lo, hi, items)
  {
    var a: nat, b: nat, c: nat :| ItemStep(text, mid, hi, items, a, b, c);
    BlankJoins(text, lo, mid, a);
    hide Blank, IsText;
    assert ItemStep(text, lo, hi, items, a, b, c);
  }

  lemma {:induction false} ItemsAreText(text: string, pos: nat, depth: nat, items: seq<Json>, limits: Limits) returns (more: seq<Json>)
    requires pos <= |text| && ItemsAt(text, pos, depth, items, limits).Got?
    ensures var r := ItemsAt(text, pos, depth, items, limits);
      && more != [] && r.value == Arr(items + more) && text[r.next - 1] == ']' && ItemsText(text, pos, r.next - 1, more)
    decreases |text| - pos, 1
  {
    hide ValueAt, SkipSpace, IsText, Blank, ItemsText;
    var p := SkipSpace(text, pos);
    SkippedIsBlank(text, pos);
    ValueIsText(text, p, depth + 1, limits);
    var v := ValueAt(text, p, depth + 1, limits);
    var q := SkipSpace(text, v.next);
    SkippedIsBlank(text, v.next);
    var r := ItemsAt(text, pos, depth, items, limits);
    match AfterElement(text, v.next, ']')
    case More(next) =>
      var rest := ItemsAreText(text, next, depth, items + [v.value], limits);
      more := [v.value] + rest;
      assert more[1..] == rest && items + [v.value] + rest == items + more;
      ItemsFromStep(text, pos, r.next - 1, more, p, v.next, q);
    case Closed(_) =>
      more := [v.value];
      ItemsFromStep(text, pos, r.next - 1, more, p, v.next, q);
  }

  lemma ItemsFromStep(text: string, lo: nat, hi: nat, items: seq<Json>, a: nat, b: nat, c: nat)
    requires lo <= hi <= |text| && items != [] && ItemStep(text, lo, hi, items, a, b, c)
    ensures ItemsText(text, lo, hi, items)
  {
  }

  // ----- Objects -----

  lemma {:induction false} MapOfKeys(members: seq<Member>, key: string)
    ensures key in MapOf(members) <==> exists i :: 0 <= i < |members| && members[i].0 == key
  {
    if members != [] {
      var n := |members| - 1;
      MapOfKeys(members[..n], key);
      if key == members[n].0 {
      } else {
        assert forall i :: 0 <= i < n ==> members[..n][i] == members[i];
      }
    }
  }

  lemma MapOfMore(members: seq<Member>, m: Member)
    ensures MapOf(members + [m]) == MapOf(members)[m.0 := m.1]
  {
    assert (members + [m])[..|members|] == members;
  }

  lemma HoldsMore(keys: seq<string>, values: seq<Json>, members: seq<Member>, m: Member)
    requires Holds(keys, values, members) && !HasKey(keys, m.0)
    ensures var (ks, vs) := SetMember(keys, values, m.0, m.1); Holds(ks, vs, members + [m])
  {
    SetIsUpdate(keys, values, m.0, m.1);
    SetKeepsOrder(keys, values, m.0, m.1);
    FindIsLookup(keys, values, m.0);
    MapOfKeys(members, m.0);
    MapOfMore(members, m);
    hide MapOf, Contents, KeysRise, LowerBound;
  }

  lemma HoldsNothing()
    ensures Holds([], [], [])
  {
  }

  lemma ObjectIsText(text: string, pos: nat, depth: nat, limits: Limits)
    requires pos < |text| && text[pos] == '{' && MembersAt(text, SkipSpace(text, pos + 1), depth, [], [], limits).Got?
    ensures var r := MembersAt(text, SkipSpace(text, pos + 1), depth, [], [], limits); IsText(text, pos, r.next, r.value)
    decreases |text| - pos - 1, 5
  {
    hide MembersAt, SkipSpace, Holds, MembersText, IsText, Blank;
    var start := SkipSpace(text, pos + 1);
    SkippedIsBlank(text, pos + 1);
    HoldsNothing();
    var more := MembersAreText(text, start, depth, [], [], [], limits);
    var r := MembersAt(text, start, depth, [], [], limits);
    assert [] + more == more;
    BlankLeadMembers(text, pos + 1, start, r.next - 1, more);
    MembersFold(text, pos, r.next, r.value.keys, r.value.values, more);
  }

  lemma MembersFold(text: string, lo: nat, hi: nat, keys: seq<string>, values: seq<Json>, members: seq<Member>)
    requires lo + 2 <= hi <= |text| && text[lo] == '{' && text[hi - 1] == '}' && members != [] && MembersText(text, lo + 1, hi - 1, members)
    requires Holds(keys, values, members)
    ensures IsText(text, lo, hi, Obj(keys, values))
  {
    HoldsLength(keys, values, members);
    hide MembersText, Holds;
  }

  lemma HoldsLength(keys: seq<string>, values: seq<Json>, members: seq<Member>)
    requires Holds(keys, values, members)
    ensures |keys| == |values| == |members|
  {
  }

  lemma BlankLeadMembers(text: string, lo: nat, mid: nat, hi: nat, members: seq<Member>)
    requires lo <= mid <= hi <= |text| && members != [] && Blank(text, lo, mid) && MembersText(text, mid, hi, members)
    ensures MembersText(text, lo, hi, members)
  {
    var a: nat, b: nat, c: nat, d: nat, e: nat, f: nat :| MemberStep(text, mid, hi, members, a, b, c, d, e, f);
    hide Blank, IsText, StringText;
    assert PairText(text, mid, e, members[0], a, b, c, d);
    BlankJoins(text, lo, mid, a);
    assert PairText(text, lo, e, members[0], a, b, c, d);
    assert MemberStep(text, lo, hi, members, a, b, c, d, e, f);
  }

  lemma {:induction false} MemberIsText(text: string, pos: nat, depth: nat, limits: Limits) returns (a: nat, b: nat, c: nat, d: nat)
    requires pos <= |text| && MemberAt(text, pos, depth, limits).Got?
    ensures var m := MemberAt(text, pos, depth, limits); PairText(text, pos, m.next, m.value, a, b, c, d)
    decreases |text| - pos, 1
  {
    hide ValueAt, StringAt, SkipSpace, IsText, Blank, StringText;
    a := SkipSpace(text, pos);
    SkippedIsBlank(text, pos);
    StringIsText(text, a, limits);
    b := StringAt(text, a, limits).next;
    c := SkipSpace(text, b);
    SkippedIsBlank(text, b);
    d := SkipSpace(text, c + 1);
    SkippedIsBlank(text, c + 1);
    ValueIsText(text, d, depth + 1, limits);
  }

  lemma {:induction false} MembersAreText(text: string, pos: nat, depth: nat, keys: seq<string>, values: seq<Json>,
                                          done: seq<Member>, limits: Limits) returns (more: seq<Member>)
    requires pos <= |text| && |keys| == |values| && Holds(keys, values, done)
    requires MembersAt(text, pos, depth, keys, values, limits).Got?
    ensures var r := MembersAt(text, pos, depth, keys, values, limits);
      && more != [] && r.value.Obj? && Holds(r.value.keys, r.value.values, done + more)
      && text[r.next - 1] == '}' && MembersText(text, pos, r.next - 1, more)
    decreases |text| - pos, 2
  {
    hide MemberAt, SkipSpace, Blank, MembersText, PairText, Holds, HasKey, SetMember;
    var m := MemberAt(text, pos, depth, limits);
    var a, b, c, d := MemberIsText(text, pos, depth, limits);
    HoldsMore(keys, values, done, m.value);
    var (ks, vs) := SetMember(keys, values, m.value.0, m.value.1);
    var r := MembersAt(text, pos, depth, keys, values, limits);
    var f := SkipSpace(text, m.next);
    SkippedIsBlank(text, m.next);
    match AfterElement(text, m.next, '}')
    case More(next) =>
      var rest := MembersAreText(text, next, depth, ks, vs, done + [m.value], limits);
      more := [m.value] + rest;
      assert more[1..] == rest && done + [m.value] + rest == done + more;
      MembersFromStep(text, pos, r.next - 1, more, a, b, c, d, m.next, f);
    case Closed(_) =>
      more := [m.value];
      MembersFromStep(text, pos, r.next - 1, more, a, b, c, d, m.next, f);
  }

  lemma MembersFromStep(text: string, lo: nat, hi: nat, members: seq<Member>, a: nat, b: nat, c: nat, d: nat, e: nat, f: nat)
    requires lo <= hi <= |text| && members != [] && MemberStep(text, lo, hi, members, a, b, c, d, e, f)
    ensures MembersText(text, lo, hi, members)
  {
  }
}
