/** The parser accepts exactly the texts of the grammar whose value is within the limits (src/json.cpp). */
module JsonAccepted {
  import opened Order
  import opened SemVer
  import opened Decimal
  import opened Json
  import opened JsonText
  import opened JsonRoundTrip
  import opened JsonParser
  import opened JsonGrammar
  import opened Rising

  // ----- Strings -----

  lemma {:induction false} BlankSkips(text: string, lo: nat, hi: nat)
    requires lo <= hi <= |text| && Blank(text, lo, hi) && (hi < |text| ==> text[hi] as int !in BLANKS)
    ensures SkipSpace(text, lo) == hi
    decreases hi - lo
  {
    if lo < hi { BlankSkips(text, lo + 1, hi); }
  }

  lemma PieceIsRead(text: string, lo: nat, hi: nat, s: string)
    requires lo <= hi <= |text| && Piece(text, lo, hi, s)
    ensures lo < hi && text[lo] != '"' && StringPiece(text, lo) == Got(s, hi)
  {
    PieceMeaning(text, lo);
    if text[lo] == '\\' {
      EscapeMeaning(text, lo + 1);
      if lo + 1 < |text| && text[lo + 1] == 'u' { UnicodeIsRead(text, lo + 2); }
    }
    hide StringPiece, Escape, UnicodeEscape, Utf8, UnitAt, Joined;
  }

  lemma {:induction false} BodyIsRead(text: string, lo: nat, hi: nat, out: string, s: string, limits: Limits)
    requires lo <= hi < |text| && StringBody(text, lo, hi, s) && text[hi] == '"' && |out| + |s| <= limits.maxString
    ensures StringRest(text, lo, out, limits) == Got(out + s, hi + 1)
    decreases hi - lo
  {
    hide StringRest, StringPiece, Piece;
    if lo == hi {
      assert s == "";
      StringRestEnds(text, lo, out, limits);
    } else {
      var mid, n := BodyHead(text, lo, hi, s);
      PieceIsRead(text, lo, mid, s[..n]);
      StringRestGoesOn(text, lo, out, s[..n], mid, limits);
      BodyIsRead(text, mid, hi, out + s[..n], s[n..], limits);
      assert s == s[..n] + s[n..];
      Reassociate(out, s[..n], s[n..]);
    }
  }

  lemma BodyHead(text: string, lo: nat, hi: nat, s: string) returns (mid: nat, n: nat)
    requires lo < hi <= |text| && StringBody(text, lo, hi, s)
    ensures lo < mid <= hi && n <= |s| && Piece(text, lo, mid, s[..n]) && StringBody(text, mid, hi, s[n..])
  {
    hide Piece;
    mid, n :| BodyStep(text, lo, hi, s, mid, n);
  }

  lemma StringRestEnds(text: string, pos: nat, out: string, limits: Limits)
    requires pos < |text| && text[pos] == '"'
    ensures StringRest(text, pos, out, limits) == Got(out + "", pos + 1)
  {
    assert out + "" == out;
  }

  lemma StringRestGoesOn(text: string, pos: nat, out: string, s: string, next: nat, limits: Limits)
    requires pos < |text| && text[pos] != '"' && StringPiece(text, pos) == Got(s, next) && |out| + |s| <= limits.maxString
    ensures next <= |text| && StringRest(text, pos, out, limits) == StringRest(text, next, out + s, limits)
  {
    hide StringPiece;
  }

  lemma StringIsRead(text: string, lo: nat, hi: nat, s: string, limits: Limits)
    requires lo <= hi <= |text| && StringText(text, lo, hi, s) && |s| <= limits.maxString
    ensures StringAt(text, lo, limits) == Got(s, hi)
  {
    BodyIsRead(text, lo + 1, hi - 1, "", s, limits);
    assert "" + s == s;
    hide StringBody, StringRest;
  }

  // ----- Numbers -----

  lemma DigitsAreRead(text: string, lo: nat, hi: nat)
    requires lo < hi <= |text| && Digits(text[lo..hi]) && NoLeadingZero(text[lo..hi]) && NumberEnds(text, hi)
    ensures IntegerPart(text, lo) == Got(text[lo..hi], hi)
  {
    DigitsEndReads(text, lo, text[lo..hi]);
    assert text[lo] == text[lo..hi][0];
  }

  lemma NumberIsRead(text: string, lo: nat, hi: nat, v: Json)
    requires lo <= hi <= |text| && NumberText(text, lo, hi, v) && NumberEnds(text, hi)
    requires WellFormed(v) && !HoldsMinInt(v)
    ensures NumberAt(text, lo) == Got(v, hi)
    ensures text[lo] == '-' || IsDigit(text[lo])
  {
    DigitsAreRead(text, if text[lo] == '-' then lo + 1 else lo, hi);
    hide NumericValue, IntegerPart, NoLeadingZero;
    if text[lo] != '-' { assert text[lo] == text[lo..hi][0]; }
  }

  // ----- Values -----

  /** Whatever may follow a value. */
  predicate Ended(text: string, pos: nat) {
    pos >= |text| || text[pos] as int in BLANKS || text[pos] == ',' || text[pos] == ']' || text[pos] == '}'
  }

  lemma TextStarts(text: string, lo: nat, hi: nat, v: Json)
    requires lo <= hi <= |text| && IsText(text, lo, hi, v)
    ensures lo < hi && text[lo] as int !in BLANKS && text[lo] != ']' && text[lo] != '}'
  {
    hide StringBody, ItemsText, MembersText, Holds, NumericValue, NoLeadingZero;
    match v
    case Null => assert text[lo] == text[lo..hi][0];
    case Bool(_) => assert text[lo] == text[lo..hi][0];
    case Int(_) =>
    case UInt(_) => if text[lo] != '-' { assert text[lo] == text[lo..hi][0]; }
    case _ =>
  }

  lemma WordIsRead(text: string, lo: nat, hi: nat, v: Json, depth: nat, limits: Limits)
    requires lo <= hi <= |text| && IsText(text, lo, hi, v) && (v.Null? || v.Bool?) && depth <= limits.maxDepth
    ensures ValueAt(text, lo, depth, limits) == Got(v, hi)
  {
    assert text[lo] == text[lo..hi][0];
  }

  lemma {:induction false} ValueIsRead(text: string, lo: nat, hi: nat, depth: nat, limits: Limits, v: Json)
    requires lo <= hi <= |text| && IsText(text, lo, hi, v) && Ended(text, hi)
    requires Good(v, depth, limits) && !HoldsMinInt(v)
    ensures ValueAt(text, lo, depth, limits) == Got(v, hi)
    decreases hi - lo, 1
  {
    hide ItemsAt, MembersAt, StringAt, NumberAt, SkipSpace, StringText, NumberText, ItemsText, MembersText, Holds, Blank;
    match v
    case Null => WordIsRead(text, lo, hi, v, depth, limits);
    case Bool(_) => WordIsRead(text, lo, hi, v, depth, limits);
    case Int(_) => NumberIsRead(text, lo, hi, v);
    case UInt(_) => NumberIsRead(text, lo, hi, v);
    case Str(s) =>
      StringIsRead(text, lo, hi, s, limits);
      StringStarts(text, lo, hi, s);
    case Arr(_) => ArrayIsRead(text, lo, hi, depth, limits, v);
    case Obj(_, _) => ObjectIsRead(text, lo, hi, depth, limits, v);
  }

  lemma StringStarts(text: string, lo: nat, hi: nat, s: string)
    requires lo <= hi <= |text| && StringText(text, lo, hi, s)
    ensures lo < hi && text[lo] == '"'
  {
  }

  // ----- Arrays -----

  lemma ArrayIsRead(text: string, lo: nat, hi: nat, depth: nat, limits: Limits, v: Json)
    requires lo <= hi <= |text| && IsText(text, lo, hi, v) && v.Arr?
    requires Good(v, depth, limits) && !HoldsMinInt(v)
    ensures ValueAt(text, lo, depth, limits) == Got(v, hi)
    decreases hi - lo, 0
  {
    hide ItemsAt, SkipSpace, ItemsText, Blank;
    if v.items == [] {
      BlankSkips(text, lo + 1, hi - 1);
    } else {
      var start := ItemsStart(text, lo + 1, hi - 1, v.items);
      ItemsAreRead(text, start, hi - 1, depth, [], v.items, limits);
      BlankSkips(text, lo + 1, start);
      assert [] + v.items == v.items;
    }
  }

  /** The blanks before the first element do not matter. */
  lemma ItemsStart(text: string, lo: nat, hi: nat, items: seq<Json>) returns (start: nat)
    requires lo <= hi <= |text| && items != [] && ItemsText(text, lo, hi, items)
    ensures lo <= start < hi && Blank(text, lo, start) && ItemsText(text, start, hi, items)
    ensures text[start] as int !in BLANKS && text[start] != ']'
  {
    var a: nat, b: nat, c: nat :| ItemStep(text, lo, hi, items, a, b, c);
    TextStarts(text, a, b, items[0]);
    hide IsText;
    start := a;
    assert ItemStep(text, a, hi, items, a, b, c);
  }

  lemma {:induction false} ItemsAreRead(text: string, lo: nat, hi: nat, depth: nat, done: seq<Json>, items: seq<Json>, limits: Limits)
    requires lo <= hi < |text| && text[hi] == ']' && items != [] && ItemsText(text, lo, hi, items)
    requires AllGood(items, depth + 1, limits) && |done| + |items| <= limits.maxElements
    ensures ItemsAt(text, lo, depth, done, limits) == Got(Arr(done + items), hi + 1)
    decreases hi - lo, 2
  {
    hide IsText, Blank, SkipSpace, ItemsText, ItemsAt, ValueAt, Good, HoldsMinInt, AllGood;
    var a, b, c := ItemsHead(text, lo, hi, items);
    GoodHead(items, depth + 1, limits);
    TextStarts(text, a, b, items[0]);
    BlankSkips(text, lo, a);
    BlankEnds(text, b, c);
    ValueIsRead(text, a, b, depth + 1, limits, items[0]);
    BlankSkips(text, b, c);
    ItemsStep(text, lo, depth, done, items[0], limits, a, b, c);
    if |items| == 1 {
      assert done + items == done + [items[0]];
    } else {
      ItemsAreRead(text, c + 1, hi, depth, done + [items[0]], items[1..], limits);
      assert done + [items[0]] + items[1..] == done + items;
    }
  }

  /** The first element, and the comma after it. */
  lemma ItemsHead(text: string, lo: nat, hi: nat, items: seq<Json>) returns (a: nat, b: nat, c: nat)
    requires lo <= hi <= |text| && items != [] && ItemsText(text, lo, hi, items)
    ensures lo <= a <= b <= c <= hi && Blank(text, lo, a) && IsText(text, a, b, items[0]) && Blank(text, b, c)
    ensures |items| == 1 ==> c == hi
    ensures |items| != 1 ==> c < hi && text[c] == ',' && ItemsText(text, c + 1, hi, items[1..])
  {
    a, b, c :| ItemStep(text, lo, hi, items, a, b, c);
  }

  lemma GoodHead(items: seq<Json>, depth: nat, limits: Limits)
    requires items != [] && AllGood(items, depth, limits)
    ensures Good(items[0], depth, limits) && !HoldsMinInt(items[0]) && AllGood(items[1..], depth, limits)
  {
    hide Good, HoldsMinInt;
  }

  lemma ItemsStep(text: string, lo: nat, depth: nat, done: seq<Json>, v: Json, limits: Limits, a: nat, b: nat, c: nat)
    requires lo <= a <= b <= c < |text| && SkipSpace(text, lo) == a && SkipSpace(text, b) == c
    requires ValueAt(text, a, depth + 1, limits) == Got(v, b) && |done| < limits.maxElements
    ensures text[c] == ']' ==> ItemsAt(text, lo, depth, done, limits) == Got(Arr(done + [v]), c + 1)
    ensures text[c] == ',' ==> ItemsAt(text, lo, depth, done, limits) == ItemsAt(text, c + 1, depth, done + [v], limits)
  {
    hide ValueAt, SkipSpace;
  }

  lemma BlankEnds(text: string, lo: nat, hi: nat)
    requires lo <= hi <= |text| && Blank(text, lo, hi) && Ended(text, hi)
    ensures Ended(text, lo)
  {
  }

  // ----- Objects -----

  lemma SameMembersSameLists(ks: seq<string>, vs: seq<Json>, keys: seq<string>, values: seq<Json>, members: seq<Member>)
    requires Holds(ks, vs, members) && Holds(keys, values, members)
    ensures ks == keys && vs == values
  {
    hide MapOf, Contents, CompareText;
    RisingIsApart(ks);
    RisingIsApart(keys);
    ContentsByIndex(ks, vs);
    ContentsByIndex(keys, values);
    CompareTextIsTotal();
    assert forall x :: x in ks <==> x in keys;
    RisingListsTie(CompareText, ks, keys);
  }

  lemma MembersAreGood(keys: seq<string>, values: seq<Json>, members: seq<Member>, depth: nat, limits: Limits)
    requires Holds(keys, values, members) && AllGood(values, depth, limits)
    requires forall i :: 0 <= i < |keys| ==> |keys[i]| <= limits.maxString
    ensures GoodMembers(members, depth, limits)
  {
    hide Contents, MapOf, Good, HoldsMinInt, CompareText;
    RisingIsApart(keys);
    ContentsByIndex(keys, values);
    forall i | 0 <= i < |members|
      ensures |members[i].0| <= limits.maxString && Good(members[i].1, depth, limits) && !HoldsMinInt(members[i].1)
    {
      MapOfAt(members, i);
      assert members[i].0 in keys;
    }
  }

  lemma {:induction false} MapOfAt(members: seq<Member>, i: nat)
    requires NoKeyTwice(members) && i < |members|
    ensures members[i].0 in MapOf(members) && MapOf(members)[members[i].0] == members[i].1
  {
    var n := |members| - 1;
    if i < n { MapOfAt(members[..n], i); }
  }

  ghost predicate GoodMembers(members: seq<Member>, depth: nat, limits: Limits) {
    forall i :: 0 <= i < |members| ==>
      |members[i].0| <= limits.maxString && Good(members[i].1, depth, limits) && !HoldsMinInt(members[i].1)
  }

  lemma ObjectIsRead(text: string, lo: nat, hi: nat, depth: nat, limits: Limits, v: Json)
    requires lo <= hi <= |text| && IsText(text, lo, hi, v) && v.Obj?
    requires Good(v, depth, limits) && !HoldsMinInt(v)
    ensures ValueAt(text, lo, depth, limits) == Got(v, hi)
    decreases hi - lo, 0
  {
    hide MembersAt, SkipSpace, MembersText, Blank, Holds, KeysRise, NoKeyTwice;
    if v.keys == [] {
      BlankSkips(text, lo + 1, hi - 1);
    } else {
      var members :| members != [] && MembersText(text, lo + 1, hi - 1, members) && Holds(v.keys, v.values, members);
      var start := MembersStart(text, lo + 1, hi - 1, members);
      HoldsNothing();
      HoldsLength(v.keys, v.values, members);
      HoldsApart(v.keys, v.values, members);
      MembersAreGood(v.keys, v.values, members, depth + 1, limits);
      assert [] + members == members;
      var ks, vs := MembersAreRead(text, start, hi - 1, depth, [], [], [], members, limits);
      SameMembersSameLists(ks, vs, v.keys, v.values, members);
      BlankSkips(text, lo + 1, start);
    }
  }

  lemma HoldsApart(keys: seq<string>, values: seq<Json>, members: seq<Member>)
    requires Holds(keys, values, members)
    ensures NoKeyTwice(members)
  {
  }

  lemma MembersStart(text: string, lo: nat, hi: nat, members: seq<Member>) returns (start: nat)
    requires lo <= hi <= |text| && members != [] && MembersText(text, lo, hi, members)
    ensures lo <= start < hi && Blank(text, lo, start) && MembersText(text, start, hi, members)
    ensures text[start] == '"'
  {
    var a: nat, b: nat, c: nat, d: nat, e: nat, f: nat :| MemberStep(text, lo, hi, members, a, b, c, d, e, f);
    hide IsText, StringBody;
    assert PairText(text, lo, e, members[0], a, b, c, d);
    start := a;
    assert PairText(text, a, e, members[0], a, b, c, d);
    assert MemberStep(text, a, hi, members, a, b, c, d, e, f);
  }

  lemma {:induction false} MemberIsRead(text: string, lo: nat, hi: nat, m: Member, a: nat, b: nat, c: nat, d: nat, depth: nat, limits: Limits)
    requires lo <= hi <= |text| && PairText(text, lo, hi, m, a, b, c, d) && Ended(text, hi)
    requires |m.0| <= limits.maxString && Good(m.1, depth + 1, limits) && !HoldsMinInt(m.1)
    ensures MemberAt(text, lo, depth, limits) == Got(m, hi)
    decreases hi - lo, 2
  {
    hide ValueAt, StringAt, SkipSpace, IsText, Blank, StringText, Good, HoldsMinInt;
    StringStarts(text, a, b, m.0);
    BlankSkips(text, lo, a);
    StringIsRead(text, a, b, m.0, limits);
    BlankSkips(text, b, c);
    TextStarts(text, d, hi, m.1);
    BlankSkips(text, c + 1, d);
    ValueIsRead(text, d, hi, depth + 1, limits, m.1);
  }

  lemma {:induction false} MembersAreRead(text: string, lo: nat, hi: nat, depth: nat, keys: seq<string>, values: seq<Json>,
                                           done: seq<Member>, members: seq<Member>, limits: Limits)
    returns (ks: seq<string>, vs: seq<Json>)
    requires lo <= hi < |text| && text[hi] == '}' && members != [] && MembersText(text, lo, hi, members)
    requires Holds(keys, values, done) && NoKeyTwice(done + members) && |keys| == |values|
    requires GoodMembers(members, depth + 1, limits) && |done| + |members| <= limits.maxElements
    ensures MembersAt(text, lo, depth, keys, values, limits) == Got(Obj(ks, vs), hi + 1)
    ensures Holds(ks, vs, done + members)
    decreases hi - lo, 3
  {
    hide PairText, Blank, SkipSpace, MembersText, MemberAt, MembersAt, Good, GoodMembers, HoldsMinInt, Holds, HasKey, SetMember, NoKeyTwice;
    var a, b, c, d, e, f := MembersHead(text, lo, hi, members);
    GoodMembersHead(members, depth + 1, limits);
    var m, rest := members[0], members[1..];
    assert members == [m] + rest && done + members == done + [m] + rest && done + members == done + ([m] + rest);
    BlankEnds(text, e, f);
    MemberIsRead(text, lo, e, m, a, b, c, d, depth, limits);
    NotYetHeld(keys, values, done, m, rest);
    HoldsMore(keys, values, done, m);
    var (longerKeys, longerValues) := SetMember(keys, values, m.0, m.1);
    HoldsLength(longerKeys, longerValues, done + [m]);
    BlankSkips(text, e, f);
    MembersStep(text, lo, depth, keys, values, m, limits, e, f);
    if |members| == 1 {
      assert done + members == done + [m];
      ks, vs := longerKeys, longerValues;
    } else {
      ks, vs := MembersAreRead(text, f + 1, hi, depth, longerKeys, longerValues, done + [m], rest, limits);
    }
  }

  /** The first member, and the comma after it. */
  lemma MembersHead(text: string, lo: nat, hi: nat, members: seq<Member>) returns (a: nat, b: nat, c: nat, d: nat, e: nat, f: nat)
    requires lo <= hi <= |text| && members != [] && MembersText(text, lo, hi, members)
    ensures lo <= e <= f <= hi && PairText(text, lo, e, members[0], a, b, c, d) && Blank(text, e, f)
    ensures |members| == 1 ==> f == hi
    ensures |members| != 1 ==> f < hi && text[f] == ',' && MembersText(text, f + 1, hi, members[1..])
  {
    hide PairText;
    a, b, c, d, e, f :| MemberStep(text, lo, hi, members, a, b, c, d, e, f);
  }

  lemma GoodMembersHead(members: seq<Member>, depth: nat, limits: Limits)
    requires members != [] && GoodMembers(members, depth, limits)
    ensures |members[0].0| <= limits.maxString && Good(members[0].1, depth, limits) && !HoldsMinInt(members[0].1)
    ensures GoodMembers(members[1..], depth, limits)
  {
    hide Good, HoldsMinInt;
  }

  lemma MembersStep(text: string, lo: nat, depth: nat, keys: seq<string>, values: seq<Json>, m: Member, limits: Limits, e: nat, f: nat)
    requires lo <= e <= f < |text| && |keys| == |values| && SkipSpace(text, e) == f
    requires MemberAt(text, lo, depth, limits) == Got(m, e) && !HasKey(keys, m.0)
    requires |SetMember(keys, values, m.0, m.1).0| <= limits.maxElements
    ensures var (ks, vs) := SetMember(keys, values, m.0, m.1);
      && (text[f] == '}' ==> MembersAt(text, lo, depth, keys, values, limits) == Got(Obj(ks, vs), f + 1))
      && (text[f] == ',' ==> MembersAt(text, lo, depth, keys, values, limits) == MembersAt(text, f + 1, depth, ks, vs, limits))
  {
    hide MemberAt, SkipSpace, HasKey, SetMember;
  }

  lemma NotYetHeld(keys: seq<string>, values: seq<Json>, done: seq<Member>, m: Member, rest: seq<Member>)
    requires |keys| == |values| && Holds(keys, values, done) && NoKeyTwice(done + ([m] + rest))
    ensures !HasKey(keys, m.0)
  {
    FindIsLookup(keys, values, m.0);
    MapOfKeys(done, m.0);
    var all := done + ([m] + rest);
    assert all[|done|] == m && forall i :: 0 <= i < |done| ==> all[i] == done[i];
    hide MapOf, Contents, KeysRise, HasKey;
  }

  // ----- Whole texts -----

  /** One value, blanks allowed around it. */
  ghost predicate IsDocument(text: string, v: Json) {
    exists a: nat, b: nat :: DocumentAt(text, v, a, b)
  }

  ghost predicate DocumentAt(text: string, v: Json, a: nat, b: nat) {
    a <= b <= |text| && Blank(text, 0, a) && IsText(text, a, b, v) && Blank(text, b, |text|)
  }

  lemma AcceptedIsDocument(text: string, limits: Limits, v: Json)
    requires Parse(text, limits) == Ok(v)
    ensures IsDocument(text, v)
  {
    hide ValueAt, SkipSpace, Blank, IsText;
    var a := SkipSpace(text, 0);
    SkippedIsBlank(text, 0);
    ValueIsText(text, a, 0, limits);
    var b := ValueAt(text, a, 0, limits).next;
    SkippedIsBlank(text, b);
    assert DocumentAt(text, v, a, b);
  }

  lemma DocumentIsAccepted(text: string, limits: Limits, v: Json)
    requires |text| <= limits.maxBytes && IsDocument(text, v) && Good(v, 0, limits) && !HoldsMinInt(v)
    ensures Parse(text, limits) == Ok(v)
  {
    hide ValueAt, SkipSpace, Blank, IsText;
    var a: nat, b: nat :| DocumentAt(text, v, a, b);
    TextStarts(text, a, b, v);
    BlankSkips(text, 0, a);
    BlankEnds(text, b, |text|);
    ValueIsRead(text, a, b, 0, limits, v);
    BlankSkips(text, b, |text|);
  }

  /** Accepted is what the grammar describes, with the value it gives, when text and value are within the limits. */
  lemma AcceptedExactlyWhen(text: string, limits: Limits, v: Json)
    ensures Parse(text, limits) == Ok(v) <==>
      |text| <= limits.maxBytes && IsDocument(text, v) && Good(v, 0, limits) && !HoldsMinInt(v)
  {
    hide IsDocument, Good, HoldsMinInt, ValueAt, SkipSpace;
    if Parse(text, limits) == Ok(v) {
      AcceptedIsDocument(text, limits, v);
      ParsedIsGood(text, SkipSpace(text, 0), 0, limits);
    } else if |text| <= limits.maxBytes && IsDocument(text, v) && Good(v, 0, limits) && !HoldsMinInt(v) {
      DocumentIsAccepted(text, limits, v);
    }
  }

  lemma PrintIsText(n: nat, text: string, v: Json)
    requires (text == Print(n) && v == UInt(n)) || (text == "-" + Print(n) && v == Int(0 - n))
    ensures IsDocument(text, v)
  {
    hide NumericValue, Print;
    ValueOfPrint(n);
    assert text == Print(n) ==> text[0..|text|] == Print(n) && IsDigit(text[0]);
    assert text == "-" + Print(n) ==> text[1..|text|] == Print(n);
    assert DocumentAt(text, v, 0, |text|);
  }

  /** Which integers a text can hold: up to 64 bits unsigned, and below zero all but the least of 64 bits signed. */
  lemma IntegersAccepted(n: nat, limits: Limits)
    requires |Print(n)| < limits.maxBytes
    ensures Parse(Print(n), limits) == Ok(UInt(n)) <==> n < 0x1_0000_0000_0000_0000
    ensures Parse("-" + Print(n), limits) == Ok(Int(0 - n)) <==> n < 0x8000_0000_0000_0000
  {
    PrintIsText(n, Print(n), UInt(n));
    PrintIsText(n, "-" + Print(n), Int(0 - n));
    AcceptedExactlyWhen(Print(n), limits, UInt(n));
    AcceptedExactlyWhen("-" + Print(n), limits, Int(0 - n));
    hide IsDocument, Parse, Print;
  }

  // ----- Limits only refuse -----

  predicate Wider(wide: Limits, limits: Limits) {
    && limits.maxBytes <= wide.maxBytes && limits.maxDepth <= wide.maxDepth
    && limits.maxString <= wide.maxString && limits.maxElements <= wide.maxElements
  }

  predicate SameOrLimited<T(==)>(r: Parsed<T>, wide: Parsed<T>) {
    r == Fail(LimitExceeded) || r == wide
  }

  lemma {:induction false} StringLimited(text: string, pos: nat, out: string, limits: Limits, wide: Limits)
    requires pos <= |text| && Wider(wide, limits)
    ensures SameOrLimited(StringRest(text, pos, out, limits), StringRest(text, pos, out, wide))
    decreases |text| - pos
  {
    hide StringPiece;
    if pos < |text| && text[pos] != '"' && StringPiece(text, pos).Got? {
      StringLimited(text, StringPiece(text, pos).next, out + StringPiece(text, pos).value, limits, wide);
    }
  }

  lemma {:induction false} ValueLimited(text: string, pos: nat, depth: nat, limits: Limits, wide: Limits)
    requires pos <= |text| && Wider(wide, limits)
    ensures SameOrLimited(ValueAt(text, pos, depth, limits), ValueAt(text, pos, depth, wide))
    decreases |text| - pos, 0
  {
    hide ItemsAt, MembersAt, StringRest, NumberAt, SkipSpace;
    if pos < |text| {
      var start := SkipSpace(text, pos + 1);
      ItemsLimited(text, start, depth, [], limits, wide);
      MembersLimited(text, start, depth, [], [], limits, wide);
      StringLimited(text, pos + 1, "", limits, wide);
    }
  }

  lemma {:induction false} ItemsLimited(text: string, pos: nat, depth: nat, items: seq<Json>, limits: Limits, wide: Limits)
    requires pos <= |text| && Wider(wide, limits)
    ensures SameOrLimited(ItemsAt(text, pos, depth, items, limits), ItemsAt(text, pos, depth, items, wide))
    decreases |text| - pos, 1
  {
    hide ValueAt, SkipSpace, AfterElement;
    ValueLimited(text, SkipSpace(text, pos), depth + 1, limits, wide);
    var v := ValueAt(text, SkipSpace(text, pos), depth + 1, limits);
    if v.Got? && AfterElement(text, v.next, ']').More? {
      ItemsLimited(text, AfterElement(text, v.next, ']').next, depth, items + [v.value], limits, wide);
    }
  }

  lemma {:induction false} MemberLimited(text: string, pos: nat, depth: nat, limits: Limits, wide: Limits)
    requires pos <= |text| && Wider(wide, limits)
    ensures SameOrLimited(MemberAt(text, pos, depth, limits), MemberAt(text, pos, depth, wide))
    decreases |text| - pos, 1
  {
    hide ValueAt, SkipSpace, StringRest;
    var start := SkipSpace(text, pos);
    if start < |text| { StringLimited(text, start + 1, "", limits, wide); }
    var key := StringAt(text, start, limits);
    if key.Got? && SkipSpace(text, key.next) < |text| {
      ValueLimited(text, SkipSpace(text, SkipSpace(text, key.next) + 1), depth + 1, limits, wide);
    }
  }

  lemma {:induction false} MembersLimited(text: string, pos: nat, depth: nat, keys: seq<string>, values: seq<Json>, limits: Limits, wide: Limits)
    requires pos <= |text| && |keys| == |values| && Wider(wide, limits)
    ensures SameOrLimited(MembersAt(text, pos, depth, keys, values, limits), MembersAt(text, pos, depth, keys, values, wide))
    decreases |text| - pos, 2
  {
    hide MemberAt, SkipSpace, AfterElement, HasKey, SetMember;
    MemberLimited(text, pos, depth, limits, wide);
    var m := MemberAt(text, pos, depth, limits);
    if m.Got? && AfterElement(text, m.next, '}').More? {
      var (ks, vs) := SetMember(keys, values, m.value.0, m.value.1);
      MembersLimited(text, AfterElement(text, m.next, '}').next, depth, ks, vs, limits, wide);
    }
  }

  /** Under narrower limits the answer is the same, or that a limit is exceeded. */
  lemma LimitsOnlyRefuse(text: string, limits: Limits, wide: Limits)
    requires Wider(wide, limits)
    ensures Parse(text, limits) == Err(LimitExceeded) || Parse(text, limits) == Parse(text, wide)
  {
    hide ValueAt, SkipSpace;
    ValueLimited(text, SkipSpace(text, 0), 0, limits, wide);
  }
}
