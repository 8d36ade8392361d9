/** What the escapes in a JSON string stand for, independent of the printer (src/json.cpp; section 7 of RFC 8259, section 3 of RFC 3629). */
module JsonText {
  import opened Json

  // ----- UTF-8, read from the lead byte -----

  predicate IsLater(c: char) {
    0x80 <= c as int <= 0xBF
  }

  function Later(c: char): nat
    requires IsLater(c)
  {
    c as int - 0x80
  }

  /** The code point that a well-formed sequence encodes. */
  function CodePointOf(s: string): (codePoint: int) {
    if |s| == 1 && s[0] as int < 0x80 then s[0] as int
    else if |s| == 2 && 0xC0 <= s[0] as int <= 0xDF && IsLater(s[1]) then (s[0] as int - 0xC0) * 0x40 + Later(s[1])
    else if |s| == 3 && 0xE0 <= s[0] as int <= 0xEF && IsLater(s[1]) && IsLater(s[2]) then
      (s[0] as int - 0xE0) * 0x1000 + Later(s[1]) * 0x40 + Later(s[2])
    else if |s| == 4 && 0xF0 <= s[0] as int <= 0xF7 && IsLater(s[1]) && IsLater(s[2]) && IsLater(s[3]) then
      (s[0] as int - 0xF0) * 0x4_0000 + Later(s[1]) * 0x1000 + Later(s[2]) * 0x40 + Later(s[3])
    else -1
  }

  lemma Sextets(n: nat)
    ensures n == n / 0x40 * 0x40 + n % 0x40
    ensures n == n / 0x1000 * 0x1000 + n / 0x40 % 0x40 * 0x40 + n % 0x40
    ensures n == n / 0x4_0000 * 0x4_0000 + n / 0x1000 % 0x40 * 0x1000 + n / 0x40 % 0x40 * 0x40 + n % 0x40
  {
    assert n / 0x1000 == n / 0x40 / 0x40 && n / 0x4_0000 == n / 0x1000 / 0x40;
  }

  lemma LaterByte(n: nat)
    requires n < 0x40
    ensures IsLater(Byte(0x80 + n)) && Later(Byte(0x80 + n)) == n
  {
  }

  /** Every code point is encoded, in the shortest form, so that it can be read back. */
  lemma Utf8Decodes(codePoint: nat)
    requires codePoint < 0x11_0000
    ensures CodePointOf(Utf8(codePoint)) == codePoint
    ensures |Utf8(codePoint)| ==
      if codePoint < 0x80 then 1 else if codePoint < 0x800 then 2 else if codePoint < 0x1_0000 then 3 else 4
  {
    Sextets(codePoint);
    LaterByte(codePoint % 0x40);
    LaterByte(codePoint / 0x40 % 0x40);
    LaterByte(codePoint / 0x1000 % 0x40);
    hide IsLater, Later;
    var s := Utf8(codePoint);
    if codePoint < 0x80 {
    } else if codePoint < 0x800 {
      assert s[0] as int == 0xC0 + codePoint / 0x40;
    } else if codePoint < 0x1_0000 {
      assert s[0] as int == 0xE0 + codePoint / 0x1000;
    } else {
      assert s[0] as int == 0xF0 + codePoint / 0x4_0000;
    }
  }

  // ----- Hexadecimal digits -----

  const LOWER_DIGITS: string := "0123456789abcdef"
  const UPPER_DIGITS: string := "0123456789ABCDEF"

  /** The digits of both cases, and no other characters. */
  lemma HexDigitMeaning(c: char)
    ensures IsHex(c) <==> c in LOWER_DIGITS || c in UPPER_DIGITS
    ensures forall k :: 0 <= k < 16 && (LOWER_DIGITS[k] == c || UPPER_DIGITS[k] == c) ==> HexValue(c) == k
  {
    if '0' <= c <= '9' {
      assert LOWER_DIGITS[c as int - '0' as int] == c;
    } else if 'a' <= c <= 'f' {
      assert LOWER_DIGITS[c as int - 'a' as int + 10] == c;
    } else if 'A' <= c <= 'F' {
      assert UPPER_DIGITS[c as int - 'A' as int + 10] == c;
    }
  }

  /** A sixteen-bit unit as four digits of either case. */
  predicate Spells(digits: string, unit: nat) {
    && |digits| == 4 && (forall i :: 0 <= i < 4 ==> IsHex(digits[i]))
    && unit == 0x1000 * HexValue(digits[0]) + 0x100 * HexValue(digits[1]) + 0x10 * HexValue(digits[2]) + HexValue(digits[3])
  }

  lemma UnitReads(front: string, digits: string, rest: string, unit: nat)
    requires Spells(digits, unit)
    ensures Hex4(front + digits + rest, |front|) == Got(unit, |front| + 4)
  {
    hide HexValue, IsHex;
    var text := front + digits + rest;
    assert forall i :: 0 <= i < 4 ==> text[|front| + i] == digits[i];
  }

  /** Fewer than four digits are refused. */
  lemma NotFourDigits(text: string, pos: nat)
    requires pos <= |text| && (|text| < pos + 4 || exists i :: pos <= i < pos + 4 && !IsHex(text[i]))
    ensures UnicodeEscape(text, pos).Fail?
  {
  }

  // ----- Units and surrogate pairs -----

  predicate IsHigh(unit: nat) {
    0xD800 <= unit < 0xDC00
  }

  predicate IsLow(unit: nat) {
    0xDC00 <= unit < 0xE000
  }

  /** A unit that is no surrogate stands for the code point of its value. */
  lemma UnitMeaning(front: string, digits: string, rest: string, unit: nat)
    requires Spells(digits, unit) && !IsHigh(unit) && !IsLow(unit)
    ensures UnicodeEscape(front + digits + rest, |front|) == Got(Utf8(unit), |front| + 4)
  {
    hide Spells, Utf8;
    assert unit < 0x1_0000 by { UnitReads(front, digits, rest, unit); }
    UnitReads(front, digits, rest, unit);
    hide Hex4;
  }

  /** The code point beyond sixteen bits that two surrogates name. */
  function Joined(high: nat, low: nat): nat
    requires IsHigh(high) && IsLow(low)
  {
    0x1_0000 + (high % 0x400) * 0x400 + low % 0x400
  }

  /** Every such code point has its pair, so any of them can be written. */
  lemma PairsReachAll(codePoint: nat) returns (high: nat, low: nat)
    requires 0x1_0000 <= codePoint < 0x11_0000
    ensures IsHigh(high) && IsLow(low) && Joined(high, low) == codePoint
  {
    high, low := 0xD800 + (codePoint - 0x1_0000) / 0x400, 0xDC00 + (codePoint - 0x1_0000) % 0x400;
  }

  lemma PairReads(front: string, first: string, second: string, rest: string, high: nat, low: nat)
    requires Spells(first, high) && Spells(second, low)
    ensures var text := front + first + "\\u" + second + rest;
      && Hex4(text, |front|) == Got(high, |front| + 4) && Hex4(text, |front| + 6) == Got(low, |front| + 10)
      && text[|front| + 4] == '\\' && text[|front| + 5] == 'u'
  {
    var text := front + first + "\\u" + second + rest;
    assert text == front + first + ("\\u" + second + rest);
    UnitReads(front, first, "\\u" + second + rest, high);
    assert text == (front + first + "\\u") + second + rest;
    UnitReads(front + first + "\\u", second, rest, low);
    hide Hex4;
    assert |first| == 4;
    hide Spells;
  }

  lemma PairMeaning(front: string, first: string, second: string, rest: string, high: nat, low: nat)
    requires Spells(first, high) && Spells(second, low) && IsHigh(high) && IsLow(low)
    ensures Joined(high, low) < 0x11_0000
    ensures UnicodeEscape(front + first + "\\u" + second + rest, |front|) == Got(Utf8(Joined(high, low)), |front| + 10)
  {
    hide Utf8, Hex4, Spells;
    PairReads(front, first, second, rest, high, low);
    JoinedIs(high, low);
    hide Joined;
  }

  lemma JoinedIs(high: nat, low: nat)
    requires IsHigh(high) && IsLow(low)
    ensures Joined(high, low) == 0x1_0000 + (high - 0xD800) * 1024 + (low - 0xDC00) < 0x11_0000
  {
  }

  /** A low surrogate first, or a high one without a low one right after it, is refused. */
  lemma LoneSurrogate(front: string, digits: string, rest: string, unit: nat)
    requires Spells(digits, unit)
    requires IsLow(unit) || (IsHigh(unit) && (|rest| < 6 || rest[0] != '\\' || rest[1] != 'u' || Hex4(rest, 2).Fail? || !IsLow(Hex4(rest, 2).value)))
    ensures UnicodeEscape(front + digits + rest, |front|).Fail?
  {
    UnitReads(front, digits, rest, unit);
    var text := front + digits + rest;
    if IsHigh(unit) && |rest| >= 2 && rest[0] == '\\' && rest[1] == 'u' {
      Hex4Shifts(front + digits, rest, 2);
    }
    hide Hex4, Spells;
    assert forall i :: 0 <= i < |rest| ==> text[|front| + 4 + i] == rest[i];
  }

  lemma Hex4Shifts(front: string, rest: string, pos: nat)
    requires pos <= |rest|
    ensures Hex4(rest, pos).Fail? ==> Hex4(front + rest, |front| + pos).Fail?
    ensures Hex4(rest, pos).Got? ==> Hex4(front + rest, |front| + pos) == Got(Hex4(rest, pos).value, |front| + pos + 4)
  {
    hide HexValue, IsHex;
    assert forall i :: 0 <= i < |rest| ==> (front + rest)[|front| + i] == rest[i];
  }

  // ----- Other escapes -----

  /** The characters that may follow a backslash, but for `u`, and the codes they stand for. */
  const SHORT_ESCAPES: map<char, nat> :=
    map['"' := 0x22, '\\' := 0x5C, '/' := 0x2F, 'b' := 0x08, 'f' := 0x0C, 'n' := 0x0A, 'r' := 0x0D, 't' := 0x09]

  lemma EscapeMeaning(text: string, pos: nat)
    requires pos <= |text|
    ensures pos == |text| ==> Escape(text, pos).Fail?
    ensures pos < |text| && text[pos] in SHORT_ESCAPES ==> Escape(text, pos) == Got([SHORT_ESCAPES[text[pos]] as char], pos + 1)
    ensures pos < |text| && text[pos] == 'u' ==> Escape(text, pos) == UnicodeEscape(text, pos + 1)
    ensures pos < |text| && text[pos] !in SHORT_ESCAPES && text[pos] != 'u' ==> Escape(text, pos).Fail?
  {
    hide UnicodeEscape;
  }

  /** Control characters must be escaped; every other character but quote and backslash stands for itself. */
  lemma PieceMeaning(text: string, pos: nat)
    requires pos < |text|
    ensures text[pos] as int < 0x20 ==> StringPiece(text, pos).Fail?
    ensures text[pos] == '\\' ==> StringPiece(text, pos) == Escape(text, pos + 1)
    ensures text[pos] as int >= 0x20 && text[pos] != '\\' ==> StringPiece(text, pos) == Got([text[pos]], pos + 1)
  {
    hide Escape;
  }
}
