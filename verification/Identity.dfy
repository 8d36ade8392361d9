/** Digests and generation identifiers as text (src/identity.cpp). */
module Identity {
  import opened SemVer
  import opened Decimal
  import opened Bytes
  import opened VersionText
  import opened Rules

  const U64_BOUND: nat := 0x1_0000_0000_0000_0000
  const DIGEST_SIZE: nat := 32

  // ----- Hexadecimal -----

  function HexDigit(v: nat): char
    requires v < 16
  {
    if v < 10 then (v + '0' as int) as char else (v - 10 + 'a' as int) as char
  }

  /** Both cases are read. */
  function HexValue(c: char): (v: Option<nat>)
    ensures v.Some? ==> v.value < 16
  {
    if '0' <= c <= '9' then Some(c as int - '0' as int)
    else if 'a' <= c <= 'f' then Some(c as int - 'a' as int + 10)
    else if 'A' <= c <= 'F' then Some(c as int - 'A' as int + 10)
    else None
  }

  function Lower(c: char): char {
    if 'A' <= c <= 'F' then (c as int - 'A' as int + 'a' as int) as char else c
  }

  lemma HexDigitReads(v: nat)
    requires v < 16
    ensures HexValue(HexDigit(v)) == Some(v)
  {
  }

  lemma HexValuePrints(c: char)
    requires HexValue(c).Some?
    ensures HexDigit(HexValue(c).value) == Lower(c)
  {
  }

  function ByteHex(b: byte): (s: string)
    ensures |s| == 2
  {
    [HexDigit(ValueOf(b) / 16), HexDigit(ValueOf(b) % 16)]
  }

  function ToHex(bytes: seq<byte>): (s: string)
    ensures |s| == 2 * |bytes|
  {
    if bytes == [] then "" else ToHex(bytes[..|bytes| - 1]) + ByteHex(bytes[|bytes| - 1])
  }

  function HexByte(hi: char, lo: char): Option<byte> {
    if HexValue(hi).None? || HexValue(lo).None? then None else Some(ByteOf(HexValue(hi).value * 16 + HexValue(lo).value))
  }

  function ReadHex(hex: string): (bytes: Option<seq<byte>>)
    requires |hex| % 2 == 0
    ensures bytes.Some? ==> 2 * |bytes.value| == |hex|
  {
    if hex == "" then Some([])
    else
      var front, last := ReadHex(hex[..|hex| - 2]), HexByte(hex[|hex| - 2], hex[|hex| - 1]);
      if front.None? || last.None? then None else Some(front.value + [last.value])
  }

  function FromHex(hex: string): Option<seq<byte>> {
    if |hex| != 2 * DIGEST_SIZE then None else ReadHex(hex)
  }

  /** The loop over the pairs of characters. */
  method ParseHex(hex: string) returns (digest: Option<seq<byte>>)
    ensures digest == FromHex(hex)
  {
    if |hex| != 2 * DIGEST_SIZE { return None; }
    hide HexByte, HexValue, ReadHex;
    var bytes: seq<byte> := [];
    NothingReads(hex);
    for i := 0 to DIGEST_SIZE
      invariant ReadUpTo(hex, i) == Some(bytes)
    {
      ReadHexGrows(hex, i);
      var b := HexByte(hex[2 * i], hex[2 * i + 1]);
      if b.None? {
        BadPairSpoils(hex, 2 * (i + 1));
        return None;
      }
      bytes := bytes + [b.value];
    }
    assert hex[..2 * DIGEST_SIZE] == hex;
    return Some(bytes);
  }

  /** The first i bytes. */
  ghost function ReadUpTo(hex: string, i: nat): Option<seq<byte>>
    requires 2 * i <= |hex|
  {
    ReadHex(hex[..2 * i])
  }

  lemma NothingReads(hex: string)
    ensures ReadUpTo(hex, 0) == Some([])
  {
    assert hex[..0] == "";
  }

  lemma ReadHexGrows(hex: string, i: nat)
    requires 2 * i + 2 <= |hex| && ReadUpTo(hex, i).Some?
    ensures ReadUpTo(hex, i + 1) ==
      if HexByte(hex[2 * i], hex[2 * i + 1]).None? then None
      else Some(ReadUpTo(hex, i).value + [HexByte(hex[2 * i], hex[2 * i + 1]).value])
  {
    hide HexByte;
    assert hex[..2 * i + 2][..2 * i] == hex[..2 * i];
  }

  lemma {:induction false} BadPairSpoils(hex: string, n: nat)
    requires n % 2 == 0 && n <= |hex| && |hex| % 2 == 0 && ReadHex(hex[..n]).None?
    ensures ReadHex(hex).None?
  {
    if n == |hex| {
      assert hex[..n] == hex;
    } else {
      assert hex[..|hex| - 2][..n] == hex[..n];
      BadPairSpoils(hex[..|hex| - 2], n);
    }
  }

  lemma ByteHexReads(b: byte)
    ensures HexByte(ByteHex(b)[0], ByteHex(b)[1]) == Some(b)
  {
    HexDigitReads(ValueOf(b) / 16);
    HexDigitReads(ValueOf(b) % 16);
    ValueRoundTrip(b);
  }

  lemma {:induction false} ReadOfHex(bytes: seq<byte>)
    ensures ReadHex(ToHex(bytes)) == Some(bytes)
  {
    if bytes != [] {
      var n := |bytes| - 1;
      ReadOfHex(bytes[..n]);
      ByteHexReads(bytes[n]);
      hide HexByte, ByteHex;
      var s := ToHex(bytes);
      assert s[..|s| - 2] == ToHex(bytes[..n]);
      assert bytes == bytes[..n] + [bytes[n]];
    }
  }

  /** A digest's text reads back to the digest. */
  lemma DigestRoundTrip(digest: seq<byte>)
    requires |digest| == DIGEST_SIZE
    ensures FromHex(ToHex(digest)) == Some(digest)
  {
    ReadOfHex(digest);
  }

  lemma HexByteAppends(front: seq<byte>, hi: char, lo: char)
    requires HexByte(hi, lo).Some?
    ensures ToHex(front + [HexByte(hi, lo).value]) == ToHex(front) + [Lower(hi), Lower(lo)]
  {
    HexValuePrints(hi);
    HexValuePrints(lo);
    var x, y := HexValue(hi).value, HexValue(lo).value;
    assert (x * 16 + y) / 16 == x && (x * 16 + y) % 16 == y;
    var all := front + [HexByte(hi, lo).value];
    assert all[..|all| - 1] == front;
  }

  /** Reading and printing again only lowers the case of the letters. */
  lemma {:induction false} HexOfRead(hex: string)
    requires |hex| % 2 == 0 && ReadHex(hex).Some?
    ensures |ToHex(ReadHex(hex).value)| == |hex|
    ensures forall i :: 0 <= i < |hex| ==> ToHex(ReadHex(hex).value)[i] == Lower(hex[i])
  {
    if hex != "" {
      var n := |hex| - 2;
      HexOfRead(hex[..n]);
      hide HexByte, Lower, ToHex;
      HexByteAppends(ReadHex(hex[..n]).value, hex[n], hex[n + 1]);
    }
  }

  // ----- Generation numbers -----

  datatype NumberResult = NotDecimal | TooLarge | Number(n: nat)

  /** One digit more; the check looks at the number before the digit, then the sum wraps at 2^64. */
  function AddDigit(n: nat, c: char): NumberResult {
    if !IsDigit(c) then NotDecimal
    else if n > (U64_BOUND - 1) / 10 then TooLarge
    else Number((n * 10 + DigitValue(c)) % U64_BOUND)
  }

  function ReadNumber(s: string): NumberResult {
    if s == "" then Number(0)
    else
      var front := ReadNumber(s[..|s| - 1]);
      if !front.Number? then front else AddDigit(front.n, s[|s| - 1])
  }

  /** Numbers below 2^64 are read as they stand. */
  lemma {:induction false} SmallNumbersRead(s: string)
    requires Digits(s) && NumericValue(s) < U64_BOUND
    ensures ReadNumber(s) == Number(NumericValue(s))
  {
    if s != "" {
      SmallNumbersRead(s[..|s| - 1]);
    }
  }

  /** What the digits should be read as. */
  function RightReading(s: string): NumberResult
    requires Digits(s)
  {
    if NumericValue(s) < U64_BOUND then Number(NumericValue(s)) else TooLarge
  }

  /** The four values that slip through the overflow check. */
  predicate SlipsThrough(v: nat) {
    U64_BOUND <= v <= U64_BOUND + 3
  }

  lemma TwentyDigits()
    ensures Pow10(19) < U64_BOUND
  {
    assert Pow10(5) == 100_000 by { assert Pow10(3) == 1000; }
    assert Pow10(9) == 1_000_000_000 by { assert Pow10(7) == 10_000_000; }
    assert Pow10(13) == 10_000_000_000_000 by { assert Pow10(11) == 100_000_000_000; }
    assert Pow10(17) == 100_000_000_000_000_000 by { assert Pow10(15) == 1_000_000_000_000_000; }
  }

  /**
   * Up to twenty digits, the number is read or refused as it should be exactly when it is not
   * one of the four above 2^64 - 1 that the check misses.
   */
  lemma ShortRightIffNotSlipped(s: string)
    requires Digits(s) && |s| <= 20
    ensures ReadNumber(s) == RightReading(s) <==> !SlipsThrough(NumericValue(s))
  {
    if NumericValue(s) < U64_BOUND {
      SmallNumbersRead(s);
    } else {
      var front := s[..|s| - 1];
      NumericValueBound(front);
      Pow10Grows(|front|, 19);
      TwentyDigits();
      SmallNumbersRead(front);
      hide AddDigit, Pow10;
      DigitOutcome(NumericValue(front), s[|s| - 1]);
    }
  }

  lemma DigitOutcome(v: nat, c: char)
    requires IsDigit(c) && v < U64_BOUND
    ensures var w := v * 10 + DigitValue(c);
      AddDigit(v, c) == (if w < U64_BOUND then Number(w) else TooLarge) <==> !SlipsThrough(w)
  {
  }

  /** Those four are read as 0 to 3. */
  lemma SlippedIsRead(s: string)
    requires Digits(s) && SlipsThrough(NumericValue(s))
    ensures ReadNumber(s) == Number(NumericValue(s) - U64_BOUND)
  {
    SmallNumbersRead(s[..|s| - 1]);
    hide AddDigit;
    DigitSlips(NumericValue(s[..|s| - 1]), s[|s| - 1]);
  }

  lemma DigitSlips(v: nat, c: char)
    requires IsDigit(c) && SlipsThrough(v * 10 + DigitValue(c))
    ensures v < U64_BOUND && AddDigit(v, c) == Number(v * 10 + DigitValue(c) - U64_BOUND)
  {
  }

  /** Whatever the length, a number too large is read only past a prefix that slipped through. */
  lemma {:induction false} TooLargeNeedsSlip(s: string) returns (k: nat)
    requires Digits(s) && NumericValue(s) >= U64_BOUND && ReadNumber(s).Number?
    ensures k <= |s| && SlipsThrough(NumericValue(s[..k]))
  {
    var front := s[..|s| - 1];
    if NumericValue(front) >= U64_BOUND {
      k := TooLargeNeedsSlip(front);
      assert front[..k] == s[..k];
    } else {
      SmallNumbersRead(front);
      hide AddDigit;
      DigitOutcome(NumericValue(front), s[|s| - 1]);
      k := |s|;
      assert s[..k] == s;
    }
  }

  /** The reading after a prefix that slipped: its place is taken by what it was read as. */
  function Resumed(s: string, k: nat): (t: string)
    requires Digits(s) && 1 < k <= |s| && SlipsThrough(NumericValue(s[..k]))
    ensures Digits(t) && |t| < |s|
  {
    [DigitChar(NumericValue(s[..k]) - U64_BOUND)] + s[k..]
  }

  /** Some prefix slips, and what follows it stays in range or slips again. */
  predicate Slips(s: string)
    requires Digits(s)
    decreases |s|
  {
    exists k | 1 < k <= |s| :: SlipsThrough(NumericValue(s[..k])) && SlipsOn(s, k)
  }

  predicate SlipsOn(s: string, k: nat)
    requires Digits(s) && 1 < k <= |s| && SlipsThrough(NumericValue(s[..k]))
    decreases |s|, 0
  {
    NumericValue(Resumed(s, k)) < U64_BOUND || Slips(Resumed(s, k))
  }

  lemma {:induction false} SameFromHere(p: string, q: string, tail: string)
    requires ReadNumber(p) == ReadNumber(q)
    ensures ReadNumber(p + tail) == ReadNumber(q + tail)
  {
    if tail == "" {
      assert p + tail == p && q + tail == q;
    } else {
      var n := |tail| - 1;
      SameFromHere(p, q, tail[..n]);
      assert (p + tail)[..|p| + n] == p + tail[..n] && (q + tail)[..|q| + n] == q + tail[..n];
    }
  }

  lemma DigitReads(n: nat)
    requires n < 10
    ensures ReadNumber([DigitChar(n)]) == Number(n)
  {
    assert [DigitChar(n)][..0] == "";
  }

  lemma ResumedReads(s: string, k: nat)
    requires Digits(s) && 1 < k <= |s| && SlipsThrough(NumericValue(s[..k]))
    ensures ReadNumber(Resumed(s, k)) == ReadNumber(s)
  {
    var digit := [DigitChar(NumericValue(s[..k]) - U64_BOUND)];
    SlippedIsRead(s[..k]);
    DigitReads(NumericValue(s[..k]) - U64_BOUND);
    hide ReadNumber, NumericValue;
    SameFromHere(s[..k], digit, s[k..]);
    assert s == s[..k] + s[k..];
  }

  lemma {:induction false} PrefixIsSmaller(s: string, k: nat)
    requires Digits(s) && k <= |s|
    ensures NumericValue(s[..k]) <= NumericValue(s)
  {
    if k == |s| {
      assert s[..k] == s;
    } else {
      PrefixIsSmaller(s[..|s| - 1], k);
      assert s[..|s| - 1][..k] == s[..k];
    }
  }

  lemma {:induction false} DigitsAreDecimal(s: string)
    requires Digits(s)
    ensures !ReadNumber(s).NotDecimal?
  {
    if s != "" { DigitsAreDecimal(s[..|s| - 1]); }
  }

  lemma TooShortToSlip(s: string)
    requires Digits(s) && |s| <= 1
    ensures NumericValue(s) < 10
  {
    NumericValueBound(s);
    assert Pow10(0) == 1 && Pow10(1) == 10;
  }

  lemma {:induction false} SlippedIsNotRefused(s: string)
    requires Digits(s) && Slips(s)
    ensures ReadNumber(s).Number? && NumericValue(s) >= U64_BOUND
    decreases |s|
  {
    hide ReadNumber, NumericValue, Resumed;
    var k :| 1 < k <= |s| && SlipsThrough(NumericValue(s[..k])) && SlipsOn(s, k);
    PrefixIsSmaller(s, k);
    ResumedReads(s, k);
    if NumericValue(Resumed(s, k)) < U64_BOUND {
      SmallNumbersRead(Resumed(s, k));
    } else {
      SlippedIsNotRefused(Resumed(s, k));
    }
  }

  lemma {:induction false} NotRefusedSlips(s: string)
    requires Digits(s) && ReadNumber(s).Number? && NumericValue(s) >= U64_BOUND
    ensures Slips(s)
    decreases |s|
  {
    hide ReadNumber, NumericValue, Resumed;
    var k := TooLargeNeedsSlip(s);
    if k <= 1 { TooShortToSlip(s[..k]); }
    ResumedReads(s, k);
    if NumericValue(Resumed(s, k)) >= U64_BOUND { NotRefusedSlips(Resumed(s, k)); }
    assert SlipsOn(s, k);
  }

  /** Of any number of digits, a number is read or refused as it should be exactly when it does not slip. */
  lemma RightIffNotSlipped(s: string)
    requires Digits(s)
    ensures ReadNumber(s) == RightReading(s) <==> !Slips(s)
  {
    hide ReadNumber, NumericValue, Slips;
    DigitsAreDecimal(s);
    if Slips(s) { SlippedIsNotRefused(s); }
    if NumericValue(s) < U64_BOUND {
      SmallNumbersRead(s);
    } else if ReadNumber(s).Number? {
      NotRefusedSlips(s);
    }
  }

  // ----- Generation identifiers -----

  datatype GenerationId = GenerationId(number: nat, digest: seq<byte>)

  datatype IdResult = Malformed | OutOfRange | ParsedId(id: GenerationId)

  function ToString(id: GenerationId): string {
    "gen-" + Print(id.number) + ":" + ToHex(id.digest)
  }

  function ParseGenerationId(text: string): IdResult {
    if |text| < 8 || text[..4] != "gen-" then Malformed
    else
      var colon := FindFrom(text, ':', 0);
      if colon.None? || colon.value <= 4 then Malformed
      else
        var number := ReadNumber(text[4..colon.value]);
        if number.NotDecimal? then Malformed
        else if number.TooLarge? then OutOfRange
        else
          var digest := FromHex(text[colon.value + 1..]);
          if digest.None? then Malformed else ParsedId(GenerationId(number.n, digest.value))
  }

  lemma {:induction false} ReadingStops(s: string, n: nat)
    requires n <= |s| && !ReadNumber(s[..n]).Number?
    ensures ReadNumber(s) == ReadNumber(s[..n])
  {
    if n == |s| {
      assert s[..n] == s;
    } else {
      assert s[..|s| - 1][..n] == s[..n];
      ReadingStops(s[..|s| - 1], n);
    }
  }

  /** The parse as it runs, digit by digit. */
  method Parse(text: string) returns (r: IdResult)
    ensures r == ParseGenerationId(text)
  {
    if |text| < 8 || text[..4] != "gen-" { return Malformed; }
    var colon := FindFrom(text, ':', 0);
    if colon.None? || colon.value <= 4 { return Malformed; }
    var number: nat := 0;
    ghost var digits := text[4..colon.value];
    for i := 4 to colon.value
      invariant ReadNumber(digits[..i - 4]) == Number(number)
    {
      assert digits[..i - 3][..i - 4] == digits[..i - 4] && digits[i - 4] == text[i];
      if !IsDigit(text[i]) {
        ReadingStops(digits, i - 3);
        return Malformed;
      }
      if number > (U64_BOUND - 1) / 10 {
        ReadingStops(digits, i - 3);
        return OutOfRange;
      }
      number := (number * 10 + DigitValue(text[i])) % U64_BOUND;
    }
    assert digits[..|digits|] == digits;
    var digest := ParseHex(text[colon.value + 1..]);
    if digest.None? { return Malformed; }
    return ParsedId(GenerationId(number, digest.value));
  }

  lemma TextReads(digits: string, n: nat, digest: seq<byte>)
    requires Digits(digits) && digits != "" && ReadNumber(digits) == Number(n) && |digest| == DIGEST_SIZE
    ensures ParseGenerationId("gen-" + digits + ":" + ToHex(digest)) == ParsedId(GenerationId(n, digest))
  {
    DigestRoundTrip(digest);
    hide ToHex, ReadNumber, FromHex, FindFrom;
    var front, hex := "gen-" + digits, ToHex(digest);
    DigitsAvoid(digits, ':');
    assert ':' !in front;
    FindInFront(front, ':', hex);
    var text := "gen-" + digits + ":" + hex;
    assert text == front + [':'] + hex;
    assert text[..4] == "gen-" && text[4..|front|] == digits && text[|front| + 1..] == hex;
  }

  /** A generation's text reads back to the generation. */
  lemma RoundTrip(id: GenerationId)
    requires id.number < U64_BOUND && |id.digest| == DIGEST_SIZE
    ensures ParseGenerationId(ToString(id)) == ParsedId(id)
  {
    ValueOfPrint(id.number);
    SmallNumbersRead(Print(id.number));
    TextReads(Print(id.number), id.number, id.digest);
  }

  /** The texts of the four numbers that slip through are accepted, as generations 0 to 3. */
  lemma SlippedIdIsAccepted(n: nat, digest: seq<byte>)
    requires SlipsThrough(n) && |digest| == DIGEST_SIZE
    ensures ParseGenerationId(ToString(GenerationId(n, digest))) == ParsedId(GenerationId(n - U64_BOUND, digest))
  {
    ValueOfPrint(n);
    SlippedIsRead(Print(n));
    TextReads(Print(n), n - U64_BOUND, digest);
  }

  /** The prefix, at least one digit, a colon and 64 hex digits of either case. */
  predicate IsIdText(text: string, id: GenerationId, digits: string, hex: string) {
    && text == "gen-" + digits + ":" + hex && digits != "" && Digits(digits)
    && ReadNumber(digits) == Number(id.number) && FromHex(hex) == Some(id.digest)
  }

  lemma {:induction false} ReadNumbersAreDigits(s: string)
    requires ReadNumber(s).Number?
    ensures Digits(s)
  {
    if s != "" {
      ReadNumbersAreDigits(s[..|s| - 1]);
      assert s == s[..|s| - 1] + [s[|s| - 1]];
    }
  }

  /** An identifier is accepted exactly when it is such a text. */
  lemma AcceptedIdIff(text: string, id: GenerationId)
    ensures ParseGenerationId(text) == ParsedId(id) <==> exists digits, hex :: IsIdText(text, id, digits, hex)
  {
    hide ReadNumber, FromHex, FindFrom;
    if ParseGenerationId(text) == ParsedId(id) {
      var colon := FindFrom(text, ':', 0).value;
      var digits, hex := text[4..colon], text[colon + 1..];
      ReadNumbersAreDigits(digits);
      assert text == "gen-" + digits + ":" + hex;
      assert IsIdText(text, id, digits, hex);
    }
    if digits, hex :| IsIdText(text, id, digits, hex) {
      HexIsLong(hex);
      var front := "gen-" + digits;
      DigitsAvoid(digits, ':');
      assert ':' !in front && text == front + [':'] + hex;
      FindInFront(front, ':', hex);
      assert text[..4] == "gen-" && text[4..|front|] == digits && text[|front| + 1..] == hex;
    }
  }

  lemma HexIsLong(hex: string)
    requires FromHex(hex).Some?
    ensures |hex| == 64
  {
    hide ReadHex;
  }
}
