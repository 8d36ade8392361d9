/** Nanosecond timestamps as RFC 3339 text and back (src/identity.cpp; section 5.6 of RFC 3339). */
module Timestamp {
  import opened Calendar
  import opened Decimal
  import opened Rules
  import opened SemVer

  const NANOS_PER_SECOND: nat := 1_000_000_000
  const SECONDS_PER_DAY: nat := 86400
  const MIN_I64: int := -0x8000_0000_0000_0000
  const MAX_I64: int := 0x7FFF_FFFF_FFFF_FFFF

  predicate InI64(n: int) {
    MIN_I64 <= n <= MAX_I64
  }

  /** Division toward zero with the remainder moved up to be non-negative. */
  function FloorParts(n: int, unit: nat): (int, int)
    requires unit > 0
  {
    var q, r := Quotient(n, unit), Remainder(n, unit);
    if r < 0 then (q - 1, r + unit) else (q, r)
  }

  // ----- Printing -----

  function DateText(d: Date): string
    requires 0 <= d.year && 0 <= d.month && 0 <= d.day
  {
    Padded(d.year, 4) + "-" + Padded(d.month, 2) + "-" + Padded(d.day, 2)
  }

  function ClockText(second: nat): string {
    Padded(second / 3600, 2) + ":" + Padded(second % 3600 / 60, 2) + ":" + Padded(second % 60, 2)
  }

  function ToIso8601(nanos: int): string
    requires InI64(nanos)
  {
    var (seconds, fraction) := FloorParts(nanos, NANOS_PER_SECOND);
    var (days, second) := FloorParts(seconds, SECONDS_PER_DAY);
    PartsInRange(nanos);
    DateText(CivilFromDays(days)) + "T" + ClockText(second) + "." + Padded(fraction, 9) + "Z"
  }

  lemma FloorPartsAreFloor(n: int, unit: nat)
    requires unit > 0
    ensures var (q, r) := FloorParts(n, unit); n == q * unit + r && 0 <= r < unit
  {
  }

  /** In the 64-bit range the year has four digits. */
  lemma PartsInRange(nanos: int)
    requires InI64(nanos)
    ensures var (seconds, fraction) := FloorParts(nanos, NANOS_PER_SECOND);
      var (days, second) := FloorParts(seconds, SECONDS_PER_DAY);
      && 0 <= fraction < NANOS_PER_SECOND && 0 <= second < SECONDS_PER_DAY
      && -106752 <= days <= 106751
      && nanos == seconds * NANOS_PER_SECOND + fraction && seconds == days * SECONDS_PER_DAY + second
      && -9223372037 <= seconds <= 9223372036
      && 1600 <= CivilFromDays(days).year <= 2400 && 1 <= CivilFromDays(days).month <= 12 && 1 <= CivilFromDays(days).day <= 31
  {
    hide CivilFromDays, IsSplit, DateIn, Joined;
    var (seconds, fraction) := FloorParts(nanos, NANOS_PER_SECOND);
    FloorPartsAreFloor(nanos, NANOS_PER_SECOND);
    FloorPartsAreFloor(seconds, SECONDS_PER_DAY);
    var (days, second) := FloorParts(seconds, SECONDS_PER_DAY);
    YearNear(days);
  }

  lemma YearNear(days: int)
    requires -106752 <= days <= 106751
    ensures 1600 <= CivilFromDays(days).year <= 2400 && 1 <= CivilFromDays(days).month <= 12 && 1 <= CivilFromDays(days).day <= 31
  {
    hide CivilFromDays, DateIn;
    var era, s := CivilOf(days);
    MonthAndDay(YearIn(era, s), s.t);
    assert 4 <= era <= 5;
  }

  // ----- Parsing -----

  datatype Parsed = Malformed | OutOfRange | Overflows | Nanos(nanos: int)

  predicate HasShape(text: string) {
    && |text| >= 20 && text[4] == '-' && text[7] == '-' && text[10] == 'T' && text[13] == ':' && text[16] == ':'
    && text[|text| - 1] == 'Z'
  }

  predicate FieldsAreDigits(text: string)
    requires |text| >= 20
  {
    && Digits(text[0..4]) && Digits(text[5..7]) && Digits(text[8..10])
    && Digits(text[11..13]) && Digits(text[14..16]) && Digits(text[17..19])
  }

  /** Up to nine digits after a point, as nanoseconds; nothing counts as zero. */
  function Fraction(rest: string): Option<nat> {
    if rest == "" then Some(0)
    else if rest[0] != '.' || |rest| > 10 || !Digits(rest[1..]) then None
    else Some(NumericValue(rest[1..]) * Pow10(10 - |rest|))
  }

  function SecondsOf(d: Date, hour: nat, minute: nat, second: nat): int {
    DaysFromCivil(d) * SECONDS_PER_DAY + hour * 3600 + minute * 60 + second
  }

  /** The last two steps are 64-bit: a product and a sum. */
  function Combine(seconds: int, fraction: nat): Parsed {
    if !InI64(seconds * NANOS_PER_SECOND) || !InI64(seconds * NANOS_PER_SECOND + fraction) then Overflows
    else Nanos(seconds * NANOS_PER_SECOND + fraction)
  }

  predicate FieldsInRange(month: nat, day: nat, hour: nat, minute: nat, second: nat) {
    1 <= month <= 12 && 1 <= day <= 31 && hour <= 23 && minute <= 59 && second <= 60
  }

  function FromIso8601(text: string): Parsed {
    if !HasShape(text) || !FieldsAreDigits(text) then Malformed
    else
      var d := Date(NumericValue(text[0..4]), NumericValue(text[5..7]), NumericValue(text[8..10]));
      var hour, minute, second := NumericValue(text[11..13]), NumericValue(text[14..16]), NumericValue(text[17..19]);
      if !FieldsInRange(d.month, d.day, hour, minute, second) then OutOfRange
      else
        var fraction := Fraction(text[19..|text| - 1]);
        if fraction.None? then Malformed else Combine(SecondsOf(d, hour, minute, second), fraction.value)
  }

  /** Checks a field for digits first, then adds it up. */
  method ReadDigits(text: string, offset: nat, count: nat) returns (ok: bool, value: nat)
    requires offset + count <= |text|
    ensures ok <==> Digits(text[offset..offset + count])
    ensures ok ==> value == NumericValue(text[offset..offset + count])
  {
    var field := text[offset..offset + count];
    for i := 0 to count
      invariant Digits(field[..i])
    {
      if !IsDigit(field[i]) { return false, 0; }
      assert field[..i + 1] == field[..i] + [field[i]];
    }
    assert field[..count] == field;
    value := 0;
    for i := 0 to count
      invariant value == NumericValue(field[..i])
    {
      assert field[..i + 1][..i] == field[..i];
      value := value * 10 + DigitValue(field[i]);
    }
    return true, value;
  }

  method ReadFraction(rest: string) returns (fraction: Option<nat>)
    ensures fraction == Fraction(rest)
  {
    if rest == "" { return Some(0); }
    if rest[0] != '.' { return None; }
    var value, pos := 0, 1;
    while pos < |rest| && pos <= 9
      invariant 1 <= pos <= |rest| && pos <= 10
      invariant Digits(rest[1..pos]) && value == NumericValue(rest[1..pos])
    {
      if !IsDigit(rest[pos]) {
        assert rest[1..][pos - 1] == rest[pos];
        return None;
      }
      assert rest[1..pos + 1] == rest[1..pos] + [rest[pos]];
      assert rest[1..pos + 1][..pos - 1] == rest[1..pos];
      value := value * 10 + DigitValue(rest[pos]);
      pos := pos + 1;
    }
    if pos != |rest| { return None; }
    assert rest[1..pos] == rest[1..];
    value := ScaleToNanos(value, pos - 1);
    return Some(value);
  }

  method ScaleToNanos(value: nat, digits: nat) returns (scaled: nat)
    requires digits <= 9
    ensures scaled == value * Pow10(9 - digits)
  {
    scaled := value;
    for count := digits to 9
      invariant scaled * Pow10(9 - count) == value * Pow10(9 - digits)
    {
      assert Pow10(9 - count) == 10 * Pow10(9 - (count + 1));
      MoveTen(scaled, Pow10(9 - (count + 1)));
      scaled := scaled * 10;
    }
    assert Pow10(0) == 1;
  }

  lemma MoveTen(a: nat, b: nat)
    ensures a * (10 * b) == a * 10 * b
  {
  }

  method ParseIso8601(text: string) returns (r: Parsed)
    ensures r == FromIso8601(text)
  {
    if !HasShape(text) { return Malformed; }
    var okYear, year := ReadDigits(text, 0, 4);
    var okMonth, month := ReadDigits(text, 5, 2);
    var okDay, day := ReadDigits(text, 8, 2);
    var okHour, hour := ReadDigits(text, 11, 2);
    var okMinute, minute := ReadDigits(text, 14, 2);
    var okSecond, second := ReadDigits(text, 17, 2);
    if !(okYear && okMonth && okDay && okHour && okMinute && okSecond) { return Malformed; }
    if !FieldsInRange(month, day, hour, minute, second) { return OutOfRange; }
    var fraction := ReadFraction(text[19..|text| - 1]);
    if fraction.None? { return Malformed; }
    return Combine(SecondsOf(Date(year, month, day), hour, minute, second), fraction.value);
  }

  // ----- Round trip -----

  lemma PartsOfText(d: Date, second: nat, fraction: nat)
    requires 0 <= d.year < 10000 && 0 <= d.month < 100 && 0 <= d.day < 100
    requires second < SECONDS_PER_DAY && fraction < NANOS_PER_SECOND
    ensures var text := DateText(d) + "T" + ClockText(second) + "." + Padded(fraction, 9) + "Z";
      && |text| == 30 && HasShape(text)
      && text[0..4] == Padded(d.year, 4) && text[5..7] == Padded(d.month, 2) && text[8..10] == Padded(d.day, 2)
      && text[11..13] == Padded(second / 3600, 2) && text[14..16] == Padded(second % 3600 / 60, 2)
      && text[17..19] == Padded(second % 60, 2) && text[19..|text| - 1] == "." + Padded(fraction, 9)
  {
    hide Padded;
    var date, clock := DateText(d), ClockText(second);
    assert |date| == 10 && |clock| == 8;
    assert date[0..4] == Padded(d.year, 4) && date[5..7] == Padded(d.month, 2) && date[8..10] == Padded(d.day, 2);
    assert clock[0..2] == Padded(second / 3600, 2) && clock[3..5] == Padded(second % 3600 / 60, 2);
    assert clock[6..8] == Padded(second % 60, 2);
    var text := date + "T" + clock + "." + Padded(fraction, 9) + "Z";
    assert text[..10] == date && text[11..19] == clock;
    assert text[0..4] == text[..10][0..4] && text[5..7] == text[..10][5..7] && text[8..10] == text[..10][8..10];
    assert text[11..13] == text[11..19][0..2] && text[14..16] == text[11..19][3..5] && text[17..19] == text[11..19][6..8];
  }

  lemma Powers()
    ensures Pow10(0) == 1 && Pow10(2) == 100 && Pow10(4) == 10000 && Pow10(9) == NANOS_PER_SECOND
  {
    assert Pow10(1) == 10 && Pow10(3) == 1000;
    assert Pow10(5) == 100000 && Pow10(6) == 1000000;
    assert Pow10(7) == 10000000 && Pow10(8) == 100000000;
  }

  lemma FractionRoundTrip(fraction: nat)
    requires fraction < NANOS_PER_SECOND
    ensures Fraction("." + Padded(fraction, 9)) == Some(fraction)
  {
    hide Padded;
    Powers();
    ValueOfPadded(fraction, 9);
    assert ("." + Padded(fraction, 9))[1..] == Padded(fraction, 9);
  }

  lemma ReadBack(d: Date, second: nat, fraction: nat)
    requires 0 <= d.year < 10000 && 1 <= d.month <= 12 && 1 <= d.day <= 31
    requires second < SECONDS_PER_DAY && fraction < NANOS_PER_SECOND
    ensures FromIso8601(DateText(d) + "T" + ClockText(second) + "." + Padded(fraction, 9) + "Z")
         == Combine(DaysFromCivil(d) * SECONDS_PER_DAY + second, fraction)
  {
    hide Padded, DateText, ClockText, HasShape, Fraction, NumericValue, Pow10, DaysFromCivil, Combine;
    PartsOfText(d, second, fraction);
    Powers();
    ValueOfPadded(d.year, 4);
    ValueOfPadded(d.month, 2);
    ValueOfPadded(d.day, 2);
    ValueOfPadded(second / 3600, 2);
    ValueOfPadded(second % 3600 / 60, 2);
    ValueOfPadded(second % 60, 2);
    FractionRoundTrip(fraction);
    assert second == second / 3600 * 3600 + second % 3600 / 60 * 60 + second % 60;
  }

  /** A printed timestamp reads back as itself, and no 64-bit step overflows, exactly when it does not lie
      in the lowest partial second. */
  lemma RoundTrip(nanos: int)
    requires InI64(nanos)
    ensures FromIso8601(ToIso8601(nanos)) ==
      if nanos >= -9223372036 * NANOS_PER_SECOND then Nanos(nanos) else Overflows
  {
    hide CivilFromDays, DaysFromCivil, DateText, ClockText, FromIso8601, Padded;
    PartsInRange(nanos);
    var (seconds, fraction) := FloorParts(nanos, NANOS_PER_SECOND);
    var (days, second) := FloorParts(seconds, SECONDS_PER_DAY);
    ReadBack(CivilFromDays(days), second, fraction);
    DaysRoundTrip(days);
  }

  lemma LowestDoesNotRead()
    ensures FromIso8601(ToIso8601(MIN_I64)) == Overflows
  {
    hide FromIso8601, ToIso8601;
    RoundTrip(MIN_I64);
  }

  // ----- Reading, then printing -----

  function DateRead(text: string): Date
    requires HasShape(text) && FieldsAreDigits(text)
  {
    Date(NumericValue(text[0..4]), NumericValue(text[5..7]), NumericValue(text[8..10]))
  }

  function ClockRead(text: string): nat
    requires HasShape(text) && FieldsAreDigits(text)
  {
    NumericValue(text[11..13]) * 3600 + NumericValue(text[14..16]) * 60 + NumericValue(text[17..19])
  }

  lemma MulLe(a: int, b: int, unit: nat)
    requires a <= b
    ensures a * unit <= b * unit
  {
  }

  lemma SameParts(unit: nat, p: int, s: int, q: int, r: int)
    requires p * unit + s == q * unit + r && 0 <= s < unit && 0 <= r < unit
    ensures p == q && s == r
  {
    if p < q {
      MulLe(p + 1, q, unit);
    } else if q < p {
      MulLe(q + 1, p, unit);
    }
  }

  lemma FloorIsUnique(n: int, unit: nat, q: int, r: int)
    requires unit > 0 && n == q * unit + r && 0 <= r < unit
    ensures FloorParts(n, unit) == (q, r)
  {
    FloorPartsAreFloor(n, unit);
    hide FloorParts;
    var (p, s) := FloorParts(n, unit);
    SameParts(unit, p, s, q, r);
  }

  lemma ClockFields(h: nat, m: nat, s: nat)
    requires h <= 23 && m <= 59 && s <= 59
    ensures var c := h * 3600 + m * 60 + s; c < SECONDS_PER_DAY && c / 3600 == h && c % 3600 / 60 == m && c % 60 == s
  {
  }

  lemma FullFraction(rest: string)
    requires |rest| == 10 && Fraction(rest).Some?
    ensures Fraction(rest).value < NANOS_PER_SECOND && rest == "." + Padded(Fraction(rest).value, 9)
  {
    Powers();
    NumericValueBound(rest[1..]);
    PaddedOfValue(rest[1..]);
    hide Padded, NumericValue;
    assert rest == "." + rest[1..];
  }

  /** An accepted text is cut at its fixed positions. */
  lemma TextFromParts(text: string)
    requires |text| == 30 && HasShape(text)
    ensures text == text[0..4] + "-" + text[5..7] + "-" + text[8..10] + "T"
                    + (text[11..13] + ":" + text[14..16] + ":" + text[17..19]) + text[19..29] + "Z"
  {
  }

  lemma FieldsPrintBack(text: string)
    requires HasShape(text) && FieldsAreDigits(text)
    ensures var d := DateRead(text);
      && DateText(d) == text[0..4] + "-" + text[5..7] + "-" + text[8..10]
      && Padded(NumericValue(text[11..13]), 2) == text[11..13] && Padded(NumericValue(text[14..16]), 2) == text[14..16]
      && Padded(NumericValue(text[17..19]), 2) == text[17..19]
  {
    PaddedOfValue(text[0..4]);
    PaddedOfValue(text[5..7]);
    PaddedOfValue(text[8..10]);
    PaddedOfValue(text[11..13]);
    PaddedOfValue(text[14..16]);
    PaddedOfValue(text[17..19]);
    hide Padded, NumericValue;
  }

  lemma ReadParts(text: string, nanos: int)
    requires FromIso8601(text) == Nanos(nanos)
    ensures HasShape(text) && FieldsAreDigits(text) && Fraction(text[19..|text| - 1]).Some?
    ensures NumericValue(text[11..13]) <= 23 && NumericValue(text[14..16]) <= 59
    ensures InI64(nanos)
    ensures nanos == (DaysFromCivil(DateRead(text)) * SECONDS_PER_DAY + ClockRead(text)) * NANOS_PER_SECOND
                     + Fraction(text[19..|text| - 1]).value
  {
    hide Fraction, NumericValue, DaysFromCivil, HasShape, FieldsAreDigits;
  }

  lemma PrintedAs(nanos: int, days: int, second: nat, fraction: nat, d: Date)
    requires InI64(nanos) && second < SECONDS_PER_DAY && fraction < NANOS_PER_SECOND
    requires nanos == (days * SECONDS_PER_DAY + second) * NANOS_PER_SECOND + fraction && CivilFromDays(days) == d
    ensures 0 <= d.year && 0 <= d.month && 0 <= d.day
    ensures ToIso8601(nanos) == DateText(d) + "T" + ClockText(second) + "." + Padded(fraction, 9) + "Z"
  {
    FloorIsUnique(nanos, NANOS_PER_SECOND, days * SECONDS_PER_DAY + second, fraction);
    FloorIsUnique(days * SECONDS_PER_DAY + second, SECONDS_PER_DAY, days, second);
    PartsInRange(nanos);
    hide Padded, CivilFromDays, FloorParts, DateText, ClockText;
  }

  lemma ClockParts(text: string)
    requires HasShape(text) && FieldsAreDigits(text)
    requires NumericValue(text[11..13]) <= 23 && NumericValue(text[14..16]) <= 59 && NumericValue(text[17..19]) <= 59
    ensures var c := ClockRead(text);
      && c < SECONDS_PER_DAY && c / 3600 == NumericValue(text[11..13])
      && c % 3600 / 60 == NumericValue(text[14..16]) && c % 60 == NumericValue(text[17..19])
  {
    hide NumericValue;
    ClockFields(NumericValue(text[11..13]), NumericValue(text[14..16]), NumericValue(text[17..19]));
  }

  lemma CanonicalTextPrints(text: string, nanos: int)
    requires FromIso8601(text) == Nanos(nanos) && |text| == 30
    requires HasShape(text) && FieldsAreDigits(text) && IsDate(DateRead(text)) && NumericValue(text[17..19]) <= 59
    ensures InI64(nanos) && ToIso8601(nanos) == text
  {
    hide *;
    ReadParts(text, nanos);
    ClockParts(text);
    FullFraction(text[19..29]);
    DateRoundTripIff(DateRead(text));
    PrintedAs(nanos, DaysFromCivil(DateRead(text)), ClockRead(text), Fraction(text[19..29]).value, DateRead(text));
    AssembledText(text, ClockRead(text));
  }

  lemma AssembledText(text: string, clock: nat)
    requires |text| == 30 && HasShape(text) && FieldsAreDigits(text) && Fraction(text[19..29]).Some?
    requires clock / 3600 == NumericValue(text[11..13]) && clock % 3600 / 60 == NumericValue(text[14..16])
    requires clock % 60 == NumericValue(text[17..19])
    ensures text == DateText(DateRead(text)) + "T" + ClockText(clock) + "." + Padded(Fraction(text[19..29]).value, 9) + "Z"
  {
    FullFraction(text[19..29]);
    FieldsPrintBack(text);
    TextFromParts(text);
    hide Padded, NumericValue, Fraction, HasShape, FieldsAreDigits, DateText, DateRead;
    var front := DateText(DateRead(text)) + "T" + ClockText(clock);
    assert front + text[19..29] == front + "." + Padded(Fraction(text[19..29]).value, 9);
  }

  lemma PrintedTextIsCanonical(text: string, nanos: int)
    requires InI64(nanos) && ToIso8601(nanos) == text && HasShape(text) && FieldsAreDigits(text)
    ensures |text| == 30 && IsDate(DateRead(text)) && NumericValue(text[17..19]) <= 59
  {
    hide CivilFromDays, DateText, ClockText, Padded, NumericValue, IsDate, HasShape;
    PartsInRange(nanos);
    var (seconds, fraction) := FloorParts(nanos, NANOS_PER_SECOND);
    var (days, second) := FloorParts(seconds, SECONDS_PER_DAY);
    var d := CivilFromDays(days);
    PartsOfText(d, second, fraction);
    Powers();
    ValueOfPadded(d.year, 4);
    ValueOfPadded(d.month, 2);
    ValueOfPadded(d.day, 2);
    ValueOfPadded(second % 60, 2);
    DaysAreDates(days);
  }

  /**
   * An accepted text prints back to itself exactly when it is written out to nanoseconds, its
   * date exists and its second is not a leap second. Dates like February 30 are accepted and
   * stand for a later day, against section 5.7 of RFC 3339.
   */
  lemma AcceptedTextIsCanonicalIff(text: string, nanos: int)
    requires FromIso8601(text) == Nanos(nanos)
    ensures InI64(nanos)
    ensures ToIso8601(nanos) == text <==> |text| == 30 && IsDate(DateRead(text)) && NumericValue(text[17..19]) <= 59
  {
    ReadParts(text, nanos);
    hide ToIso8601, FromIso8601, IsDate, NumericValue, DateRead;
    if |text| == 30 && IsDate(DateRead(text)) && NumericValue(text[17..19]) <= 59 {
      CanonicalTextPrints(text, nanos);
    }
    if ToIso8601(nanos) == text { PrintedTextIsCanonical(text, nanos); }
  }

  // ----- Fractions and the ends of the range -----

  /** Fewer than nine digits stand for the same fraction as with a zero more. */
  lemma FractionPads(digits: string)
    requires Digits(digits) && 1 <= |digits| < 9
    ensures Fraction("." + digits) == Fraction("." + digits + "0")
  {
    var shorter, longer := "." + digits, "." + digits + "0";
    assert shorter[1..] == digits && longer[1..] == digits + "0" && (digits + "0")[..|digits|] == digits;
    assert NumericValue(digits + "0") == NumericValue(digits) * 10;
    assert Pow10(9 - |digits|) == 10 * Pow10(9 - |digits| - 1);
    MoveTen(NumericValue(digits), Pow10(9 - |digits| - 1));
  }

  /** Nine digits are nanoseconds; anything but a point and at most nine digits is refused. */
  lemma FractionMeaning(rest: string)
    ensures Fraction("") == Some(0)
    ensures rest != "" ==> (Fraction(rest).Some? <==> rest[0] == '.' && |rest| <= 10 && Digits(rest[1..]))
    ensures |rest| == 10 && Fraction(rest).Some? ==> Fraction(rest).value == NumericValue(rest[1..])
  {
    assert Pow10(0) == 1;
  }

  /** A leap second is let through, and every month is given 31 days. */
  lemma FieldRanges(text: string)
    requires HasShape(text) && FieldsAreDigits(text)
    ensures FromIso8601(text) == OutOfRange <==>
      !(1 <= NumericValue(text[5..7]) < 13 && 1 <= NumericValue(text[8..10]) < 32 && NumericValue(text[11..13]) < 24
        && NumericValue(text[14..16]) < 60 && NumericValue(text[17..19]) < 61)
  {
    hide HasShape, FieldsAreDigits, NumericValue, Fraction, DaysFromCivil;
  }

  /** The signed 64-bit ends: the highest timestamp reads back, and a nanosecond more does not fit. */
  lemma EndsOfRange()
    ensures InI64(0x7FFF_FFFF_FFFF_FFFF) && FromIso8601(ToIso8601(0x7FFF_FFFF_FFFF_FFFF)) == Nanos(0x7FFF_FFFF_FFFF_FFFF)
    ensures InI64(-0x8000_0000_0000_0000) && FromIso8601(ToIso8601(-0x8000_0000_0000_0000)) == Overflows
    ensures Combine(9223372036, 854775807) == Nanos(0x7FFF_FFFF_FFFF_FFFF) && Combine(9223372036, 854775808) == Overflows
    ensures Combine(-9223372036, 0) == Nanos(-9223372036_000_000_000) && Combine(-9223372037, 999999999) == Overflows
    ensures forall n :: InI64(n) <==> -0x8000_0000_0000_0000 <= n < 0x8000_0000_0000_0000
  {
    hide FromIso8601, ToIso8601;
    RoundTrip(0x7FFF_FFFF_FFFF_FFFF);
    RoundTrip(-0x8000_0000_0000_0000);
  }

  function TimeText(d: Date, second: nat, fraction: nat): string
    requires 0 <= d.year && 0 <= d.month && 0 <= d.day
  {
    DateText(d) + "T" + ClockText(second) + "." + Padded(fraction, 9) + "Z"
  }

  /** A text with a day its month does not have is accepted, and prints with a day of the next month. */
  lemma MissingDatePrintsLater(d: Date, second: nat, fraction: nat, nanos: int)
    requires 0 <= d.year < 10000 && 1 <= d.month <= 12 && 1 <= d.day <= 31 && !IsDate(d)
    requires second < SECONDS_PER_DAY && fraction < NANOS_PER_SECOND
    requires Combine(DaysFromCivil(d) * SECONDS_PER_DAY + second, fraction) == Nanos(nanos)
    ensures FromIso8601(TimeText(d, second, fraction)) == Nanos(nanos)
    ensures InI64(nanos)
    ensures ToIso8601(nanos) == TimeText(Date(d.year, d.month + 1, d.day - DaysInMonth(d.year, d.month)), second, fraction)
  {
    ReadBack(d, second, fraction);
    MissingDateIsLater(d);
    PrintedAs(nanos, DaysFromCivil(d), second, fraction, CivilFromDays(DaysFromCivil(d)));
    hide Padded, CivilFromDays, DaysFromCivil, FloorParts, DateText, ClockText, FromIso8601, ToIso8601;
  }

  lemma Zeros()
    ensures Padded(0, 2) == "00" && Padded(0, 9) == "000000000"
  {
    assert Padded(0, 1) == "0";
    assert Padded(0, 2) == "00";
    assert Padded(0, 3) == "000";
    assert Padded(0, 4) == "0000";
    assert Padded(0, 5) == "00000";
    assert Padded(0, 6) == "000000";
    assert Padded(0, 7) == "0000000";
    assert Padded(0, 8) == "00000000";
  }

  lemma Fields()
    ensures Padded(2023, 4) == "2023" && Padded(2, 2) == "02" && Padded(3, 2) == "03" && Padded(30, 2) == "30"
  {
    assert Padded(2, 1) == "2" && Padded(3, 1) == "3" && Padded(0, 1) == "0";
    assert Padded(20, 2) == "20";
    assert Padded(202, 3) == "202";
  }

  lemma MidnightTexts()
    ensures TimeText(Date(2023, 2, 30), 0, 0) == "2023-02-30T00:00:00.000000000Z"
    ensures TimeText(Date(2023, 3, 2), 0, 0) == "2023-03-02T00:00:00.000000000Z"
  {
    Zeros();
    Fields();
    hide Padded;
    assert ClockText(0) == "00:00:00";
    assert DateText(Date(2023, 2, 30)) == "2023-02-30" && DateText(Date(2023, 3, 2)) == "2023-03-02";
  }

  /** Midnight of March 2, 2023. */
  const MARCH_SECOND: int := 1_677_715_200_000_000_000

  lemma SecondsOfFebruaryThirty()
    ensures Combine(DaysFromCivil(Date(2023, 2, 30)) * SECONDS_PER_DAY + 0, 0) == Nanos(MARCH_SECOND)
    ensures !IsDate(Date(2023, 2, 30)) && DaysInMonth(2023, 2) == 28
  {
    assert DaysFromCivil(Date(2023, 2, 30)) == 19418;
    hide DaysFromCivil;
  }

  /** February 30 is accepted and prints as March 2. */
  lemma FebruaryThirtyIsAccepted()
    ensures FromIso8601("2023-02-30T00:00:00.000000000Z") == Nanos(MARCH_SECOND)
    ensures ToIso8601(MARCH_SECOND) == "2023-03-02T00:00:00.000000000Z"
  {
    hide DateText, IsDate, ClockText, FromIso8601, ToIso8601, DaysFromCivil, TimeText, Combine;
    SecondsOfFebruaryThirty();
    MidnightTexts();
    MissingDatePrintsLater(Date(2023, 2, 30), 0, 0, MARCH_SECOND);
  }
}
