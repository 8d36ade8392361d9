/** JSON values, their compact text and the strict parser (src/json.cpp; RFC 8259). */
module Json {
  import opened Order
  import opened SemVer
  import opened Decimal

  const MAX_U64: int := 0xFFFF_FFFF_FFFF_FFFF
  const MAX_I64: int := 0x7FFF_FFFF_FFFF_FFFF
  const MIN_I64: int := -0x8000_0000_0000_0000

  /** Members are parallel lists, sorted by key. Text is bytes, one `char` each. */
  datatype Json =
    | Null
    | Bool(flag: bool)
    | Int(number: int)
    | UInt(natural: nat)
    | Str(text: string)
    | Arr(items: seq<Json>)
    | Obj(keys: seq<string>, values: seq<Json>)

  datatype Limits = Limits(maxBytes: nat, maxDepth: nat, maxString: nat, maxElements: nat)

  ghost predicate KeysRise(keys: seq<string>) {
    forall i, j :: 0 <= i < j < |keys| ==> CompareText(keys[i], keys[j]) == Less
  }

  /** Numbers in range, as many values as keys, keys sorted and distinct. */
  ghost predicate WellFormed(v: Json) {
    match v
    case Int(n) => MIN_I64 <= n <= MAX_I64
    case UInt(n) => n <= MAX_U64
    case Arr(items) => forall i :: 0 <= i < |items| ==> WellFormed(items[i])
    case Obj(keys, values) =>
      |keys| == |values| && KeysRise(keys) && forall i :: 0 <= i < |values| ==> WellFormed(values[i])
    case _ => true
  }

  // ----- Dumping -----

  function HexDigit(d: nat): char
    requires d < 16
  {
    if d < 10 then DigitChar(d) else (d - 10 + 'a' as int) as char
  }

  function EscapedChar(c: char): (s: string)
    ensures s != ""
  {
    if c == '"' then "\\\""
    else if c == '\\' then "\\\\"
    else if c == 8 as char then "\\b"
    else if c == 12 as char then "\\f"
    else if c == '\n' then "\\n"
    else if c == '\r' then "\\r"
    else if c == '\t' then "\\t"
    else if c as int < 0x20 then "\\u00" + [HexDigit(c as int / 16), HexDigit(c as int % 16)]
    else [c]
  }

  function Escaped(s: string): string {
    if s == "" then "" else EscapedChar(s[0]) + Escaped(s[1..])
  }

  function Quoted(s: string): string {
    "\"" + Escaped(s) + "\""
  }

  function PrintInt(n: int): string {
    if n < 0 then "-" + Print(-n) else Print(n)
  }

  function Dump(v: Json): string
    decreases v
  {
    match v
    case Null => "null"
    case Bool(b) => if b then "true" else "false"
    case Int(n) => PrintInt(n)
    case UInt(n) => Print(n)
    case Str(s) => Quoted(s)
    case Arr(_) => "[" + ItemsFrom(v, 0) + "]"
    case Obj(_, _) => "{" + MembersFrom(v, 0) + "}"
  }

  function Comma(i: nat): string {
    if i == 0 then "" else ","
  }

  /** The elements from the i-th on, each but the first after a comma. */
  function ItemsFrom(v: Json, i: nat): string
    requires v.Arr? && i <= |v.items|
    decreases v, |v.items| - i
  {
    if i == |v.items| then "" else Comma(i) + Dump(v.items[i]) + ItemsFrom(v, i + 1)
  }

  function MembersFrom(v: Json, i: nat): string
    requires v.Obj? && i <= |v.keys|
    decreases v, |v.keys| - i
  {
    if i >= |v.keys| || i >= |v.values| then ""
    else Comma(i) + Quoted(v.keys[i]) + ":" + Dump(v.values[i]) + MembersFrom(v, i + 1)
  }

  // ----- Parsing: scanning -----

  datatype Error = InvalidJson | LimitExceeded | FloatingPoint

  datatype Parsed<+T> = Fail(error: Error) | Got(value: T, next: nat)

  predicate IsSpace(c: char) {
    c == ' ' || c == '\t' || c == '\n' || c == '\r'
  }

  function SkipSpace(text: string, pos: nat): (next: nat)
    requires pos <= |text|
    ensures pos <= next <= |text|
    decreases |text| - pos
  {
    if pos < |text| && IsSpace(text[pos]) then SkipSpace(text, pos + 1) else pos
  }

  function DigitsEnd(text: string, pos: nat): (end: nat)
    requires pos <= |text|
    ensures pos <= end <= |text| && Digits(text[pos..end])
    ensures end < |text| ==> !IsDigit(text[end])
    decreases |text| - pos
  {
    if pos < |text| && IsDigit(text[pos]) then
      var end := DigitsEnd(text, pos + 1);
      assert text[pos..end] == [text[pos]] + text[pos + 1..end];
      end
    else pos
  }

  // ----- Parsing: strings -----

  predicate IsHex(c: char) {
    IsDigit(c) || 'a' <= c <= 'f' || 'A' <= c <= 'F'
  }

  function HexValue(c: char): (d: nat)
    requires IsHex(c)
    ensures d < 16
  {
    if IsDigit(c) then DigitValue(c)
    else if 'a' <= c <= 'f' then c as int - 'a' as int + 10
    else c as int - 'A' as int + 10
  }

  function Hex4(text: string, pos: nat): (r: Parsed<nat>)
    requires pos <= |text|
    ensures r.Got? ==> r.next == pos + 4 <= |text| && r.value < 0x1_0000
  {
    if pos + 4 > |text| then Fail(InvalidJson)
    else if !IsHex(text[pos]) || !IsHex(text[pos + 1]) || !IsHex(text[pos + 2]) || !IsHex(text[pos + 3]) then Fail(InvalidJson)
    else
      Got(((HexValue(text[pos]) * 16 + HexValue(text[pos + 1])) * 16 + HexValue(text[pos + 2])) * 16 + HexValue(text[pos + 3]),
          pos + 4)
  }

  function Byte(n: nat): char
    requires n < 256
  {
    n as char
  }

  /** One to four bytes (RFC 3629). */
  function Utf8(codePoint: nat): string
    requires codePoint < 0x11_0000
  {
    if codePoint <= 0x7F then [Byte(codePoint)]
    else if codePoint <= 0x7FF then [Byte(0xC0 + codePoint / 64), Byte(0x80 + codePoint % 64)]
    else if codePoint <= 0xFFFF then
      [Byte(0xE0 + codePoint / 4096), Byte(0x80 + codePoint / 64 % 64), Byte(0x80 + codePoint % 64)]
    else
      [Byte(0xF0 + codePoint / 262144), Byte(0x80 + codePoint / 4096 % 64), Byte(0x80 + codePoint / 64 % 64),
       Byte(0x80 + codePoint % 64)]
  }

  /** After `\u`: one unit, or a surrogate pair. */
  function UnicodeEscape(text: string, pos: nat): (r: Parsed<string>)
    requires pos <= |text|
    ensures r.Got? ==> pos < r.next <= |text|
  {
    var high := Hex4(text, pos);
    if high.Fail? then Fail(high.error)
    else if 0xD800 <= high.value <= 0xDBFF then
      if high.next + 1 >= |text| || text[high.next] != '\\' || text[high.next + 1] != 'u' then Fail(InvalidJson)
      else
        var low := Hex4(text, high.next + 2);
        if low.Fail? then Fail(low.error)
        else if low.value < 0xDC00 || low.value > 0xDFFF then Fail(InvalidJson)
        else Got(Utf8(0x10000 + (high.value - 0xD800) * 1024 + (low.value - 0xDC00)), low.next)
    else if 0xDC00 <= high.value <= 0xDFFF then Fail(InvalidJson)
    else Got(Utf8(high.value), high.next)
  }

  /** After a backslash. */
  function Escape(text: string, pos: nat): (r: Parsed<string>)
    requires pos <= |text|
    ensures r.Got? ==> pos < r.next <= |text|
  {
    if pos >= |text| then Fail(InvalidJson)
    else
      match text[pos]
      case '"' => Got("\"", pos + 1)
      case '\\' => Got("\\", pos + 1)
      case '/' => Got("/", pos + 1)
      case 'b' => Got([Byte(8)], pos + 1)
      case 'f' => Got([Byte(12)], pos + 1)
      case 'n' => Got("\n", pos + 1)
      case 'r' => Got("\r", pos + 1)
      case 't' => Got("\t", pos + 1)
      case 'u' => UnicodeEscape(text, pos + 1)
      case _ => Fail(InvalidJson)
  }

  /** One character or escape inside a string. */
  function StringPiece(text: string, pos: nat): (r: Parsed<string>)
    requires pos < |text|
    ensures r.Got? ==> pos < r.next <= |text|
  {
    if text[pos] as int < 0x20 then Fail(InvalidJson)
    else if text[pos] == '\\' then Escape(text, pos + 1)
    else Got([text[pos]], pos + 1)
  }

  /** After the opening quote and the bytes read so far. */
  function StringRest(text: string, pos: nat, out: string, limits: Limits): (r: Parsed<string>)
    requires pos <= |text|
    ensures r.Got? ==> pos < r.next <= |text|
    decreases |text| - pos
  {
    if pos >= |text| then Fail(InvalidJson)
    else if text[pos] == '"' then Got(out, pos + 1)
    else
      var piece := StringPiece(text, pos);
      if piece.Fail? then Fail(piece.error)
      else if |out + piece.value| > limits.maxString then Fail(LimitExceeded)
      else StringRest(text, piece.next, out + piece.value, limits)
  }

  function StringAt(text: string, pos: nat, limits: Limits): (r: Parsed<string>)
    requires pos <= |text|
    ensures r.Got? ==> pos < r.next <= |text|
  {
    if pos >= |text| || text[pos] != '"' then Fail(InvalidJson) else StringRest(text, pos + 1, "", limits)
  }

  // ----- Parsing: numbers -----

  /** The end of the integer part, or nothing. */
  function IntegerPart(text: string, pos: nat): (r: Parsed<string>)
    requires pos <= |text|
    ensures r.Got? ==> pos < r.next <= |text| && r.value == text[pos..r.next] && Digits(r.value)
  {
    if pos >= |text| || !IsDigit(text[pos]) then Fail(InvalidJson)
    else if text[pos] == '0' then
      if pos + 1 < |text| && IsDigit(text[pos + 1]) then Fail(InvalidJson) else Got(text[pos..pos + 1], pos + 1)
    else
      var end := DigitsEnd(text, pos);
      Got(text[pos..end], end)
  }

  predicate StartsFraction(text: string, pos: nat) {
    pos < |text| && (text[pos] == '.' || text[pos] == 'e' || text[pos] == 'E')
  }

  /** Integers only; what goes on as a floating-point literal is told apart and not modelled further. */
  function NumberAt(text: string, pos: nat): (r: Parsed<Json>)
    requires pos <= |text|
    ensures r.Got? ==> pos < r.next <= |text|
  {
    var negative := pos < |text| && text[pos] == '-';
    var digits := IntegerPart(text, if negative then pos + 1 else pos);
    if digits.Fail? then Fail(digits.error)
    else if StartsFraction(text, digits.next) then Fail(FloatingPoint)
    else
      var n := NumericValue(digits.value);
      if !negative then (if n > MAX_U64 then Fail(InvalidJson) else Got(UInt(n), digits.next))
      else if n > MAX_I64 then Fail(InvalidJson)
      else Got(Int(0 - n), digits.next)
  }

  // ----- Parsing: members -----

  /** `std::lower_bound`: the first key not below the given one. */
  function LowerBound(keys: seq<string>, key: string): (k: nat)
    ensures k <= |keys|
  {
    if keys == [] || CompareText(keys[0], key) != Less then 0 else 1 + LowerBound(keys[1..], key)
  }

  predicate HasKey(keys: seq<string>, key: string) {
    var k := LowerBound(keys, key);
    k < |keys| && keys[k] == key
  }

  function SetMember(keys: seq<string>, values: seq<Json>, key: string, value: Json): (r: (seq<string>, seq<Json>))
    requires |keys| == |values|
    ensures |r.0| == |r.1|
  {
    var k := LowerBound(keys, key);
    if k < |keys| && keys[k] == key then (keys, values[k := value])
    else (keys[..k] + [key] + keys[k..], values[..k] + [value] + values[k..])
  }

  // ----- Parsing: values -----

  function Literal(text: string, pos: nat, word: string, value: Json): (r: Parsed<Json>)
    requires pos <= |text| && word != ""
    ensures r.Got? ==> pos < r.next <= |text|
  {
    if pos + |word| <= |text| && text[pos..pos + |word|] == word then Got(value, pos + |word|) else Fail(InvalidJson)
  }

  function ValueAt(text: string, pos: nat, depth: nat, limits: Limits): (r: Parsed<Json>)
    requires pos <= |text|
    ensures r.Got? ==> pos < r.next <= |text|
    decreases |text| - pos, 0
  {
    if depth > limits.maxDepth then Fail(LimitExceeded)
    else if pos >= |text| then Fail(InvalidJson)
    else
      var c := text[pos];
      if c == '{' then
        var start := SkipSpace(text, pos + 1);
        if start < |text| && text[start] == '}' then Got(Obj([], []), start + 1)
        else MembersAt(text, start, depth, [], [], limits)
      else if c == '[' then
        var start := SkipSpace(text, pos + 1);
        if start < |text| && text[start] == ']' then Got(Arr([]), start + 1)
        else ItemsAt(text, start, depth, [], limits)
      else if c == '"' then
        var s := StringAt(text, pos, limits);
        if s.Fail? then Fail(s.error) else Got(Str(s.value), s.next)
      else if c == 't' then Literal(text, pos, "true", Bool(true))
      else if c == 'f' then Literal(text, pos, "false", Bool(false))
      else if c == 'n' then Literal(text, pos, "null", Null)
      else if c == '-' || IsDigit(c) then NumberAt(text, pos)
      else Fail(InvalidJson)
  }

  /** What follows an element: a comma, the closing bracket, or an error. */
  datatype After = More(next: nat) | Closed(next: nat) | Broken

  function AfterElement(text: string, pos: nat, close: char): (r: After)
    requires pos <= |text|
    ensures !r.Broken? ==> pos < r.next <= |text|
  {
    var p := SkipSpace(text, pos);
    if p >= |text| then Broken
    else if text[p] == ',' then More(p + 1)
    else if text[p] == close then Closed(p + 1)
    else Broken
  }

  function ItemsAt(text: string, pos: nat, depth: nat, items: seq<Json>, limits: Limits): (r: Parsed<Json>)
    requires pos <= |text|
    ensures r.Got? ==> pos < r.next <= |text|
    decreases |text| - pos, 1
  {
    var v := ValueAt(text, SkipSpace(text, pos), depth + 1, limits);
    if v.Fail? then Fail(v.error)
    else
      var longer := items + [v.value];
      if |longer| > limits.maxElements then Fail(LimitExceeded)
      else
        match AfterElement(text, v.next, ']')
        case More(next) => ItemsAt(text, next, depth, longer, limits)
        case Closed(next) => Got(Arr(longer), next)
        case Broken => Fail(InvalidJson)
  }

  /** Key, colon and value. */
  function MemberAt(text: string, pos: nat, depth: nat, limits: Limits): (r: Parsed<(string, Json)>)
    requires pos <= |text|
    ensures r.Got? ==> pos < r.next <= |text|
    decreases |text| - pos, 1
  {
    var key := StringAt(text, SkipSpace(text, pos), limits);
    if key.Fail? then Fail(key.error)
    else
      var p := SkipSpace(text, key.next);
      if p >= |text| || text[p] != ':' then Fail(InvalidJson)
      else
        var v := ValueAt(text, SkipSpace(text, p + 1), depth + 1, limits);
        if v.Fail? then Fail(v.error) else Got((key.value, v.value), v.next)
  }

  function MembersAt(text: string, pos: nat, depth: nat, keys: seq<string>, values: seq<Json>, limits: Limits): (r: Parsed<Json>)
    requires pos <= |text| && |keys| == |values|
    ensures r.Got? ==> pos < r.next <= |text|
    decreases |text| - pos, 2
  {
    var m := MemberAt(text, pos, depth, limits);
    if m.Fail? then Fail(m.error)
    else if HasKey(keys, m.value.0) then Fail(InvalidJson)
    else
      var (ks, vs) := SetMember(keys, values, m.value.0, m.value.1);
      if |ks| > limits.maxElements then Fail(LimitExceeded)
      else
        match AfterElement(text, m.next, '}')
        case More(next) => MembersAt(text, next, depth, ks, vs, limits)
        case Closed(next) => Got(Obj(ks, vs), next)
        case Broken => Fail(InvalidJson)
  }

  datatype Result = Err(error: Error) | Ok(value: Json)

  function Parse(text: string, limits: Limits): Result {
    if |text| > limits.maxBytes then Err(LimitExceeded)
    else
      var v := ValueAt(text, SkipSpace(text, 0), 0, limits);
      if v.Fail? then Err(v.error)
      else if SkipSpace(text, v.next) != |text| then Err(InvalidJson)
      else Ok(v.value)
  }
}
