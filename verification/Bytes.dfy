/** Bytes, and words stored least significant byte first (src/transport.cpp, src/store.cpp). */
module Bytes {

  type byte = bv8

  function ValueOf(b: byte): (v: nat)
    ensures v < 256
  {
    b as int
  }

  /** The byte of a given value, counting up from zero. */
  function ByteOf(v: nat): (b: byte)
    requires v < 256
    ensures ValueOf(b) == v
  {
    if v == 0 then 0
    else
      NextByte(ByteOf(v - 1));
      ByteOf(v - 1) + 1
  }

  lemma NextByte(b: byte)
    requires ValueOf(b) < 255
    ensures ValueOf(b + 1) == ValueOf(b) + 1
  {
    assert b < 255;
  }

  lemma ConversionRoundTrip(b: byte)
    ensures b as int as bv8 == b
  {
  }

  lemma ValuesTellApart(x: byte, y: byte)
    requires ValueOf(x) == ValueOf(y)
    ensures x == y
  {
    ConversionRoundTrip(x);
    ConversionRoundTrip(y);
  }

  lemma ValueRoundTrip(b: byte)
    ensures ByteOf(ValueOf(b)) == b
  {
    ValuesTellApart(ByteOf(ValueOf(b)), b);
  }

  function Widen(b: byte): bv32 {
    b as bv32
  }

  // ----- Numbers -----

  function Power256(n: nat): (p: nat)
    ensures p > 0
  {
    if n == 0 then 1 else 256 * Power256(n - 1)
  }

  function LittleEndian(v: nat, n: nat): (bytes: seq<byte>)
    ensures |bytes| == n
  {
    if n == 0 then [] else [ByteOf(v % 256)] + LittleEndian(v / 256, n - 1)
  }

  function Number(bytes: seq<byte>): nat {
    if bytes == [] then 0 else ValueOf(bytes[0]) + 256 * Number(bytes[1..])
  }

  lemma {:induction false} NumberOfLittleEndian(v: nat, n: nat)
    requires v < Power256(n)
    ensures Number(LittleEndian(v, n)) == v
  {
    hide ByteOf, ValueOf;
    if n > 0 {
      assert v / 256 < Power256(n - 1);
      NumberOfLittleEndian(v / 256, n - 1);
      assert LittleEndian(v, n)[1..] == LittleEndian(v / 256, n - 1);
    }
  }

  /** The i-th byte has the weight 256 to the i: the least significant comes first. */
  lemma {:induction false} LittleEndianAt(v: nat, n: nat, i: nat)
    requires i < n
    ensures ValueOf(LittleEndian(v, n)[i]) == v / Power256(i) % 256
  {
    hide ByteOf, ValueOf;
    if i == 0 {
      assert Power256(0) == 1;
    } else {
      LittleEndianAt(v / 256, n - 1, i - 1);
      DivideTwice(v, Power256(i - 1));
    }
  }

  lemma DivideTwice(v: nat, p: nat)
    requires p > 0
    ensures v / 256 / p == v / (256 * p)
  {
    var q, r := v / 256 / p, v / 256 % p;
    var low := v % 256;
    assert v == 256 * (q * p + r) + low;
    Regroup(q, p, r, low);
    assert 256 * r + low < 256 * p;
    QuotientIs(v, 256 * p, q, 256 * r + low);
  }

  lemma Regroup(q: nat, p: nat, r: nat, low: nat)
    ensures 256 * (q * p + r) + low == q * (256 * p) + (256 * r + low)
  {
  }

  lemma QuotientIs(v: nat, d: nat, q: nat, r: nat)
    requires v == q * d + r && r < d
    ensures v / d == q
  {
    var p := v / d;
    assert v == p * d + v % d;
    if p < q {
      Grows(p + 1, q, d);
    } else if q < p {
      Grows(q + 1, p, d);
    }
  }

  lemma Grows(a: nat, b: nat, d: nat)
    requires a <= b
    ensures a * d <= b * d
  {
  }

  lemma LowAndHigh(low: nat, high: nat)
    requires low < 256
    ensures (low + 256 * high) % 256 == low && (low + 256 * high) / 256 == high
  {
  }

  lemma {:induction false} LittleEndianOfNumber(bytes: seq<byte>)
    ensures Number(bytes) < Power256(|bytes|)
    ensures LittleEndian(Number(bytes), |bytes|) == bytes
  {
    hide ByteOf, ValueOf;
    if bytes != [] {
      LittleEndianOfNumber(bytes[1..]);
      var low, high := ValueOf(bytes[0]), Number(bytes[1..]);
      LowAndHigh(low, high);
      ValueRoundTrip(bytes[0]);
      assert bytes == [bytes[0]] + bytes[1..];
    }
  }

  // ----- Writing into and reading from a buffer -----

  method StoreLe(out: array<byte>, at: nat, v: nat, n: nat)
    requires at + n <= out.Length
    modifies out
    ensures out[..] == old(out[..at]) + LittleEndian(v, n) + old(out[at + n..])
  {
    var rest := v;
    for i := 0 to n
      invariant out[..at] == old(out[..at]) && out[at + n..] == old(out[at + n..])
      invariant out[at..at + i] + LittleEndian(rest, n - i) == LittleEndian(v, n)
    {
      ghost var before := out[at..at + i];
      out[at + i] := ByteOf(rest % 256);
      assert out[at..at + i + 1] == before + [ByteOf(rest % 256)];
      rest := rest / 256;
    }
    assert out[..] == out[..at] + out[at..at + n] + out[at + n..];
  }

  method LoadLe(bytes: seq<byte>) returns (v: nat)
    ensures v == Number(bytes)
  {
    v := 0;
    var i := |bytes|;
    while i > 0
      invariant 0 <= i <= |bytes|
      invariant v == Number(bytes[i..])
    {
      i := i - 1;
      assert bytes[i..][1..] == bytes[i + 1..];
      v := ValueOf(bytes[i]) + 256 * v;
    }
    assert bytes[0..] == bytes;
  }

  // ----- Checksum words -----

  function LowByte(word: bv32): byte {
    (word & 0xFF) as bv8
  }

  function WordBytes(word: bv32): (bytes: seq<byte>)
    ensures |bytes| == 4
  {
    [LowByte(word), LowByte(word >> 8), LowByte(word >> 16), LowByte(word >> 24)]
  }

  function Word(bytes: seq<byte>): bv32
    requires |bytes| == 4
  {
    Widen(bytes[0]) | (Widen(bytes[1]) << 8) | (Widen(bytes[2]) << 16) | (Widen(bytes[3]) << 24)
  }

  lemma FourBytesMakeTheWord(word: bv32)
    ensures Widen(LowByte(word)) | (Widen(LowByte(word >> 8)) << 8) | (Widen(LowByte(word >> 16)) << 16)
      | (Widen(LowByte(word >> 24)) << 24) == word
  {
  }

  lemma WordOfBytes(word: bv32)
    ensures Word(WordBytes(word)) == word
  {
    FourBytesMakeTheWord(word);
  }

  lemma TheWordHasFourBytes(a: byte, b: byte, c: byte, d: byte)
    ensures var word := Widen(a) | (Widen(b) << 8) | (Widen(c) << 16) | (Widen(d) << 24);
      LowByte(word) == a && LowByte(word >> 8) == b && LowByte(word >> 16) == c && LowByte(word >> 24) == d
  {
  }

  lemma BytesOfWord(bytes: seq<byte>)
    requires |bytes| == 4
    ensures WordBytes(Word(bytes)) == bytes
  {
    TheWordHasFourBytes(bytes[0], bytes[1], bytes[2], bytes[3]);
  }

  method StoreWord(out: array<byte>, at: nat, word: bv32)
    requires at + 4 <= out.Length
    modifies out
    ensures out[..] == old(out[..at]) + WordBytes(word) + old(out[at + 4..])
  {
    out[at], out[at + 1], out[at + 2], out[at + 3] :=
      LowByte(word), LowByte(word >> 8), LowByte(word >> 16), LowByte(word >> 24);
    assert out[..] == out[..at] + out[at..at + 4] + out[at + 4..];
    assert out[at..at + 4] == WordBytes(word);
  }
}
