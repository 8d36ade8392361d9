/** The binary generation file and its checks (src/store.cpp). */
module GenerationFile {
  import opened Bytes
  import opened Crc

  const MAGIC: seq<byte> := [0x46, 0x43, 0x52, 0x47]
  const FORMAT_VERSION: nat := 1
  const HEADER_BYTES: nat := 96
  const CHECKED_BYTES: nat := 72
  const RESERVED: seq<byte> := [0, 0, 0, 0, 0, 0, 0, 0, 0, 0, 0, 0, 0, 0, 0, 0, 0, 0, 0, 0]

  /** The payload digest, and whether a payload parses as a canonical document of the given number. */
  datatype Codec = Codec(hash: seq<byte> -> seq<byte>, accepts: (seq<byte>, nat) -> bool)

  datatype Content = Content(generation: nat, epoch: nat, incarnation: nat, payload: seq<byte>)

  predicate Fits(c: Content) {
    && c.generation < 0x1_0000_0000_0000_0000
    && c.epoch < 0x1_0000_0000_0000_0000
    && c.incarnation < 0x1_0000_0000_0000_0000
    && |c.payload| < 0x1_0000_0000_0000_0000
  }

  function Checked(codec: Codec, c: Content): (b: seq<byte>)
    requires |codec.hash(c.payload)| == 32
    ensures |b| == CHECKED_BYTES
  {
    MAGIC + LittleEndian(FORMAT_VERSION, 2) + LittleEndian(HEADER_BYTES, 2)
    + LittleEndian(c.generation, 8) + LittleEndian(c.epoch, 8) + LittleEndian(c.incarnation, 8)
    + LittleEndian(|c.payload|, 8) + codec.hash(c.payload)
  }

  function Header(codec: Codec, c: Content): (b: seq<byte>)
    requires |codec.hash(c.payload)| == 32
    ensures |b| == HEADER_BYTES
  {
    Checked(codec, c) + WordBytes(Crc32cOf(Checked(codec, c))) + RESERVED
  }

  function Encoded(codec: Codec, c: Content): (b: seq<byte>)
    requires |codec.hash(c.payload)| == 32
    ensures |b| == HEADER_BYTES + |c.payload|
  {
    Header(codec, c) + c.payload
  }

  datatype Encoding = TooLarge | Bytes(bytes: seq<byte>)

  method EncodeGeneration(codec: Codec, c: Content, maxBytes: nat) returns (r: Encoding)
    requires |codec.hash(c.payload)| == 32
    ensures r == if |c.payload| > maxBytes then TooLarge else Bytes(Encoded(codec, c))
  {
    hide Crc32cOf, WordBytes, LittleEndian, Checked;
    if |c.payload| > maxBytes { return TooLarge; }
    var out := new byte[HEADER_BYTES + |c.payload|](_ => 0);
    ghost var zeros := out[CHECKED_BYTES..];
    assert forall i :: 0 <= i < |zeros| ==> zeros[i] == 0;
    FillChecked(out, codec, c);
    assert out[CHECKED_BYTES + 4..HEADER_BYTES] == zeros[4..HEADER_BYTES - CHECKED_BYTES] == RESERVED;
    var crc := Crc32c(out[..CHECKED_BYTES]);
    StoreWord(out, CHECKED_BYTES, crc);
    assert out[..HEADER_BYTES] == Header(codec, c);
    Copy(out, HEADER_BYTES, c.payload);
    assert out[..] == out[..HEADER_BYTES] + out[HEADER_BYTES..];
    return Bytes(out[..]);
  }

  method FillChecked(out: array<byte>, codec: Codec, c: Content)
    requires out.Length >= HEADER_BYTES && |codec.hash(c.payload)| == 32
    modifies out
    ensures out[..CHECKED_BYTES] == Checked(codec, c)
    ensures out[CHECKED_BYTES..] == old(out[CHECKED_BYTES..])
  {
    hide LittleEndian;
    ghost var tail := out[CHECKED_BYTES..];
    out[0], out[1], out[2], out[3] := MAGIC[0], MAGIC[1], MAGIC[2], MAGIC[3];
    assert out[..4] == MAGIC && out[CHECKED_BYTES..] == tail;
    Field(out, 4, FORMAT_VERSION, 2, tail);
    Field(out, 6, HEADER_BYTES, 2, tail);
    Field(out, 8, c.generation, 8, tail);
    Field(out, 16, c.epoch, 8, tail);
    Field(out, 24, c.incarnation, 8, tail);
    Field(out, 32, |c.payload|, 8, tail);
    Copy(out, 40, codec.hash(c.payload));
    assert out[..CHECKED_BYTES] == out[..40] + out[40..CHECKED_BYTES];
  }

  /** Appends a field to the part written so far. */
  method Field(out: array<byte>, at: nat, v: nat, n: nat, ghost tail: seq<byte>)
    requires at + n <= CHECKED_BYTES <= out.Length && out[CHECKED_BYTES..] == tail
    modifies out
    ensures out[..at + n] == old(out[..at]) + LittleEndian(v, n)
    ensures out[CHECKED_BYTES..] == tail
  {
    hide LittleEndian;
    ghost var rest := out[at + n..];
    StoreLe(out, at, v, n);
    assert out[at + n..] == rest;
    assert out[CHECKED_BYTES..] == rest[CHECKED_BYTES - at - n..];
  }

  method Copy(out: array<byte>, at: nat, data: seq<byte>)
    requires at + |data| <= out.Length
    modifies out
    ensures out[..at] == old(out[..at]) && out[at..at + |data|] == data
    ensures out[at + |data|..] == old(out[at + |data|..])
  {
    for i := 0 to |data|
      invariant out[..at] == old(out[..at]) && out[at..at + i] == data[..i]
      invariant out[at + |data|..] == old(out[at + |data|..])
    {
      out[at + i] := data[i];
    }
  }

  datatype DecodeError =
    | ShortFile | BadMagic | BadVersion | BadHeaderSize | HeaderChecksum | BadLength | PayloadDigest | BadDocument

  datatype Decoding = Decoded(content: Content) | Refused(error: DecodeError)

  function HeaderErrors(h: seq<byte>): seq<DecodeError>
    requires |h| == HEADER_BYTES
  {
    if h[..4] != MAGIC then [BadMagic]
    else if Number(h[4..6]) != FORMAT_VERSION then [BadVersion]
    else if Number(h[6..8]) != HEADER_BYTES then [BadHeaderSize]
    else if Word(h[72..76]) != Crc32cOf(h[..CHECKED_BYTES]) then [HeaderChecksum]
    else []
  }

  function DecodeOf(codec: Codec, bytes: seq<byte>): Decoding {
    if |bytes| < HEADER_BYTES then Refused(ShortFile)
    else
      var h, payload := bytes[..HEADER_BYTES], bytes[HEADER_BYTES..];
      var errors := HeaderErrors(h);
      if errors != [] then Refused(errors[0])
      else if Number(h[32..40]) != |payload| then Refused(BadLength)
      else if h[40..72] != codec.hash(payload) then Refused(PayloadDigest)
      else if !codec.accepts(payload, Number(h[8..16])) then Refused(BadDocument)
      else Decoded(Content(Number(h[8..16]), Number(h[16..24]), Number(h[24..32]), payload))
  }

  method DecodeGeneration(codec: Codec, bytes: seq<byte>) returns (r: Decoding)
    ensures r == DecodeOf(codec, bytes)
  {
    if |bytes| < HEADER_BYTES { return Refused(ShortFile); }
    var h, payload := bytes[..HEADER_BYTES], bytes[HEADER_BYTES..];
    var errors := CheckHeader(h);
    if errors != [] { return Refused(errors[0]); }
    var length := LoadLe(h[32..40]);
    if length != |payload| { return Refused(BadLength); }
    if h[40..72] != codec.hash(payload) { return Refused(PayloadDigest); }
    var generation := LoadLe(h[8..16]);
    if !codec.accepts(payload, generation) { return Refused(BadDocument); }
    var epoch := LoadLe(h[16..24]);
    var incarnation := LoadLe(h[24..32]);
    return Decoded(Content(generation, epoch, incarnation, payload));
  }

  method CheckHeader(h: seq<byte>) returns (errors: seq<DecodeError>)
    requires |h| == HEADER_BYTES
    ensures errors == HeaderErrors(h)
  {
    if h[..4] != MAGIC { return [BadMagic]; }
    var version := LoadLe(h[4..6]);
    if version != FORMAT_VERSION { return [BadVersion]; }
    var size := LoadLe(h[6..8]);
    if size != HEADER_BYTES { return [BadHeaderSize]; }
    var actual := Crc32c(h[..CHECKED_BYTES]);
    if Word(h[72..76]) != actual { return [HeaderChecksum]; }
    return [];
  }

  lemma Widths()
    ensures Power256(2) == 0x1_0000 && Power256(8) == 0x1_0000_0000_0000_0000
  {
    assert Power256(4) == 0x1_0000_0000 by { assert Power256(3) == 0x100_0000; }
    assert Power256(6) == 0x1_0000_0000_0000 by { assert Power256(5) == 0x100_0000_0000; }
    assert Power256(7) == 0x100_0000_0000_0000;
  }

  lemma SlicesOfHeader(codec: Codec, c: Content)
    requires |codec.hash(c.payload)| == 32
    ensures var h := Header(codec, c);
      && h[..4] == MAGIC && h[..CHECKED_BYTES] == Checked(codec, c)
      && h[4..6] == LittleEndian(FORMAT_VERSION, 2) && h[6..8] == LittleEndian(HEADER_BYTES, 2)
      && h[8..16] == LittleEndian(c.generation, 8) && h[16..24] == LittleEndian(c.epoch, 8)
      && h[24..32] == LittleEndian(c.incarnation, 8) && h[32..40] == LittleEndian(|c.payload|, 8)
      && h[40..72] == codec.hash(c.payload) && h[72..76] == WordBytes(Crc32cOf(Checked(codec, c)))
  {
    hide Crc32cOf, WordBytes, LittleEndian;
  }

  lemma FieldsOfHeader(codec: Codec, c: Content)
    requires |codec.hash(c.payload)| == 32 && Fits(c)
    ensures var h := Header(codec, c);
      && HeaderErrors(h) == [] && h[40..72] == codec.hash(c.payload)
      && Number(h[8..16]) == c.generation && Number(h[16..24]) == c.epoch && Number(h[24..32]) == c.incarnation
      && Number(h[32..40]) == |c.payload|
  {
    hide Crc32cOf, Word, WordBytes, Number, LittleEndian, Power256, Header, Checked;
    SlicesOfHeader(codec, c);
    Widths();
    NumberOfLittleEndian(FORMAT_VERSION, 2);
    NumberOfLittleEndian(HEADER_BYTES, 2);
    NumberOfLittleEndian(c.generation, 8);
    NumberOfLittleEndian(c.epoch, 8);
    NumberOfLittleEndian(c.incarnation, 8);
    NumberOfLittleEndian(|c.payload|, 8);
    WordOfBytes(Crc32cOf(Checked(codec, c)));
  }

  /** A file decodes to what was encoded, provided the payload is a document of that number. */
  lemma RoundTrip(codec: Codec, c: Content)
    requires |codec.hash(c.payload)| == 32 && Fits(c)
    ensures DecodeOf(codec, Encoded(codec, c)) ==
      if codec.accepts(c.payload, c.generation) then Decoded(c) else Refused(BadDocument)
  {
    hide Crc32cOf, Word, Number, Header, HeaderErrors;
    var bytes := Encoded(codec, c);
    assert bytes[..HEADER_BYTES] == Header(codec, c) && bytes[HEADER_BYTES..] == c.payload;
    FieldsOfHeader(codec, c);
  }

  lemma ChangedHeader(h: seq<byte>, i: nat, b: byte)
    requires |h| == HEADER_BYTES && i < 76 && b != h[i]
    requires Word(h[72..76]) == Crc32cOf(h[..CHECKED_BYTES])
    ensures HeaderErrors(h[i := b]) != []
  {
    hide Crc32cOf, Word, WordBytes, Number;
    var c := h[i := b];
    if i < CHECKED_BYTES {
      OneChangedByteIsDetected(h[..CHECKED_BYTES], c[..CHECKED_BYTES], i);
      assert c[72..76] == h[72..76];
    } else {
      assert c[..CHECKED_BYTES] == h[..CHECKED_BYTES];
      assert c[72..76][i - 72] == b && h[72..76][i - 72] == h[i];
      BytesOfWord(h[72..76]);
      BytesOfWord(c[72..76]);
    }
  }

  lemma ReservedIsUnread(h: seq<byte>, i: nat, b: byte)
    requires |h| == HEADER_BYTES && 76 <= i < HEADER_BYTES
    ensures HeaderErrors(h[i := b]) == HeaderErrors(h)
    ensures h[i := b][..76] == h[..76]
  {
    hide Crc32cOf, Word, Number;
    var c := h[i := b];
    assert c[..76] == h[..76];
    assert c[..4] == h[..4] && c[4..6] == h[4..6] && c[6..8] == h[6..8];
    assert c[72..76] == h[72..76] && c[..CHECKED_BYTES] == h[..CHECKED_BYTES];
  }

  /** One changed byte in the header is refused exactly where a check covers it: everywhere but the reserved tail,
      where it goes unnoticed and the decoded content is the same. */
  lemma OneChangedHeaderByte(codec: Codec, bytes: seq<byte>, i: nat, b: byte)
    requires DecodeOf(codec, bytes).Decoded? && i < HEADER_BYTES && b != bytes[i]
    ensures if i < 76 then DecodeOf(codec, bytes[i := b]).Refused? else DecodeOf(codec, bytes[i := b]) == DecodeOf(codec, bytes)
  {
    hide Crc32cOf, Word, Number, HeaderErrors;
    var h, changed := bytes[..HEADER_BYTES], bytes[i := b];
    assert changed[..HEADER_BYTES] == h[i := b] && changed[HEADER_BYTES..] == bytes[HEADER_BYTES..];
    PassingHeader(h);
    if i < 76 {
      ChangedHeader(h, i, b);
    } else {
      ReservedIsUnread(h, i, b);
      SlicesBelow76(h, h[i := b]);
    }
  }

  lemma PassingHeader(h: seq<byte>)
    requires |h| == HEADER_BYTES && HeaderErrors(h) == []
    ensures Word(h[72..76]) == Crc32cOf(h[..CHECKED_BYTES])
  {
  }

  lemma SlicesBelow76(h: seq<byte>, c: seq<byte>)
    requires |h| == |c| == HEADER_BYTES && h[..76] == c[..76]
    ensures h[8..16] == c[8..16] && h[16..24] == c[16..24] && h[24..32] == c[24..32] && h[32..40] == c[32..40]
    ensures h[40..72] == c[40..72]
  {
    assert forall i :: 0 <= i < 76 ==> h[i] == h[..76][i] && c[i] == c[..76][i];
  }

  /** A changed payload passes only if its digest did not change. */
  lemma ChangedPayload(codec: Codec, bytes: seq<byte>, payload: seq<byte>)
    requires DecodeOf(codec, bytes).Decoded?
    requires codec.hash(payload) != codec.hash(bytes[HEADER_BYTES..])
    ensures DecodeOf(codec, bytes[..HEADER_BYTES] + payload).Refused?
  {
    hide Crc32cOf, Word, Number, HeaderErrors;
    var changed := bytes[..HEADER_BYTES] + payload;
    assert changed[..HEADER_BYTES] == bytes[..HEADER_BYTES] && changed[HEADER_BYTES..] == payload;
  }
}
