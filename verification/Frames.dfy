/** Framed transport over a byte stream that arrives in arbitrary chunks (src/transport.cpp). */
module Frames {
  import opened Bytes
  import opened Crc

  const MAGIC: seq<byte> := [0x46, 0x43, 0x52, 0x46]
  const FORMAT_VERSION: nat := 1
  const HEADER_BYTES: nat := 28
  const CHECKED_BYTES: nat := 20
  const CHUNK_LIMIT: nat := 0x10_0000

  datatype Frame = Frame(kind: nat, correlation: nat, payload: seq<byte>)

  /** The fields fit their widths. */
  predicate Fits(f: Frame) {
    f.kind < 0x1_0000 && f.correlation < 0x1_0000_0000_0000_0000 && |f.payload| < 0x1_0000_0000
  }

  // ----- Writing -----

  /** The header bytes under the header checksum. */
  function Checked(f: Frame): (b: seq<byte>)
    ensures |b| == CHECKED_BYTES
  {
    MAGIC + LittleEndian(FORMAT_VERSION, 2) + LittleEndian(f.kind, 2) + LittleEndian(|f.payload|, 4)
    + LittleEndian(f.correlation, 8)
  }

  function Header(f: Frame): (b: seq<byte>)
    ensures |b| == HEADER_BYTES
  {
    Checked(f) + WordBytes(Crc32cOf(Checked(f))) + WordBytes(Crc32cOf(f.payload))
  }

  function Encoded(f: Frame): (b: seq<byte>)
    ensures |b| == HEADER_BYTES + |f.payload|
  {
    Header(f) + f.payload
  }

  datatype Encoding = TooLong | Bytes(bytes: seq<byte>)

  method EncodeFrame(f: Frame, maxFrameBytes: nat) returns (r: Encoding)
    ensures r == if |f.payload| > maxFrameBytes then TooLong else Bytes(Encoded(f))
  {
    if |f.payload| > maxFrameBytes { return TooLong; }
    hide LittleEndian, WordBytes, Crc32cOf, Checked;
    var out := new byte[HEADER_BYTES + |f.payload|](_ => 0);
    FillChecked(out, f);
    var headerCrc := Crc32c(out[..CHECKED_BYTES]);
    StoreWord(out, 20, headerCrc);
    var payloadCrc := Crc32c(f.payload);
    StoreWord(out, 24, payloadCrc);
    assert out[..HEADER_BYTES] == Header(f);
    CopyInto(out, HEADER_BYTES, f.payload);
    return Bytes(out[..]);
  }

  method CopyInto(out: array<byte>, at: nat, data: seq<byte>)
    requires at + |data| == out.Length
    modifies out
    ensures out[..] == old(out[..at]) + data
  {
    for i := 0 to |data|
      invariant out[..at] == old(out[..at])
      invariant out[at..at + i] == data[..i]
    {
      out[at + i] := data[i];
    }
    assert out[..] == out[..at] + out[at..at + |data|];
  }

  method FillChecked(out: array<byte>, f: Frame)
    requires out.Length >= HEADER_BYTES
    modifies out
    ensures out[..CHECKED_BYTES] == Checked(f)
  {
    out[0], out[1], out[2], out[3] := MAGIC[0], MAGIC[1], MAGIC[2], MAGIC[3];
    assert out[..4] == MAGIC;
    StoreLe(out, 4, FORMAT_VERSION, 2);
    assert out[..6] == MAGIC + LittleEndian(FORMAT_VERSION, 2);
    StoreLe(out, 6, f.kind, 2);
    assert out[..8] == MAGIC + LittleEndian(FORMAT_VERSION, 2) + LittleEndian(f.kind, 2);
    StoreLe(out, 8, |f.payload|, 4);
    StoreLe(out, 12, f.correlation, 8);
  }

  // ----- Receiving -----

  /** The bytes that will still arrive before the peer closes. */
  class Socket {
    var incoming: seq<byte>

    constructor (incoming: seq<byte>)
      ensures this.incoming == incoming
    {
      this.incoming := incoming;
    }

    /** Some of them, at most `want`; none only at the end. */
    method Recv(want: nat) returns (got: seq<byte>)
      requires want > 0
      modifies this
      ensures got + incoming == old(incoming)
      ensures |got| <= want
      ensures got == [] <==> old(incoming) == []
    {
      if incoming == [] { return []; }
      var most := if want < |incoming| then want else |incoming|;
      var k: nat :| 0 < k <= most;
      got := incoming[..k];
      incoming := incoming[k..];
    }

    /** However the bytes are chunked, it gets exactly the first `size` of them. */
    method RecvAll(size: nat) returns (r: Receipt)
      modifies this
      ensures size <= |old(incoming)| ==> r == Complete(old(incoming)[..size]) && incoming == old(incoming)[size..]
      ensures size > |old(incoming)| ==> incoming == []
      ensures size > |old(incoming)| ==> r == if old(incoming) == [] then Closed else ClosedMidMessage
    {
      var data: seq<byte> := [];
      while |data| < size
        invariant |data| <= size
        invariant data + incoming == old(incoming)
        decreases size - |data|
      {
        var want := if size - |data| < CHUNK_LIMIT then size - |data| else CHUNK_LIMIT;
        var got := Recv(want);
        if got == [] {
          return if data == [] then Closed else ClosedMidMessage;
        }
        data := data + got;
      }
      return Complete(data);
    }
  }

  datatype Receipt = Complete(data: seq<byte>) | Closed | ClosedMidMessage

  // ----- Reading a frame -----

  datatype ReadError =
    | BadMagic | BadVersion | HeaderChecksum | TooLarge | PayloadChecksum | CutInMessage | CutInPayload

  /** `Got` carries the bytes that follow the frame. */
  datatype ReadOutcome = EndOfStream | Got(frame: Frame, rest: seq<byte>) | Failed(error: ReadError)

  function HeaderError(h: seq<byte>, maxFrameBytes: nat): (e: seq<ReadError>)
    requires |h| == HEADER_BYTES
  {
    if h[..4] != MAGIC then [BadMagic]
    else if Number(h[4..6]) != FORMAT_VERSION then [BadVersion]
    else if Word(h[20..24]) != Crc32cOf(h[..CHECKED_BYTES]) then [HeaderChecksum]
    else if Number(h[8..12]) > maxFrameBytes then [TooLarge]
    else []
  }

  function ReadOf(incoming: seq<byte>, maxFrameBytes: nat): ReadOutcome {
    if incoming == [] then EndOfStream
    else if |incoming| < HEADER_BYTES then Failed(CutInMessage)
    else
      var h, body := incoming[..HEADER_BYTES], incoming[HEADER_BYTES..];
      var error := HeaderError(h, maxFrameBytes);
      var length := Number(h[8..12]);
      if error != [] then Failed(error[0])
      else if length > |body| then Failed(if body == [] then CutInPayload else CutInMessage)
      else if Word(h[24..28]) != Crc32cOf(body[..length]) then Failed(PayloadChecksum)
      else Got(Frame(Number(h[6..8]), Number(h[12..20]), body[..length]), body[length..])
  }

  method CheckHeader(h: seq<byte>, maxFrameBytes: nat) returns (error: seq<ReadError>)
    requires |h| == HEADER_BYTES
    ensures error == HeaderError(h, maxFrameBytes)
  {
    if h[..4] != MAGIC { return [BadMagic]; }
    var version := LoadLe(h[4..6]);
    if version != FORMAT_VERSION { return [BadVersion]; }
    var actual := Crc32c(h[..CHECKED_BYTES]);
    if Word(h[20..24]) != actual { return [HeaderChecksum]; }
    var length := LoadLe(h[8..12]);
    if length > maxFrameBytes { return [TooLarge]; }
    return [];
  }

  /** What is read depends on the bytes alone, never on how they were cut into chunks. */
  method ReadFrame(socket: Socket, maxFrameBytes: nat) returns (r: ReadOutcome)
    modifies socket
    ensures r == ReadOf(old(socket.incoming), maxFrameBytes)
    ensures r.Got? ==> socket.incoming == r.rest
  {
    var header := socket.RecvAll(HEADER_BYTES);
    if header.Closed? { return EndOfStream; }
    if header.ClosedMidMessage? { return Failed(CutInMessage); }
    var h := header.data;
    var error := CheckHeader(h, maxFrameBytes);
    if error != [] { return Failed(error[0]); }
    var length := LoadLe(h[8..12]);
    var payload: seq<byte> := [];
    if length != 0 {
      var body := socket.RecvAll(length);
      if body.Closed? { return Failed(CutInPayload); }
      if body.ClosedMidMessage? { return Failed(CutInMessage); }
      payload := body.data;
    }
    var actual := Crc32c(payload);
    if Word(h[24..28]) != actual { return Failed(PayloadChecksum); }
    var kind := LoadLe(h[6..8]);
    var correlation := LoadLe(h[12..20]);
    return Got(Frame(kind, correlation, payload), socket.incoming);
  }

  // ----- Round trip and rejection -----

  lemma FieldsOfHeader(f: Frame)
    requires Fits(f)
    ensures var h := Header(f);
      && h[..4] == MAGIC && h[..CHECKED_BYTES] == Checked(f)
      && Number(h[4..6]) == FORMAT_VERSION && Number(h[6..8]) == f.kind && Number(h[8..12]) == |f.payload|
      && Number(h[12..20]) == f.correlation
      && Word(h[20..24]) == Crc32cOf(Checked(f)) && Word(h[24..28]) == Crc32cOf(f.payload)
  {
    hide Crc32cOf, Word, WordBytes, Number, LittleEndian, Power256;
    var h := Header(f);
    assert h[4..6] == LittleEndian(FORMAT_VERSION, 2) && h[6..8] == LittleEndian(f.kind, 2);
    assert h[8..12] == LittleEndian(|f.payload|, 4) && h[12..20] == LittleEndian(f.correlation, 8);
    assert h[20..24] == WordBytes(Crc32cOf(Checked(f))) && h[24..28] == WordBytes(Crc32cOf(f.payload));
    Widths();
    NumberOfLittleEndian(FORMAT_VERSION, 2);
    NumberOfLittleEndian(f.kind, 2);
    NumberOfLittleEndian(|f.payload|, 4);
    NumberOfLittleEndian(f.correlation, 8);
    WordOfBytes(Crc32cOf(Checked(f)));
    WordOfBytes(Crc32cOf(f.payload));
  }

  lemma Widths()
    ensures Power256(2) == 0x1_0000 && Power256(4) == 0x1_0000_0000 && Power256(8) == 0x1_0000_0000_0000_0000
  {
    assert Power256(1) == 256;
    assert Power256(3) == 0x100_0000;
    assert Power256(5) == 0x100_0000_0000;
    assert Power256(6) == 0x1_0000_0000_0000;
    assert Power256(7) == 0x100_0000_0000_0000;
  }

  /** What was written is read back, and the stream goes on after it. */
  lemma RoundTrip(f: Frame, rest: seq<byte>, maxFrameBytes: nat)
    requires Fits(f) && |f.payload| <= maxFrameBytes
    ensures ReadOf(Encoded(f) + rest, maxFrameBytes) == Got(f, rest)
  {
    hide Crc32cOf, Word, WordBytes, Number, LittleEndian, Header, Checked;
    var incoming := Encoded(f) + rest;
    assert incoming[..HEADER_BYTES] == Header(f);
    assert incoming[HEADER_BYTES..] == f.payload + rest;
    FieldsOfHeader(f);
  }

  /** Nothing else is read: an accepted frame was its own encoding. */
  lemma OnlyEncodingsAreRead(incoming: seq<byte>, maxFrameBytes: nat)
    requires ReadOf(incoming, maxFrameBytes).Got?
    ensures var r := ReadOf(incoming, maxFrameBytes);
      Fits(r.frame) && |r.frame.payload| <= maxFrameBytes && incoming == Encoded(r.frame) + r.rest
  {
    hide Crc32cOf, Word, WordBytes, Number, LittleEndian, Header, Fits;
    var h, body := incoming[..HEADER_BYTES], incoming[HEADER_BYTES..];
    var f := ReadOf(incoming, maxFrameBytes).frame;
    HeaderIsRebuilt(h, f);
    assert incoming == h + body;
    assert body == f.payload + body[|f.payload|..];
  }

  lemma HeaderIsRebuilt(h: seq<byte>, f: Frame)
    requires |h| == HEADER_BYTES && h[..4] == MAGIC && Number(h[4..6]) == FORMAT_VERSION
    requires f.kind == Number(h[6..8]) && |f.payload| == Number(h[8..12]) && f.correlation == Number(h[12..20])
    requires Word(h[20..24]) == Crc32cOf(h[..CHECKED_BYTES]) && Word(h[24..28]) == Crc32cOf(f.payload)
    ensures Fits(f) && h == Header(f)
  {
    hide Crc32cOf, Word, WordBytes, Number, LittleEndian;
    LittleEndianOfNumber(h[4..6]);
    LittleEndianOfNumber(h[6..8]);
    LittleEndianOfNumber(h[8..12]);
    LittleEndianOfNumber(h[12..20]);
    Widths();
    assert h[..CHECKED_BYTES] == h[..4] + h[4..6] + h[6..8] + h[8..12] + h[12..20];
    assert h[..CHECKED_BYTES] == Checked(f);
    BytesOfWord(h[20..24]);
    BytesOfWord(h[24..28]);
    assert h == h[..CHECKED_BYTES] + h[20..24] + h[24..28];
  }

  /** The header with one byte changed no longer passes, wherever the change is. */
  lemma ChangedHeaderFails(h: seq<byte>, payload: seq<byte>, i: nat, b: byte, maxFrameBytes: nat)
    requires |h| == HEADER_BYTES && i < HEADER_BYTES && b != h[i]
    requires Word(h[20..24]) == Crc32cOf(h[..CHECKED_BYTES])
    requires Word(h[24..28]) == Crc32cOf(payload)
    ensures i < 24 ==> HeaderError(h[i := b], maxFrameBytes) != []
    ensures i >= 24 ==> Word(h[i := b][24..28]) != Crc32cOf(payload)
  {
    hide Crc32cOf, Word, WordBytes, Number;
    var c := h[i := b];
    if i < CHECKED_BYTES {
      OneChangedByteIsDetected(h[..CHECKED_BYTES], c[..CHECKED_BYTES], i);
      assert c[20..24] == h[20..24];
    } else if i < 24 {
      assert c[..CHECKED_BYTES] == h[..CHECKED_BYTES];
      assert c[20..24][i - 20] == b && h[20..24][i - 20] == h[i];
      WordsTellApart(h[20..24], c[20..24]);
    } else {
      assert c[24..28][i - 24] == b && h[24..28][i - 24] == h[i];
      WordsTellApart(h[24..28], c[24..28]);
    }
  }

  lemma WordsTellApart(a: seq<byte>, b: seq<byte>)
    requires |a| == 4 && |b| == 4 && a != b
    ensures Word(a) != Word(b)
  {
    hide Word, WordBytes;
    BytesOfWord(a);
    BytesOfWord(b);
  }

  /** A frame with exactly one changed byte is always refused, whatever follows it. */
  lemma OneChangedByteIsRefused(f: Frame, rest: seq<byte>, i: nat, b: byte, maxFrameBytes: nat)
    requires Fits(f) && |f.payload| <= maxFrameBytes
    requires i < |Encoded(f)| && b != Encoded(f)[i]
    ensures ReadOf(Encoded(f)[i := b] + rest, maxFrameBytes).Failed?
  {
    hide Crc32cOf, Word, WordBytes, Number, LittleEndian, Header, Checked, HeaderError;
    var incoming := Encoded(f)[i := b] + rest;
    FieldsOfHeader(f);
    if i < HEADER_BYTES {
      assert incoming[..HEADER_BYTES] == Header(f)[i := b];
      assert incoming[HEADER_BYTES..] == f.payload + rest;
      ChangedHeaderFails(Header(f), f.payload, i, b, maxFrameBytes);
      if i >= 24 {
        assert Header(f)[i := b][8..12] == Header(f)[8..12];
        assert (f.payload + rest)[..|f.payload|] == f.payload;
      }
    } else {
      var changed := f.payload[i - HEADER_BYTES := b];
      assert incoming[..HEADER_BYTES] == Header(f);
      assert incoming[HEADER_BYTES..] == changed + rest;
      assert (changed + rest)[..|f.payload|] == changed;
      OneChangedByteIsDetected(f.payload, changed, i - HEADER_BYTES);
    }
  }
}
