/** Where every field of a frame and of a generation file stands, and concrete texts of the other formats. */
module Layouts {
  import opened Bytes
  import opened Crc
  import Frames
  import GenerationFile
  import Identity
  import Decimal
  import VersionText
  import SemVer

  /** The n bytes from an offset are a number, least significant byte first. */
  ghost predicate Field(b: seq<byte>, at: nat, n: nat, v: nat) {
    at + n <= |b| && forall i :: 0 <= i < n ==> ValueOf(b[at + i]) == v / Power256(i) % 256
  }

  lemma FieldIs(b: seq<byte>, at: nat, n: nat, v: nat)
    requires at + n <= |b| && b[at..at + n] == LittleEndian(v, n)
    ensures Field(b, at, n, v)
  {
    hide LittleEndian, ValueOf, Power256;
    forall i | 0 <= i < n ensures ValueOf(b[at + i]) == v / Power256(i) % 256 {
      LittleEndianAt(v, n, i);
      assert b[at + i] == b[at..at + n][i];
    }
  }

  lemma WordLayout(word: bv32)
    ensures WordBytes(0x0403_0201) == [1, 2, 3, 4]
    ensures WordBytes(word)[0] == (word % 0x100) as bv8 && WordBytes(word)[3] == (word / 0x100_0000) as bv8
  {
  }

  /** "FCRF", version 1, kind, length and correlation, the two checksums, then the payload. */
  lemma FrameLayout(f: Frames.Frame)
    ensures var b := Frames.Encoded(f);
      && |b| == 28 + |f.payload|
      && b[..4] == [0x46, 0x43, 0x52, 0x46] && Field(b, 4, 2, 1) && Field(b, 6, 2, f.kind)
      && Field(b, 8, 4, |f.payload|) && Field(b, 12, 8, f.correlation)
      && b[20..24] == WordBytes(Crc32cOf(b[..20])) && b[24..28] == WordBytes(Crc32cOf(b[28..])) && b[28..] == f.payload
  {
    hide LittleEndian, WordBytes, Crc32cOf, Field;
    var b := Frames.Encoded(f);
    assert b[4..6] == LittleEndian(1, 2) && b[6..8] == LittleEndian(f.kind, 2);
    assert b[8..12] == LittleEndian(|f.payload|, 4) && b[12..20] == LittleEndian(f.correlation, 8);
    FieldIs(b, 4, 2, 1);
    FieldIs(b, 6, 2, f.kind);
    FieldIs(b, 8, 4, |f.payload|);
    FieldIs(b, 12, 8, f.correlation);
    assert b[..20] == Frames.Checked(f) && b[28..] == f.payload;
  }

  /** "FCRG", version 1, header size 96, three numbers, length, digest, checksum, twenty zeros, then the payload. */
  lemma GenerationLayout(codec: GenerationFile.Codec, c: GenerationFile.Content)
    requires |codec.hash(c.payload)| == 32
    ensures var b := GenerationFile.Encoded(codec, c);
      && |b| == 96 + |c.payload|
      && b[..4] == [0x46, 0x43, 0x52, 0x47] && Field(b, 4, 2, 1) && Field(b, 6, 2, 96)
      && Field(b, 8, 8, c.generation) && Field(b, 16, 8, c.epoch) && Field(b, 24, 8, c.incarnation)
      && Field(b, 32, 8, |c.payload|) && b[40..72] == codec.hash(c.payload)
      && b[72..76] == WordBytes(Crc32cOf(b[..72])) && (forall i :: 76 <= i < 96 ==> b[i] == 0) && b[96..] == c.payload
  {
    hide LittleEndian, WordBytes, Crc32cOf, Field;
    var b, h := GenerationFile.Encoded(codec, c), GenerationFile.Header(codec, c);
    GenerationFile.SlicesOfHeader(codec, c);
    assert forall i :: 0 <= i < 96 ==> b[i] == h[i];
    assert b[..4] == h[..4] && b[4..6] == h[4..6] && b[6..8] == h[6..8] && b[8..16] == h[8..16] && b[16..24] == h[16..24];
    assert b[24..32] == h[24..32] && b[32..40] == h[32..40] && b[40..72] == h[40..72] && b[72..76] == h[72..76];
    assert b[..72] == h[..72];
    FieldIs(b, 4, 2, 1);
    FieldIs(b, 6, 2, 96);
    FieldIs(b, 8, 8, c.generation);
    FieldIs(b, 16, 8, c.epoch);
    FieldIs(b, 24, 8, c.incarnation);
    FieldIs(b, 32, 8, |c.payload|);
    assert forall i :: 76 <= i < 96 ==> h[i] == GenerationFile.RESERVED[i - 76];
  }

  // ----- Refusals -----

  /** What is wrong with a header, looked at in this order. */
  lemma FrameErrors(b: seq<byte>, max: nat)
    ensures b == [] <==> Frames.ReadOf(b, max) == Frames.EndOfStream
    ensures 0 < |b| < 28 ==> Frames.ReadOf(b, max) == Frames.Failed(Frames.CutInMessage)
    ensures |b| >= 28 && Frames.ReadOf(b, max).Failed? ==>
      Frames.ReadOf(b, max).error == (
        if b[..4] != [0x46, 0x43, 0x52, 0x46] then Frames.BadMagic
        else if Number(b[4..6]) != 1 then Frames.BadVersion
        else if Word(b[20..24]) != Crc32cOf(b[..20]) then Frames.HeaderChecksum
        else if Number(b[8..12]) > max then Frames.TooLarge
        else if |b| == 28 then (if Number(b[8..12]) > 0 then Frames.CutInPayload else Frames.PayloadChecksum)
        else if |b| - 28 < Number(b[8..12]) then Frames.CutInMessage
        else Frames.PayloadChecksum)
  {
    hide Number, Word, Crc32cOf;
    if |b| >= 28 {
      var h := b[..28];
      assert h[..4] == b[..4] && h[4..6] == b[4..6] && h[20..24] == b[20..24] && h[..20] == b[..20] && h[8..12] == b[8..12];
    }
  }

  lemma GenerationErrors(codec: GenerationFile.Codec, b: seq<byte>)
    requires GenerationFile.DecodeOf(codec, b).Refused?
    ensures GenerationFile.DecodeOf(codec, b).error ==
      if |b| < 96 then GenerationFile.ShortFile
      else if b[..4] != [0x46, 0x43, 0x52, 0x47] then GenerationFile.BadMagic
      else if Number(b[4..6]) != 1 then GenerationFile.BadVersion
      else if Number(b[6..8]) != 96 then GenerationFile.BadHeaderSize
      else if Word(b[72..76]) != Crc32cOf(b[..72]) then GenerationFile.HeaderChecksum
      else if Number(b[32..40]) != |b| - 96 then GenerationFile.BadLength
      else if b[40..72] != codec.hash(b[96..]) then GenerationFile.PayloadDigest
      else GenerationFile.BadDocument
  {
    hide Number, Word, Crc32cOf;
    if |b| >= 96 {
      var h := b[..96];
      assert h[..4] == b[..4] && h[4..6] == b[4..6] && h[6..8] == b[6..8] && h[72..76] == b[72..76] && h[..72] == b[..72];
      assert h[32..40] == b[32..40] && h[40..72] == b[40..72];
    }
  }

  // ----- Texts -----

  /** Two digits a byte, high half first, in lower case. */
  lemma HexText()
    ensures Identity.ToHex([0x00, 0x1B, 0xFF]) == "001bff"
  {
    assert ValueOf(0x00) == 0 && ValueOf(0x1B) == 27 && ValueOf(0xFF) == 255;
    hide ValueOf;
    assert [0x00 as byte, 0x1B, 0xFF][..2] == [0x00, 0x1B] && [0x00 as byte, 0x1B][..1] == [0x00] && [0x00 as byte][..0] == [];
    assert Identity.ToHex([0x00]) == "00";
    assert Identity.ToHex([0x00, 0x1B]) == "001b";
  }

  lemma VersionTextOf()
    ensures VersionText.VersionString(SemVer.SemVersion(1, 20, 3, ["rc", "1"], "b.7")) == "1.20.3-rc.1+b.7"
  {
    assert Decimal.Print(1) == "1" && Decimal.Print(3) == "3" && Decimal.Print(2) == "2" && Decimal.Print(20) == "20";
    hide Decimal.Print;
    assert ["rc", "1"][1..] == ["1"];
    assert VersionText.Join(["1"], '.') == "1";
    assert VersionText.Join(["rc", "1"], '.') == "rc.1";
  }
}
