/** Streaming SHA-256 (src/digest.cpp; FIPS 180-4). */
module Sha256 {
  import opened Bytes

  const BLOCK_BYTES: nat := 64
  const LENGTH_MODULUS: nat := 0x1_0000_0000_0000_0000

  const K_FIRST: seq<bv32> := [
    0x428a2f98, 0x71374491, 0xb5c0fbcf, 0xe9b5dba5, 0x3956c25b, 0x59f111f1, 0x923f82a4, 0xab1c5ed5,
    0xd807aa98, 0x12835b01, 0x243185be, 0x550c7dc3, 0x72be5d74, 0x80deb1fe, 0x9bdc06a7, 0xc19bf174]

  const K_SECOND: seq<bv32> := [
    0xe49b69c1, 0xefbe4786, 0x0fc19dc6, 0x240ca1cc, 0x2de92c6f, 0x4a7484aa, 0x5cb0a9dc, 0x76f988da,
    0x983e5152, 0xa831c66d, 0xb00327c8, 0xbf597fc7, 0xc6e00bf3, 0xd5a79147, 0x06ca6351, 0x14292967]

  const K_THIRD: seq<bv32> := [
    0x27b70a85, 0x2e1b2138, 0x4d2c6dfc, 0x53380d13, 0x650a7354, 0x766a0abb, 0x81c2c92e, 0x92722c85,
    0xa2bfe8a1, 0xa81a664b, 0xc24b8b70, 0xc76c51a3, 0xd192e819, 0xd6990624, 0xf40e3585, 0x106aa070]

  const K_FOURTH: seq<bv32> := [
    0x19a4c116, 0x1e376c08, 0x2748774c, 0x34b0bcb5, 0x391c0cb3, 0x4ed8aa4a, 0x5b9cca4f, 0x682e6ff3,
    0x748f82ee, 0x78a5636f, 0x84c87814, 0x8cc70208, 0x90befffa, 0xa4506ceb, 0xbef9a3f7, 0xc67178f2]

  /** The round constants, sixteen to a list. */
  const K: seq<bv32> := (K_FIRST + K_SECOND) + (K_THIRD + K_FOURTH)

  const INITIAL: seq<bv32> := [
    0x6a09e667, 0xbb67ae85, 0x3c6ef372, 0xa54ff53a, 0x510e527f, 0x9b05688c, 0x1f83d9ab, 0x5be0cd19]

  // ----- The algorithm, over any word arithmetic -----

  /** Addition, the six functions, the constants, and words as bytes. */
  datatype Words<!W> = Words(
    add: (W, W) -> W,
    ch: (W, W, W) -> W,
    maj: (W, W, W) -> W,
    bigSigma0: W -> W,
    bigSigma1: W -> W,
    smallSigma0: W -> W,
    smallSigma1: W -> W,
    constant: nat -> W,
    load: seq<byte> -> W,
    store: W -> seq<byte>,
    initial: seq<W>)

  ghost predicate Lawful<W(!new)>(m: Words<W>) {
    && (forall w :: |m.store(w)| == 4)
    && |m.initial| == 8
  }

  /** The message schedule: the four summands of section 6.2.2, in the order the program adds them. */
  function Schedule<W>(m: Words<W>, block: seq<byte>, t: nat): W
    requires |block| == BLOCK_BYTES && t < 64
  {
    if t < 16 then m.load(block[4 * t..4 * t + 4])
    else
      m.add(m.add(m.add(Schedule(m, block, t - 16), m.smallSigma0(Schedule(m, block, t - 15))), Schedule(m, block, t - 7)),
            m.smallSigma1(Schedule(m, block, t - 2)))
  }

  datatype Working<W> = Working(a: W, b: W, c: W, d: W, e: W, f: W, g: W, h: W)

  function Round<W>(m: Words<W>, v: Working<W>, k: W, w: W): Working<W> {
    var t1 := m.add(m.add(m.add(m.add(v.h, m.bigSigma1(v.e)), m.ch(v.e, v.f, v.g)), k), w);
    var t2 := m.add(m.bigSigma0(v.a), m.maj(v.a, v.b, v.c));
    Working(m.add(t1, t2), v.a, v.b, v.c, m.add(v.d, t1), v.e, v.f, v.g)
  }

  function Rounds<W>(m: Words<W>, v: Working<W>, block: seq<byte>, t: nat): Working<W>
    requires |block| == BLOCK_BYTES && t <= 64
  {
    if t == 0 then v else Round(m, Rounds(m, v, block, t - 1), m.constant(t - 1), Schedule(m, block, t - 1))
  }

  function FromWords<W>(h: seq<W>): Working<W>
    requires |h| == 8
  {
    Working(h[0], h[1], h[2], h[3], h[4], h[5], h[6], h[7])
  }

  function At<W>(v: Working<W>, i: nat): W
    requires i < 8
  {
    match i
    case 0 => v.a
    case 1 => v.b
    case 2 => v.c
    case 3 => v.d
    case 4 => v.e
    case 5 => v.f
    case 6 => v.g
    case _ => v.h
  }

  function Sums<W>(m: Words<W>, h: seq<W>, v: Working<W>): (r: seq<W>)
    requires |h| == 8
    ensures |r| == 8
  {
    seq(8, i requires 0 <= i < 8 => m.add(h[i], At(v, i)))
  }

  function CompressOf<W>(m: Words<W>, h: seq<W>, block: seq<byte>): (r: seq<W>)
    requires |h| == 8 && |block| == BLOCK_BYTES
    ensures |r| == 8
  {
    Sums(m, h, Rounds(m, FromWords(h), block, 64))
  }

  // ----- Padding and the hash of a message -----

  function CompressAll<W>(m: Words<W>, data: seq<byte>): (r: seq<W>)
    requires |m.initial| == 8 && |data| % BLOCK_BYTES == 0
    ensures |r| == 8
  {
    if data == [] then m.initial
    else CompressOf(m, CompressAll(m, data[..|data| - BLOCK_BYTES]), data[|data| - BLOCK_BYTES..])
  }

  function Zeros(n: nat): (z: seq<byte>)
    ensures |z| == n
  {
    seq(n, _ => 0)
  }

  function LengthByte(v: nat, i: nat): byte
    requires i < 8
  {
    ByteOf(v / Power256(7 - i) % 256)
  }

  /** The length in bits, most significant byte first. */
  function BigEndian64(v: nat): (b: seq<byte>)
    ensures |b| == 8
  {
    seq(8, i requires 0 <= i < 8 => LengthByte(v, i))
  }

  /** The least number of zeros after the one bit that leaves room for the length at the end of a block. */
  function ZeroCount(length: nat): (k: nat)
    ensures k < BLOCK_BYTES
    ensures (length + 1 + k) % BLOCK_BYTES == 56
  {
    (119 - length % BLOCK_BYTES) % BLOCK_BYTES
  }

  function Padding(length: nat): (p: seq<byte>)
    ensures |p| == 1 + ZeroCount(length) + 8
  {
    [0x80] + Zeros(ZeroCount(length)) + BigEndian64(8 * length)
  }

  lemma PaddingFillsBlocks(length: nat, zeros: nat)
    requires (length + 1 + zeros) % BLOCK_BYTES == 56
    ensures (length + (1 + zeros + 8)) % BLOCK_BYTES == 0
  {
  }

  function Padded(message: seq<byte>): (p: seq<byte>)
    ensures |p| % BLOCK_BYTES == 0
  {
    PaddingFillsBlocks(|message|, ZeroCount(|message|));
    message + Padding(|message|)
  }

  function DigestOf<W>(m: Words<W>, h: seq<W>): seq<byte>
    requires |h| == 8
  {
    m.store(h[0]) + m.store(h[1]) + m.store(h[2]) + m.store(h[3])
    + m.store(h[4]) + m.store(h[5]) + m.store(h[6]) + m.store(h[7])
  }

  function HashOf<W>(m: Words<W>, message: seq<byte>): seq<byte>
    requires |m.initial| == 8
  {
    DigestOf(m, CompressAll(m, Padded(message)))
  }

  lemma OneBlockMore<W>(m: Words<W>, data: seq<byte>, block: seq<byte>)
    requires |m.initial| == 8 && |data| % BLOCK_BYTES == 0 && |block| == BLOCK_BYTES
    ensures CompressAll(m, data + block) == CompressOf(m, CompressAll(m, data), block)
  {
    hide CompressOf;
    assert (data + block)[..|data|] == data && (data + block)[|data|..] == block;
  }

  // ----- The streaming state -----

  /** The state has absorbed all whole blocks of the message, and the tail is the unfinished rest. */
  ghost predicate Absorbed<W(!new)>(m: Words<W>, h: seq<W>, tail: seq<byte>, message: seq<byte>) {
    && |m.initial| == 8 && |h| == 8 && |tail| < BLOCK_BYTES && |tail| <= |message|
    && (|message| - |tail|) % BLOCK_BYTES == 0
    && message[|message| - |tail|..] == tail
    && h == CompressAll(m, message[..|message| - |tail|])
  }

  lemma MoreOfTheTail<W(!new)>(m: Words<W>, h: seq<W>, tail: seq<byte>, message: seq<byte>, more: seq<byte>)
    requires Absorbed(m, h, tail, message) && |tail| + |more| < BLOCK_BYTES
    ensures Absorbed(m, h, tail + more, message + more)
  {
    hide CompressAll;
    var whole := |message| - |tail|;
    assert (message + more)[..whole] == message[..whole];
    assert (message + more)[whole..] == tail + more;
  }

  lemma FullBlock<W(!new)>(m: Words<W>, h: seq<W>, tail: seq<byte>, message: seq<byte>, more: seq<byte>)
    requires Absorbed(m, h, tail, message) && |tail| + |more| == BLOCK_BYTES
    ensures Absorbed(m, CompressOf(m, h, tail + more), [], message + more)
  {
    hide CompressAll, CompressOf;
    var whole := |message| - |tail|;
    OneBlockMore(m, message[..whole], tail + more);
    assert message + more == message[..whole] + (tail + more);
    assert (message + more)[..|message + more|] == message + more;
  }

  class Hasher<W(!new)> {
    const words: Words<W>
    const state: array<W>
    const buffer: array<byte>
    var buffered: nat
    var bitLength: nat
    ghost var message: seq<byte>

    ghost predicate Streaming()
      reads this, state, buffer
    {
      && Lawful(words) && state.Length == 8 && buffer.Length == BLOCK_BYTES && buffered < BLOCK_BYTES
      && Absorbed(words, state[..], buffer[..buffered], message)
    }

    ghost predicate Valid()
      reads this, state, buffer
    {
      Streaming() && bitLength == 8 * |message| % LENGTH_MODULUS
    }

    constructor (words: Words<W>)
      requires Lawful(words)
      ensures Valid() && message == [] && this.words == words && fresh(state) && fresh(buffer)
    {
      this.words := words;
      state := new W[8](i requires 0 <= i < 8 => words.initial[i]);
      buffer := new byte[BLOCK_BYTES](_ => 0);
      buffered, bitLength, message := 0, 0, [];
      new;
      assert state[..] == words.initial;
    }

    method Compress(block: seq<byte>)
      requires Lawful(words) && state.Length == 8 && |block| == BLOCK_BYTES
      modifies state
      ensures state[..] == CompressOf(words, old(state[..]), block)
    {
      hide Schedule, Round;
      var w := ExpandSchedule(words, block);
      var v := RunRounds(words, FromWords(state[..]), block, w);
      AddTo(v);
    }

    method AddTo(v: Working<W>)
      requires state.Length == 8
      modifies state
      ensures state[..] == Sums(words, old(state[..]), v)
    {
      for i := 0 to 8
        invariant state[..i] == Sums(words, old(state[..]), v)[..i] && state[i..] == old(state[i..])
      {
        state[i] := words.add(state[i], At(v, i));
      }
    }

    static method RunRounds(m: Words<W>, start: Working<W>, block: seq<byte>, w: array<W>) returns (v: Working<W>)
      requires |block| == BLOCK_BYTES && w.Length == 64
      requires forall t :: 0 <= t < 64 ==> w[t] == Schedule(m, block, t)
      ensures v == Rounds(m, start, block, 64)
    {
      hide Schedule;
      var a, b, c, d := start.a, start.b, start.c, start.d;
      var e, f, g, h := start.e, start.f, start.g, start.h;
      for i := 0 to 64
        invariant Working(a, b, c, d, e, f, g, h) == Rounds(m, start, block, i)
      {
        var t1 := m.add(m.add(m.add(m.add(h, m.bigSigma1(e)), m.ch(e, f, g)), m.constant(i)), w[i]);
        var t2 := m.add(m.bigSigma0(a), m.maj(a, b, c));
        h, g, f, e := g, f, e, m.add(d, t1);
        d, c, b, a := c, b, a, m.add(t1, t2);
      }
      return Working(a, b, c, d, e, f, g, h);
    }

    static method ExpandSchedule(m: Words<W>, block: seq<byte>) returns (w: array<W>)
      requires Lawful(m) && |block| == BLOCK_BYTES
      ensures fresh(w) && w.Length == 64
      ensures forall t :: 0 <= t < 64 ==> w[t] == Schedule(m, block, t)
    {
      w := new W[64](_ => m.initial[0]);
      for i := 0 to 16
        invariant forall t :: 0 <= t < i ==> w[t] == Schedule(m, block, t)
      {
        w[i] := m.load(block[4 * i..4 * i + 4]);
      }
      for i := 16 to 64
        invariant forall t :: 0 <= t < i ==> w[t] == Schedule(m, block, t)
      {
        var s0, s1 := m.smallSigma0(w[i - 15]), m.smallSigma1(w[i - 2]);
        w[i] := m.add(m.add(m.add(w[i - 16], s0), w[i - 7]), s1);
      }
    }

    /** Appends to the buffer; a buffer that becomes full is compressed and emptied. */
    method Keep(more: seq<byte>)
      requires Streaming() && buffered + |more| <= BLOCK_BYTES
      modifies this`buffered, this`message, state, buffer
      ensures Streaming() && message == old(message) + more
      ensures buffered == (old(buffered) + |more|) % BLOCK_BYTES
    {
      hide CompressAll, CompressOf;
      ghost var tail := buffer[..buffered];
      CopyIn(more);
      if buffered == BLOCK_BYTES {
        FullBlock(words, state[..], tail, message, more);
        assert buffer[..] == tail + more;
        Compress(buffer[..]);
        buffered := 0;
        assert buffer[..buffered] == [];
      } else {
        MoreOfTheTail(words, state[..], tail, message, more);
      }
      message := message + more;
    }

    method CopyIn(more: seq<byte>)
      requires buffer.Length == BLOCK_BYTES && buffered + |more| <= BLOCK_BYTES
      modifies this`buffered, buffer
      ensures buffered == old(buffered) + |more| && buffer[..buffered] == old(buffer[..buffered]) + more
    {
      for i := 0 to |more|
        invariant buffered == old(buffered)
        invariant buffer[..buffered + i] == old(buffer[..buffered]) + more[..i]
      {
        buffer[buffered + i] := more[i];
      }
      buffered := buffered + |more|;
    }

    method TopUp(data: seq<byte>) returns (take: nat)
      requires Streaming() && buffered != 0
      modifies this`buffered, this`message, state, buffer
      ensures take <= |data| && Streaming() && message == old(message) + data[..take]
      ensures buffered == 0 || take == |data|
    {
      hide Absorbed;
      var want := BLOCK_BYTES - buffered;
      take := if |data| < want then |data| else want;
      Keep(data[..take]);
    }

    /** A whole block is compressed straight from the data. */
    method TakeBlock(block: seq<byte>)
      requires Streaming() && buffered == 0 && |block| == BLOCK_BYTES
      modifies this`message, state
      ensures Streaming() && message == old(message) + block
    {
      hide CompressAll, CompressOf;
      FullBlock(words, state[..], [], message, block);
      assert [] + block == block && buffer[..0] == [];
      Compress(block);
      message := message + block;
    }

    /** Fills the buffer up first, then takes whole blocks from the data, then keeps what is left. */
    method Absorb(data: seq<byte>)
      requires Streaming()
      modifies this`buffered, this`message, state, buffer
      ensures Streaming() && message == old(message) + data
    {
      hide Absorbed;
      var offset := 0;
      assert message == message + data[..0];
      if buffered != 0 {
        offset := TopUp(data);
      }
      offset := TakeBlocks(data, offset, old(message));
      if offset < |data| {
        Keep(data[offset..]);
        assert data == data[..offset] + data[offset..];
      } else {
        assert data[..offset] == data;
      }
    }

    method TakeBlocks(data: seq<byte>, from: nat, ghost before: seq<byte>) returns (offset: nat)
      requires Streaming() && from <= |data| && message == before + data[..from]
      requires buffered == 0 || from == |data|
      modifies this`message, state
      ensures Streaming() && offset <= |data| && message == before + data[..offset]
      ensures offset < |data| ==> buffered == 0 && |data| - offset < BLOCK_BYTES
    {
      hide Absorbed;
      offset := from;
      while |data| - offset >= BLOCK_BYTES
        invariant offset <= |data| && Streaming() && message == before + data[..offset]
        invariant buffered == 0 || offset == |data|
      {
        TakeBlock(data[offset..offset + BLOCK_BYTES]);
        assert data[..offset + BLOCK_BYTES] == data[..offset] + data[offset..offset + BLOCK_BYTES];
        offset := offset + BLOCK_BYTES;
      }
    }

    method Update(data: seq<byte>)
      requires Valid()
      modifies this, state, buffer
      ensures Valid() && message == old(message) + data
    {
      hide Absorbed;
      LengthsAdd(|message|, |data|);
      bitLength := (bitLength + |data| * 8) % LENGTH_MODULUS;
      Absorb(data);
    }

    static lemma LengthsAdd(a: nat, b: nat)
      ensures (8 * a % LENGTH_MODULUS + b * 8) % LENGTH_MODULUS == 8 * (a + b) % LENGTH_MODULUS
    {
    }

    method BuildPadding() returns (padding: seq<byte>)
      requires Valid() && 8 * |message| < LENGTH_MODULUS
      ensures padding == Padding(|message|)
    {
      hide BigEndian64, Absorbed;
      TailLength(words, state[..], buffer[..buffered], message);
      PadLengthFits(|message|, buffered);
      WholeLength(|message|, bitLength);
      padding := Pad(buffered, bitLength);
    }

    static lemma TailLength(m: Words<W>, h: seq<W>, tail: seq<byte>, message: seq<byte>)
      requires Absorbed(m, h, tail, message)
      ensures |tail| == |message| % BLOCK_BYTES
    {
      hide CompressAll;
      Residue(|message|, |tail|);
    }

    static lemma Residue(length: nat, tail: nat)
      requires tail < BLOCK_BYTES && tail <= length && (length - tail) % BLOCK_BYTES == 0
      ensures tail == length % BLOCK_BYTES
    {
    }

    static lemma WholeLength(length: nat, bits: nat)
      requires bits == 8 * length % LENGTH_MODULUS && 8 * length < LENGTH_MODULUS
      ensures bits == 8 * length
    {
    }

    static method Pad(buffered: nat, bits: nat) returns (padding: seq<byte>)
      requires buffered < BLOCK_BYTES
      ensures padding == [0x80] + Zeros((if buffered < 56 then 56 - buffered else 120 - buffered) - 1) + BigEndian64(bits)
    {
      hide BigEndian64;
      var padLength := if buffered < 56 then 56 - buffered else 120 - buffered;
      var bytes := new byte[2 * BLOCK_BYTES](_ => 0);
      bytes[0] := 0x80;
      assert bytes[..padLength] == [0x80] + Zeros(padLength - 1);
      StoreLength(bytes, padLength, bits);
      padding := bytes[..padLength + 8];
      assert padding == bytes[..padLength] + bytes[padLength..padLength + 8];
    }

    static method StoreLength(bytes: array<byte>, at: nat, bits: nat)
      requires at + 8 <= bytes.Length
      modifies bytes
      ensures bytes[..at] == old(bytes[..at]) && bytes[at..at + 8] == BigEndian64(bits)
    {
      hide LengthByte;
      for i := 0 to 8
        invariant bytes[..at] == old(bytes[..at])
        invariant forall k :: at <= k < at + i ==> bytes[k] == LengthByte(bits, k - at)
      {
        bytes[at + i] := LengthByte(bits, i);
      }
    }

    static lemma PadLengthFits(length: nat, tail: nat)
      requires tail == length % BLOCK_BYTES
      ensures (if tail < 56 then 56 - tail else 120 - tail) == 1 + ZeroCount(length)
    {
    }

    /** Whatever the chunks were, the digest is the hash of the whole message. */
    method Final() returns (digest: seq<byte>)
      requires Valid() && 8 * |message| < LENGTH_MODULUS
      modifies this, state, buffer
      ensures digest == HashOf(words, old(message))
    {
      hide CompressAll, CompressOf, Padding;
      var padding := BuildPadding();
      Absorb(padding);
      assert message == Padded(old(message));
      NothingLeft(words, state[..], buffer[..buffered], message);
      digest := DigestOf(words, state[..]);
      buffered := 0;
    }

    static lemma NothingLeft(m: Words<W>, h: seq<W>, tail: seq<byte>, message: seq<byte>)
      requires Absorbed(m, h, tail, message) && |message| % BLOCK_BYTES == 0
      ensures h == CompressAll(m, message)
    {
      hide CompressAll;
      assert |tail| == 0;
      assert message[..|message|] == message;
    }
  }

  // ----- Section 4.1.2 of FIPS 180-4: the functions on 32-bit words -----

  function RotateRight(v: bv32, bits: bv32): bv32
    requires 0 < bits < 32
  {
    (v >> bits) | (v << (32 - bits))
  }

  function Ch(x: bv32, y: bv32, z: bv32): bv32 {
    (x & y) ^ (!x & z)
  }

  function Maj(x: bv32, y: bv32, z: bv32): bv32 {
    (x & y) ^ (x & z) ^ (y & z)
  }

  function BigSigma0(x: bv32): bv32 {
    RotateRight(x, 2) ^ RotateRight(x, 13) ^ RotateRight(x, 22)
  }

  function BigSigma1(x: bv32): bv32 {
    RotateRight(x, 6) ^ RotateRight(x, 11) ^ RotateRight(x, 25)
  }

  function SmallSigma0(x: bv32): bv32 {
    RotateRight(x, 7) ^ RotateRight(x, 18) ^ (x >> 3)
  }

  function SmallSigma1(x: bv32): bv32 {
    RotateRight(x, 17) ^ RotateRight(x, 19) ^ (x >> 10)
  }

  function Add(x: bv32, y: bv32): bv32 {
    x + y
  }

  function Constant(t: nat): bv32 {
    if t < 64 then K[t] else 0
  }

  function BigEndianWord(b: seq<byte>): bv32 {
    if |b| == 4 then (Widen(b[0]) << 24) | (Widen(b[1]) << 16) | (Widen(b[2]) << 8) | Widen(b[3]) else 0
  }

  function BigEndianBytes(w: bv32): (b: seq<byte>)
    ensures |b| == 4
  {
    [LowByte(w >> 24), LowByte(w >> 16), LowByte(w >> 8), LowByte(w)]
  }

  function Sha256Words(): Words<bv32> {
    Words(Add, Ch, Maj, BigSigma0, BigSigma1, SmallSigma0, SmallSigma1, Constant, BigEndianWord, BigEndianBytes, INITIAL)
  }

  lemma Sha256WordsAreLawful()
    ensures Lawful(Sha256Words())
  {
  }

  function Hash(message: seq<byte>): seq<byte> {
    HashOf(Sha256Words(), message)
  }

  // ----- Any split gives the same digest -----

  function Concat(parts: seq<seq<byte>>): seq<byte> {
    if parts == [] then [] else Concat(parts[..|parts| - 1]) + parts[|parts| - 1]
  }

  /** One Update per part, whatever the parts: the digest is that of the concatenation. */
  method HashParts(parts: seq<seq<byte>>) returns (digest: seq<byte>)
    requires 8 * |Concat(parts)| < LENGTH_MODULUS
    ensures digest == Hash(Concat(parts))
  {
    hide Sha256Words, Absorbed;
    Sha256WordsAreLawful();
    var hasher := new Hasher(Sha256Words());
    for i := 0 to |parts|
      invariant fresh(hasher) && fresh(hasher.state) && fresh(hasher.buffer)
      invariant hasher.Valid() && hasher.message == Concat(parts[..i])
    {
      hasher.Update(parts[i]);
      assert parts[..i + 1][..i] == parts[..i];
    }
    assert parts[..|parts|] == parts;
    digest := hasher.Final();
  }
}
