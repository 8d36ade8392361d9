/** The hash and the checksum of messages with published answers (appendix B.1 of FIPS 180-2; appendix B.4 of RFC 3720). */
module KnownAnswers {
  import opened Bytes
  import opened Sha256
  import Crc

  // ----- SHA-256 of "abc" -----

  const ABC: seq<byte> := [0x61, 0x62, 0x63]

  function Block(): seq<byte> {
    Padded(ABC)
  }

  function Word(t: nat): bv32
    requires t < 64
  {
    Schedule(Sha256Words(), Block(), t)
  }

  function State(t: nat): Working<bv32>
    requires t <= 64
  {
    Rounds(Sha256Words(), FromWords(INITIAL), Block(), t)
  }

  lemma BlockBytes()
    ensures |Block()| == 64 && Block()[..4] == [0x61, 0x62, 0x63, 0x80] && Block()[60..] == [0, 0, 0, 24]
    ensures forall i :: 4 <= i < 60 ==> Block()[i] == 0
  {
    LengthBytes();
    hide BigEndian64;
    assert ZeroCount(3) == 52 && Padding(3) == [0x80] + Zeros(52) + BigEndian64(24);
  }

  lemma LengthBytes()
    ensures BigEndian64(24) == [0, 0, 0, 0, 0, 0, 0, 24]
  {
    ByteOfSmall();
    hide ByteOf;
    assert Power256(0) == 1;
    forall i | 0 <= i < 7 ensures LengthByte(24, i) == 0 {
      Power256Grows(7 - i);
      SmallQuotient(Power256(7 - i));
    }
    assert LengthByte(24, 7) == 24;
    hide LengthByte;
  }

  lemma SmallQuotient(n: nat)
    requires n >= 256
    ensures 24 / n % 256 == 0
  {
  }

  lemma Power256Grows(n: nat)
    requires n > 0
    ensures Power256(n) >= 256
  {
  }

  lemma ByteOfSmall()
    ensures ByteOf(0) == 0 && ByteOf(24) == 24
  {
    ValueRoundTrip(0);
    ValueRoundTrip(24);
    hide ByteOf;
  }

  lemma LoadedWord(t: nat, a: byte, b: byte, c: byte, d: byte)
    requires t < 16 && |Block()| == 64
    requires Block()[4 * t] == a && Block()[4 * t + 1] == b && Block()[4 * t + 2] == c && Block()[4 * t + 3] == d
    ensures Word(t) == BigEndianWord([a, b, c, d])
  {
    hide BigEndianWord, Block;
    assert Block()[4 * t..4 * t + 4] == [a, b, c, d];
  }

  lemma EndianWords()
    ensures BigEndianWord([0x61, 0x62, 0x63, 0x80]) == 0x61626380 && BigEndianWord([0, 0, 0, 0]) == 0
    ensures BigEndianWord([0, 0, 0, 24]) == 24
  {
  }

  lemma FirstWords()
    ensures Word(0) == 0x61626380 && Word(15) == 24
    ensures forall t :: 0 < t < 15 ==> Word(t) == 0
  {
    hide Block, BigEndianWord, Word;
    BlockBytes();
    EndianWords();
    LoadedWord(0, 0x61, 0x62, 0x63, 0x80);
    LoadedWord(15, 0, 0, 0, 24);
    forall t | 0 < t < 15 ensures Word(t) == 0 { LoadedWord(t, 0, 0, 0, 0); }
  }

  lemma NextWord(t: nat, a: bv32, b: bv32, c: bv32, d: bv32, w: bv32)
    requires 16 <= t < 64 && Word(t - 16) == a && Word(t - 15) == b && Word(t - 7) == c && Word(t - 2) == d
    requires Add(Add(Add(a, SmallSigma0(b)), c), SmallSigma1(d)) == w
    ensures Word(t) == w
  {
    hide Add, SmallSigma0, SmallSigma1, Block;
  }

  lemma WordsFrom16()
    ensures Word(16) == 0x61626380 && Word(17) == 0x000f0000 && Word(18) == 0x7da86405 && Word(19) == 0x600003c6
    ensures Word(20) == 0x3e9d7b78 && Word(21) == 0x0183fc00 && Word(22) == 0x12dcbfdb && Word(23) == 0xe2e2c38e
  {
    hide Word;
    FirstWords();
    NextWord(16, 0x61626380, 0x00000000, 0x00000000, 0x00000000, 0x61626380);
    NextWord(17, 0x00000000, 0x00000000, 0x00000000, 0x00000018, 0x000f0000);
    NextWord(18, 0x00000000, 0x00000000, 0x00000000, 0x61626380, 0x7da86405);
    NextWord(19, 0x00000000, 0x00000000, 0x00000000, 0x000f0000, 0x600003c6);
    NextWord(20, 0x00000000, 0x00000000, 0x00000000, 0x7da86405, 0x3e9d7b78);
    NextWord(21, 0x00000000, 0x00000000, 0x00000000, 0x600003c6, 0x0183fc00);
    NextWord(22, 0x00000000, 0x00000000, 0x00000018, 0x3e9d7b78, 0x12dcbfdb);
    NextWord(23, 0x00000000, 0x00000000, 0x61626380, 0x0183fc00, 0xe2e2c38e);
  }

  lemma WordsFrom24()
    ensures Word(24) == 0xc8215c1a && Word(25) == 0xb73679a2 && Word(26) == 0xe5bc3909 && Word(27) == 0x32663c5b
    ensures Word(28) == 0x9d209d67 && Word(29) == 0xec8726cb && Word(30) == 0x702138a4 && Word(31) == 0xd3b7973b
  {
    hide Word;
    WordsFrom16();
    FirstWords();
    NextWord(24, 0x00000000, 0x00000000, 0x000f0000, 0x12dcbfdb, 0xc8215c1a);
    NextWord(25, 0x00000000, 0x00000000, 0x7da86405, 0xe2e2c38e, 0xb73679a2);
    NextWord(26, 0x00000000, 0x00000000, 0x600003c6, 0xc8215c1a, 0xe5bc3909);
    NextWord(27, 0x00000000, 0x00000000, 0x3e9d7b78, 0xb73679a2, 0x32663c5b);
    NextWord(28, 0x00000000, 0x00000000, 0x0183fc00, 0xe5bc3909, 0x9d209d67);
    NextWord(29, 0x00000000, 0x00000000, 0x12dcbfdb, 0x32663c5b, 0xec8726cb);
    NextWord(30, 0x00000000, 0x00000018, 0xe2e2c38e, 0x9d209d67, 0x702138a4);
    NextWord(31, 0x00000018, 0x61626380, 0xc8215c1a, 0xec8726cb, 0xd3b7973b);
  }

  lemma WordsFrom32()
    ensures Word(32) == 0x93f5997f && Word(33) == 0x3b68ba73 && Word(34) == 0xaff4ffc1 && Word(35) == 0xf10a5c62
    ensures Word(36) == 0x0a8b3996 && Word(37) == 0x72af830a && Word(38) == 0x9409e33e && Word(39) == 0x24641522
  {
    hide Word;
    WordsFrom24();
    WordsFrom16();
    NextWord(32, 0x61626380, 0x000f0000, 0xb73679a2, 0x702138a4, 0x93f5997f);
    NextWord(33, 0x000f0000, 0x7da86405, 0xe5bc3909, 0xd3b7973b, 0x3b68ba73);
    NextWord(34, 0x7da86405, 0x600003c6, 0x32663c5b, 0x93f5997f, 0xaff4ffc1);
    NextWord(35, 0x600003c6, 0x3e9d7b78, 0x9d209d67, 0x3b68ba73, 0xf10a5c62);
    NextWord(36, 0x3e9d7b78, 0x0183fc00, 0xec8726cb, 0xaff4ffc1, 0x0a8b3996);
    NextWord(37, 0x0183fc00, 0x12dcbfdb, 0x702138a4, 0xf10a5c62, 0x72af830a);
    NextWord(38, 0x12dcbfdb, 0xe2e2c38e, 0xd3b7973b, 0x0a8b3996, 0x9409e33e);
    NextWord(39, 0xe2e2c38e, 0xc8215c1a, 0x93f5997f, 0x72af830a, 0x24641522);
  }

  lemma WordsFrom40()
    ensures Word(40) == 0x9f47bf94 && Word(41) == 0xf0a64f5a && Word(42) == 0x3e246a79 && Word(43) == 0x27333ba3
    ensures Word(44) == 0x0c4763f2 && Word(45) == 0x840abf27 && Word(46) == 0x7a290d5d && Word(47) == 0x065c43da
  {
    hide Word;
    WordsFrom32();
    WordsFrom24();
    NextWord(40, 0xc8215c1a, 0xb73679a2, 0x3b68ba73, 0x9409e33e, 0x9f47bf94);
    NextWord(41, 0xb73679a2, 0xe5bc3909, 0xaff4ffc1, 0x24641522, 0xf0a64f5a);
    NextWord(42, 0xe5bc3909, 0x32663c5b, 0xf10a5c62, 0x9f47bf94, 0x3e246a79);
    NextWord(43, 0x32663c5b, 0x9d209d67, 0x0a8b3996, 0xf0a64f5a, 0x27333ba3);
    NextWord(44, 0x9d209d67, 0xec8726cb, 0x72af830a, 0x3e246a79, 0x0c4763f2);
    NextWord(45, 0xec8726cb, 0x702138a4, 0x9409e33e, 0x27333ba3, 0x840abf27);
    NextWord(46, 0x702138a4, 0xd3b7973b, 0x24641522, 0x0c4763f2, 0x7a290d5d);
    NextWord(47, 0xd3b7973b, 0x93f5997f, 0x9f47bf94, 0x840abf27, 0x065c43da);
  }

  lemma WordsFrom48()
    ensures Word(48) == 0xfb3e89cb && Word(49) == 0xcc7617db && Word(50) == 0xb9e66c34 && Word(51) == 0xa9993667
    ensures Word(52) == 0x84badedd && Word(53) == 0xc21462bc && Word(54) == 0x1487472c && Word(55) == 0xb20f7a99
  {
    hide Word;
    WordsFrom40();
    WordsFrom32();
    NextWord(48, 0x93f5997f, 0x3b68ba73, 0xf0a64f5a, 0x7a290d5d, 0xfb3e89cb);
    NextWord(49, 0x3b68ba73, 0xaff4ffc1, 0x3e246a79, 0x065c43da, 0xcc7617db);
    NextWord(50, 0xaff4ffc1, 0xf10a5c62, 0x27333ba3, 0xfb3e89cb, 0xb9e66c34);
    NextWord(51, 0xf10a5c62, 0x0a8b3996, 0x0c4763f2, 0xcc7617db, 0xa9993667);
    NextWord(52, 0x0a8b3996, 0x72af830a, 0x840abf27, 0xb9e66c34, 0x84badedd);
    NextWord(53, 0x72af830a, 0x9409e33e, 0x7a290d5d, 0xa9993667, 0xc21462bc);
    NextWord(54, 0x9409e33e, 0x24641522, 0x065c43da, 0x84badedd, 0x1487472c);
    NextWord(55, 0x24641522, 0x9f47bf94, 0xfb3e89cb, 0xc21462bc, 0xb20f7a99);
  }

  lemma WordsFrom56()
    ensures Word(56) == 0xef57b9cd && Word(57) == 0xebe6b238 && Word(58) == 0x9fe3095e && Word(59) == 0x78bc8d4b
    ensures Word(60) == 0xa43fcf15 && Word(61) == 0x668b2ff8 && Word(62) == 0xeeaba2cc && Word(63) == 0x12b1edeb
  {
    hide Word;
    WordsFrom48();
    WordsFrom40();
    NextWord(56, 0x9f47bf94, 0xf0a64f5a, 0xcc7617db, 0x1487472c, 0xef57b9cd);
    NextWord(57, 0xf0a64f5a, 0x3e246a79, 0xb9e66c34, 0xb20f7a99, 0xebe6b238);
    NextWord(58, 0x3e246a79, 0x27333ba3, 0xa9993667, 0xef57b9cd, 0x9fe3095e);
    NextWord(59, 0x27333ba3, 0x0c4763f2, 0x84badedd, 0xebe6b238, 0x78bc8d4b);
    NextWord(60, 0x0c4763f2, 0x840abf27, 0xc21462bc, 0x9fe3095e, 0xa43fcf15);
    NextWord(61, 0x840abf27, 0x7a290d5d, 0x1487472c, 0x78bc8d4b, 0x668b2ff8);
    NextWord(62, 0x7a290d5d, 0x065c43da, 0xb20f7a99, 0xa43fcf15, 0xeeaba2cc);
    NextWord(63, 0x065c43da, 0xfb3e89cb, 0xef57b9cd, 0x668b2ff8, 0x12b1edeb);
  }

  function RoundOfWords(v: Working<bv32>, k: bv32, w: bv32): Working<bv32> {
    var t1 := Add(Add(Add(Add(v.h, BigSigma1(v.e)), Ch(v.e, v.f, v.g)), k), w);
    var t2 := Add(BigSigma0(v.a), Maj(v.a, v.b, v.c));
    Working(Add(t1, t2), v.a, v.b, v.c, Add(v.d, t1), v.e, v.f, v.g)
  }

  lemma RoundIsOnWords(v: Working<bv32>, k: bv32, w: bv32)
    ensures Round(Sha256Words(), v, k, w) == RoundOfWords(v, k, w)
  {
    hide BigSigma0, BigSigma1, Ch, Maj, Add;
  }

  lemma NextState(t: nat, v: Working<bv32>, k: bv32, w: bv32, a: bv32, e: bv32) returns (next: Working<bv32>)
    requires t < 64 && State(t) == v && Constant(t) == k && Word(t) == w
    requires RoundOfWords(v, k, w) == Working(a, v.a, v.b, v.c, e, v.e, v.f, v.g)
    ensures next == Working(a, v.a, v.b, v.c, e, v.e, v.f, v.g) && State(t + 1) == next
  {
    hide RoundOfWords, Round, Schedule, Block, Constant;
    RoundIsOnWords(v, k, w);
    next := RoundOfWords(v, k, w);
  }

  lemma ConstantsFrom0()
    ensures Constant(0) == 0x428a2f98 && Constant(1) == 0x71374491 && Constant(2) == 0xb5c0fbcf && Constant(3) == 0xe9b5dba5
    ensures Constant(4) == 0x3956c25b && Constant(5) == 0x59f111f1 && Constant(6) == 0x923f82a4 && Constant(7) == 0xab1c5ed5
  {
  }

  lemma ConstantsFrom8()
    ensures Constant(8) == 0xd807aa98 && Constant(9) == 0x12835b01 && Constant(10) == 0x243185be && Constant(11) == 0x550c7dc3
    ensures Constant(12) == 0x72be5d74 && Constant(13) == 0x80deb1fe && Constant(14) == 0x9bdc06a7 && Constant(15) == 0xc19bf174
  {
  }

  lemma ConstantsFrom16()
    ensures Constant(16) == 0xe49b69c1 && Constant(17) == 0xefbe4786 && Constant(18) == 0x0fc19dc6 && Constant(19) == 0x240ca1cc
    ensures Constant(20) == 0x2de92c6f && Constant(21) == 0x4a7484aa && Constant(22) == 0x5cb0a9dc && Constant(23) == 0x76f988da
  {
  }

  lemma ConstantsFrom24()
    ensures Constant(24) == 0x983e5152 && Constant(25) == 0xa831c66d && Constant(26) == 0xb00327c8 && Constant(27) == 0xbf597fc7
    ensures Constant(28) == 0xc6e00bf3 && Constant(29) == 0xd5a79147 && Constant(30) == 0x06ca6351 && Constant(31) == 0x14292967
  {
  }

  lemma ConstantsFrom32()
    ensures Constant(32) == 0x27b70a85 && Constant(33) == 0x2e1b2138 && Constant(34) == 0x4d2c6dfc && Constant(35) == 0x53380d13
    ensures Constant(36) == 0x650a7354 && Constant(37) == 0x766a0abb && Constant(38) == 0x81c2c92e && Constant(39) == 0x92722c85
  {
  }

  lemma ConstantsFrom40()
    ensures Constant(40) == 0xa2bfe8a1 && Constant(41) == 0xa81a664b && Constant(42) == 0xc24b8b70 && Constant(43) == 0xc76c51a3
    ensures Constant(44) == 0xd192e819 && Constant(45) == 0xd6990624 && Constant(46) == 0xf40e3585 && Constant(47) == 0x106aa070
  {
  }

  lemma ConstantsFrom48()
    ensures Constant(48) == 0x19a4c116 && Constant(49) == 0x1e376c08 && Constant(50) == 0x2748774c && Constant(51) == 0x34b0bcb5
    ensures Constant(52) == 0x391c0cb3 && Constant(53) == 0x4ed8aa4a && Constant(54) == 0x5b9cca4f && Constant(55) == 0x682e6ff3
  {
  }

  lemma ConstantsFrom56()
    ensures Constant(56) == 0x748f82ee && Constant(57) == 0x78a5636f && Constant(58) == 0x84c87814 && Constant(59) == 0x8cc70208
    ensures Constant(60) == 0x90befffa && Constant(61) == 0xa4506ceb && Constant(62) == 0xbef9a3f7 && Constant(63) == 0xc67178f2
  {
  }

  lemma StateAfter8()
    ensures State(8) == Working(0x85a07b5f, 0xe5030380, 0x2b4209f5, 0x04409a6a, 0x0c657a79, 0x9b27a401, 0x714260ad, 0x43ada245)
  {
    hide Word, State, Constant;
    ConstantsFrom0();
    FirstWords();
    FirstState();
    var v := Working(0x6a09e667, 0xbb67ae85, 0x3c6ef372, 0xa54ff53a, 0x510e527f, 0x9b05688c, 0x1f83d9ab, 0x5be0cd19);
    v := NextState(0, v, 0x428a2f98, 0x61626380, 0x5d6aebcd, 0xfa2a4622);
    v := NextState(1, v, 0x71374491, 0x00000000, 0x5a6ad9ad, 0x78ce7989);
    v := NextState(2, v, 0xb5c0fbcf, 0x00000000, 0xc8c347a7, 0xf92939eb);
    v := NextState(3, v, 0xe9b5dba5, 0x00000000, 0xd550f666, 0x24e00850);
    v := NextState(4, v, 0x3956c25b, 0x00000000, 0x04409a6a, 0x43ada245);
    v := NextState(5, v, 0x59f111f1, 0x00000000, 0x2b4209f5, 0x714260ad);
    v := NextState(6, v, 0x923f82a4, 0x00000000, 0xe5030380, 0x9b27a401);
    v := NextState(7, v, 0xab1c5ed5, 0x00000000, 0x85a07b5f, 0x0c657a79);
  }

  lemma StateAfter16()
    ensures State(16) == Working(0xb0fa238e, 0xc0645fde, 0xd932eb16, 0x87912990, 0x07590dcd, 0x0b92f20c, 0x745a48de, 0x1e578218)
  {
    hide Word, State, Constant;
    ConstantsFrom8();
    FirstWords();
    StateAfter8();
    var v := Working(0x85a07b5f, 0xe5030380, 0x2b4209f5, 0x04409a6a, 0x0c657a79, 0x9b27a401, 0x714260ad, 0x43ada245);
    v := NextState(8, v, 0xd807aa98, 0x00000000, 0x8e04ecb9, 0x32ca2d8c);
    v := NextState(9, v, 0x12835b01, 0x00000000, 0x8c87346b, 0x1cc92596);
    v := NextState(10, v, 0x243185be, 0x00000000, 0x4798a3f4, 0x436b23e8);
    v := NextState(11, v, 0x550c7dc3, 0x00000000, 0xf71fc5a9, 0x816fd6e9);
    v := NextState(12, v, 0x72be5d74, 0x00000000, 0x87912990, 0x1e578218);
    v := NextState(13, v, 0x80deb1fe, 0x00000000, 0xd932eb16, 0x745a48de);
    v := NextState(14, v, 0x9bdc06a7, 0x00000000, 0xc0645fde, 0x0b92f20c);
    v := NextState(15, v, 0xc19bf174, 0x00000018, 0xb0fa238e, 0x07590dcd);
  }

  lemma StateAfter24()
    ensures State(24) == Working(0xc5d53d8d, 0xa7a3623f, 0xc2606d6d, 0x9dc68b63, 0xaa47c347, 0x49f5114a, 0xe1257970, 0x8ada8930)
  {
    hide Word, State, Constant;
    ConstantsFrom16();
    WordsFrom16();
    StateAfter16();
    var v := Working(0xb0fa238e, 0xc0645fde, 0xd932eb16, 0x87912990, 0x07590dcd, 0x0b92f20c, 0x745a48de, 0x1e578218);
    v := NextState(16, v, 0xe49b69c1, 0x61626380, 0x21da9a9b, 0x8034229c);
    v := NextState(17, v, 0xefbe4786, 0x000f0000, 0xc2fbd9d1, 0x846ee454);
    v := NextState(18, v, 0x0fc19dc6, 0x7da86405, 0xfe777bbf, 0xcc899961);
    v := NextState(19, v, 0x240ca1cc, 0x600003c6, 0xe1f20c33, 0xb0638179);
    v := NextState(20, v, 0x2de92c6f, 0x3e9d7b78, 0x9dc68b63, 0x8ada8930);
    v := NextState(21, v, 0x4a7484aa, 0x0183fc00, 0xc2606d6d, 0xe1257970);
    v := NextState(22, v, 0x5cb0a9dc, 0x12dcbfdb, 0xa7a3623f, 0x49f5114a);
    v := NextState(23, v, 0x76f988da, 0xe2e2c38e, 0xc5d53d8d, 0xaa47c347);
  }

  lemma StateAfter32()
    ensures State(32) == Working(0x73b33bf5, 0xea992a22, 0xa0060b30, 0x363482c9, 0xba591112, 0x0109ab3a, 0xade79437, 0x6112a3b7)
  {
    hide Word, State, Constant;
    ConstantsFrom24();
    WordsFrom24();
    StateAfter24();
    var v := Working(0xc5d53d8d, 0xa7a3623f, 0xc2606d6d, 0x9dc68b63, 0xaa47c347, 0x49f5114a, 0xe1257970, 0x8ada8930);
    v := NextState(24, v, 0x983e5152, 0xc8215c1a, 0x1c2c2838, 0x2823ef91);
    v := NextState(25, v, 0xa831c66d, 0xb73679a2, 0xcde8037d, 0x14383d8e);
    v := NextState(26, v, 0xb00327c8, 0xe5bc3909, 0xb62ec4bc, 0xc74c6516);
    v := NextState(27, v, 0xbf597fc7, 0x32663c5b, 0x77d37528, 0xedffbff8);
    v := NextState(28, v, 0xc6e00bf3, 0x9d209d67, 0x363482c9, 0x6112a3b7);
    v := NextState(29, v, 0xd5a79147, 0xec8726cb, 0xa0060b30, 0xade79437);
    v := NextState(30, v, 0x06ca6351, 0x702138a4, 0xea992a22, 0x0109ab3a);
    v := NextState(31, v, 0x14292967, 0xd3b7973b, 0x73b33bf5, 0xba591112);
  }

  lemma StateAfter40()
    ensures State(40) == Working(0x79ea687a, 0x6dc57a8a, 0x34df1604, 0x41a65cb1, 0x1efbc0a0, 0xf0781bc8, 0xa507a53d, 0x0772a26b)
  {
    hide Word, State, Constant;
    ConstantsFrom32();
    WordsFrom32();
    StateAfter32();
    var v := Working(0x73b33bf5, 0xea992a22, 0xa0060b30, 0x363482c9, 0xba591112, 0x0109ab3a, 0xade79437, 0x6112a3b7);
    v := NextState(32, v, 0x27b70a85, 0x93f5997f, 0x98e12507, 0x9cd9f5f6);
    v := NextState(33, v, 0x2e1b2138, 0x3b68ba73, 0xfe604df5, 0x59249dd3);
    v := NextState(34, v, 0x4d2c6dfc, 0xaff4ffc1, 0xa9a7738c, 0x085f3833);
    v := NextState(35, v, 0x53380d13, 0xf10a5c62, 0x65a0cfe4, 0xf4b002d6);
    v := NextState(36, v, 0x650a7354, 0x0a8b3996, 0x41a65cb1, 0x0772a26b);
    v := NextState(37, v, 0x766a0abb, 0x72af830a, 0x34df1604, 0xa507a53d);
    v := NextState(38, v, 0x81c2c92e, 0x9409e33e, 0x6dc57a8a, 0xf0781bc8);
    v := NextState(39, v, 0x92722c85, 0x24641522, 0x79ea687a, 0x1efbc0a0);
  }

  lemma StateAfter48()
    ensures State(48) == Working(0x4172328d, 0xa14c14b0, 0x72ab4b91, 0x26628815, 0xfecf0bc6, 0xd57b94a9, 0xb7755da1, 0xa80f11f0)
  {
    hide Word, State, Constant;
    ConstantsFrom40();
    WordsFrom40();
    StateAfter40();
    var v := Working(0x79ea687a, 0x6dc57a8a, 0x34df1604, 0x41a65cb1, 0x1efbc0a0, 0xf0781bc8, 0xa507a53d, 0x0772a26b);
    v := NextState(40, v, 0xa2bfe8a1, 0x9f47bf94, 0xd6670766, 0x26352d63);
    v := NextState(41, v, 0xa81a664b, 0xf0a64f5a, 0xdf46652f, 0x838b2711);
    v := NextState(42, v, 0xc24b8b70, 0x3e246a79, 0x17aa0dfe, 0xdecd4715);
    v := NextState(43, v, 0xc76c51a3, 0x27333ba3, 0x9d4baf93, 0xfda24c2e);
    v := NextState(44, v, 0xd192e819, 0x0c4763f2, 0x26628815, 0xa80f11f0);
    v := NextState(45, v, 0xd6990624, 0x840abf27, 0x72ab4b91, 0xb7755da1);
    v := NextState(46, v, 0xf40e3585, 0x7a290d5d, 0xa14c14b0, 0xd57b94a9);
    v := NextState(47, v, 0x106aa070, 0x065c43da, 0x4172328d, 0xfecf0bc6);
  }

  lemma StateAfter56()
    ensures State(56) == Working(0x38cc9913, 0x3ec45cdb, 0xf5702fdb, 0x101fd28f, 0x54cb266b, 0xe50e1b4f, 0x9f4787c3, 0x529e7d00)
  {
    hide Word, State, Constant;
    ConstantsFrom48();
    WordsFrom48();
    StateAfter48();
    var v := Working(0x4172328d, 0xa14c14b0, 0x72ab4b91, 0x26628815, 0xfecf0bc6, 0xd57b94a9, 0xb7755da1, 0xa80f11f0);
    v := NextState(48, v, 0x19a4c116, 0xfb3e89cb, 0x05757ceb, 0xbd714038);
    v := NextState(49, v, 0x1e376c08, 0xcc7617db, 0xf11bfaa8, 0x6e5c390c);
    v := NextState(50, v, 0x2748774c, 0xb9e66c34, 0x7a0508a1, 0x52f1ccf7);
    v := NextState(51, v, 0x34b0bcb5, 0xa9993667, 0x886e7a22, 0x49231c1e);
    v := NextState(52, v, 0x391c0cb3, 0x84badedd, 0x101fd28f, 0x529e7d00);
    v := NextState(53, v, 0x4ed8aa4a, 0xc21462bc, 0xf5702fdb, 0x9f4787c3);
    v := NextState(54, v, 0x5b9cca4f, 0x1487472c, 0x3ec45cdb, 0xe50e1b4f);
    v := NextState(55, v, 0x682e6ff3, 0xb20f7a99, 0x38cc9913, 0x54cb266b);
  }

  lemma StateAfter64()
    ensures State(64) == Working(0x506e3058, 0xd39a2165, 0x04d24d6c, 0xb85e2ce9, 0x5ef50f24, 0xfb121210, 0x948d25b6, 0x961f4894)
  {
    hide Word, State, Constant;
    ConstantsFrom56();
    WordsFrom56();
    StateAfter56();
    var v := Working(0x38cc9913, 0x3ec45cdb, 0xf5702fdb, 0x101fd28f, 0x54cb266b, 0xe50e1b4f, 0x9f4787c3, 0x529e7d00);
    v := NextState(56, v, 0x748f82ee, 0xef57b9cd, 0xfcd1887b, 0x9b5e906c);
    v := NextState(57, v, 0x78a5636f, 0xebe6b238, 0xc062d46f, 0x7e44008e);
    v := NextState(58, v, 0x84c87814, 0x9fe3095e, 0xffb70472, 0x6d83bfc6);
    v := NextState(59, v, 0x8cc70208, 0x78bc8d4b, 0xb6ae8fff, 0xb21bad3d);
    v := NextState(60, v, 0x90befffa, 0xa43fcf15, 0xb85e2ce9, 0x961f4894);
    v := NextState(61, v, 0xa4506ceb, 0x668b2ff8, 0x04d24d6c, 0x948d25b6);
    v := NextState(62, v, 0xbef9a3f7, 0xeeaba2cc, 0xd39a2165, 0xfb121210);
    v := NextState(63, v, 0xc67178f2, 0x12b1edeb, 0x506e3058, 0x5ef50f24);
  }

  lemma FirstState()
    ensures State(0) == Working(0x6a09e667, 0xbb67ae85, 0x3c6ef372, 0xa54ff53a, 0x510e527f, 0x9b05688c, 0x1f83d9ab, 0x5be0cd19)
  {
  }

  lemma FinalWords()
    ensures Sums(Sha256Words(), INITIAL, State(64)) == [
      0xba7816bf, 0x8f01cfea, 0x414140de, 0x5dae2223,
      0xb00361a3, 0x96177a9c, 0xb410ff61, 0xf20015ad]
  {
    hide State;
    StateAfter64();
    var s := Sums(Sha256Words(), INITIAL, State(64));
    SumsAt(State(64));
    hide Sums;
    assert s == [s[0], s[1], s[2], s[3], s[4], s[5], s[6], s[7]];
  }

  lemma SumsAt(v: Working<bv32>)
    ensures forall i :: 0 <= i < 8 ==> Sums(Sha256Words(), INITIAL, v)[i] == Add(INITIAL[i], At(v, i))
  {
    hide At;
  }

  lemma OneBlock()
    ensures CompressAll(Sha256Words(), Block()) == Sums(Sha256Words(), INITIAL, State(64))
  {
    BlockBytes();
    assert Block()[..0] == [] && Block()[0..] == Block();
    hide Sums, Rounds, Padded;
  }

  lemma WordBytes()
    ensures BigEndianBytes(0xba7816bf) == [0xba, 0x78, 0x16, 0xbf]
    ensures BigEndianBytes(0x8f01cfea) == [0x8f, 0x01, 0xcf, 0xea]
    ensures BigEndianBytes(0x414140de) == [0x41, 0x41, 0x40, 0xde]
    ensures BigEndianBytes(0x5dae2223) == [0x5d, 0xae, 0x22, 0x23]
    ensures BigEndianBytes(0xb00361a3) == [0xb0, 0x03, 0x61, 0xa3]
    ensures BigEndianBytes(0x96177a9c) == [0x96, 0x17, 0x7a, 0x9c]
    ensures BigEndianBytes(0xb410ff61) == [0xb4, 0x10, 0xff, 0x61]
    ensures BigEndianBytes(0xf20015ad) == [0xf2, 0x00, 0x15, 0xad]
  {
  }

  /** The hash of "abc", as published. */
  lemma HashOfAbc()
    ensures Hash(ABC) == [
      0xba, 0x78, 0x16, 0xbf, 0x8f, 0x01, 0xcf, 0xea, 0x41, 0x41, 0x40, 0xde, 0x5d, 0xae, 0x22, 0x23,
      0xb0, 0x03, 0x61, 0xa3, 0x96, 0x17, 0x7a, 0x9c, 0xb4, 0x10, 0xff, 0x61, 0xf2, 0x00, 0x15, 0xad]
  {
    hide State, CompressAll, BigEndianBytes;
    OneBlock();
    FinalWords();
    WordBytes();
  }

  // ----- CRC-32C of "123456789" -----

  const DIGITS: seq<byte> := [0x31, 0x32, 0x33, 0x34, 0x35, 0x36, 0x37, 0x38, 0x39]

  function Register(n: nat): bv32
    requires n <= |DIGITS|
  {
    Crc.Divide(Crc.Castagnoli(), Crc.ALL_ONES, Crc.Words(DIGITS[..n]))
  }

  /** Eight shifts, one after the other. */
  predicate ShiftsTo(x: bv32, steps: seq<bv32>)
    decreases |steps|
  {
    steps == [] || (Crc.Shift(x) == steps[0] && ShiftsTo(steps[0], steps[1..]))
  }

  lemma {:induction false} ShiftsAreShifted(x: bv32, steps: seq<bv32>)
    requires steps != [] && ShiftsTo(x, steps)
    ensures Crc.ShiftBy(Crc.Castagnoli(), x, |steps|) == steps[|steps| - 1]
    decreases |steps|
  {
    hide Crc.Shift;
    if |steps| == 1 {
      assert Crc.ShiftBy(Crc.Castagnoli(), x, 0) == x;
    } else {
      ShiftsAreShifted(steps[0], steps[1..]);
      Crc.ShiftByFromTheFront(Crc.Castagnoli(), x, |steps|);
    }
  }

  lemma NextByte(n: nat, before: bv32, mixed: bv32, steps: seq<bv32>)
    requires n < |DIGITS| && Register(n) == before && Crc.Xor(before, Widen(DIGITS[n])) == mixed
    requires |steps| == 8 && ShiftsTo(mixed, steps)
    ensures Register(n + 1) == steps[7]
  {
    ShiftsAreShifted(mixed, steps);
    hide Crc.Shift, Crc.ShiftBy, ShiftsTo, Crc.Xor;
    assert Crc.Words(DIGITS[..n + 1])[..n] == Crc.Words(DIGITS[..n]);
  }

  lemma RegisterAfter1()
    ensures Register(1) == 0x6f0a661c
  {
    FirstRegister();
    hide Register;
    NextByte(0, 0xffffffff, 0xffffffce,
             [0x7fffffe7, 0xbd09c48b, 0xdc72d93d, 0xeccf57e6, 0x7667abf3, 0xb9c5ee81, 0xde14cc38, 0x6f0a661c]);
  }

  lemma RegisterAfter2()
    ensures Register(2) == 0x8caa3b9f
  {
    RegisterAfter1();
    hide Register;
    NextByte(1, 0x6f0a661c, 0x6f0a662e,
             [0x37853317, 0x9934a2f3, 0xce6c6a01, 0xe5c00e78, 0x72e0073c, 0x3970039e, 0x1cb801cf, 0x8caa3b9f]);
  }

  lemma RegisterAfter3()
    ensures Register(3) == 0xef84d04d
  {
    RegisterAfter2();
    hide Register;
    NextByte(2, 0x8caa3b9f, 0x8caa3bac,
             [0x46551dd6, 0x232a8eeb, 0x93637c0d, 0xcb47857e, 0x65a3c2bf, 0xb027da27, 0xdae5d66b, 0xef84d04d]);
  }

  lemma RegisterAfter4()
    ensures Register(4) == 0x09c50b11
  {
    RegisterAfter3();
    hide Register;
    NextByte(3, 0xef84d04d, 0xef84d079,
             [0xf5345344, 0x7a9a29a2, 0x3d4d14d1, 0x9c50b110, 0x4e285888, 0x27142c44, 0x138a1622, 0x09c50b11]);
  }

  lemma RegisterAfter5()
    ensures Register(5) == 0xe72edcca
  {
    RegisterAfter4();
    hide Register;
    NextByte(4, 0x09c50b11, 0x09c50b24,
             [0x04e28592, 0x027142c9, 0x83ce9a1c, 0x41e74d0e, 0x20f3a687, 0x928fe83b, 0xcbb1cf65, 0xe72edcca]);
  }

  lemma RegisterAfter6()
    ensures Register(6) == 0xbeca8e79
  {
    RegisterAfter5();
    hide Register;
    NextByte(5, 0xe72edcca, 0xe72edcfc,
             [0x73976e7e, 0x39cbb73f, 0x9e13e0e7, 0xcdffcb0b, 0xe409defd, 0xf0f2d406, 0x78796a03, 0xbeca8e79]);
  }

  lemma RegisterAfter7()
    ensures Register(7) == 0xedbd6815
  {
    RegisterAfter6();
    hide Register;
    NextByte(6, 0xbeca8e79, 0xbeca8e4e,
             [0x5f654727, 0xad4498eb, 0xd454770d, 0xe8dc00fe, 0x746e007f, 0xb8c13b47, 0xde96a6db, 0xedbd6815]);
  }

  lemma RegisterAfter8()
    ensures Register(8) == 0x9f787f65
  {
    RegisterAfter7();
    hide Register;
    NextByte(7, 0xedbd6815, 0xedbd682d,
             [0xf4288f6e, 0x7a1447b7, 0xbffc18a3, 0xdd083729, 0xec7220ec, 0x76391076, 0x3b1c883b, 0x9f787f65]);
  }

  lemma RegisterAfter9()
    ensures Register(9) == 0x1cf96d7c
  {
    RegisterAfter8();
    hide Register;
    NextByte(8, 0x9f787f65, 0x9f787f5c,
             [0x4fbc3fae, 0x27de1fd7, 0x91193493, 0xca7aa131, 0xe7cb6be0, 0x73e5b5f0, 0x39f2daf8, 0x1cf96d7c]);
  }

  lemma FirstRegister()
    ensures Register(0) == 0xffffffff
  {
  }

  /** The check value of the checksum, as published. */
  lemma ChecksumOfDigits()
    ensures Crc.Crc32cOf(DIGITS) == 0xe3069283
  {
    hide Register;
    RegisterAfter9();
    DividedWhole();
  }

  lemma DividedWhole()
    ensures Crc.Crc32cOf(DIGITS) == Crc.Xor(Register(9), 0xffffffff)
  {
    assert DIGITS[..9] == DIGITS;
  }
}
