/** CRC-32C, by table and by shift register (src/digest.cpp; section 12.1 of RFC 3720). */
module Crc {
  import opened Bytes

  // ----- Shift registers, over any words -----

  /** A register: what one shift does, and how a word is added. */
  datatype Register<!W> = Register(shift: W -> W, add: (W, W) -> W)

  function ShiftBy<W>(m: Register<W>, w: W, n: nat): W {
    if n == 0 then w else m.shift(ShiftBy(m, w, n - 1))
  }

  /** Division of a message: each symbol is added and shifted out bit by bit. */
  function Divide<W>(m: Register<W>, w: W, symbols: seq<W>): W {
    if symbols == [] then w
    else ShiftBy(m, m.add(Divide(m, w, symbols[..|symbols| - 1]), symbols[|symbols| - 1]), 8)
  }

  ghost predicate Injective<W(!new)>(f: W -> W) {
    forall x, y :: x != y ==> f(x) != f(y)
  }

  ghost predicate Cancels<W(!new)>(add: (W, W) -> W) {
    forall x, y, z :: x != y ==> add(x, z) != add(y, z) && add(z, x) != add(z, y)
  }

  ghost predicate Linear<W(!new)>(m: Register<W>) {
    forall x, y :: m.shift(m.add(x, y)) == m.add(m.shift(x), m.shift(y))
  }

  lemma {:induction false} ShiftByIsInjective<W(!new)>(m: Register<W>, x: W, y: W, n: nat)
    requires Injective(m.shift) && x != y
    ensures ShiftBy(m, x, n) != ShiftBy(m, y, n)
  {
    if n > 0 {
      ShiftByIsInjective(m, x, y, n - 1);
    }
  }

  lemma {:induction false} ShiftByIsLinear<W(!new)>(m: Register<W>, x: W, y: W, n: nat)
    requires Linear(m)
    ensures ShiftBy(m, m.add(x, y), n) == m.add(ShiftBy(m, x, n), ShiftBy(m, y, n))
  {
    if n > 0 {
      ShiftByIsLinear(m, x, y, n - 1);
    }
  }

  lemma {:induction false} DivideSplits<W>(m: Register<W>, w: W, a: seq<W>, b: seq<W>)
    ensures Divide(m, w, a + b) == Divide(m, Divide(m, w, a), b)
  {
    if b == [] {
      assert a + b == a;
    } else {
      assert (a + b)[..|a + b| - 1] == a + b[..|b| - 1];
      DivideSplits(m, w, a, b[..|b| - 1]);
    }
  }

  /** Registers that differ stay different whatever follows. */
  lemma {:induction false} StaysDifferent<W(!new)>(m: Register<W>, x: W, y: W, symbols: seq<W>)
    requires Injective(m.shift) && Cancels(m.add) && x != y
    ensures Divide(m, x, symbols) != Divide(m, y, symbols)
  {
    if symbols != [] {
      var front, last := symbols[..|symbols| - 1], symbols[|symbols| - 1];
      StaysDifferent(m, x, y, front);
      ShiftByIsInjective(m, m.add(Divide(m, x, front), last), m.add(Divide(m, y, front), last), 8);
    }
  }

  /** Two messages that differ in one symbol leave different registers. */
  lemma OneChangeShows<W(!new)>(m: Register<W>, w: W, front: seq<W>, x: W, y: W, tail: seq<W>)
    requires Injective(m.shift) && Cancels(m.add) && x != y
    ensures Divide(m, w, front + [x] + tail) != Divide(m, w, front + [y] + tail)
  {
    var before := Divide(m, w, front);
    ShiftByIsInjective(m, m.add(before, x), m.add(before, y), 8);
    assert (front + [x])[..|front|] == front && (front + [y])[..|front|] == front;
    StaysDifferent(m, Divide(m, w, front + [x]), Divide(m, w, front + [y]), tail);
    DivideSplits(m, w, front + [x], tail);
    DivideSplits(m, w, front + [y], tail);
  }

  lemma {:induction false} ShiftByFromTheFront<W>(m: Register<W>, w: W, n: nat)
    requires n > 0
    ensures ShiftBy(m, w, n) == ShiftBy(m, m.shift(w), n - 1)
  {
    if n > 1 {
      ShiftByFromTheFront(m, w, n - 1);
    }
  }

  lemma ShiftOfSum<W(!new)>(m: Register<W>, x: W, low: W, high: W, n: nat, moved: W)
    requires Linear(m)
    requires x == m.add(low, high) && ShiftBy(m, high, n) == moved
    ensures ShiftBy(m, x, n) == m.add(ShiftBy(m, low, n), moved)
  {
    ShiftByIsLinear(m, low, high, n);
  }

  function Iterate<W>(f: W -> W, w: W, n: nat): W {
    if n == 0 then w else Iterate(f, f(w), n - 1)
  }

  lemma FourTimes<W>(f: W -> W, w: W, n: nat)
    requires n >= 4
    ensures Iterate(f, w, n) == Iterate(f, f(f(f(f(w)))), n - 4)
  {
    assert Iterate(f, f(w), n - 1) == Iterate(f, f(f(w)), n - 2);
    assert Iterate(f, f(f(w)), n - 2) == Iterate(f, f(f(f(w))), n - 3);
  }

  lemma EightTimes<W>(f: W -> W, w: W)
    ensures Iterate(f, w, 8) == f(f(f(f(f(f(f(f(w))))))))
  {
    FourTimes(f, w, 8);
    FourTimes(f, f(f(f(f(w)))), 4);
  }

  // ----- The reflected Castagnoli polynomial -----

  const POLYNOMIAL: bv32 := 0x82F63B78
  const ALL_ONES: bv32 := 0xFFFFFFFF

  /** One bit out at the low end, the reflected polynomial in if it was set. */
  function Shift(crc: bv32): bv32 {
    if crc & 1 == 1 then (crc >> 1) ^ POLYNOMIAL else crc >> 1
  }

  function Xor(x: bv32, y: bv32): bv32 {
    x ^ y
  }

  function Castagnoli(): Register<bv32> {
    Register(Shift, Xor)
  }

  function Words(data: seq<byte>): (words: seq<bv32>)
    ensures |words| == |data|
  {
    seq(|data|, i requires 0 <= i < |data| => Widen(data[i]))
  }

  /** The checksum by definition. */
  function Crc32cOf(data: seq<byte>): bv32 {
    Xor(Divide(Castagnoli(), ALL_ONES, Words(data)), ALL_ONES)
  }

  lemma ShiftIsInjective(x: bv32, y: bv32)
    requires x != y
    ensures Shift(x) != Shift(y)
  {
  }

  lemma XorCancels(x: bv32, y: bv32, z: bv32)
    requires x != y
    ensures Xor(x, z) != Xor(y, z) && Xor(z, x) != Xor(z, y)
  {
  }

  function Halve(x: bv32): bv32 {
    x >> 1
  }

  predicate Odd(x: bv32) {
    x & 1 == 1
  }

  lemma ShiftByParity(x: bv32)
    ensures Shift(x) == if Odd(x) then Xor(Halve(x), POLYNOMIAL) else Halve(x)
  {
  }

  lemma HalveOfXor(x: bv32, y: bv32)
    ensures Halve(Xor(x, y)) == Xor(Halve(x), Halve(y))
  {
  }

  lemma ParityOfXor(x: bv32, y: bv32)
    ensures Odd(Xor(x, y)) <==> Odd(x) != Odd(y)
  {
  }

  lemma WordsAssociate(a: bv32, b: bv32, c: bv32)
    ensures (a ^ b) ^ c == a ^ (b ^ c)
  {
  }

  lemma XorAssociates(a: bv32, b: bv32, c: bv32)
    ensures Xor(Xor(a, b), c) == Xor(a, Xor(b, c))
  {
    calc {
      Xor(Xor(a, b), c);
      (a ^ b) ^ c;
      { WordsAssociate(a, b, c); }
      a ^ (b ^ c);
      Xor(a, Xor(b, c));
    }
  }

  lemma XorCommutes(a: bv32, b: bv32)
    ensures Xor(a, b) == Xor(b, a)
  {
  }

  lemma XorUndone(a: bv32, c: bv32)
    ensures Xor(c, Xor(c, a)) == a
  {
  }

  /** However many of the two carry the polynomial, it is there once, or cancels. */
  lemma PolynomialsCombine(a: bv32, b: bv32, c: bv32)
    ensures Xor(Xor(a, c), Xor(b, c)) == Xor(a, b)
    ensures Xor(Xor(a, c), b) == Xor(Xor(a, b), c)
    ensures Xor(a, Xor(b, c)) == Xor(Xor(a, b), c)
  {
    hide Xor;
    XorAssociates(a, b, c);
    XorAssociates(a, c, b);
    XorAssociates(a, c, Xor(b, c));
    XorCommutes(b, c);
    XorUndone(b, c);
  }

  lemma ShiftIsLinear(x: bv32, y: bv32)
    ensures Shift(Xor(x, y)) == Xor(Shift(x), Shift(y))
  {
    hide Shift, Halve, Odd, Xor;
    ShiftByParity(x);
    ShiftByParity(y);
    ShiftByParity(Xor(x, y));
    HalveOfXor(x, y);
    ParityOfXor(x, y);
    PolynomialsCombine(Halve(x), Halve(y), POLYNOMIAL);
  }

  lemma CastagnoliLaws()
    ensures Injective(Castagnoli().shift) && Cancels(Castagnoli().add) && Linear(Castagnoli())
  {
    forall x, y | x != y ensures Shift(x) != Shift(y) {
      ShiftIsInjective(x, y);
    }
    forall x, y, z | x != y ensures Xor(x, z) != Xor(y, z) && Xor(z, x) != Xor(z, y) {
      XorCancels(x, y, z);
    }
    forall x, y ensures Shift(Xor(x, y)) == Xor(Shift(x), Shift(y)) {
      ShiftIsLinear(x, y);
    }
  }

  function LowBits(n: nat): bv32 {
    if n == 0 then 0 else (LowBits(n - 1) << 1) | 1
  }

  lemma OneBitLess(x: bv32, mask: bv32)
    requires mask <= 0x7FFFFFFF && x & ((mask << 1) | 1) == 0
    ensures Halve(x) & mask == 0
    ensures Shift(x) == Halve(x)
  {
  }

  /** Zero bits at the low end just move out. */
  lemma {:induction false} ZeroBitsMoveOut(x: bv32, n: nat)
    requires forall k: nat :: k < n ==> LowBits(k) <= 0xFF
    requires x & LowBits(n) == 0
    ensures ShiftBy(Castagnoli(), x, n) == Iterate(Halve, x, n)
  {
    if n > 0 {
      OneBitLess(x, LowBits(n - 1));
      ShiftByFromTheFront(Castagnoli(), x, n);
      ZeroBitsMoveOut(Halve(x), n - 1);
    }
  }

  lemma EightHalves(x: bv32)
    ensures Halve(Halve(Halve(Halve(Halve(Halve(Halve(Halve(x)))))))) == x >> 8
  {
  }

  lemma LowAndHighParts(x: bv32)
    ensures x == Xor(x & 0xFF, x & 0xFFFFFF00)
    ensures (x & 0xFFFFFF00) & 0xFF == 0
    ensures (x & 0xFFFFFF00) >> 8 == x >> 8
  {
  }

  lemma ZeroByteMovesOut(x: bv32)
    requires x & 0xFF == 0
    ensures ShiftBy(Castagnoli(), x, 8) == x >> 8
  {
    hide Shift, Castagnoli, ShiftBy, Iterate, Halve;
    ByteMask();
    ZeroBitsMoveOut(x, 8);
    EightTimes(Halve, x);
    EightHalves(x);
  }

  lemma ByteMask()
    ensures LowBits(8) == 0xFF
    ensures forall k: nat :: k < 8 ==> LowBits(k) <= 0xFF
  {
    assert LowBits(1) == 1 && LowBits(2) == 3 && LowBits(3) == 7 && LowBits(4) == 15;
    assert LowBits(5) == 31 && LowBits(6) == 63 && LowBits(7) == 127;
  }

  /** Eight shifts at once: the low byte decides what is added, the rest moves down. */
  lemma EightShifts(x: bv32)
    ensures ShiftBy(Castagnoli(), x, 8) == Castagnoli().add(ShiftBy(Castagnoli(), x & 0xFF, 8), x >> 8)
  {
    hide Shift, ShiftBy;
    LowAndHighParts(x);
    CastagnoliLaws();
    ZeroByteMovesOut(x & 0xFFFFFF00);
    hide Xor;
    ShiftOfSum(Castagnoli(), x, x & 0xFF, x & 0xFFFFFF00, 8, x >> 8);
  }

  // ----- By table -----

  method TableEntry(index: bv32) returns (crc: bv32)
    ensures crc == ShiftBy(Castagnoli(), index, 8)
  {
    crc := index;
    for bit := 0 to 8
      invariant crc == ShiftBy(Castagnoli(), index, bit)
    {
      crc := if crc & 1 == 1 then (crc >> 1) ^ POLYNOMIAL else crc >> 1;
    }
  }

  method BuildTable() returns (table: array<bv32>)
    ensures fresh(table) && table.Length == 256
    ensures forall i :: 0 <= i < 256 ==> table[i] == ShiftBy(Castagnoli(), i as bv32, 8)
  {
    hide ShiftBy, Castagnoli;
    table := new bv32[256];
    for i := 0 to 256
      invariant forall k :: 0 <= k < i ==> table[k] == ShiftBy(Castagnoli(), k as bv32, 8)
    {
      table[i] := TableEntry(i as bv32);
    }
  }

  lemma IndexRoundTrip(x: bv32)
    ensures (x as int) as bv32 == x
  {
  }

  lemma MaskedIndex(x: bv32)
    ensures (x & 0xFF) as int < 256
  {
  }

  lemma ByteEnters(crc: bv32, b: byte)
    ensures Xor(crc, Widen(b)) >> 8 == crc >> 8
  {
  }

  class Crc32cAccumulator {
    const table: array<bv32>
    var value: bv32

    ghost predicate Valid()
      reads table
    {
      table.Length == 256 && forall i :: 0 <= i < 256 ==> table[i] == ShiftBy(Castagnoli(), i as bv32, 8)
    }

    constructor ()
      ensures Valid() && value == ALL_ONES && fresh(table)
    {
      var built := BuildTable();
      table := built;
      value := ALL_ONES;
    }

    /** Looking up whole bytes is dividing bit by bit. */
    method Update(data: seq<byte>)
      requires Valid()
      modifies `value
      ensures value == Divide(Castagnoli(), old(value), Words(data))
    {
      var crc := value;
      for i := 0 to |data|
        invariant crc == Divide(Castagnoli(), old(value), Words(data)[..i])
      {
        crc := Step(crc, data[i]);
        assert Words(data)[..i + 1][..i] == Words(data)[..i];
      }
      assert Words(data)[..|data|] == Words(data);
      value := crc;
    }

    method Step(crc: bv32, b: byte) returns (next: bv32)
      requires Valid()
      ensures next == ShiftBy(Castagnoli(), Castagnoli().add(crc, Widen(b)), 8)
    {
      hide Shift, ShiftBy, Xor;
      var x := Xor(crc, Widen(b));
      EntryOf(x & 0xFF);
      MaskedIndex(x);
      EightShifts(x);
      ByteEnters(crc, b);
      next := Xor(table[(x & 0xFF) as int], crc >> 8);
    }

    lemma EntryOf(index: bv32)
      requires Valid() && index as int < 256
      ensures table[index as int] == ShiftBy(Castagnoli(), index, 8)
    {
      IndexRoundTrip(index);
    }
  }

  /** The table computes the checksum by definition. */
  method Crc32c(data: seq<byte>) returns (crc: bv32)
    ensures crc == Crc32cOf(data)
  {
    var acc := new Crc32cAccumulator();
    acc.Update(data);
    crc := Xor(acc.value, ALL_ONES);
  }

  // ----- What it detects -----

  lemma BytesTellApart(x: byte, y: byte)
    requires x != y
    ensures Widen(x) != Widen(y)
  {
  }

  /** Two messages of one length that differ in exactly one byte have different checksums. */
  lemma OneChangedByteIsDetected(a: seq<byte>, b: seq<byte>, i: nat)
    requires |a| == |b| && i < |a| && a[i] != b[i]
    requires forall j :: 0 <= j < |a| && j != i ==> a[j] == b[j]
    ensures Crc32cOf(a) != Crc32cOf(b)
  {
    var v, w := Words(a), Words(b);
    assert v == v[..i] + [v[i]] + v[i + 1..];
    assert w == v[..i] + [w[i]] + v[i + 1..];
    BytesTellApart(a[i], b[i]);
    CastagnoliLaws();
    OneChangeShows(Castagnoli(), ALL_ONES, v[..i], v[i], w[i], v[i + 1..]);
    XorCancels(Divide(Castagnoli(), ALL_ONES, v), Divide(Castagnoli(), ALL_ONES, w), ALL_ONES);
  }
}
