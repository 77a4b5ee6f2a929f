// lib/libdvbv5/crc32.c: the table-driven CRC-32 of Annex A of ISO/IEC 13818-1
// against the bit-serial shift register with polynomial 0x04c11db7, and what
// the checksum can tell apart.

module Crc32 {
  import opened Crc32Table
  import opened Crc32Words

  // ----- The shift register -----

  function PolyIf(a: bool): Register { Register(if a then 0x04c11db7 else 0) }

  // One bit enters at the top of the register.
  function StepBit(r: Register, bit: bool): Register {
    Xor(Shl(r), PolyIf(Top(r) != bit))
  }

  function CrcBits(bits: seq<bool>, r: Register): Register
    decreases |bits|
  {
    if bits == [] then r else CrcBits(bits[1..], StepBit(r, bits[0]))
  }

  function Bits(data: seq<bv8>): (bits: seq<bool>)
    ensures |bits| == 8 * |data|
  {
    if data == [] then [] else ByteBits(data[0]) + Bits(data[1..])
  }

  // ----- The table-driven form -----

  function StepByte(r: Register, b: bv8): Register {
    Xor(Shl8(r), Register(CrcTab(TopByte(r) ^ b)))
  }

  function CrcBytes(data: seq<bv8>, r: Register): Register
    decreases |data|
  {
    if data == [] then r else CrcBytes(data[1..], StepByte(r, data[0]))
  }

  method DvbCrc32(data: array<bv8>, len: nat, seed: bv32) returns (crc: bv32)
    requires len <= data.Length
    ensures Register(crc) == CrcBytes(data[..len], Register(seed))
    ensures Register(crc) == CrcBits(Bits(data[..len]), Register(seed))
  {
    hide CrcTab, StepByte;
    crc := seed;
    var left, i := len, 0;
    assert data[0..len] == data[..len];
    while left != 0
      invariant i + left == len
      invariant CrcBytes(data[i..len], Register(crc)) == CrcBytes(data[..len], Register(seed))
      decreases left
    {
      assert data[i..len][0] == data[i] && data[i..len][1..] == data[i + 1..len];
      var index := (((crc >> 24) ^ (data[i] as bv32)) & 0xff) as bv8;
      var next := (crc << 8) ^ CrcTab(index);
      LoopBody(crc, data[i], index, next);
      crc := next;
      left, i := left - 1, i + 1;
    }
    TableIsShiftRegister(data[..len], Register(seed));
  }

  // The expression of the loop body is one step.
  lemma LoopBody(crc: bv32, b: bv8, index: bv8, next: bv32)
    requires index == (((crc >> 24) ^ (b as bv32)) & 0xff) as bv8
    requires next == (crc << 8) ^ CrcTab(index)
    ensures Register(next) == StepByte(Register(crc), b)
  {
    IndexByte(crc, b);
    LoopIndex(crc, b, index);
    LoopWord(crc, b, index);
    hide CrcTab, TopByte, Xor, Shl8;
  }

  lemma LoopIndex(crc: bv32, b: bv8, index: bv8)
    requires index == (((crc >> 24) ^ (b as bv32)) & 0xff) as bv8
    ensures index == TopByte(Register(crc)) ^ b
  {
  }

  lemma LoopWord(crc: bv32, b: bv8, index: bv8)
    ensures Xor(Shl8(Register(crc)), Register(CrcTab(index))) == Register((crc << 8) ^ CrcTab(index))
  {
    hide CrcTab;
    LoopXor(crc, CrcTab(index));
  }

  lemma LoopXor(crc: bv32, entry: bv32)
    ensures Xor(Shl8(Register(crc)), Register(entry)).word == (crc << 8) ^ entry
  {
  }

  // ----- The table is eight steps of the register -----

  function Zero(r: Register): Register { StepBit(r, false) }

  function Zero4(r: Register): Register { Zero(Zero(Zero(Zero(r)))) }

  function Zero8(r: Register): Register { Zero4(Zero4(r)) }

  lemma Row0Entries(i: bv8)
    requires i >> 4 == 0
    ensures Register(Row0(i & 0xf)) == Zero8(AtTop(i))
  {
  }

  lemma Row1Entries(i: bv8)
    requires i >> 4 == 1
    ensures Register(Row1(i & 0xf)) == Zero8(AtTop(i))
  {
  }

  lemma Row2Entries(i: bv8)
    requires i >> 4 == 2
    ensures Register(Row2(i & 0xf)) == Zero8(AtTop(i))
  {
  }

  lemma Row3Entries(i: bv8)
    requires i >> 4 == 3
    ensures Register(Row3(i & 0xf)) == Zero8(AtTop(i))
  {
  }

  lemma Row4Entries(i: bv8)
    requires i >> 4 == 4
    ensures Register(Row4(i & 0xf)) == Zero8(AtTop(i))
  {
  }

  lemma Row5Entries(i: bv8)
    requires i >> 4 == 5
    ensures Register(Row5(i & 0xf)) == Zero8(AtTop(i))
  {
  }

  lemma Row6Entries(i: bv8)
    requires i >> 4 == 6
    ensures Register(Row6(i & 0xf)) == Zero8(AtTop(i))
  {
  }

  lemma Row7Entries(i: bv8)
    requires i >> 4 == 7
    ensures Register(Row7(i & 0xf)) == Zero8(AtTop(i))
  {
  }

  lemma Row8Entries(i: bv8)
    requires i >> 4 == 8
    ensures Register(Row8(i & 0xf)) == Zero8(AtTop(i))
  {
  }

  lemma Row9Entries(i: bv8)
    requires i >> 4 == 9
    ensures Register(Row9(i & 0xf)) == Zero8(AtTop(i))
  {
  }

  lemma RowaEntries(i: bv8)
    requires i >> 4 == 10
    ensures Register(Rowa(i & 0xf)) == Zero8(AtTop(i))
  {
  }

  lemma RowbEntries(i: bv8)
    requires i >> 4 == 11
    ensures Register(Rowb(i & 0xf)) == Zero8(AtTop(i))
  {
  }

  lemma RowcEntries(i: bv8)
    requires i >> 4 == 12
    ensures Register(Rowc(i & 0xf)) == Zero8(AtTop(i))
  {
  }

  lemma RowdEntries(i: bv8)
    requires i >> 4 == 13
    ensures Register(Rowd(i & 0xf)) == Zero8(AtTop(i))
  {
  }

  lemma RoweEntries(i: bv8)
    requires i >> 4 == 14
    ensures Register(Rowe(i & 0xf)) == Zero8(AtTop(i))
  {
  }

  lemma RowfEntries(i: bv8)
    requires i >> 4 == 15
    ensures Register(Rowf(i & 0xf)) == Zero8(AtTop(i))
  {
  }

  lemma TableEntry(i: bv8)
    ensures Register(CrcTab(i)) == Zero8(AtTop(i))
  {
    hide Zero8;
    match i >> 4
    case 0 => Row0Entries(i);
    case 1 => Row1Entries(i);
    case 2 => Row2Entries(i);
    case 3 => Row3Entries(i);
    case 4 => Row4Entries(i);
    case 5 => Row5Entries(i);
    case 6 => Row6Entries(i);
    case 7 => Row7Entries(i);
    case 8 => Row8Entries(i);
    case 9 => Row9Entries(i);
    case 10 => RowaEntries(i);
    case 11 => RowbEntries(i);
    case 12 => RowcEntries(i);
    case 13 => RowdEntries(i);
    case 14 => RoweEntries(i);
    case _ => RowfEntries(i);
  }

  // ----- Linearity of the steps -----

  lemma PolyXor(a: bool, b: bool)
    ensures PolyIf(a != b) == Xor(PolyIf(a), PolyIf(b))
  {
  }

  lemma StepBitLinear(s: Register, t: Register, x: bool, y: bool)
    ensures StepBit(Xor(s, t), x != y) == Xor(StepBit(s, x), StepBit(t, y))
  {
    var a, b := Top(s) != x, Top(t) != y;
    hide Xor, Shl, Top, PolyIf;
    PolyXor(a, b);
    ShlXor(s, t);
    TopXor(s, t);
    XorPairs(Shl(s), Shl(t), PolyIf(a), PolyIf(b));
  }

  lemma ZeroLinear(s: Register, t: Register)
    ensures Zero(Xor(s, t)) == Xor(Zero(s), Zero(t))
  {
    hide StepBit, Xor;
    StepBitLinear(s, t, false, false);
  }

  lemma Zero4Linear(s: Register, t: Register)
    ensures Zero4(Xor(s, t)) == Xor(Zero4(s), Zero4(t))
  {
    hide Zero, Xor;
    ZeroLinear(s, t);
    ZeroLinear(Zero(s), Zero(t));
    ZeroLinear(Zero(Zero(s)), Zero(Zero(t)));
    ZeroLinear(Zero(Zero(Zero(s))), Zero(Zero(Zero(t))));
  }

  lemma Zero8Linear(s: Register, t: Register)
    ensures Zero8(Xor(s, t)) == Xor(Zero8(s), Zero8(t))
  {
    hide Zero4, Xor;
    Zero4Linear(s, t);
    Zero4Linear(Zero4(s), Zero4(t));
  }

  // A word with a clear top byte just moves up.
  lemma Zero8Low(r: Register)
    requires TopByte(r) == 0
    ensures Zero8(r) == Shl8(r)
  {
    LowTops(r);
    ZeroLow(r);
    ZeroLow(Shl(r));
    ZeroLow(Shl(Shl(r)));
    ZeroLow(Shl(Shl(Shl(r))));
    var r4 := Shl4(r);
    ZeroLow(r4);
    ZeroLow(Shl(r4));
    ZeroLow(Shl(Shl(r4)));
    ZeroLow(Shl(Shl(Shl(r4))));
    hide Zero, Shl, Shl8, Top;
  }

  lemma ZeroLow(r: Register)
    ensures !Top(r) ==> Zero(r) == Shl(r)
  {
    XorZero(Shl(r));
    hide Xor, Shl;
  }

  // Adding such a word before eight zeros is adding it moved up after them.
  lemma Zero8Carry(s: Register, t: Register)
    requires TopByte(t) == 0
    ensures Zero8(Xor(s, t)) == Xor(Zero8(s), Shl8(t))
  {
    Zero8Linear(s, t);
    Zero8Low(t);
    hide Zero8, Xor, Shl8;
  }

  // The table-driven step adds the byte at the top, then feeds eight zeros.
  lemma StepByteIsZero8(r: Register, b: bv8)
    ensures StepByte(r, b) == Zero8(Xor(r, AtTop(b)))
  {
    SplitTop(r, b);
    TableEntry(TopByte(r) ^ b);
    Zero8Carry(AtTop(TopByte(r) ^ b), Low(r));
    XorCommutes(Zero8(AtTop(TopByte(r) ^ b)), Shl8(r));
    hide Zero8, Xor, Shl8, AtTop, Low, CrcTab;
  }

  // A word at the register's top enters bit by bit, or at once.
  lemma ShiftIn(s: Register, w: Register)
    ensures Zero(Xor(s, w)) == Xor(StepBit(s, Top(w)), Shl(w))
  {
    ShlXor(s, w);
    TopXor(s, w);
    XorSwap(Shl(s), Shl(w), PolyIf(Top(s) != Top(w)));
    hide Xor, Shl, Top, PolyIf;
  }

  function Feed4(r: Register, a: bool, b: bool, c: bool, d: bool): Register {
    StepBit(StepBit(StepBit(StepBit(r, a), b), c), d)
  }

  lemma ShiftIn4(s: Register, w: Register)
    ensures var w1, w2, w3 := Shl(w), Shl(Shl(w)), Shl(Shl(Shl(w)));
            Zero4(Xor(s, w)) == Xor(Feed4(s, Top(w), Top(w1), Top(w2), Top(w3)), Shl(w3))
  {
    var w1, w2, w3 := Shl(w), Shl(Shl(w)), Shl(Shl(Shl(w)));
    var s1 := StepBit(s, Top(w));
    var s2 := StepBit(s1, Top(w1));
    var s3 := StepBit(s2, Top(w2));
    ShiftIn(s, w);
    ShiftIn(s1, w1);
    ShiftIn(s2, w2);
    ShiftIn(s3, w3);
    hide Zero, StepBit, Xor, Shl, Top;
  }

  // The bits of a byte in turn, or the byte at the top and eight zeros.
  lemma FeedByte(s: Register, b: bv8)
    ensures var bits := ByteBits(b);
            Feed4(Feed4(s, bits[0], bits[1], bits[2], bits[3]), bits[4], bits[5], bits[6], bits[7])
            == Zero8(Xor(s, AtTop(b)))
  {
    var bits := ByteBits(b);
    var w := AtTop(b);
    var w4 := Shl4(w);
    BitsAreTops(b);
    var s4 := Feed4(s, bits[0], bits[1], bits[2], bits[3]);
    var s8 := Feed4(s4, bits[4], bits[5], bits[6], bits[7]);
    ShiftIn4(s, w);
    ShiftIn4(s4, w4);
    XorZero(s8);
    hide Zero4, Feed4, Xor, Shl, Top, AtTop, ByteBits;
  }

  // ----- The fast form is the shift register -----

  lemma CrcBitsFour(bits: seq<bool>, i: nat, r: Register)
    requires i + 4 <= |bits|
    ensures CrcBits(bits[i..], r)
         == CrcBits(bits[i + 4..], Feed4(r, bits[i], bits[i + 1], bits[i + 2], bits[i + 3]))
  {
    var r1 := StepBit(r, bits[i]);
    var r2 := StepBit(r1, bits[i + 1]);
    var r3 := StepBit(r2, bits[i + 2]);
    CrcBitsFrom(bits, i, r);
    CrcBitsFrom(bits, i + 1, r1);
    CrcBitsFrom(bits, i + 2, r2);
    CrcBitsFrom(bits, i + 3, r3);
    hide StepBit, CrcBits;
  }

  lemma CrcBitsFrom(bits: seq<bool>, i: nat, r: Register)
    requires i < |bits|
    ensures CrcBits(bits[i..], r) == CrcBits(bits[i + 1..], StepBit(r, bits[i]))
  {
    hide StepBit;
    assert bits[i..][0] == bits[i] && bits[i..][1..] == bits[i + 1..];
  }

  lemma ByteByBits(b: bv8, r: Register)
    ensures CrcBits(ByteBits(b), r) == StepByte(r, b)
  {
    hide StepBit, StepByte, Feed4, ByteBits;
    var bits := ByteBits(b);
    CrcBitsFour(bits, 0, r);
    CrcBitsFour(bits, 4, Feed4(r, bits[0], bits[1], bits[2], bits[3]));
    assert bits[0..] == bits && bits[8..] == [];
    FeedByte(r, b);
    StepByteIsZero8(r, b);
  }

  // The checksum of a concatenation continues the checksum of its first part.
  lemma {:induction false} CrcBitsAppend(a: seq<bool>, b: seq<bool>, r: Register)
    ensures CrcBits(a + b, r) == CrcBits(b, CrcBits(a, r))
    decreases |a|
  {
    hide StepBit;
    if a == [] {
      assert a + b == b;
    } else {
      assert (a + b)[0] == a[0] && (a + b)[1..] == a[1..] + b;
      CrcBitsAppend(a[1..], b, StepBit(r, a[0]));
    }
  }

  lemma {:induction false} CrcBytesAppend(a: seq<bv8>, b: seq<bv8>, r: Register)
    ensures CrcBytes(a + b, r) == CrcBytes(b, CrcBytes(a, r))
    decreases |a|
  {
    hide StepByte;
    if a == [] {
      assert a + b == b;
    } else {
      assert (a + b)[0] == a[0] && (a + b)[1..] == a[1..] + b;
      CrcBytesAppend(a[1..], b, StepByte(r, a[0]));
    }
  }

  // The table-driven form is the shift register, for every message and seed.
  lemma {:induction false} TableIsShiftRegister(data: seq<bv8>, r: Register)
    ensures CrcBytes(data, r) == CrcBits(Bits(data), r)
    decreases |data|
  {
    hide StepByte, ByteBits, StepBit;
    if data != [] {
      ByteByBits(data[0], r);
      CrcBitsAppend(ByteBits(data[0]), Bits(data[1..]), r);
      TableIsShiftRegister(data[1..], StepByte(r, data[0]));
    }
  }

  // ----- Linear, and a bijection of the seed -----

  function XorBytes(a: seq<bv8>, b: seq<bv8>): (r: seq<bv8>)
    requires |a| == |b|
    ensures |r| == |a| && forall i :: 0 <= i < |a| ==> r[i] == a[i] ^ b[i]
  {
    seq(|a|, i requires 0 <= i < |a| => a[i] ^ b[i])
  }

  lemma StepByteLinear(s: Register, t: Register, x: bv8, y: bv8)
    ensures StepByte(Xor(s, t), x ^ y) == Xor(StepByte(s, x), StepByte(t, y))
  {
    StepByteIsZero8(s, x);
    StepByteIsZero8(t, y);
    StepByteIsZero8(Xor(s, t), x ^ y);
    AtTopXor(x, y);
    XorPairs(s, t, AtTop(x), AtTop(y));
    Zero8Linear(Xor(s, AtTop(x)), Xor(t, AtTop(y)));
    hide StepByte, Zero8, Xor, AtTop;
  }

  // Linear over exclusive or, in message and seed together.
  lemma {:induction false} CrcLinear(a: seq<bv8>, b: seq<bv8>, s: Register, t: Register)
    requires |a| == |b|
    ensures CrcBytes(XorBytes(a, b), Xor(s, t)) == Xor(CrcBytes(a, s), CrcBytes(b, t))
    decreases |a|
  {
    hide StepByte, Xor;
    if a != [] {
      StepByteLinear(s, t, a[0], b[0]);
      CrcLinear(a[1..], b[1..], StepByte(s, a[0]), StepByte(t, b[0]));
      assert XorBytes(a, b)[1..] == XorBytes(a[1..], b[1..]);
    }
  }

  // The register runs backwards: the polynomial is odd.
  function UnstepBit(r: Register, bit: bool): Register {
    Halve(Xor(r, PolyIf(Odd(r))), Odd(r) != bit)
  }

  lemma UnstepStep(r: Register, bit: bool)
    ensures UnstepBit(StepBit(r, bit), bit) == r
    ensures StepBit(UnstepBit(r, bit), bit) == r
  {
    var p, q := PolyIf(Top(r) != bit), PolyIf(Odd(r));
    OddStep(r);
    XorZero(Shl(r));
    XorTwice(Shl(r), p);
    HalveShl(r);
    var back := UnstepBit(r, bit);
    OddPoly(r);
    XorZero(r);
    ShlHalve(Xor(r, q), Odd(r) != bit);
    TopHalve(Xor(r, q), Odd(r) != bit);
    XorTwice(r, q);
    hide Xor, Shl, Halve, Odd, Top;
  }

  function Rewind(bits: seq<bool>, r: Register): Register
    decreases |bits|
  {
    if bits == [] then r else UnstepBit(Rewind(bits[1..], r), bits[0])
  }

  lemma {:induction false} CrcBitsBijective(bits: seq<bool>, s: Register, r: Register)
    ensures CrcBits(bits, s) == r <==> s == Rewind(bits, r)
    decreases |bits|
  {
    hide StepBit, UnstepBit;
    if bits != [] {
      UnstepStep(s, bits[0]);
      UnstepStep(Rewind(bits[1..], r), bits[0]);
      CrcBitsBijective(bits[1..], StepBit(s, bits[0]), r);
    }
  }

  // For a fixed message the checksum is a bijection of the seed.
  lemma CrcBijective(data: seq<bv8>, s: Register, r: Register)
    ensures CrcBytes(data, s) == r <==> s == Rewind(Bits(data), r)
  {
    hide CrcBytes, CrcBits, Rewind, Bits;
    TableIsShiftRegister(data, s);
    CrcBitsBijective(Bits(data), s, r);
  }

  // ----- Four bytes at a time -----

  function Zero32(r: Register): Register { Zero8(Zero8(Zero8(Zero8(r)))) }

  lemma CrcBytesFrom(data: seq<bv8>, i: nat, r: Register)
    requires i < |data|
    ensures CrcBytes(data[i..], r) == CrcBytes(data[i + 1..], StepByte(r, data[i]))
  {
    hide StepByte;
    assert data[i..][0] == data[i] && data[i..][1..] == data[i + 1..];
  }

  // Four bytes entering are a word added to the register, then 32 zeros.
  lemma FourBytes(data: seq<bv8>, r: Register)
    requires |data| == 4
    ensures CrcBytes(data, r) == Zero32(Xor(r, Word(data)))
  {
    hide StepByte, Zero8, Xor, AtTop, Shl8, Word, Word3, Word2, Word1, TopByte;
    var s0 := Xor(r, AtTop(data[0]));
    var r1 := Zero8(s0);
    var s1 := Xor(r1, AtTop(data[1]));
    var r2 := Zero8(s1);
    var s2 := Xor(r2, AtTop(data[2]));
    var r3 := Zero8(s2);
    CrcBytesFrom(data, 0, r);
    CrcBytesFrom(data, 1, r1);
    CrcBytesFrom(data, 2, r2);
    CrcBytesFrom(data, 3, r3);
    assert data[0..] == data && data[4..] == [];
    StepByteIsZero8(r, data[0]);
    StepByteIsZero8(r1, data[1]);
    StepByteIsZero8(r2, data[2]);
    StepByteIsZero8(r3, data[3]);
    WordParts(data);
    XorAssoc(r, AtTop(data[0]), Word3(data));
    Zero8Carry(s0, Word3(data));
    XorAssoc(r1, AtTop(data[1]), Word2(data));
    Zero8Carry(s1, Word2(data));
    XorAssoc(r2, AtTop(data[2]), Word1(data));
    Zero8Carry(s2, Word1(data));
  }

  lemma Zero32OfZero()
    ensures Zero32(Register(0)) == Register(0)
  {
    Zero8Low(Register(0));
    hide Zero8;
  }

  function Unzero4(r: Register): Register {
    UnstepBit(UnstepBit(UnstepBit(UnstepBit(r, false), false), false), false)
  }

  lemma Unzero4Zero4(r: Register)
    ensures Unzero4(Zero4(r)) == r
  {
    hide StepBit, UnstepBit;
    UnstepStep(r, false);
    UnstepStep(Zero(r), false);
    UnstepStep(Zero(Zero(r)), false);
    UnstepStep(Zero(Zero(Zero(r))), false);
  }

  lemma Zero8Injective(s: Register, t: Register)
    requires Zero8(s) == Zero8(t)
    ensures s == t
  {
    hide Zero4, Unzero4;
    Unzero4Zero4(Zero4(s));
    Unzero4Zero4(Zero4(t));
    Unzero4Zero4(s);
    Unzero4Zero4(t);
  }

  lemma Zero32Injective(s: Register, t: Register)
    requires Zero32(s) == Zero32(t)
    ensures s == t
  {
    hide Zero8;
    Zero8Injective(Zero8(Zero8(Zero8(s))), Zero8(Zero8(Zero8(t))));
    Zero8Injective(Zero8(Zero8(s)), Zero8(Zero8(t)));
    Zero8Injective(Zero8(s), Zero8(t));
    Zero8Injective(s, t);
  }

  // Four bytes behind a message give checksum 0 if and only if they are its
  // checksum, the most significant byte first.
  lemma AppendedCrcIsZeroIff(data: seq<bv8>, tail: seq<bv8>, seed: Register)
    requires |tail| == 4
    ensures CrcBytes(data + tail, seed) == Register(0) <==> tail == BigEndian(CrcBytes(data, seed))
  {
    hide CrcBytes, Zero32, Word, Xor, BigEndian;
    var r := CrcBytes(data, seed);
    CrcBytesAppend(data, tail, seed);
    FourBytes(tail, r);
    Zero32OfZero();
    WordIsBigEndian(tail, r);
    if Zero32(Xor(r, Word(tail))) == Register(0) {
      Zero32Injective(Xor(r, Word(tail)), Register(0));
    }
  }

  // ----- Burst errors -----

  lemma {:induction false} BitsInjective(a: seq<bv8>, b: seq<bv8>)
    requires |a| == |b| && Bits(a) == Bits(b)
    ensures a == b
  {
    if a != [] {
      hide ByteBits;
      assert ByteBits(a[0]) == Bits(a)[..8] == Bits(b)[..8] == ByteBits(b[0]);
      assert Bits(a[1..]) == Bits(a)[8..] == Bits(b)[8..] == Bits(b[1..]);
      ByteBitsInjective(a[0], b[0]);
      BitsInjective(a[1..], b[1..]);
    }
  }

  // The four bytes with given bits.
  function Pack(u: seq<bool>): (data: seq<bv8>)
    requires |u| == 32
    ensures |data| == 4
  {
    [PackByte(u[..8]), PackByte(u[8..16]), PackByte(u[16..24]), PackByte(u[24..])]
  }

  lemma BitsOfPack(u: seq<bool>)
    requires |u| == 32
    ensures Bits(Pack(u)) == u
  {
    PackByteBits(u[..8]);
    PackByteBits(u[8..16]);
    PackByteBits(u[16..24]);
    PackByteBits(u[24..]);
    hide ByteBits, PackByte;
    var data := Pack(u);
    assert data[1..][1..] == data[2..] && data[2..][1..] == data[3..] && data[3..][1..] == [];
    assert Bits(data[3..]) == u[24..];
    assert Bits(data[2..]) == u[16..24] + u[24..];
    assert Bits(data[1..]) == u[8..16] + (u[16..24] + u[24..]);
    assert Bits(data) == u[..8] + (u[8..16] + (u[16..24] + u[24..]));
  }

  // Different bits never lead from one state to the same state in 32 steps.
  lemma WindowInjective(u: seq<bool>, v: seq<bool>, r: Register)
    requires |u| == |v| == 32 && CrcBits(u, r) == CrcBits(v, r)
    ensures u == v
  {
    hide CrcBits, CrcBytes, Bits, Zero32, Word, Xor, Pack;
    BitsOfPack(u);
    BitsOfPack(v);
    TableIsShiftRegister(Pack(u), r);
    TableIsShiftRegister(Pack(v), r);
    FourBytes(Pack(u), r);
    FourBytes(Pack(v), r);
    Zero32Injective(Xor(r, Word(Pack(u))), Xor(r, Word(Pack(v))));
    XorCancel(r, Word(Pack(u)), Word(Pack(v)));
    WordInjective(Pack(u), Pack(v));
  }

  // Two messages that differ, but only within 32 consecutive bits, never have
  // the same checksum.
  lemma BurstDetected(a: seq<bv8>, b: seq<bv8>, k: nat, seed: Register)
    requires |a| == |b| && a != b
    requires forall j :: 0 <= j < 8 * |a| && !(k <= j < k + 32) ==> Bits(a)[j] == Bits(b)[j]
    ensures CrcBytes(a, seed) != CrcBytes(b, seed)
  {
    hide CrcBits, CrcBytes, Bits;
    var n := 8 * |a|;
    var zeros := seq(32, i => false);
    var x, y := Bits(a) + zeros, Bits(b) + zeros;
    if CrcBytes(a, seed) == CrcBytes(b, seed) {
      TableIsShiftRegister(a, seed);
      TableIsShiftRegister(b, seed);
      CrcBitsAppend(Bits(a), zeros, seed);
      CrcBitsAppend(Bits(b), zeros, seed);
      if k < n {
        BurstInjective(x, y, k, seed);
      } else {
        assert Bits(a) == Bits(b);
      }
      assert Bits(a) == x[..n] == y[..n] == Bits(b);
      BitsInjective(a, b);
    }
  }

  lemma BurstInjective(x: seq<bool>, y: seq<bool>, k: nat, seed: Register)
    requires |x| == |y| && k + 32 <= |x| && CrcBits(x, seed) == CrcBits(y, seed)
    requires forall j :: 0 <= j < |x| && !(k <= j < k + 32) ==> x[j] == y[j]
    ensures x == y
  {
    hide CrcBits;
    var p, u, v, q := x[..k], x[k..k + 32], y[k..k + 32], x[k + 32..];
    assert x == p + (u + q);
    assert y == p + (v + q);
    var m := CrcBits(p, seed);
    CrcBitsAppend(p, u + q, seed);
    CrcBitsAppend(p, v + q, seed);
    CrcBitsAppend(u, q, m);
    CrcBitsAppend(v, q, m);
    CrcBitsBijective(q, CrcBits(u, m), CrcBits(x, seed));
    CrcBitsBijective(q, CrcBits(v, m), CrcBits(x, seed));
    WindowInjective(u, v, m);
  }
}
