// The operations of the CRC register on 32-bit words, and the bit-vector facts
// about them.

module Crc32Words {

  datatype Register = Register(word: bv32)

  function Xor(a: Register, b: Register): Register { Register(a.word ^ b.word) }

  function Shl(r: Register): Register { Register(r.word << 1) }

  function Shl4(r: Register): Register { Shl(Shl(Shl(Shl(r)))) }

  function Shl8(r: Register): Register { Register(r.word << 8) }

  predicate Top(r: Register) { r.word >> 31 == 1 }

  predicate Odd(r: Register) { r.word & 1 == 1 }

  function TopByte(r: Register): bv8 { (r.word >> 24) as bv8 }

  function AtTop(b: bv8): Register { Register((b as bv32) << 24) }

  function Low(r: Register): Register { Register(r.word & 0xffffff) }

  // One place down, with the given top bit.
  function Halve(r: Register, top: bool): Register {
    Register((r.word >> 1) | (if top then 0x80000000 else 0))
  }

  lemma XorZero(r: Register)
    ensures Xor(r, Register(0)) == r
    ensures Xor(Register(0), r) == r
    ensures Xor(r, r) == Register(0)
  {
  }

  lemma XorPairs(a: Register, b: Register, c: Register, d: Register)
    ensures Xor(Xor(a, b), Xor(c, d)) == Xor(Xor(a, c), Xor(b, d))
  {
  }

  lemma XorSwap(a: Register, b: Register, c: Register)
    ensures Xor(Xor(a, b), c) == Xor(Xor(a, c), b)
  {
  }

  lemma XorAssoc(a: Register, b: Register, c: Register)
    ensures Xor(Xor(a, b), c) == Xor(a, Xor(b, c))
  {
  }

  lemma XorCommutes(a: Register, b: Register)
    ensures Xor(a, b) == Xor(b, a)
  {
  }

  lemma XorTwice(a: Register, b: Register)
    ensures Xor(Xor(a, b), b) == a
  {
  }

  lemma XorCancel(a: Register, b: Register, c: Register)
    requires Xor(a, b) == Xor(a, c)
    ensures b == c
  {
    hide Xor;
    XorCommutes(a, b);
    XorCommutes(a, c);
    XorTwice(b, a);
    XorTwice(c, a);
  }

  lemma ShlXor(a: Register, b: Register)
    ensures Shl(Xor(a, b)) == Xor(Shl(a), Shl(b))
  {
  }

  lemma TopXor(a: Register, b: Register)
    ensures Top(Xor(a, b)) <==> (Top(a) != Top(b))
  {
    TopXorWord(a.word, b.word);
    hide Xor;
    TopOfXor(a, b);
  }

  lemma TopOfXor(a: Register, b: Register)
    ensures Top(Xor(a, b)) <==> (a.word ^ b.word) >> 31 == 1
  {
  }

  lemma TopXorWord(a: bv32, b: bv32)
    ensures (a ^ b) >> 31 == 1 <==> ((a >> 31 == 1) != (b >> 31 == 1))
  {
  }

  lemma AtTopXor(x: bv8, y: bv8)
    ensures AtTop(x ^ y) == Xor(AtTop(x), AtTop(y))
  {
  }

  // A register with a clear top byte stays clear at the top for seven places.
  lemma LowTops(r: Register)
    requires TopByte(r) == 0
    ensures Shl4(Shl4(r)) == Shl8(r)
    ensures !Top(r) && !Top(Shl(r)) && !Top(Shl(Shl(r))) && !Top(Shl(Shl(Shl(r))))
    ensures !Top(Shl4(r)) && !Top(Shl(Shl4(r))) && !Top(Shl(Shl(Shl4(r)))) && !Top(Shl(Shl(Shl(Shl4(r)))))
  {
  }

  // A byte added at the top meets only the top byte.
  lemma SplitTop(r: Register, b: bv8)
    ensures Xor(r, AtTop(b)) == Xor(AtTop(TopByte(r) ^ b), Low(r))
    ensures Shl8(Low(r)) == Shl8(r)
    ensures TopByte(Low(r)) == 0
  {
    hide Xor, AtTop, TopByte, Low, Shl8;
    SplitTopWord0(r, b);
    SplitTopWord1(r, b);
    SplitTopFact(r, b);
  }

  lemma SplitTopWord0(r: Register, b: bv8)
    ensures Xor(r, AtTop(b)).word == Xor(AtTop(TopByte(r) ^ b), Low(r)).word
  {
  }

  lemma SplitTopWord1(r: Register, b: bv8)
    ensures Shl8(Low(r)).word == Shl8(r).word
  {
  }

  lemma SplitTopFact(r: Register, b: bv8)
    ensures TopByte(Low(r)) == 0
  {
  }

  lemma IndexByte(a: bv32, b: bv8)
    ensures (((a >> 24) ^ (b as bv32)) & 0xff) as bv8 == (a >> 24) as bv8 ^ b
  {
  }

  // Adding the polynomial to a register moved up shows in its lowest bit.
  lemma OddStep(r: Register)
    ensures !Odd(Shl(r))
    ensures Odd(Xor(Shl(r), Register(0x04c11db7)))
  {
  }

  lemma OddPoly(r: Register)
    ensures Odd(r) ==> !Odd(Xor(r, Register(0x04c11db7)))
  {
  }

  lemma HalveShl(r: Register)
    ensures Halve(Shl(r), Top(r)) == r
  {
    if Top(r) { TopIsBack(r.word); } else { TopStaysClear(r.word); }
  }

  lemma TopIsBack(w: bv32)
    requires w >> 31 == 1
    ensures ((w << 1) >> 1) | 0x80000000 == w
  {
  }

  lemma TopStaysClear(w: bv32)
    requires w >> 31 != 1
    ensures (w << 1) >> 1 == w
  {
  }

  lemma ShlHalve(r: Register, top: bool)
    requires !Odd(r)
    ensures Shl(Halve(r, top)) == r
  {
  }

  lemma TopHalve(r: Register, top: bool)
    ensures Top(Halve(r, top)) == top
  {
  }

  // ----- Bytes and bits -----

  // The bits of a byte, most significant first.
  function ByteBits(b: bv8): (bits: seq<bool>)
    ensures |bits| == 8
  {
    [(b >> 7) & 1 == 1, (b >> 6) & 1 == 1, (b >> 5) & 1 == 1, (b >> 4) & 1 == 1,
     (b >> 3) & 1 == 1, (b >> 2) & 1 == 1, (b >> 1) & 1 == 1, b & 1 == 1]
  }

  // They leave the top of a register one by one.
  lemma BitsAreTops(b: bv8)
    ensures Shl4(Shl4(AtTop(b))) == Register(0)
    ensures ByteBits(b)[0] == Top(AtTop(b))
    ensures ByteBits(b)[1] == Top(Shl(AtTop(b)))
    ensures ByteBits(b)[2] == Top(Shl(Shl(AtTop(b))))
    ensures ByteBits(b)[3] == Top(Shl(Shl(Shl(AtTop(b)))))
    ensures ByteBits(b)[4] == Top(Shl4(AtTop(b)))
    ensures ByteBits(b)[5] == Top(Shl(Shl4(AtTop(b))))
    ensures ByteBits(b)[6] == Top(Shl(Shl(Shl4(AtTop(b)))))
    ensures ByteBits(b)[7] == Top(Shl(Shl(Shl(Shl4(AtTop(b))))))
  {
  }

  lemma ByteBitsInjective(a: bv8, b: bv8)
    requires ByteBits(a) == ByteBits(b)
    ensures a == b
  {
    var x, y := ByteBits(a), ByteBits(b);
    assert x[0] == y[0] && x[1] == y[1] && x[2] == y[2] && x[3] == y[3];
    assert x[4] == y[4] && x[5] == y[5] && x[6] == y[6] && x[7] == y[7];
    SameBits(a, b);
  }

  lemma SameBits(a: bv8, b: bv8)
    requires ((a >> 7) & 1 == 1) == ((b >> 7) & 1 == 1) && ((a >> 6) & 1 == 1) == ((b >> 6) & 1 == 1)
    requires ((a >> 5) & 1 == 1) == ((b >> 5) & 1 == 1) && ((a >> 4) & 1 == 1) == ((b >> 4) & 1 == 1)
    requires ((a >> 3) & 1 == 1) == ((b >> 3) & 1 == 1) && ((a >> 2) & 1 == 1) == ((b >> 2) & 1 == 1)
    requires ((a >> 1) & 1 == 1) == ((b >> 1) & 1 == 1) && (a & 1 == 1) == (b & 1 == 1)
    ensures a == b
  {
  }

  function Weight(bit: bool, weight: bv8): bv8 { if bit then weight else 0 }

  function PackByte(u: seq<bool>): bv8
    requires |u| == 8
  {
    Weight(u[0], 0x80) | Weight(u[1], 0x40) | Weight(u[2], 0x20) | Weight(u[3], 0x10)
    | Weight(u[4], 8) | Weight(u[5], 4) | Weight(u[6], 2) | Weight(u[7], 1)
  }

  lemma PackByteBits(u: seq<bool>)
    requires |u| == 8
    ensures ByteBits(PackByte(u)) == u
  {
  }

  // ----- Words of four bytes -----

  function Word(data: seq<bv8>): Register
    requires |data| == 4
  {
    Register(((data[0] as bv32) << 24) ^ ((data[1] as bv32) << 16) ^ ((data[2] as bv32) << 8) ^ (data[3] as bv32))
  }

  // The last three, two and one of them, each without its leading zero bytes
  // moved up once, twice and three times.
  function Word3(data: seq<bv8>): Register
    requires |data| == 4
  {
    Register(((data[1] as bv32) << 16) ^ ((data[2] as bv32) << 8) ^ (data[3] as bv32))
  }

  function Word2(data: seq<bv8>): Register
    requires |data| == 4
  {
    Register(((data[2] as bv32) << 16) ^ ((data[3] as bv32) << 8))
  }

  function Word1(data: seq<bv8>): Register
    requires |data| == 4
  {
    Register((data[3] as bv32) << 16)
  }

  lemma WordParts(data: seq<bv8>)
    requires |data| == 4
    ensures Word(data) == Xor(AtTop(data[0]), Word3(data))
    ensures Shl8(Word3(data)) == Xor(AtTop(data[1]), Word2(data))
    ensures Shl8(Word2(data)) == Xor(AtTop(data[2]), Word1(data))
    ensures Shl8(Word1(data)) == AtTop(data[3])
    ensures TopByte(Word3(data)) == 0
    ensures TopByte(Word2(data)) == 0
    ensures TopByte(Word1(data)) == 0
  {
    hide Xor, AtTop, Word, Word1, Word2, Word3, Shl8, TopByte;
    WordPartsWord0(data);
    WordPartsWord1(data);
    WordPartsWord2(data);
    WordPartsWord3(data);
    WordPartsFact0(data);
    WordPartsFact1(data);
    WordPartsFact2(data);
  }

  lemma WordPartsWord0(data: seq<bv8>)
    requires |data| == 4
    ensures Word(data).word == Xor(AtTop(data[0]), Word3(data)).word
  {
  }

  lemma WordPartsWord1(data: seq<bv8>)
    requires |data| == 4
    ensures Shl8(Word3(data)).word == Xor(AtTop(data[1]), Word2(data)).word
  {
  }

  lemma WordPartsWord2(data: seq<bv8>)
    requires |data| == 4
    ensures Shl8(Word2(data)).word == Xor(AtTop(data[2]), Word1(data)).word
  {
  }

  lemma WordPartsWord3(data: seq<bv8>)
    requires |data| == 4
    ensures Shl8(Word1(data)).word == AtTop(data[3]).word
  {
  }

  lemma WordPartsFact0(data: seq<bv8>)
    requires |data| == 4
    ensures TopByte(Word3(data)) == 0
  {
  }

  lemma WordPartsFact1(data: seq<bv8>)
    requires |data| == 4
    ensures TopByte(Word2(data)) == 0
  {
  }

  lemma WordPartsFact2(data: seq<bv8>)
    requires |data| == 4
    ensures TopByte(Word1(data)) == 0
  {
  }

  // The bytes of a register, most significant first.
  function BigEndian(r: Register): (data: seq<bv8>)
    ensures |data| == 4
  {
    [(r.word >> 24) as bv8, ((r.word >> 16) & 0xff) as bv8, ((r.word >> 8) & 0xff) as bv8, (r.word & 0xff) as bv8]
  }

  lemma WordIsBigEndian(data: seq<bv8>, r: Register)
    requires |data| == 4
    ensures Xor(r, Word(data)) == Register(0) <==> data == BigEndian(r)
  {
    hide Word, Xor, BigEndian;
    if Xor(r, Word(data)) == Register(0) {
      XorTwice(r, Word(data));
      XorZero(Word(data));
      BytesOfWord(data);
    }
    if data == BigEndian(r) {
      WordOfBytes(r);
      XorZero(r);
    }
  }

  lemma BytesOfWord(data: seq<bv8>)
    requires |data| == 4
    ensures BigEndian(Word(data)) == data
  {
    hide Word, BigEndian;
    BytesOfWordEach(data);
  }

  lemma BytesOfWordEach(data: seq<bv8>)
    requires |data| == 4
    ensures var w := BigEndian(Word(data));
            w[0] == data[0] && w[1] == data[1] && w[2] == data[2] && w[3] == data[3]
  {
  }

  lemma WordOfBytes(r: Register)
    ensures Word(BigEndian(r)) == r
  {
    WordOfBytesWord(r);
    hide Word, BigEndian;
  }

  lemma WordOfBytesWord(r: Register)
    ensures Word(BigEndian(r)).word == r.word
  {
  }

  lemma WordInjective(x: seq<bv8>, y: seq<bv8>)
    requires |x| == |y| == 4 && Word(x) == Word(y)
    ensures x == y
  {
    hide Word, BigEndian;
    BytesOfWord(x);
    BytesOfWord(y);
  }
}
