// include/v4l-getsubopt.h: both forms of v4l_strchrnul, the one that reads a
// word at a time and the one that passes over brackets.
//
// Memory is an array of bytes whose index 0 is an aligned address; it ends at
// the end of a word, so that reading the word of any of its bytes is allowed.

module Strchrnul {

  // p is the first position from s on that holds c or NUL.
  predicate IsFirst(mem: seq<bv8>, s: nat, c: bv8, p: nat) {
    && s <= p < |mem|
    && (mem[p] == c || mem[p] == 0)
    && forall k :: s <= k < p ==> mem[k] != c && mem[k] != 0
  }

  lemma FirstIsUnique(mem: seq<bv8>, s: nat, c: bv8, p: nat, q: nat)
    requires IsFirst(mem, s, c, p) && IsFirst(mem, s, c, q)
    ensures p == q
  {
  }

  ghost predicate HasNul(mem: seq<bv8>, s: nat) {
    exists n :: s <= n < |mem| && mem[n] == 0
  }

  // A highest byte that the test takes for NUL or c.
  predicate Misfires(b: bv8, c: bv8) { b == 0x80 || b ^ c == 0x80 }

  lemma MisfiresIff(b: bv8, c: bv8)
    ensures Misfires(b, c) <==> b == 0x80 || b ^ c == 0x80
  {
  }

  lemma XorIsZero(a: bv8, c: bv8)
    ensures a ^ c == 0 <==> a == c
  {
  }

  // ----- Longwords of four bytes -----

  const MAGIC4: bv32 := 0x7efefeff

  // The word with these bytes, the lowest first.
  function Load4(b0: bv8, b1: bv8, b2: bv8, b3: bv8): bv32 {
    (b0 as bv32) | ((b1 as bv32) << 8) | ((b2 as bv32) << 16) | ((b3 as bv32) << 24)
  }

  // Adding the magic bits leaves one of the hole bits unchanged.
  predicate HoleUnchanged4(w: bv32) { ((w + MAGIC4) ^ !w) & !MAGIC4 != 0 }

  // A word each of whose bytes is c.
  function Charmask4(c: bv8): bv32 {
    var m := (c as bv32) | ((c as bv32) << 8);
    m | (m << 16)
  }

  // The carry argument, exactly: every zero byte is seen, and the one misfire
  // is a highest byte of 0x80.
  lemma HoleUnchangedIff4(w: bv32, b0: bv8, b1: bv8, b2: bv8, b3: bv8)
    requires w == Load4(b0, b1, b2, b3)
    ensures HoleUnchanged4(w) <==>
            || b0 == 0 || b1 == 0 || b2 == 0 || b3 == 0 || b3 == 0x80
  {
    HoleWord4(w, b0, b1, b2, b3);
  }

  lemma HoleWord4(w: bv32, b0: bv8, b1: bv8, b2: bv8, b3: bv8)
    requires w == (b0 as bv32) | ((b1 as bv32) << 8) | ((b2 as bv32) << 16) | ((b3 as bv32) << 24)
    ensures ((w + 0x7efefeff) ^ !w) & !0x7efefeff != 0 <==>
            || b0 == 0 || b1 == 0 || b2 == 0 || b3 == 0 || b3 == 0x80
  {
  }

  // Exclusive or with the mask acts on every byte.
  lemma LoadXor4(b0: bv8, b1: bv8, b2: bv8, b3: bv8, c: bv8)
    ensures Load4(b0, b1, b2, b3) ^ Charmask4(c) == Load4(b0 ^ c, b1 ^ c, b2 ^ c, b3 ^ c)
  {
    LoadXorWord4(b0, b1, b2, b3, c, (c as bv32) | ((c as bv32) << 8));
  }

  lemma LoadXorWord4(b0: bv8, b1: bv8, b2: bv8, b3: bv8, c: bv8, m: bv32)
    requires m == (c as bv32) | ((c as bv32) << 8)
    ensures ((b0 as bv32) | ((b1 as bv32) << 8) | ((b2 as bv32) << 16) | ((b3 as bv32) << 24)) ^ (m | (m << 16)) ==
            ((b0 ^ c) as bv32) | (((b1 ^ c) as bv32) << 8) | (((b2 ^ c) as bv32) << 16)
            | (((b3 ^ c) as bv32) << 24)
  {
  }

  // The loop stops to look exactly at words that hold NUL or c, or whose
  // highest byte is 0x80 or c with its highest bit changed.
  lemma FiresIff4(longword: bv32, masked: bv32, b0: bv8, b1: bv8, b2: bv8, b3: bv8, c: bv8)
    requires longword == Load4(b0, b1, b2, b3)
    requires masked == longword ^ Charmask4(c)
    ensures HoleUnchanged4(longword) || HoleUnchanged4(masked) <==>
            || b0 == 0 || b0 == c || b1 == 0 || b1 == c || b2 == 0 || b2 == c || b3 == 0 || b3 == c
            || Misfires(b3, c)
  {
    hide Load4, HoleUnchanged4, Charmask4, Misfires;
    MisfiresIff(b3, c);
    HoleUnchangedIff4(longword, b0, b1, b2, b3);
    Masked4(longword, masked, b0, b1, b2, b3, c);
    HoleUnchangedIff4(masked, b0 ^ c, b1 ^ c, b2 ^ c, b3 ^ c);
    XorIsZero(b0, c); XorIsZero(b1, c); XorIsZero(b2, c); XorIsZero(b3, c);
  }

  lemma Masked4(longword: bv32, masked: bv32, b0: bv8, b1: bv8, b2: bv8, b3: bv8, c: bv8)
    requires longword == Load4(b0, b1, b2, b3)
    requires masked == longword ^ Charmask4(c)
    ensures masked == Load4(b0 ^ c, b1 ^ c, b2 ^ c, b3 ^ c)
  {
    hide Load4, Charmask4;
    LoadXor4(b0, b1, b2, b3, c);
  }

  // ----- Longwords of eight bytes -----

  const MAGIC8: bv64 := (((0x7efefefe as bv64) << 16) << 16) | 0xfefefeff

  // The word with these bytes, the lowest first.
  function Load8(b0: bv8, b1: bv8, b2: bv8, b3: bv8,
      b4: bv8, b5: bv8, b6: bv8, b7: bv8): bv64 {
    (b0 as bv64) | ((b1 as bv64) << 8) | ((b2 as bv64) << 16) | ((b3 as bv64) << 24) | ((b4 as bv64) << 32)
            | ((b5 as bv64) << 40) | ((b6 as bv64) << 48) | ((b7 as bv64) << 56)
  }

  // Adding the magic bits leaves one of the hole bits unchanged.
  predicate HoleUnchanged8(w: bv64) { ((w + MAGIC8) ^ !w) & !MAGIC8 != 0 }

  // A word each of whose bytes is c.
  function Charmask8(c: bv8): bv64 {
    var m := (c as bv64) | ((c as bv64) << 8);
    (m | (m << 16)) | (((m | (m << 16)) << 16) << 16)
  }

  // The carry argument, exactly: every zero byte is seen, and the one misfire
  // is a highest byte of 0x80.
  lemma HoleUnchangedIff8(w: bv64, b0: bv8, b1: bv8, b2: bv8, b3: bv8,
      b4: bv8, b5: bv8, b6: bv8, b7: bv8)
    requires w == Load8(b0, b1, b2, b3, b4, b5, b6, b7)
    ensures HoleUnchanged8(w) <==>
            || b0 == 0 || b1 == 0 || b2 == 0 || b3 == 0 || b4 == 0 || b5 == 0 || b6 == 0 || b7 == 0
            || b7 == 0x80
  {
    HoleWord8(w, b0, b1, b2, b3, b4, b5, b6, b7);
  }

  lemma HoleWord8(w: bv64, b0: bv8, b1: bv8, b2: bv8, b3: bv8,
      b4: bv8, b5: bv8, b6: bv8, b7: bv8)
    requires w == (b0 as bv64) | ((b1 as bv64) << 8) | ((b2 as bv64) << 16) | ((b3 as bv64) << 24)
            | ((b4 as bv64) << 32) | ((b5 as bv64) << 40) | ((b6 as bv64) << 48) | ((b7 as bv64) << 56)
    ensures ((w + 0x7efefefefefefeff) ^ !w) & !0x7efefefefefefeff != 0 <==>
            || b0 == 0 || b1 == 0 || b2 == 0 || b3 == 0 || b4 == 0 || b5 == 0 || b6 == 0 || b7 == 0
            || b7 == 0x80
  {
  }

  // Exclusive or with the mask acts on every byte.
  lemma LoadXor8(b0: bv8, b1: bv8, b2: bv8, b3: bv8,
      b4: bv8, b5: bv8, b6: bv8, b7: bv8, c: bv8)
    ensures Load8(b0, b1, b2, b3, b4, b5, b6, b7) ^ Charmask8(c) == Load8(b0 ^ c, b1 ^ c, b2 ^ c, b3 ^ c, b4 ^ c
           , b5 ^ c, b6 ^ c, b7 ^ c)
  {
    LoadXorWord8(b0, b1, b2, b3, b4, b5, b6, b7, c, (c as bv64) | ((c as bv64) << 8));
  }

  lemma LoadXorWord8(b0: bv8, b1: bv8, b2: bv8, b3: bv8,
      b4: bv8, b5: bv8, b6: bv8, b7: bv8, c: bv8, m: bv64)
    requires m == (c as bv64) | ((c as bv64) << 8)
    ensures ((b0 as bv64) | ((b1 as bv64) << 8) | ((b2 as bv64) << 16) | ((b3 as bv64) << 24)
            | ((b4 as bv64) << 32) | ((b5 as bv64) << 40) | ((b6 as bv64) << 48) | ((b7 as bv64) << 56))
            ^ ((m | (m << 16)) | (((m | (m << 16)) << 16) << 16)) ==
            ((b0 ^ c) as bv64) | (((b1 ^ c) as bv64) << 8) | (((b2 ^ c) as bv64) << 16)
            | (((b3 ^ c) as bv64) << 24) | (((b4 ^ c) as bv64) << 32) | (((b5 ^ c) as bv64) << 40)
            | (((b6 ^ c) as bv64) << 48) | (((b7 ^ c) as bv64) << 56)
  {
  }

  // The loop stops to look exactly at words that hold NUL or c, or whose
  // highest byte is 0x80 or c with its highest bit changed.
  lemma FiresIff8(longword: bv64, masked: bv64, b0: bv8, b1: bv8, b2: bv8, b3: bv8,
      b4: bv8, b5: bv8, b6: bv8, b7: bv8, c: bv8)
    requires longword == Load8(b0, b1, b2, b3, b4, b5, b6, b7)
    requires masked == longword ^ Charmask8(c)
    ensures HoleUnchanged8(longword) || HoleUnchanged8(masked) <==>
            || b0 == 0 || b0 == c || b1 == 0 || b1 == c || b2 == 0 || b2 == c || b3 == 0 || b3 == c
            || b4 == 0 || b4 == c || b5 == 0 || b5 == c || b6 == 0 || b6 == c || b7 == 0 || b7 == c
            || Misfires(b7, c)
  {
    hide Load8, HoleUnchanged8, Charmask8, Misfires;
    MisfiresIff(b7, c);
    HoleUnchangedIff8(longword, b0, b1, b2, b3, b4, b5, b6, b7);
    Masked8(longword, masked, b0, b1, b2, b3, b4, b5, b6, b7, c);
    HoleUnchangedIff8(masked, b0 ^ c, b1 ^ c, b2 ^ c, b3 ^ c, b4 ^ c, b5 ^ c, b6 ^ c, b7 ^ c);
    XorIsZero(b0, c); XorIsZero(b1, c); XorIsZero(b2, c); XorIsZero(b3, c);
    XorIsZero(b4, c); XorIsZero(b5, c); XorIsZero(b6, c); XorIsZero(b7, c);
  }

  lemma Masked8(longword: bv64, masked: bv64, b0: bv8, b1: bv8, b2: bv8, b3: bv8,
      b4: bv8, b5: bv8, b6: bv8, b7: bv8, c: bv8)
    requires longword == Load8(b0, b1, b2, b3, b4, b5, b6, b7)
    requires masked == longword ^ Charmask8(c)
    ensures masked == Load8(b0 ^ c, b1 ^ c, b2 ^ c, b3 ^ c, b4 ^ c, b5 ^ c, b6 ^ c, b7 ^ c)
  {
    hide Load8, Charmask8;
    LoadXor8(b0, b1, b2, b3, b4, b5, b6, b7, c);
  }

  // ----- A word at a time -----

  // One of the words' bytes is c or NUL.
  ghost predicate WordHolds(mem: seq<bv8>, p: nat, size: nat, c: bv8)
    requires p + size <= |mem|
  {
    exists i :: p <= i < p + size && (mem[i] == c || mem[i] == 0)
  }

  // The byte that ends up highest in the word at p.
  function HighByte(mem: seq<bv8>, p: nat, size: nat, big: bool): bv8
    requires size > 0 && p + size <= |mem|
  {
    if big then mem[p] else mem[p + size - 1]
  }

  lemma WordHoldsFour(mem: seq<bv8>, p: nat, c: bv8)
    requires p + 4 <= |mem|
    ensures WordHolds(mem, p, 4, c) <==>
            || mem[p] == 0 || mem[p] == c || mem[p + 1] == 0 || mem[p + 1] == c
            || mem[p + 2] == 0 || mem[p + 2] == c || mem[p + 3] == 0 || mem[p + 3] == c
  {
  }

  lemma WordHoldsEight(mem: seq<bv8>, p: nat, c: bv8)
    requires p + 8 <= |mem|
    ensures WordHolds(mem, p, 8, c) <==> WordHolds(mem, p, 4, c) || WordHolds(mem, p + 4, 4, c)
  {
  }

  // The test of the loop on the word at p, in either byte order: it never
  // misses, and misfires only for the sake of the highest byte.
  method TestWord(mem: array<bv8>, p: nat, c: bv8, size: nat, big: bool) returns (fires: bool)
    requires (size == 4 || size == 8) && p + size <= mem.Length
    ensures fires <==> WordHolds(mem[..], p, size, c) || Misfires(HighByte(mem[..], p, size, big), c)
  {
    if size == 4 { fires := TestWord4(mem, p, c, big); } else { fires := TestWord8(mem, p, c, big); }
  }

  method TestWord4(mem: array<bv8>, p: nat, c: bv8, big: bool) returns (fires: bool)
    requires p + 4 <= mem.Length
    ensures fires <==> WordHolds(mem[..], p, 4, c) || Misfires(HighByte(mem[..], p, 4, big), c)
  {
    hide Load4, HoleUnchanged4, Charmask4, Misfires, WordHolds;
    var b0, b1, b2, b3 := mem[p], mem[p + 1], mem[p + 2], mem[p + 3];
    WordHoldsFour(mem[..], p, c);
    if big { b0, b1, b2, b3 := b3, b2, b1, b0; }
    var longword := Load4(b0, b1, b2, b3);
    var masked := longword ^ Charmask4(c);
    fires := HoleUnchanged4(longword) || HoleUnchanged4(masked);
    FiresIff4(longword, masked, b0, b1, b2, b3, c);
  }

  method TestWord8(mem: array<bv8>, p: nat, c: bv8, big: bool) returns (fires: bool)
    requires p + 8 <= mem.Length
    ensures fires <==> WordHolds(mem[..], p, 8, c) || Misfires(HighByte(mem[..], p, 8, big), c)
  {
    hide Load8, HoleUnchanged8, Charmask8, Misfires, WordHolds;
    var b0, b1, b2, b3 := mem[p], mem[p + 1], mem[p + 2], mem[p + 3];
    var b4, b5, b6, b7 := mem[p + 4], mem[p + 5], mem[p + 6], mem[p + 7];
    WordHoldsEight(mem[..], p, c);
    WordHoldsFour(mem[..], p, c);
    WordHoldsFour(mem[..], p + 4, c);
    if big { b0, b1, b2, b3, b4, b5, b6, b7 := b7, b6, b5, b4, b3, b2, b1, b0; }
    var longword := Load8(b0, b1, b2, b3, b4, b5, b6, b7);
    var masked := longword ^ Charmask8(c);
    fires := HoleUnchanged8(longword) || HoleUnchanged8(masked);
    FiresIff8(longword, masked, b0, b1, b2, b3, b4, b5, b6, b7, c);
  }

  // The bytes of the word one after the other; the word's end when none is c or NUL.
  method FirstInWord(mem: array<bv8>, p: nat, c: bv8, size: nat) returns (cp: nat)
    requires (size == 4 || size == 8) && p + size <= mem.Length
    ensures cp < p + size ==> IsFirst(mem[..], p, c, cp)
    ensures cp >= p + size ==> cp == p + size && !WordHolds(mem[..], p, size, c)
  {
    if mem[p] == c || mem[p] == 0 { return p; }
    if mem[p + 1] == c || mem[p + 1] == 0 { return p + 1; }
    if mem[p + 2] == c || mem[p + 2] == 0 { return p + 2; }
    if mem[p + 3] == c || mem[p + 3] == 0 { return p + 3; }
    if size > 4 {
      if mem[p + 4] == c || mem[p + 4] == 0 { return p + 4; }
      if mem[p + 5] == c || mem[p + 5] == 0 { return p + 5; }
      if mem[p + 6] == c || mem[p + 6] == 0 { return p + 6; }
      if mem[p + 7] == c || mem[p + 7] == 0 { return p + 7; }
    }
    return p + size;
  }

  // The word-at-a-time search finds what a search byte by byte finds.
  method Strchrnul(mem: array<bv8>, s: nat, c: bv8, size: nat, big: bool) returns (p: nat)
    requires (size == 4 || size == 8) && mem.Length % size == 0
    requires HasNul(mem[..], s)
    ensures IsFirst(mem[..], s, c, p)
  {
    ghost var n :| s <= n < mem.Length && mem[n] == 0;
    p := s;
    while p % size != 0
      invariant s <= p <= n
      invariant forall k :: s <= k < p ==> mem[k] != c && mem[k] != 0
      decreases n - p
    {
      if mem[p] == c || mem[p] == 0 { return; }
      p := p + 1;
    }
    while true
      invariant s <= p <= n && p % size == 0
      invariant forall k :: s <= k < p ==> mem[k] != c && mem[k] != 0
      decreases n - p
    {
      WordFits(p, n, mem.Length, size);
      var fires := TestWord(mem, p, c, size, big);
      if fires {
        // which of the bytes was c or NUL? if none, it was a misfire
        var cp := FirstInWord(mem, p, c, size);
        if cp < p + size { return cp; }
      }
      p := p + size;
    }
  }

  // A word that starts before the end of memory lies within it.
  lemma WordFits(p: nat, n: nat, length: nat, size: nat)
    requires (size == 4 || size == 8) && p % size == 0 && length % size == 0 && p <= n < length
    ensures p + size <= length && (p + size) % size == 0
  {
    if size == 4 {
      assert (p + 4) % 4 == 0;
    }
  }
}
