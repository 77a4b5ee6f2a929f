// Little- and big-endian numbers as bytes.

module Bytes {
  import opened Base

  function Pow256(k: nat): (p: nat)
    ensures p > 0
  {
    if k == 0 then 1 else 256 * Pow256(k - 1)
  }

  // The k low bytes of x, the least significant first.
  function Le(x: nat, k: nat): (b: seq<Byte>)
    ensures |b| == k
  {
    if k == 0 then [] else [x % 256] + Le(x / 256, k - 1)
  }

  function FromLe(b: seq<Byte>): nat {
    if b == [] then 0 else b[0] + 256 * FromLe(b[1..])
  }

  lemma {:induction false} FromLeOfLe(x: nat, k: nat)
    requires x < Pow256(k)
    ensures FromLe(Le(x, k)) == x
    decreases k
  {
    if k > 0 {
      FromLeOfLe(x / 256, k - 1);
      assert Le(x, k)[1..] == Le(x / 256, k - 1);
    }
  }

  lemma {:induction false} LeOfFromLe(b: seq<Byte>)
    ensures Le(FromLe(b), |b|) == b
    ensures FromLe(b) < Pow256(|b|)
  {
    if b != [] {
      LeOfFromLe(b[1..]);
      var x := FromLe(b[1..]);
      assert (b[0] + 256 * x) / 256 == x && (b[0] + 256 * x) % 256 == b[0];
    }
  }
}
