// The chunk streams of XC2028/3028 firmwares: the walk of seek_chunks in
// contrib/xc3028-firmware/firmware-tool.c that changes the byte order of their
// 16-bit headers, and write_hunk_fix_endian of the Perl program embedded in
// contrib/xc3028-firmware/extract_head.h, which changes it back.

module ChunkStream {
  import opened Base

  // The header at the start of s, in either byte order.
  function Header(s: seq<Byte>, big: bool): nat
    requires |s| >= 2
  {
    if big then s[0] as int * 256 + s[1] else s[0] as int + s[1] as int * 256
  }

  // How many bytes follow a header before the next one.
  function PayloadLen(h: nat): nat { if 0 < h < 0x8000 then h else 0 }

  function Min(a: nat, b: nat): nat { if a < b then a else b }

  // The bytes of the first chunk of s; its payload may be cut short by the end.
  function ChunkLen(s: seq<Byte>, big: bool): (n: nat)
    requires |s| >= 2
    ensures 2 <= n <= |s|
  {
    2 + Min(PayloadLen(Header(s, big)), |s| - 2)
  }

  // Every header reached lies within s.
  predicate Walkable(s: seq<Byte>, big: bool)
    decreases |s|
  {
    s == [] || (|s| >= 2 && Walkable(s[ChunkLen(s, big)..], big))
  }

  // The bytes of all headers exchanged.
  function Swapped(s: seq<Byte>, big: bool): (r: seq<Byte>)
    ensures |r| == |s|
    decreases |s|
  {
    if |s| < 2 then s
    else
      var n := ChunkLen(s, big);
      [s[1], s[0]] + s[2..n] + Swapped(s[n..], big)
  }

  // Position i of s is the first byte of a header.
  predicate HeaderAt(s: seq<Byte>, big: bool, i: int)
    decreases |s|
  {
    |s| >= 2 && (i == 0 || HeaderAt(s[ChunkLen(s, big)..], big, i - ChunkLen(s, big)))
  }

  // Walking with the other byte order undoes the exchange, and stays in bounds
  // where the first walk did.
  lemma {:induction false} SwappedTwice(s: seq<Byte>, big: bool)
    ensures Swapped(Swapped(s, big), !big) == s
    ensures Walkable(Swapped(s, big), !big) == Walkable(s, big)
    decreases |s|
  {
    if |s| >= 2 {
      var n := ChunkLen(s, big);
      var r := Swapped(s, big);
      SwappedTwice(s[n..], big);
      assert Header(r, !big) == Header(s, big);
      assert ChunkLen(r, !big) == n;
      assert r[n..] == Swapped(s[n..], big);
      assert r[2..n] == s[2..n];
      assert s == [s[0], s[1]] + s[2..n] + s[n..];
    }
  }

  // The two bytes of every header change places; all other bytes stay.
  lemma {:induction false} SwappedAt(s: seq<Byte>, big: bool, i: nat)
    requires i < |s|
    ensures HeaderAt(s, big, i) ==> i + 1 < |s| && Swapped(s, big)[i] == s[i + 1] && Swapped(s, big)[i + 1] == s[i]
    ensures !HeaderAt(s, big, i) && !HeaderAt(s, big, i - 1) ==> Swapped(s, big)[i] == s[i]
    decreases |s|
  {
    if |s| >= 2 {
      var n := ChunkLen(s, big);
      HeaderNotBefore(s[n..], big, i - n);
      HeaderNotBefore(s[n..], big, i - 1 - n);
      if i >= n {
        SwappedAt(s[n..], big, i - n);
      }
    }
  }

  lemma {:induction false} HeaderNotBefore(s: seq<Byte>, big: bool, i: int)
    ensures i < 0 ==> !HeaderAt(s, big, i)
    decreases |s|
  {
    if |s| >= 2 {
      HeaderNotBefore(s[ChunkLen(s, big)..], big, i - ChunkLen(s, big));
    }
  }

  // Where the walk stands after the header at i, perhaps behind the end, and
  // what it has exchanged or kept on the way.
  function Next(s: seq<Byte>, big: bool, i: nat): (next: nat)
    requires i + 1 < |s|
    ensures next >= i + 2
  {
    i + 2 + PayloadLen(Header(s[i..], big))
  }

  function Turned(s: seq<Byte>, big: bool, i: nat): (r: seq<Byte>)
    requires i + 1 < |s|
  {
    [s[i + 1], s[i]] + s[i + 2..Min(Next(s, big, i), |s|)]
  }

  // One chunk of the walk.
  lemma SwappedFirst(t: seq<Byte>, big: bool)
    requires |t| >= 2
    ensures var n := 2 + PayloadLen(Header(t, big));
            && Swapped(t, big) == [t[1], t[0]] + t[2..Min(n, |t|)] + (if n <= |t| then Swapped(t[n..], big) else [])
            && (Walkable(t, big) && n <= |t| ==> Walkable(t[n..], big))
  {
    hide Header;
    var n := ChunkLen(t, big);
    assert n == Min(2 + PayloadLen(Header(t, big)), |t|);
    if n == |t| { SwappedShort(t[n..], big); }
  }

  lemma SwappedFrom(s: seq<Byte>, big: bool, i: nat)
    requires i + 1 < |s|
    ensures var next := Next(s, big, i);
            && Swapped(s[i..], big) == Turned(s, big, i) + (if next <= |s| then Swapped(s[next..], big) else [])
            && (Walkable(s[i..], big) && next <= |s| ==> Walkable(s[next..], big))
  {
    hide Swapped, Walkable, Header;
    var t := s[i..];
    SwappedFirst(t, big);
    var n := 2 + PayloadLen(Header(t, big));
    assert t[2..Min(n, |t|)] == s[i + 2..Min(i + n, |s|)];
    if n <= |t| { assert t[n..] == s[i + n..]; }
  }

  // The walk in C, in place.  It reads two bytes wherever it stands, and so asks
  // for a stream that never leaves a single byte.
  method ChangeEndian(data: array<Byte>)
    requires Walkable(data[..], false)
    modifies data
    ensures data[..] == Swapped(old(data[..]), false)
  {
    hide *;
    ghost var s := data[..];
    var p2 := 0;
    assert s[0..] == s && data[..0] == [];
    while p2 < data.Length
      invariant 0 <= p2
      invariant if p2 <= data.Length
                then Walkable(s[p2..], false) && Swapped(s, false) == data[..p2] + Swapped(s[p2..], false)
                     && data[p2..] == s[p2..]
                else data[..] == Swapped(s, false)
      decreases data.Length - p2
    {
      ghost var t, i := data[..], p2;
      WalkableTwo(s, false, i);
      SwappedFrom(s, false, i);
      var size := data[p2] as int + data[p2 + 1] as int * 256;
      NextIs(s, t, i, size);
      var c := data[p2];
      data[p2] := data[p2 + 1];
      data[p2 + 1] := c;
      p2 := p2 + 2;
      if 0 < size < 0x8000 {
        p2 := p2 + size;
      }
      InPlace(s, t, i, if p2 < |s| then p2 else |s|, data[..], Turned(s, false, i));
      AppendAssoc(t[..i], Turned(s, false, i), if p2 <= |s| then Swapped(s[p2..], false) else []);
      assert p2 > |s| ==> data[..|s|] == data[..] && Turned(s, false, i) + [] == Turned(s, false, i);
    }
    if p2 == data.Length {
      SwappedShort(s[p2..], false);
      assert data[..p2] == data[..];
    }
  }

  lemma NextIs(s: seq<Byte>, t: seq<Byte>, i: nat, size: nat)
    requires |s| == |t| && i + 1 < |s| && t[i..] == s[i..]
    requires size == t[i] as int + t[i + 1] as int * 256
    ensures var next := i + 2 + (if 0 < size < 0x8000 then size else 0);
            && Next(s, false, i) == next
            && Turned(s, false, i) == [s[i + 1], s[i]] + s[i + 2..if next < |s| then next else |s|]
  {
    assert t[i] == t[i..][0] == s[i..][0] && t[i + 1] == t[i..][1] == s[i..][1];
  }

  lemma InPlace(s: seq<Byte>, t: seq<Byte>, i: nat, n: nat, u: seq<Byte>, turned: seq<Byte>)
    requires |s| == |t| == |u| && i + 2 <= n <= |s| && t[i..] == s[i..]
    requires u == t[i := t[i + 1]][i + 1 := t[i]]
    requires turned == [s[i + 1], s[i]] + s[i + 2..n]
    ensures u[..n] == t[..i] + turned && u[n..] == s[n..]
  {
    assert forall k :: i <= k < |s| ==> t[k] == t[i..][k - i] == s[i..][k - i] == s[k];
  }

  lemma WalkableTwo(s: seq<Byte>, big: bool, i: nat)
    requires i < |s| && Walkable(s[i..], big)
    ensures i + 1 < |s|
  {
  }

  // substr($out, i, 1): nothing behind the end.
  function Substr1(out: seq<Byte>, i: nat): seq<Byte> { if i < |out| then [out[i]] else [] }

  // ord(substr($out, i, 1)): 0 behind the end.
  function Ord1(out: seq<Byte>, i: nat): nat { if i < |out| then out[i] else 0 }

  // for ($j = 0; $j < $size; $j++) of the loop below: the payload, or what there
  // is of it.
  method WritePayload(out: seq<Byte>, i: nat, size: nat) returns (written: seq<Byte>)
    ensures written == if i <= |out| then out[i..Min(i + size, |out|)] else []
  {
    written := [];
    var j := 0;
    while j < size
      invariant 0 <= j <= size
      invariant written == if i <= |out| then out[i..Min(i + j, |out|)] else []
    {
      written := written + Substr1(out, i + j);
      j := j + 1;
    }
  }

  // What one turn of the loop in Perl writes, and where it goes on.
  lemma PerlChunk(out: seq<Byte>, i: nat, size: nat)
    requires i < |out| && size == Ord1(out, i) * 256 + Ord1(out, i + 1)
    ensures var n := i + 2 + PayloadLen(size);
            var payload := if i + 2 <= |out| then out[i + 2..Min(n, |out|)] else [];
            var chunk := (Substr1(out, i + 1) + Substr1(out, i)) + payload;
            if i + 1 < |out| then n == Next(out, true, i) && chunk == Turned(out, true, i)
            else chunk == out[i..]
  {
    if i + 1 < |out| { assert out[i..][0] == out[i] && out[i..][1] == out[i + 1]; }
  }

  // The loop stands at i, and has written the exchanged bytes before it.
  ghost predicate PerlAt(out: seq<Byte>, written: seq<Byte>, i: nat) {
    Swapped(out, true) == written + (if i <= |out| then Swapped(out[i..], true) else [])
  }

  lemma PerlTurn(out: seq<Byte>, before: seq<Byte>, i: nat, size: nat, payload: seq<Byte>)
    requires i < |out| && size == Ord1(out, i) * 256 + Ord1(out, i + 1) && PerlAt(out, before, i)
    requires payload == if i + 2 <= |out| then out[i + 2..Min(i + 2 + PayloadLen(size), |out|)] else []
    ensures PerlAt(out, before + (Substr1(out, i + 1) + Substr1(out, i)) + payload, i + 2 + PayloadLen(size))
  {
    hide Swapped, Substr1, Ord1, Turned, Next, PayloadLen;
    PerlChunk(out, i, size);
    var next, head := i + 2 + PayloadLen(size), Substr1(out, i + 1) + Substr1(out, i);
    AppendAssoc(before, head, payload);
    if i + 1 < |out| {
      SwappedFrom(out, true, i);
      AppendAssoc(before, Turned(out, true, i), if next <= |out| then Swapped(out[next..], true) else []);
    } else {
      SwappedShort(out[i..], true);
    }
  }

  lemma PerlEnds(out: seq<Byte>)
    ensures PerlAt(out, [], 0)
    ensures forall written, i: nat | i >= |out| && PerlAt(out, written, i) :: written == Swapped(out, true)
  {
    hide Swapped;
    assert out[0..] == out;
    SwappedShort(out[|out|..], true);
  }

  // The loop in Perl, on what get_hunk returned.
  method WriteHunkFixEndian(out: seq<Byte>) returns (written: seq<Byte>)
    ensures written == Swapped(out, true)
  {
    hide Swapped, Substr1, Ord1, Turned, Next, PerlAt;
    written := [];
    var i := 0;
    PerlEnds(out);
    while i < |out|
      invariant 0 <= i && PerlAt(out, written, i)
      decreases |out| - i
    {
      ghost var before, start := written, i;
      var size := Ord1(out, i) * 256 + Ord1(out, i + 1);
      written := written + (Substr1(out, i + 1) + Substr1(out, i));
      i := i + 2;
      var payload := [];
      if 0 < size < 0x8000 {
        payload := WritePayload(out, i, size);
        written := written + payload;
        i := i + size;
      } else {
        assert written + [] == written;
      }
      PerlTurn(out, before, start, size, payload);
    }
  }

  lemma SwappedShort(s: seq<Byte>, big: bool)
    requires |s| < 2
    ensures Swapped(s, big) == s
  {
  }
}
