// The chunk streams of ChunkStream and StandardData byte for byte, and what the
// change of byte order makes of a compiled stream.

module ChunkBytes {
  import opened Base
  import opened ChunkStream
  import opened StandardData

  // The first chunk: a header of 1 to 0x7fff is the length of a payload, of which
  // as much is kept as there is; any other header has none.
  lemma FirstChunk(first: Byte, second: Byte, rest: seq<Byte>, big: bool)
    ensures var h := if big then first as nat * 256 + second else second as nat * 256 + first;
            var n := if 1 <= h <= 0x7fff then h else 0;
            && Swapped([first, second] + rest, big)
            == [second, first] + (if n <= |rest| then rest[..n] + Swapped(rest[n..], big) else rest)
            && (Walkable([first, second] + rest, big) <==> n > |rest| || Walkable(rest[n..], big))
  {
    var s := [first, second] + rest;
    var h := if big then first as nat * 256 + second else second as nat * 256 + first;
    assert Header(s, big) == h;
    var n := PayloadLen(h);
    FirstSwapped(s, rest, n, big);
    FirstWalked(s, rest, n, big);
    hide Swapped, Walkable, Header;
  }

  lemma FirstSwapped(s: seq<Byte>, rest: seq<Byte>, n: nat, big: bool)
    requires |s| >= 2 && s == [s[0], s[1]] + rest && n == PayloadLen(Header(s, big))
    ensures Swapped(s, big) == [s[1], s[0]] + (if n <= |rest| then rest[..n] + Swapped(rest[n..], big) else rest)
  {
    hide Swapped, Walkable, Header, PayloadLen;
    SwappedFirst(s, big);
    if n <= |rest| {
      assert s[2..n + 2] == rest[..n] && s[n + 2..] == rest[n..];
      AppendAssoc([s[1], s[0]], rest[..n], Swapped(rest[n..], big));
    } else {
      assert s[2..|s|] == rest;
    }
  }

  lemma FirstWalked(s: seq<Byte>, rest: seq<Byte>, n: nat, big: bool)
    requires |s| >= 2 && s == [s[0], s[1]] + rest && n == PayloadLen(Header(s, big))
    ensures Walkable(s, big) <==> n > |rest| || Walkable(rest[n..], big)
  {
    hide Header, PayloadLen;
    if n <= |rest| { assert s[n + 2..] == rest[n..]; } else { assert s[|s|..] == []; }
  }

  // ----- Compiled streams -----

  lemma LineIs(line: Line)
    ensures match line
            case ResetClk => LineBytes(line) == [0x00, 0xff]
            case ResetTuner => LineBytes(line) == [0x00, 0x00]
            case Hex(values) => LineBytes(line) == [|values| % 256, |values| / 256 % 256] + values
  {
    if line.Hex? {
      assert |line.values| % 0x10000 % 256 == |line.values| % 256;
      assert |line.values| % 0x10000 / 256 == |line.values| / 256 % 256;
    }
  }

  // A line with its header in the other byte order.
  function BigLine(line: Line): seq<Byte> {
    match line
    case ResetClk => [0xff, 0x00]
    case ResetTuner => [0x00, 0x00]
    case Hex(values) => [|values| / 256 % 256, |values| % 256] + values
  }

  function BigLines(lines: seq<Line>): seq<Byte> {
    if lines == [] then [] else BigLine(lines[0]) + BigLines(lines[1..])
  }

  // Lines, an end, and nothing but them.
  lemma {:induction false} CompiledIs(lines: seq<Line>)
    ensures Compiled([]) == [0xff, 0xff]
    ensures lines != [] ==> Compiled(lines) == LineBytes(lines[0]) + Compiled(lines[1..])
  {
    if lines != [] {
      hide LineBytes, Half;
      AppendAssoc(LineBytes(lines[0]), LinesBytes(lines[1..]), Half(0xffff));
    }
  }

  // The walk in C leaves a compiled stream with exactly its headers exchanged,
  // if the format can express every line.
  lemma {:induction false} SwappedOfCompiled(lines: seq<Line>)
    requires forall line <- lines :: Expressible(line)
    ensures Swapped(Compiled(lines), false) == BigLines(lines) + [0xff, 0xff]
    ensures Walkable(Compiled(lines), false)
    decreases |lines|
  {
    hide Swapped, Walkable, Compiled, LineBytes;
    CompiledIs(lines);
    if lines == [] {
      FirstChunk(0xff, 0xff, [], false);
      Ends();
      assert [0xff, 0xff] + [] == [0xff, 0xff];
    } else {
      var line, rest := lines[0], Compiled(lines[1..]);
      assert line in lines && forall e <- lines[1..] :: e in lines;
      SwappedOfCompiled(lines[1..]);
      SwappedLine(line, rest);
      AppendAssoc(BigLine(line), BigLines(lines[1..]), [0xff, 0xff]);
    }
  }

  lemma Ends()
    ensures Swapped([], false) == [] && Walkable([], false)
  {
  }

  lemma SwappedLine(line: Line, rest: seq<Byte>)
    requires Expressible(line)
    ensures Swapped(LineBytes(line) + rest, false) == BigLine(line) + Swapped(rest, false)
    ensures Walkable(LineBytes(line) + rest, false) <==> Walkable(rest, false)
  {
    hide Swapped, Walkable, LineBytes;
    LineIs(line);
    match line
    case ResetClk => PlainHeader(0x00, 0xff, rest);
    case ResetTuner => PlainHeader(0x00, 0x00, rest);
    case Hex(values) =>
      var n := |values|;
      FirstChunk(n % 256, n / 256 % 256, values + rest, false);
      assert n / 256 % 256 * 256 + n % 256 == n;
      assert (values + rest)[..n] == values && (values + rest)[n..] == rest;
      AppendAssoc([n % 256, n / 256 % 256], values, rest);
      AppendAssoc([n / 256 % 256, n % 256], values, Swapped(rest, false));
  }

  lemma PlainHeader(first: Byte, second: Byte, rest: seq<Byte>)
    requires second == 0xff || (first == 0 && second == 0)
    ensures Swapped([first, second] + rest, false) == [second, first] + Swapped(rest, false)
    ensures Walkable([first, second] + rest, false) <==> Walkable(rest, false)
  {
    hide Swapped, Walkable;
    FirstChunk(first, second, rest, false);
    assert rest[..0] == [] && rest[0..] == rest && [] + Swapped(rest, false) == Swapped(rest, false);
  }
}
