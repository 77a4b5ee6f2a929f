// contrib/xc3028-firmware/standards.c: the growing vector, and the compilation
// of a standard file's lines into a chunk stream.

module StandardData {
  import opened Base
  import opened ChunkStream

  // ----- The vector -----

  function Max(a: nat, b: nat): nat { if a >= b then a else b }

  class Vector {
    var data: array<Byte>
    var size: nat
    ghost var copied: nat  // bytes copied by all enlargements so far

    ghost predicate Sized()
      reads this
    {
      data.Length == size
    }

    // What holds as long as the vector only grows by copy_vector.
    ghost predicate Valid()
      reads this
    {
      Sized() && copied < size
    }

    constructor ()
      ensures Valid() && size == 1 && fresh(data)
    {
      data := new Byte[1];
      size := 1;
      copied := 0;
    }

    // enlarge_vector
    method Enlarge(newSize: nat)
      requires Sized()
      modifies this
      ensures Sized() && size == Max(old(size), newSize) && fresh(data)
      ensures data[..old(size)] == old(data[..])
      ensures copied == old(copied) + old(size)
      ensures old(Valid()) && newSize >= 2 * old(size) ==> Valid()
    {
      var oldSize := size;
      size := Max(size, newSize);
      var nData := new Byte[size];
      forall k | 0 <= k < oldSize { nData[k] := data[k]; }
      copied := copied + oldSize;
      data := nData;
    }

    // copy_vector.  unsigned int does not wrap: 2 * size and i + len are below
    // 2 to the power 32.
    method Copy(i: nat, bytes: seq<Byte>)
      requires Valid() && i <= size && i + |bytes| <= 0x80000000
      modifies this, data
      ensures Valid() && (data == old(data) || fresh(data))
      ensures i + |bytes| <= size && old(size) <= size
      ensures data[..i + |bytes|] == old(data[..i]) + bytes
      ensures size == old(size) || size <= 2 * Max(old(size), i + |bytes|)
    {
      var end := i + |bytes|;
      ghost var before := data[..i];
      if end > size {
        ghost var all := data[..];
        Enlarge(Max(2 * size, end));
        assert data[..i] == data[..|all|][..i] == all[..i] == before;
      }
      Store(data, i, bytes);
    }

    // write_vector8
    method Write8(i: nat, value: Byte)
      requires Valid() && i <= size && i + 1 <= 0x80000000
      modifies this, data
      ensures Valid() && (data == old(data) || fresh(data))
      ensures i + 1 <= size && data[..i + 1] == old(data[..i]) + [value]
    {
      Copy(i, [value]);
    }

    // write_vector16, the low byte first
    method Write16(i: nat, value: nat)
      requires Valid() && i <= size && i + 2 <= 0x80000000 && value < 0x10000
      modifies this, data
      ensures Valid() && (data == old(data) || fresh(data))
      ensures i + 2 <= size && data[..i + 2] == old(data[..i]) + Half(value)
    {
      Copy(i, Half(value));
    }
  }

  // memcpy
  method Store(data: array<Byte>, i: nat, bytes: seq<Byte>)
    requires i + |bytes| <= data.Length
    modifies data
    ensures data[..i + |bytes|] == old(data[..i]) + bytes
    ensures data[i + |bytes|..] == old(data[i + |bytes|..])
  {
    forall k | 0 <= k < |bytes| { data[i + k] := bytes[k]; }
    assert forall k | 0 <= k < |bytes| :: data[i + k] == bytes[k];
    assert data[..i] == old(data[..i]);
    assert data[i..i + |bytes|] == bytes;
    assert data[..i + |bytes|] == data[..i] + data[i..i + |bytes|];
  }

  function Half(value: nat): (b: seq<Byte>)
    requires value < 0x10000
    ensures |b| == 2 && Header(b, false) == value
  {
    [value % 256, value / 256]
  }

  // ----- Lines and their chunks -----

  // A line of the file: one of the two reset commands, or hexadecimal bytes.
  datatype Line = ResetClk | ResetTuner | Hex(values: seq<Byte>)

  function LineBytes(line: Line): seq<Byte> {
    match line
    case ResetClk => Half(0xff00)
    case ResetTuner => Half(0x0000)
    case Hex(values) => Half(|values| % 0x10000) + values
  }

  function LinesBytes(lines: seq<Line>): seq<Byte> {
    if lines == [] then [] else LineBytes(lines[0]) + LinesBytes(lines[1..])
  }

  function Compiled(lines: seq<Line>): seq<Byte> { LinesBytes(lines) + Half(0xffff) }

  // The body of the loop over the lines.
  method WriteLine(v: Vector, start: nat, line: Line) returns (vi: nat)
    requires v.Valid() && start <= v.size && start + |LineBytes(line)| <= 0x80000000
    modifies v, v.data
    ensures v.Valid() && vi == start + |LineBytes(line)| <= v.size
    ensures v.data == old(v.data) || fresh(v.data)
    ensures v.data[..vi] == old(v.data[..start]) + LineBytes(line)
  {
    vi := start;
    match line {
      case ResetClk =>
        v.Write16(vi, 0xff00);
        vi := vi + 2;
      case ResetTuner =>
        v.Write16(vi, 0x0000);
        vi := vi + 2;
      case Hex(values) =>
        v.Write16(vi, |values| % 0x10000);
        vi := vi + 2;
        ghost var header := v.data[..vi];
        var i := 0;
        while i < |values|
          invariant 0 <= i <= |values| && v.Valid() && vi == start + 2 + i <= v.size
          invariant v.data == old(v.data) || fresh(v.data)
          invariant v.data[..vi] == header + values[..i]
        {
          v.Write8(vi, values[i]);
          vi := vi + 1;
          i := i + 1;
        }
        assert values[..i] == values;
        AppendAssoc(old(v.data[..start]), Half(|values| % 0x10000), values);
    }
  }

  // create_standard_data, on the lines read.
  method CreateStandardData(lines: seq<Line>) returns (data: array<Byte>)
    requires |Compiled(lines)| <= 0x80000000
    ensures data[..] == Compiled(lines)
  {
    hide LineBytes, LinesBytes, Half, Header;
    var v := new Vector();
    var vi := 0;
    var k := 0;
    assert v.data[..0] == [] && lines[0..] == lines;
    while k < |lines|
      invariant 0 <= k <= |lines| && v.Valid() && fresh(v) && fresh(v.data) && 0 <= vi <= v.size
      invariant v.data[..vi] + LinesBytes(lines[k..]) == LinesBytes(lines)
    {
      LinesFrom(lines, k);
      ghost var before, rest := v.data[..vi], LinesBytes(lines[k + 1..]);
      assert vi + |LineBytes(lines[k])| + |rest| == |LinesBytes(lines)|;
      vi := WriteLine(v, vi, lines[k]);
      AppendAssoc(before, LineBytes(lines[k]), rest);
      k := k + 1;
    }
    NoLines(lines[k..]);
    assert v.data[..vi] + [] == v.data[..vi];
    v.Write16(vi, 0xffff);
    vi := vi + 2;
    data := new Byte[vi];
    forall i | 0 <= i < vi { data[i] := v.data[i]; }
    assert data[..] == v.data[..vi];
  }

  lemma NoLines(lines: seq<Line>)
    ensures lines == [] ==> LinesBytes(lines) == []
  {
  }

  lemma LinesFrom(lines: seq<Line>, k: nat)
    requires k < |lines|
    ensures LinesBytes(lines[k..]) == LineBytes(lines[k]) + LinesBytes(lines[k + 1..])
  {
    assert lines[k..][1..] == lines[k + 1..];
  }

  // ----- Reading the stream back -----

  // The walk over the chunks, up to the end marker.
  function Walk(s: seq<Byte>): Option<seq<Line>>
    decreases |s|
  {
    if |s| < 2 then None
    else
      var h := Header(s, false);
      if h == 0xffff then if |s| == 2 then Some([]) else None
      else
        var n := 2 + PayloadLen(h);
        if n > |s| then None
        else
          match Walk(s[n..])
          case None => None
          case Some(rest) =>
            if h == 0xff00 then Some([ResetClk] + rest)
            else if h == 0 then Some([ResetTuner] + rest)
            else if h < 0x8000 then Some([Hex(s[2..n])] + rest)
            else None
  }

  // The lines the format can express.
  predicate Expressible(line: Line) {
    line.Hex? ==> 1 <= |line.values| <= 0x7fff
  }

  lemma HeaderOfHalf(value: nat, rest: seq<Byte>)
    requires value < 0x10000
    ensures var s := Half(value) + rest;
            |s| >= 2 && Header(s, false) == value && s[2..] == rest
  {
  }

  // The walk over a compiled list visits exactly its lines in order and ends at
  // the marker, if and only if every hex line has 1 to 0x7fff bytes.
  lemma {:induction false} WalkOfCompiledIff(lines: seq<Line>)
    ensures Walk(Compiled(lines)) == Some(lines) <==> forall line <- lines :: Expressible(line)
  {
    var s := Compiled(lines);
    if lines == [] {
      HeaderOfHalf(0xffff, []);
      assert s == Half(0xffff) + [];
    } else {
      var rest := Compiled(lines[1..]);
      assert s == LineBytes(lines[0]) + rest;
      WalkOfCompiledIff(lines[1..]);
      HeadWalk(lines[0], rest);
      assert lines == [lines[0]] + lines[1..];
    }
  }

  // The first line read is the first line written, if and only if the format
  // can express it.
  lemma HeadWalk(line: Line, rest: seq<Byte>)
    ensures var s := LineBytes(line) + rest;
            if Expressible(line) then
              Walk(s) == match Walk(rest) case None => None case Some(lines) => Some([line] + lines)
            else Walk(s).None? || Walk(s).value == [] || Walk(s).value[0] != line
  {
    hide Walk, Header, Half;
    var s := LineBytes(line) + rest;
    match line
    case ResetClk =>
      HeaderOfHalf(0xff00, rest);
      ResetHead(s, rest);
    case ResetTuner =>
      HeaderOfHalf(0, rest);
      ResetHead(s, rest);
    case Hex(values) =>
      var h := |values| % 0x10000;
      assert s == Half(h) + (values + rest);
      HeaderOfHalf(h, values + rest);
      if Expressible(line) {
        ExpressibleHead(s, values, rest);
      } else {
        InexpressibleHead(s, h, values);
      }
  }

  lemma ResetHead(s: seq<Byte>, rest: seq<Byte>)
    requires |s| >= 2 && s[2..] == rest && (Header(s, false) == 0 || Header(s, false) == 0xff00)
    ensures var line := if Header(s, false) == 0 then ResetTuner else ResetClk;
            Walk(s) == match Walk(rest) case None => None case Some(lines) => Some([line] + lines)
  {
    hide Header;
  }

  lemma ExpressibleHead(s: seq<Byte>, values: seq<Byte>, rest: seq<Byte>)
    requires |s| >= 2 && Header(s, false) == |values| && 1 <= |values| <= 0x7fff && s[2..] == values + rest
    ensures Walk(s) == match Walk(rest) case None => None case Some(lines) => Some([Hex(values)] + lines)
  {
    var n := 2 + |values|;
    assert s[2..n] == s[2..][..|values|] == values;
    assert s[n..] == s[2..][|values|..] == rest;
  }

  lemma InexpressibleHead(s: seq<Byte>, h: nat, values: seq<Byte>)
    requires |s| >= 2 && Header(s, false) == h == |values| % 0x10000
    requires values == [] || |values| > 0x7fff
    ensures Walk(s).None? || Walk(s).value == [] || Walk(s).value[0] != Hex(values)
  {
    if 0 < h < 0x8000 {
      assert |values| > 0x7fff && h != |values|;
    }
  }

  // ----- Runs of writes -----

  function Flat(values: seq<seq<Byte>>): seq<Byte> {
    if values == [] then [] else values[0] + Flat(values[1..])
  }

  lemma {:induction false} FlatPrefix(values: seq<seq<Byte>>, k: nat)
    requires k < |values|
    ensures Flat(values[..k + 1]) == Flat(values[..k]) + values[k]
    ensures |Flat(values[..k + 1])| <= |Flat(values)|
    decreases k
  {
    if k == 0 {
      assert values[..0] == [] && values[..1][0] == values[0] && values[..1][1..] == [];
      assert [] + values[0] == values[0] + [];
    } else {
      FlatPrefix(values[1..], k - 1);
      assert values[..k][1..] == values[1..][..k - 1];
      assert values[..k + 1][1..] == values[1..][..k];
    }
  }

  // Writing values of any lengths, each behind the ones before: the vector holds
  // their concatenation, and its enlargements copied fewer bytes than it has
  // room for.
  method WriteAll(values: seq<seq<Byte>>) returns (v: Vector)
    requires |Flat(values)| <= 0x80000000
    ensures v.Valid() && |Flat(values)| <= v.size
    ensures v.data[..|Flat(values)|] == Flat(values) && v.copied < v.data.Length
  {
    v := new Vector();
    var i, end := 0, 0;
    assert values[..0] == [];
    while i < |values|
      invariant 0 <= i <= |values| && v.Valid() && fresh(v) && fresh(v.data)
      invariant 0 <= end <= v.size && end == |Flat(values[..i])| && v.data[..end] == Flat(values[..i])
    {
      FlatPrefix(values, i);
      v.Copy(end, values[i]);
      end := end + |values[i]|;
      i := i + 1;
    }
    assert values[..i] == values;
  }
}
