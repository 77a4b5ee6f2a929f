// What a text of S-records means, and that contrib/cobalt-ctl/s-record.c finds
// just that in it.

module SRecordText {
  import opened Base
  import opened SRecord

  // ----- Hexadecimal text -----

  predicate IsHex(c: Byte) { 48 <= c <= 57 || 65 <= c <= 70 || 97 <= c <= 102 }

  function HexValue(c: Byte): (v: nat)
    requires IsHex(c)
    ensures v < 16
  {
    if c <= 57 then c - 48 else if c <= 70 then c - 65 + 10 else c - 97 + 10
  }

  predicate AllHex(h: seq<Byte>) { |h| % 2 == 0 && forall c <- h :: IsHex(c) }

  // The bytes that pairs of digits stand for, the high digit first.
  function HexBytes(h: seq<Byte>): (b: seq<Byte>)
    requires AllHex(h)
    ensures |b| == |h| / 2
  {
    if h == [] then [] else
      assert AllHex(h[2..]) by { assert forall c <- h[2..] :: c in h; }
      assert h[0] in h && h[1] in h;
      [16 * HexValue(h[0]) + HexValue(h[1])] + HexBytes(h[2..])
  }

  // ----- Records -----

  // A comment record, and a data record with a 32-bit address.
  datatype Record = Comment(bytes: seq<Byte>) | Image(address: nat, bytes: seq<Byte>, checksum: Byte)

  // The bytes behind the record type: a count, and as many bytes.
  function Fields(r: Record): (b: seq<Byte>)
    requires Legal(r)
  {
    match r
    case Comment(bytes) => [|bytes|] + bytes
    case Image(address, bytes, checksum) =>
      [5 + |bytes|] + [address / 0x100_0000, address / 0x1_0000 % 256, address / 0x100 % 256, address % 256]
      + bytes + [checksum]
  }

  // One byte counts; a comment has an address and a checksum, too.
  predicate Legal(r: Record) {
    match r
    case Comment(bytes) => 3 <= |bytes| <= 255
    case Image(address, bytes, _) => address < U32 && |bytes| <= 250
  }

  function Count(r: Record): nat { if r.Comment? then |r.bytes| else 5 + |r.bytes| }

  // The program adds 2 to the count in one byte, which wraps.
  predicate TooLong(r: Record) { Count(r) >= 254 }

  // line stands for r, in digits of either case.
  predicate Spells(line: seq<Byte>, r: Record) {
    && Legal(r) && |line| >= 2 && line[0] == 'S' as int
    && line[1] == (if r.Comment? then '0' else '3') as int
    && AllHex(line[2..]) && HexBytes(line[2..]) == Fields(r)
  }

  predicate SpellAll(lines: seq<seq<Byte>>, records: seq<Record>) {
    |lines| == |records| && forall i | 0 <= i < |lines| :: Spells(lines[i], records[i])
  }

  const LF: seq<Byte> := [10]
  const CRLF: seq<Byte> := [13, 10]

  function Text(lines: seq<seq<Byte>>, newline: seq<Byte>): seq<Byte> {
    if lines == [] then [] else lines[0] + newline + Text(lines[1..], newline)
  }

  // ----- What records mean -----

  predicate Fits(r: Record, flashSize: nat) {
    !TooLong(r) && (r.Image? ==> r.address + 2 * |r.bytes| <= flashSize)
  }

  function Size(records: seq<Record>): int {
    if records == [] then 0
    else (if records[0].Comment? then |records[0].bytes| - 3 else |records[0].bytes|) + Size(records[1..])
  }

  predicate FitAll(records: seq<Record>, flashSize: nat) { forall r <- records :: Fits(r, flashSize) }

  function Apply(flash: seq<Byte>, r: Record): (image: seq<Byte>)
    requires Fits(r, |flash|)
    ensures |image| == |flash|
  {
    if r.Comment? then flash else Put(flash, r.address, r.bytes)
  }

  // The data records, overlaid in order.
  function Overlay(flash: seq<Byte>, records: seq<Record>): (image: seq<Byte>)
    requires FitAll(records, |flash|)
    ensures |image| == |flash|
    decreases |records|
  {
    if records == [] then flash else Overlay(Apply(flash, records[0]), records[1..])
  }

  // The byte at address k: of the last record that covers it, and the old one
  // if none does.
  function ByteAt(before: Byte, records: seq<Record>, k: nat): Byte {
    if records == [] then before
    else
      var last := records[|records| - 1];
      if last.Image? && last.address <= k < last.address + |last.bytes| then last.bytes[k - last.address]
      else ByteAt(before, records[..|records| - 1], k)
  }

  lemma {:induction false} OverlayLast(flash: seq<Byte>, records: seq<Record>, r: Record)
    requires FitAll(records + [r], |flash|)
    ensures FitAll(records, |flash|) && Fits(r, |flash|)
    ensures Overlay(flash, records + [r]) == Apply(Overlay(flash, records), r)
    decreases |records|
  {
    hide Apply, Fits;
    var all := records + [r];
    assert all[|records|] == r && forall e <- records :: e in all;
    if records == [] {
      assert all[0] == r && all[1..] == [];
    } else {
      assert all[0] == records[0] && all[1..] == records[1..] + [r];
      OverlayLast(Apply(flash, records[0]), records[1..], r);
    }
  }

  lemma {:induction false} OverlayAt(flash: seq<Byte>, records: seq<Record>, k: nat)
    requires k < |flash| && FitAll(records, |flash|)
    ensures Overlay(flash, records)[k] == ByteAt(flash[k], records, k)
    decreases |records|
  {
    if records != [] {
      var before, last := records[..|records| - 1], records[|records| - 1];
      assert records == before + [last];
      OverlayLast(flash, before, last);
      OverlayAt(flash, before, k);
      hide Overlay, FitAll;
    }
  }

  // ----- What the program makes of them -----

  // The program stops at the first record that does not fit.  One that is too
  // long it takes to be almost empty, and the rest of its line to be a line that
  // is not supported, if the small negative size did not already seem outside.
  function RunRecords(records: seq<Record>, flash: seq<Byte>, size: int): (r: Result)
    decreases |records|
  {
    if records == [] then Result(Converted(size), flash)
    else if TooLong(records[0]) then Result(TooLongOutcome(records[0], |flash|), flash)
    else
      match records[0]
      case Comment(bytes) => RunRecords(records[1..], flash, size + |bytes| - 3)
      case Image(address, bytes, _) =>
        if (address + 2 * |bytes|) % U32 > |flash| then Result(Outside, flash)
        else if |bytes| > 0 && address + |bytes| > |flash| then Result(Stray, flash)
        else RunRecords(records[1..], if bytes == [] then flash else Put(flash, address, bytes), size + |bytes|)
  }

  function TooLongOutcome(r: Record, flashSize: nat): Outcome {
    if r.Image? && (r.address + 2 * (Count(r) - 254) - 14) % U32 > flashSize then Outside else Unsupported
  }

  // ----- Digits, pairs and slices -----

  function Shl(x: nat, k: nat): nat { if k == 0 then x else 2 * Shl(x, k - 1) }

  lemma {:induction false} OrIsSum(x: nat, y: nat, k: nat, n: nat)
    requires x < Pow2(n) && y < Pow2(k)
    ensures Or(Shl(x, k), y, k + n) == Shl(x, k) + y
    decreases k + n
  {
    if k > 0 {
      OrIsSum(x, y / 2, k - 1, n);
    } else if n > 0 {
      OrIsSum(x / 2, 0, 0, n - 1);
    }
  }

  lemma DigitValue(c: Byte)
    requires IsHex(c)
    ensures DigitToVal(c) as int == HexValue(c)
  {
  }

  lemma PairValue(c0: Byte, c1: Byte)
    requires IsHex(c0) && IsHex(c1)
    ensures CharToVal(c0, c1) as int == 16 * HexValue(c0) + HexValue(c1)
  {
    DigitValue(c0);
    DigitValue(c1);
    hide DigitToVal, HexValue, Or, IsHex;
    var x, y := HexValue(c0), HexValue(c1);
    assert x * 16 % 256 == 16 * x;
    Nibbles(x, y);
  }

  lemma Nibbles(x: nat, y: nat)
    requires x < 16 && y < 16
    ensures Or(16 * x, y, 8) == 16 * x + y
  {
    hide Or;
    OrIsSum(x, y, 4, 4) by {
      assert Pow2(2) == 4;
    }
    assert Shl(x, 1) == 2 * x;
    assert Shl(x, 3) == 4 * Shl(x, 1);
  }

  lemma {:induction false} BytesOfHex(h: seq<Byte>)
    requires AllHex(h)
    ensures Bytes(h) == HexBytes(h)
    decreases |h|
  {
    hide CharToVal, HexValue, IsHex;
    if h != [] {
      assert AllHex(h[2..]) by { assert forall c <- h[2..] :: c in h; }
      assert h[0] in h && h[1] in h;
      PairValue(h[0], h[1]);
      BytesOfHex(h[2..]);
    }
  }

  lemma BytesSlice(h: seq<Byte>, part: seq<Byte>, i: nat, n: nat)
    requires |part| == 2 * n && 2 * i + |part| <= |h|
    requires forall m | 0 <= m < |part| :: part[m] == h[2 * i + m]
    ensures Bytes(part) == Bytes(h)[i..i + n]
  {
    hide Bytes, CharToVal;
    forall k: nat | k < n ensures Bytes(part)[k] == Bytes(h)[i + k] {
      BytesAt(part, k);
      BytesAt(h, i + k);
    }
    SameElements(Bytes(part), Bytes(h)[i..i + n]);
  }

  lemma SameElements<T>(a: seq<T>, b: seq<T>)
    requires |a| == |b| && forall k: nat | k < |a| :: a[k] == b[k]
    ensures a == b
  {
  }

  // ----- One line -----

  // The bytes of a line behind its type, as the program decodes them.
  lemma Decoded(line: seq<Byte>, r: Record, i: nat)
    requires Spells(line, r) && i < |Fields(r)|
    ensures |line| == 2 + 2 * |Fields(r)|
    ensures CharToVal(line[2 + 2 * i], line[3 + 2 * i]) == Fields(r)[i]
  {
    hide CharToVal, Fields, Bytes;
    var h := line[2..];
    BytesOfHex(h);
    BytesAt(h, i);
    assert h[2 * i] == line[2 + 2 * i] && h[2 * i + 1] == line[3 + 2 * i];
  }

  lemma ReadComment(line: seq<Byte>, r: Record, rest: seq<Byte>, newline: nat)
    requires Spells(line, r) && r.Comment? && !TooLong(r)
    ensures ReadLine(line + rest, newline) == Info(|line| + newline, 2 * |r.bytes| - 7 + newline)
  {
    hide CharToVal;
    Decoded(line, r, 0);
    assert (line + rest)[..4] == line[..4];
  }

  lemma ReadLongComment(line: seq<Byte>, r: Record, rest: seq<Byte>, newline: nat)
    requires Spells(line, r) && r.Comment? && TooLong(r)
    ensures ReadLine(line + rest, newline)
         == Info(2 * (Count(r) - 254) + newline, 2 * (Count(r) - 254) + newline - 11)
  {
    hide CharToVal;
    Decoded(line, r, 0);
    assert (line + rest)[..4] == line[..4];
  }

  // A line cut inside is not supported: it starts with a digit.
  lemma ReadInside(line: seq<Byte>, r: Record, rest: seq<Byte>, newline: nat, n: nat)
    requires Spells(line, r) && 1 <= n <= 4 && TooLong(r)
    ensures n <= |line + rest| && (line + rest)[n..] != []
    ensures ReadLine((line + rest)[n..], newline) == BadLine
  {
    hide HexBytes, Fields, CharToVal;
    LongLine(line, r);
    var b := (line + rest)[n..];
    assert b[0] == line[n];
    if n >= 2 { assert line[n] == line[2..][n - 2] && line[2..][n - 2] in line[2..]; }
  }

  lemma LongLine(line: seq<Byte>, r: Record)
    requires Spells(line, r) && TooLong(r)
    ensures |line| >= 510
  {
    CountFirst(r);
    Decoded(line, r, 0);
    hide HexBytes;
  }

  lemma RunTooLong(line: seq<Byte>, r: Record, newline: seq<Byte>, rest: seq<Byte>, flash: seq<Byte>, size: int)
    requires Spells(line, r) && TooLong(r) && IsNewline(newline)
    ensures Run(line + (newline + rest), |newline|, flash, size)
         == Result(TooLongOutcome(r, |flash|), flash)
  {
    hide Run, ReadLine, Spells, Bytes, Put, Half;
    var more, k := newline + rest, |newline|;
    var b := line + more;
    var n := 2 * (Count(r) - 254) + k;
    CountAtMost(line, r);
    RunStep(b, k, flash, size);
    ReadInside(line, r, more, k, n);
    if r.Comment? {
      ReadLongComment(line, r, more, k);
      RunStep(b[n..], k, flash, size + Half(n - 11));
    } else {
      ReadImage(line, r, more, k);
      RunStep(b[n..], k, flash, size + Half(n - 14 - k));
    }
  }

  lemma CountAtMost(line: seq<Byte>, r: Record)
    requires Spells(line, r)
    ensures Count(r) <= 255
  {
  }

  lemma Base256(a: nat)
    requires a < U32
    ensures ((a / 0x100_0000 * 256 + a / 0x1_0000 % 256) * 256 + a / 0x100 % 256) * 256 + a % 256 == a
  {
  }

  lemma ReadImage(line: seq<Byte>, r: Record, rest: seq<Byte>, newline: nat)
    requires Spells(line, r) && r.Image?
    ensures ReadLine(line + rest, newline)
         == if TooLong(r) then Data(2 * (Count(r) - 254) + newline, 2 * (Count(r) - 254) - 14, r.address)
            else Data(|line| + newline, 2 * |r.bytes|, r.address)
  {
    hide CharToVal, Bytes, HexBytes, AllHex;
    var b, n, f := line + rest, |r.bytes|, Fields(r);
    forall i | 0 <= i < |f| ensures |line| == 2 + 2 * |f| && CharToVal(b[2 + 2 * i], b[3 + 2 * i]) == f[i] {
      Decoded(line, r, i);
    }
    assert CharToVal(b[2 + 2 * 0], b[3 + 2 * 0]) == f[0] == 5 + n;
    assert CharToVal(b[2 + 2 * 1], b[3 + 2 * 1]) == f[1] && CharToVal(b[2 + 2 * 2], b[3 + 2 * 2]) == f[2];
    assert CharToVal(b[2 + 2 * 3], b[3 + 2 * 3]) == f[3] && CharToVal(b[2 + 2 * 4], b[3 + 2 * 4]) == f[4];
    Base256(r.address);
  }

  lemma ImagePayload(line: seq<Byte>, r: Record, rest: seq<Byte>)
    requires Spells(line, r) && r.Image?
    ensures 12 + 2 * |r.bytes| <= |line| && Bytes((line + rest)[12..12 + 2 * |r.bytes|]) == r.bytes
  {
    Decoded(line, r, 0);
    PayloadField(r);
    var h, n := line[2..], |r.bytes|;
    assert AllHex(h) && HexBytes(h) == Fields(r);
    hide *;
    BytesOfHex(h);
    var part := (line + rest)[12..12 + 2 * n];
    assert forall m | 0 <= m < |part| :: part[m] == h[10 + m];
    BytesSlice(h, part, 5, n);
  }

  lemma PayloadField(r: Record)
    requires Legal(r) && r.Image?
    ensures |Fields(r)| == |r.bytes| + 6 && Fields(r)[5..5 + |r.bytes|] == r.bytes
  {
  }

  // ----- The newline -----

  lemma {:induction false} FindsAt(f: seq<Byte>, p: nat, q: nat)
    requires p <= q <= |f| && forall i | p <= i < q :: f[i] != 0 && f[i] != 'S' as int
    requires q < |f| ==> f[q] == 'S' as int
    ensures FindS(f, p) == if q < |f| then Some(q) else None
    decreases q - p
  {
    if p < q { FindsAt(f, p + 1, q); }
  }

  predicate IsNewline(newline: seq<Byte>) { newline == LF || newline == CRLF }

  lemma NoSInside(line: seq<Byte>, r: Record, newline: seq<Byte>)
    requires Spells(line, r) && IsNewline(newline)
    ensures var f := line + newline;
            && |line| >= 6 && (forall i | 2 <= i < |f| :: f[i] != 0 && f[i] != 'S' as int)
            && (f[|f| - 2] == 13 <==> newline == CRLF)
  {
    hide HexBytes, Fields;
    CountFirst(r);
    Decoded(line, r, 0);
    var f := line + newline;
    forall i | 2 <= i < |f| ensures f[i] != 0 && f[i] != 'S' as int && (i < |line| ==> f[i] != 13) {
      if i < |line| {
        assert line[2..][i - 2] in line[2..];
        assert f[i] == line[2..][i - 2];
      } else {
        assert f[i] == newline[i - |line|];
      }
    }
  }

  lemma CountFirst(r: Record)
    requires Legal(r)
    ensures |Fields(r)| == Count(r) + 1 >= 4
  {
  }

  lemma SecondLine(lines: seq<seq<Byte>>, records: seq<Record>, newline: seq<Byte>)
    requires SpellAll(lines, records) && |lines| >= 2
    ensures |Text(lines[1..], newline)| > 0 && Text(lines[1..], newline)[0] == 'S' as int
  {
    hide HexBytes, Fields;
    assert Spells(lines[1], records[1]) && lines[1..][0] == lines[1];
  }

  // A text of less than two lines does not show how its lines end.
  lemma NewlineFound(lines: seq<seq<Byte>>, records: seq<Record>, newline: seq<Byte>)
    requires SpellAll(lines, records) && IsNewline(newline)
    ensures NewlineLength(Text(lines, newline)) == if |lines| >= 2 then Some(|newline|) else None
  {
    hide *;
    NoText(newline);
    if lines == [] {
      FindsNothing(Text(lines, newline));
    } else {
      var head, rest := lines[0] + newline, Text(lines[1..], newline);
      SpellTail(lines, records);
      TextTail(lines, newline);
      AppendAssoc(lines[0], newline, rest);
      if |lines| >= 2 { SecondLine(lines, records, newline); } else { assert lines[1..] == []; }
      NoSInside(lines[0], records[0], newline);
      NewlineLengths(newline);
      FoundBehind(head, rest, |newline|);
    }
  }

  lemma NewlineLengths(newline: seq<Byte>)
    requires IsNewline(newline)
    ensures 1 <= |newline| <= 2 && (|newline| == 2 <==> newline == CRLF)
  {
  }

  lemma FoundBehind(head: seq<Byte>, rest: seq<Byte>, newline: nat)
    requires |head| >= 2 && forall i | 2 <= i < |head| :: head[i] != 0 && head[i] != 'S' as int
    requires rest != [] ==> rest[0] == 'S' as int
    requires 1 <= newline <= 2 && (head[|head| - 2] == 13 <==> newline == 2)
    ensures NewlineLength(head + rest) == if rest == [] then None else Some(newline)
  {
    hide FindS;
    var f := head + rest;
    assert forall i | 0 <= i < |head| :: f[i] == head[i];
    FindsAt(f, 2, |head|);
  }

  lemma NoText(newline: seq<Byte>)
    ensures Text([], newline) == []
  {
  }

  lemma FindsNothing(f: seq<Byte>)
    requires f == []
    ensures NewlineLength(f) == None
  {
  }

  // ----- The text -----

  lemma SpellTail(lines: seq<seq<Byte>>, records: seq<Record>)
    requires SpellAll(lines, records) && lines != []
    ensures |lines| == |records| && Spells(lines[0], records[0]) && SpellAll(lines[1..], records[1..])
  {
    hide Spells;
    assert forall i | 0 <= i < |lines| - 1 :: lines[1..][i] == lines[i + 1] && records[1..][i] == records[i + 1];
  }

  lemma TextTail(lines: seq<seq<Byte>>, newline: seq<Byte>)
    requires lines != []
    ensures var rest := Text(lines[1..], newline);
            var length := |lines[0]| + |newline|;
            && Text(lines, newline) == lines[0] + (newline + rest)
            && length <= |Text(lines, newline)| && Text(lines, newline)[length..] == rest
  {
    var line, rest := lines[0], Text(lines[1..], newline);
    AppendAssoc(line, newline, rest);
    assert |line + newline| == |line| + |newline|;
    assert ((line + newline) + rest)[|line + newline|..] == rest;
  }

  lemma RestOf(line: seq<Byte>, newline: seq<Byte>, rest: seq<Byte>)
    ensures var b := line + (newline + rest);
            |line| + |newline| <= |b| && b[|line| + |newline|..] == rest
  {
  }

  lemma HalfLine(line: seq<Byte>, r: Record, newline: nat)
    requires Spells(line, r) && r.Comment? && 1 <= newline <= 2
    ensures Half(2 * |r.bytes| - 7 + newline) == |r.bytes| - 3
  {
  }

  lemma RunComment(line: seq<Byte>, r: Record, newline: seq<Byte>, rest: seq<Byte>, flash: seq<Byte>, size: int)
    requires Spells(line, r) && r.Comment? && !TooLong(r) && |newline| > 0
    ensures Run(line + (newline + rest), |newline|, flash, size)
         == Run(rest, |newline|, flash, size + Half(2 * |r.bytes| - 7 + |newline|))
  {
    hide *;
    ReadComment(line, r, newline + rest, |newline|);
    RestOf(line, newline, rest);
    RunStep(line + (newline + rest), |newline|, flash, size);
  }

  lemma RunImage(line: seq<Byte>, r: Record, newline: seq<Byte>, rest: seq<Byte>, flash: seq<Byte>, size: int)
    requires Spells(line, r) && r.Image? && !TooLong(r) && IsNewline(newline)
    ensures Run(line + (newline + rest), |newline|, flash, size)
         == if (r.address + 2 * |r.bytes|) % U32 > |flash| then Result(Outside, flash)
            else if |r.bytes| > 0 && r.address + |r.bytes| > |flash| then Result(Stray, flash)
            else Run(rest, |newline|, if r.bytes == [] then flash else Put(flash, r.address, r.bytes),
                     size + |r.bytes|)
  {
    hide Run, ReadLine, Spells, Bytes, Put, U32;
    ReadImage(line, r, newline + rest, |newline|);
    ImagePayload(line, r, newline + rest);
    RunStep(line + (newline + rest), |newline|, flash, size);
    RestOf(line, newline, rest);
  }

  lemma {:induction false} RunText(lines: seq<seq<Byte>>, records: seq<Record>, newline: seq<Byte>,
                                   flash: seq<Byte>, size: int)
    requires SpellAll(lines, records) && IsNewline(newline)
    ensures Run(Text(lines, newline), |newline|, flash, size) == RunRecords(records, flash, size)
    decreases |lines|
  {
    hide Run, Spells, Put, Half, TooLong, TooLongOutcome;
    if lines == [] {
      RunStep([], |newline|, flash, size);
    } else {
      SpellTail(lines, records);
      TextTail(lines, newline);
      var r, rest := records[0], Text(lines[1..], newline);
      hide Text, SpellAll;
      if TooLong(r) {
        RunTooLong(lines[0], r, newline, rest, flash, size);
      } else if r.Comment? {
        RunComment(lines[0], r, newline, rest, flash, size);
        HalfLine(lines[0], r, |newline|);
        RunText(lines[1..], records[1..], newline, flash, size + |r.bytes| - 3);
      } else {
        RunImage(lines[0], r, newline, rest, flash, size);
        if (r.address + 2 * |r.bytes|) % U32 <= |flash| && (r.bytes == [] || r.address + |r.bytes| <= |flash|) {
          var image := if r.bytes == [] then flash else Put(flash, r.address, r.bytes);
          RunText(lines[1..], records[1..], newline, image, size + |r.bytes|);
        }
      }
    }
  }

  lemma {:induction false} RunRecordsIff(records: seq<Record>, flash: seq<Byte>, size: int)
    requires |flash| < 0x8000_0000 && forall r <- records :: Legal(r)
    ensures RunRecords(records, flash, size).outcome.Converted? <==> FitAll(records, |flash|)
    ensures FitAll(records, |flash|)
        ==> RunRecords(records, flash, size) == Result(Converted(size + Size(records)), Overlay(flash, records))
    decreases |records|
  {
    hide Put, FitAll, Legal;
    FitParts(records, |flash|);
    if records != [] {
      var r, rest := records[0], records[1..];
      assert r in records && forall e <- rest :: e in records;
      if TooLong(r) {
      } else if r.Comment? {
        RunRecordsIff(rest, flash, size + |r.bytes| - 3);
      } else {
        PutNothing(flash, r.address);
        FitsIff(r, |flash|);
        if Fits(r, |flash|) {
          RunRecordsIff(rest, Put(flash, r.address, r.bytes), size + |r.bytes|);
        }
      }
    }
  }

  // For a flash of less than 2 GB the wrapped sum is not mistaken.
  lemma FitsIff(r: Record, flashSize: nat)
    requires Legal(r) && r.Image? && !TooLong(r) && flashSize < 0x8000_0000
    ensures Fits(r, flashSize) <==> (r.address + 2 * |r.bytes|) % U32 <= flashSize
                                    && (r.bytes == [] || r.address + |r.bytes| <= flashSize)
  {
    var sum := r.address + 2 * |r.bytes|;
    assert sum % U32 == if sum < U32 then sum else sum - U32;
  }

  lemma FitParts(records: seq<Record>, flashSize: nat)
    ensures records == [] ==> FitAll(records, flashSize)
    ensures records != []
        ==> (FitAll(records, flashSize) <==> Fits(records[0], flashSize) && FitAll(records[1..], flashSize))
  {
    hide Fits;
    if records != [] {
      var r, rest := records[0], records[1..];
      assert r in records && forall e <- rest :: e in records;
      assert forall e <- records :: e == r || e in rest;
    }
  }

  lemma PutNothing(flash: seq<Byte>, offset: nat)
    ensures offset <= |flash| ==> Put(flash, offset, []) == flash
  {
  }

  // The program converts a text of records exactly when it has two lines and
  // every record, with its digits counted, fits; the flash then holds the
  // records overlaid, and the result is the size of all payloads.
  lemma ConvertText(lines: seq<seq<Byte>>, records: seq<Record>, newline: seq<Byte>, flash: seq<Byte>)
    requires SpellAll(lines, records) && IsNewline(newline) && |flash| < 0x8000_0000
    ensures Convert(Text(lines, newline), flash).outcome.Converted? <==> |lines| >= 2 && FitAll(records, |flash|)
    ensures |lines| >= 2 && FitAll(records, |flash|)
        ==> Convert(Text(lines, newline), flash) == Result(Converted(Size(records)), Overlay(flash, records))
  {
    hide Run, Text, Overlay, FitAll;
    forall r | r in records ensures Legal(r) {
      var i :| 0 <= i < |records| && records[i] == r;
      assert Spells(lines[i], records[i]);
    }
    NewlineFound(lines, records, newline);
    RunText(lines, records, newline, flash, 0);
    RunRecordsIff(records, flash, 0);
  }

  // ----- Every record has a line -----

  function Digit(v: nat): (c: Byte)
    requires v < 16
    ensures IsHex(c) && HexValue(c) == v
  {
    if v < 10 then 48 + v else 55 + v
  }

  function Spelling(b: seq<Byte>): (h: seq<Byte>)
    ensures AllHex(h)
  {
    if b == [] then [] else
      var pair := [Digit(b[0] / 16), Digit(b[0] % 16)];
      var h := Spelling(b[1..]);
      assert forall c <- pair + h :: c in pair || c in h;
      pair + h
  }

  function LineOf(r: Record): seq<Byte>
    requires Legal(r)
  {
    ['S' as int, (if r.Comment? then '0' else '3') as int] + Spelling(Fields(r))
  }

  lemma {:induction false} HexBytesOfSpelling(b: seq<Byte>)
    ensures HexBytes(Spelling(b)) == b
    decreases |b|
  {
    if b != [] {
      HexBytesOfSpelling(b[1..]);
      assert Spelling(b)[2..] == Spelling(b[1..]);
      assert [b[0]] + b[1..] == b;
    }
  }

  lemma LineSpells(r: Record)
    requires Legal(r)
    ensures Spells(LineOf(r), r)
  {
    HexBytesOfSpelling(Fields(r));
    assert LineOf(r)[2..] == Spelling(Fields(r));
  }
}
