// contrib/cobalt-ctl/s-record.c: Motorola S-records, read into a flash image.

module SRecord {
  import opened Base

  // ----- The program's arithmetic on characters -----

  // char is signed.
  function Signed(c: Byte): int { if c < 128 then c else c - 256 }

  function DigitToVal(digit: Byte): Byte {
    if Signed(digit) <= 0x39 then (Signed(digit) - 0x30) % 256
    else if Signed(digit) <= 70 then (Signed(digit) - 55) % 256
    else (Signed(digit) - 87) % 256
  }

  function Pow2(k: nat): nat { if k == 0 then 1 else 2 * Pow2(k - 1) }

  // Bitwise or of the k low bits.
  function Or(x: nat, y: nat, k: nat): (r: nat)
    ensures r < Pow2(k)
    decreases k
  {
    if k == 0 then 0 else (if x % 2 == 1 || y % 2 == 1 then 1 else 0) + 2 * Or(x / 2, y / 2, k - 1)
  }

  function CharToVal(c0: Byte, c1: Byte): Byte {
    assert Pow2(4) == 16;
    Or(DigitToVal(c0) * 16 % 256, DigitToVal(c1), 8)
  }

  // The bytes that str_to_char makes of pairs of characters; an odd one is left.
  function Bytes(str: seq<Byte>): (b: seq<Byte>)
    ensures |b| == |str| / 2
  {
    if |str| < 2 then [] else [CharToVal(str[0], str[1])] + Bytes(str[2..])
  }

  // b at offset in flash.
  function Put(flash: seq<Byte>, offset: nat, b: seq<Byte>): (r: seq<Byte>)
    requires offset + |b| <= |flash|
    ensures |r| == |flash|
  {
    flash[..offset] + b + flash[offset + |b|..]
  }

  // ----- The program's run -----

  // Stray: the program would touch memory outside its two buffers.
  datatype Outcome = Converted(size: int) | Unsupported | Outside | Stray

  datatype Result = Result(outcome: Outcome, flash: seq<Byte>)

  // The first "S" of f at p or behind, if the search ends inside f.
  function FindS(f: seq<Byte>, p: nat): (r: Option<nat>)
    ensures r.Some? ==> p <= r.value < |f|
    decreases |f| - p
  {
    if p >= |f| || f[p] == 0 then None
    else if f[p] == 'S' as int then Some(p)
    else FindS(f, p + 1)
  }

  // The length of a newline, if there is a second line to learn it from.
  function NewlineLength(f: seq<Byte>): (r: Option<nat>)
    ensures r.Some? ==> 1 <= r.value <= 2
  {
    match FindS(f, 2)
    case None => None
    case Some(q) => Some(if f[q - 2] == 0x0d then 2 else 1)
  }

  // A division that truncates towards zero.
  function Half(x: int): int { if x >= 0 then x / 2 else -(-x / 2) }

  datatype Line = Info(length: nat, payload: int) | Data(length: nat, payload: int, offset: nat)
                | BadLine | StrayLine

  // The line at the start of b.  One length byte wraps.
  function ReadLine(b: seq<Byte>, newline: nat): (r: Line)
    ensures newline > 0 && (r.Info? || r.Data?) ==> r.length > 0
    ensures r.Data? ==> |b| >= 12 && r.offset < U32
  {
    if |b| < 4 then StrayLine
    else
      var chars := (2 + CharToVal(b[2], b[3])) % 256;
      var length := 2 * chars + newline;
      if b[0] != 'S' as int then BadLine
      else if b[1] == '0' as int then Info(length, length - 11)
      else if b[1] != '3' as int then BadLine
      else if |b| < 12 then StrayLine
      else Data(length, length - 14 - newline,
                ((CharToVal(b[4], b[5]) as int * 256 + CharToVal(b[6], b[7])) * 256
                 + CharToVal(b[8], b[9])) * 256 + CharToVal(b[10], b[11]))
  }

  // The n digits of the line at the start of b, stored at offset.
  function Stored(flash: seq<Byte>, offset: nat, b: seq<Byte>, n: nat): (r: seq<Byte>)
    requires n > 0 ==> 12 + n <= |b| && offset + n / 2 <= |flash|
    ensures |r| == |flash|
  {
    if n == 0 then flash else Put(flash, offset, Bytes(b[12..12 + n]))
  }

  // The loop over what is left of the file.
  function Run(b: seq<Byte>, newline: nat, flash: seq<Byte>, size: int): (r: Result)
    requires newline > 0
    ensures |r.flash| == |flash|
    decreases |b|
  {
    if b == [] then Result(Converted(size), flash)
    else
      match ReadLine(b, newline)
      case StrayLine => Result(Stray, flash)
      case BadLine => Result(Unsupported, flash)
      case Info(length, payload) =>
        if length > |b| then Result(Stray, flash)
        else Run(b[length..], newline, flash, size + Half(payload))
      case Data(length, payload, offset) =>
        if (offset + payload) % U32 > |flash| then Result(Outside, flash)
        else
          var n := if payload > 0 then payload else 0;
          if n > 0 && (12 + n > |b| || offset + n / 2 > |flash|) then Result(Stray, flash)
          else
            var image := Stored(flash, offset, b, n);
            if length > |b| then Result(Stray, image)
            else Run(b[length..], newline, image, size + Half(payload))
  }

  // s_record_to_bin
  function Convert(f: seq<Byte>, flash: seq<Byte>): Result {
    match NewlineLength(f)
    case None => Result(Stray, flash)
    case Some(newline) => Run(f, newline, flash, 0)
  }

  // ----- The program's loops -----

  // str_to_char.
  method StrToChar(f: array<Byte>, str: nat, flash: array<Byte>, buf: nat, length: int)
    requires f != flash
    requires length > 0 ==> str + length <= f.Length && buf + length / 2 <= flash.Length
    modifies flash
    ensures flash[..] == if length > 0 then Put(old(flash[..]), buf, Bytes(f[str..str + length]))
                         else old(flash[..])
  {
    hide CharToVal;
    if length <= 0 { return; }
    var i := 0;
    ghost var all := f[str..str + length];
    ghost var bytes := Bytes(all);
    while i < length / 2
      invariant 0 <= i <= length / 2
      invariant flash[..] == Put(old(flash[..]), buf, bytes[..i])
    {
      BytesAt(all, i);
      flash[buf + i] := CharToVal(f[str + 2 * i], f[str + 2 * i + 1]);
      PutMore(old(flash[..]), buf, bytes, i);
      i := i + 1;
    }
    assert bytes[..i] == bytes;
  }

  lemma {:induction false} BytesAt(str: seq<Byte>, i: nat)
    requires 2 * i + 1 < |str|
    ensures Bytes(str)[i] == CharToVal(str[2 * i], str[2 * i + 1])
    decreases i
  {
    hide CharToVal;
    if i > 0 { BytesAt(str[2..], i - 1); }
  }

  lemma PutMore(flash: seq<Byte>, offset: nat, b: seq<Byte>, i: nat)
    requires i < |b| && offset + |b| <= |flash|
    ensures Put(flash, offset, b[..i])[offset + i := b[i]] == Put(flash, offset, b[..i + 1])
  {
  }

  // strstr(sline + 2, "S")
  method SearchS(f: array<Byte>, start: nat) returns (r: Option<nat>)
    ensures r == FindS(f[..], start)
  {
    var p := start;
    while p < f.Length && f[p] != 0 && f[p] != 'S' as int
      invariant FindS(f[..], start) == FindS(f[..], p)
    {
      p := p + 1;
    }
    r := if p < f.Length && f[p] != 0 then Some(p) else None;
  }

  // The head of the loop and its switch: what the line at sline is.
  method Switch(f: array<Byte>, sline: nat, newline: nat) returns (line: Line)
    requires sline <= f.Length
    ensures line == ReadLine(f[sline..], newline)
  {
    hide CharToVal;
    ghost var b := f[sline..];
    assert forall i | 0 <= i < |b| :: b[i] == f[sline + i];
    if f.Length - sline < 4 { return StrayLine; }
    var numOfChar := (2 + CharToVal(f[sline + 2], f[sline + 3])) % 256;
    var slineLength := 2 * numOfChar + newline;
    if f[sline] == 'S' as int && f[sline + 1] == '0' as int {
      return Info(slineLength, slineLength - 11);
    } else if f[sline] == 'S' as int && f[sline + 1] == '3' as int {
      if f.Length - sline < 12 { return StrayLine; }
      var offset := CharToVal(f[sline + 4], f[sline + 5]) as int;
      offset := offset * 256 + CharToVal(f[sline + 6], f[sline + 7]);
      offset := offset * 256 + CharToVal(f[sline + 8], f[sline + 9]);
      offset := offset * 256 + CharToVal(f[sline + 10], f[sline + 11]);
      return Data(slineLength, slineLength - 14 - newline, offset);
    } else {
      return BadLine;
    }
  }

  // s_record_to_bin: left_to_convert is the length of the file behind sline.
  method ToBin(f: array<Byte>, flash: array<Byte>) returns (r: Outcome)
    requires f != flash && flash.Length < 0x8000_0000
    modifies flash
    ensures Result(r, flash[..]) == Convert(old(f[..]), old(flash[..]))
  {
    hide Run, Bytes, Put, Half, ReadLine;
    var isDos := SearchS(f, 2);
    if isDos.None? { return Stray; }
    var newline := if f[isDos.value - 2] == 0x0d then 2 else 1;
    ghost var text := f[..];
    var sline, left, binSize := 0, f.Length, 0;
    assert text[0..] == text;
    while left != 0
      invariant 0 <= sline <= f.Length && left == f.Length - sline && f[..] == text
      invariant Convert(text, old(flash[..])) == Run(text[sline..], newline, flash[..], binSize)
      decreases left
    {
      assert f[sline..] == text[sline..];
      RunStep(text[sline..], newline, flash[..], binSize);
      var line := Switch(f, sline, newline);
      if line.StrayLine? { return Stray; }
      if line.BadLine? { return Unsupported; }
      if line.Data? {
        var offset, payload := line.offset, line.payload;
        if (offset + payload) % U32 > flash.Length { return Outside; }
        if payload > 0 && (12 + payload > left || offset + payload / 2 > flash.Length) { return Stray; }
        if payload > 0 { assert f[sline + 12..sline + 12 + payload] == text[sline..][12..12 + payload]; }
        StrToChar(f, sline + 12, flash, offset, payload);
      }
      if line.length > left { return Stray; }
      assert text[sline..][line.length..] == text[sline + line.length..];
      binSize := binSize + Half(line.payload);
      sline := sline + line.length;
      left := left - line.length;
    }
    RunStep(text[sline..], newline, flash[..], binSize);
    r := Converted(binSize);
  }

  // One turn of the loop.
  lemma RunStep(b: seq<Byte>, newline: nat, flash: seq<Byte>, size: int)
    requires newline > 0
    ensures var r := Run(b, newline, flash, size);
      if b == [] then r == Result(Converted(size), flash)
      else match ReadLine(b, newline)
        case StrayLine => r == Result(Stray, flash)
        case BadLine => r == Result(Unsupported, flash)
        case Info(length, payload) =>
          r == if length > |b| then Result(Stray, flash)
               else Run(b[length..], newline, flash, size + Half(payload))
        case Data(length, payload, offset) =>
          if (offset + payload) % U32 > |flash| then r == Result(Outside, flash)
          else
            var n := if payload > 0 then payload else 0;
            if n > 0 && (12 + n > |b| || offset + n / 2 > |flash|) then r == Result(Stray, flash)
            else
              var image := Stored(flash, offset, b, n);
              r == if length > |b| then Result(Stray, image)
                   else Run(b[length..], newline, image, size + Half(payload))
  {
    hide Stored, ReadLine, Half;
  }
}
