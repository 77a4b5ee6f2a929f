// Lines of contrib/cobalt-ctl/s-record.c that are neither S0 nor S3: they end the
// conversion, and what the records before them stored stays.

module SRecordOther {
  import opened Base
  import opened SRecord
  import opened SRecordText

  // A line of at least four bytes that does not start with "S0" or "S3".
  predicate IsOther(b: seq<Byte>) {
    |b| >= 4 && !(b[0] == 0x53 && (b[1] == 0x30 || b[1] == 0x33))
  }

  lemma OtherEnds(b: seq<Byte>, newline: nat, flash: seq<Byte>, size: int)
    requires IsOther(b) && newline > 0
    ensures Run(b, newline, flash, size) == Result(Unsupported, flash)
  {
    hide CharToVal;
  }

  // Records that fit are stored, and the conversion goes on behind them.
  lemma {:induction false} RunBehind(lines: seq<seq<Byte>>, records: seq<Record>, newline: seq<Byte>,
                                     other: seq<Byte>, flash: seq<Byte>, size: int)
    requires SpellAll(lines, records) && IsNewline(newline) && |flash| < 0x8000_0000 && FitAll(records, |flash|)
    ensures Run(Text(lines, newline) + other, |newline|, flash, size)
         == Run(other, |newline|, Overlay(flash, records), size + Size(records))
    decreases |lines|
  {
    hide *;
    if lines == [] {
      NothingLeft(lines, records, newline, flash);
      assert [] + other == other;
    } else {
      SpellTail(lines, records);
      TextTail(lines, newline);
      FitParts(records, |flash|);
      FirstOverlay(flash, records);
      var r, rest := records[0], Text(lines[1..], newline);
      var image := Apply(flash, r);
      AppendAssoc(lines[0], newline + rest, other);
      AppendAssoc(newline, rest, other);
      RunRecord(lines[0], r, newline, rest + other, flash, size);
      RunBehind(lines[1..], records[1..], newline, other, image, size + SizeOf(r));
    }
  }

  function SizeOf(r: Record): int { if r.Comment? then |r.bytes| - 3 else |r.bytes| }

  lemma NothingLeft(lines: seq<seq<Byte>>, records: seq<Record>, newline: seq<Byte>, flash: seq<Byte>)
    requires SpellAll(lines, records) && lines == [] && FitAll(records, |flash|)
    ensures Text(lines, newline) == [] && Size(records) == 0 && Overlay(flash, records) == flash
  {
  }

  lemma FirstOverlay(flash: seq<Byte>, records: seq<Record>)
    requires records != [] && FitAll(records, |flash|)
    ensures Fits(records[0], |flash|) && FitAll(records[1..], |flash|)
    ensures Overlay(flash, records) == Overlay(Apply(flash, records[0]), records[1..])
    ensures Size(records) == SizeOf(records[0]) + Size(records[1..])
  {
    FitParts(records, |flash|);
    hide Apply, Fits;
  }

  lemma RunRecord(line: seq<Byte>, r: Record, newline: seq<Byte>, rest: seq<Byte>, flash: seq<Byte>, size: int)
    requires Spells(line, r) && IsNewline(newline) && |flash| < 0x8000_0000 && Fits(r, |flash|)
    ensures Run(line + (newline + rest), |newline|, flash, size)
         == Run(rest, |newline|, Apply(flash, r), size + SizeOf(r))
  {
    hide *;
    SpelledIsLegal(line, r);
    NewlineLengths(newline);
    Applied(flash, r);
    if r.Comment? {
      RunComment(line, r, newline, rest, flash, size);
      HalfLine(line, r, |newline|);
    } else {
      FitsIff(r, |flash|);
      RunImage(line, r, newline, rest, flash, size);
    }
  }

  lemma Applied(flash: seq<Byte>, r: Record)
    requires Legal(r) && Fits(r, |flash|)
    ensures !TooLong(r) && SizeOf(r) == if r.Comment? then |r.bytes| - 3 else |r.bytes|
    ensures r.Comment? ==> Apply(flash, r) == flash
    ensures r.Image? ==> r.address + |r.bytes| <= |flash|
    ensures r.Image? ==> Apply(flash, r) == if r.bytes == [] then flash else Put(flash, r.address, r.bytes)
  {
    if r.Image? { PutNothing(flash, r.address); }
    hide Put;
  }

  lemma SpelledIsLegal(line: seq<Byte>, r: Record)
    requires Spells(line, r)
    ensures Legal(r)
  {
  }

  lemma NewlineBefore(lines: seq<seq<Byte>>, records: seq<Record>, newline: seq<Byte>, other: seq<Byte>)
    requires SpellAll(lines, records) && IsNewline(newline)
    requires |lines| >= 2 || (|lines| == 1 && |other| > 0 && other[0] == 0x53)
    ensures NewlineLength(Text(lines, newline) + other) == Some(|newline|)
  {
    hide *;
    var head, rest := lines[0] + newline, Text(lines[1..], newline);
    SpellTail(lines, records);
    TextTail(lines, newline);
    AppendAssoc(lines[0], newline, rest);
    AppendAssoc(head, rest, other);
    if |lines| >= 2 {
      SecondLine(lines, records, newline);
    } else {
      assert lines[1..] == [];
      NoText(newline);
      assert [] + other == other;
    }
    NoSInside(lines[0], records[0], newline);
    NewlineLengths(newline);
    FoundBehind(head, rest + other, |newline|);
  }

  // A text of records that fit, and then another line, as the usual S7 at the
  // end: the records are stored, and yet the conversion ends with an error.
  lemma OtherLineIsError(lines: seq<seq<Byte>>, records: seq<Record>, newline: seq<Byte>, other: seq<Byte>,
                         flash: seq<Byte>)
    requires SpellAll(lines, records) && IsNewline(newline) && |flash| < 0x8000_0000 && FitAll(records, |flash|)
    requires IsOther(other) && (|lines| >= 2 || (|lines| == 1 && other[0] == 0x53))
    ensures Convert(Text(lines, newline) + other, flash) == Result(Unsupported, Overlay(flash, records))
  {
    hide Run, Text, Overlay, FitAll, Size, SpellAll, IsNewline, NewlineLength;
    NewlineBefore(lines, records, newline, other);
    RunBehind(lines, records, newline, other, flash, 0);
    NewlineLengths(newline);
    OtherEnds(other, |newline|, Overlay(flash, records), Size(records));
  }

  // What characters are taken for that are no digits; those from 0x80 on are
  // negative as signed ones.
  lemma NoDigits(c: Byte)
    ensures c < 0x30 ==> DigitToVal(c) == 0xd0 + c
    ensures 0x3a <= c <= 0x40 ==> DigitToVal(c) == 3 + (c - 0x3a)
    ensures 0x47 <= c <= 0x56 ==> DigitToVal(c) == 0xf0 + (c - 0x47)
    ensures 0x57 <= c <= 0x60 || 0x67 <= c < 0x80 ==> DigitToVal(c) == c - 0x57
    ensures c >= 0x80 ==> DigitToVal(c) == c - 0x30
  {
  }
}
